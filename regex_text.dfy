/**
 * The string algebra dfa_to_regex.py builds regular expressions with while it
 * eliminates states: bracketing, Kleene star, concatenation with the epsilon
 * marker '$', splitting a union at its top-level '+' signs, union of two
 * expressions as a set of alternatives, and the "can a final state still be
 * reached" test used to find dead states.  The empty string stands for the
 * empty language and "$" for the empty word.
 */
module RegexText {
  import opened Dfa
  import MinTable
  import Subset

  const Epsilon: char := '$'

  // ---------------------------------------------------------------------------
  // Parenthesis depth

  /** How a character moves the parenthesis depth. */
  function Delta(c: char): int
  {
    if c == '(' then 1 else if c == ')' then -1 else 0
  }

  /** The parenthesis depth after reading `s` from depth 0 (opening minus closing). */
  function Depth(s: string): (d: int)
    ensures -|s| <= d <= |s|
  {
    if s == [] then 0 else Depth(s[..|s| - 1]) + Delta(s[|s| - 1])
  }

  /** No prefix of `s` closes more parentheses than it opened. */
  predicate NeverBelow(s: string)
  {
    forall k :: 0 <= k <= |s| ==> Depth(s[..k]) >= 0
  }

  /** No '+' of `s` sits at depth 0: `s` is a single alternative. */
  predicate NoTopPlus(s: string)
  {
    forall k :: 0 <= k < |s| && s[k] == '+' ==> Depth(s[..k]) != 0
  }

  lemma {:induction false} DepthAppend(a: string, b: string)
    ensures Depth(a + b) == Depth(a) + Depth(b)
    decreases |b|
  {
    if b == [] {
      assert a + b == a;
    } else {
      var b' := b[..|b| - 1];
      var c := b[|b| - 1];
      assert (a + b)[..|a + b| - 1] == a + b';
      assert (a + b)[|a + b| - 1] == c;
      DepthAppend(a, b');
      assert Depth(a + b) == Depth(a + b') + Delta(c);
      assert Depth(b) == Depth(b') + Delta(c);
    }
  }

  lemma DepthSnoc(a: string, c: char)
    ensures Depth(a + [c]) == Depth(a) + Delta(c)
  {
    assert (a + [c])[..|a|] == a;
  }

  /** Extending an alternative by a character keeps it one alternative unless the character is a top-level '+'. */
  lemma NoTopPlusSnoc(a: string, c: char)
    requires NoTopPlus(a) && !(c == '+' && Depth(a) == 0)
    ensures NoTopPlus(a + [c])
  {
    forall k | 0 <= k < |a + [c]| && (a + [c])[k] == '+'
      ensures Depth((a + [c])[..k]) != 0
    {
      if k < |a| {
        assert (a + [c])[..k] == a[..k];
      } else {
        assert (a + [c])[..k] == a;
      }
    }
  }

  // ---------------------------------------------------------------------------
  // `bracket` and `kleene_star_regex`

  /** `bracket`: parenthesise anything longer than one character. */
  function Bracket(s: string): (r: string)
    ensures |s| <= 1 ==> r == s
    ensures |s| > 1 ==> |r| == |s| + 2 && r[0] == '(' && r[1..|r| - 1] == s && r[|r| - 1] == ')'
  {
    if |s| <= 1 then s else "(" + s + ")"
  }

  /**
   * A bracketed expression whose parentheses are properly nested is one
   * alternative at depth 0: a later split at '+' keeps it whole.
   */
  lemma BracketIsOneAlternative(s: string)
    requires |s| > 1 && NeverBelow(s) && Depth(s) == 0
    ensures NoTopPlus(Bracket(s)) && Depth(Bracket(s)) == 0 && NeverBelow(Bracket(s))
    ensures Pieces(Bracket(s)) == [Bracket(s)]
  {
    var r := Bracket(s);
    forall k | 1 <= k <= |s| + 1
      ensures Depth(r[..k]) >= 1
    {
      OpenedDepth(s, k);
    }
    forall k | 0 <= k < |r| && r[k] == '+'
      ensures Depth(r[..k]) != 0
    {
      assert 1 <= k <= |s|;
    }
    DepthAppend("(" + s, ")");
    DepthAppend("(", s);
    assert r == ("(" + s) + ")";
    assert Depth("(") == 1 by { assert "("[..0] == []; }
    assert Depth(")") == -1 by { assert ")"[..0] == []; }
    assert r[..0] == [] && r[..|r|] == r;
    OneAlternativeIsOnePiece(r);
  }

  /** Inside the brackets the depth is one more than in the bracketed text. */
  lemma OpenedDepth(s: string, k: int)
    requires |s| > 1 && NeverBelow(s) && 1 <= k <= |s| + 1
    ensures Depth(Bracket(s)[..k]) == 1 + Depth(s[..k - 1]) >= 1
  {
    assert Bracket(s)[..k] == "(" + s[..k - 1];
    DepthAppend("(", s[..k - 1]);
    assert Depth("(") == 1 by { assert "("[..0] == []; }
  }

  /** `kleene_star_regex`: '$' for the empty word and the empty language, `bracket(s)*` otherwise. */
  function KleeneStar(s: string): (r: string)
    ensures r == [Epsilon] <==> (s == [] || s == [Epsilon])
    ensures r != [Epsilon] ==> |r| >= 2 && r[|r| - 1] == '*'
  {
    if s == [Epsilon] then [Epsilon]
    else if s == [] then [Epsilon]
    else Bracket(s) + "*"
  }

  /** The star of a properly nested expression is one alternative: the star applies to the whole union. */
  lemma StarIsOneAlternative(s: string)
    requires NeverBelow(s) && Depth(s) == 0 && s != "+"
    ensures NoTopPlus(KleeneStar(s)) && Depth(KleeneStar(s)) == 0
    ensures Pieces(KleeneStar(s)) == [KleeneStar(s)]
  {
    var r := KleeneStar(s);
    if s != [] && s != [Epsilon] {
      var b := Bracket(s);
      if |s| > 1 {
        BracketIsOneAlternative(s);
      } else {
        assert s == [s[0]] && s[0] != '+';
        assert s[..0] == [];
        assert Depth(s) == Delta(s[0]);
      }
      NoTopPlusSnoc(b, '*');
      DepthSnoc(b, '*');
    } else {
      assert r == [Epsilon] && r[..0] == [];
    }
    OneAlternativeIsOnePiece(r);
  }

  // ---------------------------------------------------------------------------
  // `concat_regex`

  /** Deletes the epsilon markers: the symbols an expression spells out. */
  function Erase(s: string): (r: string)
    ensures |r| <= |s| && Epsilon !in r
  {
    if s == [] then []
    else Erase(s[..|s| - 1]) + (if s[|s| - 1] == Epsilon then [] else [s[|s| - 1]])
  }

  lemma {:induction false} EraseAppend(a: string, b: string)
    ensures Erase(a + b) == Erase(a) + Erase(b)
    decreases |b|
  {
    if b == [] {
      assert a + b == a;
    } else {
      var b' := b[..|b| - 1];
      var c := b[|b| - 1];
      var tail: string := if c == Epsilon then [] else [c];
      assert (a + b)[..|a + b| - 1] == a + b';
      assert (a + b)[|a + b| - 1] == c;
      EraseAppend(a, b');
      assert Erase(a + b) == Erase(a + b') + tail;
      assert Erase(b) == Erase(b') + tail;
    }
  }

  lemma EraseLast(a: string)
    requires a != [] && a[|a| - 1] == Epsilon
    ensures Erase(a[..|a| - 1]) == Erase(a)
  {
  }

  lemma EraseFirst(b: string)
    requires b != [] && b[0] == Epsilon
    ensures Erase(b[1..]) == Erase(b)
  {
    assert b == [b[0]] + b[1..];
    EraseAppend([b[0]], b[1..]);
    assert [b[0]][..0] == [];
  }

  /**
   * `concat_regex` as written: the empty language absorbs, a trailing '$' of the
   * first operand is dropped, and when the second operand starts with '$' its
   * first TWO characters are dropped (the slice `string_2[2:]`).
   */
  function ConcatAsWritten(s1: string, s2: string): (r: string)
    ensures r == [] <==> (s1 == [] || s2 == [])
  {
    if s1 == [] || s2 == [] then []
    else if s1[|s1| - 1] == Epsilon then s1[..|s1| - 1] + s2
    else if s2[0] == Epsilon then s1 + (if |s2| >= 2 then s2[2..] else [])
    else s1 + s2
  }

  /** "a" followed by "$b" loses the symbol 'b': the slice drops one character too many. */
  lemma ConcatAsWrittenDropsSymbol()
    ensures ConcatAsWritten("a", "$b") == "a"
    ensures Erase(ConcatAsWritten("a", "$b")) != Erase("a") + Erase("$b")
  {
    assert "$b"[2..] == [];
    assert Erase("a") == "a" by { assert "a"[..0] == []; }
    assert Erase("$b") == "b" by { EraseFirst("$b"); assert "$b"[1..] == "b"; assert "b"[..0] == []; }
  }

  /** `concat_regex` with the epsilon marker of the second operand dropped alone, as the first operand's is. */
  function Concat(s1: string, s2: string): (r: string)
    ensures r == [] <==> (s1 == [] || s2 == [])
    ensures s1 != [] && s2 != [] ==> Erase(r) == Erase(s1) + Erase(s2)
  {
    if s1 == [] || s2 == [] then []
    else if s1[|s1| - 1] == Epsilon then
      EraseLast(s1);
      EraseAppend(s1[..|s1| - 1], s2);
      EraseAppend(s1, s2);
      s1[..|s1| - 1] + s2
    else if s2[0] == Epsilon then
      EraseFirst(s2);
      EraseAppend(s1, s2[1..]);
      s1 + s2[1..]
    else
      EraseAppend(s1, s2);
      s1 + s2
  }

  // ---------------------------------------------------------------------------
  // `split_into_unique` and `union_regex`

  /**
   * The pieces of `s` cut at every '+' met at depth 0, when the scan starts at
   * `depth` with `cur` already read into the current piece.
   */
  function Split(s: string, depth: int, cur: string): (pieces: seq<string>)
    ensures |pieces| >= 1
    decreases |s|
  {
    if s == [] then [cur]
    else
      var d := depth + Delta(s[0]);
      if d == 0 && s[0] == '+' then [cur] + Split(s[1..], d, [])
      else Split(s[1..], d, cur + [s[0]])
  }

  /** The depth-0 alternatives of `s`, empty ones included, in order. */
  function Pieces(s: string): seq<string>
  {
    Split(s, 0, [])
  }

  /** `"+".join(pieces)`. */
  function JoinAll(pieces: seq<string>): (s: string)
    ensures |pieces| == 1 ==> s == pieces[0]
  {
    if pieces == [] then []
    else if |pieces| == 1 then pieces[0]
    else pieces[0] + "+" + JoinAll(pieces[1..])
  }

  /** The alternatives of `s` as a set, without the empty one. */
  ghost function PieceSet(s: string): set<string>
  {
    set p | p in Pieces(s) && p != []
  }

  /** Joining the pieces with '+' gives back the scanned text. */
  lemma {:induction false} SplitJoin(s: string, depth: int, cur: string)
    ensures JoinAll(Split(s, depth, cur)) == cur + s
    decreases |s|
  {
    if s != [] {
      var d := depth + Delta(s[0]);
      assert s == [s[0]] + s[1..];
      if d == 0 && s[0] == '+' {
        SplitJoin(s[1..], d, []);
        var rest := Split(s[1..], d, []);
        assert ([cur] + rest)[1..] == rest;
      } else {
        SplitJoin(s[1..], d, cur + [s[0]]);
      }
    }
  }

  lemma PiecesJoin(s: string)
    ensures JoinAll(Pieces(s)) == s
  {
    SplitJoin(s, 0, []);
  }

  /** Every piece is one alternative. */
  lemma {:induction false} SplitAlternatives(s: string, depth: int, cur: string)
    requires depth == Depth(cur) && NoTopPlus(cur)
    ensures forall p :: p in Split(s, depth, cur) ==> NoTopPlus(p)
    decreases |s|
  {
    if s != [] {
      var c := s[0];
      DepthSnoc(cur, c);
      if depth + Delta(c) == 0 && c == '+' {
        assert NoTopPlus([]);
        SplitAlternatives(s[1..], 0, []);
      } else {
        NoTopPlusSnoc(cur, c);
        SplitAlternatives(s[1..], depth + Delta(c), cur + [c]);
      }
    }
  }

  /** Every piece but the last closes all it opened; the last ends at the depth the whole text ends at. */
  lemma {:induction false} SplitDepths(s: string, depth: int, cur: string)
    requires depth == Depth(cur)
    ensures var pieces := Split(s, depth, cur);
      && (forall i :: 0 <= i < |pieces| - 1 ==> Depth(pieces[i]) == 0)
      && Depth(pieces[|pieces| - 1]) == Depth(cur + s)
    decreases |s|
  {
    if s == [] {
      assert cur + s == cur;
    } else {
      var c := s[0];
      DepthSnoc(cur, c);
      assert cur + s == (cur + [c]) + s[1..];
      if depth + Delta(c) == 0 && c == '+' {
        SplitDepths(s[1..], 0, []);
        DepthAppend(cur + [c], s[1..]);
        assert [] + s[1..] == s[1..];
        var rest := Split(s[1..], 0, []);
        assert Split(s, depth, cur) == [cur] + rest;
      } else {
        SplitDepths(s[1..], depth + Delta(c), cur + [c]);
      }
    }
  }

  /** Every piece of `s` is one alternative, and a text that closes what it opens has pieces that do too. */
  lemma PiecesShape(s: string)
    ensures forall p :: p in Pieces(s) ==> NoTopPlus(p)
    ensures Depth(s) == 0 ==> forall p :: p in Pieces(s) ==> Depth(p) == 0
  {
    assert NoTopPlus([]) && Depth([]) == 0;
    SplitAlternatives(s, 0, []);
    SplitDepths(s, 0, []);
    assert [] + s == s;
  }

  /** Reading a whole alternative leaves no cut inside it. */
  lemma {:induction false} SplitSkip(p: string, t: string, cur: string)
    requires NoTopPlus(cur + p)
    ensures Split(p + t, Depth(cur), cur) == Split(t, Depth(cur + p), cur + p)
    decreases |p|
  {
    if p == [] {
      assert cur + p == cur && p + t == t;
    } else {
      var c := p[0];
      DepthSnoc(cur, c);
      assert (cur + [c]) + p[1..] == cur + p;
      assert (p + t)[0] == c && (p + t)[1..] == p[1..] + t;
      if c == '+' {
        assert (cur + p)[|cur|] == '+' && (cur + p)[..|cur|] == cur;
      }
      SplitSkip(p[1..], t, cur + [c]);
    }
  }

  /** Splitting a '+'-join of single alternatives that close what they open gives the alternatives back. */
  lemma {:induction false} PiecesOfJoin(l: seq<string>)
    requires |l| >= 1
    requires forall x :: x in l ==> NoTopPlus(x) && Depth(x) == 0
    ensures Pieces(JoinAll(l)) == l
    decreases |l|
  {
    var x := l[0];
    assert [] + x == x;
    if |l| == 1 {
      SplitSkip(x, [], []);
      assert x + [] == x;
    } else {
      var rest := JoinAll(l[1..]);
      assert JoinAll(l) == x + ("+" + rest);
      SplitSkip(x, "+" + rest, []);
      assert ("+" + rest)[1..] == rest;
      PiecesOfJoin(l[1..]);
      assert l == [x] + l[1..];
    }
  }

  /** A single alternative is split into itself alone. */
  lemma OneAlternativeIsOnePiece(x: string)
    requires NoTopPlus(x)
    ensures Pieces(x) == [x]
  {
    assert [] + x == x && x + [] == x;
    SplitSkip(x, [], []);
  }

  /** The empty string has no alternative: it is the empty language, the identity of union. */
  lemma EmptyHasNoPieces()
    ensures PieceSet([]) == {}
  {
  }

  /**
   * `split_into_unique`: scans `s` keeping the parenthesis depth, cuts at each
   * '+' met at depth 0, removes duplicates and the empty piece.  The order of
   * the returned list follows set iteration in the source and is arbitrary here.
   */
  method SplitIntoUnique(s: string) returns (r: seq<string>)
    ensures MinTable.Distinct(r)
    ensures forall p :: p in r <==> p in PieceSet(s)
  {
    var i, brac := 0, 0;
    var result: seq<string> := [];
    for j := 0 to |s|
      invariant 0 <= i <= j
      invariant result + Split(s[j..], brac, s[i..j]) == Pieces(s)
    {
      var c := s[j];
      assert s[j..][0] == c && s[j..][1..] == s[j + 1..];
      ghost var before := brac;
      if c == '(' {
        brac := brac + 1;
      } else if c == ')' {
        brac := brac - 1;
      }
      assert brac == before + Delta(c);
      if brac == 0 && c == '+' {
        result := result + [s[i..j]];
        i := j + 1;
        assert s[i..j + 1] == [];
      } else {
        assert s[i..j] + [c] == s[i..j + 1];
      }
    }
    assert s[|s|..] == [] && s[i..|s|] == s[i..];
    result := result + [s[i..]];
    assert result == Pieces(s);
    r := Subset.SetList((set p | p in result) - {[]});
  }

  /**
   * `union_regex`: the alternatives of both operands, each once, joined with '+'.
   * The pieces are returned as a ghost list; for operands that close what they
   * open, splitting the result gives exactly the union of both piece sets.
   */
  method UnionRegex(r1: string, r2: string) returns (u: string, ghost pieces: seq<string>)
    ensures u == JoinAll(pieces) && MinTable.Distinct(pieces)
    ensures forall p :: p in pieces <==> p in PieceSet(r1) + PieceSet(r2)
    ensures Depth(r1) == 0 && Depth(r2) == 0 ==> PieceSet(u) == PieceSet(r1) + PieceSet(r2)
  {
    var split1 := SplitIntoUnique(r1);
    var split2 := SplitIntoUnique(r2);
    var merged := Subset.SetList((set p | p in split1) + (set p | p in split2));
    pieces := merged;
    u := JoinAll(merged);
    if Depth(r1) == 0 && Depth(r2) == 0 && merged != [] {
      PiecesShape(r1);
      PiecesShape(r2);
      PiecesOfJoin(merged);
    }
  }

  // ---------------------------------------------------------------------------
  // `is_final`

  /**
   * The lookups `is_final` makes from the states of `reach` succeed: every non-final
   * state there has a row holding every input symbol, and its targets stay in `reach`.
   * A final state needs no row, since the search returns before reading it.
   */
  ghost predicate SearchDefined<S(!new), C(!new)>(d: Dfa<S, C>, reach: set<S>)
  {
    forall v :: v in reach && v !in d.finals ==>
      && v in d.transitions && d.inputs <= d.transitions[v].Keys
      && forall c {:trigger Target(d.transitions, v, c)} :: c in d.inputs ==> Target(d.transitions, v, c) in reach
  }

  /** `v` has been looked at and found to lead only to looked-at states on every input. */
  ghost predicate Explored<S(!new), C(!new)>(d: Dfa<S, C>, v: S, seen: seq<S>)
  {
    && v in d.transitions && v !in d.finals && d.inputs <= d.transitions[v].Keys
    && forall c {:trigger Target(d.transitions, v, c)} :: c in d.inputs ==> Target(d.transitions, v, c) in seen
  }

  /** A final state is reached from `s` along a word over the alphabet. */
  ghost predicate LeadsToFinal<S(!new), C(!new)>(d: Dfa<S, C>, s: S, w: seq<C>)
  {
    Over(w, d.inputs) && Walk(d.transitions, s, w).Some? && Walk(d.transitions, s, w).value in d.finals
  }

  /**
   * `is_final`: depth-first search from `state` for a final state, appending
   * every non-final state it enters to the shared `visited` list.  On success a
   * witness word is returned; on failure every state the call appended is
   * non-final and leads only to visited states.
   */
  method IsFinal<S(!new), C(!new)>(state: S, visited: seq<S>, d: Dfa<S, C>, ghost reach: set<S>)
    returns (found: bool, visited': seq<S>, ghost w: seq<C>)
    requires SearchDefined(d, reach) && state in reach
    ensures visited <= visited'
    ensures found ==> LeadsToFinal(d, state, w)
    ensures !found ==> state in visited' && forall v :: v in visited' && v !in visited ==> Explored(d, v, visited')
    decreases d.transitions.Keys - (set x | x in visited), if state in visited then 1 else 0
  {
    found, w := false, [];
    visited' := visited;
    if state in d.finals {
      return true, visited', w;
    }
    visited' := visited' + [state];
    assert visited'[|visited|] == state;
    var rest := d.inputs;
    while rest != {}
      invariant rest <= d.inputs
      invariant visited + [state] <= visited'
      invariant state in visited' && forall x :: x in visited ==> x in visited'
      invariant forall v :: v in visited' && v !in visited && v != state ==> Explored(d, v, visited')
      invariant forall c {:trigger Target(d.transitions, state, c)} :: c in d.inputs - rest ==> Target(d.transitions, state, c) in visited'
      decreases rest
    {
      var c :| c in rest;
      rest := rest - {c};
      var next := Target(d.transitions, state, c);
      if next !in visited' {
        assert (set x | x in visited') >= (set x | x in visited) + {state};
        var more, after, w' := IsFinal(next, visited', d, reach);
        if more {
          w := [c] + w';
          assert w[0] == c && w[1..] == w';
          assert Walk(d.transitions, state, w) == Walk(d.transitions, next, w');
          assert Over(w, d.inputs) by {
            forall i | 0 <= i < |w| ensures w[i] in d.inputs {
              if i > 0 { assert w[i] == w'[i - 1]; }
            }
          }
          return true, after, w;
        }
        forall v | v in visited' && v !in visited && v != state
          ensures Explored(d, v, after)
        {
          assert forall x :: x in visited' ==> x in after;
        }
        visited' := after;
      }
    }
  }

  /** States closed under every input and holding no final state keep every walk inside them. */
  lemma {:induction false} ExploredHoldsWalks<S(!new), C(!new)>(d: Dfa<S, C>, seen: seq<S>, s: S, w: seq<C>)
    requires s in seen
    requires forall v :: v in seen ==> Explored(d, v, seen)
    requires Over(w, d.inputs)
    ensures Walk(d.transitions, s, w).Some? && Walk(d.transitions, s, w).value in seen
    decreases |w|
  {
    if w != [] {
      assert Explored(d, s, seen);
      assert Target(d.transitions, s, w[0]) in seen;
      ExploredHoldsWalks(d, seen, d.transitions[s][w[0]], w[1..]);
    }
  }

  /** `is_final(state, [], dfa)` as the elimination driver calls it: true iff a final state can be reached. */
  method CanReachFinal<S(!new), C(!new)>(d: Dfa<S, C>, state: S, ghost reach: set<S>) returns (found: bool)
    requires SearchDefined(d, reach) && state in reach
    ensures found <==> exists w :: LeadsToFinal(d, state, w)
  {
    var visited;
    ghost var w;
    found, visited, w := IsFinal(state, [], d, reach);
    if !found {
      forall w' | Over(w', d.inputs)
        ensures !LeadsToFinal(d, state, w')
      {
        ExploredHoldsWalks(d, visited, state, w');
        assert Explored(d, Walk(d.transitions, state, w').value, visited);
      }
    }
  }
}
