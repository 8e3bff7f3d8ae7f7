/**
 * `minify` of dfa.py: the table-filling algorithm marks the pairs of states some
 * word tells apart, the unmarked pairs are bound into groups, and the groups
 * become the states of a new automaton whose transitions follow one member of
 * each group.
 */
module Minimize {
  import opened Wrappers
  import opened Dfa
  import opened MinTable

  // ---------------------------------------------------------------------------
  // Equivalence of states

  /** Reading `w` from `s` along the transition map ends in a final state. */
  predicate AcceptsFrom<S(!new), C(!new)>(d: Dfa<S, C>, s: S, w: seq<C>)
  {
    var last := Walk(d.transitions, s, w);
    last.Some? && last.value in d.finals
  }

  /** The word `w` over the alphabet is accepted from one of `p`, `q` and not from the other. */
  predicate Distinguishes<S(!new), C(!new)>(d: Dfa<S, C>, p: S, q: S, w: seq<C>)
  {
    Over(w, d.inputs) && AcceptsFrom(d, p, w) != AcceptsFrom(d, q, w)
  }

  /** `p` and `q` accept the same words over the alphabet. */
  ghost predicate Equivalent<S(!new), C(!new)>(d: Dfa<S, C>, p: S, q: S)
  {
    forall w :: !Distinguishes(d, p, q, w)
  }

  lemma EquivalentSym<S(!new), C(!new)>(d: Dfa<S, C>, x: S, y: S)
    ensures Equivalent(d, x, y) <==> Equivalent(d, y, x)
  {
    if Equivalent(d, x, y) {
      forall w
        ensures !Distinguishes(d, y, x, w)
      {
        assert !Distinguishes(d, x, y, w);
      }
    }
    if Equivalent(d, y, x) {
      forall w
        ensures !Distinguishes(d, x, y, w)
      {
        assert !Distinguishes(d, y, x, w);
      }
    }
  }

  lemma EquivalentTrans<S(!new), C(!new)>(d: Dfa<S, C>, x: S, y: S, z: S)
    requires Equivalent(d, x, y) && Equivalent(d, y, z)
    ensures Equivalent(d, x, z)
  {
    forall w
      ensures !Distinguishes(d, x, z, w)
    {
      assert !Distinguishes(d, x, y, w) && !Distinguishes(d, y, z, w);
    }
  }

  /** The words over the alphabet accepted from `x`. */
  ghost function Lang<S(!new), C(!new)>(d: Dfa<S, C>): S -> iset<seq<C>>
  {
    x => iset w | Over(w, d.inputs) && AcceptsFrom(d, x, w)
  }

  /** Two states are equivalent exactly when they accept the same language. */
  lemma EquivalentIffLang<S(!new), C(!new)>(d: Dfa<S, C>, x: S, y: S)
    ensures Equivalent(d, x, y) <==> Lang(d)(x) == Lang(d)(y)
  {
    if Lang(d)(x) == Lang(d)(y) {
      forall w
        ensures !Distinguishes(d, x, y, w)
      {
        assert w in Lang(d)(x) <==> w in Lang(d)(y);
      }
    }
    if Equivalent(d, x, y) {
      forall w
        ensures w in Lang(d)(x) <==> w in Lang(d)(y)
      {
        assert !Distinguishes(d, x, y, w);
      }
    }
  }

  /** Every marked entry holds a pair some word tells apart. */
  ghost predicate Sound<S(!new), C(!new)>(d: Dfa<S, C>, t: map<(S, S), bool>)
  {
    forall k :: k in t && t[k] ==> !Equivalent(d, k.0, k.1)
  }

  /** `t2` has the keys of `t1` and keeps every mark of `t1`. */
  ghost predicate Grows<S(!new)>(t1: map<(S, S), bool>, t2: map<(S, S), bool>)
  {
    t1.Keys == t2.Keys && forall k :: k in t1 && t1[k] ==> t2[k]
  }

  /** On `c`, the pair `k` goes to one state or to a pair unmarked in `t`. */
  ghost predicate StableOn<S(!new), C(!new)>(d: Dfa<S, C>, t: map<(S, S), bool>, k: (S, S), c: C)
  {
    && k.0 in d.transitions && k.1 in d.transitions
    && c in d.transitions[k.0] && c in d.transitions[k.1]
    && (Target(d.transitions, k.0, c) == Target(d.transitions, k.1, c)
        || Checked(t, (Target(d.transitions, k.0, c), Target(d.transitions, k.1, c)), true) == Ok(false))
  }

  /** Nothing in `t` would mark the pair `k`: equal finality, and stable on every symbol. */
  ghost predicate Stable<S(!new), C(!new)>(d: Dfa<S, C>, t: map<(S, S), bool>, k: (S, S))
  {
    (k.0 in d.finals <==> k.1 in d.finals) && forall c :: c in d.inputs ==> StableOn(d, t, k, c)
  }

  ghost function Unmarked<S(!new)>(t: map<(S, S), bool>): set<(S, S)>
  {
    set k | k in t && !t[k]
  }

  /** A pair with different finality is told apart by the empty word. */
  lemma MarkedByFinality<S(!new), C(!new)>(d: Dfa<S, C>, p: S, q: S)
    requires (p in d.finals) != (q in d.finals)
    ensures !Equivalent(d, p, q)
  {
    assert Distinguishes(d, p, q, []);
  }

  /** A pair whose successors on some symbol are told apart is told apart itself. */
  lemma MarkedBySuccessor<S(!new), C(!new)>(d: Dfa<S, C>, p: S, q: S, c: C)
    requires c in d.inputs && p in d.transitions && q in d.transitions
    requires c in d.transitions[p] && c in d.transitions[q]
    requires !Equivalent(d, d.transitions[p][c], d.transitions[q][c])
    ensures !Equivalent(d, p, q)
  {
    var p', q' := d.transitions[p][c], d.transitions[q][c];
    var w :| Distinguishes(d, p', q', w);
    var cw := [c] + w;
    assert cw[0] == c && cw[1..] == w;
    assert Over(cw, d.inputs);
    assert Distinguishes(d, p, q, cw);
  }

  /** A marked entry of a sound table, looked up in either order, is a pair told apart. */
  lemma CheckedSound<S(!new), C(!new)>(d: Dfa<S, C>, t: map<(S, S), bool>, p: S, q: S)
    requires Sound(d, t) && Checked(t, (p, q), true) == Ok(true)
    ensures !Equivalent(d, p, q)
  {
    var k := Entry(t, (p, q)).value;
    assert t[k] && !Equivalent(d, k.0, k.1);
    EquivalentSym(d, p, q);
  }

  /** An entry unmarked in a table was unmarked in any table it grew from. */
  lemma CheckedGrows<S(!new)>(t1: map<(S, S), bool>, t2: map<(S, S), bool>, p: (S, S))
    requires Grows(t1, t2) && Checked(t2, p, true) == Ok(false)
    ensures Checked(t1, p, true) == Ok(false)
  {
  }

  /** Where every unmarked entry is stable, the unmarked pairs accept the same words. */
  lemma {:induction false} StableAgree<S(!new), C(!new)>(d: Dfa<S, C>, t: map<(S, S), bool>, p: S, q: S, w: seq<C>)
    requires Total(d) && Oriented(t)
    requires forall k :: k in t && !t[k] ==> Stable(d, t, k)
    requires p in d.states && q in d.states && (p == q || Checked(t, (p, q), true) == Ok(false))
    requires Over(w, d.inputs)
    ensures AcceptsFrom(d, p, w) <==> AcceptsFrom(d, q, w)
    decreases |w|
  {
    if p != q {
      var k := Entry(t, (p, q)).value;
      assert !t[k] && Stable(d, t, k);
      if w != [] {
        var c := w[0];
        assert c in d.inputs && StableOn(d, t, k, c);
        var p', q' := Target(d.transitions, p, c), Target(d.transitions, q, c);
        CheckedSymmetric(t, p', q', true);
        assert Over(w[1..], d.inputs);
        StableAgree(d, t, p', q', w[1..]);
      }
    }
  }

  // ---------------------------------------------------------------------------
  // The marking loop

  /**
   * One symbol of the inner loop: mark `pair` when its successors on `c` form a
   * marked entry; a lookup of two equal successors is not in the table and is skipped.
   */
  method MarkOnSymbol<S(==,!new), C(==,!new)>(d: Dfa<S, C>, mt: Table<S>, pair: (S, S), c: C)
    requires Steps(d, pair) && pair in mt.table && c in d.inputs
    requires Oriented(mt.table) && Covers(mt.table, d.states)
    requires Grows(mt.backMap, mt.table) && Sound(d, mt.table)
    modifies mt
    ensures Grows(old(mt.table), mt.table) && Grows(mt.backMap, mt.table) && Sound(d, mt.table)
    ensures forall k :: k in mt.table && k != pair ==> mt.table[k] == old(mt.table)[k]
    ensures !mt.table[pair] ==> StableOn(d, mt.backMap, pair, c)
    ensures mt.backMap == old(mt.backMap) && mt.states == old(mt.states)
  {
    var target1, target2 := d.transitions[pair.0][c], d.transitions[pair.1][c];
    assert target1 == Target(d.transitions, pair.0, c) && target2 == Target(d.transitions, pair.1, c);
    var checked := mt.IsChecked((target1, target2), true);
    if checked == Ok(true) {
      CheckedSound(d, mt.table, target1, target2);
      MarkedBySuccessor(d, pair.0, pair.1, c);
      var outcome := mt.UpdateTable(pair, true);
    } else if checked == Ok(false) {
      CheckedGrows(mt.backMap, mt.table, (target1, target2));
    }
  }

  /** Both states of `pair` have a target among the states on every symbol of the alphabet. */
  ghost predicate Steps<S(!new), C(!new)>(d: Dfa<S, C>, pair: (S, S))
  {
    && pair.0 in d.transitions && pair.1 in d.transitions
    && d.inputs <= d.transitions[pair.0].Keys && d.inputs <= d.transitions[pair.1].Keys
    && forall c :: c in d.inputs ==> d.transitions[pair.0][c] in d.states && d.transitions[pair.1][c] in d.states
  }

  /** The body of `for pair in mt.keys()`: mark `pair` if its states differ in finality or in a successor. */
  method MarkPair<S(==,!new), C(==,!new)>(d: Dfa<S, C>, mt: Table<S>, pair: (S, S))
    requires Total(d) && pair in mt.table
    requires Oriented(mt.table) && Covers(mt.table, d.states)
    requires Grows(mt.backMap, mt.table) && Sound(d, mt.table)
    modifies mt
    ensures Grows(old(mt.table), mt.table) && Grows(mt.backMap, mt.table) && Sound(d, mt.table)
    ensures forall k :: k in mt.table && k != pair ==> mt.table[k] == old(mt.table)[k]
    ensures !mt.table[pair] ==> Stable(d, mt.backMap, pair)
    ensures mt.backMap == old(mt.backMap) && mt.states == old(mt.states)
  {
    if (pair.0 in d.finals) != (pair.1 in d.finals) {
      MarkedByFinality(d, pair.0, pair.1);
      var outcome := mt.UpdateTable(pair, true);
      return;
    }
    TotalSteps(d, pair);
    MarkOnInputs(d, mt, pair);
  }

  lemma TotalSteps<S(!new), C(!new)>(d: Dfa<S, C>, pair: (S, S))
    requires Total(d) && pair.0 in d.states && pair.1 in d.states
    ensures Steps(d, pair)
  {
    forall c | c in d.inputs
      ensures d.transitions[pair.0][c] in d.states && d.transitions[pair.1][c] in d.states
    {
      assert Target(d.transitions, pair.0, c) in d.transitions && Target(d.transitions, pair.1, c) in d.transitions;
    }
  }

  /** The inner `for symbol in self.inputs` loop of `minify` for one pair. */
  method MarkOnInputs<S(==,!new), C(==,!new)>(d: Dfa<S, C>, mt: Table<S>, pair: (S, S))
    requires Steps(d, pair) && pair in mt.table
    requires Oriented(mt.table) && Covers(mt.table, d.states)
    requires Grows(mt.backMap, mt.table) && Sound(d, mt.table)
    modifies mt
    ensures Grows(old(mt.table), mt.table) && Grows(mt.backMap, mt.table) && Sound(d, mt.table)
    ensures forall k :: k in mt.table && k != pair ==> mt.table[k] == old(mt.table)[k]
    ensures !mt.table[pair] ==> forall c :: c in d.inputs ==> StableOn(d, mt.backMap, pair, c)
    ensures mt.backMap == old(mt.backMap) && mt.states == old(mt.states)
  {
    ghost var start := mt.table;
    var rest := d.inputs;
    while rest != {}
      invariant rest <= d.inputs
      invariant Grows(start, mt.table) && Grows(mt.backMap, mt.table) && Sound(d, mt.table)
      invariant forall k :: k in mt.table && k != pair ==> mt.table[k] == start[k]
      invariant !mt.table[pair] ==> forall c :: c in d.inputs - rest ==> StableOn(d, mt.backMap, pair, c)
      invariant mt.backMap == old(mt.backMap) && mt.states == old(mt.states)
      decreases rest
    {
      var c :| c in rest;
      SameKeys(start, mt.table, d.states);
      MarkOnSymbol(d, mt, pair, c);
      rest := rest - {c};
    }
  }

  /** Oriented and covering tables stay so under any change that keeps their keys. */
  lemma SameKeys<S(!new)>(t1: map<(S, S), bool>, t2: map<(S, S), bool>, states: set<S>)
    requires Oriented(t1) && Covers(t1, states) && t1.Keys == t2.Keys
    ensures Oriented(t2) && Covers(t2, states)
  {
  }

  /** One pass of the `while` loop of `minify`, after the table was saved into the back map. */
  method MarkPass<S(==,!new), C(==,!new)>(d: Dfa<S, C>, mt: Table<S>)
    requires Total(d)
    requires Oriented(mt.table) && Covers(mt.table, d.states)
    requires mt.backMap == mt.table && Sound(d, mt.table)
    modifies mt
    ensures Grows(mt.backMap, mt.table) && Sound(d, mt.table)
    ensures forall k :: k in mt.table && !mt.table[k] ==> Stable(d, mt.backMap, k)
    ensures mt.backMap == old(mt.backMap) && mt.states == old(mt.states)
  {
    var keys := mt.Keys();
    ghost var back := mt.backMap;
    for i := 0 to |keys|
      invariant forall j :: 0 <= j < |keys| ==> keys[j] in mt.table
      invariant Grows(back, mt.table) && Sound(d, mt.table)
      invariant Oriented(mt.table) && Covers(mt.table, d.states)
      invariant forall j :: 0 <= j < i && !mt.table[keys[j]] ==> Stable(d, back, keys[j])
      invariant mt.backMap == back && mt.states == old(mt.states)
    {
      ghost var before := mt.table;
      MarkPair(d, mt, keys[i]);
      forall j | 0 <= j < i && !mt.table[keys[j]]
        ensures Stable(d, back, keys[j])
      {
        assert !before[keys[j]];
      }
    }
  }

  /** Tables with the same keys and the same value under each key hold the same entries. */
  lemma AgreeSame<S(!new)>(t1: map<(S, S), bool>, t2: map<(S, S), bool>)
    ensures t1.Keys == t2.Keys && (forall k :: k in t1 ==> t1[k] == t2[k]) ==> SameEntries(t2, t1)
  {
    if t1.Keys == t2.Keys && forall k :: k in t1 ==> t1[k] == t2[k] {
      assert t1 == t2;
    }
  }

  /** A pass whose table holds the entries of the back map left it unchanged. */
  lemma SameGrown<S(!new)>(t1: map<(S, S), bool>, t2: map<(S, S), bool>)
    requires Grows(t1, t2) && SameEntries(t2, t1)
    ensures t1 == t2
  {
    forall k | k in t1
      ensures t1[k] == t2[k]
    {
      assert Checked(t1, k, t2[k]) == Ok(true);
    }
  }

  lemma {:induction false} SubsetSmaller<T>(a: set<T>, b: set<T>)
    requires a <= b
    ensures |a| <= |b|
    decreases b
  {
    if a != {} {
      var x :| x in a;
      SubsetSmaller(a - {x}, b - {x});
    }
  }

  /** A pass that changed the table left fewer entries unmarked. */
  lemma UnmarkedShrinks<S(!new)>(t1: map<(S, S), bool>, t2: map<(S, S), bool>)
    requires Grows(t1, t2) && !SameEntries(t2, t1)
    ensures |Unmarked(t2)| < |Unmarked(t1)|
  {
    AgreeSame(t1, t2);
    var k :| k in t1 && t1[k] != t2[k];
    assert k in Unmarked(t1) && k !in Unmarked(t2);
    SubsetSmaller(Unmarked(t2), Unmarked(t1) - {k});
  }

  /**
   * The marking loop of `minify`: pass over the table until a pass leaves it as the
   * back map saved before it.  The marked entries are then exactly the pairs of
   * states that some word over the alphabet tells apart.
   */
  method MarkTable<S(==,!new), C(==,!new)>(d: Dfa<S, C>) returns (mt: Table<S>)
    requires Total(d)
    ensures fresh(mt) && mt.states == d.states
    ensures Oriented(mt.table) && Covers(mt.table, d.states)
    ensures forall k :: k in mt.table ==> (mt.table[k] <==> !Equivalent(d, k.0, k.1))
  {
    mt := new Table(d.states);
    var back := new Table.FromTable(d.states, mt.backMap);
    var same := mt.Equals(back);
    while !same
      invariant fresh(mt) && mt.states == d.states
      invariant Oriented(mt.table) && Covers(mt.table, d.states) && Sound(d, mt.table)
      invariant same ==> forall k :: k in mt.table && !mt.table[k] ==> Stable(d, mt.table, k)
      decreases |Unmarked(mt.table)| + (if same then 0 else 1)
    {
      mt.SaveCurrentTableIntoBackMap();
      ghost var start := mt.table;
      assert Oriented(start);
      MarkPass(d, mt);
      ghost var after := mt.table;
      assert Grows(start, after);
      back := new Table.FromTable(d.states, mt.backMap);
      assert back.table == start && mt.table == after;
      assert Oriented(back.table) && Oriented(mt.table);
      same := mt.Equals(back);
      assert same <==> SameEntries(after, start);
      if same {
        SameGrown(start, after);
      } else {
        UnmarkedShrinks(start, after);
      }
    }
    StableComplete(d, mt.table);
  }

  /**
   * A sound table in which every unmarked pair is stable marks exactly the pairs of
   * states that some word tells apart.
   */
  lemma StableComplete<S(!new), C(!new)>(d: Dfa<S, C>, t: map<(S, S), bool>)
    requires Total(d) && Oriented(t) && Covers(t, d.states) && Sound(d, t)
    requires forall k :: k in t && !t[k] ==> Stable(d, t, k)
    ensures forall k :: k in t ==> (t[k] <==> !Equivalent(d, k.0, k.1))
  {
    forall k | k in t && !t[k]
      ensures Equivalent(d, k.0, k.1)
    {
      forall w
        ensures !Distinguishes(d, k.0, k.1, w)
      {
        if Over(w, d.inputs) {
          StableAgree(d, t, k.0, k.1, w);
        }
      }
    }
  }

  // ---------------------------------------------------------------------------
  // The new automaton

  /** `_search_in_list_of_sets`: the first set holding `x`; None where the source returns False. */
  method SearchInListOfSets<S(==)>(groups: seq<set<S>>, x: S) returns (r: Option<set<S>>)
    ensures r.None? <==> forall i :: 0 <= i < |groups| ==> x !in groups[i]
    ensures r.Some? ==> exists i :: 0 <= i < |groups| && groups[i] == r.value && x in r.value
                                    && forall j :: 0 <= j < i ==> x !in groups[j]
  {
    for i := 0 to |groups|
      invariant forall j :: 0 <= j < i ==> x !in groups[j]
    {
      if x in groups[i] {
        return Some(groups[i]);
      }
    }
    return None;
  }

  /** Every state of the automaton lies in some group. */
  ghost predicate Covering<S(!new), C(!new)>(d: Dfa<S, C>, groups: seq<set<S>>)
  {
    forall x :: x in d.states ==> exists i :: 0 <= i < |groups| && x in groups[i]
  }

  /** The row of one group: for every symbol, the group holding the target of `rep`. */
  method BuildRow<S(==,!new), C(==,!new)>(d: Dfa<S, C>, groups: seq<set<S>>, rep: S) returns (row: map<C, set<S>>)
    requires Total(d) && rep in d.states && Covering(d, groups)
    ensures row.Keys == d.inputs
    ensures forall c :: c in row ==> row[c] in groups && Target(d.transitions, rep, c) in row[c]
  {
    row := map[];
    var rest := d.inputs;
    while rest != {}
      invariant rest <= d.inputs && row.Keys == d.inputs - rest
      invariant forall c :: c in row ==> row[c] in groups && Target(d.transitions, rep, c) in row[c]
      decreases rest
    {
      var c :| c in rest;
      var target := Target(d.transitions, rep, c);
      var found := SearchInListOfSets(groups, target);
      assert target in d.states;
      row := row[c := found.value];
      rest := rest - {c};
    }
  }

  /**
   * Every row is keyed by the alphabet and, on each symbol, goes to a group holding
   * the target of some member of the row's own group.
   */
  ghost predicate Rows<S(!new), C(!new)>(d: Dfa<S, C>, groups: seq<set<S>>, t: map<set<S>, map<C, set<S>>>)
  {
    && (forall g :: g in t ==> t[g].Keys == d.inputs)
    && (forall g, c {:trigger Target(t, g, c)} :: g in t && c in t[g] ==>
          && Target(t, g, c) in groups
          && exists x :: x in g && x in d.transitions && c in d.transitions[x]
                         && Target(d.transitions, x, c) in Target(t, g, c))
  }

  /** A row built from a member of its group keeps the rows well formed. */
  lemma AddRow<S(!new), C(!new)>(d: Dfa<S, C>, groups: seq<set<S>>, t: map<set<S>, map<C, set<S>>>,
                                 group: set<S>, rep: S, row: map<C, set<S>>)
    requires Total(d) && Rows(d, groups, t) && rep in group && rep in d.states
    requires row.Keys == d.inputs
    requires forall c :: c in row ==> row[c] in groups && Target(d.transitions, rep, c) in row[c]
    ensures Rows(d, groups, t[group := row])
  {
    var t' := t[group := row];
    forall g, c | g in t' && c in t'[g]
      ensures Target(t', g, c) in groups
      ensures exists x :: x in g && x in d.transitions && c in d.transitions[x]
                          && Target(d.transitions, x, c) in Target(t', g, c)
    {
      if g == group {
        assert Target(t', g, c) == row[c];
        assert rep in d.transitions && c in d.transitions[rep];
      } else {
        assert Target(t', g, c) == Target(t, g, c);
      }
    }
  }

  /**
   * `r` is built from `groups` as `minify` builds its result: one state per group,
   * each group's row following one of its members, a group final when it holds
   * a final state, and the initial state's group initial.
   */
  ghost predicate Quotient<S(!new), C(!new)>(d: Dfa<S, C>, groups: seq<set<S>>, r: Dfa<set<S>, C>)
  {
    && r.inputs == d.inputs
    && (forall g :: g in r.states <==> g in groups)
    && r.transitions.Keys == r.states
    && Rows(d, groups, r.transitions)
    && (forall g :: g in r.finals <==> g in r.states && exists f :: f in d.finals && f in g)
    && r.initial in groups && d.initial in r.initial
  }

  /** The loop over the groups building the states, transitions and finals of the result. */
  method BuildQuotient<S(==,!new), C(==,!new)>(d: Dfa<S, C>, groups: seq<set<S>>) returns (r: Dfa<set<S>, C>)
    requires Total(d) && Covering(d, groups)
    requires {} !in groups && forall i :: 0 <= i < |groups| ==> groups[i] <= d.states
    ensures Quotient(d, groups, r)
  {
    assert d.initial in d.states;
    var initial := SearchInListOfSets(groups, d.initial);
    var transitions: map<set<S>, map<C, set<S>>> := map[];
    var states: set<set<S>> := {};
    var finals: set<set<S>> := {};
    for i := 0 to |groups|
      invariant forall g :: g in states <==> g in groups[..i]
      invariant transitions.Keys == states
      invariant Rows(d, groups, transitions)
      invariant forall g :: g in finals <==> g in states && exists f :: f in d.finals && f in g
    {
      var group := groups[i];
      assert group in groups && group != {};
      var rep :| rep in group;
      var row := BuildRow(d, groups, rep);
      if group !in transitions {
        AddRow(d, groups, transitions, group, rep, row);
        transitions := transitions[group := row];
      }
      states := states + {group};
      if exists f :: f in d.finals && f in group {
        finals := finals + {group};
      }
    }
    assert groups[..|groups|] == groups;
    r := Dfa(states, d.inputs, transitions, finals, initial.value);
  }

  /** All members of every group accept the same words. */
  ghost predicate GroupsEquivalent<S(!new), C(!new)>(d: Dfa<S, C>, groups: seq<set<S>>)
  {
    forall i, x, y :: 0 <= i < |groups| && x in groups[i] && y in groups[i] ==> Equivalent(d, x, y)
  }

  /** From a group, the new automaton accepts what each member accepts in the old one. */
  lemma {:induction false} QuotientAccepts<S(!new), C(!new)>(d: Dfa<S, C>, groups: seq<set<S>>, r: Dfa<set<S>, C>,
                                                            g: set<S>, s: S, w: seq<C>)
    requires Total(d) && Quotient(d, groups, r) && GroupsEquivalent(d, groups)
    requires g in groups && s in g && Over(w, d.inputs)
    ensures AcceptsFrom(r, g, w) <==> AcceptsFrom(d, s, w)
    decreases |w|
  {
    var i :| 0 <= i < |groups| && groups[i] == g;
    if w == [] {
      assert g in r.states;
      if exists f :: f in d.finals && f in g {
        var f :| f in d.finals && f in g;
        assert Over([], d.inputs) && AcceptsFrom(d, f, []);
        assert Equivalent(d, f, s) && !Distinguishes(d, f, s, []);
      } else {
        assert s !in d.finals;
      }
    } else {
      var c := w[0];
      assert c in d.inputs;
      var next := Target(r.transitions, g, c);
      var x :| x in g && x in d.transitions && c in d.transitions[x] && Target(d.transitions, x, c) in next;
      assert Over(w[1..], d.inputs);
      QuotientAccepts(d, groups, r, next, Target(d.transitions, x, c), w[1..]);
      assert Equivalent(d, x, s) && !Distinguishes(d, x, s, w);
    }
  }

  /**
   * The groups `minify` builds (the intended classes of the unmarked pairs, then
   * one singleton per state left): they are non-empty, disjoint, cover the states,
   * and hold equivalent states only.
   */
  ghost predicate Grouping<S(!new), C(!new)>(d: Dfa<S, C>, t: map<(S, S), bool>, remained: seq<(S, S)>,
                                             groups: seq<set<S>>, left: set<S>)
  {
    && Oriented(t) && Covers(t, d.states)
    && (forall k :: k in t ==> (t[k] <==> !Equivalent(d, k.0, k.1)))
    && (forall p :: p in remained <==> p in t && !t[p])
    && |Classes(remained, {})| <= |groups| && groups[..|Classes(remained, {})|] == Classes(remained, {})
    && left == d.states - MinTable.Union(Classes(remained, {}))
    && Singletons(groups[|Classes(remained, {})|..], left)
  }

  lemma GroupsPartition<S(!new), C(!new)>(d: Dfa<S, C>, t: map<(S, S), bool>, remained: seq<(S, S)>,
                                          groups: seq<set<S>>, left: set<S>)
    requires Grouping(d, t, remained, groups, left)
    ensures Covering(d, groups) && GroupsEquivalent(d, groups)
    ensures {} !in groups && forall i :: 0 <= i < |groups| ==> groups[i] <= d.states
    ensures forall i, j :: 0 <= i < j < |groups| ==> groups[i] !! groups[j]
  {
    GroupsWithin(d, t, remained, groups, left);
    GroupsCovering(d, t, remained, groups, left);
    GroupsAgree(d, t, remained, groups, left);
    GroupsApart(d, t, remained, groups, left);
  }

  /** Equivalent states land in one group: the grouping leaves nothing to merge. */
  lemma GroupsMerge<S(!new), C(!new)>(d: Dfa<S, C>, t: map<(S, S), bool>, remained: seq<(S, S)>,
                                      groups: seq<set<S>>, left: set<S>)
    requires Grouping(d, t, remained, groups, left)
    ensures forall i, j, x, y ::
              (0 <= i < |groups| && 0 <= j < |groups| && x in groups[i] && y in groups[j] && Equivalent(d, x, y))
              ==> groups[i] == groups[j]
  {
    GroupsApart(d, t, remained, groups, left);
    GroupsWithin(d, t, remained, groups, left);
    RemainedByKey(d, t, remained);
    MergeByKey(groups, remained, Lang(d), d.states);
    forall i, j, x, y | 0 <= i < |groups| && 0 <= j < |groups| && x in groups[i] && y in groups[j] && Equivalent(d, x, y)
      ensures groups[i] == groups[j]
    {
      EquivalentIffLang(d, x, y);
    }
  }

  /**
   * Groups within `states` that start with the intended classes of `pairs` and are
   * pairwise disjoint put any two related states in one group, when every two
   * related states are listed as a pair.
   */
  lemma MergeByKey<S(!new), K>(groups: seq<set<S>>, pairs: seq<(S, S)>, key: S -> K, states: set<S>)
    requires |Classes(pairs, {})| <= |groups| && groups[..|Classes(pairs, {})|] == Classes(pairs, {})
    requires forall a, b :: 0 <= a < b < |groups| ==> groups[a] !! groups[b]
    requires forall a :: 0 <= a < |groups| ==> groups[a] <= states
    requires forall p :: p in pairs ==> p.0 in states && p.1 in states && key(p.0) == key(p.1)
    requires forall u, v :: u in states && v in states && u != v && key(u) == key(v) ==> (u, v) in pairs || (v, u) in pairs
    ensures forall i, j, x, y ::
              (0 <= i < |groups| && 0 <= j < |groups| && x in groups[i] && y in groups[j] && key(x) == key(y))
              ==> groups[i] == groups[j]
  {
    var classes := Classes(pairs, {});
    forall i, j, x, y | 0 <= i < |groups| && 0 <= j < |groups| && x in groups[i] && y in groups[j] && key(x) == key(y)
      ensures groups[i] == groups[j]
    {
      if x != y {
        var k := KeyedShareClass(pairs, key, states, x, y);
        ClassIndex(groups, classes, k, i, x);
        ClassIndex(groups, classes, k, j, y);
      }
    }
  }

  /** Two distinct related states of `states` lie in one intended class, when every two related states are listed. */
  lemma KeyedShareClass<S(!new), K>(pairs: seq<(S, S)>, key: S -> K, states: set<S>, x: S, y: S) returns (k: int)
    requires forall p :: p in pairs ==> p.0 in states && p.1 in states && key(p.0) == key(p.1)
    requires forall u, v :: u in states && v in states && u != v && key(u) == key(v) ==> (u, v) in pairs || (v, u) in pairs
    requires x in states && y in states && x != y && key(x) == key(y)
    ensures 0 <= k < |Classes(pairs, {})| && x in Classes(pairs, {})[k] && y in Classes(pairs, {})[k]
  {
    var classes := Classes(pairs, {});
    StatesOfMembers(pairs);
    ClassesCover(pairs, {});
    ClassesClosed(pairs, {}, key);
    var p := if (x, y) in pairs then (x, y) else (y, x);
    assert p in pairs && {p.0, p.1} == {x, y};
    assert x in StatesOf(pairs) && y in StatesOf(pairs);
    k :| 0 <= k < |classes| && x in classes[k];
  }

  /** In disjoint groups that start with `classes`, a member of class `k` lies only in group `k`. */
  lemma ClassIndex<S>(groups: seq<set<S>>, classes: seq<set<S>>, k: int, i: int, x: S)
    requires |classes| <= |groups| && groups[..|classes|] == classes
    requires forall a, b :: 0 <= a < b < |groups| ==> groups[a] !! groups[b]
    requires 0 <= k < |classes| && x in classes[k]
    requires 0 <= i < |groups| && x in groups[i]
    ensures i == k
  {
    assert groups[k] == groups[..|classes|][k];
  }

  /** The unmarked pairs, read through the languages of their states, list every two equivalent states. */
  lemma RemainedByKey<S(!new), C(!new)>(d: Dfa<S, C>, t: map<(S, S), bool>, remained: seq<(S, S)>)
    requires Oriented(t) && Covers(t, d.states)
    requires forall k :: k in t ==> (t[k] <==> !Equivalent(d, k.0, k.1))
    requires forall p :: p in remained <==> p in t && !t[p]
    ensures forall p :: p in remained ==> Lang(d)(p.0) == Lang(d)(p.1)
    ensures forall x, y :: x in d.states && y in d.states && x != y && Lang(d)(x) == Lang(d)(y) ==>
              (x, y) in remained || (y, x) in remained
  {
    forall p | p in remained
      ensures Lang(d)(p.0) == Lang(d)(p.1)
    {
      EquivalentIffLang(d, p.0, p.1);
    }
    forall x, y | x in d.states && y in d.states && x != y && Lang(d)(x) == Lang(d)(y)
      ensures (x, y) in remained || (y, x) in remained
    {
      EquivalentIffLang(d, x, y);
      EquivalentSym(d, x, y);
    }
  }

  lemma GroupsWithin<S(!new), C(!new)>(d: Dfa<S, C>, t: map<(S, S), bool>, remained: seq<(S, S)>,
                                       groups: seq<set<S>>, left: set<S>)
    requires Grouping(d, t, remained, groups, left)
    ensures {} !in groups && forall i :: 0 <= i < |groups| ==> groups[i] <= d.states
  {
    ClassesWithin(d, t, remained);
    PrefixedWithin(groups, Classes(remained, {}), left, d.states);
  }

  /** Non-empty groups within `states`, followed by singletons of states of `left`, are non-empty groups within `states`. */
  lemma PrefixedWithin<S(!new)>(groups: seq<set<S>>, classes: seq<set<S>>, left: set<S>, states: set<S>)
    requires |classes| <= |groups| && groups[..|classes|] == classes
    requires forall i :: 0 <= i < |classes| ==> classes[i] != {} && classes[i] <= states
    requires Singletons(groups[|classes|..], left) && left <= states
    ensures {} !in groups && forall i :: 0 <= i < |groups| ==> groups[i] <= states
  {
    var n := |classes|;
    forall i | 0 <= i < |groups|
      ensures groups[i] != {} && groups[i] <= states
    {
      if i < n {
        assert groups[i] == classes[i];
      } else {
        assert groups[i] == groups[n..][i - n];
        var x :| x in left && groups[n..][i - n] == {x};
      }
    }
  }

  /** The classes bound from the unmarked pairs are nonempty sets of states. */
  lemma ClassesWithin<S(!new), C(!new)>(d: Dfa<S, C>, t: map<(S, S), bool>, remained: seq<(S, S)>)
    requires Covers(t, d.states)
    requires forall p :: p in remained ==> p in t
    ensures forall i :: 0 <= i < |Classes(remained, {})| ==> Classes(remained, {})[i] != {} && Classes(remained, {})[i] <= d.states
  {
    var classes := Classes(remained, {});
    ClassesFresh(remained, {});
    ClassesCover(remained, {});
    StatesOfMembers(remained);
    assert StatesOf(remained) <= d.states;
    forall i, x | 0 <= i < |classes| && x in classes[i]
      ensures x in d.states
    {
      UnionHas(classes, i, x);
    }
    forall i | 0 <= i < |classes|
      ensures classes[i] != {}
    {
      assert classes[i] in classes;
    }
  }


  lemma GroupsCovering<S(!new), C(!new)>(d: Dfa<S, C>, t: map<(S, S), bool>, remained: seq<(S, S)>,
                                         groups: seq<set<S>>, left: set<S>)
    requires Grouping(d, t, remained, groups, left)
    ensures Covering(d, groups)
  {
    PartsCover(groups, Classes(remained, {}), left, d.states);
  }

  /** Classes followed by the singletons of the states outside them cover every state. */
  lemma PartsCover<S(!new)>(groups: seq<set<S>>, classes: seq<set<S>>, left: set<S>, states: set<S>)
    requires |classes| <= |groups| && groups[..|classes|] == classes
    requires left == states - MinTable.Union(classes) && Singletons(groups[|classes|..], left)
    ensures forall x :: x in states ==> exists i :: 0 <= i < |groups| && x in groups[i]
  {
    var n := |classes|;
    var singles := groups[n..];
    forall x | x in states
      ensures exists i :: 0 <= i < |groups| && x in groups[i]
    {
      if x in MinTable.Union(classes) {
        var i :| 0 <= i < n && x in classes[i];
        assert groups[i] == classes[i];
      } else {
        assert {x} in singles;
        var j :| 0 <= j < |singles| && singles[j] == {x};
        assert groups[n + j] == {x};
      }
    }
  }

  lemma GroupsAgree<S(!new), C(!new)>(d: Dfa<S, C>, t: map<(S, S), bool>, remained: seq<(S, S)>,
                                      groups: seq<set<S>>, left: set<S>)
    requires Grouping(d, t, remained, groups, left)
    ensures GroupsEquivalent(d, groups)
  {
    var classes := Classes(remained, {});
    var n := |classes|;
    var singles := groups[n..];
    forall i, x, y | 0 <= i < |groups| && x in groups[i] && y in groups[i]
      ensures Equivalent(d, x, y)
    {
      if i < n {
        assert groups[i] == classes[i];
        ClassEquivalent(d, t, remained, i, x, y);
      } else {
        assert groups[i] == singles[i - n];
        var z :| z in left && singles[i - n] == {z};
        assert x == z && y == z;
        forall w
          ensures !Distinguishes(d, x, y, w)
        {
        }
      }
    }
  }

  lemma GroupsApart<S(!new), C(!new)>(d: Dfa<S, C>, t: map<(S, S), bool>, remained: seq<(S, S)>,
                                      groups: seq<set<S>>, left: set<S>)
    requires Grouping(d, t, remained, groups, left)
    ensures forall i, j :: 0 <= i < j < |groups| ==> groups[i] !! groups[j]
  {
    ClassesDisjoint(remained, {});
    PartsApart(groups, Classes(remained, {}), left);
  }

  /** Disjoint classes followed by the singletons of states outside them are pairwise disjoint. */
  lemma PartsApart<S(!new)>(groups: seq<set<S>>, classes: seq<set<S>>, left: set<S>)
    requires |classes| <= |groups| && groups[..|classes|] == classes
    requires forall i, j :: 0 <= i < j < |classes| ==> classes[i] !! classes[j]
    requires left !! MinTable.Union(classes) && Singletons(groups[|classes|..], left)
    ensures forall i, j :: 0 <= i < j < |groups| ==> groups[i] !! groups[j]
  {
    var n := |classes|;
    var singles := groups[n..];
    forall i, j | 0 <= i < j < |groups|
      ensures groups[i] !! groups[j]
    {
      if j < n {
        assert groups[i] == classes[i] && groups[j] == classes[j];
      } else if i < n {
        SingleApart(classes, singles, left, i, j - n);
        assert groups[i] == classes[i] && groups[j] == singles[j - n];
      } else {
        SinglesApart(singles, left, i - n, j - n);
        assert groups[i] == singles[i - n] && groups[j] == singles[j - n];
      }
    }
  }

  /** Distinct positions of a list of singletons hold different states. */
  lemma SinglesApart<S(!new)>(singles: seq<set<S>>, left: set<S>, i: nat, j: nat)
    requires Singletons(singles, left) && i < j < |singles|
    ensures singles[i] !! singles[j]
  {
    var x :| x in left && singles[i] == {x};
    var y :| y in left && singles[j] == {y};
    assert x != y;
  }

  lemma SingleApart<S(!new)>(classes: seq<set<S>>, singles: seq<set<S>>, left: set<S>, i: nat, j: nat)
    requires i < |classes| && j < |singles| && Singletons(singles, left) && left !! MinTable.Union(classes)
    ensures classes[i] !! singles[j]
  {
    var x :| x in left && singles[j] == {x};
    if x in classes[i] {
      UnionHas(classes, i, x);
    }
  }

  lemma EquivalentRefl<S(!new), C(!new)>(d: Dfa<S, C>, x: S)
    ensures Equivalent(d, x, x)
  {
  }

  /** The states of an intended class are linked to its seed through unmarked pairs, so they agree. */
  lemma ClassEquivalent<S(!new), C(!new)>(d: Dfa<S, C>, t: map<(S, S), bool>, remained: seq<(S, S)>, i: nat, x: S, y: S)
    requires forall k :: k in t ==> (t[k] <==> !Equivalent(d, k.0, k.1))
    requires forall p :: p in remained <==> p in t && !t[p]
    requires i < |Classes(remained, {})| && x in Classes(remained, {})[i] && y in Classes(remained, {})[i]
    ensures Equivalent(d, x, y)
  {
    var seed := ClassSeed(remained, {}, i);
    LinkedEquivalent(d, t, remained, seed, x);
    LinkedEquivalent(d, t, remained, seed, y);
    EquivalentSym(d, y, seed.0);
    EquivalentTrans(d, x, seed.0, y);
  }

  lemma LinkedEquivalent<S(!new), C(!new)>(d: Dfa<S, C>, t: map<(S, S), bool>, remained: seq<(S, S)>, seed: (S, S), x: S)
    requires forall k :: k in t ==> (t[k] <==> !Equivalent(d, k.0, k.1))
    requires forall p :: p in remained <==> p in t && !t[p]
    requires seed in remained && Linked(remained, seed, x)
    ensures Equivalent(d, x, seed.0)
  {
    assert Equivalent(d, seed.0, seed.1);
    EquivalentSym(d, seed.0, seed.1);
    if x == seed.0 {
      EquivalentTrans(d, x, seed.1, seed.0);
    } else if x != seed.1 {
      var p :| p in remained && Touches(seed, p) && (x == p.0 || x == p.1);
      assert Equivalent(d, p.0, p.1);
      EquivalentSym(d, p.0, p.1);
      // x agrees with both states of p, and p shares a state with the seed
      var shared := if p.0 == seed.0 || p.0 == seed.1 then p.0 else p.1;
      assert shared == seed.0 || shared == seed.1;
      assert Equivalent(d, x, shared) by {
        if x == shared {
          EquivalentRefl(d, x);
        }
      }
      assert Equivalent(d, shared, seed.0) by {
        if shared == seed.0 {
          EquivalentRefl(d, shared);
        }
      }
      EquivalentTrans(d, x, shared, seed.0);
    }
  }

  /**
   * `minify` with `retain_names=True`: mark the table, bind the unmarked pairs into
   * groups (each state not in a group alone), and build the automaton over the groups.
   * The result is complete, accepts exactly the words the input accepts, and its
   * states partition the input's states into groups of equivalent states.
   * The table is built on the automaton's own state set, and `bind_minimized_states`
   * removes every class from it in place: `left` is what `self.states` holds
   * afterwards, the states with no equivalent partner.
   */
  method Minify<S(==,!new), C(==,!new)>(d: Dfa<S, C>) returns (r: Dfa<set<S>, C>, left: set<S>)
    requires Total(d)
    ensures Total(r) && r.inputs == d.inputs
    ensures forall w :: Over(w, d.inputs) ==> (Accepts(r, w) <==> Accepts(d, w))
    ensures {} !in r.states && forall g :: g in r.states ==> g <= d.states
    ensures forall g, x, y :: g in r.states && x in g && y in g ==> Equivalent(d, x, y)
    ensures forall x :: x in d.states ==> exists g :: g in r.states && x in g
    ensures forall g, h :: g in r.states && h in r.states && g != h ==> g !! h
    ensures forall g, h, x, y :: g in r.states && h in r.states && x in g && y in h && Equivalent(d, x, y) ==> g == h
    ensures d.initial in r.initial && r.initial in r.states
    ensures left == d.states - Merged(d)
  {
    var mt := MarkTable(d);
    var filtered := mt.FilterItemByValue(false, false);
    var remained := KeyList(filtered);
    var groups := mt.BindClasses(remained, true);
    assert Grouping(d, mt.table, remained, groups, mt.states);
    GroupsPartition(d, mt.table, remained, groups, mt.states);
    r := BuildQuotient(d, groups);
    MinifyFacts(d, groups, r);
    left := mt.states;
    MergedPaired(d, mt.table, remained, groups, left);
    GroupsMerge(d, mt.table, remained, groups, left);
    forall g, h, x, y | g in r.states && h in r.states && x in g && y in h && Equivalent(d, x, y)
      ensures g == h
    {
      var i :| 0 <= i < |groups| && groups[i] == g;
      var j :| 0 <= j < |groups| && groups[j] == h;
    }
  }

  /** The states that share their language with another state, which minimization merges. */
  ghost function Merged<S(!new), C(!new)>(d: Dfa<S, C>): set<S>
  {
    set x | x in d.states && exists y :: y in d.states && y != x && Equivalent(d, x, y)
  }

  /** The classes bound from the unmarked pairs hold exactly the merged states. */
  lemma MergedPaired<S(!new), C(!new)>(d: Dfa<S, C>, t: map<(S, S), bool>, remained: seq<(S, S)>,
                                       groups: seq<set<S>>, left: set<S>)
    requires Grouping(d, t, remained, groups, left)
    ensures MinTable.Union(Classes(remained, {})) == Merged(d)
  {
    ClassesCover(remained, {});
    PairedAreMerged(d, t, remained);
    MergedArePaired(d, t, remained);
  }

  /** A state named by an unmarked pair has an equivalent partner. */
  lemma PairedAreMerged<S(!new), C(!new)>(d: Dfa<S, C>, t: map<(S, S), bool>, remained: seq<(S, S)>)
    requires Oriented(t) && Covers(t, d.states)
    requires forall k :: k in t ==> (t[k] <==> !Equivalent(d, k.0, k.1))
    requires forall p :: p in remained ==> p in t && !t[p]
    ensures StatesOf(remained) <= Merged(d)
  {
    forall x | x in StatesOf(remained)
      ensures x in Merged(d)
    {
      var p := StatesOfWitness(remained, x);
      assert p in t;
      EquivalentSym(d, p.0, p.1);
    }
  }

  /** A state with an equivalent partner is named by an unmarked pair. */
  lemma MergedArePaired<S(!new), C(!new)>(d: Dfa<S, C>, t: map<(S, S), bool>, remained: seq<(S, S)>)
    requires Covers(t, d.states)
    requires forall k :: k in t ==> (t[k] <==> !Equivalent(d, k.0, k.1))
    requires forall p :: p in t && !t[p] ==> p in remained
    ensures Merged(d) <= StatesOf(remained)
  {
    StatesOfMembers(remained);
    forall x | x in Merged(d)
      ensures x in StatesOf(remained)
    {
      var y :| y in d.states && y != x && Equivalent(d, x, y);
      EquivalentSym(d, x, y);
      if (x, y) in t {
        assert (x, y) in remained;
      } else {
        assert (y, x) in remained;
      }
    }
  }


  lemma MinifyFacts<S(!new), C(!new)>(d: Dfa<S, C>, groups: seq<set<S>>, r: Dfa<set<S>, C>)
    requires Total(d) && Quotient(d, groups, r) && Covering(d, groups) && GroupsEquivalent(d, groups)
    requires {} !in groups && forall i :: 0 <= i < |groups| ==> groups[i] <= d.states
    requires forall i, j :: 0 <= i < j < |groups| ==> groups[i] !! groups[j]
    ensures Total(r) && r.inputs == d.inputs
    ensures forall w :: Over(w, d.inputs) ==> (Accepts(r, w) <==> Accepts(d, w))
    ensures {} !in r.states && forall g :: g in r.states ==> g <= d.states
    ensures forall g, x, y :: g in r.states && x in g && y in g ==> Equivalent(d, x, y)
    ensures forall x :: x in d.states ==> exists g :: g in r.states && x in g
    ensures forall g, h :: g in r.states && h in r.states && g != h ==> g !! h
  {
    QuotientShape(d, groups, r);
    QuotientLanguage(d, groups, r);
  }

  /** The states of the new automaton are the groups: a partition of the old states into equivalent states. */
  lemma QuotientShape<S(!new), C(!new)>(d: Dfa<S, C>, groups: seq<set<S>>, r: Dfa<set<S>, C>)
    requires Quotient(d, groups, r) && Covering(d, groups) && GroupsEquivalent(d, groups)
    requires {} !in groups && forall i :: 0 <= i < |groups| ==> groups[i] <= d.states
    requires forall i, j :: 0 <= i < j < |groups| ==> groups[i] !! groups[j]
    ensures {} !in r.states && forall g :: g in r.states ==> g <= d.states
    ensures forall g, x, y :: g in r.states && x in g && y in g ==> Equivalent(d, x, y)
    ensures forall x :: x in d.states ==> exists g :: g in r.states && x in g
    ensures forall g, h :: g in r.states && h in r.states && g != h ==> g !! h
  {
    forall g | g in r.states
      ensures g <= d.states
    {
      var i :| 0 <= i < |groups| && groups[i] == g;
    }
    forall g, x, y | g in r.states && x in g && y in g
      ensures Equivalent(d, x, y)
    {
      var i :| 0 <= i < |groups| && groups[i] == g;
    }
    forall x | x in d.states
      ensures exists g :: g in r.states && x in g
    {
      var i :| 0 <= i < |groups| && x in groups[i];
      assert groups[i] in r.states;
    }
    forall g, h | g in r.states && h in r.states && g != h
      ensures g !! h
    {
      var i :| 0 <= i < |groups| && groups[i] == g;
      var j :| 0 <= j < |groups| && groups[j] == h;
      assert i != j;
    }
  }

  /** The new automaton is complete and accepts exactly the words over the alphabet that the old one accepts. */
  lemma QuotientLanguage<S(!new), C(!new)>(d: Dfa<S, C>, groups: seq<set<S>>, r: Dfa<set<S>, C>)
    requires Total(d) && Quotient(d, groups, r) && GroupsEquivalent(d, groups)
    ensures Total(r) && r.inputs == d.inputs
    ensures forall w :: Over(w, d.inputs) ==> (Accepts(r, w) <==> Accepts(d, w))
  {
    assert Complete(r) by {
      forall g, c | g in r.transitions && c in r.inputs && c in r.transitions[g]
        ensures Target(r.transitions, g, c) in r.transitions
      {
        assert Target(r.transitions, g, c) in groups;
      }
    }
    forall w | Over(w, d.inputs)
      ensures Accepts(r, w) <==> Accepts(d, w)
    {
      RunIsWalk(r, r.initial, w);
      RunIsWalk(d, d.initial, w);
      QuotientAccepts(d, groups, r, r.initial, d.initial, w);
    }
  }

  // ---------------------------------------------------------------------------
  // The final states as the source collects them

  /**
   * The final groups as `minify` collects them: a group becomes final only when it
   * is the target of some row and holds a final state.
   */
  function FinalsAsWritten<S(==), C(==)>(d: Dfa<S, C>, transitions: map<set<S>, map<C, set<S>>>): (r: set<set<S>>)
    ensures forall g :: g in r ==> g * d.finals != {}
  {
    set g, c | g in transitions && c in transitions[g] && transitions[g][c] * d.finals != {} :: transitions[g][c]
  }

  /**
   * The initial state `0` is final but no transition enters it: minimizing keeps the
   * groups `{0}` and `{1}`, and the final groups as collected leave out `{0}`, so the
   * result rejects the empty word that the input accepts.
   */
  lemma FinalsAsWrittenLoseEmptyWord()
    ensures var d := Dfa({0, 1}, {'a'}, map[0 := map['a' := 1], 1 := map['a' := 1]], {0}, 0);
            var rows := map[{0} := map['a' := {1}], {1} := map['a' := {1}]];
            var r := Dfa({{0}, {1}}, {'a'}, rows, FinalsAsWritten(d, rows), {0});
            Accepts(d, []) && !Accepts(r, [])
  {
    var d := Dfa({0, 1}, {'a'}, map[0 := map['a' := 1], 1 := map['a' := 1]], {0}, 0);
    var rows := map[{0} := map['a' := {1}], {1} := map['a' := {1}]];
    assert {0} !in FinalsAsWritten(d, rows) by {
      forall g, c | g in rows && c in rows[g]
        ensures rows[g][c] != {0}
      {
        assert c == 'a';
        assert g == {0} || g == {1};
        assert rows[g][c] == {1};
        assert 1 in rows[g][c];
      }
    }
  }
}
