/**
 * The regular-expression parser of Regex.py: a shift/reduce parser with an
 * operator stack (`stack`) and a fragment stack (`automata`).  Symbols are
 * ASCII letters and digits; '+' is union, '.' concatenation (also inserted
 * implicitly between two operands), '*' the Kleene star, and parentheses group.
 * The Thompson-style NFA builders the parser calls are kept abstract: a
 * fragment records only which builder made it and from which fragments.
 */
module RegexParse {
  import opened Wrappers
  import RegexText

  /** A fragment automaton, by the builder that made it: `base_struct`, `plus_struct`, `dot_struct`, `star_struct`. */
  datatype Frag = Sym(symbol: char) | Plus(left: Frag, right: Frag) | Dot(left: Frag, right: Frag) | Star(inner: Frag)

  /** `string.ascii_letters + string.digits`. */
  predicate InAlphabet(c: char)
  {
    'a' <= c <= 'z' || 'A' <= c <= 'Z' || '0' <= c <= '9'
  }

  /** The binary operators, `self.operators`. */
  predicate IsOperator(c: char)
  {
    c == '+' || c == '.'
  }

  /** The characters the parser accepts at all. */
  predicate Allowed(c: char)
  {
    InAlphabet(c) || c == '(' || c == ')' || c == '*' || IsOperator(c)
  }

  /** The previous character ends an operand, so an operand that follows is concatenated to it. */
  predicate EndsOperand(previous: Option<char>)
  {
    previous.Some? && previous.value != '.' &&
    (InAlphabet(previous.value) || previous.value == ')' || previous.value == '*')
  }

  /** The previous character is a binary operator. */
  predicate FollowsOperator(previous: Option<char>)
  {
    previous.Some? && IsOperator(previous.value)
  }

  /** The fragment a binary operator builds from the earlier fragment `b` and the later one `a`. */
  function Combine(op: char, b: Frag, a: Frag): Frag
  {
    if op == '+' then Plus(b, a) else Dot(b, a)
  }

  /** The symbols of a fragment, left to right. */
  function Leaves(f: Frag): seq<char>
  {
    match f
    case Sym(c) => [c]
    case Plus(l, r) => Leaves(l) + Leaves(r)
    case Dot(l, r) => Leaves(l) + Leaves(r)
    case Star(g) => Leaves(g)
  }

  /** The symbols of a fragment stack, bottom to top. */
  function Flat(au: seq<Frag>): seq<char>
  {
    if au == [] then [] else Flat(au[..|au| - 1]) + Leaves(au[|au| - 1])
  }

  /** The alphabet characters of a text, in order. */
  function Letters(s: string): seq<char>
  {
    if s == [] then [] else Letters(s[..|s| - 1]) + (if InAlphabet(s[|s| - 1]) then [s[|s| - 1]] else [])
  }

  /** The alphabet characters of a text, as the set `language` collects. */
  ghost function LetterSet(s: string): set<char>
  {
    set c | c in s && InAlphabet(c)
  }

  /** The number of '(' on an operator stack. */
  function Opens(st: seq<char>): (n: nat)
    ensures n == 0 <==> '(' !in st
  {
    if st == [] then 0 else Opens(st[..|st| - 1]) + (if st[|st| - 1] == '(' then 1 else 0)
  }

  /** The error a text is blamed for when it holds a character outside the syntax. */
  predicate Blames<T>(r: Result<T>)
  {
    r.Err? && r.error.Parse? && r.error.reason.NotAllowed?
  }

  lemma {:induction false} FlatAppend(a: seq<Frag>, b: seq<Frag>)
    ensures Flat(a + b) == Flat(a) + Flat(b)
    decreases |b|
  {
    if b == [] {
      assert a + b == a;
    } else {
      var b', x := b[..|b| - 1], b[|b| - 1];
      assert (a + b)[..|a + b| - 1] == a + b';
      assert (a + b)[|a + b| - 1] == x;
      assert Flat(a + b) == Flat(a + b') + Leaves(x);
      assert Flat(b) == Flat(b') + Leaves(x);
      FlatAppend(a, b');
    }
  }

  lemma FlatSnoc(a: seq<Frag>, f: Frag)
    ensures Flat(a + [f]) == Flat(a) + Leaves(f)
  {
    assert (a + [f])[..|a|] == a;
  }

  lemma OpensSnoc(st: seq<char>, c: char)
    ensures Opens(st + [c]) == Opens(st) + (if c == '(' then 1 else 0)
  {
    assert (st + [c])[..|st|] == st;
  }

  /** A prefix of all but the last character is a prefix. */
  lemma PrefixOfInit(a: seq<char>, st: seq<char>)
    requires |st| > 0 && a <= st[..|st| - 1]
    ensures a <= st
  {
    assert st[..|st| - 1][..|a|] == st[..|a|];
  }

  // ---------------------------------------------------------------------------
  // The reductions, as functions of the two stacks

  datatype Stacks = Stacks(stack: seq<char>, automata: seq<Frag>)

  /**
   * `process_operator`: '*' replaces the top fragment by its star; a binary
   * operator pops `a`, then `b`, and pushes the combination with the earlier
   * fragment `b` on the left; anything else leaves the fragments as they are.
   * The symbols keep their order.
   */
  function ProcessOp(au: seq<Frag>, op: char): (r: Result<seq<Frag>>)
    ensures r.Ok? <==> |au| >= 2 || (|au| == 1 && !IsOperator(op))
    ensures r.Err? ==> r.error == Parse(OperatorOnEmptyStack(op)) || r.error == Parse(InadequateOperands(op))
    ensures r.Ok? ==> |r.value| == |au| - (if IsOperator(op) then 1 else 0)
    ensures r.Ok? ==> Flat(r.value) == Flat(au)
  {
    if |au| == 0 then Err(Parse(OperatorOnEmptyStack(op)))
    else if op == '*' then
      var rest := au[..|au| - 1];
      FlatSnoc(rest, Star(au[|au| - 1]));
      Ok(rest + [Star(au[|au| - 1])])
    else if IsOperator(op) then
      if |au| < 2 then Err(Parse(InadequateOperands(op)))
      else
        var rest := au[..|au| - 2];
        var a, b := au[|au| - 1], au[|au| - 2];
        FlatSnoc(rest, Combine(op, b, a));
        assert au[..|au| - 1][..|au| - 2] == rest;
        Ok(rest + [Combine(op, b, a)])
    else Ok(au)
  }

  /** The top of the operator stack is reduced before `op` is pushed: it is `op` itself or a '.'. */
  predicate Reduces(st: seq<char>, op: char)
  {
    |st| > 0 && st[|st| - 1] != '(' && (st[|st| - 1] == op || st[|st| - 1] == '.')
  }

  /**
   * `add_operator_to_stack`: pops and applies operators while the top is `op`
   * or '.', stopping at '(' or an empty stack, then pushes `op`.
   */
  function AddOp(st: seq<char>, au: seq<Frag>, op: char): (r: Result<Stacks>)
    ensures r.Ok? ==> Flat(r.value.automata) == Flat(au)
    ensures r.Ok? ==> Opens(r.value.stack) == Opens(st) + (if op == '(' then 1 else 0)
    ensures r.Ok? ==> |r.value.stack| >= 1 && r.value.stack[|r.value.stack| - 1] == op
    ensures r.Ok? ==> r.value.stack[..|r.value.stack| - 1] <= st && !Reduces(r.value.stack[..|r.value.stack| - 1], op)
    ensures !Blames(r)
    decreases |st|
  {
    if Reduces(st, op) then
      match ProcessOp(au, st[|st| - 1])
      case Err(e) => Err(e)
      case Ok(au') =>
        var r := AddOp(st[..|st| - 1], au', op);
        if r.Ok? then ReducedStep(st, au, au', op, r.value); r else r
    else
      OpensSnoc(st, op);
      assert (st + [op])[..|st|] == st;
      Ok(Stacks(st + [op], au))
  }

  /** One reduction of `AddOp` keeps its postcondition: what holds of the rest of the stack holds of the whole. */
  lemma ReducedStep(st: seq<char>, au: seq<Frag>, au': seq<Frag>, op: char, s: Stacks)
    requires Reduces(st, op) && Flat(au') == Flat(au)
    requires Flat(s.automata) == Flat(au')
    requires Opens(s.stack) == Opens(st[..|st| - 1]) + (if op == '(' then 1 else 0)
    requires |s.stack| >= 1 && s.stack[|s.stack| - 1] == op
    requires s.stack[..|s.stack| - 1] <= st[..|st| - 1]
    ensures Flat(s.automata) == Flat(au)
    ensures Opens(s.stack) == Opens(st) + (if op == '(' then 1 else 0)
    ensures s.stack[..|s.stack| - 1] <= st
  {
    assert Opens(st) == Opens(st[..|st| - 1]);
    PrefixOfInit(s.stack[..|s.stack| - 1], st);
  }

  /**
   * The loop of `construct_nfa` for ')': pops, applying operators, until a '('
   * is popped; an empty stack first is an error.
   */
  function CloseBracket(st: seq<char>, au: seq<Frag>): (r: Result<Stacks>)
    ensures r.Ok? ==> Flat(r.value.automata) == Flat(au)
    ensures r.Ok? ==> Opens(r.value.stack) + 1 == Opens(st) && r.value.stack < st
    ensures '(' !in st ==> r.Err?
    ensures !Blames(r)
    decreases |st|
  {
    if |st| == 0 then Err(Parse(CloseOnEmptyStack))
    else
      var top, below := st[|st| - 1], st[..|st| - 1];
      assert st == below + [top];
      OpensSnoc(below, top);
      if top == '(' then Ok(Stacks(below, au))
      else if IsOperator(top) then
        match ProcessOp(au, top)
        case Err(e) => Err(e)
        case Ok(au') => CloseBracket(below, au')
      else CloseBracket(below, au)
  }

  /** The end of `construct_nfa`: every stacked operator is applied, in pop order. */
  function Drain(st: seq<char>, au: seq<Frag>): (r: Result<seq<Frag>>)
    ensures r.Ok? ==> Flat(r.value) == Flat(au)
    ensures !Blames(r)
    decreases |st|
  {
    if |st| == 0 then Ok(au)
    else
      match ProcessOp(au, st[|st| - 1])
      case Err(e) => Err(e)
      case Ok(au') => Drain(st[..|st| - 1], au')
  }

  /** Draining a non-empty stack applies its top operator first. */
  lemma DrainStep(st: seq<char>, au: seq<Frag>)
    requires |st| > 0
    ensures var next := ProcessOp(au, st[|st| - 1]);
      Drain(st, au) == if next.Err? then Err(next.error) else Drain(st[..|st| - 1], next.value)
  {
  }

  // ---------------------------------------------------------------------------
  // Reading the text one character at a time

  /** The parser state between two characters: both stacks and the previous character. */
  datatype Scan = Scan(stack: seq<char>, automata: seq<Frag>, previous: Option<char>)

  const Start := Scan([], [], None)

  /** The implicit '.' pushed before an operand that follows an operand. */
  function Concatenating(sc: Scan): (r: Result<Stacks>)
    ensures r.Ok? ==> Flat(r.value.automata) == Flat(sc.automata) && Opens(r.value.stack) == Opens(sc.stack)
    ensures !Blames(r)
  {
    if EndsOperand(sc.previous) then AddOp(sc.stack, sc.automata, '.') else Ok(Stacks(sc.stack, sc.automata))
  }

  /**
   * One iteration of the loop of `construct_nfa`.  An accepted character adds
   * its symbol, if any, at the end of the fragments' symbols, and moves the
   * count of open brackets as it moves the parenthesis depth.
   */
  function Step(sc: Scan, c: char): (r: Result<Scan>)
    ensures r.Ok? ==> r.value.previous == Some(c)
    ensures r.Ok? ==> Flat(r.value.automata) == Flat(sc.automata) + (if InAlphabet(c) then [c] else [])
    ensures r.Ok? ==> Opens(r.value.stack) == Opens(sc.stack) + RegexText.Delta(c)
    ensures Blames(r) <==> !Allowed(c)
    ensures Blames(r) ==> r.error.reason.symbol == c
  {
    if InAlphabet(c) then
      match Concatenating(sc)
      case Err(e) => Err(e)
      case Ok(x) =>
        FlatSnoc(x.automata, Sym(c));
        Ok(Scan(x.stack, x.automata + [Sym(c)], Some(c)))
    else if c == '(' then
      match Concatenating(sc)
      case Err(e) => Err(e)
      case Ok(x) =>
        OpensSnoc(x.stack, c);
        Ok(Scan(x.stack + [c], x.automata, Some(c)))
    else if c == ')' then
      if FollowsOperator(sc.previous) then Err(Parse(AfterOperator(c, sc.previous)))
      else
        match CloseBracket(sc.stack, sc.automata)
        case Err(e) => Err(e)
        case Ok(x) => Ok(Scan(x.stack, x.automata, Some(c)))
    else if c == '*' then
      if FollowsOperator(sc.previous) || sc.previous == Some('(') || sc.previous == Some('*') then
        Err(Parse(AfterOperator(c, sc.previous)))
      else
        match ProcessOp(sc.automata, c)
        case Err(e) => Err(e)
        case Ok(au) => Ok(Scan(sc.stack, au, Some(c)))
    else if IsOperator(c) then
      if FollowsOperator(sc.previous) || sc.previous == Some('(') then Err(Parse(AfterOperator(c, sc.previous)))
      else
        match AddOp(sc.stack, sc.automata, c)
        case Err(e) => Err(e)
        case Ok(x) => Ok(Scan(x.stack, x.automata, Some(c)))
    else Err(Parse(NotAllowed(c)))
  }

  /** Reads `s` from the state `sc`, stopping at the first error. */
  function RunFrom(sc: Scan, s: string): Result<Scan>
  {
    if s == [] then Ok(sc)
    else
      match RunFrom(sc, s[..|s| - 1])
      case Err(e) => Err(e)
      case Ok(x) => Step(x, s[|s| - 1])
  }

  /** Continues a run that has not failed. */
  function Then(r: Result<Scan>, s: string): Result<Scan>
  {
    match r
    case Err(e) => Err(e)
    case Ok(x) => RunFrom(x, s)
  }

  /** After the text: applies the stacked operators; exactly one fragment must remain, and it is the result. */
  function Finish(r: Result<Scan>): (f: Result<Frag>)
    ensures f.Ok? ==> r.Ok? && Drain(r.value.stack, r.value.automata) == Ok([f.value])
    ensures r.Err? ==> f == Err(r.error)
    ensures Blames(f) ==> Blames(r)
  {
    match r
    case Err(e) => Err(e)
    case Ok(sc) =>
      match Drain(sc.stack, sc.automata)
      case Err(e) => Err(e)
      case Ok(au) =>
        if |au| > 1 then Err(Parse(NotFullyReduced))
        else if |au| == 0 then Err(Parse(NothingParsed))
        else assert au == [au[0]]; Ok(au[0])
  }

  /** What `Regex(s).nfa` is, as a fragment, or the exception the constructor raises. */
  function ParseRegex(s: string): Result<Frag>
  {
    Finish(RunFrom(Start, s))
  }

  // ---------------------------------------------------------------------------
  // The parser object

  class Regex {
    var regex: string
    var stack: seq<char>
    var automata: seq<Frag>
    var nfa: Option<Frag>
    var inputs: set<char>

    /** The fields `__init__` sets before it calls `construct_nfa`. */
    constructor (expr: string)
      ensures regex == expr && stack == [] && automata == [] && nfa == None && inputs == {}
    {
      regex, stack, automata, nfa, inputs := expr, [], [], None, {};
    }

    /** `process_operator`. */
    method ProcessOperator(op: char) returns (o: Outcome)
      modifies this
      ensures regex == old(regex) && stack == old(stack) && nfa == old(nfa) && inputs == old(inputs)
      ensures match ProcessOp(old(automata), op)
        case Ok(au) => o == Pass && automata == au
        case Err(e) => o == Fail(e)
    {
      if |automata| == 0 {
        return Fail(Parse(OperatorOnEmptyStack(op)));
      }
      if op == '*' {
        var a := automata[|automata| - 1];
        automata := automata[..|automata| - 1];
        automata := automata + [Star(a)];
      } else if IsOperator(op) {
        if |automata| < 2 {
          return Fail(Parse(InadequateOperands(op)));
        }
        var a := automata[|automata| - 1];
        automata := automata[..|automata| - 1];
        var b := automata[|automata| - 1];
        automata := automata[..|automata| - 1];
        if op == '+' {
          automata := automata + [Plus(b, a)];
        } else {
          automata := automata + [Dot(b, a)];
        }
      }
      o := Pass;
    }

    /** `add_operator_to_stack`. */
    method AddOperatorToStack(op: char) returns (o: Outcome)
      modifies this
      ensures regex == old(regex) && nfa == old(nfa) && inputs == old(inputs)
      ensures match AddOp(old(stack), old(automata), op)
        case Ok(x) => o == Pass && stack == x.stack && automata == x.automata
        case Err(e) => o == Fail(e)
    {
      while Reduces(stack, op)
        invariant AddOp(stack, automata, op) == AddOp(old(stack), old(automata), op)
        invariant regex == old(regex) && nfa == old(nfa) && inputs == old(inputs)
        decreases |stack|
      {
        var top := stack[|stack| - 1];
        stack := stack[..|stack| - 1];
        o := ProcessOperator(top);
        if o.Fail? {
          return;
        }
      }
      stack := stack + [op];
      o := Pass;
    }

    /** The ')' branch of `construct_nfa`, after the check of the previous character. */
    method PopToBracket() returns (o: Outcome)
      modifies this
      ensures regex == old(regex) && nfa == old(nfa) && inputs == old(inputs)
      ensures match CloseBracket(old(stack), old(automata))
        case Ok(x) => o == Pass && stack == x.stack && automata == x.automata
        case Err(e) => o == Fail(e)
    {
      while true
        invariant CloseBracket(stack, automata) == CloseBracket(old(stack), old(automata))
        invariant regex == old(regex) && nfa == old(nfa) && inputs == old(inputs)
        decreases |stack|
      {
        if |stack| == 0 {
          return Fail(Parse(CloseOnEmptyStack));
        }
        var top := stack[|stack| - 1];
        stack := stack[..|stack| - 1];
        if top == '(' {
          return Pass;
        } else if IsOperator(top) {
          o := ProcessOperator(top);
          if o.Fail? {
            return;
          }
        }
      }
    }

    /** One iteration of the loop of `construct_nfa`. */
    method ReadChar(c: char, previous: Option<char>) returns (o: Outcome)
      modifies this
      ensures regex == old(regex) && nfa == old(nfa) && inputs == old(inputs)
      ensures match Step(Scan(old(stack), old(automata), previous), c)
        case Ok(x) => o == Pass && stack == x.stack && automata == x.automata
        case Err(e) => o == Fail(e)
    {
      if InAlphabet(c) || c == '(' {
        if EndsOperand(previous) {
          o := AddOperatorToStack('.');
          if o.Fail? {
            return;
          }
        }
        if c == '(' {
          stack := stack + [c];
        } else {
          automata := automata + [Sym(c)];
        }
      } else if c == ')' {
        if FollowsOperator(previous) {
          return Fail(Parse(AfterOperator(c, previous)));
        }
        o := PopToBracket();
        if o.Fail? {
          return;
        }
      } else if c == '*' {
        if FollowsOperator(previous) || previous == Some('(') || previous == Some('*') {
          return Fail(Parse(AfterOperator(c, previous)));
        }
        o := ProcessOperator(c);
        if o.Fail? {
          return;
        }
      } else if IsOperator(c) {
        if FollowsOperator(previous) || previous == Some('(') {
          return Fail(Parse(AfterOperator(c, previous)));
        }
        o := AddOperatorToStack(c);
        if o.Fail? {
          return;
        }
      } else {
        return Fail(Parse(NotAllowed(c)));
      }
      o := Pass;
    }

    /** The loop of `construct_nfa` over the characters of the text, collecting `language`. */
    method ScanText() returns (o: Outcome, language: set<char>)
      modifies this
      ensures regex == old(regex) && nfa == old(nfa) && inputs == old(inputs)
      ensures match RunFrom(Scan(old(stack), old(automata), None), regex)
        case Ok(x) => o == Pass && stack == x.stack && automata == x.automata && language == LetterSet(regex)
        case Err(e) => o == Fail(e)
    {
      ghost var start := Scan(stack, automata, None);
      language := {};
      var previous: Option<char> := None;
      for i := 0 to |regex|
        invariant regex == old(regex) && nfa == old(nfa) && inputs == old(inputs)
        invariant RunFrom(start, regex[..i]) == Ok(Scan(stack, automata, previous))
        invariant language == LetterSet(regex[..i])
      {
        var c := regex[i];
        RunSnoc(start, regex, i);
        LetterSetSnoc(regex, i);
        o := ReadChar(c, previous);
        if o.Fail? {
          FailureSticks(start, regex[..i + 1], regex[i + 1..]);
          assert regex[..i + 1] + regex[i + 1..] == regex;
          return;
        }
        if InAlphabet(c) {
          language := language + {c};
        }
        previous := Some(c);
      }
      assert regex[..|regex|] == regex;
      o := Pass;
    }

    /** The loop of `construct_nfa` that applies the operators left on the stack. */
    method ApplyRemaining() returns (o: Outcome)
      modifies this
      ensures regex == old(regex) && nfa == old(nfa) && inputs == old(inputs)
      ensures match Drain(old(stack), old(automata))
        case Ok(au) => o == Pass && automata == au
        case Err(e) => o == Fail(e)
    {
      while |stack| != 0
        invariant Drain(stack, automata) == Drain(old(stack), old(automata))
        invariant regex == old(regex) && nfa == old(nfa) && inputs == old(inputs)
        decreases |stack|
      {
        var op := stack[|stack| - 1];
        DrainStep(stack, automata);
        stack := stack[..|stack| - 1];
        o := ProcessOperator(op);
        if o.Fail? {
          return;
        }
      }
      assert Drain(stack, automata) == Ok(automata);
      o := Pass;
    }

    /**
     * `construct_nfa`: reads the text, then applies the stacked operators.  On
     * success the one remaining fragment is popped into `nfa`, and `inputs` is
     * the set of alphabet characters of the text.
     */
    method ConstructNfa() returns (o: Outcome)
      modifies this
      ensures regex == old(regex)
      ensures var r := Finish(RunFrom(Scan(old(stack), old(automata), None), regex));
        && (o == Pass <==> r.Ok?)
        && (r.Err? ==> o == Fail(r.error))
        && (r.Ok? ==> nfa == Some(r.value) && inputs == LetterSet(regex))
    {
      ghost var run := RunFrom(Scan(stack, automata, None), regex);
      var language;
      o, language := ScanText();
      if o.Fail? {
        assert run.Err?;
        return;
      }
      ghost var drained := Drain(stack, automata);
      assert Finish(run) == Finish(Ok(Scan(stack, automata, run.value.previous)));
      o := ApplyRemaining();
      if o.Fail? {
        assert drained.Err?;
        return;
      }
      assert drained == Ok(automata);
      if |automata| > 1 {
        return Fail(Parse(NotFullyReduced));
      }
      if |automata| == 0 {
        return Fail(Parse(NothingParsed));
      }
      assert automata == [automata[0]];
      nfa := Some(automata[0]);
      automata := [];
      inputs := language;
    }
  }

  // ---------------------------------------------------------------------------
  // Properties of the parse

  lemma RunSingle(sc: Scan, c: char)
    ensures RunFrom(sc, [c]) == Step(sc, c)
  {
    assert [c][..0] == [];
  }

  /** Reading a text in two parts is reading it at once. */
  lemma {:induction false} RunAppend(sc: Scan, a: string, b: string)
    ensures RunFrom(sc, a + b) == Then(RunFrom(sc, a), b)
    decreases |b|
  {
    if b == [] {
      assert a + b == a;
    } else {
      var b' := b[..|b| - 1];
      assert (a + b)[..|a + b| - 1] == a + b';
      assert (a + b)[|a + b| - 1] == b[|b| - 1];
      RunAppend(sc, a, b');
    }
  }

  /** The letters of a prefix grow by the next character when it is a symbol. */
  lemma LetterSetSnoc(s: string, i: int)
    requires 0 <= i < |s|
    ensures LetterSet(s[..i + 1]) == LetterSet(s[..i]) + (if InAlphabet(s[i]) then {s[i]} else {})
  {
    assert s[..i + 1] == s[..i] + [s[i]];
  }

  /** Reading one more character is one more step. */
  lemma RunSnoc(sc: Scan, s: string, i: int)
    requires 0 <= i < |s| && RunFrom(sc, s[..i]).Ok?
    ensures RunFrom(sc, s[..i + 1]) == Step(RunFrom(sc, s[..i]).value, s[i])
  {
    assert s[..i + 1][..i] == s[..i] && s[..i + 1][i] == s[i];
  }

  /** A run that has failed stays failed, with the same error. */
  lemma FailureSticks(sc: Scan, a: string, b: string)
    requires RunFrom(sc, a).Err?
    ensures RunFrom(sc, a + b) == RunFrom(sc, a)
  {
    RunAppend(sc, a, b);
  }

  /**
   * What a run accumulates: the symbols read, in order, on the fragment stack;
   * one '(' on the operator stack per unclosed bracket; and an error about a
   * character outside the syntax only for a character of the text.
   */
  lemma {:induction false} RunFacts(sc: Scan, s: string)
    ensures RunFrom(sc, s).Ok? ==> Flat(RunFrom(sc, s).value.automata) == Flat(sc.automata) + Letters(s)
    ensures RunFrom(sc, s).Ok? ==> Opens(RunFrom(sc, s).value.stack) == Opens(sc.stack) + RegexText.Depth(s)
    ensures Blames(RunFrom(sc, s)) ==> RunFrom(sc, s).error.reason.symbol in s && !Allowed(RunFrom(sc, s).error.reason.symbol)
    decreases |s|
  {
    if s != [] {
      var s' := s[..|s| - 1];
      RunFacts(sc, s');
      if RunFrom(sc, s').Err? {
        assert RunFrom(sc, s) == RunFrom(sc, s');
      }
    }
  }

  /** The parse of a text keeps its symbols, each once and in their order. */
  lemma ParseKeepsSymbols(s: string)
    ensures ParseRegex(s).Ok? ==> Leaves(ParseRegex(s).value) == Letters(s)
  {
    RunFacts(Start, s);
    if ParseRegex(s).Ok? {
      var f := ParseRegex(s).value;
      assert Flat([f]) == Leaves(f) by { FlatSnoc([], f); }
    }
  }

  /** A character outside the syntax makes the parse fail, and such a failure names a character of the text. */
  lemma DisallowedCharacterFails(s: string, k: int)
    requires 0 <= k < |s| && !Allowed(s[k])
    ensures ParseRegex(s).Err?
  {
    assert s[..k + 1][..k] == s[..k] && s[..k + 1][k] == s[k];
    assert RunFrom(Start, s[..k + 1]).Err?;
    RunAppend(Start, s[..k + 1], s[k + 1..]);
    assert s[..k + 1] + s[k + 1..] == s;
  }

  lemma DisallowedCharacterNamed(s: string)
    ensures Blames(ParseRegex(s)) ==> ParseRegex(s).error.reason.symbol in s && !Allowed(ParseRegex(s).error.reason.symbol)
  {
    RunFacts(Start, s);
  }

  /** The fully parenthesised text of a fragment, in the syntax the parser reads. */
  function Print(f: Frag): string
  {
    match f
    case Sym(c) => [c]
    case Plus(l, r) => "(" + Print(l) + "+" + Print(r) + ")"
    case Dot(l, r) => "(" + Print(l) + "." + Print(r) + ")"
    case Star(g) => "(" + Print(g) + ")" + "*"
  }

  /** Every symbol of the fragment is in the alphabet. */
  predicate Symbols(f: Frag)
  {
    match f
    case Sym(c) => InAlphabet(c)
    case Plus(l, r) => Symbols(l) && Symbols(r)
    case Dot(l, r) => Symbols(l) && Symbols(r)
    case Star(g) => Symbols(g)
  }

  /** The last character of `Print(f)`. */
  function Closer(f: Frag): (c: char)
    ensures Symbols(f) ==> EndsOperand(Some(c))
  {
    match f
    case Sym(c) => c
    case Plus(_, _) => ')'
    case Dot(_, _) => ')'
    case Star(_) => '*'
  }

  /** Two runs chained: reading `a` reaches `mid`, and reading `b` from `mid` ends in `r`. */
  lemma RunThen(sc: Scan, a: string, b: string, mid: Scan, r: Result<Scan>)
    requires RunFrom(sc, a) == Ok(mid) && RunFrom(mid, b) == r
    ensures RunFrom(sc, a + b) == r
  {
    RunAppend(sc, a, b);
  }

  /** '(' where no operand ends: it is pushed and nothing is built. */
  lemma StepOpen(sc: Scan)
    requires !EndsOperand(sc.previous)
    ensures RunFrom(sc, "(") == Ok(Scan(sc.stack + ['('], sc.automata, Some('(')))
  {
    RunSingle(sc, '(');
  }

  /** A binary operator right after a '(' and one operand: it is pushed above the '('. */
  lemma StepOperator(st: seq<char>, au: seq<Frag>, x: char, op: char)
    requires IsOperator(op) && EndsOperand(Some(x))
    ensures RunFrom(Scan(st + ['('], au, Some(x)), [op]) == Ok(Scan(st + ['(', op], au, Some(op)))
  {
    RunSingle(Scan(st + ['('], au, Some(x)), op);
    assert !Reduces(st + ['('], op);
    assert (st + ['(']) + [op] == st + ['(', op];
  }

  /** Popping one binary operator and then the '(' below it. */
  lemma CloseBinary(st: seq<char>, au: seq<Frag>, l: Frag, r: Frag, op: char)
    requires IsOperator(op)
    ensures CloseBracket(st + ['(', op], au + [l] + [r]) == Ok(Stacks(st, au + [Combine(op, l, r)]))
  {
    assert (au + [l] + [r])[..|au|] == au;
    assert ProcessOp(au + [l] + [r], op) == Ok(au + [Combine(op, l, r)]);
    assert (st + ['(', op])[..|st| + 1] == st + ['('];
    assert (st + ['('])[..|st|] == st;
  }

  /** ')' closing "(l op r": the operator is applied and the '(' removed. */
  lemma StepCloseBinary(st: seq<char>, au: seq<Frag>, l: Frag, r: Frag, op: char, x: char)
    requires IsOperator(op) && EndsOperand(Some(x))
    ensures RunFrom(Scan(st + ['(', op], au + [l] + [r], Some(x)), ")")
         == Ok(Scan(st, au + [Combine(op, l, r)], Some(')')))
  {
    RunSingle(Scan(st + ['(', op], au + [l] + [r], Some(x)), ')');
    CloseBinary(st, au, l, r, op);
  }

  /** ')' closing "(g": only the '(' is removed. */
  lemma StepCloseSingle(st: seq<char>, au: seq<Frag>, x: char)
    requires EndsOperand(Some(x))
    ensures RunFrom(Scan(st + ['('], au, Some(x)), ")") == Ok(Scan(st, au, Some(')')))
  {
    RunSingle(Scan(st + ['('], au, Some(x)), ')');
    assert (st + ['('])[..|st|] == st;
  }

  /** '*' after ')': the top fragment is starred. */
  lemma StepStar(st: seq<char>, au: seq<Frag>, g: Frag)
    ensures RunFrom(Scan(st, au + [g], Some(')')), "*") == Ok(Scan(st, au + [Star(g)], Some('*')))
  {
    RunSingle(Scan(st, au + [g], Some(')')), '*');
    assert (au + [g])[..|au|] == au;
  }

  /** "(l op r)" read after the runs of `l` and `r`: the bracket and the operator reduce to one fragment. */
  lemma BinaryRun(op: char, l: Frag, r: Frag, sc: Scan)
    requires IsOperator(op) && !EndsOperand(sc.previous) && EndsOperand(Some(Closer(l))) && EndsOperand(Some(Closer(r)))
    requires RunFrom(Scan(sc.stack + ['('], sc.automata, Some('(')), Print(l))
          == Ok(Scan(sc.stack + ['('], sc.automata + [l], Some(Closer(l))))
    requires RunFrom(Scan(sc.stack + ['(', op], sc.automata + [l], Some(op)), Print(r))
          == Ok(Scan(sc.stack + ['(', op], sc.automata + [l] + [r], Some(Closer(r))))
    ensures RunFrom(sc, "(" + Print(l) + [op] + Print(r) + ")")
         == Ok(Scan(sc.stack, sc.automata + [Combine(op, l, r)], Some(')')))
  {
    var st, au := sc.stack, sc.automata;
    var x0: string := "(";
    var x1 := x0 + Print(l);
    var x2 := x1 + [op];
    var x3 := x2 + Print(r);
    var s1 := Scan(st + ['('], au, Some('('));
    var s2 := Scan(st + ['('], au + [l], Some(Closer(l)));
    var s3 := Scan(st + ['(', op], au + [l], Some(op));
    var s4 := Scan(st + ['(', op], au + [l] + [r], Some(Closer(r)));
    StepOpen(sc);
    RunThen(sc, x0, Print(l), s1, Ok(s2));
    StepOperator(st, au + [l], Closer(l), op);
    RunThen(sc, x1, [op], s2, Ok(s3));
    RunThen(sc, x2, Print(r), s3, Ok(s4));
    StepCloseBinary(st, au, l, r, op, Closer(r));
    RunThen(sc, x3, ")", s4, Ok(Scan(st, au + [Combine(op, l, r)], Some(')'))));
  }

  /** "(g)*" read after the run of `g`. */
  lemma StarRun(g: Frag, sc: Scan)
    requires !EndsOperand(sc.previous) && EndsOperand(Some(Closer(g)))
    requires RunFrom(Scan(sc.stack + ['('], sc.automata, Some('(')), Print(g))
          == Ok(Scan(sc.stack + ['('], sc.automata + [g], Some(Closer(g))))
    ensures RunFrom(sc, "(" + Print(g) + ")" + "*") == Ok(Scan(sc.stack, sc.automata + [Star(g)], Some('*')))
  {
    var st, au := sc.stack, sc.automata;
    var x0: string := "(";
    var x1 := x0 + Print(g);
    var x2 := x1 + ")";
    var s1 := Scan(st + ['('], au, Some('('));
    var s2 := Scan(st + ['('], au + [g], Some(Closer(g)));
    var s3 := Scan(st, au + [g], Some(')'));
    StepOpen(sc);
    RunThen(sc, x0, Print(g), s1, Ok(s2));
    StepCloseSingle(st, au + [g], Closer(g));
    RunThen(sc, x1, ")", s2, Ok(s3));
    StepStar(st, au, g);
    RunThen(sc, x2, "*", s3, Ok(Scan(st, au + [Star(g)], Some('*'))));
  }

  /** Reading the printed text of a fragment pushes exactly that fragment and leaves the operator stack as it was. */
  lemma {:induction false} PrintRun(f: Frag, sc: Scan)
    requires Symbols(f) && !EndsOperand(sc.previous)
    ensures RunFrom(sc, Print(f)) == Ok(Scan(sc.stack, sc.automata + [f], Some(Closer(f))))
    decreases f
  {
    match f
    case Sym(c) =>
      RunSingle(sc, c);
    case Plus(l, r) =>
      PrintRun(l, Scan(sc.stack + ['('], sc.automata, Some('(')));
      PrintRun(r, Scan(sc.stack + ['(', '+'], sc.automata + [l], Some('+')));
      BinaryRun('+', l, r, sc);
    case Dot(l, r) =>
      PrintRun(l, Scan(sc.stack + ['('], sc.automata, Some('(')));
      PrintRun(r, Scan(sc.stack + ['(', '.'], sc.automata + [l], Some('.')));
      BinaryRun('.', l, r, sc);
    case Star(g) =>
      PrintRun(g, Scan(sc.stack + ['('], sc.automata, Some('(')));
      StarRun(g, sc);
  }

  /** Parsing the printed text of a fragment gives the fragment back. */
  lemma ParsePrint(f: Frag)
    requires Symbols(f)
    ensures ParseRegex(Print(f)) == Ok(f)
    ensures ParseStrict(Print(f)) == Ok(f)
  {
    PrintRun(f, Start);
    assert [] + [f] == [f];
  }

  // ---------------------------------------------------------------------------
  // Unclosed brackets

  /** `s` closes every bracket it opens and never closes one it did not open. */
  predicate Balanced(s: string)
  {
    RegexText.Depth(s) == 0 && RegexText.NeverBelow(s)
  }

  /** "(a" is accepted as the fragment of "a": the '(' left on the stack is popped at the end and ignored. */
  lemma UnclosedBracketAccepted()
    ensures ParseRegex("(a") == Ok(Sym('a'))
    ensures !Balanced("(a")
  {
    var s := "(a";
    var open, read := Scan(['('], [], Some('(')), Scan(['('], [Sym('a')], Some('a'));
    assert s[..1] == "(" && s[..1][..0] == [];
    assert Concatenating(Start) == Ok(Stacks([], []));
    assert Step(Start, '(') == Ok(open);
    assert RunFrom(Start, s[..1]) == Ok(open);
    assert Concatenating(open) == Ok(Stacks(['('], []));
    assert Step(open, 'a') == Ok(read);
    assert RunFrom(Start, s) == Ok(read);
    assert ProcessOp([Sym('a')], '(') == Ok([Sym('a')]);
    assert Drain(['('], [Sym('a')]) == Ok([Sym('a')]);
    assert RegexText.Depth(s) == 1 by {
      assert RegexText.Depth(s[..1]) == 1;
    }
  }

  /** The parse with a check at the end that no '(' is left open. */
  function ParseStrict(s: string): Result<Frag>
  {
    match RunFrom(Start, s)
    case Ok(sc) => if '(' in sc.stack then Err(Parse(UnclosedBracket)) else Finish(Ok(sc))
    case Err(e) => Err(e)
  }

  /** Every prefix of a text that reads without error opens at least as many brackets as it closes. */
  lemma {:induction false} RunNeverBelow(s: string)
    ensures RunFrom(Start, s).Ok? ==> RegexText.NeverBelow(s)
    decreases |s|
  {
    if s != [] && RunFrom(Start, s).Ok? {
      var s' := s[..|s| - 1];
      RunNeverBelow(s');
      RunFacts(Start, s);
      forall k | 0 <= k <= |s|
        ensures RegexText.Depth(s[..k]) >= 0
      {
        if k < |s| {
          assert s[..k] == s'[..k];
        } else {
          assert s[..k] == s;
        }
      }
    }
  }

  /** The strict parse accepts only balanced texts, and rejects "(a". */
  lemma StrictParseBalanced(s: string)
    ensures ParseStrict(s).Ok? ==> Balanced(s)
    ensures ParseStrict("(a").Err?
  {
    RunFacts(Start, s);
    RunNeverBelow(s);
    UnclosedBracketAccepted();
  }

  /** Agrees with the parse as written on every balanced text. */
  lemma StrictAgreesWhenBalanced(s: string)
    requires Balanced(s)
    ensures ParseStrict(s) == ParseRegex(s)
  {
    RunFacts(Start, s);
  }

  // ---------------------------------------------------------------------------
  // `reverse_transition`

  /** `rev` maps each target of `row` to a symbol leading to it in `row`. */
  ghost predicate Reverses<C(!new), T(!new)>(row: map<C, T>, rev: map<T, C>)
  {
    rev.Keys == row.Values && forall v :: v in rev ==> rev[v] in row && row[rev[v]] == v
  }

  /** No two symbols of the row lead to the same target. */
  ghost predicate Injective<C(!new), T(!new)>(row: map<C, T>)
  {
    forall a, b :: a in row && b in row && row[a] == row[b] ==> a == b
  }

  /** The inner loop of `reverse_transition`: each `symbol: target` entry becomes `target: symbol`. */
  method ReverseRow<C(!new), T(==,!new)>(row: map<C, T>) returns (rev: map<T, C>)
    ensures Reverses(row, rev)
  {
    rev := map[];
    var rest := row.Keys;
    while rest != {}
      invariant rest <= row.Keys
      invariant rev.Keys == set c | c in row.Keys - rest :: row[c]
      invariant forall v :: v in rev ==> rev[v] in row && row[rev[v]] == v
      decreases rest
    {
      var c :| c in rest;
      rev := rev[row[c] := c];
      rest := rest - {c};
    }
    assert row.Keys - rest == row.Keys;
    forall v | v in row.Values
      ensures v in rev
    {
      var c :| c in row && row[c] == v;
    }
  }

  /** `reverse_transition`: the same outer keys, each row reversed. */
  method ReverseTransition<S(!new), C(!new), T(==,!new)>(t: map<S, map<C, T>>) returns (r: map<S, map<T, C>>)
    ensures r.Keys == t.Keys
    ensures forall k :: k in r ==> Reverses(t[k], r[k])
  {
    r := map[];
    var rest := t.Keys;
    while rest != {}
      invariant rest <= t.Keys
      invariant r.Keys == t.Keys - rest
      invariant forall k :: k in r ==> Reverses(t[k], r[k])
      decreases rest
    {
      var k :| k in rest;
      var rev := ReverseRow(t[k]);
      r := r[k := rev];
      rest := rest - {k};
    }
  }

  /** Reversing an injective row is undone by reversing again. */
  lemma ReverseTwice<C(!new), T(!new)>(row: map<C, T>, rev: map<T, C>)
    requires Injective(row) && Reverses(row, rev)
    ensures Injective(rev) && Reverses(rev, row)
  {
    forall c | c in row
      ensures c in rev.Values
    {
      assert row[c] in rev;
      assert rev[row[c]] == c;
    }
    forall c | c in rev.Values
      ensures c in row
    {
      var v :| v in rev && rev[v] == c;
    }
  }
}
