/**
 * `DFA.from_nfa`: lambda elimination on the NFA, then the subset construction
 * over the sets of NFA states reached from the singletons, the final and
 * initial subsets, and the call to `minify` whose result is thrown away.
 */
module Subset {
  import opened Wrappers
  import opened Dfa
  import Nfa
  import MinTable
  import Minimize

  /** What `from_nfa` returns: an automaton over sets of NFA states, whose initial state may be missing. */
  datatype Determinized<S, C> = Determinized(states: set<set<S>>, inputs: set<C>,
                                             transitions: map<set<S>, map<C, set<S>>>,
                                             finals: set<set<S>>, initial: Option<set<S>>)

  /**
   * Every state has an entry with a target set per input symbol, and those targets
   * are states: the lookups `get_next_state` makes on a set of states succeed.
   */
  ghost predicate Rowed<S(!new), C(!new)>(t: map<S, Nfa.Moves<S, C>>, states: set<S>, inputs: set<C>)
  {
    forall s :: s in states ==> s in t && inputs <= t[s].on.Keys && forall c :: c in inputs ==> t[s].on[c] <= states
  }

  /** Every target set named in the table consists of states. */
  ghost predicate TargetsWithin<S(!new), C(!new)>(t: map<S, Nfa.Moves<S, C>>, states: set<S>)
  {
    forall s, c :: s in t && c in t[s].on ==> t[s].on[c] <= states
  }

  /** The set of states a word leads to from `from`: one move step per symbol. */
  ghost function PostWord<S(!new), C(!new)>(t: map<S, Nfa.Moves<S, C>>, from: set<S>, w: seq<C>): set<S>
    decreases |w|
  {
    if w == [] then from else PostWord(t, Nfa.Post(t, from, w[0]), w[1..])
  }

  /** The automaton without lambda moves accepts `w` from `from`: the word leads to a final state. */
  ghost predicate NfaAccepts<S(!new), C(!new)>(t: map<S, Nfa.Moves<S, C>>, from: set<S>, finals: set<S>, w: seq<C>)
  {
    !(PostWord(t, from, w) !! finals)
  }

  /** Extending the word by one symbol takes one more move step. */
  lemma {:induction false} PostWordSnoc<S(!new), C(!new)>(t: map<S, Nfa.Moves<S, C>>, from: set<S>, w: seq<C>, c: C)
    ensures PostWord(t, from, w + [c]) == Nfa.Post(t, PostWord(t, from, w), c)
    decreases |w|
  {
    if w == [] {
      assert PostWord(t, Nfa.Post(t, from, c), []) == Nfa.Post(t, from, c);
    } else {
      assert (w + [c])[1..] == w[1..] + [c];
      PostWordSnoc(t, Nfa.Post(t, from, w[0]), w[1..], c);
    }
  }

  /** `y` is the set some word over the alphabet leads to from one of the seeds. */
  ghost predicate Reached<S(!new), C(!new)>(t: map<S, Nfa.Moves<S, C>>, inputs: set<C>, seeds: set<set<S>>, y: set<S>)
  {
    exists x, w :: x in seeds && Over(w, inputs) && PostWord(t, x, w) == y
  }

  /**
   * The table the subset construction ends with: it holds the seeds, its rows give
   * for each subset and input symbol the move step, which is again a subset of the
   * table, and every subset of the table is reached from a seed.
   */
  ghost predicate SubsetTable<S(!new), C(!new)>(t: map<S, Nfa.Moves<S, C>>, states: set<S>, inputs: set<C>,
                                                seeds: set<set<S>>, dt: map<set<S>, map<C, set<S>>>)
  {
    && seeds <= dt.Keys
    && (forall y :: y in dt ==> y <= states)
    && AllReached(t, inputs, seeds, dt.Keys)
    && Stepped(t, inputs, dt.Keys, dt)
  }

  /** Every subset in `q` is reached from a seed. */
  ghost predicate AllReached<S(!new), C(!new)>(t: map<S, Nfa.Moves<S, C>>, inputs: set<C>, seeds: set<set<S>>, q: set<set<S>>)
  {
    forall y :: y in q ==> Reached(t, inputs, seeds, y)
  }

  /** Each row of `dt` holds the move step on every input symbol, and the step leads into `q`. */
  ghost predicate Stepped<S(!new), C(!new)>(t: map<S, Nfa.Moves<S, C>>, inputs: set<C>, q: set<set<S>>,
                                            dt: map<set<S>, map<C, set<S>>>)
  {
    && (forall y :: y in dt ==> dt[y].Keys == inputs)
    && (forall y, c {:trigger Target(dt, y, c)} :: y in dt && c in dt[y] ==>
          Target(dt, y, c) == Nfa.Post(t, y, c) && Target(dt, y, c) in q)
  }

  /** Walking the subset table is taking move steps: from every subset, a word leads to the set it reaches. */
  lemma {:induction false} WalkIsPostWord<S(!new), C(!new)>(t: map<S, Nfa.Moves<S, C>>, inputs: set<C>,
                                                            dt: map<set<S>, map<C, set<S>>>, y: set<S>, w: seq<C>)
    requires Stepped(t, inputs, dt.Keys, dt) && y in dt && Over(w, inputs)
    ensures Walk(dt, y, w) == Some(PostWord(t, y, w)) && PostWord(t, y, w) in dt
    decreases |w|
  {
    if w != [] {
      assert w[0] in inputs;
      assert Over(w[1..], inputs) by {
        forall i | 0 <= i < |w[1..]|
          ensures w[1..][i] in inputs
        {
          assert w[1..][i] == w[i + 1];
        }
      }
      assert Target(dt, y, w[0]) == Nfa.Post(t, y, w[0]);
      WalkIsPostWord(t, inputs, dt, dt[y][w[0]], w[1..]);
    }
  }

  /** A seed is reached by the empty word, and a move step from a reached set is reached. */
  lemma ReachedStep<S(!new), C(!new)>(t: map<S, Nfa.Moves<S, C>>, inputs: set<C>, seeds: set<set<S>>, y: set<S>, c: C)
    requires Reached(t, inputs, seeds, y) && c in inputs
    ensures Reached(t, inputs, seeds, Nfa.Post(t, y, c))
  {
    var x, w :| x in seeds && Over(w, inputs) && PostWord(t, x, w) == y;
    PostWordSnoc(t, x, w, c);
    assert Over(w + [c], inputs);
  }

  /** The elements of a set, each once, in some order: `list(s)`. */
  method SetList<T(==,!new)>(s: set<T>) returns (l: seq<T>)
    ensures MinTable.Distinct(l) && forall x :: x in l <==> x in s
  {
    l := [];
    var rest := s;
    while rest != {}
      invariant rest <= s && MinTable.Distinct(l)
      invariant forall x :: x in l <==> x in s && x !in rest
      decreases rest
    {
      var x :| x in rest;
      l := l + [x];
      rest := rest - {x};
    }
  }

  /** `compare_list_of_sets(list(a), list(b))` on two sets of subsets: their equality. */
  method SameSets<S(==,!new)>(a: set<set<S>>, b: set<set<S>>) returns (same: bool)
    ensures same <==> a == b
  {
    var la := SetList(a);
    var lb := SetList(b);
    same := MinTable.CompareListOfSets(la, lb);
    assert (set x | x in la) == a && (set x | x in lb) == b;
  }

  /** The sets of states, which bound the subsets the construction can list. */
  ghost function Subsets<S(!new)>(states: set<S>): set<set<S>>
  {
    set x: set<S> | x <= states
  }

  /** The targets the row of `state` adds: its move step on each input symbol. */
  ghost function RowTargets<S(!new), C(!new)>(t: map<S, Nfa.Moves<S, C>>, inputs: set<C>, state: set<S>): set<set<S>>
  {
    set c | c in inputs :: Nfa.Post(t, state, c)
  }

  /**
   * The inner loop of `from_nfa` for an unchecked subset: for every input symbol,
   * the move step is recorded in the row and added to `q`.
   */
  method StepRow<S(==,!new), C(==,!new)>(nfa: Nfa.NFA<S, C>, state: set<S>, q: set<set<S>>)
    returns (row: map<C, set<S>>, q': set<set<S>>)
    requires Rowed(nfa.transitions, nfa.states, nfa.inputs) && state <= nfa.states
    ensures row.Keys == nfa.inputs && forall c :: c in row ==> row[c] == Nfa.Post(nfa.transitions, state, c)
    ensures q' == q + RowTargets(nfa.transitions, nfa.inputs, state)
  {
    row := map[];
    q' := q;
    var chars := nfa.inputs;
    while chars != {}
      invariant chars <= nfa.inputs && row.Keys == nfa.inputs - chars
      invariant forall c :: c in row ==> row[c] == Nfa.Post(nfa.transitions, state, c)
      invariant q' == q + set c | c in nfa.inputs - chars :: Nfa.Post(nfa.transitions, state, c)
      decreases chars
    {
      var c :| c in chars;
      var next := nfa.GetNextState(state, c);
      row := row[c := next];
      if next !in q' {
        q' := q' + {next};
      }
      chars := chars - {c};
    }
  }

  /** The entry of `k` in `m`: the name the witness facts below are triggered on. */
  function Via<K, V>(m: map<K, V>, k: K): V
    requires k in m
  {
    m[k]
  }

  /** `p` names a seed and a word over the alphabet leading from it to `y`. */
  ghost predicate Witness<S(!new), C(!new)>(t: map<S, Nfa.Moves<S, C>>, inputs: set<C>, seeds: set<set<S>>,
                                            p: (set<S>, seq<C>), y: set<S>)
  {
    p.0 in seeds && Over(p.1, inputs) && PostWord(t, p.0, p.1) == y
  }

  /**
   * What the construction keeps true between steps: explored subsets are sets of
   * states, each with a witness to its being reached, and checked ones have rows.
   */
  ghost predicate Exploring<S(!new), C(!new)>(t: map<S, Nfa.Moves<S, C>>, states: set<S>, inputs: set<C>,
                                              seeds: set<set<S>>, q: set<set<S>>, dt: map<set<S>, map<C, set<S>>>,
                                              via: map<set<S>, (set<S>, seq<C>)>)
  {
    && dt.Keys <= q && seeds <= q && q <= via.Keys
    && (forall y :: y in q ==> y <= states)
    && (forall y {:trigger Via(via, y)} :: y in via ==> Witness(t, inputs, seeds, Via(via, y), y))
    && Stepped(t, inputs, q, dt)
  }

  /** Recording the row of an explored subset keeps the construction's invariant, with witnesses for the new targets. */
  lemma AddRow<S(!new), C(!new)>(t: map<S, Nfa.Moves<S, C>>, states: set<S>, inputs: set<C>,
                                seeds: set<set<S>>, q: set<set<S>>, dt: map<set<S>, map<C, set<S>>>,
                                via: map<set<S>, (set<S>, seq<C>)>, state: set<S>, row: map<C, set<S>>)
    returns (via': map<set<S>, (set<S>, seq<C>)>)
    requires Exploring(t, states, inputs, seeds, q, dt, via) && Rowed(t, states, inputs) && state in q
    requires row.Keys == inputs && forall c :: c in row ==> row[c] == Nfa.Post(t, state, c)
    ensures Exploring(t, states, inputs, seeds, q + RowTargets(t, inputs, state), dt[state := row], via')
  {
    var q' := q + RowTargets(t, inputs, state);
    forall y | y in RowTargets(t, inputs, state)
      ensures y <= states
    {
      var c := StepSymbol(t, inputs, state, y);
    }
    via' := AddWitnesses(t, inputs, seeds, via, state);
    AddSteps(t, inputs, q, dt, state, row);
  }

  /** Witnesses for the move steps of a witnessed subset: its word, one symbol longer. */
  lemma AddWitnesses<S(!new), C(!new)>(t: map<S, Nfa.Moves<S, C>>, inputs: set<C>, seeds: set<set<S>>,
                                      via: map<set<S>, (set<S>, seq<C>)>, state: set<S>)
    returns (via': map<set<S>, (set<S>, seq<C>)>)
    requires state in via
    requires forall y {:trigger Via(via, y)} :: y in via ==> Witness(t, inputs, seeds, Via(via, y), y)
    ensures via'.Keys == via.Keys + RowTargets(t, inputs, state)
    ensures forall y {:trigger Via(via', y)} :: y in via' ==> Witness(t, inputs, seeds, Via(via', y), y)
  {
    var p := Via(via, state);
    via' := map y | y in via.Keys + RowTargets(t, inputs, state) ::
              if y in via then via[y] else (p.0, p.1 + [StepSymbol(t, inputs, state, y)]);
    forall y | y in via'
      ensures Witness(t, inputs, seeds, Via(via', y), y)
    {
      if y in via {
        assert Via(via', y) == Via(via, y);
      } else {
        var c := StepSymbol(t, inputs, state, y);
        PostWordSnoc(t, p.0, p.1, c);
        assert Over(p.1 + [c], inputs);
      }
    }
  }

  /** The row of `state` holds its move steps, so recording it keeps the rows stepping into `q` and the new targets. */
  lemma AddSteps<S(!new), C(!new)>(t: map<S, Nfa.Moves<S, C>>, inputs: set<C>, q: set<set<S>>,
                                  dt: map<set<S>, map<C, set<S>>>, state: set<S>, row: map<C, set<S>>)
    requires Stepped(t, inputs, q, dt)
    requires row.Keys == inputs && forall c :: c in row ==> row[c] == Nfa.Post(t, state, c)
    ensures Stepped(t, inputs, q + RowTargets(t, inputs, state), dt[state := row])
  {
    var q' := q + RowTargets(t, inputs, state);
    var dt' := dt[state := row];
    forall y, c | y in dt' && c in dt'[y]
      ensures Target(dt', y, c) == Nfa.Post(t, y, c) && Target(dt', y, c) in q'
    {
      if y == state {
        assert row[c] in RowTargets(t, inputs, state);
      } else {
        assert Target(dt', y, c) == Target(dt, y, c);
      }
    }
  }

  /** A symbol whose move step from `state` is `y`. */
  ghost function StepSymbol<S(!new), C(!new)>(t: map<S, Nfa.Moves<S, C>>, inputs: set<C>, state: set<S>, y: set<S>): (c: C)
    requires y in RowTargets(t, inputs, state)
    ensures c in inputs && Nfa.Post(t, state, c) == y
  {
    var c :| c in inputs && Nfa.Post(t, state, c) == y; c
  }

  /** One step of a pass: an unchecked subset gets its row, and is checked. */
  method Visit<S(==,!new), C(==,!new)>(nfa: Nfa.NFA<S, C>, ghost seeds: set<set<S>>, state: set<S>, q: set<set<S>>,
                                       checked: set<set<S>>, dt: map<set<S>, map<C, set<S>>>,
                                       ghost via: map<set<S>, (set<S>, seq<C>)>)
    returns (q': set<set<S>>, checked': set<set<S>>, dt': map<set<S>, map<C, set<S>>>,
             ghost via': map<set<S>, (set<S>, seq<C>)>)
    requires Rowed(nfa.transitions, nfa.states, nfa.inputs) && state in q
    requires Exploring(nfa.transitions, nfa.states, nfa.inputs, seeds, q, dt, via) && dt.Keys == checked
    ensures Exploring(nfa.transitions, nfa.states, nfa.inputs, seeds, q', dt', via') && dt'.Keys == checked'
    ensures q <= q' && checked' == checked + {state}
  {
    q', dt', via' := q, dt, via;
    if state !in checked {
      var row;
      row, q' := StepRow(nfa, state, q);
      via' := AddRow(nfa.transitions, nfa.states, nfa.inputs, seeds, q, dt, via, state, row);
      dt' := dt[state := row];
      assert dt'.Keys == dt.Keys + {state};
    }
    checked' := checked + {state};
  }

  /** One pass of the `while` loop of `from_nfa`: every subset of `q` as it stood is visited. */
  method Pass<S(==,!new), C(==,!new)>(nfa: Nfa.NFA<S, C>, ghost seeds: set<set<S>>, q: set<set<S>>,
                                      checked: set<set<S>>, dt: map<set<S>, map<C, set<S>>>,
                                      ghost via: map<set<S>, (set<S>, seq<C>)>)
    returns (q': set<set<S>>, checked': set<set<S>>, dt': map<set<S>, map<C, set<S>>>,
             ghost via': map<set<S>, (set<S>, seq<C>)>)
    requires Rowed(nfa.transitions, nfa.states, nfa.inputs)
    requires Exploring(nfa.transitions, nfa.states, nfa.inputs, seeds, q, dt, via) && dt.Keys == checked
    ensures Exploring(nfa.transitions, nfa.states, nfa.inputs, seeds, q', dt', via') && dt'.Keys == checked'
    ensures q <= q' && checked' == checked + q
  {
    q', checked', dt', via' := q, checked, dt, via;
    var list := SetList(q);
    for i := 0 to |list|
      invariant q <= q'
      invariant forall y :: y in checked' <==> y in checked || y in list[..i]
      invariant Exploring(nfa.transitions, nfa.states, nfa.inputs, seeds, q', dt', via') && dt'.Keys == checked'
    {
      q', checked', dt', via' := Visit(nfa, seeds, list[i], q', checked', dt', via');
      assert list[..i + 1] == list[..i] + [list[i]];
    }
    assert list[..|list|] == list;
  }

  /**
   * The loop of `from_nfa` over `q`: passes over `q` until every subset in it has
   * been checked.
   */
  method Explore<S(==,!new), C(==,!new)>(nfa: Nfa.NFA<S, C>, seeds: set<set<S>>)
    returns (q: set<set<S>>, dt: map<set<S>, map<C, set<S>>>)
    requires Rowed(nfa.transitions, nfa.states, nfa.inputs)
    requires forall x :: x in seeds ==> x <= nfa.states
    ensures q == dt.Keys && SubsetTable(nfa.transitions, nfa.states, nfa.inputs, seeds, dt)
  {
    q := seeds;
    var checked: set<set<S>> := {};
    dt := map[];
    ghost var via: map<set<S>, (set<S>, seq<C>)> := map x | x in seeds :: (x, []);
    forall x | x in via
      ensures Witness(nfa.transitions, nfa.inputs, seeds, Via(via, x), x)
    {
      assert PostWord(nfa.transitions, x, []) == x;
    }
    var same := SameSets(checked, q);
    while !same
      invariant Exploring(nfa.transitions, nfa.states, nfa.inputs, seeds, q, dt, via)
      invariant checked <= q && dt.Keys == checked
      invariant same <==> checked == q
      decreases Subsets(nfa.states) - checked
    {
      var y :| y in q && y !in checked;
      assert y in Subsets(nfa.states);
      q, checked, dt, via := Pass(nfa, seeds, q, checked, dt, via);
      same := SameSets(checked, q);
    }
    forall y | y in dt
      ensures Reached(nfa.transitions, nfa.inputs, seeds, y)
    {
      var p := Via(via, y);
      assert Witness(nfa.transitions, nfa.inputs, seeds, p, y);
    }
  }

  /** The subset table over the singletons as an automaton is total once it has an initial subset. */
  lemma TableTotal<S(!new), C(!new)>(t: map<S, Nfa.Moves<S, C>>, states: set<S>, inputs: set<C>,
                                    seeds: set<set<S>>, dt: map<set<S>, map<C, set<S>>>,
                                    finals: set<set<S>>, start: set<S>)
    requires SubsetTable(t, states, inputs, seeds, dt) && start in dt
    ensures Total(Dfa(dt.Keys, inputs, dt, finals, start))
  {
    var d := Dfa(dt.Keys, inputs, dt, finals, start);
    forall y, c {:trigger Target(dt, y, c)} | y in dt && c in inputs && c in dt[y]
      ensures Target(dt, y, c) in dt
    {
    }
  }

  /**
   * `from_nfa` as written.  The NFA's own table and final states are replaced by
   * the lambda-free ones.  The subsets explored from the singletons become the
   * states, those meeting the new final states are final, and the initial state is
   * whichever subset meeting the NFA's initial states the last iteration visits.
   * With `minify`, the automaton is minimized and the result dropped, but
   * minimization removes every merged state from the set it was given, which is
   * the returned automaton's own state set.
   */
  method FromNfa<S(==,!new), C(==,!new)>(nfa: Nfa.NFA<S, C>, minify: bool) returns (r: Result<Determinized<S, C>>)
    requires nfa.Entries() && TargetsWithin(nfa.transitions, nfa.states)
    requires minify ==> !(nfa.initial !! nfa.states)
    modifies nfa
    ensures nfa.states == old(nfa.states) && nfa.inputs == old(nfa.inputs) && nfa.initial == old(nfa.initial)
    ensures r.Err? <==> Nfa.Stuck(old(nfa.transitions), nfa.states, nfa.inputs)
    ensures r.Err? ==> r.error == EmptyPick
    ensures r.Ok? ==> Lambdaless(old(nfa.transitions), old(nfa.finals), nfa)
    ensures r.Ok? ==> SubsetTable(nfa.transitions, nfa.states, nfa.inputs, Singles(nfa.states), r.value.transitions)
    ensures r.Ok? ==> r.value.inputs == nfa.inputs
    ensures r.Ok? ==> r.value.finals == Meeting(r.value.transitions.Keys, nfa.finals)
    ensures r.Ok? ==> (r.value.initial.None? <==> nfa.initial !! nfa.states)
    ensures r.Ok? && r.value.initial.Some? ==>
              r.value.initial.value in r.value.transitions && !(r.value.initial.value !! nfa.initial)
    ensures r.Ok? && !minify ==> r.value.states == r.value.transitions.Keys
    ensures r.Ok? && minify ==>
              && r.value.initial.Some?
              && r.value.states == r.value.transitions.Keys - Minimize.Merged(Explored(r.value, r.value.initial.value))
  {
    var ok := Eliminate(nfa);
    if !ok {
      return Err(EmptyPick);
    }
    var q, dt := Explore(nfa, Singles(nfa.states));
    var finals, initial := Ends(q, nfa.finals, nfa.initial);
    InitialFound(nfa.transitions, nfa.states, nfa.inputs, dt, nfa.initial);
    var states := q;
    if minify {
      TableTotal(nfa.transitions, nfa.states, nfa.inputs, Singles(nfa.states), dt, finals, initial.value);
      states := MinifyLeft(Dfa(q, nfa.inputs, dt, finals, initial.value));
    }
    r := Ok(Determinized(states, nfa.inputs, dt, finals, initial));
  }

  /** `eliminate_lambda_closures(update_origin=True)`, with the table it leaves ready for `get_next_state`. */
  method Eliminate<S(==,!new), C(==,!new)>(nfa: Nfa.NFA<S, C>) returns (ok: bool)
    requires nfa.Entries() && TargetsWithin(nfa.transitions, nfa.states)
    modifies nfa
    ensures nfa.states == old(nfa.states) && nfa.inputs == old(nfa.inputs) && nfa.initial == old(nfa.initial)
    ensures !ok <==> Nfa.Stuck(old(nfa.transitions), nfa.states, nfa.inputs)
    ensures ok ==> Lambdaless(old(nfa.transitions), old(nfa.finals), nfa) && Rowed(nfa.transitions, nfa.states, nfa.inputs)
  {
    var eliminated := nfa.EliminateLambdaClosures(true);
    ok := eliminated.Ok?;
    if ok {
      EliminatedRowed(old(nfa.transitions), nfa.states, nfa.inputs, eliminated.value.0);
    }
  }

  /**
   * The state set `minify` leaves behind: the table shares it with the automaton
   * and removes every merged state from it.
   */
  method MinifyLeft<S(==,!new), C(==,!new)>(d: Dfa<S, C>) returns (left: set<S>)
    requires Total(d)
    ensures left == d.states - Minimize.Merged(d)
  {
    var minimized;
    minimized, left := Minimize.Minify(d);
  }

  /**
   * The last loop of `from_nfa`: the subsets meeting the final states are final,
   * and the initial state is the last subset visited that meets the initial states.
   */
  method Ends<S(==,!new)>(q: set<set<S>>, finals0: set<S>, initial0: set<S>)
    returns (finals: set<set<S>>, initial: Option<set<S>>)
    ensures finals == Meeting(q, finals0)
    ensures initial.Some? ==> initial.value in q && !(initial.value !! initial0)
    ensures initial.None? ==> forall y :: y in q ==> y !! initial0
  {
    finals := {};
    initial := None;
    var rest := q;
    while rest != {}
      invariant rest <= q
      invariant finals == set y | y in q - rest && !(y !! finals0)
      invariant initial.Some? ==> initial.value in q && !(initial.value !! initial0)
      invariant initial.None? ==> forall y :: y in q - rest ==> y !! initial0
      decreases rest
    {
      var state :| state in rest;
      if !(state !! finals0) {
        finals := finals + {state};
      }
      if !(state !! initial0) {
        initial := Some(state);
      }
      assert q - (rest - {state}) == (q - rest) + {state};
      rest := rest - {state};
    }
    assert q - rest == q;
  }

  /** The subsets in `q` that share a state with `x`. */
  function Meeting<S(!new)>(q: set<set<S>>, x: set<S>): (r: set<set<S>>)
    ensures forall y :: y in r <==> y in q && !(y !! x)
  {
    set y | y in q && !(y !! x)
  }

  /** The singletons of the states, which `from_nfa` starts `q` with. */
  function Singles<S(!new)>(states: set<S>): (r: set<set<S>>)
    ensures forall x :: x in r <==> exists s :: s in states && x == {s}
  {
    set s | s in states :: {s}
  }

  /** The automaton over every explored subset, with `start` for its initial state: the one `minify` is given. */
  function Explored<S, C>(x: Determinized<S, C>, start: set<S>): (d: Dfa<set<S>, C>)
    ensures d.states == x.transitions.Keys && d.transitions == x.transitions && d.finals == x.finals && d.initial == start
  {
    Dfa(x.transitions.Keys, x.inputs, x.transitions, x.finals, start)
  }

  /**
   * After `eliminate_lambda_closures(update_origin=True)`: every state has a lambda-free
   * entry choosing one target set per input symbol, and the final states are those
   * whose closure met a final state.
   */
  ghost predicate Lambdaless<S(!new), C(!new)>(t0: map<S, Nfa.Moves<S, C>>, finals0: set<S>, nfa: Nfa.NFA<S, C>)
    reads nfa
  {
    && nfa.transitions.Keys == nfa.states
    && (forall s :: s in nfa.states ==> nfa.transitions[s].eps.None? && nfa.transitions[s].on.Keys == nfa.inputs)
    && (forall s, c :: s in nfa.states && c in nfa.inputs ==> nfa.transitions[s].on[c] in Nfa.Choices(t0, s, c))
    && nfa.finals == Nfa.LambdaFinals(t0, nfa.states, finals0)
  }

  /** The lambda-free table keeps the targets among the states. */
  lemma EliminatedRowed<S(!new), C(!new)>(t0: map<S, Nfa.Moves<S, C>>, states: set<S>, inputs: set<C>,
                                         m: map<S, map<C, set<S>>>)
    requires Nfa.Eliminated(t0, states, inputs, m) && TargetsWithin(t0, states)
    ensures Rowed(Nfa.Lift(m), states, inputs)
  {
    forall s, c | s in states && c in inputs
      ensures m[s][c] <= states
    {
      var y :| y in Nfa.Closure(t0, {s}) && y in t0 && c in t0[y].on && t0[y].on[c] == m[s][c];
    }
  }

  /** Some subset of a table over the singletons meets `initial` exactly when `initial` meets the states. */
  lemma InitialFound<S(!new), C(!new)>(t: map<S, Nfa.Moves<S, C>>, states: set<S>, inputs: set<C>,
                                      dt: map<set<S>, map<C, set<S>>>, initial: set<S>)
    requires SubsetTable(t, states, inputs, Singles(states), dt)
    ensures (forall y :: y in dt ==> y !! initial) <==> initial !! states
  {
    if !(initial !! states) {
      var s :| s in initial && s in states;
      assert {s} in Singles(states);
      assert !({s} !! initial);
    }
  }

  // ---------------------------------------------------------------------------
  // The construction `from_nfa` is meant to perform

  /**
   * The subset automaton accepts exactly what the lambda-free NFA accepts from the
   * same set of states: a word is accepted when the set it leads to meets the final states.
   */
  lemma SubsetAccepts<S(!new), C(!new)>(t: map<S, Nfa.Moves<S, C>>, states: set<S>, inputs: set<C>,
                                       seeds: set<set<S>>, dt: map<set<S>, map<C, set<S>>>,
                                       finals0: set<S>, start: set<S>, w: seq<C>)
    requires SubsetTable(t, states, inputs, seeds, dt) && start in dt && Over(w, inputs)
    ensures Accepts(Dfa(dt.Keys, inputs, dt, Meeting(dt.Keys, finals0), start), w)
            <==> NfaAccepts(t, start, finals0, w)
  {
    var d := Dfa(dt.Keys, inputs, dt, Meeting(dt.Keys, finals0), start);
    RunIsWalk(d, start, w);
    WalkIsPostWord(t, inputs, dt, start, w);
  }

  /**
   * `from_nfa` as intended: the subset of the NFA's initial states is explored with
   * the singletons and is the initial state, and `q` keeps every explored subset.
   * The result is total and accepts exactly the words the lambda-free NFA accepts.
   */
  method Determinize<S(==,!new), C(==,!new)>(nfa: Nfa.NFA<S, C>) returns (r: Result<Dfa<set<S>, C>>)
    requires nfa.Entries() && TargetsWithin(nfa.transitions, nfa.states)
    modifies nfa
    ensures nfa.states == old(nfa.states) && nfa.inputs == old(nfa.inputs) && nfa.initial == old(nfa.initial)
    ensures r.Err? <==> Nfa.Stuck(old(nfa.transitions), nfa.states, nfa.inputs)
    ensures r.Err? ==> r.error == EmptyPick
    ensures r.Ok? ==> Lambdaless(old(nfa.transitions), old(nfa.finals), nfa)
    ensures r.Ok? ==> Total(r.value) && r.value.inputs == nfa.inputs && r.value.initial == nfa.initial * nfa.states
    ensures r.Ok? ==> forall w :: Over(w, nfa.inputs) ==>
              (Accepts(r.value, w) <==> NfaAccepts(nfa.transitions, nfa.initial * nfa.states, nfa.finals, w))
  {
    var ok := Eliminate(nfa);
    if !ok {
      return Err(EmptyPick);
    }
    var start := nfa.initial * nfa.states;
    var q, dt := Explore(nfa, Singles(nfa.states) + {start});
    var finals, initial := Ends(q, nfa.finals, nfa.initial);
    TableTotal(nfa.transitions, nfa.states, nfa.inputs, Singles(nfa.states) + {start}, dt, finals, start);
    forall w | Over(w, nfa.inputs)
      ensures Accepts(Dfa(q, nfa.inputs, dt, finals, start), w)
              <==> NfaAccepts(nfa.transitions, start, nfa.finals, w)
    {
      SubsetAccepts(nfa.transitions, nfa.states, nfa.inputs, Singles(nfa.states) + {start}, dt, nfa.finals, start, w);
    }
    r := Ok(Dfa(q, nfa.inputs, dt, finals, start));
  }

  // ---------------------------------------------------------------------------
  // Where `from_nfa` as written departs from it

  /** The lambda-free NFA of the initial-state example: 0 goes to {0, 1} on 'a', 1 goes nowhere. */
  function PickExample(): (t: map<int, Nfa.Moves<int, char>>)
    ensures t.Keys == {0, 1}
  {
    map[0 := Nfa.Moves(None, map['a' := {0, 1}]), 1 := Nfa.Moves(None, map['a' := {}])]
  }

  /**
   * With initial state 0 and final state 1, the subset {0, 1} is explored and meets
   * the initial states, so `from_nfa` may make it the initial state; it is final,
   * so the empty word is accepted, which the NFA rejects from {0}.
   */
  lemma InitialPickAcceptsMore(dt: map<set<int>, map<char, set<int>>>)
    requires SubsetTable(PickExample(), {0, 1}, {'a'}, Singles({0, 1}), dt)
    ensures {0, 1} in dt && !({0, 1} !! {0})
    ensures !({0, 1} !! {1}) && !NfaAccepts(PickExample(), {0}, {1}, [])
  {
    assert {0} in Singles({0, 1});
    assert 'a' in dt[{0}];
    assert Target(dt, {0}, 'a') == Nfa.Post(PickExample(), {0}, 'a') && Target(dt, {0}, 'a') in dt;
    PickExamplePost();
  }

  lemma PickExamplePost()
    ensures Nfa.Post(PickExample(), {0}, 'a') == {0, 1}
    ensures !({0, 1} !! {0}) && !({0, 1} !! {1}) && !NfaAccepts(PickExample(), {0}, {1}, [])
  {
    assert PostWord(PickExample(), {0}, []) == {0};
    assert 0 in {0, 1} && 1 in {0, 1};
    var t := PickExample();
    assert t[0].on['a'] == {0, 1};
    forall x | x in Nfa.Post(t, {0}, 'a')
      ensures x in {0, 1}
    {
    }
  }

  /** The lambda-free NFA of the minimization example: both states go to 1 on 'a', and both are final. */
  function MergeExample(): (t: map<int, Nfa.Moves<int, char>>)
    ensures t.Keys == {0, 1}
  {
    map[0 := Nfa.Moves(None, map['a' := {1}]), 1 := Nfa.Moves(None, map['a' := {1}])]
  }

  /** From {0} or {1}, every word over {'a'} leads to {0} or {1}. */
  lemma {:induction false} MergeExampleStays(x: set<int>, w: seq<char>)
    requires (x == {0} || x == {1}) && Over(w, {'a'})
    ensures PostWord(MergeExample(), x, w) == {0} || PostWord(MergeExample(), x, w) == {1}
    decreases |w|
  {
    if w != [] {
      assert w[0] == 'a';
      MergeExamplePost(x);
      assert Over(w[1..], {'a'}) by {
        forall i | 0 <= i < |w[1..]|
          ensures w[1..][i] in {'a'}
        {
          assert w[1..][i] == w[i + 1];
        }
      }
      MergeExampleStays({1}, w[1..]);
    }
  }

  lemma MergeExamplePost(x: set<int>)
    requires x == {0} || x == {1}
    ensures Nfa.Post(MergeExample(), x, 'a') == {1}
  {
    var t := MergeExample();
    assert t[0].on['a'] == {1} && t[1].on['a'] == {1};
    var s :| s in x;
    assert 1 in t[s].on['a'];
  }

  /** The automaton `from_nfa` builds from the table of the minimization example, as `minify` is given it. */
  function MergeDfa(dt: map<set<int>, map<char, set<int>>>): (d: Dfa<set<int>, char>)
    ensures d.states == dt.Keys && d.transitions == dt && d.inputs == {'a'} && d.initial == {0}
  {
    Dfa(dt.Keys, {'a'}, dt, Meeting(dt.Keys, {0, 1}), {0})
  }

  lemma SinglesOfPair()
    ensures Singles({0, 1}) == {{0}, {1}}
  {
    assert {0} in Singles({0, 1}) && {1} in Singles({0, 1});
  }

  /** Only {0} and {1} are reached in the minimization example. */
  lemma MergeExampleReached(y: set<int>)
    requires Reached(MergeExample(), {'a'}, {{0}, {1}}, y)
    ensures y == {0} || y == {1}
  {
    var x, w :| x in {{0}, {1}} && Over(w, {'a'}) && PostWord(MergeExample(), x, w) == y;
    MergeExampleStays(x, w);
  }

  /** Every word over {'a'} is accepted from both {0} and {1}, so they are equivalent. */
  lemma MergeExampleEquivalent(dt: map<set<int>, map<char, set<int>>>)
    requires Stepped(MergeExample(), {'a'}, dt.Keys, dt) && {0} in dt && {1} in dt
    ensures Minimize.Equivalent(MergeDfa(dt), {0}, {1}) && Minimize.Equivalent(MergeDfa(dt), {1}, {0})
  {
    var d := MergeDfa(dt);
    assert !({0} !! {0, 1}) && !({1} !! {0, 1});
    forall w
      ensures !Minimize.Distinguishes(d, {0}, {1}, w)
    {
      if Over(w, {'a'}) {
        WalkIsPostWord(MergeExample(), {'a'}, dt, {0}, w);
        WalkIsPostWord(MergeExample(), {'a'}, dt, {1}, w);
        MergeExampleStays({0}, w);
        MergeExampleStays({1}, w);
      }
    }
    Minimize.EquivalentSym(d, {0}, {1});
  }

  lemma PairKeys(keys: set<set<int>>)
    requires {0} in keys && {1} in keys
    requires forall y :: y in keys ==> y == {0} || y == {1}
    ensures keys == {{0}, {1}}
  {
  }

  lemma MergedBoth(dt: map<set<int>, map<char, set<int>>>)
    requires dt.Keys == {{0}, {1}}
    requires Minimize.Equivalent(MergeDfa(dt), {0}, {1}) && Minimize.Equivalent(MergeDfa(dt), {1}, {0})
    ensures dt.Keys - Minimize.Merged(MergeDfa(dt)) == {}
  {
    assert {0} in Minimize.Merged(MergeDfa(dt)) && {1} in Minimize.Merged(MergeDfa(dt));
  }

  /**
   * With both states final, the table `from_nfa` explores is {{0}, {1}}, and the two
   * subsets are equivalent: minimization merges both, so the returned automaton,
   * whose states are what minimization leaves, has no state at all.
   */
  lemma MinifyEmptiesStates(dt: map<set<int>, map<char, set<int>>>)
    requires SubsetTable(MergeExample(), {0, 1}, {'a'}, Singles({0, 1}), dt)
    ensures dt.Keys == {{0}, {1}}
    ensures dt.Keys - Minimize.Merged(MergeDfa(dt)) == {}
  {
    SinglesOfPair();
    assert AllReached(MergeExample(), {'a'}, {{0}, {1}}, dt.Keys);
    forall y | y in dt
      ensures y == {0} || y == {1}
    {
      MergeExampleReached(y);
    }
    PairKeys(dt.Keys);
    MergeExampleEquivalent(dt);
    MergedBoth(dt);
  }
}
