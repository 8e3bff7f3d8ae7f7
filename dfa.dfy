/**
 * The deterministic automaton of dfa.py: running a word, reachability and
 * emptiness, complement, and the on-demand product construction with the
 * union / intersection / difference / subset / disjointness operations built
 * on it (phase2.py carries a verbatim copy of the same algebra).
 */
module Dfa {
  import opened Wrappers

  /** A DFA as the Python object holds it: nothing ties `states` to `transitions`. */
  datatype Dfa<S, C> = Dfa(states: set<S>, inputs: set<C>, transitions: map<S, map<C, S>>,
                           finals: set<S>, initial: S)

  /** Every listed state has a transitions entry; `_get_next_state` raises otherwise. */
  predicate WellFormed<S(!new), C(!new)>(d: Dfa<S, C>)
  {
    d.states <= d.transitions.Keys
  }

  /**
   * The initial state has an entry, and every entry has a target for every input
   * symbol that itself has an entry.  The product construction, `is_final` and
   * minimization read `transitions.get(state).get(symbol)` and raise without it.
   */
  predicate Complete<S(!new), C(!new)>(d: Dfa<S, C>)
  {
    && d.initial in d.transitions
    && (forall s :: s in d.transitions ==> d.inputs <= d.transitions[s].Keys)
    && (forall s, c {:trigger Target(d.transitions, s, c)} ::
          s in d.transitions && c in d.inputs && c in d.transitions[s] ==> Target(d.transitions, s, c) in d.transitions)
  }

  /**
   * The target of the transition of `s` on `c`.  Closure facts are stated about this
   * name rather than about the map lookup itself, so that the solver only applies
   * them to the lookups a proof mentions.
   */
  function Target<K, C>(t: map<K, map<C, K>>, s: K, c: C): K
    requires s in t && c in t[s]
  {
    t[s][c]
  }

  /** Complete, and the listed states are exactly the states with an entry. */
  predicate Total<S(!new), C(!new)>(d: Dfa<S, C>)
  {
    Complete(d) && d.states == d.transitions.Keys
  }

  /** The word uses only symbols of the alphabet. */
  predicate Over<C(!new)>(w: seq<C>, alphabet: set<C>)
  {
    forall i :: 0 <= i < |w| ==> w[i] in alphabet
  }

  // ---------------------------------------------------------------------------
  // Running a word: `_get_next_state` and `accept_input`

  /** `_get_next_state`: None once the run is off the automaton. */
  function NextState<S(!new), C(!new)>(d: Dfa<S, C>, current: Option<S>, c: C): Option<S>
    requires WellFormed(d)
  {
    if current.Some? && current.value in d.states && c in d.transitions[current.value]
    then Some(d.transitions[current.value][c])
    else None
  }

  /** The state `accept_input` holds after reading `w` from `current`. */
  function Run<S(!new), C(!new)>(d: Dfa<S, C>, current: Option<S>, w: seq<C>): Option<S>
    requires WellFormed(d)
    decreases |w|
  {
    if w == [] then current else Run(d, NextState(d, current, w[0]), w[1..])
  }

  predicate Accepts<S(!new), C(!new)>(d: Dfa<S, C>, w: seq<C>)
    requires WellFormed(d)
  {
    var last := Run(d, Some(d.initial), w);
    last.Some? && last.value in d.finals
  }

  /** `accept_input`: feed the word symbol by symbol, then test the last state. */
  method AcceptInput<S(!new), C(!new)>(d: Dfa<S, C>, w: seq<C>) returns (accepted: bool)
    requires WellFormed(d)
    ensures accepted <==> Accepts(d, w)
    ensures w == [] ==> (accepted <==> d.initial in d.finals)
  {
    var current := Some(d.initial);
    for i := 0 to |w|
      invariant Run(d, current, w[i..]) == Run(d, Some(d.initial), w)
    {
      current := NextState(d, current, w[i]);
    }
    accepted := current.Some? && current.value in d.finals;
  }

  /** Once a run has fallen off the automaton it stays off, and the word is rejected. */
  lemma {:induction false} RunFromNone<S(!new), C(!new)>(d: Dfa<S, C>, w: seq<C>)
    requires WellFormed(d)
    ensures Run(d, None, w) == None
    decreases |w|
  {
    if w != [] {
      RunFromNone(d, w[1..]);
    }
  }

  /** Reading `u + v` is reading `u` and then `v`. */
  lemma {:induction false} RunAppend<S(!new), C(!new)>(d: Dfa<S, C>, current: Option<S>, u: seq<C>, v: seq<C>)
    requires WellFormed(d)
    ensures Run(d, current, u + v) == Run(d, Run(d, current, u), v)
    decreases |u|
  {
    if u != [] {
      assert (u + v)[0] == u[0];
      assert (u + v)[1..] == u[1..] + v;
      var next := NextState(d, current, u[0]);
      RunAppend(d, next, u[1..], v);
      assert Run(d, current, u + v) == Run(d, next, u[1..] + v);
      assert Run(d, current, u) == Run(d, next, u[1..]);
    } else {
      assert u + v == v;
    }
  }

  /** A word that falls off the automaton at some prefix is rejected, whatever follows. */
  lemma RejectAfterFallingOff<S(!new), C(!new)>(d: Dfa<S, C>, u: seq<C>, v: seq<C>)
    requires WellFormed(d)
    requires Run(d, Some(d.initial), u) == None
    ensures !Accepts(d, u + v)
  {
    RunAppend(d, Some(d.initial), u, v);
    RunFromNone(d, v);
  }

  // ---------------------------------------------------------------------------
  // Reachability and emptiness

  /** Follow the transition map only (no check against `states`); None once an entry is missing. */
  function Walk<S(!new), C(!new)>(t: map<S, map<C, S>>, s: S, w: seq<C>): Option<S>
    decreases |w|
  {
    if w == [] then Some(s)
    else if s in t && w[0] in t[s] then Walk(t, t[s][w[0]], w[1..])
    else None
  }

  /** `s` is reached from the initial state along the transition map, on any symbols. */
  ghost predicate Reachable<S(!new), C(!new)>(d: Dfa<S, C>, s: S)
  {
    exists w :: Walk(d.transitions, d.initial, w) == Some(s)
  }

  /** Every reachable state has an entry; `compute_reachable_states` raises otherwise. */
  ghost predicate ReachableHaveEntries<S(!new), C(!new)>(d: Dfa<S, C>)
  {
    forall w :: Walk(d.transitions, d.initial, w).Some? ==> Walk(d.transitions, d.initial, w).value in d.transitions
  }

  lemma {:induction false} WalkSnoc<S(!new), C(!new)>(t: map<S, map<C, S>>, s: S, w: seq<C>, c: C, x: S)
    requires Walk(t, s, w) == Some(x) && x in t && c in t[x]
    ensures Walk(t, s, w + [c]) == Some(t[x][c])
    decreases |w|
  {
    if w != [] {
      assert (w + [c])[1..] == w[1..] + [c];
      WalkSnoc(t, t[s][w[0]], w[1..], c, x);
    }
  }

  /** A set that holds `s` and the targets of every entry of its members holds every walk from `s`. */
  lemma {:induction false} ClosedHoldsWalks<S(!new), C(!new)>(t: map<S, map<C, S>>, closed: set<S>, s: S, w: seq<C>)
    requires s in closed
    requires forall v :: v in closed ==> v in t && t[v].Values <= closed
    ensures Walk(t, s, w).Some? ==> Walk(t, s, w).value in closed
    decreases |w|
  {
    if w != [] && s in t && w[0] in t[s] {
      assert t[s][w[0]] in t[s].Values;
      ClosedHoldsWalks(t, closed, t[s][w[0]], w[1..]);
    }
  }

  /** The initial state is reachable, and so is every target of a reachable state's entry. */
  lemma ReachableStep<S(!new), C(!new)>(d: Dfa<S, C>, s: S, next: S)
    requires ReachableHaveEntries(d)
    requires Reachable(d, s) && s in d.transitions && next in d.transitions[s].Values
    ensures Reachable(d, next) && next in d.transitions
  {
    var w :| Walk(d.transitions, d.initial, w) == Some(s);
    var c :| c in d.transitions[s] && d.transitions[s][c] == next;
    WalkSnoc(d.transitions, d.initial, w, c, s);
    assert Walk(d.transitions, d.initial, w + [c]).Some?;
  }

  /**
   * The inner loop of `compute_reachable_states`: every target of `state` not seen
   * before is added to `visited` and to the back of `queue`.
   */
  method VisitTargets<S(!new), C(!new)>(d: Dfa<S, C>, state: S, visited: set<S>, queue: seq<S>)
    returns (visited': set<S>, queue': seq<S>)
    requires ReachableHaveEntries(d)
    requires state in visited && forall s :: s in visited ==> Reachable(d, s) && s in d.transitions
    ensures d.transitions[state].Values <= visited'
    ensures visited <= visited' && forall s :: s in visited' ==> Reachable(d, s) && s in d.transitions
    ensures |queue| <= |queue'| && queue'[..|queue|] == queue
    ensures forall s :: s in queue' ==> s in queue || s in visited' - visited
    ensures forall s :: s in visited' - visited ==> s in queue'
    ensures visited' == visited ==> queue' == queue
  {
    visited', queue' := visited, queue;
    var pending := d.transitions[state].Values;
    while pending != {}
      invariant pending <= d.transitions[state].Values
      invariant d.transitions[state].Values - pending <= visited'
      invariant visited <= visited' && forall s :: s in visited' ==> Reachable(d, s) && s in d.transitions
      invariant |queue| <= |queue'| && queue'[..|queue|] == queue
      invariant forall s :: s in queue' ==> s in queue || s in visited' - visited
      invariant forall s :: s in visited' - visited ==> s in queue'
      invariant visited' == visited ==> queue' == queue
      decreases pending
    {
      var next :| next in pending;
      pending := pending - {next};
      if next !in visited' {
        ReachableStep(d, state, next);
        visited' := visited' + {next};
        queue' := queue' + [next];
      }
    }
  }

  /** `compute_reachable_states`: breadth-first search from the initial state. */
  method ComputeReachable<S(!new), C(!new)>(d: Dfa<S, C>) returns (visited: set<S>)
    requires ReachableHaveEntries(d)
    ensures forall s :: s in visited <==> Reachable(d, s)
  {
    var t := d.transitions;
    assert Walk(t, d.initial, []) == Some(d.initial);
    visited := {d.initial};
    var queue := [d.initial];
    while |queue| > 0
      invariant forall s :: s in visited ==> Reachable(d, s) && s in t
      invariant forall s :: s in queue ==> s in visited
      invariant forall s :: s in visited && s !in queue ==> t[s].Values <= visited
      decreases t.Keys - visited, |queue|
    {
      var state := queue[0];
      queue := queue[1..];
      ghost var visited0, queue0 := visited, queue;
      visited, queue := VisitTargets(d, state, visited, queue);
      forall s | s in queue0
        ensures s in queue
      {
        var i :| 0 <= i < |queue0| && queue0[i] == s;
        assert queue[..|queue0|][i] == s;
      }
    }
    forall s | Reachable(d, s)
      ensures s in visited
    {
      var w :| Walk(t, d.initial, w) == Some(s);
      ClosedHoldsWalks(t, visited, d.initial, w);
    }
  }

  /** `is_empty`: no reachable state is final. */
  method IsEmpty<S(!new), C(!new)>(d: Dfa<S, C>) returns (empty: bool)
    requires ReachableHaveEntries(d)
    ensures empty <==> forall s :: Reachable(d, s) ==> s !in d.finals
  {
    var reach := ComputeReachable(d);
    var common := reach * d.finals;
    empty := |common| == 0;
    if forall s :: Reachable(d, s) ==> s !in d.finals {
      assert common == {};
    } else {
      var s :| Reachable(d, s) && s in d.finals;
      assert s in common;
    }
  }

  /** A run that stays on the automaton follows the transition map. */
  lemma {:induction false} RunSomeIsWalk<S(!new), C(!new)>(d: Dfa<S, C>, s: S, w: seq<C>)
    requires WellFormed(d)
    requires Run(d, Some(s), w).Some?
    ensures Walk(d.transitions, s, w) == Run(d, Some(s), w)
    decreases |w|
  {
    if w != [] {
      if NextState(d, Some(s), w[0]) == None {
        RunFromNone(d, w[1..]);
      } else {
        RunSomeIsWalk(d, d.transitions[s][w[0]], w[1..]);
      }
    }
  }

  /** When the listed states are exactly those with an entry, a run is a walk. */
  lemma {:induction false} RunIsWalk<S(!new), C(!new)>(d: Dfa<S, C>, s: S, w: seq<C>)
    requires d.states == d.transitions.Keys
    ensures Run(d, Some(s), w) == Walk(d.transitions, s, w)
    decreases |w|
  {
    if w != [] {
      if s in d.transitions && w[0] in d.transitions[s] {
        RunIsWalk(d, d.transitions[s][w[0]], w[1..]);
      } else {
        RunFromNone(d, w[1..]);
      }
    }
  }

  /**
   * `is_empty` decides the language: no reachable final state means no word is
   * accepted, and, when the listed states are the states with an entry, conversely.
   */
  lemma EmptinessIsNoAcceptedWord<S(!new), C(!new)>(d: Dfa<S, C>)
    requires WellFormed(d)
    ensures (forall s :: Reachable(d, s) ==> s !in d.finals) ==> forall w :: !Accepts(d, w)
    ensures d.states == d.transitions.Keys && (forall w :: !Accepts(d, w)) ==>
              forall s :: Reachable(d, s) ==> s !in d.finals
  {
    if forall s :: Reachable(d, s) ==> s !in d.finals {
      forall w
        ensures !Accepts(d, w)
      {
        if Accepts(d, w) {
          RunSomeIsWalk(d, d.initial, w);
          assert Reachable(d, Run(d, Some(d.initial), w).value);
        }
      }
    }
    if d.states == d.transitions.Keys && forall w :: !Accepts(d, w) {
      forall s | Reachable(d, s)
        ensures s !in d.finals
      {
        var w :| Walk(d.transitions, d.initial, w) == Some(s);
        RunIsWalk(d, d.initial, w);
        assert !Accepts(d, w);
      }
    }
  }

  // ---------------------------------------------------------------------------
  // Complement

  /** `complement`: only the final states change, to `states - final_states`. */
  function Complement<S(!new), C(!new)>(d: Dfa<S, C>): Dfa<S, C>
  {
    d.(finals := d.states - d.finals)
  }

  /** Complementing twice gives back the automaton when its finals are among its states. */
  lemma ComplementTwice<S(!new), C(!new)>(d: Dfa<S, C>)
    requires d.finals <= d.states
    ensures Complement(Complement(d)) == d
    ensures Complement(d).finals * d.finals == {}
  {
    assert d.states - (d.states - d.finals) == d.finals;
  }

  /** On a total automaton every walk over the alphabet stays on states with an entry. */
  lemma {:induction false} WalkStaysOn<S(!new), C(!new)>(d: Dfa<S, C>, s: S, w: seq<C>)
    requires Complete(d) && s in d.transitions && Over(w, d.inputs)
    ensures Walk(d.transitions, s, w).Some? && Walk(d.transitions, s, w).value in d.transitions
    decreases |w|
  {
    if w != [] {
      assert w[0] in d.inputs;
      WalkStaysOn(d, Target(d.transitions, s, w[0]), w[1..]);
    }
  }

  /** The complement of a total automaton accepts exactly the words over the alphabet it rejects. */
  lemma ComplementAccepts<S(!new), C(!new)>(d: Dfa<S, C>, w: seq<C>)
    requires Total(d) && Over(w, d.inputs)
    ensures Accepts(Complement(d), w) <==> !Accepts(d, w)
  {
    RunIsWalk(d, d.initial, w);
    RunIsWalk(Complement(d), d.initial, w);
    WalkStaysOn(d, d.initial, w);
  }

  // ---------------------------------------------------------------------------
  // Product construction

  /** What `_construct_new_state_transitions` returns. */
  datatype Product<S(==), T(==), C(==)> = Product(initial: (S, T), states: set<(S, T)>,
                                      transitions: map<(S, T), map<C, (S, T)>>)

  /** Some word over the alphabet walks the first automaton to `p.0` and the second to `p.1`. */
  ghost predicate PairReachable<S(!new), T(!new), C(!new)>(d1: Dfa<S, C>, d2: Dfa<T, C>, p: (S, T))
  {
    exists w :: Over(w, d1.inputs) && Walk(d1.transitions, d1.initial, w) == Some(p.0)
                                   && Walk(d2.transitions, d2.initial, w) == Some(p.1)
  }

  /** The pair of successors of `p` on `c`. */
  function Successors<S(!new), T(!new), C(!new)>(d1: Dfa<S, C>, d2: Dfa<T, C>, p: (S, T), c: C): (S, T)
    requires p.0 in d1.transitions && c in d1.transitions[p.0]
    requires p.1 in d2.transitions && c in d2.transitions[p.1]
  {
    (Target(d1.transitions, p.0, c), Target(d2.transitions, p.1, c))
  }

  /**
   * The shape of a product: it starts at the pair of initial states, every pair has
   * an entry, and on every symbol a pair moves to the pair of successors, again a pair
   * of the product.
   */
  ghost predicate ProductShape<S(!new), T(!new), C(!new)>(d1: Dfa<S, C>, d2: Dfa<T, C>, initial: (S, T),
                                                      states: set<(S, T)>, transitions: map<(S, T), map<C, (S, T)>>)
  {
    && d1.inputs == d2.inputs
    && initial == (d1.initial, d2.initial)
    && initial in states
    && transitions.Keys == states
    && (forall p :: p in states ==> transitions[p].Keys == d1.inputs)
    && (forall p, c {:trigger Target(transitions, p, c)} :: p in states && c in d1.inputs ==>
          && p.0 in d1.transitions && c in d1.transitions[p.0]
          && p.1 in d2.transitions && c in d2.transitions[p.1]
          && Target(transitions, p, c) == Successors(d1, d2, p, c)
          && Target(transitions, p, c) in states)
  }

  /** The product has that shape and holds exactly the pairs reachable from the pair of initial states. */
  ghost predicate IsProduct<S(!new), T(!new), C(!new)>(d1: Dfa<S, C>, d2: Dfa<T, C>, r: Product<S, T, C>)
    requires Complete(d1) && Complete(d2)
  {
    && ProductShape(d1, d2, r.initial, r.states, r.transitions)
    && (forall p :: p in r.states <==> PairReachable(d1, d2, p))
  }

  lemma {:induction false} PairClosedHoldsWalks<S(!new), T(!new), C(!new)>(d1: Dfa<S, C>, d2: Dfa<T, C>, closed: set<(S, T)>,
                                                          p: (S, T), w: seq<C>)
    requires Complete(d1) && Complete(d2) && d1.inputs == d2.inputs
    requires p in closed && Over(w, d1.inputs)
    requires forall q :: q in closed ==> q.0 in d1.transitions && q.1 in d2.transitions
    requires forall q, c :: q in closed && c in d1.inputs ==>
               Successors(d1, d2, q, c) in closed
    ensures Walk(d1.transitions, p.0, w).Some? && Walk(d2.transitions, p.1, w).Some?
    ensures (Walk(d1.transitions, p.0, w).value, Walk(d2.transitions, p.1, w).value) in closed
    decreases |w|
  {
    if w != [] {
      var c := w[0];
      assert c in d1.inputs;
      var q := Successors(d1, d2, p, c);
      assert Over(w[1..], d1.inputs);
      PairClosedHoldsWalks(d1, d2, closed, q, w[1..]);
      assert Walk(d1.transitions, p.0, w) == Walk(d1.transitions, q.0, w[1..]);
      assert Walk(d2.transitions, p.1, w) == Walk(d2.transitions, q.1, w[1..]);
    }
  }

  /** The initial pair is reachable, and so is every successor of a reachable pair. */
  lemma PairReachableStep<S(!new), T(!new), C(!new)>(d1: Dfa<S, C>, d2: Dfa<T, C>, p: (S, T), c: C)
    requires PairReachable(d1, d2, p) && c in d1.inputs
    requires p.0 in d1.transitions && c in d1.transitions[p.0]
    requires p.1 in d2.transitions && c in d2.transitions[p.1]
    ensures PairReachable(d1, d2, (d1.initial, d2.initial))
    ensures PairReachable(d1, d2, Successors(d1, d2, p, c))
  {
    assert Over([], d1.inputs) && Walk(d1.transitions, d1.initial, []) == Some(d1.initial);
    var w :| Over(w, d1.inputs) && Walk(d1.transitions, d1.initial, w) == Some(p.0)
                                && Walk(d2.transitions, d2.initial, w) == Some(p.1);
    WalkSnoc(d1.transitions, d1.initial, w, c, p.0);
    WalkSnoc(d2.transitions, d2.initial, w, c, p.1);
    assert Over(w + [c], d1.inputs);
  }

  /** The pairs of states with an entry: a bound on the exploration. */
  ghost function AllPairs<S(!new), T(!new), C(!new)>(d1: Dfa<S, C>, d2: Dfa<T, C>): set<(S, T)>
  {
    set a, b | a in d1.transitions && b in d2.transitions :: (a, b)
  }

  /** Every pair found so far is reachable and made of states with an entry. */
  ghost predicate Found<S(!new), T(!new), C(!new)>(d1: Dfa<S, C>, d2: Dfa<T, C>, states: set<(S, T)>)
  {
    forall p :: p in states ==> PairReachable(d1, d2, p) && p.0 in d1.transitions && p.1 in d2.transitions
  }

  /**
   * The inner loop of `_construct_new_state_transitions`: the row of `current`, with
   * every successor not seen before added to `states` and to the back of `queue`.
   */
  method ExpandPair<S(!new), T(!new), C(!new)>(d1: Dfa<S, C>, d2: Dfa<T, C>, current: (S, T),
                                               states: set<(S, T)>, queue: seq<(S, T)>)
    returns (row: map<C, (S, T)>, states': set<(S, T)>, queue': seq<(S, T)>)
    requires Complete(d1) && Complete(d2) && d1.inputs == d2.inputs
    requires current in states && Found(d1, d2, states) && states <= AllPairs(d1, d2)
    ensures row.Keys == d1.inputs
    ensures forall c {:trigger row[c]} :: c in row ==> row[c] == Successors(d1, d2, current, c) && row[c] in states'
    ensures states <= states' <= AllPairs(d1, d2) && Found(d1, d2, states')
    ensures forall p :: p in queue ==> p in queue'
    ensures forall p :: p in queue' ==> p in queue || p in states' - states
    ensures forall p :: p in states' - states ==> p in queue'
    ensures states' == states ==> queue' == queue
    ensures states' == states || AllPairs(d1, d2) - states' < AllPairs(d1, d2) - states
  {
    states', queue' := states, queue;
    row := map[];
    var pending := d1.inputs;
    while pending != {}
      invariant pending <= d1.inputs && row.Keys == d1.inputs - pending
      invariant forall c {:trigger row[c]} :: c in row ==> row[c] == Successors(d1, d2, current, c) && row[c] in states'
      invariant states <= states' <= AllPairs(d1, d2) && Found(d1, d2, states')
      invariant forall p :: p in queue ==> p in queue'
      invariant forall p :: p in queue' ==> p in queue || p in states' - states
      invariant forall p :: p in states' - states ==> p in queue'
      invariant states' == states ==> queue' == queue
      decreases pending
    {
      var c :| c in pending;
      pending := pending - {c};
      var next := (d1.transitions[current.0][c], d2.transitions[current.1][c]);
      row := row[c := next];
      if next !in states' {
        PairReachableStep(d1, d2, current, c);
        states' := states' + {next};
        queue' := queue' + [next];
      }
    }
    if states' != states {
      var p :| p in states' && p !in states;
      assert p in AllPairs(d1, d2) - states && p !in AllPairs(d1, d2) - states';
    }
  }

  /** The rows built so far describe the product; adding the row of `current` keeps that so. */
  ghost predicate RowsDescribe<S(!new), T(!new), C(!new)>(d1: Dfa<S, C>, d2: Dfa<T, C>,
                                                       rows: map<(S, T), map<C, (S, T)>>, states: set<(S, T)>)
    requires Complete(d1) && Complete(d2) && d1.inputs == d2.inputs && Found(d1, d2, states) && rows.Keys <= states
  {
    && (forall p :: p in rows ==> rows[p].Keys == d1.inputs)
    && (forall p, c {:trigger Target(rows, p, c)} :: p in rows && c in d1.inputs ==>
          Target(rows, p, c) == Successors(d1, d2, p, c) && Target(rows, p, c) in states)
  }

  lemma RowsAfterUpdate<S(!new), T(!new), C(!new)>(d1: Dfa<S, C>, d2: Dfa<T, C>, rows: map<(S, T), map<C, (S, T)>>,
                                                   current: (S, T), row: map<C, (S, T)>, states: set<(S, T)>)
    requires Complete(d1) && Complete(d2) && d1.inputs == d2.inputs
    requires Found(d1, d2, states) && rows.Keys <= states && current in states
    requires RowsDescribe(d1, d2, rows, states)
    requires row.Keys == d1.inputs
    requires forall c {:trigger row[c]} :: c in row ==> row[c] == Successors(d1, d2, current, c) && row[c] in states
    ensures RowsDescribe(d1, d2, rows[current := row], states)
  {
    var after := rows[current := row];
    forall p | p in after
      ensures after[p].Keys == d1.inputs
    {
      if p != current {
        assert after[p] == rows[p];
      }
    }
    forall p, c | p in after && c in d1.inputs
      ensures Target(after, p, c) == Successors(d1, d2, p, c) && Target(after, p, c) in states
    {
      if p == current {
        assert Target(after, p, c) == row[c];
      } else {
        assert Target(after, p, c) == Target(rows, p, c);
      }
    }
  }

  /** Once every found pair has its row, the found pairs and their rows are the product. */
  lemma ExploredIsProduct<S(!new), T(!new), C(!new)>(d1: Dfa<S, C>, d2: Dfa<T, C>, states: set<(S, T)>,
                                                     rows: map<(S, T), map<C, (S, T)>>)
    requires Complete(d1) && Complete(d2) && d1.inputs == d2.inputs
    requires (d1.initial, d2.initial) in states && Found(d1, d2, states) && rows.Keys == states
    requires RowsDescribe(d1, d2, rows, states)
    ensures IsProduct(d1, d2, Product((d1.initial, d2.initial), states, rows))
  {
    forall q, c | q in states && c in d1.inputs
      ensures Successors(d1, d2, q, c) in states
    {
      assert Target(rows, q, c) in states;
    }
    forall p | PairReachable(d1, d2, p)
      ensures p in states
    {
      var w :| Over(w, d1.inputs) && Walk(d1.transitions, d1.initial, w) == Some(p.0)
                                  && Walk(d2.transitions, d2.initial, w) == Some(p.1);
      PairClosedHoldsWalks(d1, d2, states, (d1.initial, d2.initial), w);
    }
  }

  /**
   * The state of the exploration between two rounds: every pair found is reachable,
   * queued pairs are found, and every found pair off the queue has its row.
   */
  ghost predicate Exploring<S(!new), T(!new), C(!new)>(d1: Dfa<S, C>, d2: Dfa<T, C>, states: set<(S, T)>,
                                                    queue: seq<(S, T)>, rows: map<(S, T), map<C, (S, T)>>)
    requires Complete(d1) && Complete(d2)
  {
    && d1.inputs == d2.inputs
    && (d1.initial, d2.initial) in states && states <= AllPairs(d1, d2) && Found(d1, d2, states)
    && (forall p :: p in queue ==> p in states)
    && rows.Keys <= states
    && (forall p :: p in states && p !in queue ==> p in rows)
    && RowsDescribe(d1, d2, rows, states)
  }

  /** One round of the outer loop of `_construct_new_state_transitions`. */
  method ExploreNext<S(!new), T(!new), C(!new)>(d1: Dfa<S, C>, d2: Dfa<T, C>, states: set<(S, T)>,
                                                queue: seq<(S, T)>, rows: map<(S, T), map<C, (S, T)>>)
    returns (states': set<(S, T)>, queue': seq<(S, T)>, rows': map<(S, T), map<C, (S, T)>>)
    requires Complete(d1) && Complete(d2) && Exploring(d1, d2, states, queue, rows) && |queue| > 0
    ensures Exploring(d1, d2, states', queue', rows')
    ensures AllPairs(d1, d2) - states' < AllPairs(d1, d2) - states || (states' == states && |queue'| < |queue|)
  {
    var current := queue[0];
    var row;
    row, states', queue' := ExpandPair(d1, d2, current, states, queue[1..]);
    RowsAfterUpdate(d1, d2, rows, current, row, states');
    rows' := rows[current := row];
  }

  /** `_construct_new_state_transitions`: breadth-first, on-demand exploration of pairs. */
  method ConstructProduct<S(!new), T(!new), C(!new)>(d1: Dfa<S, C>, d2: Dfa<T, C>) returns (r: Result<Product<S, T, C>>)
    requires Complete(d1) && Complete(d2)
    ensures r.Err? <==> d1.inputs != d2.inputs
    ensures r.Err? ==> r.error == SymbolMisMatch
    ensures r.Ok? ==> IsProduct(d1, d2, r.value)
  {
    if d1.inputs != d2.inputs {
      return Err(SymbolMisMatch);
    }
    var initial := (d1.initial, d2.initial);
    var transitions: map<(S, T), map<C, (S, T)>> := map[];
    var states := {initial};
    var queue := [initial];
    assert Over([], d1.inputs) && Walk(d1.transitions, d1.initial, []) == Some(d1.initial);
    assert PairReachable(d1, d2, initial);
    while |queue| > 0
      invariant Exploring(d1, d2, states, queue, transitions)
      decreases AllPairs(d1, d2) - states, |queue|
    {
      states, queue, transitions := ExploreNext(d1, d2, states, queue, transitions);
    }
    assert transitions.Keys == states;
    ExploredIsProduct(d1, d2, states, transitions);
    r := Ok(Product(initial, states, transitions));
  }

  // ---------------------------------------------------------------------------
  // Operations derived from the product

  /** The three final-state predicates: union (or), intersection (and), difference (and not). */
  datatype Combine = Either | Both | FirstOnly

  predicate Marks(op: Combine, inFirst: bool, inSecond: bool)
  {
    match op
    case Either => inFirst || inSecond
    case Both => inFirst && inSecond
    case FirstOnly => inFirst && !inSecond
  }

  /** The loop each operation runs over the product's states to collect its finals. */
  method SelectFinals<S(!new), T(!new)>(states: set<(S, T)>, f1: set<S>, f2: set<T>, op: Combine)
    returns (finals: set<(S, T)>)
    ensures forall p :: p in finals <==> p in states && Marks(op, p.0 in f1, p.1 in f2)
  {
    finals := {};
    var pending := states;
    while pending != {}
      invariant pending <= states
      invariant forall p :: p in finals <==> p in states - pending && Marks(op, p.0 in f1, p.1 in f2)
      decreases pending
    {
      var p :| p in pending;
      pending := pending - {p};
      if Marks(op, p.0 in f1, p.1 in f2) {
        finals := finals + {p};
      }
    }
  }

  /** The product automaton whose finals are the pairs `op` marks. */
  ghost predicate IsProductDfa<S(!new), T(!new), C(!new)>(d1: Dfa<S, C>, d2: Dfa<T, C>, r: Dfa<(S, T), C>, op: Combine)
    requires Complete(d1) && Complete(d2)
  {
    && d1.inputs == d2.inputs
    && r.inputs == d1.inputs
    && IsProduct(d1, d2, Product(r.initial, r.states, r.transitions))
    && (forall p :: p in r.finals <==> p in r.states && Marks(op, p.0 in d1.finals, p.1 in d2.finals))
  }

  lemma {:induction false} ProductWalk<S(!new), T(!new), C(!new)>(d1: Dfa<S, C>, d2: Dfa<T, C>, r: Dfa<(S, T), C>,
                                                p: (S, T), w: seq<C>)
    requires r.inputs == d1.inputs && ProductShape(d1, d2, r.initial, r.states, r.transitions)
    requires p in r.states && Over(w, r.inputs)
    ensures Walk(d1.transitions, p.0, w).Some? && Walk(d2.transitions, p.1, w).Some?
    ensures Walk(r.transitions, p, w) == Some((Walk(d1.transitions, p.0, w).value, Walk(d2.transitions, p.1, w).value))
    decreases |w|
  {
    if w != [] {
      var c := w[0];
      assert c in r.inputs;
      var q := Target(r.transitions, p, c);
      assert Over(w[1..], r.inputs);
      ProductWalk(d1, d2, r, q, w[1..]);
      assert Walk(r.transitions, p, w) == Walk(r.transitions, q, w[1..]);
      assert Walk(d1.transitions, p.0, w) == Walk(d1.transitions, q.0, w[1..]);
      assert Walk(d2.transitions, p.1, w) == Walk(d2.transitions, q.1, w[1..]);
    }
  }

  /** The product automaton accepts a word exactly when `op` combines the two verdicts to true. */
  lemma ProductAccepts<S(!new), T(!new), C(!new)>(d1: Dfa<S, C>, d2: Dfa<T, C>, r: Dfa<(S, T), C>, op: Combine, w: seq<C>)
    requires Total(d1) && Total(d2) && IsProductDfa(d1, d2, r, op) && Over(w, d1.inputs)
    ensures Total(r)
    ensures Accepts(r, w) <==> Marks(op, Accepts(d1, w), Accepts(d2, w))
  {
    ProductWalk(d1, d2, r, r.initial, w);
    RunIsWalk(r, r.initial, w);
    RunIsWalk(d1, d1.initial, w);
    RunIsWalk(d2, d2.initial, w);
    WalkStaysOn(d1, d1.initial, w);
    WalkStaysOn(d2, d2.initial, w);
  }

  /** The product has no final pair exactly when no word over the alphabet is marked by `op`. */
  lemma ProductFinalsEmpty<S(!new), T(!new), C(!new)>(d1: Dfa<S, C>, d2: Dfa<T, C>, r: Dfa<(S, T), C>, op: Combine)
    requires Total(d1) && Total(d2) && IsProductDfa(d1, d2, r, op)
    ensures r.finals == {} <==> forall w :: Over(w, d1.inputs) ==> !Marks(op, Accepts(d1, w), Accepts(d2, w))
  {
    if r.finals != {} {
      var p :| p in r.finals;
      assert PairReachable(d1, d2, p);
      var w :| Over(w, d1.inputs) && Walk(d1.transitions, d1.initial, w) == Some(p.0)
                                  && Walk(d2.transitions, d2.initial, w) == Some(p.1);
      RunIsWalk(d1, d1.initial, w);
      RunIsWalk(d2, d2.initial, w);
      assert Marks(op, Accepts(d1, w), Accepts(d2, w));
    } else {
      forall w | Over(w, d1.inputs)
        ensures !Marks(op, Accepts(d1, w), Accepts(d2, w))
      {
        ProductAccepts(d1, d2, r, op, w);
      }
    }
  }

  /** Shared body of `union`, `intersection` and `difference`. */
  method Combined<S(!new), T(!new), C(!new)>(d1: Dfa<S, C>, d2: Dfa<T, C>, op: Combine) returns (r: Result<Dfa<(S, T), C>>)
    requires Complete(d1) && Complete(d2)
    ensures r.Err? <==> d1.inputs != d2.inputs
    ensures r.Err? ==> r.error == SymbolMisMatch
    ensures r.Ok? ==> IsProductDfa(d1, d2, r.value, op)
    ensures r.Ok? && Total(d1) && Total(d2) ==>
              forall w :: Over(w, d1.inputs) ==> (Accepts(r.value, w) <==> Marks(op, Accepts(d1, w), Accepts(d2, w)))
  {
    var product := ConstructProduct(d1, d2);
    if product.Err? {
      return Err(product.error);
    }
    var pr := product.value;
    var finals := SelectFinals(pr.states, d1.finals, d2.finals, op);
    var dfa := Dfa(pr.states, d1.inputs, pr.transitions, finals, pr.initial);
    assert IsProductDfa(d1, d2, dfa, op);
    if Total(d1) && Total(d2) {
      forall w | Over(w, d1.inputs)
        ensures Accepts(dfa, w) <==> Marks(op, Accepts(d1, w), Accepts(d2, w))
      {
        ProductAccepts(d1, d2, dfa, op, w);
      }
    }
    r := Ok(dfa);
  }

  /** `union`: a pair is final when either component is. */
  method Union<S(!new), T(!new), C(!new)>(d1: Dfa<S, C>, d2: Dfa<T, C>) returns (r: Result<Dfa<(S, T), C>>)
    requires Complete(d1) && Complete(d2)
    ensures r.Err? <==> d1.inputs != d2.inputs
    ensures r.Err? ==> r.error == SymbolMisMatch
    ensures r.Ok? ==> IsProductDfa(d1, d2, r.value, Either)
    ensures r.Ok? && Total(d1) && Total(d2) ==>
              forall w :: Over(w, d1.inputs) ==> (Accepts(r.value, w) <==> Accepts(d1, w) || Accepts(d2, w))
  {
    r := Combined(d1, d2, Either);
  }

  /** `intersection`: a pair is final when both components are. */
  method Intersection<S(!new), T(!new), C(!new)>(d1: Dfa<S, C>, d2: Dfa<T, C>) returns (r: Result<Dfa<(S, T), C>>)
    requires Complete(d1) && Complete(d2)
    ensures r.Err? <==> d1.inputs != d2.inputs
    ensures r.Err? ==> r.error == SymbolMisMatch
    ensures r.Ok? ==> IsProductDfa(d1, d2, r.value, Both)
    ensures r.Ok? && Total(d1) && Total(d2) ==>
              forall w :: Over(w, d1.inputs) ==> (Accepts(r.value, w) <==> Accepts(d1, w) && Accepts(d2, w))
  {
    r := Combined(d1, d2, Both);
  }

  /** `difference` (d1 - d2): a pair is final when the first component is and the second is not. */
  method Difference<S(!new), T(!new), C(!new)>(d1: Dfa<S, C>, d2: Dfa<T, C>) returns (r: Result<Dfa<(S, T), C>>)
    requires Complete(d1) && Complete(d2)
    ensures r.Err? <==> d1.inputs != d2.inputs
    ensures r.Err? ==> r.error == SymbolMisMatch
    ensures r.Ok? ==> IsProductDfa(d1, d2, r.value, FirstOnly)
    ensures r.Ok? && Total(d1) && Total(d2) ==>
              forall w :: Over(w, d1.inputs) ==> (Accepts(r.value, w) <==> Accepts(d1, w) && !Accepts(d2, w))
  {
    r := Combined(d1, d2, FirstOnly);
  }

  /** `is_subset`: no reachable pair is final in the first automaton and not in the second. */
  method IsSubset<S(!new), T(!new), C(!new)>(d1: Dfa<S, C>, d2: Dfa<T, C>) returns (r: Result<bool>)
    requires Complete(d1) && Complete(d2)
    ensures r.Err? <==> d1.inputs != d2.inputs
    ensures r.Err? ==> r.error == SymbolMisMatch
    ensures r.Ok? ==> (r.value <==> forall p :: PairReachable(d1, d2, p) ==> !(p.0 in d1.finals && p.1 !in d2.finals))
    ensures r.Ok? && Total(d1) && Total(d2) ==>
              (r.value <==> forall w :: Over(w, d1.inputs) && Accepts(d1, w) ==> Accepts(d2, w))
  {
    var product := ConstructProduct(d1, d2);
    if product.Err? {
      return Err(product.error);
    }
    var pr := product.value;
    var finals := SelectFinals(pr.states, d1.finals, d2.finals, FirstOnly);
    r := Ok(|finals| == 0);
    assert |finals| == 0 <==> finals == {} by {
      if finals != {} { var p :| p in finals; }
    }
    if Total(d1) && Total(d2) {
      ProductFinalsEmpty(d1, d2, Dfa(pr.states, d1.inputs, pr.transitions, finals, pr.initial), FirstOnly);
    }
  }

  /** `is_disjoint`: the intersection has no final state. */
  method IsDisjoint<S(!new), T(!new), C(!new)>(d1: Dfa<S, C>, d2: Dfa<T, C>) returns (r: Result<bool>)
    requires Complete(d1) && Complete(d2)
    ensures r.Err? <==> d1.inputs != d2.inputs
    ensures r.Err? ==> r.error == SymbolMisMatch
    ensures r.Ok? ==> (r.value <==> forall p :: PairReachable(d1, d2, p) ==> !(p.0 in d1.finals && p.1 in d2.finals))
    ensures r.Ok? && Total(d1) && Total(d2) ==>
              (r.value <==> forall w :: Over(w, d1.inputs) ==> !(Accepts(d1, w) && Accepts(d2, w)))
  {
    var both := Intersection(d1, d2);
    if both.Err? {
      return Err(both.error);
    }
    r := Ok(|both.value.finals| == 0);
    assert |both.value.finals| == 0 <==> both.value.finals == {} by {
      if both.value.finals != {} { var p :| p in both.value.finals; }
    }
    if Total(d1) && Total(d2) {
      ProductFinalsEmpty(d1, d2, both.value, Both);
    }
  }

  // ---------------------------------------------------------------------------
  // The ten-state example of the unit tests (state `qN` is written N)

  function Example(): Dfa<int, char>
  {
    Dfa({0, 1, 2, 3, 4, 5, 6, 7, 8, 9},
        {'a', 'b'},
        map[0 := map['a' := 1, 'b' := 9],
            1 := map['a' := 8, 'b' := 2],
            2 := map['a' := 3, 'b' := 2],
            3 := map['a' := 2, 'b' := 4],
            4 := map['a' := 5, 'b' := 8],
            5 := map['a' := 4, 'b' := 5],
            6 := map['a' := 7, 'b' := 5],
            7 := map['a' := 6, 'b' := 5],
            8 := map['a' := 1, 'b' := 3],
            9 := map['a' := 7, 'b' := 8]],
        {3, 4, 9, 8},
        0)
  }

  /** The words the unit tests expect the example to accept: "bb", ... */
  lemma ExampleAcceptsBB()
    ensures WellFormed(Example()) && Accepts(Example(), "bb")
  {
  }

  /** ... "abaaa", ... */
  lemma ExampleAcceptsABAAA()
    ensures Accepts(Example(), "abaaa")
  {
  }

  /** ... and "aababab". */
  lemma ExampleAcceptsAABABAB()
    ensures Accepts(Example(), "aababab")
  {
  }

  /** The example is not empty: its final state 9 is reached on "b". */
  lemma ExampleNotEmpty()
    ensures Reachable(Example(), 9) && 9 in Example().finals
  {
    assert Walk(Example().transitions, 0, "b") == Some(9);
  }
}
