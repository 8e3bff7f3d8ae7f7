/**
 * The nondeterministic automaton of `nfa.py`: the move step, the lambda closure
 * (the single pass the code performs, and the fixpoint it is meant to reach),
 * the choice of a target set on a symbol, and lambda elimination.
 */
module Nfa {
  import opened Wrappers

  /**
   * The entry of one state in `transitions`: its lambda successor (the value under
   * the key `''`), and a set of target states per input symbol.
   */
  datatype Moves<S, C> = Moves(eps: Option<S>, on: map<C, set<S>>)

  // ---------------------------------------------------------------------------
  // The move step

  /** The states reached from `from` on `c`: the union of the target sets of its states. */
  ghost function Post<S(!new), C(!new)>(t: map<S, Moves<S, C>>, from: set<S>, c: C): set<S>
  {
    set s, x | s in from && s in t && c in t[s].on && x in t[s].on[c] :: x
  }

  /** The move step distributes over a union of source sets, and the empty set moves nowhere. */
  lemma PostUnion<S(!new), C(!new)>(t: map<S, Moves<S, C>>, a: set<S>, b: set<S>, c: C)
    ensures Post(t, a + b, c) == Post(t, a, c) + Post(t, b, c)
    ensures Post(t, {}, c) == {}
  {
    forall x | x in Post(t, a + b, c)
      ensures x in Post(t, a, c) + Post(t, b, c)
    {
      var s :| s in a + b && s in t && c in t[s].on && x in t[s].on[c];
      if s in a {
        assert x in Post(t, a, c);
      } else {
        assert x in Post(t, b, c);
      }
    }
  }

  /** Adding one source state adds its target set. */
  lemma PostAdd<S(!new), C(!new)>(t: map<S, Moves<S, C>>, from: set<S>, s: S, c: C)
    requires s in t && c in t[s].on
    ensures Post(t, from + {s}, c) == Post(t, from, c) + t[s].on[c]
  {
    PostUnion(t, from, {s}, c);
    assert Post(t, {s}, c) == t[s].on[c];
  }

  // ---------------------------------------------------------------------------
  // The lambda closure

  /** The lambda successors of the states in `from` that have an entry and one. */
  ghost function EpsImage<S(!new), C(!new)>(t: map<S, Moves<S, C>>, from: set<S>): set<S>
  {
    set s | s in from && s in t && t[s].eps.Some? :: t[s].eps.value
  }

  /** Every lambda successor named in the table. */
  ghost function EpsTargets<S(!new), C(!new)>(t: map<S, Moves<S, C>>): set<S>
  {
    EpsImage(t, t.Keys)
  }

  /** One pass of `_compute_lambda_closure`: `from` with the lambda successor of each of its states. */
  ghost function OnePass<S(!new), C(!new)>(t: map<S, Moves<S, C>>, from: set<S>): set<S>
  {
    from + EpsImage(t, from)
  }

  /** No state of `x` has a lambda successor outside `x`. */
  ghost predicate Closed<S(!new), C(!new)>(t: map<S, Moves<S, C>>, x: set<S>)
  {
    forall s :: s in x && s in t && t[s].eps.Some? ==> t[s].eps.value in x
  }

  /** The lambda closure of `from`: passes repeated until one adds nothing. */
  ghost function Closure<S(!new), C(!new)>(t: map<S, Moves<S, C>>, from: set<S>): set<S>
    decreases EpsTargets(t) - from
  {
    if OnePass(t, from) <= from then from
    else
      OnePassGrows(t, from);
      Closure(t, OnePass(t, from))
  }

  /** A pass that adds a state adds a lambda successor not seen before. */
  lemma OnePassGrows<S(!new), C(!new)>(t: map<S, Moves<S, C>>, from: set<S>)
    requires !(OnePass(t, from) <= from)
    ensures EpsTargets(t) - OnePass(t, from) < EpsTargets(t) - from
  {
    var x :| x in OnePass(t, from) && x !in from;
    var s :| s in from && s in t && t[s].eps.Some? && t[s].eps.value == x;
    assert x in EpsTargets(t);
  }

  /** The closure holds `from` and is closed under lambda moves. */
  lemma {:induction false} ClosureHolds<S(!new), C(!new)>(t: map<S, Moves<S, C>>, from: set<S>)
    ensures from <= Closure(t, from) && Closed(t, Closure(t, from))
    decreases EpsTargets(t) - from
  {
    if OnePass(t, from) <= from {
      forall s | s in from && s in t && t[s].eps.Some?
        ensures t[s].eps.value in from
      {
        assert t[s].eps.value in EpsImage(t, from);
      }
    } else {
      OnePassGrows(t, from);
      ClosureHolds(t, OnePass(t, from));
    }
  }

  /** The closure is the least such set: it lies inside every closed set holding `from`. */
  lemma {:induction false} ClosureLeast<S(!new), C(!new)>(t: map<S, Moves<S, C>>, from: set<S>, x: set<S>)
    requires from <= x && Closed(t, x)
    ensures Closure(t, from) <= x
    decreases EpsTargets(t) - from
  {
    if !(OnePass(t, from) <= from) {
      OnePassGrows(t, from);
      assert OnePass(t, from) <= x;
      ClosureLeast(t, OnePass(t, from), x);
    }
  }

  /** The closure adds nothing but lambda successors. */
  lemma {:induction false} ClosureWithin<S(!new), C(!new)>(t: map<S, Moves<S, C>>, from: set<S>)
    ensures Closure(t, from) <= from + EpsTargets(t)
  {
    var bound := from + EpsTargets(t);
    forall s | s in bound && s in t && t[s].eps.Some?
      ensures t[s].eps.value in bound
    {
      assert t[s].eps.value in EpsTargets(t);
    }
    ClosureLeast(t, from, bound);
  }

  /**
   * The closure as written misses chains: with lambda moves 0 -> 1 -> 2, one pass
   * from {0} gives {0, 1}, which is not closed, while the closure holds 2.
   */
  lemma OnePassMissesChain(t: map<int, Moves<int, char>>)
    requires t == map[0 := Moves(Some(1), map[]), 1 := Moves(Some(2), map[]), 2 := Moves(None, map[])]
    ensures OnePass(t, {0}) == {0, 1}
    ensures !Closed(t, OnePass(t, {0})) && 2 in Closure(t, {0})
  {
    assert t[0].eps.value == 1;
    assert EpsImage(t, {0}) == {1};
    assert t[1].eps.value == 2 && 2 !in {0, 1};
    ClosureHolds(t, {0});
    assert 1 in Closure(t, {0});
  }

  // ---------------------------------------------------------------------------
  // Lambda elimination

  /** The target sets `_compute_sigma_star` can pick: one per closure member with an entry for `c`. */
  ghost function Choices<S(!new), C(!new)>(t: map<S, Moves<S, C>>, state: S, c: C): set<set<S>>
  {
    set s | s in Closure(t, {state}) && s in t && c in t[s].on :: t[s].on[c]
  }

  /** Some state has no target set to choose on some input symbol, so lambda elimination raises. */
  ghost predicate Stuck<S(!new), C(!new)>(t: map<S, Moves<S, C>>, states: set<S>, inputs: set<C>)
  {
    exists s, c :: s in states && c in inputs && Choices(t, s, c) == {}
  }

  /** The states whose lambda closure meets the final states. */
  ghost function LambdaFinals<S(!new), C(!new)>(t: map<S, Moves<S, C>>, states: set<S>, finals: set<S>): set<S>
  {
    set s | s in states && exists f :: f in finals && f in Closure(t, {s})
  }

  /** Every final state is kept, and no state outside `states` is added. */
  lemma LambdaFinalsKeep<S(!new), C(!new)>(t: map<S, Moves<S, C>>, states: set<S>, finals: set<S>)
    ensures states * finals <= LambdaFinals(t, states, finals) <= states
  {
    forall s | s in states * finals
      ensures s in LambdaFinals(t, states, finals)
    {
      ClosureHolds(t, {s});
    }
  }

  /** A table without lambda moves, one row of target sets per state. */
  function Lift<S(!new), C(!new)>(m: map<S, map<C, set<S>>>): (t: map<S, Moves<S, C>>)
    ensures t.Keys == m.Keys
    ensures forall s :: s in t ==> t[s].eps.None? && t[s].on == m[s]
  {
    map s | s in m :: Moves(None, m[s])
  }

  /** A lifted table has no lambda moves, so every set is its own closure. */
  lemma LiftClosure<S(!new), C(!new)>(m: map<S, map<C, set<S>>>, from: set<S>)
    ensures Closure(Lift(m), from) == from
  {
    assert OnePass(Lift(m), from) <= from;
  }

  /** `m` is a result of `eliminate_lambda_closures`: a row for every state, a chosen target set per symbol. */
  ghost predicate Eliminated<S(!new), C(!new)>(t: map<S, Moves<S, C>>, states: set<S>, inputs: set<C>,
                                               m: map<S, map<C, set<S>>>)
  {
    && m.Keys == states
    && forall s :: s in m ==> m[s].Keys == inputs && forall c :: c in m[s] ==> m[s][c] in Choices(t, s, c)
  }

  class NFA<S(==,!new), C(==,!new)> {
    var states: set<S>
    var transitions: map<S, Moves<S, C>>
    var inputs: set<C>
    var initial: set<S>
    var finals: set<S>

    constructor (states: set<S>, transitions: map<S, Moves<S, C>>, inputs: set<C>, initial: set<S>, finals: set<S>)
      ensures this.states == states && this.transitions == transitions && this.inputs == inputs
      ensures this.initial == initial && this.finals == finals
    {
      this.states := states;
      this.transitions := transitions;
      this.inputs := inputs;
      this.initial := initial;
      this.finals := finals;
    }

    /** Every state has an entry, and so has every lambda successor: the lookups of lambda elimination succeed. */
    ghost predicate Entries()
      reads this
    {
      states <= transitions.Keys && EpsTargets(transitions) <= transitions.Keys
    }

    /** `get_next_state`: the union of the target sets on `c` of the states in `from`. */
    method GetNextState(from: set<S>, c: C) returns (r: set<S>)
      requires forall s :: s in from ==> s in transitions && c in transitions[s].on
      ensures r == Post(transitions, from, c)
    {
      r := {};
      var rest := from;
      PostUnion(transitions, {}, {}, c);
      while rest != {}
        invariant rest <= from && r == Post(transitions, from - rest, c)
        decreases rest
      {
        var s :| s in rest;
        PostAdd(transitions, from - rest, s, c);
        r := r + transitions[s].on[c];
        assert from - (rest - {s}) == (from - rest) + {s};
        rest := rest - {s};
      }
    }

    /**
     * `_compute_lambda_closure` as written: `v = t` makes both names denote one set,
     * so the `while t != v` test fails after the first pass, which adds the lambda
     * successor of each state of the argument.
     */
    method ComputeLambdaClosure(from: set<S>) returns (t: set<S>)
      ensures t == OnePass(transitions, from)
    {
      t := from;
      var v: set<S> := {};
      while t != v
        invariant (v == {} && t == from) || (v == t && t == OnePass(transitions, from))
        decreases if v == {} then 1 else 0
      {
        var rest := from;
        while rest != {}
          invariant rest <= from && t == from + EpsImage(transitions, from - rest)
          decreases rest
        {
          var state :| state in rest;
          if state in transitions {
            var l := transitions[state].eps;
            if l.Some? && l.value !in t {
              t := t + {l.value};
            } else {
              t := t + {state};
            }
          }
          assert from - (rest - {state}) == (from - rest) + {state};
          rest := rest - {state};
        }
        // the object named by `t` is also the one named by `v`
        v := t;
      }
    }

    /** The closure `_compute_lambda_closure` is meant to compute: passes repeat until one adds nothing. */
    method LambdaClosure(from: set<S>) returns (t: set<S>)
      ensures t == Closure(transitions, from)
    {
      ClosureHolds(transitions, from);
      t := from;
      var changed := true;
      while changed
        invariant from <= t <= Closure(transitions, from)
        invariant !changed ==> Closed(transitions, t)
        decreases EpsTargets(transitions) - t, if changed then 1 else 0
      {
        changed := false;
        var snapshot := t;
        var rest := t;
        while rest != {}
          invariant rest <= snapshot <= t <= Closure(transitions, from)
          invariant t - snapshot <= EpsTargets(transitions)
          invariant changed <==> t != snapshot
          invariant !changed ==> forall s :: s in snapshot - rest && s in transitions && transitions[s].eps.Some?
                                  ==> transitions[s].eps.value in t
          decreases rest
        {
          var state :| state in rest;
          if state in transitions {
            var l := transitions[state].eps;
            if l.Some? && l.value !in t {
              assert l.value in EpsTargets(transitions);
              t := t + {l.value};
              changed := true;
            }
          }
          rest := rest - {state};
        }
      }
      ClosureLeast(transitions, from, t);
    }

    /**
     * `_compute_sigma_star`: the target sets on `c` of the closure of `state`, one of
     * which is returned; `list(result)[0]` on no target set raises.  The code also
     * takes the closure of that set of target sets, which changes nothing, because
     * no target set is a state with an entry.
     */
    method SigmaStar(state: S, c: C) returns (r: Result<set<S>>)
      requires Entries() && state in transitions
      ensures r.Err? <==> Choices(transitions, state, c) == {}
      ensures r.Err? ==> r.error == EmptyPick
      ensures r.Ok? ==> r.value in Choices(transitions, state, c)
    {
      var initialSet := LambdaClosure({state});
      ClosureWithin(transitions, {state});
      var next: set<set<S>> := {};
      var rest := initialSet;
      while rest != {}
        invariant rest <= initialSet
        invariant next == set s | s in initialSet - rest && s in transitions && c in transitions[s].on :: transitions[s].on[c]
        decreases rest
      {
        var s :| s in rest;
        if c in transitions[s].on {
          next := next + {transitions[s].on[c]};
        }
        rest := rest - {s};
      }
      if next == {} {
        return Err(EmptyPick);
      }
      var pick :| pick in next;
      return Ok(pick);
    }

    /** The inner loop of `_eliminate_lambda_closures`: one pick per input symbol for `state`. */
    method ChooseRow(state: S) returns (row: Result<map<C, set<S>>>)
      requires Entries() && state in states
      ensures row.Err? <==> exists c :: c in inputs && Choices(transitions, state, c) == {}
      ensures row.Err? ==> row.error == EmptyPick
      ensures row.Ok? ==> row.value.Keys == inputs
      ensures row.Ok? ==> forall c :: c in row.value ==> row.value[c] in Choices(transitions, state, c)
    {
      var m: map<C, set<S>> := map[];
      var chars := inputs;
      while chars != {}
        invariant chars <= inputs && m.Keys == inputs - chars
        invariant forall c :: c in m ==> m[c] in Choices(transitions, state, c)
        decreases chars
      {
        var ch :| ch in chars;
        var next := SigmaStar(state, ch);
        if next.Err? {
          return Err(EmptyPick);
        }
        m := m[ch := next.value];
        chars := chars - {ch};
      }
      return Ok(m);
    }

    /**
     * `eliminate_lambda_closures`: for every state, a row choosing a target set per
     * input symbol, and the state made final when its closure meets a final state;
     * with `updateOrigin` the automaton takes the new table and final states.
     */
    method EliminateLambdaClosures(updateOrigin: bool) returns (r: Result<(map<S, map<C, set<S>>>, set<S>)>)
      requires Entries()
      modifies this
      ensures states == old(states) && inputs == old(inputs) && initial == old(initial)
      ensures r.Err? <==> Stuck(old(transitions), states, inputs)
      ensures r.Err? ==> r.error == EmptyPick
      ensures r.Ok? ==> Eliminated(old(transitions), states, inputs, r.value.0)
      ensures r.Ok? ==> r.value.1 == LambdaFinals(old(transitions), states, old(finals))
      ensures r.Ok? && updateOrigin ==> transitions == Lift(r.value.0) && finals == r.value.1
      ensures !(r.Ok? && updateOrigin) ==> transitions == old(transitions) && finals == old(finals)
    {
      var newTransition: map<S, map<C, set<S>>> := map[];
      var newFinals: set<S> := {};
      var rest := states;
      while rest != {}
        invariant unchanged(this)
        invariant rest <= states
        invariant Eliminated(transitions, states - rest, inputs, newTransition)
        invariant newFinals == LambdaFinals(transitions, states - rest, finals)
        invariant forall s, c :: s in states - rest && c in inputs ==> Choices(transitions, s, c) != {}
        decreases rest
      {
        var state :| state in rest;
        var closure := LambdaClosure({state});
        if exists f :: f in finals && f in closure {
          newFinals := newFinals + {state};
        }
        var row := ChooseRow(state);
        if row.Err? {
          return Err(EmptyPick);
        }
        newTransition := newTransition[state := row.value];
        rest := rest - {state};
      }
      if updateOrigin {
        transitions := Lift(newTransition);
        finals := newFinals;
      }
      return Ok((newTransition, newFinals));
    }
  }
}
