/**
 * The minimization table of MinimizationTable.py: a dictionary from pairs of
 * states to booleans in which each unordered pair of distinct states is stored
 * under one of its two orderings, looked up and updated in either order, and
 * finally read back as groups of states that were never marked apart.
 */
module MinTable {
  import opened Wrappers

  // ---------------------------------------------------------------------------
  // The dictionary, as a value

  /** Each unordered pair is stored under at most one ordering, and never a state with itself. */
  predicate Oriented<S(==,!new)>(t: map<(S, S), bool>)
  {
    forall p :: p in t ==> p.0 != p.1 && (p.1, p.0) !in t
  }

  /** The keys are exactly the 2-combinations of `states`, each under one ordering. */
  predicate Covers<S(==,!new)>(t: map<(S, S), bool>, states: set<S>)
  {
    && (forall p :: p in t ==> p.0 in states && p.1 in states)
    && (forall a, b :: a in states && b in states && a != b ==> (a, b) in t || (b, a) in t)
  }

  /** The key under which the unordered pair `p` is stored: `p` itself, else its reverse. */
  function Entry<S(==,!new)>(t: map<(S, S), bool>, p: (S, S)): (k: Option<(S, S)>)
    ensures k.Some? ==> k.value in t && (k.value == p || k.value == (p.1, p.0))
    ensures k.None? ==> p !in t && (p.1, p.0) !in t
  {
    if p in t then Some(p) else if (p.1, p.0) in t then Some((p.1, p.0)) else None
  }

  /** `is_checked`: does the entry of `p`, in either order, hold `value`? */
  function Checked<S(==,!new)>(t: map<(S, S), bool>, p: (S, S), value: bool): (r: Result<bool>)
    ensures r.Err? <==> p !in t && (p.1, p.0) !in t
    ensures r.Err? ==> r.error == ElementNotInTable
  {
    match Entry(t, p)
    case None => Err(ElementNotInTable)
    case Some(k) => Ok(t[k] == value)
  }

  /** `update_table`: the entry of `p`, in either order, set to `value`. */
  function Updated<S(==,!new)>(t: map<(S, S), bool>, p: (S, S), value: bool): (r: Result<map<(S, S), bool>>)
    ensures r.Err? <==> p !in t && (p.1, p.0) !in t
    ensures r.Err? ==> r.error == ElementNotInTable
  {
    match Entry(t, p)
    case None => Err(ElementNotInTable)
    case Some(k) => Ok(t[k := value])
  }

  /** `pop`: the entry of `p`, in either order, removed. */
  function Popped<S(==,!new)>(t: map<(S, S), bool>, p: (S, S)): (r: Result<map<(S, S), bool>>)
    ensures r.Err? <==> p !in t && (p.1, p.0) !in t
    ensures r.Err? ==> r.error == ElementNotInTable
  {
    match Entry(t, p)
    case None => Err(ElementNotInTable)
    case Some(k) => Ok(t - {k})
  }

  /** Looking a pair up does not depend on the order it is given in. */
  lemma CheckedSymmetric<S(!new)>(t: map<(S, S), bool>, a: S, b: S, value: bool)
    requires Oriented(t)
    ensures Checked(t, (a, b), value) == Checked(t, (b, a), value)
  {
  }

  /**
   * After an update the pair reads back the new value in both orders, every other
   * unordered pair reads back what it did before, and the keys do not move.
   */
  lemma UpdatedReadsBack<S(!new)>(t: map<(S, S), bool>, p: (S, S), value: bool, q: (S, S), v: bool)
    requires Oriented(t) && Updated(t, p, value).Ok?
    ensures Updated(t, p, value).value.Keys == t.Keys && Oriented(Updated(t, p, value).value)
    ensures Checked(Updated(t, p, value).value, p, v) == Ok(value == v)
    ensures Checked(Updated(t, p, value).value, (p.1, p.0), v) == Ok(value == v)
    ensures q != p && q != (p.1, p.0) ==> Checked(Updated(t, p, value).value, q, v) == Checked(t, q, v)
  {
  }

  /** After a pop the pair is gone in both orders and every other entry is untouched. */
  lemma PoppedRemovesPair<S(!new)>(t: map<(S, S), bool>, p: (S, S))
    requires Oriented(t) && Popped(t, p).Ok?
    ensures Oriented(Popped(t, p).value)
    ensures p !in Popped(t, p).value && (p.1, p.0) !in Popped(t, p).value
    ensures forall q :: q in t && q != p && q != (p.1, p.0) ==> q in Popped(t, p).value && Popped(t, p).value[q] == t[q]
    ensures Popped(t, p).value.Keys <= t.Keys
  {
  }

  /** The entries of `t` holding `value`. */
  function WithValue<S(==,!new)>(t: map<(S, S), bool>, value: bool): (r: map<(S, S), bool>)
    ensures forall p :: p in r <==> p in t && t[p] == value
    ensures forall p :: p in r ==> r[p] == value
  {
    map p | p in t && t[p] == value :: value
  }

  // ---------------------------------------------------------------------------
  // Entries as the sets `convert_table_into_set_objects` builds

  /** A state, or the boolean value of an entry, as a member of one of the entry sets. */
  datatype Cell<S> = State(s: S) | Flag(b: bool)

  /** The set `{a, b, value}` of the entry `(a, b): value`. */
  function EntryCells<S(==,!new)>(k: (S, S), value: bool): (r: set<Cell<S>>)
    ensures State(k.0) in r && State(k.1) in r && Flag(value) in r && |r| <= 3
  {
    {State(k.0), State(k.1), Flag(value)}
  }

  ghost function Cells<S(!new)>(t: map<(S, S), bool>): set<set<Cell<S>>>
  {
    set k | k in t :: EntryCells(k, t[k])
  }

  /** Two entries of distinct states give the same set exactly when they are one unordered pair with one value. */
  lemma EntryCellsEqual<S(!new)>(k: (S, S), v: bool, m: (S, S), w: bool)
    requires k.0 != k.1 && m.0 != m.1
    ensures EntryCells(k, v) == EntryCells(m, w) <==> (m == k || m == (k.1, k.0)) && v == w
  {
    if EntryCells(k, v) == EntryCells(m, w) {
      assert Flag(w) in EntryCells(k, v);
      assert State(m.0) in EntryCells(k, v) && State(m.1) in EntryCells(k, v);
      assert State(k.0) in EntryCells(m, w) && State(k.1) in EntryCells(m, w);
    }
  }

  /** Two tables agree when every entry of each is stored, under some ordering and with the same value, in the other. */
  predicate SameEntries<S(==,!new)>(t1: map<(S, S), bool>, t2: map<(S, S), bool>)
  {
    && (forall k :: k in t1 ==> Checked(t2, k, t1[k]) == Ok(true))
    && (forall k :: k in t2 ==> Checked(t1, k, t2[k]) == Ok(true))
  }

  /**
   * The set Python builds for the entry `(a, b): value` when the states are integers:
   * `True` and `False` are the integers 1 and 0, so the value is absorbed by a state
   * equal to it.
   */
  function IntEntrySet(k: (int, int), value: bool): (r: set<int>)
    ensures k.0 in r && k.1 in r && (if value then 1 else 0) in r
    ensures (k.0 == 0 || k.1 == 0) && (k.0 == 1 || k.1 == 1) ==> r == {k.0, k.1}
  {
    {k.0, k.1, if value then 1 else 0}
  }

  ghost function IntCells(t: map<(int, int), bool>): set<set<int>>
  {
    set k | k in t :: IntEntrySet(k, t[k])
  }

  /**
   * As written, for states 0 and 1 the entry set is `{0, 1}` whatever the value, so
   * `__eq__` sees no difference between a table and the same table with that
   * entry marked.
   */
  lemma IntEqualsMissesMark(t: map<(int, int), bool>)
    requires (1, 0) !in t
    ensures IntCells(t[(0, 1) := false]) == IntCells(t[(0, 1) := true])
    ensures !SameEntries(t[(0, 1) := false], t[(0, 1) := true])
  {
    var before, after := t[(0, 1) := false], t[(0, 1) := true];
    assert IntEntrySet((0, 1), false) == {0, 1} == IntEntrySet((0, 1), true);
    forall e | e in IntCells(before)
      ensures e in IntCells(after)
    {
      var k :| k in before && e == IntEntrySet(k, before[k]);
      if k == (0, 1) {
        assert e == IntEntrySet(k, after[k]);
      } else {
        assert after[k] == before[k];
      }
    }
    forall e | e in IntCells(after)
      ensures e in IntCells(before)
    {
      var k :| k in after && e == IntEntrySet(k, after[k]);
      if k == (0, 1) {
        assert e == IntEntrySet(k, before[k]);
      } else {
        assert after[k] == before[k];
      }
    }
    assert Checked(after, (0, 1), before[(0, 1)]) == Ok(false);
  }

  /** `__eq__` compares entry sets; on oriented tables that is agreement on every unordered pair. */
  lemma CellsAgree<S(!new)>(t1: map<(S, S), bool>, t2: map<(S, S), bool>)
    requires Oriented(t1) && Oriented(t2)
    ensures Cells(t1) == Cells(t2) <==> SameEntries(t1, t2)
  {
    if Cells(t1) == Cells(t2) {
      forall k | k in t1
        ensures Checked(t2, k, t1[k]) == Ok(true)
      {
        assert EntryCells(k, t1[k]) in Cells(t2);
        var m :| m in t2 && EntryCells(m, t2[m]) == EntryCells(k, t1[k]);
        EntryCellsEqual(k, t1[k], m, t2[m]);
      }
      forall k | k in t2
        ensures Checked(t1, k, t2[k]) == Ok(true)
      {
        assert EntryCells(k, t2[k]) in Cells(t1);
        var m :| m in t1 && EntryCells(m, t1[m]) == EntryCells(k, t2[k]);
        EntryCellsEqual(k, t2[k], m, t1[m]);
      }
    }
    if SameEntries(t1, t2) {
      forall x | x in Cells(t1)
        ensures x in Cells(t2)
      {
        var k :| k in t1 && x == EntryCells(k, t1[k]);
        var m := Entry(t2, k).value;
        EntryCellsEqual(k, t1[k], m, t2[m]);
      }
      forall x | x in Cells(t2)
        ensures x in Cells(t1)
      {
        var k :| k in t2 && x == EntryCells(k, t2[k]);
        var m := Entry(t1, k).value;
        EntryCellsEqual(k, t2[k], m, t1[m]);
      }
    }
  }

  // ---------------------------------------------------------------------------
  // `compare_list_of_sets`

  predicate Distinct<T(==,!new)>(l: seq<T>)
  {
    forall i, j :: 0 <= i < j < |l| ==> l[i] != l[j]
  }

  /** How many positions of `l` hold `x`. */
  function Occurrences<T(==,!new)>(l: seq<T>, x: T): nat
  {
    if l == [] then 0 else Occurrences(l[..|l| - 1], x) + (if l[|l| - 1] == x then 1 else 0)
  }

  /** How many pairs of positions `(i, j)` have `l1[i] == l2[j]`: the counter of the double loop. */
  function CountEqual<T(==,!new)>(l1: seq<T>, l2: seq<T>): nat
  {
    if l1 == [] then 0 else CountEqual(l1[..|l1| - 1], l2) + Occurrences(l2, l1[|l1| - 1])
  }

  /** `compare_list_of_sets`: equal lengths, and as many matches as the first list is long. */
  method CompareListOfSets<T(==,!new)>(l1: seq<set<T>>, l2: seq<set<T>>) returns (eq: bool)
    ensures eq <==> |l1| == |l2| && CountEqual(l1, l2) == |l1|
    ensures Distinct(l1) && Distinct(l2) ==> (eq <==> (set x | x in l1) == (set x | x in l2))
  {
    if |l1| != |l2| {
      if Distinct(l1) && Distinct(l2) {
        DistinctCard(l1);
        DistinctCard(l2);
      }
      return false;
    }
    var count := 0;
    for i := 0 to |l1|
      invariant count == CountEqual(l1[..i], l2)
    {
      for j := 0 to |l2|
        invariant count == CountEqual(l1[..i], l2) + Occurrences(l2[..j], l1[i])
      {
        assert l2[..j + 1][..j] == l2[..j];
        if l2[j] == l1[i] {
          count := count + 1;
        }
      }
      assert l2[..|l2|] == l2;
      assert l1[..i + 1][..i] == l1[..i];
    }
    assert l1[..|l1|] == l1;
    eq := count == |l1|;
    if Distinct(l1) && Distinct(l2) {
      CompareDistinct(l1, l2);
    }
  }

  /** In a list without repeats an element occurs once or not at all. */
  lemma {:induction false} OccurrencesDistinct<T(!new)>(l: seq<T>, x: T)
    requires Distinct(l)
    ensures Occurrences(l, x) == if x in l then 1 else 0
  {
    if l != [] {
      var init := l[..|l| - 1];
      assert Distinct(init);
      OccurrencesDistinct(init, x);
      assert x in l <==> x in init || x == l[|l| - 1];
    }
  }

  /** Against a list without repeats, the count reaches the length exactly when every element is matched. */
  lemma {:induction false} CountEqualDistinct<T(!new)>(l1: seq<T>, l2: seq<T>)
    requires Distinct(l2)
    ensures CountEqual(l1, l2) <= |l1|
    ensures CountEqual(l1, l2) == |l1| <==> forall i :: 0 <= i < |l1| ==> l1[i] in l2
  {
    if l1 != [] {
      var init := l1[..|l1| - 1];
      CountEqualDistinct(init, l2);
      OccurrencesDistinct(l2, l1[|l1| - 1]);
      if CountEqual(l1, l2) == |l1| {
        forall i | 0 <= i < |l1|
          ensures l1[i] in l2
        {
          if i < |l1| - 1 {
            assert l1[i] == init[i];
          }
        }
      }
      if forall i :: 0 <= i < |l1| ==> l1[i] in l2 {
        forall i | 0 <= i < |init|
          ensures init[i] in l2
        {
          assert init[i] == l1[i];
        }
      }
    }
  }

  /** A list without repeats has as many distinct elements as positions. */
  lemma {:induction false} DistinctCard<T(!new)>(l: seq<T>)
    requires Distinct(l)
    ensures |set x | x in l| == |l|
  {
    if l != [] {
      var init := l[..|l| - 1];
      assert Distinct(init);
      DistinctCard(init);
      assert (set x | x in l) == (set x | x in init) + {l[|l| - 1]};
      assert l[|l| - 1] !in init;
    }
  }

  lemma CompareDistinct<T(!new)>(l1: seq<T>, l2: seq<T>)
    requires Distinct(l1) && Distinct(l2) && |l1| == |l2|
    ensures CountEqual(l1, l2) == |l1| <==> (set x | x in l1) == (set x | x in l2)
  {
    CountEqualDistinct(l1, l2);
    DistinctCard(l1);
    DistinctCard(l2);
    var e1 := set x | x in l1;
    var e2 := set x | x in l2;
    if CountEqual(l1, l2) == |l1| {
      assert e1 <= e2;
      SubsetSameCard(e1, e2);
    }
    if e1 == e2 {
      forall i | 0 <= i < |l1|
        ensures l1[i] in l2
      {
        assert l1[i] in e1;
      }
    }
  }

  /** A subset as large as its superset is the superset. */
  lemma {:induction false} SubsetSameCard<T(!new)>(a: set<T>, b: set<T>)
    requires a <= b && |a| == |b|
    ensures a == b
    decreases |a|
  {
    if a != {} {
      var x :| x in a;
      SubsetSameCard(a - {x}, b - {x});
      assert a == (a - {x}) + {x} && b == (b - {x}) + {x};
    }
  }

  // ---------------------------------------------------------------------------
  // `_make_all_possible_pairs_of_list`

  /** `[[a, b] for idx, a in enumerate(data) for b in data[idx + 1:]]` */
  function Pairs<T>(data: seq<T>): (r: seq<seq<T>>)
    ensures forall p :: p in r ==> |p| == 2
  {
    if data == [] then []
    else seq(|data| - 1, k requires 0 <= k < |data| - 1 => [data[0], data[k + 1]]) + Pairs(data[1..])
  }

  /** Every combination extended by every extra item, combination by combination. */
  function Extended<T>(combinations: seq<seq<T>>, extra: seq<T>): seq<seq<T>>
  {
    if combinations == [] then []
    else
      var last := combinations[|combinations| - 1];
      Extended(combinations[..|combinations| - 1], extra) + seq(|extra|, k requires 0 <= k < |extra| => last + [extra[k]])
  }

  /** There are n(n-1)/2 combinations of a list of n items. */
  lemma {:induction false} PairsCount<T>(data: seq<T>)
    ensures 2 * |Pairs(data)| == |data| * (|data| - 1)
  {
    if data != [] {
      PairsCount(data[1..]);
      var m := |data| - 1;
      assert 2 * |Pairs(data)| == 2 * m + m * (m - 1);
      Distribute(m);
    }
  }

  lemma Distribute(m: int)
    ensures 2 * m + m * (m - 1) == (m + 1) * m
  {
    calc {
      2 * m + m * (m - 1);
      2 * m + (m * m - m);
      m * m + m;
      (m + 1) * m;
    }
  }

  /** The combinations are exactly the lists `[data[i], data[j]]` with `i` before `j`. */
  lemma {:induction false} PairsMembers<T>(data: seq<T>, p: seq<T>)
    ensures p in Pairs(data) <==> exists i, j :: 0 <= i < j < |data| && p == [data[i], data[j]]
  {
    if data != [] {
      PairsMembers(data[1..], p);
      var row := seq(|data| - 1, k requires 0 <= k < |data| - 1 => [data[0], data[k + 1]]);
      assert Pairs(data) == row + Pairs(data[1..]);
      if p in row {
        var k :| 0 <= k < |row| && row[k] == p;
        assert p == [data[0], data[k + 1]];
      }
      if p in Pairs(data[1..]) {
        var i, j :| 0 <= i < j < |data| - 1 && p == [data[1..][i], data[1..][j]];
        assert p == [data[i + 1], data[j + 1]];
      }
      if exists i, j :: 0 <= i < j < |data| && p == [data[i], data[j]] {
        var i, j :| 0 <= i < j < |data| && p == [data[i], data[j]];
        if i == 0 {
          assert row[j - 1] == p;
        } else {
          assert p == [data[1..][i - 1], data[1..][j - 1]];
        }
      }
    }
  }

  /** There is one extended list per combination and extra item. */
  lemma {:induction false} ExtendedCount<T>(combinations: seq<seq<T>>, extra: seq<T>)
    ensures |Extended(combinations, extra)| == |combinations| * |extra|
  {
    if combinations != [] {
      ExtendedCount(combinations[..|combinations| - 1], extra);
      assert |combinations| * |extra| == (|combinations| - 1) * |extra| + |extra|;
    }
  }

  /** The extended lists are the combinations, each followed by one extra item. */
  lemma {:induction false} ExtendedMembers<T>(combinations: seq<seq<T>>, extra: seq<T>, p: seq<T>)
    ensures p in Extended(combinations, extra) <==> exists c, x :: c in combinations && x in extra && p == c + [x]
  {
    if combinations != [] {
      var init := combinations[..|combinations| - 1];
      var last := combinations[|combinations| - 1];
      ExtendedMembers(init, extra, p);
      var row := seq(|extra|, k requires 0 <= k < |extra| => last + [extra[k]]);
      assert Extended(combinations, extra) == Extended(init, extra) + row;
      if p in Extended(combinations, extra) {
        if p in row {
          var k :| 0 <= k < |row| && row[k] == p;
          assert last in combinations && extra[k] in extra && p == last + [extra[k]];
        } else {
          var c, x :| c in init && x in extra && p == c + [x];
          var i :| 0 <= i < |init| && init[i] == c;
          assert combinations[i] == c;
          assert c in combinations && x in extra && p == c + [x];
        }
      }
      if exists c, x :: c in combinations && x in extra && p == c + [x] {
        var c, x :| c in combinations && x in extra && p == c + [x];
        if c == last {
          var k :| 0 <= k < |extra| && extra[k] == x;
          assert row[k] == p;
        } else {
          var i :| 0 <= i < |combinations| && combinations[i] == c;
          assert i < |combinations| - 1 && init[i] == c;
          assert c in init && x in extra && p == c + [x];
        }
      }
    }
  }

  /** The loops that extend each combination by each extra item. */
  method ExtendAll<T>(combinations: seq<seq<T>>, extra: seq<T>) returns (r: seq<seq<T>>)
    ensures |r| == |combinations| * |extra|
    ensures forall p :: p in r <==> exists c, x :: c in combinations && x in extra && p == c + [x]
  {
    r := [];
    for i := 0 to |combinations|
      invariant r == Extended(combinations[..i], extra)
    {
      var comb := combinations[i];
      for j := 0 to |extra|
        invariant r == Extended(combinations[..i], extra) + seq(j, k requires 0 <= k < j => comb + [extra[k]])
      {
        r := r + [comb + [extra[j]]];
      }
      assert combinations[..i + 1][..i] == combinations[..i];
    }
    assert combinations[..|combinations|] == combinations;
    ExtendedCount(combinations, extra);
    forall p
      ensures p in r <==> exists c, x :: c in combinations && x in extra && p == c + [x]
    {
      ExtendedMembers(combinations, extra, p);
    }
  }

  /**
   * `_make_all_possible_pairs_of_list`: the pairs of items in list order and, when
   * extra items are given, every pair followed by every extra item.
   */
  method MakeAllPossiblePairs<T>(data: seq<T>, additional: seq<T>) returns (r: seq<seq<T>>)
    ensures additional == [] ==> 2 * |r| == |data| * (|data| - 1)
    ensures additional == [] ==> forall p :: p in r <==> exists i, j :: 0 <= i < j < |data| && p == [data[i], data[j]]
    ensures additional != [] ==> |r| == |Pairs(data)| * |additional|
    ensures additional != [] ==> forall p :: p in r <==> exists c, x :: c in Pairs(data) && x in additional && p == c + [x]
  {
    var combinations := Pairs(data);
    if additional == [] {
      PairsCount(data);
      forall p
        ensures p in combinations <==> exists i, j :: 0 <= i < j < |data| && p == [data[i], data[j]]
      {
        PairsMembers(data, p);
      }
      return combinations;
    }
    r := ExtendAll(combinations, additional);
  }

  // ---------------------------------------------------------------------------
  // Grouping the unmarked pairs: `bind_minimized_states`

  /** `list.remove`: drop the first occurrence of `x` (the list is unchanged when there is none). */
  function RemoveFirst<T(==,!new)>(l: seq<T>, x: T): (r: seq<T>)
    ensures |r| == if x in l then |l| - 1 else |l|
  {
    if l == [] then []
    else if l[0] == x then l[1..]
    else [l[0]] + RemoveFirst(l[1..], x)
  }

  /** Whether a pair shares a state with the seed pair. */
  predicate Touches<S(==,!new)>(seed: (S, S), s: (S, S))
  {
    seed.0 == s.0 || seed.0 == s.1 || seed.1 == s.0 || seed.1 == s.1
  }

  /**
   * The inner loop for one seed pair: walk the snapshot `remained_state[index + 1:]`;
   * a pair touching the seed adds its two states to the group and is removed from
   * the live list.  Returns the live list and the group.
   */
  function Absorb<S(==,!new)>(live: seq<(S, S)>, seed: (S, S), snapshot: seq<(S, S)>, group: set<S>): (r: (seq<(S, S)>, set<S>))
    ensures |live| - |snapshot| <= |r.0| <= |live|
    decreases |snapshot|
  {
    if snapshot == [] then (live, group)
    else if Touches(seed, snapshot[0]) then
      Absorb(RemoveFirst(live, snapshot[0]), seed, snapshot[1..], group + {snapshot[0].0, snapshot[0].1})
    else Absorb(live, seed, snapshot[1..], group)
  }

  /** The groups the outer `enumerate` loop appends, from position `i` of the live list on. */
  function GroupsFrom<S(==,!new)>(live: seq<(S, S)>, i: nat): seq<set<S>>
    decreases |live| - i
  {
    if i >= |live| then []
    else
      var next := Absorb(live, live[i], live[i + 1..], {live[i].0, live[i].1});
      [next.1] + GroupsFrom(next.0, i + 1)
  }

  /** Every state mentioned by a list of pairs. */
  function StatesOf<S(==,!new)>(pairs: seq<(S, S)>): set<S>
  {
    if pairs == [] then {} else {pairs[0].0, pairs[0].1} + StatesOf(pairs[1..])
  }

  lemma {:induction false} StatesOfMembers<S(!new)>(pairs: seq<(S, S)>)
    ensures forall p :: p in pairs ==> p.0 in StatesOf(pairs) && p.1 in StatesOf(pairs)
    ensures forall x :: x in StatesOf(pairs) ==> exists p :: p in pairs && (x == p.0 || x == p.1)
  {
    if pairs != [] {
      StatesOfMembers(pairs[1..]);
      forall p | p in pairs
        ensures p.0 in StatesOf(pairs) && p.1 in StatesOf(pairs)
      {
        if p != pairs[0] {
          assert p in pairs[1..];
        }
      }
      forall x | x in StatesOf(pairs)
        ensures exists p :: p in pairs && (x == p.0 || x == p.1)
      {
        var p := StatesOfWitness(pairs, x);
      }
    }
  }

  /** A pair of the list that mentions a given state of `StatesOf(pairs)`. */
  lemma {:induction false} StatesOfWitness<S(!new)>(pairs: seq<(S, S)>, x: S) returns (p: (S, S))
    requires x in StatesOf(pairs)
    ensures p in pairs && (x == p.0 || x == p.1)
    decreases |pairs|
  {
    if x == pairs[0].0 || x == pairs[0].1 {
      p := pairs[0];
    } else {
      p := StatesOfWitness(pairs[1..], x);
      assert p in pairs;
    }
  }

  /** The pairs of the snapshot that touch the seed. */
  function Touching<S(==,!new)>(snapshot: seq<(S, S)>, seed: (S, S)): (r: seq<(S, S)>)
    ensures forall p :: p in r <==> p in snapshot && Touches(seed, p)
  {
    if snapshot == [] then []
    else (if Touches(seed, snapshot[0]) then [snapshot[0]] else []) + Touching(snapshot[1..], seed)
  }

  /** Every state of a list of groups. */
  ghost function Union<S(!new)>(groups: seq<set<S>>): set<S>
  {
    set i, x | 0 <= i < |groups| && x in groups[i] :: x
  }

  /** The pairs of the snapshot that the seed does not touch. */
  function Kept<S(==,!new)>(snapshot: seq<(S, S)>, seed: (S, S)): (r: seq<(S, S)>)
    ensures forall p :: p in r <==> p in snapshot && !Touches(seed, p)
  {
    if snapshot == [] then []
    else (if Touches(seed, snapshot[0]) then [] else [snapshot[0]]) + Kept(snapshot[1..], seed)
  }

  /** Removing the first occurrence of `l[i]`, when no earlier position holds it, drops position `i`. */
  lemma {:induction false} RemoveFirstIndex<T(!new)>(l: seq<T>, i: nat)
    requires i < |l| && l[i] !in l[..i]
    ensures RemoveFirst(l, l[i]) == l[..i] + l[i + 1..]
  {
    if i > 0 {
      var t := l[1..];
      assert l[0] in l[..i];
      assert t[i - 1] == l[i];
      assert t[..i - 1] == l[1..i];
      RemoveFirstIndex(t, i - 1);
      assert t[i..] == l[i + 1..];
      assert l[..i] == [l[0]] + l[1..i];
    }
  }

  lemma RemoveFirstAt<T(!new)>(a: seq<T>, x: T, b: seq<T>)
    requires x !in a
    ensures RemoveFirst(a + [x] + b, x) == a + b
  {
    var l := a + [x] + b;
    assert l[|a|] == x && l[..|a|] == a && l[|a| + 1..] == b;
    RemoveFirstIndex(l, |a|);
  }

  /** A new last element keeps a list without repeats. */
  lemma DistinctSnoc<T(!new)>(l: seq<T>, x: T)
    requires Distinct(l) && forall i :: 0 <= i < |l| ==> l[i] != x
    ensures Distinct(l + [x])
  {
  }

  /** Dropping one position from a list without repeats leaves a list without repeats. */
  lemma DistinctDrop<T(!new)>(prefix: seq<T>, x: T, rest: seq<T>)
    requires Distinct(prefix + [x] + rest)
    ensures Distinct(prefix + rest) && x !in prefix && x !in rest
  {
    var l := prefix + [x] + rest;
    forall i, j | 0 <= i < j < |prefix + rest|
      ensures (prefix + rest)[i] != (prefix + rest)[j]
    {
      var i', j' := if i < |prefix| then i else i + 1, if j < |prefix| then j else j + 1;
      assert (prefix + rest)[i] == l[i'];
      assert (prefix + rest)[j] == l[j'];
    }
    forall k | 0 <= k < |prefix|
      ensures prefix[k] != x
    {
      assert l[k] == prefix[k] && l[|prefix|] == x;
    }
    forall k | 0 <= k < |rest|
      ensures rest[k] != x
    {
      assert l[|prefix| + 1 + k] == rest[k] && l[|prefix|] == x;
    }
  }

  lemma StatesOfCons<S(!new)>(p: (S, S), pairs: seq<(S, S)>)
    ensures StatesOf([p] + pairs) == {p.0, p.1} + StatesOf(pairs)
  {
    assert ([p] + pairs)[1..] == pairs;
  }

  /** Without repeated pairs, the inner loop removes exactly the pairs that touch the seed ... */
  lemma {:induction false} AbsorbDistinct<S(!new)>(prefix: seq<(S, S)>, seed: (S, S), snapshot: seq<(S, S)>, group: set<S>)
    requires Distinct(prefix + snapshot)
    ensures Absorb(prefix + snapshot, seed, snapshot, group).0 == prefix + Kept(snapshot, seed)
    decreases |snapshot|
  {
    if snapshot == [] {
      assert prefix + snapshot == prefix;
    } else {
      var s, rest := snapshot[0], snapshot[1..];
      assert snapshot == [s] + rest;
      assert prefix + snapshot == prefix + [s] + rest;
      DistinctDrop(prefix, s, rest);
      if Touches(seed, s) {
        RemoveFirstAt(prefix, s, rest);
        AbsorbDistinct(prefix, seed, rest, group + {s.0, s.1});
        assert Kept(snapshot, seed) == Kept(rest, seed);
      } else {
        assert prefix + snapshot == (prefix + [s]) + rest;
        AbsorbDistinct(prefix + [s], seed, rest, group);
        assert Kept(snapshot, seed) == [s] + Kept(rest, seed);
        assert prefix + [s] + Kept(rest, seed) == prefix + Kept(snapshot, seed);
      }
    }
  }

  /** ... and the group gains exactly their states. */
  lemma {:induction false} AbsorbGroup<S(!new)>(prefix: seq<(S, S)>, seed: (S, S), snapshot: seq<(S, S)>, group: set<S>)
    requires Distinct(prefix + snapshot)
    ensures Absorb(prefix + snapshot, seed, snapshot, group).1 == group + StatesOf(Touching(snapshot, seed))
    decreases |snapshot|
  {
    if snapshot != [] {
      var s, rest := snapshot[0], snapshot[1..];
      assert snapshot == [s] + rest;
      assert prefix + snapshot == prefix + [s] + rest;
      DistinctDrop(prefix, s, rest);
      if Touches(seed, s) {
        RemoveFirstAt(prefix, s, rest);
        AbsorbGroup(prefix, seed, rest, group + {s.0, s.1});
        assert Touching(snapshot, seed) == [s] + Touching(rest, seed);
        StatesOfCons(s, Touching(rest, seed));
      } else {
        assert prefix + snapshot == (prefix + [s]) + rest;
        AbsorbGroup(prefix + [s], seed, rest, group);
        assert Touching(snapshot, seed) == Touching(rest, seed);
      }
    }
  }

  /** Each group holds both states of its seed pair, and only states the pairs mention. */
  lemma {:induction false} GroupsSeeded<S(!new)>(live: seq<(S, S)>, i: nat, pairs: seq<(S, S)>)
    requires forall p :: p in live ==> p in pairs
    ensures forall g :: g in GroupsFrom(live, i) ==> g <= StatesOf(pairs) && exists p :: p in pairs && p.0 in g && p.1 in g
    decreases |live| - i
  {
    StatesOfMembers(pairs);
    if i < |live| {
      var next := Absorb(live, live[i], live[i + 1..], {live[i].0, live[i].1});
      AbsorbStaysWithin(live, live[i], live[i + 1..], {live[i].0, live[i].1}, pairs);
      GroupsSeeded(next.0, i + 1, pairs);
      assert live[i] in pairs;
    }
  }

  lemma {:induction false} AbsorbStaysWithin<S(!new)>(live: seq<(S, S)>, seed: (S, S), snapshot: seq<(S, S)>, group: set<S>, pairs: seq<(S, S)>)
    requires forall p :: p in live ==> p in pairs
    requires forall p :: p in snapshot ==> p in pairs
    ensures forall p :: p in Absorb(live, seed, snapshot, group).0 ==> p in pairs
    ensures Absorb(live, seed, snapshot, group).1 <= group + StatesOf(pairs)
    ensures group <= Absorb(live, seed, snapshot, group).1
    decreases |snapshot|
  {
    StatesOfMembers(pairs);
    if snapshot != [] {
      var s := snapshot[0];
      assert s in pairs;
      if Touches(seed, s) {
        RemoveFirstWithin(live, s);
        AbsorbStaysWithin(RemoveFirst(live, s), seed, snapshot[1..], group + {s.0, s.1}, pairs);
      } else {
        AbsorbStaysWithin(live, seed, snapshot[1..], group, pairs);
      }
    }
  }

  lemma {:induction false} RemoveFirstWithin<T(!new)>(l: seq<T>, x: T)
    ensures forall y :: y in RemoveFirst(l, x) ==> y in l
  {
    if l != [] && l[0] != x {
      RemoveFirstWithin(l[1..], x);
    }
  }

  /** Without repeated pairs, every state of every pair ends up in some group. */
  lemma {:induction false} GroupsCover<S(!new)>(live: seq<(S, S)>, i: nat)
    requires Distinct(live)
    ensures forall k :: i <= k < |live| ==> live[k].0 in Union(GroupsFrom(live, i)) && live[k].1 in Union(GroupsFrom(live, i))
    decreases |live| - i
  {
    if i < |live| {
      var seed := live[i];
      var next := Absorb(live, seed, live[i + 1..], {seed.0, seed.1});
      var rest := GroupsFrom(next.0, i + 1);
      assert GroupsFrom(live, i) == [next.1] + rest;
      assert Distinct(next.0) by {
        assert live == live[..i + 1] + live[i + 1..];
        AbsorbDistinct(live[..i + 1], seed, live[i + 1..], {seed.0, seed.1});
        KeptDistinct(live[..i + 1], live[i + 1..], seed);
      }
      GroupsCover(next.0, i + 1);
      forall k | i <= k < |live|
        ensures live[k].0 in Union(GroupsFrom(live, i)) && live[k].1 in Union(GroupsFrom(live, i))
      {
        var p := live[k];
        if k == i || Touches(seed, p) {
          CoverTouched(live, i, k);
          UnionHas(GroupsFrom(live, i), 0, p.0);
          UnionHas(GroupsFrom(live, i), 0, p.1);
        } else {
          CoverKept(live, i, k);
          UnionTail(next.1, rest, p.0);
          UnionTail(next.1, rest, p.1);
        }
      }
    }
  }

  /** The seed and every later pair it touches land in the seed's group. */
  lemma CoverTouched<S(!new)>(live: seq<(S, S)>, i: nat, k: nat)
    requires Distinct(live) && i <= k < |live|
    requires k == i || Touches(live[i], live[k])
    ensures var next := Absorb(live, live[i], live[i + 1..], {live[i].0, live[i].1});
      live[k].0 in next.1 && live[k].1 in next.1
  {
    var seed, snapshot := live[i], live[i + 1..];
    assert live == live[..i + 1] + snapshot;
    AbsorbGroup(live[..i + 1], seed, snapshot, {seed.0, seed.1});
    if k != i {
      assert live[k] == snapshot[k - i - 1];
      var touched := Touching(snapshot, seed);
      assert live[k] in touched;
      StatesOfMembers(touched);
    }
  }

  /** A later pair the seed does not touch stays in the live list, behind the seed. */
  lemma CoverKept<S(!new)>(live: seq<(S, S)>, i: nat, k: nat)
    requires Distinct(live) && i < k < |live|
    requires !Touches(live[i], live[k])
    ensures var next := Absorb(live, live[i], live[i + 1..], {live[i].0, live[i].1});
      exists j :: i + 1 <= j < |next.0| && next.0[j] == live[k]
  {
    var seed, snapshot := live[i], live[i + 1..];
    assert live == live[..i + 1] + snapshot;
    AbsorbDistinct(live[..i + 1], seed, snapshot, {seed.0, seed.1});
    var kept := Kept(snapshot, seed);
    assert live[k] == snapshot[k - i - 1];
    assert live[k] in kept;
    var m :| 0 <= m < |kept| && kept[m] == live[k];
    var next := Absorb(live, seed, snapshot, {seed.0, seed.1});
    assert next.0[i + 1 + m] == live[k];
  }

  lemma UnionHas<S(!new)>(groups: seq<set<S>>, i: nat, x: S)
    requires i < |groups| && x in groups[i]
    ensures x in Union(groups)
  {
  }

  lemma UnionTail<S(!new)>(g: set<S>, rest: seq<set<S>>, x: S)
    requires x in Union(rest)
    ensures x in Union([g] + rest)
  {
    var i :| 0 <= i < |rest| && x in rest[i];
    assert ([g] + rest)[i + 1] == rest[i];
  }

  lemma {:induction false} KeptDistinct<S(!new)>(prefix: seq<(S, S)>, snapshot: seq<(S, S)>, seed: (S, S))
    requires Distinct(prefix + snapshot)
    ensures Distinct(prefix + Kept(snapshot, seed))
    decreases |snapshot|
  {
    if snapshot == [] {
      assert prefix + snapshot == prefix;
    } else {
      var s, rest := snapshot[0], snapshot[1..];
      assert snapshot == [s] + rest;
      assert prefix + snapshot == prefix + [s] + rest;
      if Touches(seed, s) {
        DistinctDrop(prefix, s, rest);
        KeptDistinct(prefix, rest, seed);
        assert Kept(snapshot, seed) == Kept(rest, seed);
      } else {
        assert prefix + snapshot == (prefix + [s]) + rest;
        KeptDistinct(prefix + [s], rest, seed);
        assert Kept(snapshot, seed) == [s] + Kept(rest, seed);
        assert prefix + [s] + Kept(rest, seed) == prefix + Kept(snapshot, seed);
      }
    }
  }

  lemma UnionSnoc<S(!new)>(groups: seq<set<S>>, g: set<S>)
    ensures Union(groups + [g]) == Union(groups) + g
  {
    var l := groups + [g];
    forall x | x in Union(groups)
      ensures x in Union(l)
    {
      var i :| 0 <= i < |groups| && x in groups[i];
      assert l[i] == groups[i];
    }
    forall x | x in g
      ensures x in Union(l)
    {
      assert l[|groups|] == g;
    }
  }

  /** One singleton group per state of `states`, and nothing else. */
  ghost predicate Singletons<S(!new)>(groups: seq<set<S>>, states: set<S>)
  {
    && |groups| == |states|
    && (forall i :: 0 <= i < |groups| ==> exists x :: x in states && groups[i] == {x})
    && (forall x :: x in states ==> {x} in groups)
    && (forall i, j :: 0 <= i < j < |groups| ==> groups[i] != groups[j])
  }

  /**
   * The groups can overlap: for the six pairs of one class of four states, listed in
   * the order `combinations` produces them, the first group takes all four states and
   * the pair `(3, 4)`, which touches neither 1 nor 2, seeds a second group.
   */
  lemma GroupsOverlap()
    ensures var groups := GroupsFrom([(1, 2), (1, 3), (1, 4), (2, 3), (2, 4), (3, 4)], 0);
      |groups| == 2 && {1, 2, 3, 4} <= groups[0] && groups[1] == {3, 4}
  {
    GroupsOverlapOn([(1, 2), (1, 3), (1, 4), (2, 3), (2, 4), (3, 4)]);
  }

  lemma GroupsOverlapOn(pairs: seq<(int, int)>)
    requires pairs == OverlapAll()
    ensures var groups := GroupsFrom(pairs, 0);
      |groups| == 2 && {1, 2, 3, 4} <= groups[0] && groups[1] == {3, 4}
  {
    var rest := pairs[1..];
    assert pairs[0] == (1, 2) && rest == OverlapRest();
    OverlapFirstSeed(pairs, rest);
    var first := Absorb(pairs, (1, 2), rest, {1, 2});
    assert GroupsFrom(pairs, 0) == [first.1] + GroupsFrom(first.0, 1);
    OverlapSecondSeed(first.0);
  }

  /** The pair `(3, 4)` left behind seeds a second group of its own. */
  lemma OverlapSecondSeed(live: seq<(int, int)>)
    requires live == [(1, 2), (3, 4)]
    ensures GroupsFrom(live, 1) == [{3, 4}]
  {
    assert live[1] == (3, 4) && live[2..] == [];
    assert Absorb(live, (3, 4), [], {3, 4}) == (live, {3, 4});
    assert GroupsFrom(live, 1) == [{3, 4}] + GroupsFrom(live, 2);
  }

  /** The five pairs after the seed `(1, 2)` in the overlap example. */
  function OverlapRest(): seq<(int, int)>
  {
    [(1, 3), (1, 4), (2, 3), (2, 4), (3, 4)]
  }

  /** All pairs of the four states 1..4, in the order the pair generator lists them. */
  function OverlapAll(): seq<(int, int)>
  {
    [(1, 2)] + OverlapRest()
  }

  lemma OverlapDistinct()
    ensures Distinct(OverlapAll())
  {
    var l := OverlapAll();
    assert l == [(1, 2), (1, 3), (1, 4), (2, 3), (2, 4), (3, 4)];
    forall i, j | 0 <= i < j < |l|
      ensures l[i] != l[j]
    {
      assert l[i].0 < l[i].1;
      assert l[i].0 != l[j].0 || l[i].1 != l[j].1;
    }
  }

  /** The seed `(1, 2)` takes every state of the class; only `(3, 4)` stays in the list. */
  lemma OverlapFirstSeed(all: seq<(int, int)>, rest: seq<(int, int)>)
    requires all == OverlapAll() && rest == OverlapRest()
    ensures Absorb(all, (1, 2), rest, {1, 2}).0 == [(1, 2), (3, 4)]
    ensures {1, 2, 3, 4} <= Absorb(all, (1, 2), rest, {1, 2}).1
  {
    OverlapDistinct();
    assert all == [(1, 2)] + rest;
    AbsorbDistinct([(1, 2)], (1, 2), rest, {1, 2});
    OverlapKept(rest);
    OverlapFirstGroup(all, rest);
  }

  lemma OverlapFirstGroup(all: seq<(int, int)>, rest: seq<(int, int)>)
    requires all == [(1, 2)] + rest && rest == OverlapRest() && Distinct(all)
    ensures {1, 2, 3, 4} <= Absorb(all, (1, 2), rest, {1, 2}).1
  {
    var seed := (1, 2);
    AbsorbGroup([seed], seed, rest, {1, 2});
    var touched := Touching(rest, seed);
    assert rest[0] == (1, 3) && rest[3] == (2, 4);
    assert (1, 3) in touched && (2, 4) in touched;
    StatesOfMembers(touched);
  }

  lemma OverlapKept(s1: seq<(int, int)>)
    requires s1 == OverlapRest()
    ensures Kept(s1, (1, 2)) == [(3, 4)]
  {
    var seed := (1, 2);
    var s2, s3, s4, s5 := s1[1..], s1[2..], s1[3..], s1[4..];
    assert s1 == [(1, 3)] + s2 && s2 == [(1, 4)] + s3 && s3 == [(2, 3)] + s4;
    assert s4 == [(2, 4)] + s5 && s5 == [(3, 4)] + [];
    KeptCons((3, 4), [], seed);
    KeptCons((2, 4), s5, seed);
    KeptCons((2, 3), s4, seed);
    KeptCons((1, 4), s3, seed);
    KeptCons((1, 3), s2, seed);
  }

  lemma KeptCons<S(!new)>(s: (S, S), rest: seq<(S, S)>, seed: (S, S))
    ensures Kept([s] + rest, seed) == (if Touches(seed, s) then [] else [s]) + Kept(rest, seed)
  {
    assert ([s] + rest)[1..] == rest;
  }

  lemma TouchingCons<S(!new)>(s: (S, S), rest: seq<(S, S)>, seed: (S, S))
    ensures Touching([s] + rest, seed) == (if Touches(seed, s) then [s] else []) + Touching(rest, seed)
  {
    assert ([s] + rest)[1..] == rest;
  }

  /**
   * Grouping as the table algorithm intends: each seed pair gathers the states of the
   * later pairs touching it, less the states an earlier group already took; a seed
   * adding nothing new is skipped.
   */
  function Classes<S(==,!new)>(pairs: seq<(S, S)>, grouped: set<S>): seq<set<S>>
  {
    if pairs == [] then []
    else
      var seed := pairs[0];
      var g := ({seed.0, seed.1} + StatesOf(Touching(pairs[1..], seed))) - grouped;
      if g == {} then Classes(pairs[1..], grouped) else [g] + Classes(pairs[1..], grouped + g)
  }

  /** The intended groups are non-empty and hold no state grouped before ... */
  lemma {:induction false} ClassesFresh<S(!new)>(pairs: seq<(S, S)>, grouped: set<S>)
    ensures forall g :: g in Classes(pairs, grouped) ==> g != {} && g !! grouped
  {
    if pairs != [] {
      var seed := pairs[0];
      var g := ({seed.0, seed.1} + StatesOf(Touching(pairs[1..], seed))) - grouped;
      if g == {} {
        ClassesFresh(pairs[1..], grouped);
      } else {
        ClassesFresh(pairs[1..], grouped + g);
      }
    }
  }

  /** ... and are pairwise disjoint ... */
  lemma {:induction false} ClassesDisjoint<S(!new)>(pairs: seq<(S, S)>, grouped: set<S>)
    ensures forall i, j :: 0 <= i < j < |Classes(pairs, grouped)| ==> Classes(pairs, grouped)[i] !! Classes(pairs, grouped)[j]
  {
    if pairs != [] {
      var seed := pairs[0];
      var g := ({seed.0, seed.1} + StatesOf(Touching(pairs[1..], seed))) - grouped;
      if g == {} {
        ClassesDisjoint(pairs[1..], grouped);
      } else {
        var rest := Classes(pairs[1..], grouped + g);
        ClassesDisjoint(pairs[1..], grouped + g);
        ClassesFresh(pairs[1..], grouped + g);
        var all := [g] + rest;
        assert Classes(pairs, grouped) == all;
        forall i, j | 0 <= i < j < |all|
          ensures all[i] !! all[j]
        {
          assert all[j] == rest[j - 1] && rest[j - 1] in rest;
          if i > 0 {
            assert all[i] == rest[i - 1];
          }
        }
      }
    }
  }

  /** ... and together with the states grouped before they hold exactly the states of the pairs. */
  lemma {:induction false} ClassesCover<S(!new)>(pairs: seq<(S, S)>, grouped: set<S>)
    ensures StatesOf(pairs) <= grouped + Union(Classes(pairs, grouped))
    ensures Union(Classes(pairs, grouped)) <= StatesOf(pairs)
  {
    if pairs != [] {
      var seed := pairs[0];
      var g := ({seed.0, seed.1} + StatesOf(Touching(pairs[1..], seed))) - grouped;
      assert pairs == [seed] + pairs[1..];
      StatesOfCons(seed, pairs[1..]);
      TouchingWithin(pairs[1..], seed);
      if g == {} {
        ClassesCover(pairs[1..], grouped);
      } else {
        var rest := Classes(pairs[1..], grouped + g);
        ClassesCover(pairs[1..], grouped + g);
        var all := [g] + rest;
        assert Classes(pairs, grouped) == all;
        forall x | x in Union(all)
          ensures x in StatesOf(pairs)
        {
          var i :| 0 <= i < |all| && x in all[i];
          if i > 0 {
            assert all[i] == rest[i - 1];
            UnionHas(rest, i - 1, x);
          }
        }
        forall x | x in StatesOf(pairs)
          ensures x in grouped + Union(all)
        {
          if x in g {
            UnionHas(all, 0, x);
          } else if x !in grouped && x !in {seed.0, seed.1} {
            assert x in StatesOf(pairs[1..]);
            UnionTail(g, rest, x);
          }
        }
      }
    }
  }

  lemma {:induction false} TouchingWithin<S(!new)>(pairs: seq<(S, S)>, seed: (S, S))
    ensures StatesOf(Touching(pairs, seed)) <= StatesOf(pairs)
  {
    StatesOfMembers(pairs);
    StatesOfMembers(Touching(pairs, seed));
    forall x | x in StatesOf(Touching(pairs, seed))
      ensures x in StatesOf(pairs)
    {
      var p :| p in Touching(pairs, seed) && (x == p.0 || x == p.1);
    }
  }

  /** `x` is a state of the seed, or of a pair of `pairs` that touches the seed. */
  ghost predicate Linked<S(!new)>(pairs: seq<(S, S)>, seed: (S, S), x: S)
  {
    x == seed.0 || x == seed.1 || exists p :: p in pairs && Touches(seed, p) && (x == p.0 || x == p.1)
  }

  /** Every intended group grows from one seed pair: its states are linked to that seed. */
  lemma {:induction false} ClassSeed<S(!new)>(pairs: seq<(S, S)>, grouped: set<S>, i: nat) returns (seed: (S, S))
    requires i < |Classes(pairs, grouped)|
    ensures seed in pairs && forall x :: x in Classes(pairs, grouped)[i] ==> Linked(pairs, seed, x)
    decreases |pairs|
  {
    var head := pairs[0];
    var g := ({head.0, head.1} + StatesOf(Touching(pairs[1..], head))) - grouped;
    var next := if g == {} then grouped else grouped + g;
    var rest := Classes(pairs[1..], next);
    if g != {} && i == 0 {
      seed := head;
      var touched := Touching(pairs[1..], head);
      StatesOfMembers(touched);
      forall x | x in g
        ensures Linked(pairs, seed, x)
      {
        if x != head.0 && x != head.1 {
          var p :| p in touched && (x == p.0 || x == p.1);
          assert p in pairs;
        }
      }
    } else {
      var j := if g == {} then i else i - 1;
      assert Classes(pairs, grouped)[i] == rest[j];
      seed := ClassSeed(pairs[1..], next, j);
      forall x | x in rest[j]
        ensures Linked(pairs, seed, x)
      {
        assert Linked(pairs[1..], seed, x);
        if x != seed.0 && x != seed.1 {
          var p :| p in pairs[1..] && Touches(seed, p) && (x == p.0 || x == p.1);
          assert p in pairs;
        }
      }
    }
  }

  /**
   * When states are related by having the same `key`, every listed pair is related,
   * and every two related states not yet grouped are listed as a pair, each intended
   * class holds every listed state related to one of its members: the classes are
   * the equivalence classes, with nothing left to merge between them.
   */
  lemma {:induction false} ClassesClosed<S(!new), K>(pairs: seq<(S, S)>, grouped: set<S>, key: S -> K)
    requires forall p :: p in pairs ==> key(p.0) == key(p.1)
    requires forall x, y :: x in StatesOf(pairs) && y in StatesOf(pairs) && x !in grouped && x != y && key(x) == key(y) ==>
               (x, y) in pairs || (y, x) in pairs
    requires forall x, y :: x in grouped && y in StatesOf(pairs) && key(x) == key(y) ==> y in grouped
    ensures forall i, x, y ::
              (0 <= i < |Classes(pairs, grouped)| && x in Classes(pairs, grouped)[i] && y in StatesOf(pairs) && key(x) == key(y))
              ==> y in Classes(pairs, grouped)[i]
    decreases |pairs|, 1
  {
    if pairs != [] {
      SeedFacts(pairs, key);
      if pairs[0].0 in grouped {
        ClassesSkip(pairs, grouped, key);
      } else {
        ClassesTake(pairs, grouped, key);
      }
    }
  }

  /** The states the seed pair touches share its key, and the pairs after the seed are the rest of the list. */
  lemma SeedFacts<S(!new), K>(pairs: seq<(S, S)>, key: S -> K)
    requires pairs != [] && forall p :: p in pairs ==> key(p.0) == key(p.1)
    ensures forall z :: z in StatesOf(Touching(pairs[1..], pairs[0])) ==> key(z) == key(pairs[0].0)
    ensures StatesOf(Touching(pairs[1..], pairs[0])) <= StatesOf(pairs[1..])
    ensures forall p :: p in pairs && p != pairs[0] ==> p in pairs[1..]
  {
    var seed, rest := pairs[0], pairs[1..];
    var touched := Touching(rest, seed);
    TouchingWithin(rest, seed);
    StatesOfMembers(touched);
    forall z | z in StatesOf(touched)
      ensures key(z) == key(seed.0)
    {
      var p :| p in touched && (z == p.0 || z == p.1);
    }
    forall p | p in pairs && p != seed
      ensures p in rest
    {
      var k :| 0 <= k < |pairs| && pairs[k] == p;
      assert rest[k - 1] == p;
    }
  }

  /** A state of a later class has a key no state of `next` with key `k` leaves out. */
  lemma ClassesAvoid<S(!new), K>(pairs: seq<(S, S)>, next: set<S>, key: S -> K, k: K)
    requires forall z :: z in StatesOf(pairs) && key(z) == k ==> z in next
    ensures forall i, x :: 0 <= i < |Classes(pairs, next)| && x in Classes(pairs, next)[i] ==> key(x) != k
  {
    var later := Classes(pairs, next);
    ClassesFresh(pairs, next);
    ClassesCover(pairs, next);
    forall i, x | 0 <= i < |later| && x in later[i]
      ensures key(x) != k
    {
      assert later[i] in later;
      UnionHas(later, i, x);
    }
  }

  /** `ClassesClosed` when the seed's states were grouped before: the seed adds no class. */
  lemma {:induction false} ClassesSkip<S(!new), K>(pairs: seq<(S, S)>, grouped: set<S>, key: S -> K)
    requires pairs != [] && pairs[0].0 in grouped
    requires forall p :: p in pairs ==> key(p.0) == key(p.1)
    requires forall x, y :: x in StatesOf(pairs) && y in StatesOf(pairs) && x !in grouped && x != y && key(x) == key(y) ==>
               (x, y) in pairs || (y, x) in pairs
    requires forall x, y :: x in grouped && y in StatesOf(pairs) && key(x) == key(y) ==> y in grouped
    requires forall z :: z in StatesOf(Touching(pairs[1..], pairs[0])) ==> key(z) == key(pairs[0].0)
    requires StatesOf(Touching(pairs[1..], pairs[0])) <= StatesOf(pairs[1..])
    requires forall p :: p in pairs && p != pairs[0] ==> p in pairs[1..]
    ensures forall i, x, y ::
              (0 <= i < |Classes(pairs, grouped)| && x in Classes(pairs, grouped)[i] && y in StatesOf(pairs) && key(x) == key(y))
              ==> y in Classes(pairs, grouped)[i]
    decreases |pairs|, 0
  {
    var seed, rest := pairs[0], pairs[1..];
    var a, b := seed.0, seed.1;
    assert b in grouped;
    assert ({a, b} + StatesOf(Touching(rest, seed))) - grouped == {};
    ClassesClosed(rest, grouped, key);
    ClassesAvoid(rest, grouped, key, key(a));
    var later := Classes(rest, grouped);
    forall i, x, y | 0 <= i < |later| && x in later[i] && y in StatesOf(pairs) && key(x) == key(y)
      ensures y in later[i]
    {
      assert y in StatesOf(rest);
    }
  }

  /** When the seed's states are new, its class holds every listed state with the seed's key. */
  lemma SeedGathers<S(!new), K>(pairs: seq<(S, S)>, grouped: set<S>, key: S -> K)
    requires pairs != [] && pairs[0].0 !in grouped
    requires forall x, y :: x in StatesOf(pairs) && y in StatesOf(pairs) && x !in grouped && x != y && key(x) == key(y) ==>
               (x, y) in pairs || (y, x) in pairs
    requires forall x, y :: x in grouped && y in StatesOf(pairs) && key(x) == key(y) ==> y in grouped
    requires forall p :: p in pairs && p != pairs[0] ==> p in pairs[1..]
    ensures forall z :: z in StatesOf(pairs) && key(z) == key(pairs[0].0) ==>
              z in ({pairs[0].0, pairs[0].1} + StatesOf(Touching(pairs[1..], pairs[0]))) - grouped
  {
    var seed, rest := pairs[0], pairs[1..];
    var a, b := seed.0, seed.1;
    var touched := Touching(rest, seed);
    assert a in StatesOf(pairs);
    forall z | z in StatesOf(pairs) && key(z) == key(a)
      ensures z in ({a, b} + StatesOf(touched)) - grouped
    {
      if z != a && z != b {
        var p := if (a, z) in pairs then (a, z) else (z, a);
        assert p in rest && p in touched;
        StatesOfMembers(touched);
      }
    }
  }

  /** `ClassesClosed` when the seed's states are new: the seed's class is the whole class of its key. */
  lemma {:induction false} ClassesTake<S(!new), K>(pairs: seq<(S, S)>, grouped: set<S>, key: S -> K)
    requires pairs != [] && pairs[0].0 !in grouped
    requires forall p :: p in pairs ==> key(p.0) == key(p.1)
    requires forall x, y :: x in StatesOf(pairs) && y in StatesOf(pairs) && x !in grouped && x != y && key(x) == key(y) ==>
               (x, y) in pairs || (y, x) in pairs
    requires forall x, y :: x in grouped && y in StatesOf(pairs) && key(x) == key(y) ==> y in grouped
    requires forall z :: z in StatesOf(Touching(pairs[1..], pairs[0])) ==> key(z) == key(pairs[0].0)
    requires StatesOf(Touching(pairs[1..], pairs[0])) <= StatesOf(pairs[1..])
    requires forall p :: p in pairs && p != pairs[0] ==> p in pairs[1..]
    ensures forall i, x, y ::
              (0 <= i < |Classes(pairs, grouped)| && x in Classes(pairs, grouped)[i] && y in StatesOf(pairs) && key(x) == key(y))
              ==> y in Classes(pairs, grouped)[i]
    decreases |pairs|, 0
  {
    var seed, rest := pairs[0], pairs[1..];
    var a, b := seed.0, seed.1;
    var touched := Touching(rest, seed);
    var g := ({a, b} + StatesOf(touched)) - grouped;
    var next := grouped + g;
    assert a in g && b in g;
    SeedGathers(pairs, grouped, key);
    ClassesClosed(rest, next, key);
    ClassesAvoid(rest, next, key, key(a));
    var later := Classes(rest, next);
    assert Classes(pairs, grouped) == [g] + later;
    assert key(b) == key(a) by { assert seed in pairs; }
    ConsClosed(g, later, StatesOf(pairs), StatesOf(rest), key, key(a));
  }

  /** A class holding exactly the states of key `k`, put before classes closed over the other states, keeps them closed. */
  lemma ConsClosed<S, K>(g: set<S>, later: seq<set<S>>, all: set<S>, others: set<S>, key: S -> K, k: K)
    requires forall x :: x in g ==> key(x) == k
    requires forall z :: z in all && key(z) == k ==> z in g
    requires forall z :: z in all && key(z) != k ==> z in others
    requires forall i, x :: 0 <= i < |later| && x in later[i] ==> key(x) != k
    requires forall i, x, y :: (0 <= i < |later| && x in later[i] && y in others && key(x) == key(y)) ==> y in later[i]
    ensures forall i, x, y :: (0 <= i < |[g] + later| && x in ([g] + later)[i] && y in all && key(x) == key(y))
              ==> y in ([g] + later)[i]
  {
    forall i, x, y | 0 <= i < |[g] + later| && x in ([g] + later)[i] && y in all && key(x) == key(y)
      ensures y in ([g] + later)[i]
    {
      if i > 0 {
        assert x in later[i - 1];
      }
    }
  }

  /** The group a seed starts in the intended grouping, before states grouped earlier are taken out. */
  method TouchedStates<S(==,!new)>(seed: (S, S), rest: seq<(S, S)>) returns (g: set<S>)
    ensures g == {seed.0, seed.1} + StatesOf(Touching(rest, seed))
  {
    g := {seed.0, seed.1};
    for k := 0 to |rest|
      invariant g + StatesOf(Touching(rest[k..], seed)) == {seed.0, seed.1} + StatesOf(Touching(rest, seed))
    {
      assert rest[k..] == [rest[k]] + rest[k + 1..];
      TouchingCons(rest[k], rest[k + 1..], seed);
      if Touches(seed, rest[k]) {
        StatesOfCons(rest[k], Touching(rest[k + 1..], seed));
        g := g + {rest[k].0, rest[k].1};
      } else {
        assert Touching(rest[k..], seed) == Touching(rest[k + 1..], seed);
      }
    }
    assert rest[|rest|..] == [];
  }

  // ---------------------------------------------------------------------------
  // The table object

  /**
   * `_fill_out_table` on an empty table: `combinations(states, 2)` taken in some
   * iteration order of `states`, each pair stored as `(earlier, later)` with `False`.
   */
  method FillOutTable<S(==,!new)>(states: set<S>) returns (t: map<(S, S), bool>)
    ensures Oriented(t) && Covers(t, states)
    ensures forall p :: p in t ==> !t[p]
  {
    t := map[];
    var rest, seen := states, {};
    while rest != {}
      invariant rest + seen == states && rest !! seen
      invariant Oriented(t) && Covers(t, seen)
      invariant forall p :: p in t ==> !t[p]
      decreases rest
    {
      var s :| s in rest;
      t := t + map x | x in seen :: (x, s) := false;
      seen, rest := seen + {s}, rest - {s};
    }
  }

  class Table<S(==,!new)> {
    var table: map<(S, S), bool>
    var states: set<S>
    var backMap: map<(S, S), bool>

    /** `MinimizationTable(states)`: one `False` entry per unordered pair of distinct states. */
    constructor (states: set<S>)
      ensures this.states == states && backMap == map[]
      ensures Oriented(table) && Covers(table, states)
      ensures forall p :: p in table ==> !table[p]
    {
      var t := FillOutTable(states);
      this.states := states;
      table := t;
      backMap := map[];
    }

    /** `MinimizationTable(states, create_from_table=True, table_data=data)`. */
    constructor FromTable(states: set<S>, data: map<(S, S), bool>)
      ensures this.states == states && table == data && backMap == map[]
    {
      this.states := states;
      table := data;
      backMap := map[];
    }

    /** `save_current_table_into_back_map`: the back map becomes a copy of the table. */
    method SaveCurrentTableIntoBackMap()
      modifies this
      ensures backMap == table && table == old(table) && states == old(states)
    {
      backMap := table;
    }

    /** `update_table`: set the entry of `pair`, in whichever order it is stored. */
    method UpdateTable(pair: (S, S), value: bool) returns (r: Outcome)
      modifies this
      ensures r.Pass? <==> Updated(old(table), pair, value).Ok?
      ensures r.Pass? ==> table == Updated(old(table), pair, value).value
      ensures r.Fail? ==> r.error == ElementNotInTable && table == old(table)
      ensures states == old(states) && backMap == old(backMap)
    {
      if pair in table {
        table := table[pair := value];
        r := Pass;
      } else if (pair.1, pair.0) in table {
        table := table[(pair.1, pair.0) := value];
        r := Pass;
      } else {
        r := Fail(ElementNotInTable);
      }
    }

    /** `pop`: remove the entry of `pair`, in whichever order it is stored. */
    method Pop(pair: (S, S)) returns (r: Outcome)
      modifies this
      ensures r.Pass? <==> Popped(old(table), pair).Ok?
      ensures r.Pass? ==> table == Popped(old(table), pair).value
      ensures r.Fail? ==> r.error == ElementNotInTable && table == old(table)
      ensures states == old(states) && backMap == old(backMap)
    {
      if pair in table {
        table := table - {pair};
        r := Pass;
      } else if (pair.1, pair.0) in table {
        table := table - {(pair.1, pair.0)};
        r := Pass;
      } else {
        r := Fail(ElementNotInTable);
      }
    }

    /** `remove_item_by_value`: pop every entry holding `value`; the others stay as they were. */
    method RemoveItemByValue(value: bool)
      modifies this
      ensures forall p :: p in table <==> p in old(table) && old(table)[p] != value
      ensures forall p :: p in table ==> table[p] == old(table)[p]
      ensures states == old(states) && backMap == old(backMap)
    {
      var filtered := WithValue(table, value).Keys;
      ghost var original := table;
      while filtered != {}
        invariant filtered <= table.Keys
        invariant forall p :: p in table <==> p in original && (original[p] != value || p in filtered)
        invariant forall p :: p in table ==> table[p] == original[p]
        invariant states == old(states) && backMap == old(backMap)
        decreases filtered
      {
        var pair :| pair in filtered;
        var popped := Pop(pair);
        filtered := filtered - {pair};
      }
    }

    /** `filter_item_by_value`: the entries holding `value`; they replace the table when asked to. */
    method FilterItemByValue(value: bool, update: bool) returns (filtered: map<(S, S), bool>)
      modifies this
      ensures filtered == WithValue(old(table), value)
      ensures update ==> table == filtered
      ensures !update ==> table == old(table)
      ensures states == old(states) && backMap == old(backMap)
    {
      filtered := map[];
      var rest := table.Keys;
      while rest != {}
        invariant rest <= table.Keys && table == old(table)
        invariant filtered == WithValue(map p | p in table && p !in rest :: table[p], value)
        decreases rest
      {
        var pair :| pair in rest;
        if table[pair] == value {
          filtered := filtered[pair := value];
        }
        rest := rest - {pair};
      }
      assert (map p | p in table && p !in rest :: table[p]) == table;
      if update {
        table := filtered;
      }
    }

    /** `is_column_available`: does some entry mention `state`? */
    method IsColumnAvailable(state: S) returns (available: bool)
      ensures available <==> exists p :: p in table && (p.0 == state || p.1 == state)
    {
      var rest := table.Keys;
      while rest != {}
        invariant rest <= table.Keys
        invariant forall p :: p in table && p !in rest ==> p.0 != state && p.1 != state
        decreases rest
      {
        var pair :| pair in rest;
        if pair.0 == state || pair.1 == state {
          return true;
        }
        rest := rest - {pair};
      }
      return false;
    }

    /** `convert_table_into_set_objects`: the entry sets `{a, b, value}`, one per entry. */
    method ConvertTableIntoSetObjects() returns (l: seq<set<Cell<S>>>)
      ensures (set x | x in l) == Cells(table)
      ensures Oriented(table) ==> Distinct(l)
    {
      l := [];
      ghost var keys: seq<(S, S)> := [];
      var rest := table.Keys;
      while rest != {}
        invariant rest <= table.Keys && |keys| == |l|
        invariant forall i :: 0 <= i < |l| ==> keys[i] in table && keys[i] !in rest && l[i] == EntryCells(keys[i], table[keys[i]])
        invariant forall k :: k in table && k !in rest ==> k in keys
        invariant Oriented(table) ==> Distinct(keys) && Distinct(l)
        decreases rest
      {
        var pair :| pair in rest;
        if Oriented(table) {
          forall i | 0 <= i < |l|
            ensures l[i] != EntryCells(pair, table[pair])
          {
            EntryCellsEqual(keys[i], table[keys[i]], pair, table[pair]);
          }
          DistinctSnoc(l, EntryCells(pair, table[pair]));
          DistinctSnoc(keys, pair);
        }
        l := l + [EntryCells(pair, table[pair])];
        keys := keys + [pair];
        rest := rest - {pair};
      }
      forall x | x in Cells(table)
        ensures x in l
      {
        var k :| k in table && x == EntryCells(k, table[k]);
        var i :| 0 <= i < |keys| && keys[i] == k;
      }
    }

    /** `__eq__`: the two tables' entry sets match one for one; on oriented tables, the same unordered entries. */
    method Equals(other: Table<S>) returns (eq: bool)
      ensures Oriented(table) && Oriented(other.table) ==> (eq <==> SameEntries(table, other.table))
    {
      var mine := ConvertTableIntoSetObjects();
      var theirs := other.ConvertTableIntoSetObjects();
      eq := CompareListOfSets(mine, theirs);
      if Oriented(table) && Oriented(other.table) {
        CellsAgree(table, other.table);
      }
    }

    /** `is_checked`: the entry of `pair`, in either order, compared with `value`. */
    method IsChecked(pair: (S, S), value: bool) returns (r: Result<bool>)
      ensures r == Checked(table, pair, value)
    {
      if pair in table {
        r := Ok(table[pair] == value);
      } else if (pair.1, pair.0) in table {
        r := Ok(table[(pair.1, pair.0)] == value);
      } else {
        r := Err(ElementNotInTable);
      }
    }

    /** `keys`: the stored pairs, each once, in some order. */
    method Keys() returns (l: seq<(S, S)>)
      ensures Distinct(l) && forall p :: p in l <==> p in table
    {
      l := KeyList(table);
    }

    /**
     * The intended `bind_minimized_states`: a seed's group leaves out the states
     * grouped before, and a seed adding nothing new starts no group.
     */
    method BindClasses(remained: seq<(S, S)>, includeOriginal: bool) returns (groups: seq<set<S>>)
      modifies this
      ensures |Classes(remained, {})| <= |groups| && groups[..|Classes(remained, {})|] == Classes(remained, {})
      ensures states == old(states) - Union(Classes(remained, {}))
      ensures !includeOriginal ==> groups == Classes(remained, {})
      ensures includeOriginal ==> Singletons(groups[|Classes(remained, {})|..], states)
      ensures table == old(table) && backMap == old(backMap)
    {
      groups := GroupPairs(remained);
      if includeOriginal {
        groups := AppendSingletons(groups, states);
      }
    }

    /** The loop of `bind_minimized_states` over the pairs, as intended: the classes, taken out of `states`. */
    method GroupPairs(remained: seq<(S, S)>) returns (groups: seq<set<S>>)
      modifies this
      ensures groups == Classes(remained, {})
      ensures states == old(states) - Union(groups)
      ensures table == old(table) && backMap == old(backMap)
    {
      var grouped: set<S> := {};
      groups := [];
      assert Union(groups) == {};
      for i := 0 to |remained|
        invariant groups + Classes(remained[i..], grouped) == Classes(remained, {})
        invariant grouped == Union(groups)
        invariant states == old(states) - grouped
        invariant table == old(table) && backMap == old(backMap)
      {
        var g := TouchedStates(remained[i], remained[i + 1..]);
        g := g - grouped;
        assert remained[i..][0] == remained[i] && remained[i..][1..] == remained[i + 1..];
        if g != {} {
          assert groups + Classes(remained[i..], grouped) == groups + [g] + Classes(remained[i + 1..], grouped + g);
          UnionSnoc(groups, g);
          groups := groups + [g];
          grouped := grouped + g;
          states := states - g;
        }
      }
      assert remained[|remained|..] == [];
    }

    /**
     * `bind_minimized_states`: one group per pair still in the live list, grown by the
     * later pairs touching it (which leave the list); grouped states leave `states`;
     * with `include_original`, a singleton group for every state left.
     */
    method BindMinimizedStates(remained: seq<(S, S)>, includeOriginal: bool) returns (groups: seq<set<S>>)
      modifies this
      ensures |GroupsFrom(remained, 0)| <= |groups| && groups[..|GroupsFrom(remained, 0)|] == GroupsFrom(remained, 0)
      ensures states == old(states) - Union(GroupsFrom(remained, 0))
      ensures !includeOriginal ==> groups == GroupsFrom(remained, 0)
      ensures includeOriginal ==> Singletons(groups[|GroupsFrom(remained, 0)|..], states)
      ensures table == old(table) && backMap == old(backMap)
    {
      var live := remained;
      groups := [];
      var i := 0;
      while i < |live|
        invariant groups + GroupsFrom(live, i) == GroupsFrom(remained, 0)
        invariant states == old(states) - Union(groups)
        invariant table == old(table) && backMap == old(backMap)
        decreases |live| - i
      {
        ghost var rest := GroupsFrom(live, i);
        var group;
        live, group := AbsorbSeed(live, i);
        assert rest == [group] + GroupsFrom(live, i + 1);
        assert groups + rest == (groups + [group]) + GroupsFrom(live, i + 1);
        states := states - group;
        UnionSnoc(groups, group);
        groups := groups + [group];
        i := i + 1;
      }
      if includeOriginal {
        groups := AppendSingletons(groups, states);
      }
    }
  }

  /** The keys of a table, each once, in some order (`list(table.keys())`). */
  method KeyList<S(==,!new)>(m: map<(S, S), bool>) returns (l: seq<(S, S)>)
    ensures Distinct(l) && forall p :: p in l <==> p in m
  {
    l := [];
    var rest := m.Keys;
    while rest != {}
      invariant rest <= m.Keys && Distinct(l)
      invariant forall p :: p in l <==> p in m && p !in rest
      decreases rest
    {
      var p :| p in rest;
      l := l + [p];
      rest := rest - {p};
    }
  }

  /** The inner loop of `bind_minimized_states` for the seed at position `i` of the live list. */
  method AbsorbSeed<S(==,!new)>(live: seq<(S, S)>, i: nat) returns (live': seq<(S, S)>, group: set<S>)
    requires i < |live|
    ensures (live', group) == Absorb(live, live[i], live[i + 1..], {live[i].0, live[i].1})
  {
    var seed := live[i];
    var snapshot := live[i + 1..];
    live', group := live, {seed.0, seed.1};
    for k := 0 to |snapshot|
      invariant Absorb(live', seed, snapshot[k..], group) == Absorb(live, seed, snapshot, {seed.0, seed.1})
    {
      assert snapshot[k..][1..] == snapshot[k + 1..];
      if Touches(seed, snapshot[k]) {
        group := group + {snapshot[k].0, snapshot[k].1};
        live' := RemoveFirst(live', snapshot[k]);
      }
    }
    assert snapshot[|snapshot|..] == [];
  }

  /** The `include_original` loop: a singleton group for each state, after the given groups. */
  method AppendSingletons<S(==,!new)>(groups: seq<set<S>>, states: set<S>) returns (all: seq<set<S>>)
    ensures |groups| <= |all| && all[..|groups|] == groups
    ensures Singletons(all[|groups|..], states)
  {
    all := groups;
    var rest := states;
    while rest != {}
      invariant rest <= states && |groups| <= |all| && all[..|groups|] == groups
      invariant Singletons(all[|groups|..], states - rest)
      decreases rest
    {
      var x :| x in rest;
      assert all[|groups|..] + [{x}] == (all + [{x}])[|groups|..];
      forall i | |groups| <= i < |all|
        ensures all[i] != {x}
      {
        var y :| y in states - rest && all[|groups|..][i - |groups|] == {y};
        assert x !in all[i];
      }
      all := all + [{x}];
      rest := rest - {x};
    }
  }
}
