# Computation: a verified model of the automata toolkit

The repository is a small automata-theory toolkit. It covers:

- deterministic automata (`DFA`);
- nondeterministic automata with lambda moves (`NFA`);
- the table-filling minimization table (`MinimizationTable`);
- a shift/reduce parser for regular expressions (`Regex`);
- the string algebra used to turn a DFA back into a regular expression.

This project models that core in Dafny and proves what each operation promises.

Modules:

| module | file | models |
|---|---|---|
| `Wrappers` | wrappers.dfy | `Option`, `Result`, `Outcome`, and the exception classes as an `Error` datatype |
| `Dfa` | dfa.dfy | running a word, reachability, emptiness, complement, the on-demand product and the operations built on it (dfa.py, and its copy phase2.py) |
| `MinTable` | mintable.dfy | the `MinimizationTable` class: a dictionary of unordered state pairs to booleans, held in a Dafny `class` whose methods update it in place |
| `Minimize` | minimize.dfy | `DFA.minify` and `_search_in_list_of_sets`, proved to keep the language and to merge exactly the equivalent states |
| `Nfa` | nfa.dfy | the `NFA` class: the move step, the lambda closure (as written and as intended), lambda elimination |
| `Subset` | subset.dfy | `DFA.from_nfa`, the subset construction worklist |
| `RegexParse` | regex_parse.dfy | the `Regex` class's parser, with fragment automata kept abstract, and `reverse_transition` |
| `RegexText` | regex_text.dfy | `bracket`, `kleene_star_regex`, `concat_regex`, `split_into_unique`, `union_regex`, `is_final` |

Conventions:

- A DFA is the value `Dfa(states, inputs, transitions, finals, initial)`. Nothing forces `states` to match the keys of `transitions`, which mirrors the Python object.
- `WellFormed`, `Complete` and `Total` name the assumptions the Python code makes without checking them. Where those assumptions fail, the Python code crashes on `None.get(...)`.
- Two notions of running a word are kept apart:
  - `Run` is what `accept_input` computes. It checks membership in `states` at each step.
  - `Walk` follows only the `transitions` map. The product construction and reachability use it.
  - `Dfa.RunIsWalk` proves the two agree when `states` is the key set of `transitions`.
- Exceptions become results. An operation that raises returns `Err(e)` or `Fail(e)`, with `e` naming the exception (`SymbolMisMatch`, `ElementNotInTable`, `EmptyPick`, or a `ParseError` with its raise site).

## Model

| member | source | states |
|---|---|---|
| Dfa.RunFromNone | dfa.py:37-41 | once `_get_next_state` has returned `None`, every further symbol keeps it `None` |
| Dfa.RejectAfterFallingOff | dfa.py:55-60 | a word with a prefix that runs off the automaton is rejected, whatever follows |
| Dfa.RunAppend | dfa.py:55-60 | running `u + v` is running `v` from where `u` ends |
| Dfa.AcceptInput | dfa.py:55-60 | the loop accepts exactly the words whose run ends in a final state; the empty word is accepted iff the initial state is final |
| Dfa.RunIsWalk | dfa.py:37-41 | when the listed states are the states with an entry, the checked run equals the walk over `transitions` |
| Dfa.ExampleAcceptsBB | test.py:26-43 | the ten-state test automaton accepts "bb" |
| Dfa.ExampleAcceptsABAAA | test.py:26-43 | the test automaton accepts "abaaa" |
| Dfa.ExampleAcceptsAABABAB | test.py:26-43 | the test automaton accepts "aababab" |
| Dfa.ExampleNotEmpty | test.py:45-46 | the test automaton reaches the final state q9, so it is not empty |
| Dfa.VisitTargets | dfa.py:73-76 | one BFS step: every target of the state ends up visited; new states are both visited and queued; all of them are reachable |
| Dfa.ComputeReachable | dfa.py:62-78 | the returned set is exactly the set of states reachable from the initial state |
| Dfa.IsEmpty | dfa.py:80-81 | true iff no reachable state is final |
| Dfa.EmptinessIsNoAcceptedWord | dfa.py:80-81 | no final state reachable implies no accepted word; for a DFA whose states are its entries, the converse also holds |
| Dfa.ComplementTwice | dfa.py:155-163 | complementing twice gives back the DFA when the finals are among the states, and the complement's finals are disjoint from the original finals |
| Dfa.ComplementAccepts | dfa.py:155-163 | on a total DFA, the complement accepts exactly the words over the alphabet that the DFA rejects; phase2.py:14-22 is a copy with the same body |
| Dfa.ExpandPair | dfa.py:186-197 | the row of a dequeued pair maps every symbol to the component-wise successor pair, which is then recorded; new pairs are queued |
| Dfa.ExploreNext | dfa.py:182-197 | one iteration of the BFS keeps the exploration invariant, and the unexplored pairs or the queue shrink |
| Dfa.ExploredIsProduct | dfa.py:182-199 | when the queue is empty, the recorded pairs and rows form the product reachable from the pair of initial states |
| Dfa.ConstructProduct | dfa.py:165-199 | `SymbolMisMatch` iff the alphabets differ; otherwise the initial pair is present, every pair has a row to its successor pairs, and only reachable pairs occur; phase2.py:24-58 is a copy with the same body |
| Dfa.SelectFinals | dfa.py:232-235 | a pair is selected iff it is a product state and its components' finality satisfies the operation's test (or, and, and-not) |
| Dfa.ProductAccepts | dfa.py:165-199 | on total DFAs, the product accepts a word iff the operation's test holds for the two components' acceptance |
| Dfa.ProductFinalsEmpty | dfa.py:344-357 | the product has no final pair iff no word over the alphabet passes the operation's test |
| Dfa.Combined | dfa.py:227-243 | any of the three products: the error case, the product shape, and the language it accepts |
| Dfa.Union | dfa.py:227-243 | `SymbolMisMatch` iff the alphabets differ; a pair is final iff either component is; accepts L1 ∪ L2; phase2.py:86-102 is a copy with the same body |
| Dfa.Intersection | dfa.py:262-282 | a pair is final iff both components are; accepts L1 ∩ L2; phase2.py:121-141 is a copy with the same body |
| Dfa.Difference | dfa.py:305-328 | a pair is final iff the first component is final and the second is not; accepts L1 \ L2; phase2.py:164-187 is a copy with the same body |
| Dfa.IsSubset | dfa.py:344-357 | true iff no reachable pair is final in the first DFA and not in the second; on total DFAs, iff L1 ⊆ L2; phase2.py:203-216 is a copy with the same body |
| Dfa.IsDisjoint | dfa.py:365-367 | true iff the intersection has no final pair; on total DFAs, iff no word is in both languages; phase2.py:224-226 is a copy with the same body |
| MinTable.Entry | MinimizationTable.py:106-111 | the key a pair is stored under: the pair itself, else its reverse, else none |
| MinTable.Checked | MinimizationTable.py:105-114 | `ElementNotInTable` iff neither ordering is a key |
| MinTable.CheckedSymmetric | MinimizationTable.py:105-114 | `is_checked` gives the same answer for `(a, b)` and `(b, a)` |
| MinTable.Updated | MinimizationTable.py:76-94 | `ElementNotInTable` iff neither ordering is a key |
| MinTable.UpdatedReadsBack | MinimizationTable.py:76-94 | after an update, the pair reads back the new value in both orders, the keys are unchanged, and every other pair reads as before |
| MinTable.Popped | MinimizationTable.py:126-134 | `ElementNotInTable` iff neither ordering is a key |
| MinTable.PoppedRemovesPair | MinimizationTable.py:126-134 | `pop` removes the pair in both orders and keeps every other entry with its value |
| MinTable.WithValue | MinimizationTable.py:142-152 | exactly the entries whose value is `value` |
| MinTable.EntryCells | MinimizationTable.py:116-124 | the set `{a, b, value}` built for one entry contains both states and the value |
| MinTable.EntryCellsEqual | MinimizationTable.py:116-124 | two entries of distinct states give equal sets iff they are one unordered pair with one value |
| MinTable.CellsAgree | MinimizationTable.py:154-157 | on tables storing each pair once, equal entry-set collections means agreement on every unordered pair |
| MinTable.IntEntrySet | MinimizationTable.py:116-124 | with integer states, the entry set of states 0 and 1 is `{0, 1}` whatever the value, because Python's `True` and `False` are 1 and 0 |
| MinTable.IntEqualsMissesMark | MinimizationTable.py:154-157 | with integer states, marking the entry of 0 and 1 leaves the entry-set collection unchanged, though the tables differ |
| MinTable.CompareListOfSets | MinimizationTable.py:55-67 | true iff the lengths are equal and the match counter reaches the length; on lists without repeats, iff the lists hold the same sets |
| MinTable.CountEqualDistinct | MinimizationTable.py:62-67 | against a list without repeats, the counter reaches the first list's length iff every element occurs in the second |
| MinTable.CompareDistinct | MinimizationTable.py:55-67 | for lists of equal length without repeats, a full count means equal element sets |
| MinTable.PairsCount | MinimizationTable.py:43 | the comprehension yields n(n-1)/2 pairs |
| MinTable.PairsMembers | MinimizationTable.py:43 | a pair is produced iff it is `[data[i], data[j]]` with `i < j` |
| MinTable.ExtendedCount | MinimizationTable.py:45-51 | each pair is extended once per extra item |
| MinTable.ExtendedMembers | MinimizationTable.py:45-51 | the extended lists are exactly a pair followed by an extra item |
| MinTable.ExtendAll | MinimizationTable.py:45-51 | the loop builds exactly those extended lists |
| MinTable.MakeAllPossiblePairs | MinimizationTable.py:41-53 | without extra data: the n(n-1)/2 ordered-by-position pairs; with extra data: each pair extended by each item |
| MinTable.FillOutTable | MinimizationTable.py:69-74 | one key per 2-combination of the states, stored under one ordering, all `False` |
| MinTable.Table.constructor | MinimizationTable.py:29-36 | a fresh table covers every pair of distinct states once, all unmarked, with an empty back map |
| MinTable.Table.FromTable | MinimizationTable.py:33-34 | `create_from_table` adopts the given dictionary as is |
| MinTable.Table.SaveCurrentTableIntoBackMap | MinimizationTable.py:38-39 | the back map becomes a copy of the table; nothing else changes |
| MinTable.Table.UpdateTable | MinimizationTable.py:76-94 | passes iff the pair is a key in some order, and the table becomes `Updated`; otherwise `ElementNotInTable` and the table is unchanged |
| MinTable.Table.Keys | MinimizationTable.py:96-97 | the list holds every key once |
| MinTable.Table.IsColumnAvailable | MinimizationTable.py:99-103 | true iff some key mentions the state |
| MinTable.Table.IsChecked | MinimizationTable.py:105-114 | the result is `Checked` of the current table |
| MinTable.Table.ConvertTableIntoSetObjects | MinimizationTable.py:116-124 | the list's elements are exactly the entry sets; without repeats when each pair is stored once |
| MinTable.Table.Pop | MinimizationTable.py:126-134 | passes iff the pair is a key in some order, and the table becomes `Popped`; otherwise `ElementNotInTable` and the table is unchanged |
| MinTable.Table.RemoveItemByValue | MinimizationTable.py:136-140 | exactly the entries with the value are removed; the others keep their values |
| MinTable.Table.FilterItemByValue | MinimizationTable.py:142-152 | returns the entries with the value; the table is replaced only when `update` is set |
| MinTable.Table.Equals | MinimizationTable.py:154-157 | on tables storing each pair once, true iff they agree on every unordered pair |
| MinTable.AbsorbSeed | MinimizationTable.py:163-169 | the loop computes `Absorb` for the seed at position `i` |
| MinTable.AbsorbGroup | MinimizationTable.py:165-168 | on a list without repeats, the group is the seed plus the states of the later pairs touching it |
| MinTable.AbsorbDistinct | MinimizationTable.py:165-169 | on a list without repeats, the pairs touching the seed are removed and the others kept in order |
| MinTable.GroupsSeeded | MinimizationTable.py:159-174 | each group lies within the listed states and contains both states of a listed pair |
| MinTable.GroupsCover | MinimizationTable.py:159-174 | every state of every live pair lands in some group |
| MinTable.AppendSingletons | MinimizationTable.py:176-178 | with `include_original`, one singleton group is appended per remaining state |
| MinTable.Table.BindMinimizedStates | MinimizationTable.py:159-180 | the groups are the as-written groups, followed by singletons when asked; the grouped states are removed from `states` in place |
| MinTable.GroupsOverlap | MinimizationTable.py:165-169 | for one class of four states, the as-written loop yields two overlapping groups |
| MinTable.ClassesDisjoint | MinimizationTable.py:159-174 | the intended groups are pairwise disjoint |
| MinTable.ClassesClosed | MinimizationTable.py:159-174 | when the pairs list every two related states, each intended group holds every listed state related to one of its members |
| MinTable.ClassesCover | MinimizationTable.py:159-174 | every state of a pair is in an intended group or was grouped before, and groups hold only paired states |
| MinTable.Table.BindClasses | MinimizationTable.py:159-180 | the intended grouping, with the same in-place removal from `states` and the same singletons |
| Minimize.MarkedByFinality | dfa.py:377-382 | a pair with exactly one final state is distinguishable |
| Minimize.MarkedBySuccessor | dfa.py:384-390 | a pair whose successors on some symbol are distinguishable is distinguishable |
| Minimize.MarkOnSymbol | dfa.py:384-393 | checks one symbol; marks only distinguishable pairs and never unmarks; an unmarked pair's successors were unmarked or equal |
| Minimize.MarkPair | dfa.py:376-393 | one pair of the pass: finality first, then every symbol; only sound marks; unmarked means stable with respect to the back map |
| Minimize.MarkOnInputs | dfa.py:384-393 | the symbol loop for one pair keeps the table sound and growing |
| Minimize.MarkPass | dfa.py:374-393 | one pass over the keys: marks only distinguishable pairs, and every pair left unmarked is stable |
| Minimize.UnmarkedShrinks | dfa.py:373 | a pass that changes the table strictly shrinks the set of unmarked pairs, so the loop ends |
| Minimize.StableComplete | dfa.py:373-393 | when a pass changes nothing, a pair is marked iff its states are distinguishable |
| Minimize.MarkTable | dfa.py:371-393 | the marking loop ends with: marked iff not equivalent, for every pair of distinct states |
| Minimize.SearchInListOfSets | dfa.py:430-435 | the first set containing the element, or none (`False`) when no set does |
| Minimize.BuildRow | dfa.py:406-411 | each symbol maps to the group containing the representative's successor |
| Minimize.BuildQuotient | dfa.py:398-418 | the built automaton has one state per group, rows through the representatives, and the finals are the groups holding a final state |
| Minimize.QuotientAccepts | dfa.py:398-418 | from a group, the quotient accepts exactly what each member accepts |
| Minimize.GroupsPartition | dfa.py:395-396 | the groups of unmarked pairs plus singletons are non-empty, pairwise disjoint, cover the states and contain only equivalent states |
| Minimize.Minify | dfa.py:369-427 | the result is total over the same alphabet and accepts the same language; its states partition the DFA's states into equivalent states, and two equivalent states always share one group, so nothing is left to merge; the initial state lies in the new initial state; `left` is what remains of the shared `states` set |
| Minimize.GroupsMerge | dfa.py:394-396 | the groups bound from the unmarked pairs put any two equivalent states in one group |
| Minimize.EquivalentIffLang | dfa.py:371-393 | two states are equivalent exactly when they accept the same words over the alphabet |
| Minimize.MergedPaired | dfa.py:396 | the states grouped from unmarked pairs are exactly the states with an equivalent partner |
| Minimize.QuotientLanguage | dfa.py:398-427 | a quotient by groups of equivalent states accepts the same language |
| Minimize.FinalsAsWritten | dfa.py:413-416 | as written, only groups that are a transition target can become final |
| Minimize.FinalsAsWrittenLoseEmptyWord | dfa.py:413-416 | a DFA whose final initial state is no transition target loses the empty word |
| Nfa.NFA.constructor | nfa.py:2-7 | the fields hold the given values |
| Nfa.PostUnion | nfa.py:30-44 | the move step distributes over union; the empty set moves nowhere |
| Nfa.NFA.GetNextState | nfa.py:30-44 | the union of the target sets on the symbol over the given states |
| Nfa.NFA.ComputeLambdaClosure | nfa.py:46-60 | as written: the argument plus the lambda successor of each of its states (one pass) |
| Nfa.OnePassMissesChain | nfa.py:51-53 | with lambda moves 0→1→2, the one-pass result {0, 1} is not closed, although 2 is in the closure |
| Nfa.ClosureHolds | nfa.py:46-60 | the intended closure contains its argument and is closed under lambda moves |
| Nfa.ClosureLeast | nfa.py:46-60 | the intended closure is contained in every closed superset of the argument |
| Nfa.NFA.LambdaClosure | nfa.py:46-60 | the loop repeats passes until one adds nothing, and returns the closure |
| Nfa.NFA.SigmaStar | nfa.py:62-71 | `EmptyPick` iff no member of the closure has a target set on the symbol; otherwise returns one of those sets |
| Nfa.NFA.ChooseRow | nfa.py:83-89 | a row with one chosen target set per input symbol, or `EmptyPick` iff some symbol offers no choice |
| Nfa.LambdaFinalsKeep | nfa.py:79-81 | the new finals include every final state that is a listed state, and stay within the listed states |
| Nfa.NFA.EliminateLambdaClosures | nfa.py:73-95 | a row per state and a choice per symbol; finals are the states whose closure meets a final state; the fields are replaced only with `update_origin` |
| Nfa.LiftClosure | nfa.py:91-93 | after elimination there are no lambda moves, so every set is its own closure |
| Subset.SameSets | dfa.py:449 | the loop test `compare_list_of_sets` over the two sets' lists is set equality |
| Subset.StepRow | dfa.py:452-460 | the row of a subset maps each symbol to its move set, and every move set joins `q` |
| Subset.Explore | dfa.py:442-462 | the worklist ends with a row for every subset reachable from the singletons, each row the move sets |
| Subset.Ends | dfa.py:464-473 | finals are the subsets meeting the NFA's finals; the initial state, when found, is an explored subset meeting the NFA's initial states |
| Subset.WalkIsPostWord | dfa.py:442-462 | walking the subset table over a word gives the set of NFA states reached by that word |
| Subset.SubsetAccepts | dfa.py:464-470 | from an explored subset, the subset automaton accepts exactly the words the NFA accepts from that subset |
| Subset.FromNfa | dfa.py:437-490 | as written: lambda elimination updates the NFA, the table is the subset table of the singletons, and with `minify` the returned states lose every merged state |
| Subset.InitialPickAcceptsMore | dfa.py:472-473 | an explored subset such as {p, q} (states 0 and 1 in the lemma) can be picked as the initial state and accepts the empty word, which the NFA rejects from {0} |
| Subset.MinifyEmptiesStates | dfa.py:475-482 | on a two-state example, `minify` leaves the returned automaton without states |
| Subset.Determinize | dfa.py:437-490 | corrected: the initial subset is the NFA's initial states and is explored; the result is total and accepts exactly the language of the lambda-free NFA that elimination leaves |
| RegexParse.ProcessOp | Regex.py:154-173 | errors on an empty fragment stack, or on fewer than two fragments for `+`/`.`; a binary operator replaces two fragments with one, keeping the symbols in order |
| RegexParse.Regex.ProcessOperator | Regex.py:154-173 | the method's new fragment stack and outcome are those of `ProcessOp` |
| RegexParse.AddOp | Regex.py:136-152 | pops while the top is the operator or `.`, stops at `(`, then pushes the operator, which ends on top |
| RegexParse.Regex.AddOperatorToStack | Regex.py:136-152 | the method's stacks and outcome are those of `AddOp` |
| RegexParse.CloseBracket | Regex.py:101-108 | pops and applies operators down to the nearest `(`; fails when there is no `(` |
| RegexParse.Regex.PopToBracket | Regex.py:101-108 | the method's stacks and outcome are those of `CloseBracket` |
| RegexParse.Concatenating | Regex.py:88-89 | an implicit `.` is pushed after a symbol, `)` or `*`, and the symbols and open brackets are unchanged |
| RegexParse.Step | Regex.py:84-123 | one character: the symbols grow by the character when it is in the alphabet; the open-bracket count moves by the character's depth change; only a disallowed character raises "not allowed" |
| RegexParse.Regex.ReadChar | Regex.py:84-123 | the method's stacks and outcome are those of `Step` |
| RegexParse.Regex.ScanText | Regex.py:81-123 | the scan loop computes the run over the whole text and collects exactly the alphabet characters |
| RegexParse.Drain | Regex.py:125-127 | applying the remaining operators keeps the symbols in order |
| RegexParse.Regex.ApplyRemaining | Regex.py:125-127 | the method's outcome and fragments are those of `Drain` |
| RegexParse.Finish | Regex.py:125-134 | parsing ends with exactly one fragment, or fails |
| RegexParse.Regex.ConstructNfa | Regex.py:80-134 | passes iff the parse succeeds; the result is the one fragment left, and the NFA's inputs are exactly the alphabet characters of the text |
| RegexParse.RunFacts | Regex.py:84-123 | after any prefix, the fragment stack holds the prefix's symbols in order, and the open brackets match the prefix's depth |
| RegexParse.ParseKeepsSymbols | Regex.py:80-134 | a parsed expression has the text's symbols as leaves, in order |
| RegexParse.DisallowedCharacterFails | Regex.py:121-122 | any character outside letters, digits and `()+.*` makes the parse fail |
| RegexParse.DisallowedCharacterNamed | Regex.py:121-122 | a "not allowed" error names a disallowed character of the text |
| RegexParse.FailureSticks | Regex.py:84-123 | once a prefix fails, the whole text fails with the same error |
| RegexParse.ParsePrint | Regex.py:80-134 | printing a fragment fully bracketed and parsing it back gives the same fragment |
| RegexParse.UnclosedBracketAccepted | Regex.py:125-127 | as written, "(a" parses successfully (to the symbol a) although it is unbalanced |
| RegexParse.StrictParseBalanced | Regex.py:125-127 | corrected: a successful strict parse has balanced brackets, and "(a" is rejected |
| RegexParse.StrictAgreesWhenBalanced | Regex.py:125-134 | on balanced text the corrected parse equals the as-written parse |
| RegexParse.ReverseRow | Regex.py:205-207 | the reversed row maps each target back to a symbol leading to it |
| RegexParse.ReverseTransition | Regex.py:201-209 | the outer keys are kept and every row is reversed |
| RegexParse.ReverseTwice | Regex.py:201-209 | reversing an injective row is itself injective and reverses back |
| RegexText.Bracket | dfa_to_regex.py:67-72 | unchanged up to one character; otherwise wrapped in one pair of parentheses |
| RegexText.BracketIsOneAlternative | dfa_to_regex.py:67-72 | a bracketed, properly nested text is one alternative at depth 0 |
| RegexText.KleeneStar | dfa_to_regex.py:56-64 | `$` exactly for `""` and `$`; otherwise the bracketed text followed by `*` |
| RegexText.StarIsOneAlternative | dfa_to_regex.py:56-64 | the star of a properly nested text is one alternative, so a later split keeps it whole |
| RegexText.ConcatAsWritten | dfa_to_regex.py:42-53 | as written: empty iff an operand is empty |
| RegexText.ConcatAsWrittenDropsSymbol | dfa_to_regex.py:49-50 | "a" followed by "$b" gives "a", losing the symbol b |
| RegexText.Concat | dfa_to_regex.py:42-53 | corrected: empty iff an operand is empty; otherwise the symbols spelled out are those of the first operand, then the second |
| RegexText.PiecesJoin | dfa_to_regex.py:8-31 | joining the depth-0 pieces with `+` gives back the text |
| RegexText.PiecesShape | dfa_to_regex.py:8-31 | no piece has a `+` at depth 0, and on a text that closes what it opens, every piece does too |
| RegexText.PiecesOfJoin | dfa_to_regex.py:34-39 | splitting a `+`-join of single, nested alternatives gives them back |
| RegexText.SplitIntoUnique | dfa_to_regex.py:8-31 | the loop returns each non-empty depth-0 piece exactly once |
| RegexText.EmptyHasNoPieces | dfa_to_regex.py:28-29 | `""` has no pieces, so it is the identity of union |
| RegexText.UnionRegex | dfa_to_regex.py:34-39 | the result joins each piece of either operand once; for nested operands, its pieces are the union of both piece sets, so union is commutative and idempotent on piece sets |
| RegexText.IsFinal | dfa_to_regex.py:75-85 | needs rows only for the non-final states the search can enter; true only with a word leading to a final state; `visited` only grows; on false, every newly visited state is non-final with all successors visited |
| RegexText.CanReachFinal | dfa_to_regex.py:95 | `is_final(state, [], dfa)` is true iff a final state is reachable from the state, needing rows only for the non-final states the search can enter |

## Left out

- The networkx analysis is not part of this model (dfa.py:43-50, 83-153): `_construct_dfa_graph`, `is_finite`, `__len__`, `shortest_word_length` and `longest_word_length`. Their meaning is the behaviour of an external graph library. So are the test expectations that rely on them (test.py:48-69).
- `read_inputs` (an empty stub), the `__main__` demo blocks, the module-level sample NFA in nfa.py, and testing.py (it drives a third-party package).
- The instance-method versions of `union`, `intersection`, `difference`, `is_subset` and `is_disjoint` in dfa.py and phase2.py. Later `@classmethod` definitions of the same names replace them, so only the two-argument forms are modelled.
- `minify(retain_names=False)` is left out: it returns `None`, and its comment says it is still to be written. Only the default path is modelled.
- The fragment builders `base_struct`, `plus_struct`, `dot_struct` and `star_struct` (Regex.py:19-78) are not part of this model. They call NFA methods that nfa.py does not define. A fragment is the `Frag` value naming the builder and its operands.
- `Regex.get_nfa`, `Regex.__str__`, `convert_transitions_normal_form` and `convert_to_states_to_normal`. These are display and plumbing code. The last one takes `self` outside a class.
- `NFA._compute_initial_lambda_closures` (nfa.py:9-28) is never called.
- The `dfa_to_regex` elimination driver (dfa_to_regex.py:88-207) is not part of this model. It calls `DFA.add_transition`, which dfa.py does not define, and its output depends on set iteration order. Its helpers are modelled, including the `is_final(state, [], dfa)` call it makes.
- Ordering that follows Python set iteration or dict insertion order is left unconstrained. Each such choice is nondeterministic (`:|`), and the contract states only what holds for every choice. The cases are:
  - `split_into_unique`'s result order;
  - the order of `MinTable.Table.Keys` and of `MinTable.Table.ConvertTableIntoSetObjects`, which follow the table's dict order. They are modelled as sets;
  - which element `_compute_sigma_star` returns;
  - the state `from_nfa` picks as initial. The code takes the last key of `dfa_transitions`, in insertion order, that meets the initial states (dfa.py:468-473). The model allows any such key.
  - which symbol wins in `RegexParse.ReverseRow` and `RegexParse.ReverseTransition` when several symbols lead to one target. Python keeps the last one written, in the row's dict order (Regex.py:205-207). The model promises only some symbol leading there.
- exceptions.py is represented by the `Error` datatype. Messages and the class hierarchy are not modelled.
- `print` in `construct_nfa` before raising is not modelled.
- Dfa.AcceptInput requires `WellFormed`: every listed state must have a transitions entry, even a state the run never visits. `_get_next_state` (dfa.py:37-41) reads the entry only of the states the run visits, so a DFA with an unreachable listed state without an entry runs in Python but is outside the model. A visited state without an entry makes Python fail with `AttributeError` on `None`, and that crash is not modelled as an error result.
- Dfa.ComputeReachable requires an entry only for the reachable states, the states it looks up. Without one, the Python code fails with `AttributeError` on `None`, and that crash is not modelled as an error result.
- `Dfa.ConstructProduct`, `Dfa.Combined`, `Dfa.Union`, `Dfa.Intersection`, `Dfa.Difference`, `Dfa.IsSubset` and `Dfa.IsDisjoint` require `Complete` of both DFAs, even in the `SymbolMisMatch` case, which the code raises before any lookup (dfa.py:171-172). `Complete` demands more than the product reads. It asks for an entry for the initial state, and a full row for every entry, including entries of states the product never reaches. It also asks that every target of an entry has an entry of its own, even when no reachable pair leads there.
- Nfa.NFA.SigmaStar requires `Entries()`: an entry for every listed state and for every lambda successor of every key. `_compute_sigma_star(state, c)` (nfa.py:63-66) reads only the entries of the closure of `{state}`, so it also runs when some other listed state, or the lambda successor of an unvisited key, has no entry. The `AttributeError` on `None` raised at nfa.py:66 by a closure member without an entry is not modelled as an error result.
- Nfa.NFA.ChooseRow requires the same `Entries()`, though one row reads only the closure of one state. The same `AttributeError` is not modelled.
- Nfa.NFA.EliminateLambdaClosures requires the same `Entries()`. With `inputs` empty the code reads no entry at all (nfa.py:83), and a key outside `states` is never looked up, so such tables run in Python even when entries are missing. The `AttributeError` at nfa.py:66 is not modelled.
- Subset.Eliminate requires `Entries()` and `TargetsWithin`, the latter over every key and every symbol, so that the subset construction's lookups succeed. The `AttributeError` is not modelled.
- Subset.FromNfa requires `Entries()` and `TargetsWithin(transitions, states)`, the latter over every key and every symbol. The code reads only the rows of the states in the target sets the elimination picked (nfa.py:37-39, via dfa.py:452-460). A target outside `states` on a symbol outside `inputs`, or in a target set the single pick never chooses, is harmless in Python but excluded by the model. The `AttributeError` on `None` at nfa.py:39 for a picked target without an entry is not modelled as an error result.
- Subset.Determinize has the same `Entries()` and `TargetsWithin` requirements and the same unmodelled `AttributeError`.
- RegexText.IsFinal requires `SearchDefined`: a full row for every non-final state the search can enter. Without one, `is_final` raises `AttributeError` on `None` (dfa_to_regex.py:81), and that crash is not modelled as an error result.
- RegexText.CanReachFinal has the same `SearchDefined` requirement and the same unmodelled `AttributeError`.
- Subset.FromNfa with `minify` requires that some initial state is listed among the NFA's states. Otherwise no explored subset meets the initial states and `dfa_initial_state` stays `None`. Python then raises `TypeError` in `minify` at `frozenset(False)` (dfa.py:400). That crash is not modelled as an error result.
- `Minimize.Minify`, `Minimize.MarkTable` and `Subset.FromNfa` with `minify` require a `Total` DFA. In the marking loop, `except ElementNotInTable` (dfa.py:385-393) catches every successor pair that is not a key. That covers a pair of equal states, a symbol missing from a row (`.get(symbol)` gives `None`), and a target outside `states`. Only a state with no row at all raises `AttributeError` there. `Total` is demanded because of the quotient step. There `_search_in_list_of_sets` returns `False` for a target outside every group, and `frozenset(False)` raises.
- `Dfa.ComplementAccepts` and the language clauses of `Dfa.Union`, `Dfa.Intersection`, `Dfa.Difference`, `Dfa.IsSubset` and `Dfa.IsDisjoint` speak only of words over the alphabet, on total DFAs. For other words, the Python code either crashes or runs off the automaton.
- `Nfa.NFA.GetNextState` does not model the `type(state) != str` branch, which unpacks a tuple state. It requires every state of the argument to have an entry for the symbol, because the code calls `list(None)` otherwise.
- `Nfa.NFA.ComputeLambdaClosure` returns the grown set as a value. In the code, the caller's own set object also grows, because `t` aliases it. Sets are values in the model, so that aliasing is not modelled.
- `Nfa.NFA.EliminateLambdaClosures` uses the fixpoint closure (`Nfa.NFA.LambdaClosure`), not the one-pass closure the code calls. Chains of two or more lambda moves are therefore followed, as intended. The one-pass difference is recorded under Findings.
- Nfa.NFA.SigmaStar takes its choices from the fixpoint closure of `{state}` (`Nfa.Choices`), while `_compute_sigma_star` (nfa.py:63) calls the one-pass closure. After two or more lambda moves in a chain, the model can pick a target set the code never sees.
- Nfa.NFA.ChooseRow picks each row entry from the same fixpoint-closure choices, so it inherits this difference.
- `_compute_sigma_star` keeps one target set, `list(result)[0]` (nfa.py:71), although the states of the closure may have different target sets. Take lambda move p → q, p on `a` to {r}, and q on `a` to {s}: one of r and s is dropped. So lambda elimination can lose words. `Nfa.NFA.SigmaStar` models that single pick. The model does not define a union-based elimination, and `Subset.Determinize` promises only the language of the lambda-free NFA that elimination leaves.
- `Nfa.NFA.SigmaStar` omits the closure the code applies to the set of target sets. That closure changes nothing, because a target set is never a key of `transitions`.
- `Minimize.Minify` uses the intended grouping (`MinTable.Table.BindClasses`) and marks a group final when it holds a final state. The as-written rules are modelled beside it and recorded under Findings.
- `RegexParse.Regex.ConstructNfa` records the fragment that becomes `self.nfa`, not a built automaton.
- MinTable.EntryCells keeps an entry's value apart from its states (`Cell` is `State` or `Flag`). Python builds `{a, b, value}`, in which `True` equals a state 1 and `False` a state 0 (MinimizationTable.py:116-124). So the model assumes no state equals `True`, `False`, 1 or 0. The as-written collapse is `MinTable.IntEntrySet`, recorded under Findings.
- MinTable.EntryCellsEqual states its iff under the same assumption. For states 0 and 1, Python's entry sets are equal for both values.
- MinTable.CellsAgree states its iff under the same assumption. Python's entry-set collections can be equal for tables that differ on the entry of 0 and 1 (`MinTable.IntEqualsMissesMark`).
- MinTable.Table.Equals states that `__eq__` is agreement on every pair, under the same assumption. As written, `__eq__` misses a change to the entry of 0 and 1.
- Minimize.MarkTable promises marked iff not equivalent under the same assumption. As written, when the only change a pass makes is marking the entry of 0 and 1, `__eq__` sees no change and the loop stops before the table is stable (Findings).
- Minimize.Minify relies on `Minimize.MarkTable`, so its grouping of equivalent states holds under the same assumption.
- MinTable.Table.UpdateTable updates the table in place. The new table object that `update_table` also returns, which shares `self.table`, is not modelled, because no caller uses it.
- The `MinTable.Table` methods whose contracts compare with `old(...)` are stated against value-level functions (`Updated`, `Popped`, `WithValue`, `Checked`), and the lemmas are proved about those functions.

## Findings

| source | as written | input that shows it | evidently intended | confidence | as-written member | corrected member |
|---|---|---|---|---|---|---|
| nfa.py:51-53 | `v = t` binds both names to one set, so `while t != v` stops after one pass | lambda moves 0→1→2, closure of {0}: returns {0, 1} | repeat passes until nothing is added, giving {0, 1, 2} | high, not executed | Nfa.OnePassMissesChain | Nfa.NFA.LambdaClosure |
| dfa.py:413-416 | a group becomes final only if it is the target of some transition | states 0 (final, initial) and 1, both going to 1 on `a`: the minimized DFA rejects the empty word | a group is final when it contains a final state | high, not executed | Minimize.FinalsAsWrittenLoseEmptyWord | Minimize.QuotientLanguage |
| MinimizationTable.py:165-169 | pairs are absorbed only when they touch the seed pair, so a class's later pair seeds a second group | unmarked pairs (1,2), (1,3), (1,4), (2,3), (2,4), (3,4): groups {1,2,3,4} and {3,4} | one group per class, pairwise disjoint | high, not executed | MinTable.GroupsOverlap | MinTable.ClassesDisjoint |
| Regex.py:125-127 | leftover `(` on the operator stack is popped and `process_operator('(')` does nothing | "(a" parses to the symbol a | an unclosed bracket is an error | high, not executed | RegexParse.UnclosedBracketAccepted | RegexParse.StrictParseBalanced |
| dfa.py:472-473 | the initial state is any explored subset meeting the NFA's initial states | NFA with string states 'p' and 'q' (0 and 1 in the lemma): p →a {p, q}, q →a {}, initial p, final q. {p, q} is added to `dfa_transitions` after {p} and {q}, so it is the last key meeting the initial states and is always picked. It accepts the empty word | the initial state is the subset of initial states | high, not executed | Subset.InitialPickAcceptsMore | Subset.Determinize |
| dfa.py:475-482 | `minify` is called on a DFA sharing the set `q`, and `bind_minimized_states` removes the merged states from it in place | NFA with string states 'p' and 'q' (0 and 1 in the lemma), both final, initial p, both going to {q} on `a`: the subsets {p} and {q} are equivalent, and the returned DFA has no states | minimization leaves the returned DFA intact, or returns the minimized one | high, not executed | Subset.MinifyEmptiesStates | Subset.Determinize |
| MinimizationTable.py:116-124 | `set(pair)` plus `.add(value)` lets `True`/`False` coincide with states 1/0, so `__eq__` cannot see the entry of states 0 and 1 change, and `minify`'s loop (dfa.py:373) can stop before the table is stable | states x, y, 0, 1, f; finals x, y, f; on `a`: x→0, y→1, 0→f, 1→1, f→0; keys in the order of [x, y, 0, 1, f]: the second pass only marks (0, 1), the loop stops, and y is merged with x and f although "aa" tells them apart | compare entries by pair and value, so that any change is seen | high, not executed | MinTable.IntEqualsMissesMark | MinTable.CellsAgree |
| dfa_to_regex.py:49-50 | `string_2[2:]` drops the `$` and the character after it | `concat_regex("a", "$b")` gives "a" | drop only the `$` (`string_2[1:]`), as the first branch drops one character | high, not executed | RegexText.ConcatAsWrittenDropsSymbol | RegexText.Concat |
