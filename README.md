# DFA reducer: pruning and Moore minimization

This project models the core of a small DFA-reduction script (`project.py`). The script reads an automaton, reduces it in two stages and writes the result back out:

1. `remove_unreachable_states` runs a depth-first search from the initial state with an explicit stack. It then filters the transition list down to the transitions between reached states.
2. `minimize_dfa` refines the split into final and non-final states, Moore style. Each round regroups every block by a key: the list of `(label, block index of the destination)` pairs over the state's outgoing transitions, in transition-list order. It stops when a round returns the same list of blocks.
   - Each block is then named `'q'` followed by its sorted members.
   - Every state is mapped to its block's name.
   - The transitions are rewritten through that map, and duplicates are dropped.
   - The initial and final states are mapped as well.

The Dafny modules follow the structure of the script:

- `Automaton` (`automaton.dfy`): transitions, the reduced automaton, the subsequence relation used to state that a filter keeps order, and an `Outcome` that is either a value or the key of a failed dictionary lookup (Python's `KeyError`).
- `Reachability` (`reachability.dfy`): the search as a method with a `while` loop over a `seq` stack, the inner push loop, and the transition filter. It is specified against the ghost predicate `Reachable`, which holds when a path of transitions exists.
- `Partition` (`partition.dfy`):
  - `get_block`, the key, the initial partition;
  - the per-block grouping (a loop over a free choice of the next member, with a dictionary that keeps its keys in insertion order);
  - one refinement round;
  - the `while True` loop, with its termination measure.
- `Naming` (`naming.dfy`): Python's string order, `sorted`, block names, `state_map`, and the new final states.
- `Rewrite` (`rewrite.dfy`): the loop that rewrites transitions, with its KeyError path and its first-occurrence de-duplication.
- `Minimizer` (`minimizer.dfy`):
  - `minimize_dfa` as a whole;
  - the script's reduction as written;
  - a corrected reduction (see Findings).

`minimize_dfa` reads the script's global `initial_state`, so here it is a parameter. Its `states` and `final_states` arguments are used through `set(...)` (lines 44-45) and a set comprehension (line 80), so they are sets. A key built from the partition contains `-1` for a destination that no block holds, exactly as `get_block` returns it.

## Model

| member | source | states |
|---|---|---|
| Reachability.RemoveUnreachableStates | project.py:27-40 | The initial state is always in the result, even when it is not among `states`, which is never read. A state is in the result iff some path of transitions leads to it from the initial state. No transition leaves the result. The kept transitions are exactly `KeepReachable` of the input. |
| Reachability.Unvisited | project.py:35-37 | The destinations the inner loop pushes are never already visited, and there are at most as many as transitions. |
| Reachability.PushSuccessors | project.py:35-37 | The stack after the inner loop is the old stack followed by `Unvisited(ts, state, reachable)`: the destinations pushed, in transition order. |
| Reachability.UnvisitedMembers | project.py:35-37 | A state is pushed iff it is not yet visited and some transition leads to it from the popped state. |
| Reachability.SkipState | project.py:31-33 | Popping an already visited state keeps the search invariant. The invariant: visited and stacked states are reachable, the initial state is visited or stacked, and every transition out of a visited state leads to a visited or stacked state. |
| Reachability.VisitState | project.py:31-37 | Visiting a popped state and pushing its unvisited successors keeps the same search invariant. |
| Reachability.KeepReachable | project.py:39 | A transition is kept iff it is in the input and both endpoints are reached. The result is a subsequence of the input (order preserved). Kept transitions keep their multiplicity, and dropped ones occur zero times. |
| Reachability.PruningIsIdempotent | project.py:27-40 | From the kept transitions exactly the same states are reachable, and filtering the kept transitions again changes nothing. |
| Reachability.FilterKeepsFiltered | project.py:39 | Filtering the kept transitions by the same set changes nothing. |
| Partition.GetBlock | project.py:47-51 | The result is -1 iff no block holds the state. Otherwise the block at that index holds the state and no earlier block does. |
| Partition.Outgoing | project.py:58 | A transition is listed iff it is in the list and leaves the given state. Each such transition keeps its multiplicity, every other one occurs zero times, and the listed transitions are a subsequence of the list (order preserved). |
| Partition.Pairs | project.py:58 | A key has one pair per outgoing transition. |
| Partition.KeyIsPairs | project.py:58 | Line 58's tuple is exactly the `(label, get_block(destination))` pairs of the state's outgoing transitions, in list order. |
| Partition.KeyMembers | project.py:58 | `(a, b)` is in a state's key iff some transition leaves the state with label `a` into a destination whose `get_block` is `b`. |
| Partition.InitialPartition | project.py:44-45 | There are exactly two blocks, final then non-final. They are disjoint, cover states ∪ finals, and each is all final or all non-final. |
| Partition.SplitBlock | project.py:56-62 | The pieces are non-empty and disjoint. Each is the set of a block's states sharing one key. Together they cover the block, and an empty block yields no pieces. |
| Partition.GroupStep | project.py:57-61 | Adding one state to the dictionary keeps the walk's invariant. The keys stay listed once each in insertion order, and each key holds exactly the states walked so far that have that key. |
| Partition.JoinGroup | project.py:61 | A state whose key the dictionary already holds is added to that key's set; the keys and their order are unchanged and the walk's invariant holds. |
| Partition.OpenGroup | project.py:59-61 | A state with a new key gets a new set holding only itself, its key is listed last, and the walk's invariant holds. |
| Partition.GroupsArePieces | project.py:59-62 | The dictionary's values, in key order, are non-empty, disjoint key classes that cover the block. |
| Partition.AppendNonEmpty | project.py:62 | Extending a list of non-empty blocks by non-empty pieces keeps every block non-empty. |
| Partition.AppendBlock | project.py:55-62 | Appending one block's pieces extends the round's invariant by one block. |
| Partition.RoundDone | project.py:54-62 | After the last block, the round's output has everything `RefineRound` promises. |
| Partition.RefineRound | project.py:54-62 | Every new block is non-empty and is a key class of one old block. Every state of an old block is in some new block. For a disjoint partition, two states share a new block iff they shared an old block and have equal keys. There are never fewer new blocks than non-empty old ones, and when no block was empty and none split, the list comes back unchanged. |
| Partition.RoundKeepsInvariant | project.py:54-66 | A round keeps the blocks within states ∪ finals, covering them, each all final or all non-final, and each within the finals or within the non-finals. |
| Partition.BlockCountBound | project.py:53-66 | Disjoint blocks within a set have no more non-empty blocks than the set has states. This bounds the number of rounds. |
| Partition.FixedPointIsStable | project.py:64-65 | When a round returns the same list, every block's states all share one key. |
| Partition.RefinePartition | project.py:44-66 | The loop terminates after at most `1 + max(1, n)` rounds, where n = \|states ∪ finals\|. It returns a partition that is disjoint, has non-empty blocks and covers states ∪ finals. Each block is all final or all non-final, and lies within the finals or within the non-finals. The partition is stable, with at most n blocks. It is also the coarsest such partition: any two states that some disjoint, stable partition of states ∪ finals within the initial split puts together share a block of the result. |
| Partition.KeyTransfer | project.py:58 | Suppose grouping by `q` never separates two states that `p` keeps together. Then states with equal keys over `q` have equal keys over `p`. |
| Partition.FinerEverywhere | project.py:47-51 | If two partitions cover the same set and one is finer on the states it holds, then `get_block` over the finer one separates no pair that `get_block` over the other keeps together, counting states outside the set (-1) too. |
| Partition.InitialIsCoarsest | project.py:44-45 | Every disjoint, stable partition within the final/non-final split is finer than the initial two blocks. |
| Partition.RoundKeepsCoarsest | project.py:54-66 | If every such candidate partition is finer than the current partition, then every candidate is finer than the next round's partition too. |
| Partition.CoarsestMergesExactly | project.py:53-66 | For a stable partition that is coarsest, two states share a block iff some candidate partition puts them in one block. |
| Partition.StableBlocksAgree | project.py:58-65 | In a stable partition, take a transition with some label out of one member of a block. Every other member of the block has a transition with the same label into the same block. |
| Naming.Sorted | project.py:68 | `sorted(block)` has the block's members, each once, in Python's increasing string order. |
| Naming.BlockName | project.py:68 | Every block name is non-empty and starts with `'q'`. |
| Naming.NewStates | project.py:68 | There is one name per block, in block order, and each starts with `'q'`. |
| Naming.SingletonName | project.py:68 | A one-state block is named `'q'` followed by that state. |
| Naming.NamesCanCollide | project.py:68 | Names are not injective: the distinct blocks {"1","2"} and {"12"} are both named "q12". |
| Naming.StateMapKeys | project.py:69 | `state_map` has an entry for a state iff some block holds it. |
| Naming.StateMapValue | project.py:69 | A state's entry is the name of the last block holding it (later pairs of the comprehension overwrite earlier ones). |
| Naming.StateMapNamesBlock | project.py:68-69 | With disjoint blocks, every state maps to the name of its own block, which is that block's entry in `new_states`. |
| Naming.StateMapDomain | project.py:69 | For a partition covering a set, `state_map`'s keys are exactly that set. |
| Naming.MapsIntoNewStates | project.py:68-69 | Every covered state maps to one of `new_states`. |
| Naming.NewFinals | project.py:80 | The new final states are values of `state_map`, and there are no more of them than final states. |
| Naming.ImageNoLarger | project.py:80 | A set comprehension through a map never has more elements than the set it maps. |
| Naming.FinalNamesAreFinalBlocks | project.py:80 | For a disjoint, homogeneous cover, a name is a new final state iff it names a block made of final states. |
| Rewrite.MissingEndpoint | project.py:72-74 | The result is None iff every endpoint is a key. Otherwise the result is the key whose lookup fails first: in the first transition with a missing endpoint, the source if it is missing, else the destination. |
| Rewrite.MissingEndpointPrefix | project.py:72-74 | A failing lookup found in a prefix is the failing lookup of the whole list. |
| Rewrite.FailureAt | project.py:72-74 | If transition `i` is the first with a missing endpoint, the whole loop fails on its missing key. |
| Rewrite.Images | project.py:72-75 | There is one image per transition. Each image keeps its transition's label, and both its endpoints are values of `state_map`. |
| Rewrite.Dedup | project.py:76-77 | The output has the same members as the input, no duplicates, and is no longer than the input. |
| Rewrite.DedupKeepsFirstOccurrenceOrder | project.py:71-77 | The output lists its elements in the order of their first occurrence in the input. |
| Rewrite.ExtendImages | project.py:72-77 | One more transition with both endpoints mapped appends its image unless the image is already present. |
| Rewrite.RewriteTransitions | project.py:71-77 | The result is KeyError with the first failing key when an endpoint is unmapped. Otherwise it is the images of the transitions, de-duplicated in first-occurrence order. |
| Minimizer.MissingKey | project.py:72-79 | The result is None iff the initial state and every endpoint are keys. A reported key is never a key. |
| Minimizer.Assemble | project.py:68-82 | The result has one state per block, no more final states than the finals passed in, and no more transitions than the input list. |
| Minimizer.FinalNamesAreStates | project.py:68-80 | Every new final state is one of the new states. |
| Minimizer.ImagesAreBetweenStates | project.py:68-77 | Every rewritten transition runs between new states. |
| Minimizer.AssembledIsWellFormed | project.py:68-80 | The map's keys are the covered states. The new initial state, the new finals and every rewritten endpoint are new states. |
| Minimizer.MinimizeDfa | project.py:43-82 | The partition is stable, homogeneous, refines the initial split, covers states ∪ finals and has at most that many blocks. It is the coarsest such partition, so it merges every pair of states that any stable partition within the initial split merges. The result is KeyError with the first failing lookup when an endpoint or the initial state is missing. Otherwise it is the automaton built through `state_map`, with every name it uses among its states. |
| Minimizer.StepImage | project.py:71-77 | A transition between two states becomes a transition between their names. |
| Minimizer.MapPath | project.py:71-77 | A path among the map's keys, renamed state by state, is a path along the rewritten transitions. |
| Minimizer.ImageReachable | project.py:71-79 | A state reachable in the input has its name reachable from the initial state's name in the output. |
| Minimizer.NewStatesAreReachable | project.py:68-80 | When the partition covers exactly the reachable states, every new state is reachable from the new initial state. |
| Minimizer.ReduceDfa | project.py:156-161 | As written: prune, then minimize the reachable states together with all final states. The call never raises KeyError. The partition is stable over reachable ∪ finals, splits the reachable states by finality, and is the coarsest such partition: any two states that some stable partition within that split puts together share a block. The result is that partition's automaton, and it is well formed. |
| Minimizer.ExampleBlockNames | project.py:68-69 | For any homogeneous partition of {A, B} with final B, A maps to qA, B maps to qB, and qB is a new state. |
| Minimizer.UnreachableFinalSurvives | project.py:156-161 | States A and B, initial A, final B, no transitions: every result `ReduceDfa` can return has a final state qB that the initial state qA does not reach. |
| Minimizer.ReduceDfaPruned | project.py:156-161 | Corrected: only the reachable finals are passed on. The partition is stable over the reachable states, splits them by finality and is the coarsest such partition. The result is that partition's automaton, it is well formed, and every one of its states is reachable from its initial state. |

## Left out

- Reading and writing XML, drawing the automata, and the GUI: these are I/O and plotting, outside the reduction.
- The alphabet is read and written back but never used by the reduction, so it does not appear.
- Reachability.RemoveUnreachableStates: returns the reached states as a set. The order of `list(reachable_states)` depends on string hashing, and nothing downstream depends on it except the set iteration order below.
- Partition.SplitBlock: the order in which a Python set is walked is hash-dependent. It is modelled as a free choice of the next member, so the order of the pieces in a round is any order the walk can produce. The order the model does not fix is also the order that decides `new_states`.
- Minimizer.MinimizeDfa: returns the new final states as a set. The order of `list(new_final_states)` is hash-dependent.
- Block names are not injective (`Naming.NamesCanCollide`). When two blocks share a name, `state_map` and the output merge them. The model computes exactly what the code computes and proves no property that needs distinct names.
- That the reduced automaton accepts the same language, and that it is minimal, are not proved. The model proves that the partition is the coarsest one that is stable under the code's own key and lies within the final/non-final split.
- The script validates nothing, and the model follows it:
  - A missing initial state is accepted by the search, and a missing key surfaces as Python's KeyError (`Outcome.KeyError`).
  - A key follows transition-list order, not the order of the alphabet.
  - A destination outside every block is keyed as -1.
  - An empty initial block is not dropped up front; it disappears in the first round.
  - Non-deterministic transition lists are accepted as given.
  - Unreachable final states reach the minimizer (see Findings).

## Findings

| source | as written | input that shows it | evidently intended | confidence | as-written member | corrected member |
|---|---|---|---|---|---|---|
| project.py:156-161 | `minimize_dfa` receives the pruned states but the unpruned `final_states`, so every unreachable final state is put into a final block; when no reachable final state shares its key, that block is a final state the initial state cannot reach | states A and B, initial A, final B, no transitions: the result has states qA and qB, final qB, and qB is unreachable from qA | pass only the reachable final states, so that every state of the result is reachable | not executed; high, by the proof of the lemma | Minimizer.ReduceDfa, Minimizer.UnreachableFinalSurvives | Minimizer.ReduceDfaPruned |
