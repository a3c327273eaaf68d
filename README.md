# graph-executor: a Dafny model of the asynchronous dependency-graph executor

`AsyncGraphExecutor` runs a set of keyed nodes in an order that respects a
list of `(subject, dependent)` edges: a dependent may start only after each of
its subjects has completed. Construction (`new`) builds a per-key dependency
index, the `NodeInfo` map with its `depends_on` and `depended_on_by` sets. It
also builds the initial ready frontier, the keys that depend on nothing.
`exec` starts the frontier, then drains the graph Kahn-style. Each time some
in-flight node completes, its key is removed from the `depends_on` of each of
its dependents, and every dependent whose `depends_on` has just become empty
leaves the node store and starts.

The model has four modules:

- `Wrappers` (`wrappers.dfy`): the `Result` type, used where `new` panics.
- `DependencyIndex` (`dependency_index.dfy`):
  - `NodeInfo`, and `BuildNodeInfos`, the edge loop of `new`.
  - `IndexFold`, a recursive reference definition of that loop, and the lemmas that characterise it (`IsIndexOf`).
  - The frontier, and acyclicity as the existence of a topological numbering.
- `Schedule` (`schedule.dfy`): histories of `Start`/`Finish` events and the predicate `Legal`. A history is legal when no key starts twice, a key starts only after all its prerequisites finished, and only started keys finish. Ordering lemmas are proved about legal histories.
- `Executor` (`executor.dfy`): the class `AsyncGraphExecutor`.
  - It has the fields `nodeInfos`, `nodes` and `nodeKeysWithNoDeps`.
  - `New` builds the executor. `Exec` and its two parts `StartFrontier` and `CompleteOne` update those fields in place. `CompleteOne` uses `ReleaseDependents`.
  - The step lemmas carry the loop invariants.

`Exec` returns a ghost history of the starts and completions it performed.
It is proved legal with respect to the `dependsOn` sets it started from. It is
also proved to start the frontier before the first completion, to finish
every node it starts, and to shrink the index only by completed keys. On an
acyclic index it runs every node and empties the store. Every map lookup is
checked by the verifier, including `nodes[key]` where the source writes
`remove(..).unwrap()` and `nodeInfos[k]` where it writes `get_mut(..).unwrap()`.
So the model shows that these lookups cannot fail during `exec`.

All of this assumes that every started node's `exec()` completes; see
"Left out". Under that assumption, `exec` does not hang on input with a
cycle. Its loop ends as soon as the in-flight list is empty
(src/asynced.rs:97), and the nodes on or behind the cycle stay in the store
with non-empty `dependsOn` sets. `Exec` states this
through `StoredIffBlocked` and `Legal`. For example, when every node is the
dependent of some edge, nothing starts and the store keeps all its keys.

## Model

| member | source | states |
|---|---|---|
| DependencyIndex.BuildNodeInfos | src/asynced.rs:23-45 | succeeds exactly when every edge endpoint is a node key; on success the map is the fold of the edges and meets `IsIndexOf`; on failure reports the first edge with an unknown endpoint, the subject if that is missing, else the dependent |
| DependencyIndex.EmptyIndex | src/asynced.rs:24-37 | the initial index has exactly the node keys, and every entry starts with empty `dependsOn` and `dependedOnBy` sets |
| DependencyIndex.InsertEdge | src/asynced.rs:41-44 | recording one edge whose endpoints are keys keeps the key set of the index |
| DependencyIndex.NoDepKeys | src/asynced.rs:48-52 | the frontier holds only index keys, and a key is in it exactly when its `dependsOn` is empty |
| DependencyIndex.IndexFold | src/asynced.rs:40-45 | recording the edges one by one never changes the key set: it stays the set of node keys |
| DependencyIndex.InsertEdgeEffect | src/asynced.rs:41-44 | recording edge `(s, d)` adds `s` to `d`'s `dependsOn` and `d` to `s`'s `dependedOnBy`, and changes nothing else in any entry |
| DependencyIndex.FoldEntries | src/asynced.rs:24-37 | every entry of the built index is not failed and carries the priority of its node |
| DependencyIndex.FoldSound | src/asynced.rs:40-45 | every key in a `dependsOn` or `dependedOnBy` set was put there by an edge |
| DependencyIndex.FoldComplete | src/asynced.rs:40-45 | every edge `(s, d)` has `s` in `d`'s `dependsOn` and `d` in `s`'s `dependedOnBy` |
| DependencyIndex.IndexFoldIsIndex | src/asynced.rs:23-45 | the fold has exactly the node keys, unfailed entries with the node's priority, and sets holding exactly what the edges put there |
| DependencyIndex.FrontierIsSources | src/asynced.rs:48-52 | a key is in the initial frontier exactly when it is a node key that is the dependent of no edge |
| DependencyIndex.IndexIsConsistent | src/asynced.rs:40-45 | with known endpoints, `s` is in `d`'s `dependsOn` exactly when `d` is in `s`'s `dependedOnBy`, and both are keys |
| DependencyIndex.IndexIsUnique | src/asynced.rs:23-52 | two indexes of the same nodes, edges and priorities are equal, so rebuilding gives the same sets and frontier |
| DependencyIndex.AcyclicIndex | src/asynced.rs:40-45 | an edge list with a topological numbering yields a `dependsOn` relation with one |
| DependencyIndex.LeastRanked | src/asynced.rs:97-118 | a non-empty set of numbered keys has a member of least number |
| DependencyIndex.UnblockedMember | src/asynced.rs:97-118 | in an acyclic relation every non-empty set of keys has a member none of whose prerequisites is in the set |
| Schedule.Extend | src/asynced.rs:97-116 | appending an admissible event keeps a history legal, and updates the started and finished sets by that one key |
| Schedule.StartedAt | src/asynced.rs:86-87 | a key is started exactly when a start event for it occurs in the history |
| Schedule.FinishedAt | src/asynced.rs:98-99 | a key is finished exactly when a completion event for it occurs in the history |
| Schedule.FinishedWereStarted | src/asynced.rs:98-99 | in a legal history every finished key was started |
| Schedule.StartedAreKnown | src/asynced.rs:86-87 | in a legal history only keys of the index start |
| Schedule.PrerequisitesFinishFirst | src/asynced.rs:104-116 | when a key starts, each of its prerequisites has a completion event earlier in the history |
| Schedule.StartsAreDistinct | src/asynced.rs:107-108 | no key starts twice in a legal history |
| Schedule.FinishFollowsStart | src/asynced.rs:98-99 | every completion is preceded by the start of the same key |
| Executor.RemoveRunning | src/asynced.rs:99 | removing one entry from a duplicate-free in-flight list removes exactly its key and keeps the list duplicate-free |
| Executor.AddRunning | src/asynced.rs:88-94 | appending an entry whose key is not in flight adds exactly that key and keeps the list duplicate-free |
| Executor.StartStep | src/asynced.rs:87-94 | starting a ready stored key keeps the history legal and the store, in-flight list and history in agreement |
| Executor.FinishStep | src/asynced.rs:98-99 | the chosen in-flight key has not finished before; recording its completion keeps the history legal and the state in agreement |
| Executor.BeginRelease | src/asynced.rs:100-103 | before the dependents of `f` are visited, every key outside them already lacks `f` |
| Executor.EndRelease | src/asynced.rs:104-117 | after all dependents are visited, `f` is gone from every `dependsOn` and nothing else changed |
| Executor.ReleaseStep | src/asynced.rs:105-107 | a visited dependent is still stored, and its `dependsOn` becomes empty exactly when all its prerequisites have completed |
| Executor.PendingStored | src/asynced.rs:105-108 | a dependent still to visit is in the index and in the store, so the lookup and the later removal do not fail |
| Executor.ReleaseOne | src/asynced.rs:104-116 | visiting one dependent, and starting it if it became ready, keeps the release invariant |
| Executor.FrontierStartsFirst | src/asynced.rs:84-96 | the keys started before the first completion are exactly the frontier |
| Executor.NoneRunning | src/asynced.rs:97 | with nothing in flight, every started key has finished |
| Executor.NothingLeft | src/asynced.rs:97-118 | on an acyclic index, a drained state leaves no node in the store |
| Executor.Drained | src/asynced.rs:97-118 | when the loop ends, the frontier ran first, every started key finished, and on acyclic input every node started |
| Executor.EdgesRespected | src/asynced.rs:104-116 | in a legal history over a built index, for each edge `(s, d)` every start of `d` comes after a completion of `s` |
| Executor.AsyncGraphExecutor.Init | src/asynced.rs:72-78 | the executor holds exactly the given store, index and frontier, and is in the valid state |
| Executor.AsyncGraphExecutor.New | src/asynced.rs:23-79 | fails exactly when some edge names an unknown key, reporting the first such edge; otherwise keeps the nodes, an index meeting `IsIndexOf`, and the frontier of keys with empty `dependsOn` |
| Executor.AsyncGraphExecutor.Exec | src/asynced.rs:81-119 | provided every started node completes, terminates with a legal history; frontier first; every started node finished; started nodes left the store; only `dependsOn` shrank, by completed keys; a node stays stored exactly when blocked; on acyclic input all nodes ran |
| Executor.AsyncGraphExecutor.StartFrontier | src/asynced.rs:84-96 | starts exactly the frontier, moving each node from the store to the in-flight list, with no completion yet |
| Executor.AsyncGraphExecutor.CompleteOne | src/asynced.rs:97-117 | one loop turn: exactly one more key completes; the history grows by its completion followed only by starts; every invariant of the drain loop is kept |
| Executor.AsyncGraphExecutor.ReleaseDependents | src/asynced.rs:100-117 | the finished key leaves every `dependsOn`; exactly the dependents that became ready are started; the in-flight list and the history are only extended at their ends |

## Left out

- The `petgraph` graph, `key_to_graph_idx` and the `Dot` rendering (src/asynced.rs:54-70) are not modelled. They are diagnostic only, and the graph library is foreign code.
- `println!` and `log::debug!` output is left out because it is I/O.
- `select_all`, boxed futures and `.await` are async runtime machinery. The choice of which in-flight entry completes next is an arbitrary index picked with `:|`.
- `node.exec()` and its result are an opaque foreign call whose result is discarded. A node is an opaque value of type `N`.
- `node.exec()` is assumed to complete. A node whose `exec()` never completes makes `exec` wait forever at `select_all` (src/asynced.rs:98), because nothing times out or cancels. The model does not capture this: each loop turn picks an in-flight entry that has finished.
- `get_priority` belongs to the node trait, which is not part of this model. It is a function parameter `getPriority`.
- The `failed` and `priority` fields are stored but never read after construction, so no behaviour depends on them.
- HashMap and HashSet iteration order is unspecified. The frontier (a `Vec` in the source) is a set, and it and the dependents of a completed key are visited in an arbitrary order chosen with `:|`.
- The panic of `get_mut(..).unwrap()` on an edge with an unknown endpoint (src/asynced.rs:41, 43) becomes an `Err` value that names the edge index and the missing key. The partial update of the subject before the panic is not observable and is discarded.
- Executor.AsyncGraphExecutor.Exec: requires the state `New` leaves. A second call of `exec` on the same executor would panic when the frontier is non-empty, because the frontier's nodes are already gone from the store. Neither is a store whose keys a caller changed through the public `nodes` field (src/asynced.rs:14) between `new` and `exec`. In the source, an added key is never started, and a removed key makes `remove(..).unwrap()` (src/asynced.rs:87, 108) panic once that key is due to start. None of these cases is modelled.
- Executor.AsyncGraphExecutor.Exec: its history is a ghost value; the source keeps no such record. It states the order of starts and completions but not the concurrency between running nodes.
- A `Start` event marks the moment a node leaves the store and its future joins the in-flight list (src/asynced.rs:87-94, 108-115). The future is lazy, so `node.exec()` first runs only when `select_all` polls it (src/asynced.rs:98). "The frontier starts before the first completion" therefore speaks of scheduling, not of the first call of `node.exec()`.
