/**
 The executor itself: `AsyncGraphExecutor::new`, which builds the dependency
 index and the initial frontier, and `exec`, which starts the frontier and
 then drains the graph one completion at a time.
 */
module Executor {
  import opened Wrappers
  import opened DependencyIndex
  import opened Schedule

  /** A started node, tagged with the key its completion reports: one of the
      boxed futures of the in-flight list. */
  datatype Running<K, N> = Running(key: K, node: N)

  /** The keys of the in-flight entries. */
  function RunningKeys<K, N>(futures: seq<Running<K, N>>): set<K>
  {
    set i | 0 <= i < |futures| :: futures[i].key
  }

  /** No key is in flight twice. */
  ghost predicate DistinctKeys<K, N>(futures: seq<Running<K, N>>)
  {
    forall i, j :: 0 <= i < j < |futures| ==> futures[i].key != futures[j].key
  }

  /** Taking entry `idx` out of a duplicate-free in-flight list removes exactly its key. */
  lemma RemoveRunning<K, N>(futures: seq<Running<K, N>>, idx: nat)
    requires DistinctKeys(futures) && idx < |futures|
    ensures DistinctKeys(futures[..idx] + futures[idx + 1..])
    ensures RunningKeys(futures[..idx] + futures[idx + 1..]) == RunningKeys(futures) - {futures[idx].key}
  {
    var rest := futures[..idx] + futures[idx + 1..];
    assert forall i :: 0 <= i < |rest| ==> rest[i] == futures[if i < idx then i else i + 1];
    forall k | k in RunningKeys(futures) - {futures[idx].key}
      ensures k in RunningKeys(rest)
    {
      var i :| 0 <= i < |futures| && futures[i].key == k;
      assert rest[if i < idx then i else i - 1].key == k;
    }
  }

  /** Appending an entry whose key is not in flight keeps the list duplicate-free. */
  lemma AddRunning<K, N>(futures: seq<Running<K, N>>, r: Running<K, N>)
    requires DistinctKeys(futures) && r.key !in RunningKeys(futures)
    ensures DistinctKeys(futures + [r])
    ensures RunningKeys(futures + [r]) == RunningKeys(futures) + {r.key}
  {
    var after := futures + [r];
    forall k | k in RunningKeys(futures) ensures k in RunningKeys(after) {
      var i :| 0 <= i < |futures| && futures[i].key == k;
      assert after[i].key == k;
    }
    assert after[|futures|].key == r.key;
  }

  /** The store and the in-flight list agree with the history `t`: started
      nodes have left the store, every running key is started and not yet
      finished, and carries the node it was started with. */
  ghost predicate StoreAgrees<K, N>(nodes0: map<K, N>, nodes: map<K, N>, futures: seq<Running<K, N>>, t: seq<Event<K>>)
  {
    && Started(t) <= nodes0.Keys
    && nodes == nodes0 - Started(t)
    && Finished(t) <= Started(t)
    && DistinctKeys(futures)
    && RunningKeys(futures) == Started(t) - Finished(t)
    && (forall i :: 0 <= i < |futures| ==> futures[i].key in nodes0 && futures[i].node == nodes0[futures[i].key])
  }

  /** Starting `k`: moving its node from the store to the end of the in-flight list. */
  lemma StartStep<K, N>(nodes0: map<K, N>, nodes: map<K, N>, futures: seq<Running<K, N>>,
                        t: seq<Event<K>>, deps: map<K, set<K>>, k: K)
    requires StoreAgrees(nodes0, nodes, futures, t) && Legal(t, deps)
    requires k in nodes && k in deps && deps[k] <= Finished(t)
    ensures Legal(t + [Start(k)], deps)
    ensures Started(t + [Start(k)]) == Started(t) + {k} && Finished(t + [Start(k)]) == Finished(t)
    ensures StoreAgrees(nodes0, nodes - {k}, futures + [Running(k, nodes[k])], t + [Start(k)])
  {
    Extend(t, Start(k), deps);
    AddRunning(futures, Running(k, nodes[k]));
  }

  /** Taking the completion of in-flight entry `idx`. */
  lemma FinishStep<K, N>(nodes0: map<K, N>, nodes: map<K, N>, futures: seq<Running<K, N>>,
                         t: seq<Event<K>>, deps: map<K, set<K>>, idx: nat)
    requires StoreAgrees(nodes0, nodes, futures, t) && Legal(t, deps)
    requires idx < |futures|
    ensures futures[idx].key !in Finished(t)
    ensures Legal(t + [Finish(futures[idx].key)], deps)
    ensures Started(t + [Finish(futures[idx].key)]) == Started(t)
    ensures Finished(t + [Finish(futures[idx].key)]) == Finished(t) + {futures[idx].key}
    ensures Finished(t + [Finish(futures[idx].key)]) - {futures[idx].key} == Finished(t)
    ensures StoreAgrees(nodes0, nodes, futures[..idx] + futures[idx + 1..], t + [Finish(futures[idx].key)])
  {
    assert futures[idx].key in RunningKeys(futures);
    Extend(t, Finish(futures[idx].key), deps);
    RemoveRunning(futures, idx);
  }

  /** Once the frontier has left the store, a node is stored exactly when it
      has a prerequisite. */
  lemma FrontierGone<K, N, P>(infos: map<K, NodeInfo<K, P>>, nodes0: map<K, N>, frontier: set<K>)
    requires infos.Keys == nodes0.Keys && frontier == NoDepKeys(infos)
    ensures StoredIffBlocked(infos, nodes0 - frontier)
  {
  }

  /** The index differs from `infos0` only in that each `dependsOn` has lost the keys in `done`. */
  ghost predicate Shrunk<K, P>(infos0: map<K, NodeInfo<K, P>>, infos: map<K, NodeInfo<K, P>>, done: set<K>)
  {
    && infos.Keys == infos0.Keys
    && forall k :: k in infos ==> infos[k] == infos0[k].(dependsOn := infos0[k].dependsOn - done)
  }

  /** A node is still in the store exactly when its `dependsOn` is not empty. */
  ghost predicate StoredIffBlocked<K, N, P>(infos: map<K, NodeInfo<K, P>>, nodes: map<K, N>)
  {
    forall k :: k in infos ==> (k in nodes <==> infos[k].dependsOn != {})
  }

  /** Midway through releasing the dependents of `f`: those still `pending`
      have not yet lost `f`. */
  ghost predicate Releasing<K, P>(infos0: map<K, NodeInfo<K, P>>, infos: map<K, NodeInfo<K, P>>,
                                  done: set<K>, f: K, pending: set<K>)
  {
    && infos.Keys == infos0.Keys
    && forall k :: k in infos ==>
         infos[k] == infos0[k].(dependsOn := infos0[k].dependsOn - (if k in pending then done - {f} else done))
  }

  /** Before any dependent of `f` is visited, the index is already what it
      would be with `f` removed everywhere except from those dependents. */
  lemma BeginRelease<K, P>(infos0: map<K, NodeInfo<K, P>>, infos: map<K, NodeInfo<K, P>>, done: set<K>, f: K)
    requires Consistent(infos0) && f in infos0
    requires Shrunk(infos0, infos, done - {f})
    ensures Releasing(infos0, infos, done, f, infos0[f].dependedOnBy)
  {
    forall k | k in infos && k !in infos0[f].dependedOnBy
      ensures infos0[k].dependsOn - (done - {f}) == infos0[k].dependsOn - done
    {
      assert f !in infos0[k].dependsOn;
    }
  }

  /** Once every dependent of `f` has been visited, `f` is gone from every `dependsOn`. */
  lemma EndRelease<K, P>(infos0: map<K, NodeInfo<K, P>>, infos: map<K, NodeInfo<K, P>>, done: set<K>, f: K)
    requires Releasing(infos0, infos, done, f, {})
    ensures Shrunk(infos0, infos, done)
  {
  }

  /** Visiting dependent `p` of `f`: removing `f` from its `dependsOn`. Its
      node is still stored, and it becomes ready exactly when its last
      prerequisite has completed. */
  lemma ReleaseStep<K, N, P>(infos0: map<K, NodeInfo<K, P>>, infos: map<K, NodeInfo<K, P>>, nodes: map<K, N>,
                             done: set<K>, f: K, pending: set<K>, p: K)
    requires Consistent(infos0) && f in infos0 && f in done
    requires pending <= infos0[f].dependedOnBy && p in pending
    requires Releasing(infos0, infos, done, f, pending)
    requires StoredIffBlocked(infos, nodes)
    ensures p in infos && p in nodes
    ensures var infos' := infos[p := infos[p].(dependsOn := infos[p].dependsOn - {f})];
            && Releasing(infos0, infos', done, f, pending - {p})
            && (infos'[p].dependsOn == {} <==> infos0[p].dependsOn <= done)
            && StoredIffBlocked(infos', if infos'[p].dependsOn == {} then nodes - {p} else nodes)
  {
    assert f in infos[p].dependsOn;
    var infos' := infos[p := infos[p].(dependsOn := infos[p].dependsOn - {f})];
    assert infos'[p].dependsOn == infos0[p].dependsOn - done;
    if infos0[p].dependsOn <= done {
      assert infos0[p].dependsOn - done == {};
    } else {
      var x :| x in infos0[p].dependsOn && x !in done;
      assert x in infos'[p].dependsOn;
    }
  }

  /** Everything that holds while the dependents of `f` are being visited. */
  ghost predicate ReleaseInv<K, N, P>(infos0: map<K, NodeInfo<K, P>>, nodes0: map<K, N>,
                                      infos: map<K, NodeInfo<K, P>>, nodes: map<K, N>,
                                      futures: seq<Running<K, N>>, t: seq<Event<K>>,
                                      done: set<K>, f: K, pending: set<K>)
  {
    && Consistent(infos0) && f in infos0 && f in done
    && pending <= infos0[f].dependedOnBy
    && Releasing(infos0, infos, done, f, pending) && StoredIffBlocked(infos, nodes)
    && Legal(t, DependsOnMap(infos0)) && StoreAgrees(nodes0, nodes, futures, t)
    && Finished(t) == done
  }

  /** A dependent still to be visited is in the index and still in the store. */
  lemma PendingStored<K, N, P>(infos0: map<K, NodeInfo<K, P>>, nodes0: map<K, N>,
                               infos: map<K, NodeInfo<K, P>>, nodes: map<K, N>,
                               futures: seq<Running<K, N>>, t: seq<Event<K>>,
                               done: set<K>, f: K, pending: set<K>, p: K)
    requires ReleaseInv(infos0, nodes0, infos, nodes, futures, t, done, f, pending) && p in pending
    ensures p in infos && p in nodes
  {
    assert f in infos[p].dependsOn;
  }

  /** One visit of dependent `p`: `f` leaves its `dependsOn`, and it is
      started when that set has become empty. */
  lemma ReleaseOne<K, N, P>(infos0: map<K, NodeInfo<K, P>>, nodes0: map<K, N>,
                            infos: map<K, NodeInfo<K, P>>, nodes: map<K, N>,
                            futures: seq<Running<K, N>>, t: seq<Event<K>>,
                            done: set<K>, f: K, pending: set<K>, p: K,
                            infos': map<K, NodeInfo<K, P>>, nodes': map<K, N>,
                            futures': seq<Running<K, N>>, t': seq<Event<K>>)
    requires ReleaseInv(infos0, nodes0, infos, nodes, futures, t, done, f, pending) && p in pending
    requires p in infos && p in nodes
    requires infos' == infos[p := infos[p].(dependsOn := infos[p].dependsOn - {f})]
    requires if infos'[p].dependsOn == {} then
               nodes' == nodes - {p} && futures' == futures + [Running(p, nodes[p])] && t' == t + [Start(p)]
             else
               nodes' == nodes && futures' == futures && t' == t
    ensures ReleaseInv(infos0, nodes0, infos', nodes', futures', t', done, f, pending - {p})
  {
    ReleaseStep(infos0, infos, nodes, done, f, pending, p);
    if infos'[p].dependsOn == {} {
      StartStep(nodes0, nodes, futures, t, DependsOnMap(infos0), p);
    }
  }

  /** An index with nothing removed. */
  lemma ShrunkByNothing<K, P>(infos: map<K, NodeInfo<K, P>>)
    ensures Shrunk(infos, infos, {})
  {
    forall k | k in infos
      ensures infos[k] == infos[k].(dependsOn := infos[k].dependsOn - {})
    {
      assert infos[k].dependsOn - {} == infos[k].dependsOn;
    }
  }

  /** `t` extends `initial`, and if it is longer, its next event is a completion. */
  ghost predicate CompletionFollows<K>(initial: seq<Event<K>>, t: seq<Event<K>>)
  {
    initial <= t && (|initial| < |t| ==> t[|initial|].Finish?)
  }

  /** Appending a completion and then anything keeps `CompletionFollows`. */
  lemma CompletionFollowsStep<K>(initial: seq<Event<K>>, t: seq<Event<K>>, f: K, t': seq<Event<K>>)
    requires CompletionFollows(initial, t) && t + [Finish(f)] <= t'
    ensures CompletionFollows(initial, t')
  {
    assert (t + [Finish(f)])[|initial|] == t'[|initial|];
  }

  /** The keys started before the first completion are exactly `frontier`. */
  lemma FrontierStartsFirst<K>(initial: seq<Event<K>>, t: seq<Event<K>>, frontier: set<K>)
    requires CompletionFollows(initial, t)
    requires Started(initial) == frontier && Finished(initial) == {}
    ensures exists n :: && 0 <= n <= |t|
                        && Started(t[..n]) == frontier && Finished(t[..n]) == {}
                        && (n < |t| ==> t[n].Finish?)
  {
    assert t[..|initial|] == initial;
  }

  /** With nothing in flight, every started node has completed. */
  lemma NoneRunning<K, N>(nodes0: map<K, N>, nodes: map<K, N>, t: seq<Event<K>>)
    requires StoreAgrees(nodes0, nodes, [], t)
    ensures Finished(t) == Started(t)
  {
    assert RunningKeys<K, N>([]) == {};
  }

  /** Without cycles the drain cannot stall: once every started node has
      completed, no node is left in the store. */
  lemma {:induction false} NothingLeft<K(!new), N, P>(infos0: map<K, NodeInfo<K, P>>, infos: map<K, NodeInfo<K, P>>,
                                          nodes: map<K, N>, done: set<K>)
    requires Consistent(infos0) && Acyclic(DependsOnMap(infos0))
    requires Shrunk(infos0, infos, done) && StoredIffBlocked(infos, nodes)
    requires nodes.Keys == infos0.Keys - done
    ensures nodes == map[]
  {
    if nodes.Keys != {} {
      var deps := DependsOnMap(infos0);
      var rank :| RankedBy(deps, rank);
      var m := UnblockedMember(deps, rank, nodes.Keys);
      assert false;
    }
  }

  /** What `exec` has achieved once nothing is in flight. */
  lemma Drained<K(!new), N, P>(infos0: map<K, NodeInfo<K, P>>, nodes0: map<K, N>, infos: map<K, NodeInfo<K, P>>,
                               nodes: map<K, N>, initial: seq<Event<K>>, t: seq<Event<K>>, frontier: set<K>)
    requires Consistent(infos0) && infos0.Keys == nodes0.Keys
    requires Started(initial) == frontier && Finished(initial) == {} && CompletionFollows(initial, t)
    requires Shrunk(infos0, infos, Finished(t)) && StoredIffBlocked(infos, nodes)
    requires StoreAgrees(nodes0, nodes, [], t)
    ensures exists n :: && 0 <= n <= |t|
                        && Started(t[..n]) == frontier && Finished(t[..n]) == {}
                        && (n < |t| ==> t[n].Finish?)
    ensures Finished(t) == Started(t)
    ensures Acyclic(DependsOnMap(infos0)) ==> nodes == map[] && Started(t) == nodes0.Keys
  {
    FrontierStartsFirst(initial, t, frontier);
    NoneRunning(nodes0, nodes, t);
    if Acyclic(DependsOnMap(infos0)) {
      NothingLeft(infos0, infos, nodes, Finished(t));
    }
  }

  /** Ordering in terms of the input: for every edge `(s, d)`, a start of `d`
      comes after a completion of `s`. */
  lemma EdgesRespected<K, N, P>(infos: map<K, NodeInfo<K, P>>, nodes: map<K, N>, edges: seq<(K, K)>,
                                getPriority: N -> P, t: seq<Event<K>>, e: nat, j: nat)
    requires IsIndexOf(infos, nodes, edges, getPriority) && Legal(t, DependsOnMap(infos))
    requires e < |edges| && j < |t| && t[j] == Start(edges[e].1)
    ensures exists i :: 0 <= i < j && t[i] == Finish(edges[e].0)
  {
    StartedAt(t, edges[e].1);
    StartedAreKnown(t, DependsOnMap(infos));
    PrerequisitesFinishFirst(t, DependsOnMap(infos), j, edges[e].0);
  }

  class AsyncGraphExecutor<K(==,!new), N, P> {
    var nodeInfos: map<K, NodeInfo<K, P>>
    var nodes: map<K, N>
    var nodeKeysWithNoDeps: set<K>

    /** The state `New` leaves: one index entry per stored node, a consistent
        index, and the frontier of keys that depend on nothing. */
    ghost predicate Valid()
      reads this
    {
      && nodeInfos.Keys == nodes.Keys
      && Consistent(nodeInfos)
      && nodeKeysWithNoDeps == NoDepKeys(nodeInfos)
    }

    constructor Init(nodes: map<K, N>, nodeInfos: map<K, NodeInfo<K, P>>, nodeKeysWithNoDeps: set<K>)
      requires nodeInfos.Keys == nodes.Keys && Consistent(nodeInfos)
      requires nodeKeysWithNoDeps == NoDepKeys(nodeInfos)
      ensures Valid()
      ensures this.nodes == nodes && this.nodeInfos == nodeInfos
      ensures this.nodeKeysWithNoDeps == nodeKeysWithNoDeps
    {
      this.nodes := nodes;
      this.nodeInfos := nodeInfos;
      this.nodeKeysWithNoDeps := nodeKeysWithNoDeps;
    }

    /** `AsyncGraphExecutor::new`: fails on the first edge with an endpoint
        that is not a node key; otherwise keeps the nodes, their index and
        the initial frontier. */
    static method New(nodes: map<K, N>, edges: seq<(K, K)>, getPriority: N -> P)
      returns (r: Result<AsyncGraphExecutor<K, N, P>, BuildError<K>>)
      ensures r.Ok? <==> KnownEdges(nodes.Keys, edges)
      ensures r.Err? ==> FirstUnknown(nodes.Keys, edges, r.error)
      ensures r.Ok? ==> && fresh(r.value) && r.value.Valid()
                        && r.value.nodes == nodes
                        && IsIndexOf(r.value.nodeInfos, nodes, edges, getPriority)
                        && r.value.nodeKeysWithNoDeps == NoDepKeys(r.value.nodeInfos)
    {
      var built := BuildNodeInfos(nodes, edges, getPriority);
      if built.Err? {
        return Err(built.error);
      }
      var infos := built.value;
      IndexIsConsistent(infos, nodes, edges, getPriority);
      var executor := new AsyncGraphExecutor.Init(nodes, infos, NoDepKeys(infos));
      return Ok(executor);
    }

    /** `exec`: starts every frontier node, then repeatedly takes one finished
        in-flight entry (whichever the scheduler picks), removes its key from
        the `dependsOn` of each of its dependents, and starts each dependent
        whose `dependsOn` has just become empty. `trace` is the history of
        starts and completions. */
    method Exec() returns (ghost trace: seq<Event<K>>)
      requires Valid()
      modifies this`nodes, this`nodeInfos
      // the history respects the dependencies: no double start, prerequisites first
      ensures Legal(trace, DependsOnMap(old(nodeInfos)))
      // the frontier is exactly what starts before the first completion
      ensures exists n :: && 0 <= n <= |trace|
                          && Started(trace[..n]) == nodeKeysWithNoDeps && Finished(trace[..n]) == {}
                          && (n < |trace| ==> trace[n].Finish?)
      // every started node has completed when the loop ends
      ensures Finished(trace) == Started(trace)
      // started nodes left the store, the others are untouched
      ensures Started(trace) <= old(nodes).Keys
      ensures nodes == old(nodes) - Started(trace)
      // only `dependsOn` changes, and only by losing completed keys
      ensures Shrunk(old(nodeInfos), nodeInfos, Finished(trace))
      // a node is left unstarted exactly when some prerequisite never completed
      ensures StoredIffBlocked(nodeInfos, nodes)
      // without cycles, every node runs
      ensures Acyclic(DependsOnMap(old(nodeInfos))) ==> nodes == map[] && Started(trace) == old(nodes).Keys
    {
      ghost var infos0 := nodeInfos;
      ghost var nodes0 := nodes;
      var futures;
      futures, trace := StartFrontier();
      ghost var initial := trace;
      ShrunkByNothing(nodeInfos);

      while |futures| > 0
        invariant Shrunk(infos0, nodeInfos, Finished(trace)) && StoredIffBlocked(nodeInfos, nodes)
        invariant Legal(trace, DependsOnMap(infos0)) && StoreAgrees(nodes0, nodes, futures, trace)
        invariant CompletionFollows(initial, trace)
        decreases nodes0.Keys - Finished(trace)
      {
        futures, trace := CompleteOne(futures, trace, infos0, nodes0, initial);
      }

      Drained(infos0, nodes0, nodeInfos, nodes, initial, trace, nodeKeysWithNoDeps);
    }

    /** One turn of `exec`'s loop: some in-flight entry (whichever the
        scheduler picks) completes and leaves the list, and its dependents are
        released. */
    method CompleteOne(futures: seq<Running<K, N>>, ghost trace: seq<Event<K>>, ghost infos0: map<K, NodeInfo<K, P>>,
                       ghost nodes0: map<K, N>, ghost initial: seq<Event<K>>)
      returns (futures': seq<Running<K, N>>, ghost trace': seq<Event<K>>)
      requires |futures| > 0 && Consistent(infos0) && infos0.Keys == nodes0.Keys
      requires Shrunk(infos0, nodeInfos, Finished(trace)) && StoredIffBlocked(nodeInfos, nodes)
      requires Legal(trace, DependsOnMap(infos0)) && StoreAgrees(nodes0, nodes, futures, trace)
      requires CompletionFollows(initial, trace)
      modifies this`nodes, this`nodeInfos
      ensures Shrunk(infos0, nodeInfos, Finished(trace')) && StoredIffBlocked(nodeInfos, nodes)
      ensures Legal(trace', DependsOnMap(infos0)) && StoreAgrees(nodes0, nodes, futures', trace')
      ensures CompletionFollows(initial, trace')
      // exactly one more node has completed, and the history grew by its
      // completion followed only by starts
      ensures exists k :: && k in nodes0 && k !in Finished(trace) && Finished(trace') == Finished(trace) + {k}
                          && trace + [Finish(k)] <= trace'
    {
      var idx :| 0 <= idx < |futures|;
      var finishedKey := futures[idx].key;
      FinishStep(nodes0, nodes, futures, trace, DependsOnMap(infos0), idx);
      var rest := futures[..idx] + futures[idx + 1..];
      futures', trace' := ReleaseDependents(finishedKey, rest, trace + [Finish(finishedKey)], infos0, nodes0);
      CompletionFollowsStep(initial, trace, finishedKey, trace');
    }

    /** The start of `exec`: every frontier key (in any order) has its node
        taken out of the store and started. */
    method StartFrontier() returns (futures: seq<Running<K, N>>, ghost trace: seq<Event<K>>)
      requires Valid()
      modifies this`nodes
      ensures Legal(trace, DependsOnMap(nodeInfos)) && StoreAgrees(old(nodes), nodes, futures, trace)
      ensures Started(trace) == nodeKeysWithNoDeps && Finished(trace) == {}
      ensures StoredIffBlocked(nodeInfos, nodes)
    {
      ghost var nodes0 := nodes;
      ghost var deps0 := DependsOnMap(nodeInfos);
      trace := [];
      futures := [];
      var store := nodes;
      var frontier := nodeKeysWithNoDeps;
      while frontier != {}
        invariant frontier <= nodeKeysWithNoDeps
        invariant Legal(trace, deps0) && StoreAgrees(nodes0, store, futures, trace)
        invariant Finished(trace) == {} && Started(trace) == nodeKeysWithNoDeps - frontier
        decreases frontier
      {
        var key :| key in frontier;
        StartStep(nodes0, store, futures, trace, deps0, key);
        var node := store[key];
        store := store - {key};
        futures := futures + [Running(key, node)];
        trace := trace + [Start(key)];
        frontier := frontier - {key};
      }
      FrontierGone(nodeInfos, nodes0, nodeKeysWithNoDeps);
      nodes := store;
    }

    /** One completion: the body of `exec`'s loop after the finished entry has
        left the in-flight list. Visits every dependent of `finishedKey` (in
        any order), removes `finishedKey` from its `dependsOn`, and starts it
        when that set has just become empty. */
    method ReleaseDependents(finishedKey: K, futures: seq<Running<K, N>>, ghost trace: seq<Event<K>>,
                             ghost infos0: map<K, NodeInfo<K, P>>, ghost nodes0: map<K, N>)
      returns (futures': seq<Running<K, N>>, ghost trace': seq<Event<K>>)
      requires Consistent(infos0) && finishedKey in infos0 && finishedKey in Finished(trace)
      requires Shrunk(infos0, nodeInfos, Finished(trace) - {finishedKey}) && StoredIffBlocked(nodeInfos, nodes)
      requires Legal(trace, DependsOnMap(infos0)) && StoreAgrees(nodes0, nodes, futures, trace)
      modifies this`nodes, this`nodeInfos
      // `finishedKey` is gone from every `dependsOn`, and nothing else changed in the index
      ensures Shrunk(infos0, nodeInfos, Finished(trace)) && StoredIffBlocked(nodeInfos, nodes)
      // the only new events start dependents that became ready
      ensures Legal(trace', DependsOnMap(infos0)) && StoreAgrees(nodes0, nodes, futures', trace')
      ensures trace <= trace' && Finished(trace') == Finished(trace)
      // started dependents are appended to the in-flight list
      ensures futures <= futures'
    {
      ghost var done := Finished(trace);
      futures', trace' := futures, trace;
      var infos, store := nodeInfos, nodes;
      var dependents := infos[finishedKey].dependedOnBy;
      BeginRelease(infos0, infos, done, finishedKey);
      while dependents != {}
        invariant ReleaseInv(infos0, nodes0, infos, store, futures', trace', done, finishedKey, dependents)
        invariant trace <= trace' && futures <= futures'
        decreases dependents
      {
        var parentKey :| parentKey in dependents;
        PendingStored(infos0, nodes0, infos, store, futures', trace', done, finishedKey, dependents, parentKey);
        ghost var (infosB, storeB, futuresB, traceB) := (infos, store, futures', trace');
        var parent := infos[parentKey];
        infos := infos[parentKey := parent.(dependsOn := parent.dependsOn - {finishedKey})];
        if infos[parentKey].dependsOn == {} {
          var node := store[parentKey];
          store := store - {parentKey};
          futures' := futures' + [Running(parentKey, node)];
          trace' := trace' + [Start(parentKey)];
        }
        ReleaseOne(infos0, nodes0, infosB, storeB, futuresB, traceB, done, finishedKey, dependents, parentKey,
                   infos, store, futures', trace');
        dependents := dependents - {parentKey};
      }
      EndRelease(infos0, infos, done, finishedKey);
      nodeInfos, nodes := infos, store;
    }
  }
}
