/**
 The dependency index that `AsyncGraphExecutor::new` builds: one `NodeInfo`
 per node key, filled from the `(subject, dependent)` edge list, and the
 initial ready frontier of keys that depend on nothing.
 */
module DependencyIndex {
  import opened Wrappers

  /** Per-key bookkeeping. `dependsOn` holds the prerequisites that have not
      completed yet; `dependedOnBy` the keys to notify on completion. */
  datatype NodeInfo<K, P> = NodeInfo(dependsOn: set<K>, dependedOnBy: set<K>, failed: bool, priority: P)

  /** An edge endpoint that is not a node key: the panic of `get_mut(..).unwrap()`.
      `index` is the position of the offending edge, `key` the missing endpoint. */
  datatype BuildError<K> = UnknownKey(index: nat, key: K)

  /** Every endpoint of every edge is a node key. */
  ghost predicate KnownEdges<K>(keys: set<K>, edges: seq<(K, K)>)
  {
    forall i :: 0 <= i < |edges| ==> edges[i].0 in keys && edges[i].1 in keys
  }

  /** `e` reports the first edge with a missing endpoint, and names the subject
      when the subject is missing (it is looked up first), else the dependent. */
  ghost predicate FirstUnknown<K>(keys: set<K>, edges: seq<(K, K)>, e: BuildError<K>)
  {
    && e.index < |edges|
    && KnownEdges(keys, edges[..e.index])
    && e.key !in keys
    && e.key == (if edges[e.index].0 !in keys then edges[e.index].0 else edges[e.index].1)
  }

  /** `infos` is the index of `nodes` and `edges`: one entry per node key, not
      failed, priority taken from the node, and the two sets hold exactly what
      the edges put there. */
  ghost predicate IsIndexOf<K, N, P>(infos: map<K, NodeInfo<K, P>>, nodes: map<K, N>,
                                     edges: seq<(K, K)>, getPriority: N -> P)
  {
    && infos.Keys == nodes.Keys
    && (forall k :: k in infos ==> !infos[k].failed && infos[k].priority == getPriority(nodes[k]))
    && (forall d, s :: d in infos && s in infos[d].dependsOn ==> (s, d) in edges)
    && (forall s, d :: s in infos && d in infos[s].dependedOnBy ==> (s, d) in edges)
    && (forall i :: 0 <= i < |edges| && edges[i].1 in infos ==> edges[i].0 in infos[edges[i].1].dependsOn)
    && (forall i :: 0 <= i < |edges| && edges[i].0 in infos ==> edges[i].1 in infos[edges[i].0].dependedOnBy)
  }

  /** The two sets of an index mirror each other and only name keys of the index. */
  ghost predicate Consistent<K, P>(infos: map<K, NodeInfo<K, P>>)
  {
    && (forall d, s :: d in infos && s in infos[d].dependsOn ==> s in infos && d in infos[s].dependedOnBy)
    && (forall s, d :: s in infos && d in infos[s].dependedOnBy ==> d in infos && s in infos[d].dependsOn)
  }

  /** One empty entry per node: no edges yet, not failed, the node's priority. */
  function EmptyIndex<K, N, P>(nodes: map<K, N>, getPriority: N -> P): (r: map<K, NodeInfo<K, P>>)
    ensures r.Keys == nodes.Keys
    ensures forall k :: k in r ==> r[k].dependsOn == {} && r[k].dependedOnBy == {}
  {
    map k | k in nodes :: NodeInfo({}, {}, false, getPriority(nodes[k]))
  }

  /** Records the edge `(s, d)`: `d` joins the dependents of `s`, `s` the
      prerequisites of `d`. */
  function InsertEdge<K, P>(infos: map<K, NodeInfo<K, P>>, s: K, d: K): (r: map<K, NodeInfo<K, P>>)
    requires s in infos && d in infos
    ensures r.Keys == infos.Keys
  {
    var withDependent := infos[s := infos[s].(dependedOnBy := infos[s].dependedOnBy + {d})];
    withDependent[d := withDependent[d].(dependsOn := withDependent[d].dependsOn + {s})]
  }

  /** The index after the edges of `edges`, recorded in order. */
  function IndexFold<K, N, P>(nodes: map<K, N>, edges: seq<(K, K)>, getPriority: N -> P): (r: map<K, NodeInfo<K, P>>)
    requires KnownEdges(nodes.Keys, edges)
    ensures r.Keys == nodes.Keys
    decreases |edges|
  {
    if edges == [] then EmptyIndex(nodes, getPriority)
    else
      var prefix := edges[..|edges| - 1];
      assert KnownEdges(nodes.Keys, prefix) by {
        forall i | 0 <= i < |prefix| ensures prefix[i] == edges[i] { }
      }
      InsertEdge(IndexFold(nodes, prefix, getPriority), edges[|edges| - 1].0, edges[|edges| - 1].1)
  }

  /** Builds the index: an empty entry per node, then one pass over the edges
      that adds the dependent to the subject's `dependedOnBy` and the subject
      to the dependent's `dependsOn`, failing on the first unknown endpoint. */
  method BuildNodeInfos<K, N, P>(nodes: map<K, N>, edges: seq<(K, K)>, getPriority: N -> P)
    returns (r: Result<map<K, NodeInfo<K, P>>, BuildError<K>>)
    ensures r.Ok? <==> KnownEdges(nodes.Keys, edges)
    ensures r.Ok? ==> r.value == IndexFold(nodes, edges, getPriority)
    ensures r.Ok? ==> IsIndexOf(r.value, nodes, edges, getPriority)
    ensures r.Err? ==> FirstUnknown(nodes.Keys, edges, r.error)
  {
    var infos := EmptyIndex(nodes, getPriority);
    var i := 0;
    while i < |edges|
      invariant 0 <= i <= |edges|
      invariant KnownEdges(nodes.Keys, edges[..i])
      invariant infos == IndexFold(nodes, edges[..i], getPriority)
    {
      var (subject, dependent) := edges[i];
      if subject !in infos {
        return Err(UnknownKey(i, subject));
      }
      var subjectInfo := infos[subject];
      infos := infos[subject := subjectInfo.(dependedOnBy := subjectInfo.dependedOnBy + {dependent})];
      if dependent !in infos {
        return Err(UnknownKey(i, dependent));
      }
      var dependentInfo := infos[dependent];
      infos := infos[dependent := dependentInfo.(dependsOn := dependentInfo.dependsOn + {subject})];
      assert edges[..i + 1][..i] == edges[..i];
      i := i + 1;
    }
    assert edges[..i] == edges;
    IndexFoldIsIndex(nodes, edges, getPriority);
    return Ok(infos);
  }

  /** What recording one edge does to each entry. */
  lemma InsertEdgeEffect<K, P>(infos: map<K, NodeInfo<K, P>>, s: K, d: K, k: K)
    requires s in infos && d in infos && k in infos
    ensures var r := InsertEdge(infos, s, d);
            && r[k].dependsOn == infos[k].dependsOn + (if k == d then {s} else {})
            && r[k].dependedOnBy == infos[k].dependedOnBy + (if k == s then {d} else {})
            && r[k].failed == infos[k].failed && r[k].priority == infos[k].priority
  {
  }

  /** The last step of the fold. */
  lemma FoldLast<K, N, P>(nodes: map<K, N>, edges: seq<(K, K)>, getPriority: N -> P)
    requires KnownEdges(nodes.Keys, edges) && edges != []
    ensures KnownEdges(nodes.Keys, edges[..|edges| - 1])
    ensures var last := edges[|edges| - 1];
            IndexFold(nodes, edges, getPriority)
            == InsertEdge(IndexFold(nodes, edges[..|edges| - 1], getPriority), last.0, last.1)
  {
    var prefix := edges[..|edges| - 1];
    forall i | 0 <= i < |prefix| ensures prefix[i] == edges[i] { }
  }

  /** Every entry of the fold is unfailed and carries its node's priority. */
  lemma {:induction false} FoldEntries<K, N, P>(nodes: map<K, N>, edges: seq<(K, K)>, getPriority: N -> P)
    requires KnownEdges(nodes.Keys, edges)
    ensures var r := IndexFold(nodes, edges, getPriority);
            forall k :: k in r ==> !r[k].failed && r[k].priority == getPriority(nodes[k])
    decreases |edges|
  {
    if edges != [] {
      var prefix, last := edges[..|edges| - 1], edges[|edges| - 1];
      FoldLast(nodes, edges, getPriority);
      FoldEntries(nodes, prefix, getPriority);
      var before := IndexFold(nodes, prefix, getPriority);
      forall k | k in before {
        InsertEdgeEffect(before, last.0, last.1, k);
      }
    }
  }

  /** Every key in a set of the fold was put there by an edge. */
  lemma {:induction false} FoldSound<K, N, P>(nodes: map<K, N>, edges: seq<(K, K)>, getPriority: N -> P)
    requires KnownEdges(nodes.Keys, edges)
    ensures var r := IndexFold(nodes, edges, getPriority);
            && (forall d, s :: d in r && s in r[d].dependsOn ==> (s, d) in edges)
            && (forall s, d :: s in r && d in r[s].dependedOnBy ==> (s, d) in edges)
    decreases |edges|
  {
    if edges != [] {
      var prefix, last := edges[..|edges| - 1], edges[|edges| - 1];
      assert edges == prefix + [last];
      FoldLast(nodes, edges, getPriority);
      FoldSound(nodes, prefix, getPriority);
      var before := IndexFold(nodes, prefix, getPriority);
      forall k | k in before {
        InsertEdgeEffect(before, last.0, last.1, k);
      }
    }
  }

  /** Every edge is recorded on both of its endpoints. */
  lemma {:induction false} FoldComplete<K, N, P>(nodes: map<K, N>, edges: seq<(K, K)>, getPriority: N -> P)
    requires KnownEdges(nodes.Keys, edges)
    ensures var r := IndexFold(nodes, edges, getPriority);
            && (forall i :: 0 <= i < |edges| && edges[i].1 in r ==> edges[i].0 in r[edges[i].1].dependsOn)
            && (forall i :: 0 <= i < |edges| && edges[i].0 in r ==> edges[i].1 in r[edges[i].0].dependedOnBy)
    decreases |edges|
  {
    if edges != [] {
      var prefix, last := edges[..|edges| - 1], edges[|edges| - 1];
      FoldLast(nodes, edges, getPriority);
      FoldComplete(nodes, prefix, getPriority);
      var before := IndexFold(nodes, prefix, getPriority);
      forall i | 0 <= i < |edges| && edges[i].1 in before
        ensures edges[i].0 in IndexFold(nodes, edges, getPriority)[edges[i].1].dependsOn
      {
        InsertEdgeEffect(before, last.0, last.1, edges[i].1);
        if i < |prefix| {
          assert prefix[i] == edges[i];
        }
      }
      forall i | 0 <= i < |edges| && edges[i].0 in before
        ensures edges[i].1 in IndexFold(nodes, edges, getPriority)[edges[i].0].dependedOnBy
      {
        InsertEdgeEffect(before, last.0, last.1, edges[i].0);
        if i < |prefix| {
          assert prefix[i] == edges[i];
        }
      }
    }
  }

  /** The fold meets the description of the index. */
  lemma IndexFoldIsIndex<K, N, P>(nodes: map<K, N>, edges: seq<(K, K)>, getPriority: N -> P)
    requires KnownEdges(nodes.Keys, edges)
    ensures IsIndexOf(IndexFold(nodes, edges, getPriority), nodes, edges, getPriority)
  {
    FoldEntries(nodes, edges, getPriority);
    FoldSound(nodes, edges, getPriority);
    FoldComplete(nodes, edges, getPriority);
  }

  /** The initial ready frontier: the keys whose `dependsOn` is empty. */
  function NoDepKeys<K, P>(infos: map<K, NodeInfo<K, P>>): (r: set<K>)
    ensures r <= infos.Keys
    ensures forall k :: k in infos ==> (k in r <==> infos[k].dependsOn == {})
  {
    set k | k in infos && infos[k].dependsOn == {}
  }

  /** The `dependsOn` sets of an index, as one relation. */
  function DependsOnMap<K, P>(infos: map<K, NodeInfo<K, P>>): map<K, set<K>>
  {
    map k | k in infos :: infos[k].dependsOn
  }

  /** A key is in the frontier of an index exactly when it is a node key that
      is the dependent of no edge. */
  lemma FrontierIsSources<K, N, P>(infos: map<K, NodeInfo<K, P>>, nodes: map<K, N>,
                                   edges: seq<(K, K)>, getPriority: N -> P, k: K)
    requires IsIndexOf(infos, nodes, edges, getPriority)
    ensures k in NoDepKeys(infos) <==> k in nodes && forall i :: 0 <= i < |edges| ==> edges[i].1 != k
  {
    if k in nodes && infos[k].dependsOn != {} {
      var s :| s in infos[k].dependsOn;
      assert (s, k) in edges;
    }
    if k in nodes && exists i :: 0 <= i < |edges| && edges[i].1 == k {
      var i :| 0 <= i < |edges| && edges[i].1 == k;
      assert edges[i].0 in infos[k].dependsOn;
    }
  }

  /** An index of edges whose endpoints are all keys is consistent. */
  lemma IndexIsConsistent<K, N, P>(infos: map<K, NodeInfo<K, P>>, nodes: map<K, N>,
                                   edges: seq<(K, K)>, getPriority: N -> P)
    requires KnownEdges(nodes.Keys, edges)
    requires IsIndexOf(infos, nodes, edges, getPriority)
    ensures Consistent(infos)
  {
    forall d, s | d in infos && s in infos[d].dependsOn
      ensures s in infos && d in infos[s].dependedOnBy
    {
      var i :| 0 <= i < |edges| && edges[i] == (s, d);
    }
    forall s, d | s in infos && d in infos[s].dependedOnBy
      ensures d in infos && s in infos[d].dependsOn
    {
      var i :| 0 <= i < |edges| && edges[i] == (s, d);
    }
  }

  /** The index is determined by its inputs: building twice from the same
      nodes and edges gives the same sets, hence the same frontier. */
  lemma IndexIsUnique<K, N, P>(a: map<K, NodeInfo<K, P>>, b: map<K, NodeInfo<K, P>>, nodes: map<K, N>,
                               edges: seq<(K, K)>, getPriority: N -> P)
    requires IsIndexOf(a, nodes, edges, getPriority)
    requires IsIndexOf(b, nodes, edges, getPriority)
    ensures a == b
  {
    forall k | k in a
      ensures a[k] == b[k]
    {
      assert a[k].dependsOn == b[k].dependsOn;
      assert a[k].dependedOnBy == b[k].dependedOnBy;
    }
  }

  /** `rank` numbers the keys so that every prerequisite ranks below its dependent. */
  ghost predicate RankedBy<K>(deps: map<K, set<K>>, rank: map<K, nat>)
  {
    && deps.Keys <= rank.Keys
    && forall d, s :: d in deps && s in deps[d] ==> s in rank && rank[s] < rank[d]
  }

  /** The prerequisite relation has no cycle: it admits a topological numbering. */
  ghost predicate Acyclic<K(!new)>(deps: map<K, set<K>>)
  {
    exists rank :: RankedBy(deps, rank)
  }

  /** `rank` numbers the endpoints so that every edge goes upwards. */
  ghost predicate EdgesRankedBy<K>(edges: seq<(K, K)>, rank: map<K, nat>)
  {
    forall i :: 0 <= i < |edges| ==>
      edges[i].0 in rank && edges[i].1 in rank && rank[edges[i].0] < rank[edges[i].1]
  }

  /** The edge list has no cycle: it admits a topological numbering of its endpoints. */
  ghost predicate AcyclicEdges<K(!new)>(edges: seq<(K, K)>)
  {
    exists rank :: EdgesRankedBy(edges, rank)
  }

  /** The index built from an acyclic edge list has an acyclic `dependsOn` relation. */
  lemma AcyclicIndex<K(!new), N, P>(infos: map<K, NodeInfo<K, P>>, nodes: map<K, N>,
                              edges: seq<(K, K)>, getPriority: N -> P)
    requires IsIndexOf(infos, nodes, edges, getPriority)
    requires AcyclicEdges(edges)
    ensures Acyclic(DependsOnMap(infos))
  {
    var rank :| EdgesRankedBy(edges, rank);
    var deps := DependsOnMap(infos);
    var full: map<K, nat> := map k | k in deps.Keys + rank.Keys :: if k in rank then rank[k] else 0;
    forall d, s | d in deps && s in deps[d]
      ensures s in full && full[s] < full[d]
    {
      var i :| 0 <= i < |edges| && edges[i] == (s, d);
    }
    assert RankedBy(deps, full);
  }

  /** A key of least rank in a non-empty set. */
  lemma {:induction false} LeastRanked<K>(rank: map<K, nat>, keys: set<K>) returns (m: K)
    requires keys != {} && keys <= rank.Keys
    ensures m in keys && forall k :: k in keys ==> rank[m] <= rank[k]
    decreases keys
  {
    var x :| x in keys;
    if keys == {x} {
      m := x;
    } else {
      var rest := LeastRanked(rank, keys - {x});
      m := if rank[x] < rank[rest] then x else rest;
    }
  }

  /** In an acyclic relation, every non-empty set of keys has a member none of
      whose prerequisites lie in the set. */
  lemma UnblockedMember<K>(deps: map<K, set<K>>, rank: map<K, nat>, keys: set<K>) returns (m: K)
    requires RankedBy(deps, rank)
    requires keys != {} && keys <= deps.Keys
    ensures m in keys && deps[m] !! keys
  {
    m := LeastRanked(rank, keys);
    forall s | s in deps[m]
      ensures s !in keys
    {
      assert rank[s] < rank[m];
    }
  }
}
