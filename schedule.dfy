/**
 The observable history of one run of the executor: the order in which nodes
 are started and in which their completions are taken from the in-flight set,
 and the rule every such history must follow.
 */
module Schedule {

  datatype Event<K> = Start(key: K) | Finish(key: K)

  /** The keys started somewhere in `t`. */
  function Started<K>(t: seq<Event<K>>): set<K>
    decreases |t|
  {
    if t == [] then {} else Started(t[..|t| - 1]) + (if t[|t| - 1].Start? then {t[|t| - 1].key} else {})
  }

  /** The keys whose completion was taken somewhere in `t`. */
  function Finished<K>(t: seq<Event<K>>): set<K>
    decreases |t|
  {
    if t == [] then {} else Finished(t[..|t| - 1]) + (if t[|t| - 1].Finish? then {t[|t| - 1].key} else {})
  }

  /** `e` may follow the history `prefix`: a node starts once, and only after
      every prerequisite in `deps` has completed; a completion is taken once,
      and only from a node that is running. */
  ghost predicate Admissible<K>(prefix: seq<Event<K>>, e: Event<K>, deps: map<K, set<K>>)
  {
    match e
    case Start(k) => k in deps && k !in Started(prefix) && deps[k] <= Finished(prefix)
    case Finish(k) => k in Started(prefix) && k !in Finished(prefix)
  }

  /** Every event of `t` is admissible after the events before it. */
  ghost predicate Legal<K>(t: seq<Event<K>>, deps: map<K, set<K>>)
    decreases |t|
  {
    t == [] || (Legal(t[..|t| - 1], deps) && Admissible(t[..|t| - 1], t[|t| - 1], deps))
  }

  /** Appending an admissible event keeps a history legal, and adds its key to
      the started or the finished keys. */
  lemma Extend<K>(t: seq<Event<K>>, e: Event<K>, deps: map<K, set<K>>)
    requires Legal(t, deps) && Admissible(t, e, deps)
    ensures Legal(t + [e], deps)
    ensures Started(t + [e]) == Started(t) + (if e.Start? then {e.key} else {})
    ensures Finished(t + [e]) == Finished(t) + (if e.Finish? then {e.key} else {})
  {
    assert (t + [e])[..|t|] == t;
  }

  /** A key is started in `t` exactly when some event of `t` starts it. */
  lemma {:induction false} StartedAt<K>(t: seq<Event<K>>, k: K)
    ensures k in Started(t) <==> exists i :: 0 <= i < |t| && t[i] == Start(k)
    decreases |t|
  {
    if t != [] {
      var p := t[..|t| - 1];
      StartedAt(p, k);
      if k in Started(p) {
        var i :| 0 <= i < |p| && p[i] == Start(k);
        assert t[i] == Start(k);
      }
      if exists i :: 0 <= i < |t| && t[i] == Start(k) {
        var i :| 0 <= i < |t| && t[i] == Start(k);
        if i < |p| {
          assert p[i] == Start(k);
        }
      }
    }
  }

  /** A key is finished in `t` exactly when some event of `t` finishes it. */
  lemma {:induction false} FinishedAt<K>(t: seq<Event<K>>, k: K)
    ensures k in Finished(t) <==> exists i :: 0 <= i < |t| && t[i] == Finish(k)
    decreases |t|
  {
    if t != [] {
      var p := t[..|t| - 1];
      FinishedAt(p, k);
      if k in Finished(p) {
        var i :| 0 <= i < |p| && p[i] == Finish(k);
        assert t[i] == Finish(k);
      }
      if exists i :: 0 <= i < |t| && t[i] == Finish(k) {
        var i :| 0 <= i < |t| && t[i] == Finish(k);
        if i < |p| {
          assert p[i] == Finish(k);
        }
      }
    }
  }

  /** In a legal history every completed key was started. */
  lemma {:induction false} FinishedWereStarted<K>(t: seq<Event<K>>, deps: map<K, set<K>>)
    requires Legal(t, deps)
    ensures Finished(t) <= Started(t)
    decreases |t|
  {
    if t != [] {
      FinishedWereStarted(t[..|t| - 1], deps);
    }
  }

  /** Only keys of `deps` are started in a legal history. */
  lemma {:induction false} StartedAreKnown<K>(t: seq<Event<K>>, deps: map<K, set<K>>)
    requires Legal(t, deps)
    ensures Started(t) <= deps.Keys
    decreases |t|
  {
    if t != [] {
      StartedAreKnown(t[..|t| - 1], deps);
    }
  }

  /** Ordering: when a node starts, every one of its prerequisites has already
      completed, at an earlier position of the history. */
  lemma {:induction false} PrerequisitesFinishFirst<K>(t: seq<Event<K>>, deps: map<K, set<K>>, i: nat, s: K)
    requires Legal(t, deps)
    requires i < |t| && t[i].Start? && t[i].key in deps && s in deps[t[i].key]
    ensures exists j :: 0 <= j < i && t[j] == Finish(s)
    decreases |t|
  {
    var p := t[..|t| - 1];
    if i == |t| - 1 {
      FinishedAt(p, s);
      var j :| 0 <= j < |p| && p[j] == Finish(s);
      assert t[j] == Finish(s);
    } else {
      assert p[i] == t[i];
      PrerequisitesFinishFirst(p, deps, i, s);
      var j :| 0 <= j < i && p[j] == Finish(s);
      assert t[j] == Finish(s);
    }
  }

  /** No double start: two start events of a legal history name different keys. */
  lemma {:induction false} StartsAreDistinct<K>(t: seq<Event<K>>, deps: map<K, set<K>>, i: nat, j: nat)
    requires Legal(t, deps)
    requires i < j < |t| && t[i].Start? && t[j].Start?
    ensures t[i].key != t[j].key
    decreases |t|
  {
    var p := t[..|t| - 1];
    assert p[i] == t[i];
    if j == |t| - 1 {
      StartedAt(p, t[i].key);
    } else {
      assert p[j] == t[j];
      StartsAreDistinct(p, deps, i, j);
    }
  }

  /** A completion is taken only from a node started earlier in the history. */
  lemma {:induction false} FinishFollowsStart<K>(t: seq<Event<K>>, deps: map<K, set<K>>, j: nat)
    requires Legal(t, deps)
    requires j < |t| && t[j].Finish?
    ensures exists i :: 0 <= i < j && t[i] == Start(t[j].key)
    decreases |t|
  {
    var p := t[..|t| - 1];
    if j == |t| - 1 {
      StartedAt(p, t[j].key);
      var i :| 0 <= i < |p| && p[i] == Start(t[j].key);
      assert t[i] == p[i];
    } else {
      assert p[j] == t[j];
      FinishFollowsStart(p, deps, j);
      var i :| 0 <= i < j && p[i] == Start(t[j].key);
      assert t[i] == p[i];
    }
  }
}
