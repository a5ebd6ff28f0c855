/**
  The cleanup-task registry of the browser front end: cleanup callbacks registered
  under string ids, in a `Map` that keeps insertion order, run and removed one at a
  time, all ids with the prefix `inactive:` at once (when the tab is hidden), or all
  of them (on unload).

  A callback is an opaque value of type `F`; running it appends it to the log `ran`.
  Callbacks are taken not to call back into the manager. `init` registers the two
  document listeners once; the listeners are recorded by the event they listen for.
 */
module Cleanup {
  import opened Sequences
  import opened Strings
  import opened OrderedMaps
  import OM = OrderedMaps

  /** The document events `init` listens for. */
  datatype Listener = OnUnload | OnVisibilityChange

  /** The manager's state: the cleanup task map, the callbacks run so far, and the `init` flag and its listeners. */
  datatype Manager<F> = Manager(tasks: OrderedMap<F>, ran: seq<F>, isInitialized: bool, listeners: seq<Listener>)

  ghost predicate WellFormed<F>(s: Manager<F>) {
    OM.Valid(s.tasks)
  }

  /** A new manager: no tasks, nothing run, not initialised. */
  function Fresh<F>(): (r: Manager<F>)
    ensures WellFormed(r) && r.tasks.values == map[] && r.ran == [] && !r.isInitialized
  {
    Manager(OM.Empty(), [], false, [])
  }

  /** `init()`: the first call registers the listeners and sets the flag; later calls do nothing. */
  function InitStep<F>(s: Manager<F>): (r: Manager<F>)
    ensures r.isInitialized && r.tasks == s.tasks && r.ran == s.ran
    ensures s.isInitialized ==> r == s
    ensures !s.isInitialized ==> r.listeners == s.listeners + [OnUnload, OnVisibilityChange]
  {
    if s.isInitialized then s
    else s.(listeners := s.listeners + [OnUnload, OnVisibilityChange], isInitialized := true)
  }

  /** However often `init` is called, each listener is registered exactly once. */
  lemma {:induction false} InitOnce<F>(n: nat)
    requires n > 0
    ensures Inits(Fresh<F>(), n).listeners == [OnUnload, OnVisibilityChange]
    decreases n
  {
    if n > 1 {
      InitOnce<F>(n - 1);
    }
  }

  /** `init` called `n` times in a row. */
  function Inits<F>(s: Manager<F>, n: nat): Manager<F>
    decreases n
  {
    if n == 0 then s else InitStep(Inits(s, n - 1))
  }

  /** `init` is idempotent. */
  lemma InitIdempotent<F>(s: Manager<F>)
    ensures InitStep(InitStep(s)) == InitStep(s)
  {
  }

  // ---------------------------------------------------------------------------
  // The registry operations

  /** `registerCleanup(id, f)`: `f` becomes the cleanup task for `id`, replacing an earlier one. */
  function RegisterStep<F>(s: Manager<F>, id: string, f: F): (r: Manager<F>)
    requires WellFormed(s)
    ensures WellFormed(r) && r.ran == s.ran
    ensures r.isInitialized == s.isInitialized && r.listeners == s.listeners
    ensures id in r.tasks.values && r.tasks.values[id] == f
    // An id already registered keeps its place in insertion order; a new id goes last.
    ensures id in s.tasks.values ==> r.tasks.keys == s.tasks.keys
    ensures id !in s.tasks.values ==> r.tasks.keys == s.tasks.keys + [id]
    ensures forall k :: k != id ==> (k in r.tasks.values <==> k in s.tasks.values)
    ensures forall k :: k != id && k in s.tasks.values ==> r.tasks.values[k] == s.tasks.values[k]
  {
    s.(tasks := OM.Set(s.tasks, id, f))
  }

  /** `executeCleanup(id)`: run the cleanup task for `id`, if there is one, and remove it. */
  function ExecuteStep<F>(s: Manager<F>, id: string): (r: Manager<F>)
    requires WellFormed(s)
    ensures WellFormed(r) && id !in r.tasks.values
    ensures r.isInitialized == s.isInitialized && r.listeners == s.listeners
    // A registered task runs once and is gone; the other ids keep their order.
    ensures id in s.tasks.values ==>
              r.ran == s.ran + [s.tasks.values[id]] && r.tasks.values == s.tasks.values - {id}
    ensures id in s.tasks.values ==> r.tasks.keys == Filter(s.tasks.keys, Other(id))
    // An unregistered id changes nothing.
    ensures id !in s.tasks.values ==> r == s
  {
    if id in s.tasks.values then
      s.(tasks := OM.Delete(s.tasks, id), ran := s.ran + [s.tasks.values[id]])
    else s
  }

  /** An immediate second `executeCleanup` of the same id runs nothing. */
  lemma ExecuteTwice<F>(s: Manager<F>, id: string)
    requires WellFormed(s)
    ensures ExecuteStep(ExecuteStep(s, id), id) == ExecuteStep(s, id)
  {
  }

  /** Registering then executing runs exactly the registered callback. */
  lemma RegisterThenExecute<F>(s: Manager<F>, id: string, f: F)
    requires WellFormed(s)
    ensures ExecuteStep(RegisterStep(s, id, f), id).ran == s.ran + [f]
    ensures ExecuteStep(RegisterStep(s, id, f), id).tasks.values == s.tasks.values - {id}
  {
  }

  /** The prefix of the ids whose tasks run when the tab is hidden. */
  const InactivePrefix: string := "inactive:"

  predicate Inactive(id: string) {
    StartsWith(id, InactivePrefix)
  }

  /** The ids `executeInactiveCleanup` leaves registered. */
  predicate Active(id: string) {
    !Inactive(id)
  }

  /**
    The `forEach` of `executeInactiveCleanup` over the ids `ks`, in order: each inactive
    id's task runs and is deleted. Deleting the entry being visited does not disturb the
    iteration, so every id of the snapshot is visited.
   */
  function InactiveWalk<F>(s: Manager<F>, ks: seq<string>): (r: Manager<F>)
    requires WellFormed(s)
    ensures WellFormed(r)
    ensures r.isInitialized == s.isInitialized && r.listeners == s.listeners
    // Only deletes, and no inactive id of `ks` is left.
    ensures forall k :: k in r.tasks.values ==> k in s.tasks.values && !(k in ks && Inactive(k))
    decreases |ks|
  {
    if ks == [] then s
    else InactiveWalk(if Inactive(ks[0]) then ExecuteStep(s, ks[0]) else s, ks[1..])
  }

  /** `executeInactiveCleanup()`. */
  function ExecuteInactiveStep<F>(s: Manager<F>): (r: Manager<F>)
    requires WellFormed(s)
    ensures WellFormed(r)
  {
    InactiveWalk(s, s.tasks.keys)
  }

  /** One visit of the walk. */
  lemma WalkVisit<F>(s: Manager<F>, ks: seq<string>, s1: Manager<F>)
    requires WellFormed(s) && ks != []
    requires s1 == if Inactive(ks[0]) then ExecuteStep(s, ks[0]) else s
    ensures InactiveWalk(s, ks) == InactiveWalk(s1, ks[1..])
  {
  }

  /** The callbacks registered under `ks`, in that order. */
  function Callbacks<F>(values: map<string, F>, ks: seq<string>): (r: seq<F>)
    requires forall i :: 0 <= i < |ks| ==> ks[i] in values
    ensures |r| == |ks| && forall i :: 0 <= i < |ks| ==> r[i] == values[ks[i]]
  {
    seq(|ks|, i requires 0 <= i < |ks| => values[ks[i]])
  }

  /**
    The walk over distinct registered ids removes exactly the inactive ones among them
    and keeps every other task as it was.
   */
  lemma InactiveWalkKeeps<F>(s: Manager<F>, ks: seq<string>)
    requires WellFormed(s) && Distinct(ks) && forall k :: k in ks ==> k in s.tasks.values
    ensures var r := InactiveWalk(s, ks);
            && (forall k :: k in r.tasks.values <==> k in s.tasks.values && !(k in ks && Inactive(k)))
            && (forall k :: k in r.tasks.values ==> r.tasks.values[k] == s.tasks.values[k])
  {
    InactiveWalkKeys(s, ks);
    InactiveWalkValues(s, ks);
  }

  lemma {:induction false} InactiveWalkKeys<F>(s: Manager<F>, ks: seq<string>)
    requires WellFormed(s) && Distinct(ks) && forall k :: k in ks ==> k in s.tasks.values
    ensures forall k :: k in InactiveWalk(s, ks).tasks.values <==> k in s.tasks.values && !(k in ks && Inactive(k))
    decreases |ks|
  {
    if ks != [] {
      var k := ks[0];
      var rest := ks[1..];
      assert ks == [k] + rest;
      var s1 := if Inactive(k) then ExecuteStep(s, k) else s;
      assert k !in rest;
      InactiveWalkKeys(s1, rest);
    }
  }

  lemma {:induction false} InactiveWalkValues<F>(s: Manager<F>, ks: seq<string>)
    requires WellFormed(s)
    ensures forall k :: k in InactiveWalk(s, ks).tasks.values ==>
              k in s.tasks.values && InactiveWalk(s, ks).tasks.values[k] == s.tasks.values[k]
    decreases |ks|
  {
    if ks != [] {
      var s1 := if Inactive(ks[0]) then ExecuteStep(s, ks[0]) else s;
      InactiveWalkValues(s1, ks[1..]);
    }
  }

  /**
    Walking the last ids `ks` of the registry leaves the ids before them, then the active
    ids among `ks`, each in its registration order.
   */
  lemma {:induction false} InactiveWalkOrder<F>(s: Manager<F>, p: seq<string>, ks: seq<string>)
    requires WellFormed(s) && s.tasks.keys == p + ks
    ensures InactiveWalk(s, ks).tasks.keys == p + Filter(ks, Active)
    decreases |ks|
  {
    if ks == [] {
      assert p + [] == p;
    } else {
      var s1 := if Inactive(ks[0]) then ExecuteStep(s, ks[0]) else s;
      var p1 := if Inactive(ks[0]) then p else p + [ks[0]];
      VisitOrder(s, p, ks);
      InactiveWalkOrder(s1, p1, ks[1..]);
    }
  }

  /**
    One visit keeps the registry as the ids kept so far followed by the ids still to
    visit, and moves the visited id to the kept ones when it is active.
   */
  lemma VisitOrder<F>(s: Manager<F>, p: seq<string>, ks: seq<string>)
    requires WellFormed(s) && ks != [] && s.tasks.keys == p + ks
    ensures var s1 := if Inactive(ks[0]) then ExecuteStep(s, ks[0]) else s;
            var p1 := if Inactive(ks[0]) then p else p + [ks[0]];
            && s1.tasks.keys == p1 + ks[1..]
            && InactiveWalk(s, ks) == InactiveWalk(s1, ks[1..])
            && p + Filter(ks, Active) == p1 + Filter(ks[1..], Active)
  {
    var k, rest := ks[0], ks[1..];
    assert ks == [k] + rest;
    FilterFront(k, rest);
    if Inactive(k) {
      WalkVisit(s, ks, ExecuteStep(s, k));
      ExecuteVisited(s, p, k, rest);
    } else {
      WalkVisit(s, ks, s);
      assert (p + [k]) + Filter(rest, Active) == p + ([k] + Filter(rest, Active));
      assert s.tasks.keys == (p + [k]) + rest;
    }
  }

  lemma ExecuteVisited<F>(s: Manager<F>, p: seq<string>, k: string, rest: seq<string>)
    requires WellFormed(s) && s.tasks.keys == p + ([k] + rest)
    ensures ExecuteStep(s, k).tasks.keys == p + rest
  {
    assert s.tasks.keys == p + [k] + rest;
    assert k in s.tasks.values;
    DeleteVisited(s.tasks.keys, p, k, rest);
  }

  lemma FilterFront(k: string, rest: seq<string>)
    ensures Filter([k] + rest, Active) == if Active(k) then [k] + Filter(rest, Active) else Filter(rest, Active)
  {
    FilterAppend([k], rest, Active);
    FilterSingle(k, Active);
    if !Active(k) {
      assert [] + Filter(rest, Active) == Filter(rest, Active);
    }
  }

  /** Deleting the id being visited from a list of distinct ids leaves those before and after it. */
  lemma DeleteVisited(keys: seq<string>, p: seq<string>, k: string, rest: seq<string>)
    requires Distinct(keys) && keys == p + [k] + rest
    ensures Filter(keys, Other(k)) == p + rest
  {
    assert k !in p by {
      assert forall i :: 0 <= i < |p| ==> p[i] == keys[i];
      assert keys[|p|] == k;
    }
    assert k !in rest by {
      assert forall i :: 0 <= i < |rest| ==> rest[i] == keys[|p| + 1 + i];
      assert keys[|p|] == k;
    }
    FilterAppend(p + [k], rest, Other(k));
    FilterAppend(p, [k], Other(k));
    FilterSingle(k, Other(k));
    FilterAllOrNone(p, Other(k));
    FilterAllOrNone(rest, Other(k));
    assert p + [] == p;
  }

  /** The walk runs the cleanup tasks of the inactive ids among `ks`, in the order of `ks`. */
  lemma {:induction false} InactiveWalkRuns<F>(s: Manager<F>, ks: seq<string>)
    requires WellFormed(s) && Distinct(ks) && forall k :: k in ks ==> k in s.tasks.values
    ensures InactiveWalk(s, ks).ran == s.ran + Callbacks(s.tasks.values, Filter(ks, Inactive))
    decreases |ks|
  {
    if ks == [] {
      assert s.ran + [] == s.ran;
    } else {
      var k := ks[0];
      var rest := ks[1..];
      assert ks == [k] + rest;
      var s1 := if Inactive(k) then ExecuteStep(s, k) else s;
      assert k !in rest;
      assert forall x :: x in rest ==> x in s1.tasks.values;
      InactiveWalkRuns(s1, rest);
      RunsStep(s, k, rest);
    }
  }

  /** One visit of the walk, on the log. */
  lemma RunsStep<F>(s: Manager<F>, k: string, rest: seq<string>)
    requires WellFormed(s) && k !in rest && forall x :: x in [k] + rest ==> x in s.tasks.values
    ensures var s1 := if Inactive(k) then ExecuteStep(s, k) else s;
            && (forall x :: x in rest ==> x in s1.tasks.values)
            && s1.ran + Callbacks(s1.tasks.values, Filter(rest, Inactive))
               == s.ran + Callbacks(s.tasks.values, Filter([k] + rest, Inactive))
  {
    CallbacksFront(s.tasks.values, k, rest);
    if Inactive(k) {
      RunsStepInactive(s, k, rest);
    } else {
      var tail := Callbacks(s.tasks.values, Filter(rest, Inactive));
      assert [] + tail == tail;
    }
  }

  lemma RunsStepInactive<F>(s: Manager<F>, k: string, rest: seq<string>)
    requires WellFormed(s) && k !in rest && k in s.tasks.values && forall x :: x in rest ==> x in s.tasks.values
    ensures ExecuteStep(s, k).ran + Callbacks(ExecuteStep(s, k).tasks.values, Filter(rest, Inactive))
            == s.ran + ([s.tasks.values[k]] + Callbacks(s.tasks.values, Filter(rest, Inactive)))
  {
    var v := s.tasks.values;
    var s1 := ExecuteStep(s, k);
    var run := Filter(rest, Inactive);
    var c := Callbacks(v, run);
    assert s1.ran == s.ran + [v[k]];
    assert Callbacks(s1.tasks.values, run) == c by {
      assert s1.tasks.values == v - {k};
      forall x | x in run
        ensures x in v - {k} && x in v && (v - {k})[x] == v[x]
      {
      }
      CallbacksAgree(v - {k}, v, run);
    }
    SeqAssoc(s.ran, [v[k]], c);
  }

  lemma SeqAssoc<T>(a: seq<T>, b: seq<T>, c: seq<T>)
    ensures (a + b) + c == a + (b + c)
  {
  }

  lemma CallbacksAgree<F>(v1: map<string, F>, v2: map<string, F>, ks: seq<string>)
    requires forall k :: k in ks ==> k in v1 && k in v2 && v1[k] == v2[k]
    ensures Callbacks(v1, ks) == Callbacks(v2, ks)
  {
  }

  lemma CallbacksFront<F>(values: map<string, F>, k: string, rest: seq<string>)
    requires forall x :: x in [k] + rest ==> x in values
    ensures Callbacks(values, Filter([k] + rest, Inactive))
            == (if Inactive(k) then [values[k]] else []) + Callbacks(values, Filter(rest, Inactive))
  {
    FilterAppend([k], rest, Inactive);
    FilterSingle(k, Inactive);
    var front, back := Filter([k], Inactive), Filter(rest, Inactive);
    CallbacksAppend(values, front, back);
    assert Callbacks(values, front) == if Inactive(k) then [values[k]] else [];
  }

  lemma CallbacksAppend<F>(values: map<string, F>, a: seq<string>, b: seq<string>)
    requires forall x :: x in a + b ==> x in values
    ensures Callbacks(values, a + b) == Callbacks(values, a) + Callbacks(values, b)
  {
    assert forall i :: 0 <= i < |a| ==> a[i] in a + b;
    assert forall i :: 0 <= i < |b| ==> b[i] in a + b;
  }

  /**
    `executeInactiveCleanup` runs the cleanup tasks of exactly the `inactive:` ids, in registry
    order, removes them, and leaves every other task registered as it was.
   */
  lemma ExecuteInactiveEffect<F>(s: Manager<F>)
    requires WellFormed(s)
    ensures var r := ExecuteInactiveStep(s);
            && (forall k :: k in r.tasks.values <==> k in s.tasks.values && !Inactive(k))
            && (forall k :: k in r.tasks.values ==> r.tasks.values[k] == s.tasks.values[k])
            && r.ran == s.ran + Callbacks(s.tasks.values, Filter(s.tasks.keys, Inactive))
            // The kept tasks keep their registration order, which a later `clearAll` follows.
            && r.tasks.keys == Filter(s.tasks.keys, Active)
            && r.isInitialized == s.isInitialized && r.listeners == s.listeners
  {
    InactiveWalkOrder(s, [], s.tasks.keys);
    assert [] + s.tasks.keys == s.tasks.keys;
    InactiveWalkKeeps(s, s.tasks.keys);
    InactiveWalkRuns(s, s.tasks.keys);
  }

  /** `clearAll()`: run every task in registry order, then empty the map. */
  function ClearAllStep<F>(s: Manager<F>): (r: Manager<F>)
    requires WellFormed(s)
    ensures WellFormed(r) && r.tasks.values == map[] && r.tasks.keys == []
    ensures r.isInitialized == s.isInitialized && r.listeners == s.listeners
    ensures r.ran == s.ran + Callbacks(s.tasks.values, s.tasks.keys)
    ensures |r.ran| == |s.ran| + |s.tasks.values|
  {
    OM.SizeIsKeyCount(s.tasks);
    s.(tasks := OM.Empty(), ran := s.ran + Callbacks(s.tasks.values, s.tasks.keys))
  }

  // ---------------------------------------------------------------------------
  // The manager object

  class CleanupManager<F> {
    var tasks: OrderedMap<F>
    var isInitialized: bool
    /** The callbacks run so far, oldest first. */
    var ran: seq<F>
    /** The document listeners registered so far. */
    var listeners: seq<Listener>

    function State(): Manager<F>
      reads this
    {
      Manager(tasks, ran, isInitialized, listeners)
    }

    ghost predicate Valid()
      reads this
    {
      WellFormed(State())
    }

    constructor ()
      ensures Valid() && State() == Fresh()
    {
      tasks := OM.Empty();
      isInitialized := false;
      ran := [];
      listeners := [];
    }

    method Init()
      requires Valid()
      modifies this
      ensures Valid() && State() == InitStep(old(State()))
    {
      if isInitialized {
        return;
      }
      listeners := listeners + [OnUnload, OnVisibilityChange];
      isInitialized := true;
    }

    method RegisterCleanup(id: string, f: F)
      requires Valid()
      modifies this
      ensures Valid() && State() == RegisterStep(old(State()), id, f)
    {
      tasks := OM.Set(tasks, id, f);
    }

    method ExecuteCleanup(id: string)
      requires Valid()
      modifies this
      ensures Valid() && State() == ExecuteStep(old(State()), id)
    {
      if id in tasks.values {
        var f := tasks.values[id];
        ran := ran + [f];
        tasks := OM.Delete(tasks, id);
      }
    }

    method ExecuteInactiveCleanup()
      requires Valid()
      modifies this
      ensures Valid() && State() == ExecuteInactiveStep(old(State()))
    {
      var keys := tasks.keys;
      var i := 0;
      while i < |keys|
        invariant 0 <= i <= |keys|
        invariant Valid() && Distinct(keys)
        invariant forall j :: i <= j < |keys| ==> keys[j] in tasks.values
        invariant InactiveWalk(State(), keys[i..]) == ExecuteInactiveStep(old(State()))
      {
        ghost var before := State();
        VisitInactive(keys[i]);
        WalkVisit(before, keys[i..], State());
        assert keys[i..][1..] == keys[i + 1..];
        assert forall j :: i < j < |keys| ==> keys[j] != keys[i];
        i := i + 1;
      }
    }

    /** The `forEach` callback of `executeInactiveCleanup`, for the entry `id`. */
    method VisitInactive(id: string)
      requires Valid() && id in tasks.values
      modifies this
      ensures Valid() && State() == if Inactive(id) then ExecuteStep(old(State()), id) else old(State())
    {
      if StartsWith(id, InactivePrefix) {
        var f := tasks.values[id];
        ran := ran + [f];
        tasks := OM.Delete(tasks, id);
      }
    }

    method ClearAll()
      requires Valid()
      modifies this
      ensures Valid() && State() == ClearAllStep(old(State()))
    {
      var keys := tasks.keys;
      var i := 0;
      while i < |keys|
        invariant 0 <= i <= |keys|
        invariant tasks == old(tasks) && keys == tasks.keys && Valid()
        invariant isInitialized == old(isInitialized) && listeners == old(listeners)
        invariant forall j :: 0 <= j < |keys| ==> keys[j] in tasks.values
        invariant ran == old(ran) + Callbacks(tasks.values, keys[..i])
      {
        ran := ran + [tasks.values[keys[i]]];
        i := i + 1;
      }
      assert keys[..i] == keys;
      tasks := OM.Empty();
    }
  }
}
