/** The decision `App._maybe_start_deploy` takes (main.py:585-632): the
    busy, empty-queue, debounce and bundle-window gates, the batch of ready
    mods, and the names dropped when none of them is enabled any more. */
module Scheduler {
  import opened Maybe
  import opened Pending
  import opened WatchState

  /** `_pending_earliest`: the oldest change time in the queue. */
  function Earliest(q: Queue): (r: int)
    requires q != []
    ensures forall i :: 0 <= i < |q| ==> r <= q[i].1
    ensures exists i :: 0 <= i < |q| && q[i].1 == r
  {
    if |q| == 1 then q[0].1
    else
      var m := Earliest(q[1..]);
      assert forall i :: 1 <= i < |q| ==> q[i] == q[1..][i - 1];
      if q[0].1 <= m then q[0].1 else m
  }

  /** Whether a queued change has been stable for the debounce period. */
  predicate Stable(t: int, now: int, debounce: int) {
    now - t >= debounce
  }

  /** The names whose change is stable, in queue order. */
  function ReadyNames(q: Queue, now: int, debounce: int): (r: seq<string>)
    ensures |r| <= |q|
  {
    if q == [] then []
    else (if Stable(q[0].1, now, debounce) then [q[0].0] else []) + ReadyNames(q[1..], now, debounce)
  }

  /** `{m.name: m for m in mods if m.enabled}[name]`: the last enabled mod
      of that name, as a later key overwrites an earlier one. */
  function EnabledMod(mods: seq<ModWatch>, name: string): (r: Option<ModWatch>)
    ensures r.Some? ==> r.value.enabled && r.value.name == name && r.value in mods
  {
    if mods == [] then None
    else
      var m := mods[|mods| - 1];
      if m.enabled && m.name == name then Some(m) else EnabledMod(mods[..|mods| - 1], name)
  }

  /** The mods of the ready names that still have an enabled mod, in order. */
  function Batch(ready: seq<string>, mods: seq<ModWatch>): (r: seq<ModWatch>)
    ensures |r| <= |ready|
  {
    if ready == [] then []
    else
      var rest := Batch(ready[1..], mods);
      match EnabledMod(mods, ready[0])
      case Some(m) => [m] + rest
      case None => rest
  }

  datatype Decision =
    | Busy
    | NothingPending
    | Debouncing
    | Bundling
    | NoneReady
    | DropDisabled(names: seq<string>)
    | Dispatch(batch: seq<ModWatch>)

  /** What `_maybe_start_deploy` does, gate by gate. */
  function Schedule(busy: bool, q: Queue, mods: seq<ModWatch>, now: int, debounce: int, bundle: int): Decision
  {
    if busy then Busy
    else if q == [] then NothingPending
    else
      var earliest := Earliest(q);
      if now - earliest < debounce then Debouncing
      else if now < earliest + debounce + bundle then Bundling
      else
        var ready := ReadyNames(q, now, debounce);
        if ready == [] then NoneReady
        else
          var batch := Batch(ready, mods);
          if batch == [] then DropDisabled(ready) else Dispatch(batch)
  }

  /** A name is ready exactly when it is queued with a stable change time. */
  lemma {:induction false} ReadyNamesIff(q: Queue, now: int, debounce: int, name: string)
    ensures name in ReadyNames(q, now, debounce) <==>
      exists i :: 0 <= i < |q| && q[i].0 == name && Stable(q[i].1, now, debounce)
  {
    if q != [] {
      ReadyNamesIff(q[1..], now, debounce, name);
      if exists i :: 0 <= i < |q| && q[i].0 == name && Stable(q[i].1, now, debounce) {
        var i :| 0 <= i < |q| && q[i].0 == name && Stable(q[i].1, now, debounce);
        if i > 0 {
          assert q[1..][i - 1] == q[i];
        }
      }
      if exists i :: 0 <= i < |q[1..]| && q[1..][i].0 == name && Stable(q[1..][i].1, now, debounce) {
        var i :| 0 <= i < |q[1..]| && q[1..][i].0 == name && Stable(q[1..][i].1, now, debounce);
        assert q[i + 1] == q[1..][i];
      }
    }
  }

  /** Once the oldest change is stable, it is ready, so the ready list is
      never empty past the gates: the `not ready_names` return cannot fire. */
  lemma EarliestIsReady(q: Queue, now: int, debounce: int)
    requires q != [] && now - Earliest(q) >= debounce
    ensures ReadyNames(q, now, debounce) != []
  {
    var i :| 0 <= i < |q| && q[i].1 == Earliest(q);
    ReadyNamesIff(q, now, debounce, q[i].0);
  }

  /** The scheduler acts (dispatches a batch or drops names) exactly when it
      is not busy, the queue is not empty, the oldest change is stable and
      the bundle window after it has passed. It never ends up at `NoneReady`. */
  lemma ScheduleGates(busy: bool, q: Queue, mods: seq<ModWatch>, now: int, debounce: int, bundle: int)
    ensures var d := Schedule(busy, q, mods, now, debounce, bundle);
      (d.Dispatch? || d.DropDisabled?) <==>
        !busy && q != [] && now - Earliest(q) >= debounce && now >= Earliest(q) + debounce + bundle
    ensures !Schedule(busy, q, mods, now, debounce, bundle).NoneReady?
  {
    if !busy && q != [] && now - Earliest(q) >= debounce {
      EarliestIsReady(q, now, debounce);
    }
  }

  /** A ready name is in the batch exactly when it has an enabled mod, and
      every mod of the batch is that enabled mod of a ready name. */
  lemma {:induction false} BatchMembers(ready: seq<string>, mods: seq<ModWatch>)
    ensures forall m :: m in Batch(ready, mods) ==>
      m.enabled && m in mods && m.name in ready && EnabledMod(mods, m.name) == Some(m)
    ensures forall n :: n in ready && EnabledMod(mods, n).Some? ==> EnabledMod(mods, n).value in Batch(ready, mods)
  {
    if ready != [] {
      BatchMembers(ready[1..], mods);
    }
  }

  /** The batch is empty exactly when no ready name has an enabled mod. */
  lemma {:induction false} BatchEmpty(ready: seq<string>, mods: seq<ModWatch>)
    ensures Batch(ready, mods) == [] <==> forall n :: n in ready ==> EnabledMod(mods, n).None?
  {
    if ready != [] {
      BatchEmpty(ready[1..], mods);
      assert ready[0] in ready;
      assert forall n :: n in ready[1..] ==> n in ready;
      assert forall n :: n in ready ==> n == ready[0] || n in ready[1..];
    }
  }

  /** No name occurs twice. */
  predicate Distinct(s: seq<string>) {
    forall i, j :: 0 <= i < j < |s| ==> s[i] != s[j]
  }

  /** No two mods share a name. */
  predicate DistinctNames(b: seq<ModWatch>) {
    forall i, j :: 0 <= i < j < |b| ==> b[i].name != b[j].name
  }

  /** Distinct ready names give a batch of distinct mods' names. */
  lemma {:induction false} BatchUnique(ready: seq<string>, mods: seq<ModWatch>)
    requires Distinct(ready)
    ensures DistinctNames(Batch(ready, mods))
  {
    if ready != [] {
      var tail := ready[1..];
      assert Distinct(tail) by {
        forall i, j | 0 <= i < j < |tail| ensures tail[i] != tail[j] {
          assert tail[i] == ready[i + 1] && tail[j] == ready[j + 1];
        }
      }
      BatchUnique(tail, mods);
      BatchMembers(tail, mods);
      var rest := Batch(tail, mods);
      assert ready[0] !in tail by {
        forall k | 0 <= k < |tail| ensures tail[k] != ready[0] {
          assert tail[k] == ready[k + 1];
        }
      }
      match EnabledMod(mods, ready[0])
      case None =>
        assert Batch(ready, mods) == rest;
      case Some(m) =>
        var b := [m] + rest;
        assert Batch(ready, mods) == b;
        forall i, j | 0 <= i < j < |b| ensures b[i].name != b[j].name {
          assert b[j] == rest[j - 1];
          assert rest[j - 1] in rest;
          if i > 0 {
            assert b[i] == rest[i - 1];
          } else {
            assert b[i].name == ready[0];
            assert rest[j - 1].name in tail;
          }
        }
    }
  }

  /** Ready names come from a queue with distinct names, so they are distinct. */
  lemma {:induction false} ReadyUnique(q: Queue, now: int, debounce: int)
    requires UniqueKeys(q)
    ensures Distinct(ReadyNames(q, now, debounce))
  {
    if q != [] {
      assert UniqueKeys(q[1..]) by {
        forall i, j | 0 <= i < j < |q[1..]| ensures q[1..][i].0 != q[1..][j].0 {
          assert q[1..][i] == q[i + 1] && q[1..][j] == q[j + 1];
        }
      }
      ReadyUnique(q[1..], now, debounce);
      var r := ReadyNames(q, now, debounce);
      var rest := ReadyNames(q[1..], now, debounce);
      HeadNotInTail(q);
      ReadyNamesIff(q[1..], now, debounce, q[0].0);
      assert q[0].0 !in rest;
      forall i, j | 0 <= i < j < |r| ensures r[i] != r[j] {
        if Stable(q[0].1, now, debounce) {
          assert r[j] == rest[j - 1];
          assert rest[j - 1] in rest;
          if i > 0 {
            assert r[i] == rest[i - 1];
          }
        }
      }
    }
  }

  /** When the scheduler dispatches, the batch is the enabled mods of the
      ready names, in queue order and with distinct names; when it drops,
      it drops exactly the ready names, none of which has an enabled mod. */
  lemma ScheduleOutcome(busy: bool, q: Queue, mods: seq<ModWatch>, now: int, debounce: int, bundle: int)
    requires UniqueKeys(q)
    ensures var d := Schedule(busy, q, mods, now, debounce, bundle);
      d.Dispatch? ==> (d.batch != [] && d.batch == Batch(ReadyNames(q, now, debounce), mods) &&
                       DistinctNames(d.batch))
    ensures var d := Schedule(busy, q, mods, now, debounce, bundle);
      d.DropDisabled? ==> (d.names == ReadyNames(q, now, debounce) &&
                           forall n :: n in d.names ==> EnabledMod(mods, n).None?)
  {
    var ready := ReadyNames(q, now, debounce);
    ReadyUnique(q, now, debounce);
    BatchUnique(ready, mods);
    BatchEmpty(ready, mods);
  }

  /** The queue after the decision: a drop pops every ready name, any other
      decision leaves the queue as it is. */
  function PendingAfter(d: Decision, q: Queue): Queue {
    if d.DropDisabled? then PopAll(q, d.names) else q
  }

  /** After a drop, exactly the ready names are gone and every other queued
      name keeps its time; after any other decision the queue is unchanged. */
  lemma DropEffect(busy: bool, q: Queue, mods: seq<ModWatch>, now: int, debounce: int, bundle: int, other: string)
    ensures var d := Schedule(busy, q, mods, now, debounce, bundle);
      d.DropDisabled? ==> (Lookup(PendingAfter(d, q), other) ==
                           if other in ReadyNames(q, now, debounce) then None else Lookup(q, other))
    ensures var d := Schedule(busy, q, mods, now, debounce, bundle);
      !d.DropDisabled? ==> PendingAfter(d, q) == q
  {
    var d := Schedule(busy, q, mods, now, debounce, bundle);
    if d.DropDisabled? {
      PopAllLookup(q, d.names, other);
    }
  }

  /** Scanning the queue front to back collects the ready names in order. */
  lemma {:induction false} ReadyNamesAppend(a: Queue, b: Queue, now: int, debounce: int)
    ensures ReadyNames(a + b, now, debounce) == ReadyNames(a, now, debounce) + ReadyNames(b, now, debounce)
  {
    if a != [] {
      assert (a + b)[1..] == a[1..] + b;
      ReadyNamesAppend(a[1..], b, now, debounce);
      var h := if Stable(a[0].1, now, debounce) then [a[0].0] else [];
      var ra := ReadyNames(a[1..], now, debounce);
      var rb := ReadyNames(b, now, debounce);
      assert ReadyNames(a + b, now, debounce) == h + (ra + rb);
      assert h + (ra + rb) == (h + ra) + rb;
    } else {
      assert a + b == b;
    }
  }

  /** Walking the ready names front to back collects the batch in order. */
  lemma {:induction false} BatchAppend(a: seq<string>, b: seq<string>, mods: seq<ModWatch>)
    ensures Batch(a + b, mods) == Batch(a, mods) + Batch(b, mods)
  {
    if a != [] {
      assert (a + b)[0] == a[0];
      assert (a + b)[1..] == a[1..] + b;
      BatchAppend(a[1..], b, mods);
      match EnabledMod(mods, a[0])
      case Some(m) =>
        assert Batch(a + b, mods) == [m] + Batch(a[1..] + b, mods);
        assert [m] + (Batch(a[1..], mods) + Batch(b, mods)) == ([m] + Batch(a[1..], mods)) + Batch(b, mods);
      case None =>
        assert Batch(a + b, mods) == Batch(a[1..] + b, mods);
    } else {
      assert a + b == b;
    }
  }

  /** With a debounce of 60 seconds and no bundle window, a change at time 0
      is still settling at 59 and dispatched at 60. */
  lemma DebounceExample(m: ModWatch)
    requires m.enabled
    ensures Schedule(false, [(m.name, 0)], [m], 59, 60, 0) == Debouncing
    ensures Schedule(false, [(m.name, 0)], [m], 60, 60, 0) == Dispatch([m])
  {
    assert ReadyNames([(m.name, 0)], 60, 60) == [m.name];
  }

  /** With a debounce of 60 and a bundle window of 30, changes at 0 and 50
      still wait at 89: the window after the oldest change runs to 90. */
  lemma BundleWaits(a: ModWatch, b: ModWatch)
    ensures Schedule(false, [(a.name, 0), (b.name, 50)], [a, b], 89, 60, 30) == Bundling
  {
    var q: Queue := [(a.name, 0), (b.name, 50)];
    assert q[1..] == [(b.name, 50)];
    assert Earliest(q) == 0;
  }

  /** At 90 only the change at 0 is ready: the one at 50 has not been
      stable for 60 seconds yet, so it stays queued for a later batch. */
  lemma BundleFirst(a: ModWatch, b: ModWatch)
    requires a.enabled && a.name != b.name
    ensures Schedule(false, [(a.name, 0), (b.name, 50)], [a, b], 90, 60, 30) == Dispatch([a])
  {
    var q: Queue := [(a.name, 0), (b.name, 50)];
    assert q[1..] == [(b.name, 50)];
    assert Earliest(q) == 0;
    assert ReadyNames([(b.name, 50)], 90, 60) == [];
    assert ReadyNames(q, 90, 60) == [a.name];
    assert [a, b][..1] == [a];
    assert EnabledMod([a, b], a.name) == Some(a);
    assert Batch([a.name], [a, b]) == [a];
  }

  /** At 110 the changes at 0 and 50 are both ready and go out together, in
      queue order, while a change at 95 waits. */
  lemma BundleBoth(a: ModWatch, b: ModWatch, c: ModWatch)
    requires a.enabled && b.enabled
    requires a.name != b.name && b.name != c.name && a.name != c.name
    ensures Schedule(false, [(a.name, 0), (b.name, 50), (c.name, 95)], [a, b, c], 110, 60, 30) == Dispatch([a, b])
  {
    ReadyAt110(a.name, b.name, c.name);
    BatchOfFirstTwo(a, b, c);
  }

  lemma ReadyAt110(x: string, y: string, z: string)
    ensures var q: Queue := [(x, 0), (y, 50), (z, 95)];
      Earliest(q) == 0 && ReadyNames(q, 110, 60) == [x, y]
  {
    var q: Queue := [(x, 0), (y, 50), (z, 95)];
    var t1: Queue := [(y, 50), (z, 95)];
    var t2: Queue := [(z, 95)];
    assert q[1..] == t1 && t1[1..] == t2 && t2[1..] == [];
    assert Earliest(t1) == 50;
    assert ReadyNames(t2, 110, 60) == [];
    assert ReadyNames(t1, 110, 60) == [y];
  }

  lemma BatchOfFirstTwo(a: ModWatch, b: ModWatch, c: ModWatch)
    requires a.enabled && b.enabled
    requires a.name != b.name && b.name != c.name && a.name != c.name
    ensures Batch([a.name, b.name], [a, b, c]) == [a, b]
  {
    assert [a, b, c][..2] == [a, b];
    assert [a, b][..1] == [a];
    assert EnabledMod([a], a.name) == Some(a);
    assert EnabledMod([a, b], a.name) == Some(a);
    assert EnabledMod([a, b, c], a.name) == Some(a);
    assert EnabledMod([a, b], b.name) == Some(b);
    assert EnabledMod([a, b, c], b.name) == Some(b);
    assert [a.name, b.name][1..] == [b.name];
    assert Batch([b.name], [a, b, c]) == [b];
    assert Batch([a.name, b.name], [a, b, c]) == [a] + [b];
  }

  /** The follow-up check at the end of `_deploy_many` runs while the busy
      lock is still held, so it always stops at the first gate: a mod whose
      change settled during the deploy is not dispatched, though a check
      without the lock would dispatch it. */
  lemma FollowUpSkipped(b: ModWatch)
    requires b.enabled
    ensures Schedule(true, [(b.name, 0)], [b], 90, 60, 30) == Busy
    ensures Schedule(false, [(b.name, 0)], [b], 90, 60, 30) == Dispatch([b])
  {
    assert ReadyNames([(b.name, 0)], 90, 60) == [b.name];
  }

  /** A check made once the lock is released never answers `Busy`, and
      dispatches or drops whenever the queue is past its gates. */
  lemma FollowUpConsidered(q: Queue, mods: seq<ModWatch>, now: int, debounce: int, bundle: int)
    ensures Schedule(false, q, mods, now, debounce, bundle) != Busy
    ensures q != [] && now - Earliest(q) >= debounce && now >= Earliest(q) + debounce + bundle ==>
      var d := Schedule(false, q, mods, now, debounce, bundle); d.Dispatch? || d.DropDisabled?
  {
    ScheduleGates(false, q, mods, now, debounce, bundle);
  }
}
