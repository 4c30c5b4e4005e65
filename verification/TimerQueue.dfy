/** The timers of core/timeout.c: one list of timers per object, a queue of the objects
    that have any, and the identifier generator and expiry branch of the kqueue event
    sink (core/event.c). */
module TimerQueue {

  import opened Lists
  import opened Words
  import Tailq

  // The tick counter wraps, so "not later" is a signed difference.
  predicate Due(tSched: int, t: int) {
    Int32(Uint32(tSched - t)) <= 0
  }

  // A timer scheduled ival ticks ahead is due d ticks later if and only if ival is not more than
  // d, whether the counter has wrapped or not.
  lemma DueAfter(ticks: int, ival: int, d: int)
    requires -0x8000_0000 <= ival - d < 0x8000_0000
    ensures Due(Uint32(ticks + ival), Uint32(ticks + d)) <==> ival <= d
  {
    WrapMinus(ticks + ival, ticks + d);
    SignBack(ival - d);
  }

  class Timer {
    const autoFree: bool
    var obj: TimerObject?
    var tSched: int
    var ival: int
    var id: int
    ghost var stamp: nat  // grows with every insertion into an ordered list

    // AG_InitTimer
    constructor (autoFree: bool)
      ensures obj == null && tSched == 0 && ival == 0 && id == -1 && stamp == 0 && this.autoFree == autoFree
    {
      this.autoFree := autoFree;
      obj, tSched, ival, id, stamp := null, 0, 0, -1, 0;
    }
  }

  class TimerObject {
    var timers: seq<Timer>

    constructor ()
      ensures timers == []
    {
      timers := [];
    }
  }

  // First by time, then first come.
  ghost predicate Fifo(s: seq<Timer>)
    reads s`tSched, s`stamp
  {
    forall i, j :: 0 <= i < j < |s| ==> Before(s[i], s[j])
  }

  ghost predicate FifoBut(s: seq<Timer>, to: Timer)
    reads s`tSched, s`stamp
  {
    forall i, j :: 0 <= i < j < |s| && s[i] != to && s[j] != to ==> Before(s[i], s[j])
  }

  ghost predicate Before(x: Timer, y: Timer)
    reads x`tSched, x`stamp, y`tSched, y`stamp
  {
    x.tSched < y.tSched || (x.tSched == y.tSched && x.stamp < y.stamp)
  }

  // No timer ahead of `to` in its list is scheduled later than it.
  ghost predicate NoneLater(s: seq<Timer>, to: Timer, t: int)
    reads s`tSched
  {
    forall i, j :: 0 <= i < j < |s| && s[j] == to ==> s[i].tSched <= t
  }

  // k is where a timer for time t goes: behind all that are due at t or before.
  ghost predicate Belongs(s: seq<Timer>, k: nat, t: int)
    reads s`tSched
  {
    k <= |s| && (forall i :: 0 <= i < k ==> s[i].tSched <= t) && (k < |s| ==> t < s[k].tSched)
  }

  // The loop of module Tailq on the links of a queue with these times stops where Place does:
  // it asks for the same, and there is one such place.
  lemma SamePlace(list: seq<Timer>, to: Timer, t: int, links: seq<Tailq.Entry>, p: nat, i: nat, k: nat)
    requires Distinct(list) && p <= |list| && if p < |list| then list[p] == to else to !in list
    requires |links| == |list| && forall j :: 0 <= j < |list| ==> links[j].tSched == list[j].tSched
    ensures Tailq.NoneLater(links, p, t) <==> NoneLater(list, to, t)
    ensures Tailq.Belongs(Tailq.Without(links, p), i, t) && Belongs(Dropped(list, to), k, t) ==> i == k
  {
    hide Dropped;
    if p < |list| {
      DroppedAt(list, p, to);
    }
    var a, b := Tailq.Without(links, p), Dropped(list, to);
    assert |a| == |b| && forall j :: 0 <= j < |a| ==> a[j].tSched == b[j].tSched;
  }

  // The insertion loop of AG_AddTimer and AG_ResetTimer
  method Place(list: seq<Timer>, to: Timer) returns (r: seq<Timer>, ghost k: nat)
    requires Distinct(list) && FifoBut(list, to) && NoneLater(list, to, to.tSched)
    requires forall x :: x in list && x != to ==> x.stamp < to.stamp
    ensures k <= |Dropped(list, to)| && r == InsertAt(Dropped(list, to), k, to)
    ensures Belongs(Dropped(list, to), k, to.tSched) && Fifo(r)
  {
    r := list;
    var i := 0;
    while i < |r| && (r[i] == to || r[i].tSched <= to.tSched)
      invariant i <= |r|
      invariant r == list || (r == Dropped(list, to) && to !in r)
      invariant FifoBut(r, to)
      invariant forall j :: 0 <= j < i ==> r[j] != to && r[j].tSched <= to.tSched
      decreases |r|, |r| - i
    {
      if r[i] == to {
        DroppedAt(r, i, to);
        DroppedFifoBut(r, to);
        r := RemoveAt(r, i);
        i := 0;  // goto reinsert
      } else {
        i := i + 1;
      }
    }
    k := i;
    PlacedFifo(r, k, to);
    r := InsertAt(r, i, to);
  }

  lemma {:induction false} DroppedFifo(s: seq<Timer>, to: Timer)
    requires Fifo(s)
    ensures Fifo(Dropped(s, to))
  {
    if s != [] && s[0] != to {
      DroppedFifo(s[1..], to);
      var r := Dropped(s[1..], to);
      forall j | 0 <= j < |r|
        ensures Before(s[0], r[j])
      {
        assert r[j] in s[1..];
      }
    }
  }

  lemma {:induction false} DroppedFifoBut(s: seq<Timer>, to: Timer)
    requires FifoBut(s, to)
    ensures FifoBut(Dropped(s, to), to)
  {
    if s != [] && s[0] != to {
      DroppedFifoBut(s[1..], to);
      var r := Dropped(s[1..], to);
      forall j | 0 <= j < |r| && r[j] != to
        ensures Before(s[0], r[j])
      {
        assert r[j] in s[1..];
      }
    }
  }

  lemma PlacedFifo(s: seq<Timer>, k: nat, to: Timer)
    requires k <= |s| && to !in s && FifoBut(s, to)
    requires forall x :: x in s ==> x.stamp < to.stamp
    requires forall j :: 0 <= j < k ==> s[j].tSched <= to.tSched
    requires k < |s| ==> to.tSched < s[k].tSched
    ensures Fifo(InsertAt(s, k, to))
  {
    var r := InsertAt(s, k, to);
    forall i, j | 0 <= i < j < |r|
      ensures Before(r[i], r[j])
    {
      InsertedAt(s, k, to, i);
      InsertedAt(s, k, to, j);
    }
  }

  // agTimerObjQ, agTimerCount and the sink in use
  class TimerQueue {
    const kqueue: bool  // whether the event sink has timers of its own
    var tobjs: seq<TimerObject>
    var timerCount: int
    ghost var objects: set<TimerObject>  // the objects there are
    ghost var timers: set<Timer>         // the timer structures there are
    ghost var inserts: nat

    constructor (kqueue: bool)
      ensures Valid() && objects == {} && timers == {} && this.kqueue == kqueue
    {
      this.kqueue := kqueue;
      tobjs, timerCount, objects, timers, inserts := [], 0, {}, {}, 0;
    }

    // A timer's obj names the object whose list holds it, once; an object is queued, once,
    // if and only if its list is not empty.
    ghost predicate Queued()
      reads this`objects, this`timers, this`tobjs, objects`timers, timers`obj
    {
      && (forall o, x {:trigger x in o.timers} :: o in objects && x in o.timers ==> x in timers && x.obj == o)
      && (forall x {:trigger x in timers} :: x in timers && x.obj != null ==> x.obj in objects && x in x.obj.timers)
      && (forall o {:trigger Distinct(o.timers)} :: o in objects ==> Distinct(o.timers))
      && Distinct(tobjs)
      && (forall o :: o in tobjs ==> o in objects)
      && (forall o {:trigger o in tobjs} :: o in objects ==> (o in tobjs <==> o.timers != []))
    }

    // Without timers in the sink, each list is in order of time, and first come first.
    ghost predicate Ordered(but: TimerObject?)
      reads this`tobjs, this`inserts, this`objects, this`timers, objects`timers, timers`obj, timers`tSched, timers`stamp
      requires Queued()
    {
      && (forall x {:trigger x.stamp} {:trigger x.tSched} :: x in timers ==>
        x.stamp < inserts && 0 <= x.tSched < 0x1_0000_0000)
      && (!kqueue ==> forall o {:trigger Fifo(o.timers)} :: o in objects && o != but ==>
           assert forall x :: x in o.timers ==> x in timers; Fifo(o.timers))
    }

    // With them, timers in use have different identifiers.
    ghost predicate Identified(but: Timer?)
      reads this`timerCount, this`timers, timers`obj, timers`id
    {
      && 0 <= timerCount < 0x1_0000_0000
      && (forall x {:trigger x.id} :: x in timers ==> -0x8000_0000 <= x.id < 0x8000_0000)
      && (kqueue ==> forall x, y {:trigger x.id, y.id} ::
        x in timers && y in timers && x != y && InUse(x, but) && InUse(y, but) ==> x.id != y.id)
    }

    static ghost predicate InUse(x: Timer, but: Timer?)
      reads x`obj
    {
      x.obj != null && x != but
    }

    ghost predicate Valid()
      reads this, objects`timers, timers
    {
      Queued() && Ordered(null) && Identified(null)
    }

    // AG_ObjectInit: a new object has no timers.
    method NewObject() returns (ob: TimerObject)
      requires Valid()
      modifies this`objects
      ensures Valid() && fresh(ob) && ob.timers == [] && objects == old(objects) + {ob}
    {
      ob := new TimerObject();
      objects := objects + {ob};
    }

    // AG_InitTimer on a timer structure not in use so far
    method NewTimer(autoFree: bool) returns (to: Timer)
      requires Valid()
      modifies this`timers, this`inserts
      ensures Valid() && fresh(to) && to.obj == null && to.autoFree == autoFree && timers == old(timers) + {to}
    {
      to := new Timer(autoFree);
      timers := timers + {to};
      inserts := inserts + 1;
    }

    // ---- Linking and unlinking ----

    // The queue of objects when the list of ob goes from or to no timers.
    static function Requeued(q: seq<TimerObject>, ob: TimerObject, was: seq<Timer>, now: seq<Timer>): seq<TimerObject> {
      if was == [] && now != [] then q + [ob] else if was != [] && now == [] then Dropped(q, ob) else q
    }

    method Link(ob: TimerObject, to: Timer, list: seq<Timer>, ghost k: nat)
      requires Queued() && ob in objects && to in timers && to.obj == null
      requires k <= |ob.timers| && list == InsertAt(ob.timers, k, to)
      modifies this`tobjs, ob`timers, to`obj
      ensures Queued() && to.obj == ob && ob.timers == list
      ensures tobjs == Requeued(old(tobjs), ob, old(ob.timers), list)
    {
      DistinctInsert(ob.timers, k, to);
      if ob.timers == [] {
        assert ob !in tobjs;
        tobjs := tobjs + [ob];
      }
      to.obj := ob;
      ob.timers := list;
    }

    method Unlink(ob: TimerObject, to: Timer)
      requires Queued() && ob in objects && to in ob.timers
      modifies this`tobjs, ob`timers, to`obj
      ensures Queued() && to.obj == null && ob.timers == old(Dropped(ob.timers, to))
      ensures tobjs == Requeued(old(tobjs), ob, old(ob.timers), ob.timers)
    {
      var list := Dropped(ob.timers, to);
      assert forall x :: x in list ==> x in ob.timers && x in timers && x != to;
      to.obj := null;
      ob.timers := list;
      if list == [] {
        tobjs := Dropped(tobjs, ob);
      }
    }

    // ---- Identifiers (core/event.c) ----

    lemma InUseFound(x: Timer, to: Timer)
      requires Queued() && x in timers && x.obj != null && x != to
      ensures x in Others(tobjs, to) && x.id in Ids(Others(tobjs, to))
    {
      OthersHas(tobjs, to, x.obj, x);
      IdsHas(Others(tobjs, to), x);
    }

    // The walk over the two levels of queues in GenerateTimerID
    method IdTaken(to: Timer, id: int) returns (taken: bool)
      ensures taken <==> id in Ids(Others(tobjs, to))
    {
      TakenInOthers(tobjs, to, id);
      var i := 0;
      while i < |tobjs|
        invariant i <= |tobjs|
        invariant forall k :: 0 <= k < i ==> !TakenIn(tobjs[k].timers, to, id)
      {
        var s := tobjs[i].timers;
        var j := 0;
        while j < |s|
          invariant j <= |s|
          invariant forall k :: 0 <= k < j ==> s[k] == to || s[k].id != id
        {
          if s[j] != to && s[j].id == id {
            assert TakenIn(tobjs[i].timers, to, id);
            return true;
          }
          j := j + 1;
        }
        i := i + 1;
      }
      return false;
    }

    // (int)++agTimerCount, and whether the identifier is taken
    method TryId(to: Timer, ghost start: nat, ghost n: nat, ghost others: seq<Timer>) returns (id: int, taken: bool)
      requires start < 0x1_0000_0000 && timerCount == Counted(start, n) && others == Others(tobjs, to)
      modifies this`timerCount
      ensures timerCount == Counted(start, n + 1) && others == Others(tobjs, to) && Ids(others) == old(Ids(others))
      ensures id == Candidate(start, n + 1) && (taken <==> id in Ids(others))
    {
      timerCount := Uint32(timerCount + 1);
      id := Int32(timerCount);
      taken := IdTaken(to, id);
    }

    // GenerateTimerID: no other timer in the queues has the identifier, and one more try
    // than there are identifiers in use is always enough.
    method GenerateTimerID(to: Timer) returns (id: int, ghost tries: nat)
      requires 0 <= timerCount < 0x1_0000_0000 && |Ids(Others(tobjs, to))| < 0x1_0000_0000
      modifies this`timerCount
      ensures id !in old(Ids(Others(tobjs, to))) && tries <= old(|Ids(Others(tobjs, to))|) + 1
      ensures timerCount == Counted(old(timerCount), tries) && id == Candidate(old(timerCount), tries)
    {
      ghost var start := timerCount;
      ghost var others := Others(tobjs, to);
      ghost var used := Ids(others);
      var taken := true;
      tries, id := 0, 0;
      while taken  // gen_id
        invariant others == Others(tobjs, to) && used == Ids(others)
        invariant timerCount == Counted(start, tries) && tries <= |used| + 1
        invariant taken ==> Candidates(start, tries) <= used
        invariant !taken ==> id !in used && id == Candidate(start, tries)
        decreases taken, |used| + 1 - tries
      {
        EnoughIds(used, start, tries);
        id, taken := TryId(to, start, tries, others);
        tries := tries + 1;
      }
    }

    // ---- AG_AddTimer ----

    // What is left of the two lists when `to` is in place at position k of the list of ob
    ghost predicate Placed(ob: TimerObject, to: Timer, was: seq<Timer>, k: nat, q: seq<TimerObject>)
      reads this`tobjs, ob`timers, to`obj
    {
      && to.obj == ob && k <= |Dropped(was, to)| && ob.timers == InsertAt(Dropped(was, to), k, to)
      && tobjs == Requeued(q, ob, was, ob.timers)
    }

    // A new time for `to`, and with it a new place among the timers of that time
    method Schedule(ob: TimerObject, to: Timer, tSched: int)
      requires Valid() && ob in objects && to in timers && (to.obj == null || to.obj == ob)
      requires 0 <= tSched < 0x1_0000_0000
      modifies this`inserts, to`tSched, to`stamp
      ensures Queued() && Ordered(ob) && Identified(null) && to.tSched == tSched
      ensures !kqueue ==> FifoBut(ob.timers, to)
      ensures forall x :: x in timers && x != to ==> x.stamp < to.stamp
    {
      hide Distinct, Before;
      assert !kqueue ==> Fifo(ob.timers);
      to.tSched := tSched;
      to.stamp := inserts;
      inserts := inserts + 1;
      forall o | o in objects && o != ob && !kqueue
        ensures Fifo(o.timers)
      {
        assert old(Fifo(o.timers)) && to !in o.timers;
      }
    }

    // The branch for a sink without timers
    method AddOrdered(ob: TimerObject, to: Timer, ival: int, ticks: int) returns (ghost k: nat)
      requires Valid() && !kqueue && ob in objects && to in timers && (to.obj == null || to.obj == ob)
      requires NoneLater(ob.timers, to, Uint32(ticks + ival))
      modifies this`tobjs, this`inserts, ob`timers, to
      ensures Valid() && Placed(ob, to, old(ob.timers), k, old(tobjs))
      ensures to.tSched == Uint32(ticks + ival) && to.ival == ival
    {
      k := Arrange(ob, to, Uint32(ticks + ival));
      to.ival := ival;
      to.id := 0;
    }

    method Arrange(ob: TimerObject, to: Timer, tSched: int) returns (ghost k: nat)
      requires Valid() && !kqueue && ob in objects && to in timers && (to.obj == null || to.obj == ob)
      requires NoneLater(ob.timers, to, tSched) && 0 <= tSched < 0x1_0000_0000
      modifies this`tobjs, this`inserts, ob`timers, to`obj, to`tSched, to`stamp
      ensures Valid() && Placed(ob, to, old(ob.timers), k, old(tobjs)) && to.tSched == tSched
    {
      hide Dropped, InsertAt, Distinct, Identified, Before;
      Schedule(ob, to, tSched);
      var list: seq<Timer>;
      list, k := Place(ob.timers, to);
      Put(ob, to, list, k);
    }

    // The list of ob with `to` in its new place
    method Put(ob: TimerObject, to: Timer, list: seq<Timer>, ghost k: nat)
      requires Queued() && Ordered(ob) && Identified(null) && !kqueue
      requires ob in objects && to in timers && (to.obj == null || to.obj == ob)
      requires k <= |Dropped(ob.timers, to)| && list == InsertAt(Dropped(ob.timers, to), k, to) && Fifo(list)
      modifies this`tobjs, ob`timers, to`obj
      ensures Valid() && Placed(ob, to, old(ob.timers), k, old(tobjs))
    {
      if to.obj == null {
        Link(ob, to, list, k);
      } else {
        Relink(ob, to, list, k);
      }
    }

    method Relink(ob: TimerObject, to: Timer, list: seq<Timer>, ghost k: nat)
      requires Queued() && ob in objects && to in timers && to.obj == ob
      requires k <= |Dropped(ob.timers, to)| && list == InsertAt(Dropped(ob.timers, to), k, to)
      modifies ob`timers
      ensures Queued() && ob.timers == list
    {
      DistinctInsert(Dropped(ob.timers, to), k, to);
      ob.timers := list;
    }

    // AG_AddTimerKQUEUE: a new timer gets an identifier of its own.
    method AddTimerKQUEUE(to: Timer, ival: int, newTimer: bool, grown: bool) returns (rc: int)
      requires Queued() && kqueue && to in timers && to.obj != null && |Ids(Others(tobjs, to))| < 0x1_0000_0000
      requires Identified(if newTimer then to else null)
      modifies this`timerCount, to`id, to`ival
      ensures Identified(null) && rc == (if (newTimer || old(to.ival) != ival) && !grown then -1 else 0)
      ensures !newTimer ==> to.id == old(to.id) && timerCount == old(timerCount)
      ensures rc == 0 ==> to.ival == ival
    {
      if newTimer {
        IdsOfOthers(to);
        ghost var tries;
        to.id, tries := GenerateTimerID(to);
      }
      if newTimer || to.ival != ival {
        if !grown {
          return -1;
        }
        to.ival := ival;
      }
      return 0;
    }

    lemma IdsOfOthers(to: Timer)
      requires Queued()
      ensures forall x :: x in timers && x.obj != null && x != to ==> x.id in Ids(Others(tobjs, to))
    {
      forall x | x in timers && x.obj != null && x != to
        ensures x.id in Ids(Others(tobjs, to))
      {
        InUseFound(x, to);
      }
    }

    lemma FewIds(to: Timer)
      requires Queued()
      ensures |Ids(Others(tobjs, to))| <= |timers|
    {
      OthersIn(tobjs, to, timers);
      IdsIn(Others(tobjs, to), timers);
      FewerIds(timers);
      SubsetSize(Ids(Others(tobjs, to)), IdSet(timers));
    }

    // The branch for a sink with timers, and the failure path
    method AddUnordered(ob: TimerObject, to: Timer, ival: int, grown: bool) returns (rc: int)
      requires Valid() && kqueue && ob in objects && to in timers && |timers| < 0x1_0000_0000
      requires to.obj == null || to.obj == ob
      modifies this`tobjs, this`timerCount, ob`timers, to
      ensures Valid() && rc == (if (old(to.obj) == null || old(to.ival) != ival) && !grown then -1 else 0)
      ensures rc == 0 ==> to.obj == ob && to.ival == ival
      ensures ob.timers == if rc == -1 then Dropped(old(ob.timers), to)
                           else if old(to.obj) == null then old(ob.timers) + [to] else old(ob.timers)
      ensures tobjs == Requeued(old(tobjs), ob, old(ob.timers), ob.timers)
      ensures rc == -1 ==> to.obj == null
    {
      hide Distinct, Ids, Others;
      var newTimer := to.obj == null;
      if newTimer {
        Append(ob, to);
      }
      FewIds(to);
      rc := AddTimerKQUEUE(to, ival, newTimer, grown);
      if rc == -1 {
        ghost var added := ob.timers;
        Cancel(ob, to);
        DroppedNew(old(tobjs), ob, old(ob.timers), to, added);
      }
    }

    // What a failed AG_AddTimer, AG_DelTimer and the expiry of a timer have in common
    method Cancel(ob: TimerObject, to: Timer)
      requires Queued() && Ordered(null) && Identified(to) && ob in objects && to in ob.timers
      modifies this`tobjs, ob`timers, to`obj
      ensures Valid() && to.obj == null && ob.timers == old(Dropped(ob.timers, to))
      ensures tobjs == Requeued(old(tobjs), ob, old(ob.timers), ob.timers)
    {
      ghost var was := ob.timers;
      assert !kqueue ==> Fifo(was);
      Unlink(ob, to);
      if !kqueue {
        DroppedFifo(was, to);
      }
      forall o | o in objects && o != ob && !kqueue
        ensures Fifo(o.timers)
      {
        assert old(Fifo(o.timers));
      }
    }

    // A new timer taken out again leaves what was there before.
    static lemma DroppedNew(q: seq<TimerObject>, ob: TimerObject, was: seq<Timer>, to: Timer, now: seq<Timer>)
      requires now == was || (now == was + [to] && to !in was)
      requires was == [] ==> ob !in q
      ensures now != was ==> Dropped(now, to) == was
      ensures Requeued(Requeued(q, ob, was, now), ob, now, Dropped(now, to)) == Requeued(q, ob, was, Dropped(was, to))
    {
      if now != was {
        DroppedLast(was, to);
        if was == [] {
          DroppedLast(q, ob);
        }
      }
    }

    method Append(ob: TimerObject, to: Timer)
      requires Valid() && kqueue && ob in objects && to in timers && to.obj == null
      modifies this`tobjs, ob`timers, to`obj, to`tSched
      ensures Queued() && Ordered(null) && Identified(to) && to.obj == ob
      ensures ob.timers == old(ob.timers) + [to] && tobjs == Requeued(old(tobjs), ob, old(ob.timers), ob.timers)
    {
      assert ob.timers + [to] == InsertAt(ob.timers, |ob.timers|, to);
      Link(ob, to, ob.timers + [to], |ob.timers|);
      to.tSched := 0;
    }

    // ---- AG_ResetTimer, AG_DelTimer, AG_DelTimers ----

    method ResetTimer(ob: TimerObject, to: Timer, ival: int, ticks: int, grown: bool) returns (rc: int, ghost k: nat)
      requires Valid() && ob in objects && to in ob.timers && (kqueue ==> |timers| < 0x1_0000_0000)
      modifies this`timerCount, this`inserts, ob`timers, to`tSched, to`stamp, to`ival, to`id
      ensures Valid() && rc == (if kqueue && old(to.ival) != ival && !grown then -1 else 0)
      ensures rc == 0 ==> to.ival == ival
      ensures kqueue ==> ob.timers == old(ob.timers) && to.tSched == old(to.tSched)
      ensures !kqueue ==> to.tSched == Uint32(ticks + ival)
      ensures !kqueue ==>
        k <= |Dropped(old(ob.timers), to)| && ob.timers == InsertAt(Dropped(old(ob.timers), to), k, to)
    {
      rc, k := 0, 0;
      if kqueue {
        FewIds(to);
        rc := AddTimerKQUEUE(to, ival, false, grown);
      } else {
        k := Reorder(ob, to, Uint32(ticks + ival));
        to.ival := ival;
      }
    }

    method Reorder(ob: TimerObject, to: Timer, tSched: int) returns (ghost k: nat)
      requires Valid() && !kqueue && ob in objects && to in ob.timers && 0 <= tSched < 0x1_0000_0000
      modifies this`inserts, ob`timers, to`tSched, to`stamp
      ensures Valid() && to.tSched == tSched
      ensures k <= |Dropped(old(ob.timers), to)| && ob.timers == InsertAt(Dropped(old(ob.timers), to), k, to)
    {
      hide Dropped, InsertAt, Distinct, Identified, Before, Belongs, NoneLater, FifoBut, Fifo;
      Schedule(ob, to, tSched);
      TakenOut(ob.timers, to);
      var list := Dropped(ob.timers, to);
      list, k := Place(list, to);
      Restore(ob, to, list, k);
    }

    static lemma TakenOut(list: seq<Timer>, to: Timer)
      requires Distinct(list) && FifoBut(list, to)
      ensures var r := Dropped(list, to);
        && Distinct(r) && to !in r && Dropped(r, to) == r && (forall x :: x in r ==> x in list)
        && FifoBut(r, to) && NoneLater(r, to, to.tSched)
    {
      DroppedFifoBut(list, to);
    }

    method Restore(ob: TimerObject, to: Timer, list: seq<Timer>, ghost k: nat)
      requires Queued() && Ordered(ob) && Identified(null) && ob in objects && to in timers && to.obj == ob
      requires k <= |Dropped(ob.timers, to)| && list == InsertAt(Dropped(ob.timers, to), k, to) && Fifo(list)
      modifies ob`timers
      ensures Valid() && ob.timers == list
    {
      hide Dropped, InsertAt, Distinct, Identified, Before;
      Relink(ob, to, list, k);
      forall o | o in objects && o != ob && !kqueue
        ensures Fifo(o.timers)
      {
        assert old(Fifo(o.timers));
      }
    }

    // The search of AG_DelTimer and AG_TimerIsRunning
    static method IsRunning(s: seq<Timer>, to: Timer) returns (running: bool)
      ensures running <==> to in s
    {
      var i := 0;
      while i < |s| && s[i] != to
        invariant i <= |s| && to !in s[..i]
      {
        i := i + 1;
      }
      assert s[..|s|] == s;
      return i < |s|;
    }

    // A timer that is not in the list of ob is left alone.
    method DelTimer(ob: TimerObject, to: Timer)
      requires Valid() && ob in objects
      modifies this`tobjs, this`timerCount, this`timers, ob`timers, to`obj, to`id
      ensures Valid() && ob.timers == Dropped(old(ob.timers), to)
      ensures tobjs == Requeued(old(tobjs), ob, old(ob.timers), ob.timers)
      ensures to in old(ob.timers) ==> to.obj == null && timers == old(timers) - (if to.autoFree then {to} else {})
      ensures to in old(ob.timers) ==>
        to.id == -1 && timerCount == if kqueue then Uint32(old(timerCount) - 1) else old(timerCount)
      ensures to !in old(ob.timers) ==> to.obj == old(to.obj) && to.id == old(to.id) && timers == old(timers)
      ensures to !in old(ob.timers) ==> timerCount == old(timerCount)
    {
      hide Ordered, Identified, Dropped;
      var running := IsRunning(ob.timers, to);
      if !running {
        return;
      }
      Forget(to);
      Cancel(ob, to);
      Free(to);
    }

    // The event sink gives up the identifier.
    method Forget(to: Timer)
      requires Valid() && to in timers
      modifies this`timerCount, to`id
      ensures Queued() && Ordered(null) && Identified(to)
      ensures to.id == -1 && timerCount == if kqueue then Uint32(old(timerCount) - 1) else old(timerCount)
    {
      hide Queued, Ordered;
      if kqueue {
        timerCount := Uint32(timerCount - 1);
      }
      to.id := -1;
    }

    method Free(to: Timer)
      requires Valid() && to in timers && to.obj == null
      modifies this`timers
      ensures Valid() && timers == old(timers) - (if to.autoFree then {to} else {})
    {
      if to.autoFree {
        timers := timers - {to};  // free(to)
      }
    }

    method DelTimers(ob: TimerObject)
      requires Valid() && ob in objects
      modifies this`tobjs, this`timerCount, this`timers, ob`timers, ob.timers`obj, ob.timers`id
      ensures Valid() && ob.timers == [] && tobjs == Requeued(old(tobjs), ob, old(ob.timers), [])
      ensures forall x :: x in old(ob.timers) ==> x.obj == null && x.id == -1
      ensures timers == old(timers) - Freed(old(ob.timers))
      ensures timerCount == if kqueue then Uint32(old(timerCount) - |old(ob.timers)|) else old(timerCount)
    {
      hide Ordered, Identified, Uint32;
      ghost var was := ob.timers;
      ghost var i := 0;
      NoneGone();
      var to := if ob.timers == [] then null else ob.timers[0];
      while to != null
        invariant Valid() && i <= |was| && ob.timers == was[i..] && to == (if i < |was| then was[i] else null)
        invariant forall k :: 0 <= k < i ==> was[k].obj == null && was[k].id == -1
        invariant tobjs == Requeued(old(tobjs), ob, was, ob.timers)
        invariant timers == old(timers) - Freed(was[..i])
        invariant timerCount == if kqueue then Uint32(old(timerCount) - i) else old(timerCount)
        decreases |was| - i
      {
        OneFewer(old(timerCount), i);
        assert Freed(was[..i + 1]) == Freed(was[..i]) + Freed([was[i]]) by {
          assert was[..i + 1] == was[..i] + [was[i]];
        }
        to := DelHead(ob, to);
        i := i + 1;
      }
      assert was[..i] == was;
      ob.timers := [];
    }

    lemma NoneGone()
      requires Valid()
      ensures Uint32(timerCount - 0) == timerCount
    {
    }

    static lemma OneFewer(n: int, i: int)
      ensures Uint32(Uint32(n - i) - 1) == Uint32(n - (i + 1))
    {
      WrapMinus(n - i, 1);
    }

    static ghost function Freed(s: seq<Timer>): set<Timer> {
      set x | x in s && x.autoFree
    }

    // One round of the loop: the next timer is looked up before this one is cancelled.
    method DelHead(ob: TimerObject, to: Timer) returns (toNext: Timer?)
      requires Valid() && ob in objects && ob.timers != [] && ob.timers[0] == to
      modifies this`tobjs, this`timerCount, this`timers, ob`timers, to`obj, to`id
      ensures Valid() && ob.timers == old(ob.timers)[1..] && toNext == (if ob.timers == [] then null else ob.timers[0])
      ensures to.obj == null && tobjs == Requeued(old(tobjs), ob, old(ob.timers), ob.timers)
      ensures timers == old(timers) - Freed([to])
      ensures to.id == -1 && timerCount == if kqueue then Uint32(old(timerCount) - 1) else old(timerCount)
    {
      var rest := After(ob.timers, to);
      toNext := if rest == [] then null else rest[0];
      DelTimer(ob, to);
    }

    // The expiry branch of AG_EventSinkKQUEUE, when the callback has returned rvt
    method Expire(to: Timer, rvt: int, grown: bool) returns (rc: int)
      requires Valid() && kqueue && to in timers
      requires 0 <= rvt < 0x1_0000_0000
      modifies this`tobjs, this`timerCount, this`timers, objects`timers, to`obj, to`id, to`ival
      ensures Valid() && rc == if rvt > 0 && !grown then -1 else 0
      ensures rvt > 0 || old(to.obj) == null ==> tobjs == old(tobjs) && to.obj == old(to.obj) && timers == old(timers)
      ensures forall o :: o in objects && (rvt > 0 || o != old(to.obj)) ==> o.timers == old(o.timers)
      ensures rvt == 0 && old(to.obj) != null ==>
        var ob := old(to.obj);
        && to.obj == null && timers == old(timers) - (if to.autoFree then {to} else {})
        && ob.timers == Dropped(old(to.obj.timers), to)
        && tobjs == Requeued(old(tobjs), ob, old(to.obj.timers), ob.timers)
      ensures rvt > 0 || old(to.obj) == null ==> timerCount == old(timerCount) && to.id == old(to.id)
      ensures rvt > 0 || old(to.obj) == null ==> to.ival == if rc == 0 && rvt > 0 then rvt else old(to.ival)
      ensures rvt == 0 && old(to.obj) != null ==>
        timerCount == Uint32(old(timerCount) - 1) && (!to.autoFree ==> to.ival == 0 && to.id == -1)
    {
      rc := 0;
      if rvt > 0 {
        if !grown {
          return -1;
        }
        to.ival := rvt;
      } else if to.obj != null {
        Cancel(to.obj, to);
        Dismiss(to);
      }
    }

    method Unset(to: Timer)
      requires Valid() && to in timers && to.obj == null
      modifies to`ival, to`id
      ensures Valid() && to.ival == 0 && to.id == -1
    {
      hide Queued, Ordered;
      to.ival := 0;
      to.id := -1;
    }

    method Dismiss(to: Timer)
      requires Valid() && to in timers && to.obj == null
      modifies this`timers, this`timerCount, to`ival, to`id
      ensures Valid() && timers == old(timers) - (if to.autoFree then {to} else {})
      ensures timerCount == Uint32(old(timerCount) - 1) && (!to.autoFree ==> to.ival == 0 && to.id == -1)
    {
      hide Queued, Ordered;
      if to.autoFree {
        Free(to);
      } else {
        Unset(to);
      }
      timerCount := Uint32(timerCount - 1);
    }

    // ---- AG_ProcessTimeouts ----

    // What the n-th callback made of its timer: rv is what it returned.
    static ghost predicate Handled(x: Timer, ob: TimerObject?, rv: int, ticks: int)
      reads x
    {
      if rv > 0 then x.obj == ob && x.tSched == Uint32(ticks + rv) && x.ival == rv else x.obj == null
    }

    // One callback, what its result asks for, and the timer to look at next.  p is the set
    // of timers still due, and `to` is the first of them in its list.
    method FireNext(ob: TimerObject, to: Timer, t: int, rv: int, ticks: int, ghost i: nat, ghost p: set<Timer>)
      returns (next: Timer?, ghost j: nat)
      requires Valid() && !kqueue && ob in objects && 0 <= rv < 0x1_0000_0000
      requires i < |ob.timers| && ob.timers[i] == to && to in p
      requires forall k :: 0 <= k < i ==> ob.timers[k] !in p
      modifies this`tobjs, this`timerCount, this`timers, this`inserts, ob`timers, to
      ensures Valid() && Handled(to, ob, rv, ticks)
      ensures Filter(old(ob.timers), p) == [to] + Filter(ob.timers, p - {to})
      ensures forall x :: x in ob.timers <==> x in old(ob.timers) && (rv > 0 || x != to)
      ensures tobjs == Requeued(old(tobjs), ob, old(ob.timers), ob.timers)
      ensures timers == old(timers) - if rv > 0 then {} else Freed([to])
      ensures j <= |ob.timers| && next == First(ob.timers[j..]) && forall k :: 0 <= k < j ==> ob.timers[k] !in p
    {
      assert Distinct(ob.timers);
      AfterAt(ob.timers, i);
      next := First(After(ob.timers, to));
      j := i;
      ghost var was := ob.timers;
      var rescan := Fire(ob, to, t, rv, ticks, i, p);
      if rescan {
        next := First(ob.timers);
        j := 0;
        assert ob.timers[0..] == ob.timers;
      } else {
        assert ob.timers[i..] == was[i + 1..];
      }
    }

    static ghost predicate AllHandled(fired: seq<Timer>, ob: TimerObject?, rv: nat -> int, ticks: nat -> int, n0: nat)
      reads fired
    {
      forall m :: 0 <= m < |fired| ==> Handled(fired[m], ob, rv(n0 + m), ticks(n0 + m))
    }

    // The callback and its consequences: returns whether to rescan.
    method Fire(ob: TimerObject, to: Timer, t: int, rv: int, ticks: int, ghost i: nat, ghost p: set<Timer>)
      returns (rescan: bool)
      requires Valid() && !kqueue && ob in objects && 0 <= rv < 0x1_0000_0000
      requires i < |ob.timers| && ob.timers[i] == to && to in p
      requires forall k :: 0 <= k < i ==> ob.timers[k] !in p
      modifies this`tobjs, this`timerCount, this`timers, this`inserts, ob`timers, to
      ensures Valid() && Handled(to, ob, rv, ticks) && rescan == (rv > 0)
      ensures Filter(old(ob.timers), p) == [to] + Filter(ob.timers, p - {to})
      ensures forall x :: x in ob.timers <==> x in old(ob.timers) && (rv > 0 || x != to)
      ensures tobjs == Requeued(old(tobjs), ob, old(ob.timers), ob.timers)
      ensures timers == old(timers) - if rv > 0 then {} else Freed([to])
      ensures !rescan ==> ob.timers == RemoveAt(old(ob.timers), i)
    {
      ghost var was := ob.timers;
      FirstDue(was, i, p);
      rescan := rv > 0;
      if rv > 0 {
        var rc;
        ghost var k;
        rc, k := ResetTimer(ob, to, rv, ticks, true);
        DistinctInsert(Dropped(was, to), k, to);
        FilterInsert(Dropped(was, to), k, to, p - {to});
      } else {
        DelTimer(ob, to);
      }
    }

    static lemma FirstDue(s: seq<Timer>, i: nat, p: set<Timer>)
      requires Distinct(s) && i < |s| && s[i] in p && forall k :: 0 <= k < i ==> s[k] !in p
      ensures Dropped(s, s[i]) == RemoveAt(s, i)
      ensures Filter(s, p) == [s[i]] + Filter(Dropped(s, s[i]), p - {s[i]})
    {
      assert s[i] !in s[..i] && s[i] !in s[i + 1..];
      DroppedAt(s, i, s[i]);
      FilterFirst(s[..i], s[i], s[i + 1..], p);
      assert s == s[..i] + [s[i]] + s[i + 1..];
    }

    // Where the scan of the list of ob has got to: the timers in q are still due, the others
    // of `was` that have not been fired are as they were.
    ghost predicate Scanning(ob: TimerObject, t: int, was: seq<Timer>, sched: map<Timer, int>, fired: seq<Timer>,
        q: set<Timer>)
      requires forall x :: x in was ==> x in sched
      reads ob`timers, ob.timers`tSched, was`tSched
    {
      && (forall x :: x in ob.timers ==> x in was && (x in q <==> Due(x.tSched, t)))
      && (forall x :: x in was && x !in fired ==> x in ob.timers && x.tSched == sched[x])
      && (forall x :: x in fired ==> x in was && x !in q)
    }

    method FireRound(ob: TimerObject, to: Timer, t: int, rv: nat -> int, ticks: nat -> int, ghost n0: nat, n: nat,
        ghost i: nat, ghost was: seq<Timer>, ghost sched: map<Timer, int>, ghost fired: seq<Timer>, ghost q: set<Timer>)
      returns (next: Timer?, ghost j: nat)
      requires Valid() && !kqueue && ob in objects && LaterRestarts(t, rv, ticks) && n == n0 + |fired|
      requires i < |ob.timers| && ob.timers[i] == to && to in q && forall k :: 0 <= k < i ==> ob.timers[k] !in q
      requires (forall x :: x in was ==> x in sched) && Scanning(ob, t, was, sched, fired, q)
      requires AllHandled(fired, ob, rv, ticks, n0)
      modifies this`tobjs, this`timerCount, this`timers, this`inserts, ob`timers, to
      ensures Valid() && Filter(old(ob.timers), q) == [to] + Filter(ob.timers, q - {to})
      ensures Scanning(ob, t, was, sched, fired + [to], q - {to})
      ensures AllHandled(fired + [to], ob, rv, ticks, n0)
      ensures tobjs == Requeued(old(tobjs), ob, old(ob.timers), ob.timers)
      ensures timers <= old(timers) && forall x :: x in old(timers) && x != to ==> x in timers
      ensures j <= |ob.timers| && next == First(ob.timers[j..]) && forall k :: 0 <= k < j ==> ob.timers[k] !in q
    {
      hide Filter, Requeued, Distinct, First, AllHandled;
      assert to !in fired;
      next, j := FireNext(ob, to, t, rv(n), ticks(n), i, q);
      assert AllHandled(fired, ob, rv, ticks, n0);
      AddHandled(fired, to, ob, rv, ticks, n0);
    }

    static lemma AddHandled(fired: seq<Timer>, to: Timer, ob: TimerObject, rv: nat -> int, ticks: nat -> int, n0: nat)
      requires AllHandled(fired, ob, rv, ticks, n0)
      requires Handled(to, ob, rv(n0 + |fired|), ticks(n0 + |fired|))
      ensures AllHandled(fired + [to], ob, rv, ticks, n0)
    {
    }

    // The loop over the list of one object, rescanning from the start after each restart.
    // It ends as long as no timer is restarted to be due at t again.
    method ProcessList(ob: TimerObject, t: int, rv: nat -> int, ticks: nat -> int, n0: nat, ghost p: set<Timer>)
      returns (n: nat, ghost fired: seq<Timer>)
      requires Valid() && !kqueue && ob in objects && LaterRestarts(t, rv, ticks)
      requires forall x :: x in ob.timers ==> (x in p <==> Due(x.tSched, t))
      modifies this`tobjs, this`timerCount, this`timers, this`inserts, ob`timers, ob.timers
      ensures Valid() && n == n0 + |fired| && fired == Filter(old(ob.timers), p)
      ensures AllHandled(fired, ob, rv, ticks, n0) && forall x :: x in fired ==> x in old(ob.timers)
      ensures forall x :: x in old(ob.timers) && x !in fired ==> x in ob.timers && x.tSched == old(x.tSched)
      ensures forall x :: x in ob.timers ==> x in old(ob.timers) && !Due(x.tSched, t)
      ensures tobjs == Requeued(old(tobjs), ob, old(ob.timers), ob.timers)
      ensures timers <= old(timers) && forall x :: x in old(timers) && x !in fired ==> x in timers
    {
      ghost var was := ob.timers;
      ghost var sched := map x | x in was :: x.tSched;
      ghost var q := p;
      ghost var i: nat := 0;
      n, fired := n0, [];
      assert [] + Filter(was, p) == Filter(was, p);
      assert ob.timers[0..] == ob.timers;
      var to := First(ob.timers);
      while to != null
        invariant Valid() && i <= |ob.timers| && to == First(ob.timers[i..]) && n == n0 + |fired|
        invariant fired + Filter(ob.timers, q) == Filter(was, p)
        invariant Scanning(ob, t, was, sched, fired, q) && AllHandled(fired, ob, rv, ticks, n0)
        invariant forall k :: 0 <= k < i ==> ob.timers[k] !in q
        invariant tobjs == Requeued(old(tobjs), ob, was, ob.timers)
        invariant timers <= old(timers) && forall x :: x in old(timers) && x !in fired ==> x in timers
        decreases |Filter(ob.timers, q)|, |ob.timers| - i
      {
        if !Due(to.tSched, t) {
          AfterAt(ob.timers, i);
          to := First(After<Timer>(ob.timers, to));
          i := i + 1;
        } else {
          ghost var one: Timer := to;
          to, i := FireRound(ob, to, t, rv, ticks, n0, n, i, was, sched, fired, q);
          Assoc(fired, [one], Filter(ob.timers, q - {one}));
          fired, q := fired + [one], q - {one};
          n := n + 1;
        }
      }
      FilterNone(ob.timers, q);
    }

    ghost function Owners(): map<Timer, TimerObject?>
      reads this`timers, timers`obj
    {
      map x | x in timers :: x.obj
    }

    ghost function Times(): map<Timer, int>
      reads this`timers, timers`tSched
    {
      map x | x in timers :: x.tSched
    }

    ghost function DueSet(t: int): set<Timer>
      reads this`timers, timers`tSched
    {
      set x | x in timers && Due(x.tSched, t)
    }

    // With the objects in `done` dealt with: their timers have been fired if they were due,
    // and are due no more; all others are as they were.
    ghost predicate Progress(t: int, done: seq<TimerObject>, owners: map<Timer, TimerObject?>, times: map<Timer, int>,
        fired: seq<Timer>)
      requires owners.Keys == times.Keys
      reads this`timers, timers, owners.Keys
    {
      && timers <= owners.Keys
      && (forall x :: x in fired ==> x in owners && owners[x] in done)
      && (forall x :: x in owners && x !in fired ==> x in timers && x.obj == owners[x] && x.tSched == times[x])
      && (forall x :: x in timers && x.obj != null && x.obj in done ==> !Due(x.tSched, t))
    }

    static ghost predicate AllFired(fired: seq<Timer>, owners: map<Timer, TimerObject?>, rv: nat -> int,
        ticks: nat -> int)
      reads fired
    {
      forall m :: 0 <= m < |fired| ==> fired[m] in owners && Handled(fired[m], owners[fired[m]], rv(m), ticks(m))
    }

    // The loop body of AG_ProcessTimeouts
    method ProcessObject(ob: TimerObject, t: int, rv: nat -> int, ticks: nat -> int, n0: nat,
        ghost done: seq<TimerObject>, ghost owners: map<Timer, TimerObject?>, ghost times: map<Timer, int>,
        ghost fired: seq<Timer>, ghost p: set<Timer>)
      returns (n: nat, ghost more: seq<Timer>)
      requires Valid() && !kqueue && ob in objects && LaterRestarts(t, rv, ticks)
      requires owners.Keys == times.Keys && Progress(t, done, owners, times, fired) && ob !in done
      requires n0 == |fired| && AllFired(fired, owners, rv, ticks)
      requires forall x :: x in owners ==> (x in p <==> Due(times[x], t))
      requires forall o :: o in done ==> o in objects
      modifies this`tobjs, this`timerCount, this`timers, this`inserts, ob`timers, ob.timers
      ensures Valid() && n == n0 + |more| && more == Filter(old(ob.timers), p)
      ensures Progress(t, done + [ob], owners, times, fired + more)
      ensures AllFired(fired + more, owners, rv, ticks)
      ensures tobjs == Requeued(old(tobjs), ob, old(ob.timers), ob.timers)
    {
      hide Ordered, Identified, Filter, LaterRestarts, Requeued, Distinct;
      ghost var was := ob.timers;
      assert forall x :: x in was ==> x !in fired && x in owners && owners[x] == ob && x.tSched == times[x];
      assert forall x :: x in fired ==> x !in was;
      n, more := ProcessList(ob, t, rv, ticks, n0, p);
      forall x | x in owners && x !in fired && x !in more
        ensures x in timers && x.obj == owners[x] && x.tSched == times[x]
      {
        assert x in was ==> x in ob.timers;
      }
      forall x | x in timers && x.obj != null && x.obj in done + [ob]
        ensures !Due(x.tSched, t)
      {
        assert x in x.obj.timers;
        assert x.obj != ob ==> x !in was;
      }
      assert AllFired(fired, owners, rv, ticks);
      AddFired(fired, more, ob, owners, rv, ticks);
    }

    static lemma AddFired(fired: seq<Timer>, more: seq<Timer>, ob: TimerObject, owners: map<Timer, TimerObject?>,
        rv: nat -> int, ticks: nat -> int)
      requires AllFired(fired, owners, rv, ticks) && AllHandled(more, ob, rv, ticks, |fired|)
      requires forall x :: x in more ==> x in owners && owners[x] == ob
      ensures AllFired(fired + more, owners, rv, ticks)
    {
      forall m | 0 <= m < |fired + more|
        ensures var x := (fired + more)[m]; x in owners && Handled(x, owners[x], rv(m), ticks(m))
      {
        if m >= |fired| {
          assert more[m - |fired|] in more && Handled(more[m - |fired|], ob, rv(m), ticks(m));
        }
      }
    }

    // What is left of the queue q of objects when the walk has come to its j-th
    ghost predicate Walking(q: seq<TimerObject>, lists: seq<seq<Timer>>, j: nat, kept: seq<TimerObject>)
      reads this`tobjs, q`timers
    {
      && j <= |q| == |lists| && tobjs == kept + q[j..]
      && (forall o :: o in kept ==> o in q)
      && (forall k :: j <= k < |q| ==> q[k].timers == lists[k] != [])
    }

    // The next object is looked up before this one may leave the queue.
    static lemma StepQueue(tobjs: seq<TimerObject>, kept: seq<TimerObject>, q: seq<TimerObject>, j: nat,
        was: seq<Timer>, now: seq<Timer>)
      requires j < |q| && tobjs == kept + q[j..] && Distinct(tobjs) && was != []
      ensures After(tobjs, q[j]) == q[j + 1..]
      ensures Requeued(tobjs, q[j], was, now) == (if now == [] then kept else kept + [q[j]]) + q[j + 1..]
    {
      assert tobjs[|kept|] == q[j];
      AfterAt(tobjs, |kept|);
      if now == [] {
        DroppedAt(tobjs, |kept|, q[j]);
      }
    }

    method NextObject(ob: TimerObject, t: int, rv: nat -> int, ticks: nat -> int, n0: nat,
        ghost q: seq<TimerObject>, ghost lists: seq<seq<Timer>>, ghost j: nat, ghost kept: seq<TimerObject>,
        ghost owners: map<Timer, TimerObject?>, ghost times: map<Timer, int>, ghost fired: seq<Timer>,
        ghost p: set<Timer>)
      returns (obNext: TimerObject?, n: nat, ghost kept': seq<TimerObject>, ghost more: seq<Timer>)
      requires Valid() && !kqueue && LaterRestarts(t, rv, ticks)
      requires Walking(q, lists, j, kept) && Distinct(q) && j < |q| && q[j] == ob && forall o :: o in q ==> o in objects
      requires owners.Keys == times.Keys && Progress(t, q[..j], owners, times, fired)
      requires n0 == |fired| && AllFired(fired, owners, rv, ticks)
      requires forall x :: x in owners ==> (x in p <==> Due(times[x], t))
      modifies this`tobjs, this`timerCount, this`timers, this`inserts, ob`timers, ob.timers
      ensures Valid() && n == n0 + |more| && more == Filter(lists[j], p)
      ensures Progress(t, q[..j + 1], owners, times, fired + more) && AllFired(fired + more, owners, rv, ticks)
      ensures Walking(q, lists, j + 1, kept') && obNext == ObjectAt(q, j + 1)
    {
      assert q[..j] + [ob] == q[..j + 1];
      ghost var tobjs0 := tobjs;
      obNext := Front(After<TimerObject>(tobjs, ob));
      n, more := ProcessObject(ob, t, rv, ticks, n0, q[..j], owners, times, fired, p);
      StepQueue(tobjs0, kept, q, j, lists[j], ob.timers);
      kept' := if ob.timers == [] then kept else kept + [ob];
    }

    // The loop of AG_ProcessTimeouts, with a snapshot of the state it starts from
    method WalkObjects(t: int, rv: nat -> int, ticks: nat -> int, ghost q: seq<TimerObject>,
        ghost lists: seq<seq<Timer>>, ghost owners: map<Timer, TimerObject?>, ghost times: map<Timer, int>,
        ghost p: set<Timer>)
      returns (ghost fired: seq<Timer>)
      requires Valid() && !kqueue && LaterRestarts(t, rv, ticks)
      requires Walking(q, lists, 0, []) && Distinct(q) && forall o :: o in q ==> o in objects
      requires owners == Owners() && times == Times() && forall x :: x in owners ==> (x in p <==> Due(times[x], t))
      modifies this`tobjs, this`timerCount, this`timers, this`inserts, objects`timers, timers
      ensures Valid() && fired == Filter(Flat(lists), p)
      ensures Progress(t, q, owners, times, fired) && AllFired(fired, owners, rv, ticks)
      ensures forall o :: o in tobjs ==> o in q
    {
      hide Valid, Flat, Filter, AllFired, LaterRestarts, Progress;
      ghost var j: nat, kept: seq<TimerObject> := 0, [];
      var n: nat := 0;
      fired := [];
      NoneFired(lists, p, owners, rv, ticks);
      NoProgress(t, owners, times);
      assert q[..0] == [];
      assert q[0..] == q;
      var ob := Front(tobjs);
      while ob != null
        invariant Valid() && Walking(q, lists, j, kept) && ob == ObjectAt(q, j)
        invariant Progress(t, q[..j], owners, times, fired)
        invariant n == |fired| && AllFired(fired, owners, rv, ticks)
        invariant fired == Filter(Flat(lists[..j]), p)
        decreases |q| - j
      {
        ghost var more;
        FlatNext(lists, j, p);
        assert q[j] in q;
        TimersOf(ob, t, q[..j], owners, times, fired);
        ob, n, kept, more := NextObject(ob, t, rv, ticks, n, q, lists, j, kept, owners, times, fired, p);
        fired := fired + more;
        assert fired == Filter(Flat(lists[..j + 1]), p) && ob == ObjectAt(q, j + 1) && Walking(q, lists, j + 1, kept);
        j := j + 1;
      }
      assert q[..j] == q && lists[..j] == lists;
    }

    // AG_ProcessTimeouts: every timer that is due at t is fired exactly once, in the order of
    // the queues, and no other; afterwards none is due.
    method ProcessTimeouts(t: int, rv: nat -> int, ticks: nat -> int) returns (ghost fired: seq<Timer>)
      requires Valid() && !kqueue && LaterRestarts(t, rv, ticks)
      modifies this`tobjs, this`timerCount, this`timers, this`inserts, objects`timers, timers
      ensures Valid() && fired == old(Filter(Flat(ListsOf(tobjs)), DueSet(t)))
      ensures AllFired(fired, old(Owners()), rv, ticks)
      ensures forall x :: x in old(timers) && x !in fired ==>
        x in timers && x.obj == old(x.obj) && x.tSched == old(x.tSched)
      ensures forall x :: x in timers && x.obj != null ==> !Due(x.tSched, t)
    {
      hide Filter, Flat, Distinct, Ordered, Identified, LaterRestarts, Due, AllFired;
      assert tobjs[0..] == tobjs && [] + tobjs == tobjs;
      assert forall o :: o in tobjs ==> o in objects && o.timers != [];
      fired := WalkObjects(t, rv, ticks, tobjs, ListsOf(tobjs), Owners(), Times(), DueSet(t));
    }

    // A timer added, and the queues processed d ticks later: it fires if and only if its interval
    // has passed.
    method AddAndProcess(ob: TimerObject, to: Timer, ival: int, ticks: int, d: int, rv: nat -> int, later: nat -> int)
      returns (ghost fired: seq<Timer>)
      requires Valid() && !kqueue && ob in objects && to in timers && (to.obj == null || to.obj == ob)
      requires NoneLater(ob.timers, to, Uint32(ticks + ival))
      requires -0x8000_0000 <= ival - d < 0x8000_0000 && LaterRestarts(Uint32(ticks + d), rv, later)
      modifies this`tobjs, this`timerCount, this`timers, this`inserts, objects`timers, timers
      ensures Valid() && (to in fired <==> ival <= d)
      ensures ival > d ==> to in timers && to.obj == ob && to.tSched == Uint32(ticks + ival)
    {
      hide Valid, Due, Placed, LaterRestarts, AllFired;
      ghost var k := AddOrdered(ob, to, ival, ticks);
      fired := FireAfter(to, ival, ticks, d, rv, later);
    }

    method ResetAndProcess(ob: TimerObject, to: Timer, ival: int, ticks: int, d: int, rv: nat -> int, later: nat -> int)
      returns (ghost fired: seq<Timer>)
      requires Valid() && !kqueue && ob in objects && to in ob.timers
      requires -0x8000_0000 <= ival - d < 0x8000_0000 && LaterRestarts(Uint32(ticks + d), rv, later)
      modifies this`tobjs, this`timerCount, this`timers, this`inserts, objects`timers, timers
      ensures Valid() && (to in fired <==> ival <= d)
      ensures ival > d ==> to in timers && to.obj == ob && to.tSched == Uint32(ticks + ival)
    {
      hide Due, LaterRestarts, AllFired, Distinct, Ordered, Identified;
      ghost var k;
      var rc;
      rc, k := ResetTimer(ob, to, ival, ticks, true);
      fired := FireAfter(to, ival, ticks, d, rv, later);
    }

    method FireAfter(to: Timer, ival: int, ticks: int, d: int, rv: nat -> int, later: nat -> int)
      returns (ghost fired: seq<Timer>)
      requires Valid() && !kqueue && to in timers && to.obj != null && to.tSched == Uint32(ticks + ival)
      requires -0x8000_0000 <= ival - d < 0x8000_0000 && LaterRestarts(Uint32(ticks + d), rv, later)
      modifies this`tobjs, this`timerCount, this`timers, this`inserts, objects`timers, timers
      ensures Valid() && (to in fired <==> ival <= d)
      ensures ival > d ==> to in timers && to.obj == old(to.obj) && to.tSched == old(to.tSched)
    {
      hide Due, LaterRestarts, AllFired, Distinct, Filter, Flat;
      DueAfter(ticks, ival, d);
      DueOnce(Uint32(ticks + d));
      fired := ProcessTimeouts(Uint32(ticks + d), rv, later);
    }

    // The list of what is fired holds each due timer that is in use, once, and no other.
    lemma DueOnce(t: int)
      requires Queued()
      ensures var s := Filter(Flat(ListsOf(tobjs)), DueSet(t));
              Distinct(s) && forall x :: x in s <==> x in timers && x.obj != null && Due(x.tSched, t)
    {
      var lists := ListsOf(tobjs);
      var all := Flat(lists);
      EachOnce(lists, |lists|);
      assert lists[..|lists|] == lists;
      FilterDistinct(all, DueSet(t));
      forall x
        ensures x in Filter(all, DueSet(t)) <==> x in timers && x.obj != null && Due(x.tSched, t)
      {
        FilterHas(all, DueSet(t), x);
        if x in timers && x.obj != null {
          assert x in x.obj.timers && x.obj in tobjs;
          var k :| 0 <= k < |tobjs| && tobjs[k] == x.obj;
          FlatHas(lists, k, x);
        }
      }
    }

    lemma {:induction false} EachOnce(lists: seq<seq<Timer>>, k: nat)
      requires Queued() && lists == ListsOf(tobjs) && k <= |tobjs|
      ensures Distinct(Flat(lists[..k]))
      ensures forall x :: x in Flat(lists[..k]) ==> x in timers && x.obj != null && x.obj in tobjs[..k]
    {
      if k > 0 {
        EachOnce(lists, k - 1);
        var a, b, o := Flat(lists[..k - 1]), lists[k - 1], tobjs[k - 1];
        assert lists[..k][..k - 1] == lists[..k - 1] && b == o.timers && Flat(lists[..k]) == a + b;
        assert o in objects && Distinct(o.timers) && o !in tobjs[..k - 1];
        assert forall x :: x in b ==> x.obj == o;
        DistinctConcat(a, b);
        assert tobjs[..k] == tobjs[..k - 1] + [o];
      }
    }

    static lemma {:induction false} FlatHas(lists: seq<seq<Timer>>, k: nat, x: Timer)
      requires k < |lists| && x in lists[k]
      ensures x in Flat(lists)
    {
      if k < |lists| - 1 {
        FlatHas(lists[..|lists| - 1], k, x);
      }
    }

    lemma NoProgress(t: int, owners: map<Timer, TimerObject?>, times: map<Timer, int>)
      requires owners == Owners() && times == Times()
      ensures Progress(t, [], owners, times, [])
    {
    }

    lemma TimersOf(ob: TimerObject, t: int, done: seq<TimerObject>, owners: map<Timer, TimerObject?>,
        times: map<Timer, int>, fired: seq<Timer>)
      requires Valid() && ob in objects && owners.Keys == times.Keys && Progress(t, done, owners, times, fired)
      ensures forall x :: x in ob.timers ==> x in owners
    {
    }

    static lemma NoneFired(lists: seq<seq<Timer>>, p: set<Timer>, owners: map<Timer, TimerObject?>, rv: nat -> int,
        ticks: nat -> int)
      ensures Filter(Flat(lists[..0]), p) == [] && AllFired([], owners, rv, ticks)
    {
    }

    static lemma FlatNext(lists: seq<seq<Timer>>, j: nat, p: set<Timer>)
      requires j < |lists|
      ensures Filter(Flat(lists[..j + 1]), p) == Filter(Flat(lists[..j]), p) + Filter(lists[j], p)
    {
      assert lists[..j + 1][..j] == lists[..j];
      FilterConcat(Flat(lists[..j]), lists[j], p);
    }

    static ghost function ObjectAt(q: seq<TimerObject>, j: nat): TimerObject? {
      if j < |q| then q[j] else null
    }

    static function Front(s: seq<TimerObject>): TimerObject? {
      if s == [] then null else s[0]
    }

    static ghost function ListsOf(q: seq<TimerObject>): (r: seq<seq<Timer>>)
      reads q`timers
      ensures |r| == |q| && forall k :: 0 <= k < |q| ==> r[k] == q[k].timers
    {
      if q == [] then [] else [q[0].timers] + ListsOf(q[1..])
    }

    static ghost function Flat(s: seq<seq<Timer>>): seq<Timer> {
      if s == [] then [] else Flat(s[..|s| - 1]) + s[|s| - 1]
    }

    static function First(s: seq<Timer>): Timer? {
      if s == [] then null else s[0]
    }

    // Callback n returns rv(n), and a positive result restarts its timer from ticks(n):
    // never at a time that is due at t already.
    static ghost predicate LaterRestarts(t: int, rv: nat -> int, ticks: nat -> int) {
      forall n :: 0 <= rv(n) < 0x1_0000_0000 && (rv(n) > 0 ==> !Due(Uint32(ticks(n) + rv(n)), t))
    }
  }

  ghost function But(s: seq<Timer>, to: Timer): seq<Timer> {
    if s == [] then [] else (if s[0] == to then [] else [s[0]]) + But(s[1..], to)
  }

  // The timers a walk over the queues comes by, but for one
  ghost function Others(q: seq<TimerObject>, to: Timer): seq<Timer>
    reads q`timers
  {
    if q == [] then [] else But(q[0].timers, to) + Others(q[1..], to)
  }

  ghost function Ids(s: seq<Timer>): (r: set<int>)
    reads s`id
    ensures |r| <= |s|
  {
    if s == [] then {} else {s[0].id} + Ids(s[1..])
  }

  // The same for a set of timers
  ghost function IdSet(s: set<Timer>): set<int>
    reads s`id
  {
    set x | x in s :: x.id
  }

  lemma {:induction false} FewerIds(s: set<Timer>)
    ensures |IdSet(s)| <= |s|
  {
    if s != {} {
      var x :| x in s;
      FewerIds(s - {x});
      assert IdSet(s) == IdSet(s - {x}) + {x.id};
    }
  }

  lemma {:induction false} IdsIn(s: seq<Timer>, all: set<Timer>)
    requires forall x :: x in s ==> x in all
    ensures Ids(s) <= IdSet(all)
  {
    if s != [] {
      IdsIn(s[1..], all);
    }
  }

  lemma {:induction false} ButIn(s: seq<Timer>, to: Timer)
    ensures forall x :: x in But(s, to) ==> x in s
  {
    if s != [] {
      ButIn(s[1..], to);
    }
  }

  lemma {:induction false} OthersIn(q: seq<TimerObject>, to: Timer, all: set<Timer>)
    requires forall o, x :: o in q && x in o.timers ==> x in all
    ensures forall x :: x in Others(q, to) ==> x in all
  {
    if q != [] {
      ButIn(q[0].timers, to);
      OthersIn(q[1..], to, all);
    }
  }

  lemma {:induction false} IdsConcat(a: seq<Timer>, b: seq<Timer>)
    ensures Ids(a + b) == Ids(a) + Ids(b)
  {
    if a == [] {
      assert a + b == b;
    } else {
      assert (a + b)[1..] == a[1..] + b;
      IdsConcat(a[1..], b);
    }
  }

  ghost predicate TakenIn(s: seq<Timer>, to: Timer, id: int)
    reads s`id
  {
    exists k :: 0 <= k < |s| && s[k] != to && s[k].id == id
  }

  lemma {:induction false} TakenInBut(s: seq<Timer>, to: Timer, id: int)
    ensures id in Ids(But(s, to)) <==> TakenIn(s, to, id)
  {
    if s != [] {
      TakenInBut(s[1..], to, id);
      IdsConcat(if s[0] == to then [] else [s[0]], But(s[1..], to));
      assert TakenIn(s, to, id) <==> (s[0] != to && s[0].id == id) || TakenIn(s[1..], to, id) by {
        assert forall k :: 1 <= k < |s| ==> s[k] == s[1..][k - 1];
      }
    }
  }

  lemma {:induction false} TakenInOthers(q: seq<TimerObject>, to: Timer, id: int)
    ensures id in Ids(Others(q, to)) <==> exists i :: 0 <= i < |q| && TakenIn(q[i].timers, to, id)
  {
    if q != [] {
      TakenInOthers(q[1..], to, id);
      TakenInBut(q[0].timers, to, id);
      IdsConcat(But(q[0].timers, to), Others(q[1..], to));
      assert forall k :: 1 <= k < |q| ==> q[k] == q[1..][k - 1];
    }
  }

  lemma {:induction false} IdsHas(s: seq<Timer>, x: Timer)
    requires x in s
    ensures x.id in Ids(s)
  {
    if x != s[0] {
      IdsHas(s[1..], x);
    }
  }

  lemma {:induction false} ButHas(s: seq<Timer>, to: Timer, x: Timer)
    requires x in s && x != to
    ensures x in But(s, to)
  {
    if x != s[0] {
      ButHas(s[1..], to, x);
    }
  }

  lemma {:induction false} OthersHas(q: seq<TimerObject>, to: Timer, o: TimerObject, x: Timer)
    requires o in q && x in o.timers && x != to
    ensures x in Others(q, to)
  {
    if o == q[0] {
      ButHas(o.timers, to, x);
    } else {
      OthersHas(q[1..], to, o, x);
    }
  }

  // The counter n steps after start, and the identifier made of it
  function Counted(start: nat, n: nat): (r: nat)
    requires start < 0x1_0000_0000
    ensures r < 0x1_0000_0000
  {
    if n == 0 then start else Uint32(Counted(start, n - 1) + 1)
  }

  function Candidate(start: nat, n: nat): (id: int)
    requires start < 0x1_0000_0000
    ensures -0x8000_0000 <= id < 0x8000_0000
  {
    Int32(Counted(start, n))
  }

  lemma {:induction false} CountedIs(start: nat, n: nat)
    requires start < 0x1_0000_0000
    ensures Counted(start, n) == Uint32(start + n)
  {
    if n > 0 {
      CountedIs(start, n - 1);
      var x := start + n - 1;
      assert x == 0x1_0000_0000 * (x / 0x1_0000_0000) + Uint32(x);
    }
  }

  lemma CandidatesDiffer(start: nat, a: nat, b: nat)
    requires start < 0x1_0000_0000 && a < b < a + 0x1_0000_0000
    ensures Candidate(start, a) != Candidate(start, b)
  {
    hide Int32;
    CountedIs(start, a);
    CountedIs(start, b);
    Int32Of(Counted(start, a));
    Int32Of(Counted(start, b));
    var x, y := start + a, start + b;
    assert x == 0x1_0000_0000 * (x / 0x1_0000_0000) + Uint32(x) && y == 0x1_0000_0000 * (y / 0x1_0000_0000) + Uint32(y);
  }

  ghost function Candidates(start: nat, n: nat): set<int>
    requires start < 0x1_0000_0000
  {
    if n == 0 then {} else Candidates(start, n - 1) + {Candidate(start, n)}
  }

  // n successive candidates are n different numbers, so they cannot all be among fewer.
  lemma EnoughIds(used: set<int>, start: nat, n: nat)
    requires start < 0x1_0000_0000 && n <= 0x1_0000_0000 && Candidates(start, n) <= used
    ensures n <= |used|
  {
    AllDifferent(start, n);
    SubsetSize(Candidates(start, n), used);
  }

  lemma {:induction false} AllDifferent(start: nat, n: nat)
    requires start < 0x1_0000_0000 && n <= 0x1_0000_0000
    ensures |Candidates(start, n)| == n
  {
    if n > 0 {
      AllDifferent(start, n - 1);
      NotTried(start, n, n - 1);
    }
  }

  lemma {:induction false} NotTried(start: nat, n: nat, m: nat)
    requires start < 0x1_0000_0000 && m < n <= 0x1_0000_0000
    ensures Candidate(start, n) !in Candidates(start, m)
  {
    if m > 0 {
      NotTried(start, n, m - 1);
      CandidatesDiffer(start, m, n);
    }
  }

  lemma {:induction false} SubsetSize(a: set<int>, b: set<int>)
    requires a <= b
    ensures |a| <= |b|
  {
    assert b == a + (b - a);
  }
}
