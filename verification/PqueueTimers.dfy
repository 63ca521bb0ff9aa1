/**
  `RunningTimersImpl<., 1>` of `src/timer_test.cxx`: a priority queue of
  expiration points and timers in which a stopped timer stays queued with its
  cancel flag set.

  `std::priority_queue` is taken for what it promises: its top is some element
  with the smallest expiration point, it does not say which one.
 */
module PqueueTimers {
  import opened Timers

  datatype Data = Data(point: int, id: Id)

  datatype TimerImpl = TimerImpl(running: bool, point: int, callBack: CallBack, canceled: bool)

  /** Element `k` is among the first `n` and none of those has a smaller point. */
  predicate IsFirst(queue: seq<Data>, n: nat, k: int)
    requires n <= |queue|
  {
    0 <= k < n && forall j :: 0 <= j < n ==> queue[k].point <= queue[j].point
  }

  datatype Store = Store(queue: seq<Data>, timers: map<Id, TimerImpl>) {

    predicate IsRunning(t: Id) {
      t in timers && timers[t].running
    }

    ghost function Live(): Live {
      map t | t in timers && IsRunning(t) :: Timer(timers[t].point, timers[t].callBack)
    }

    ghost predicate IsQueued(t: Id) {
      exists k :: 0 <= k < |queue| && queue[k].id == t
    }

    /**
      An entry is left of a timer that neither runs nor is canceled: it is not
      popped as canceled, and before it can be popped after firing an assertion
      fails, either in `expire`, which wants its timer to be running, or
      already in `expire_next`, which wants its timer not to be overdue.
     */
    ghost predicate IsDoomed(t: Id) {
      IsQueued(t) && t in timers && !timers[t].running && !timers[t].canceled
    }

    ghost predicate Distinct(i: int, j: int) {
      0 <= i < j < |queue| ==> queue[i].id != queue[j].id
    }

    ghost predicate TimerLinked(t: Id) {
      IsRunning(t) ==> !timers[t].canceled && Data(timers[t].point, t) in queue
    }

    /** A queued timer is running or canceled, and keeps its point. */
    ghost predicate DataLinked(d: Data) {
      d in queue ==>
        d.id in timers && timers[d.id].point == d.point && timers[d.id].canceled == !timers[d.id].running
    }

    ghost predicate Linked() {
      && (forall i, j {:trigger Distinct(i, j)} :: Distinct(i, j))
      && (forall t {:trigger TimerLinked(t)} :: TimerLinked(t))
      && (forall d {:trigger DataLinked(d)} :: DataLinked(d))
    }

    ghost predicate IsTop(k: int) {
      IsFirst(queue, |queue|, k)
    }

    ghost function Pushed(t: Id, timer: Timer): Store {
      Store(queue + [Data(timer.point, t)], timers[t := TimerImpl(true, timer.point, timer.callBack, false)])
    }

    ghost function Stopped(t: Id): Store {
      if IsRunning(t) then this.(timers := timers[t := timers[t].(running := false, canceled := true)]) else this
    }

    ghost function Popped(k: nat): Store
      requires k < |queue|
    {
      this.(queue := queue[..k] + queue[k + 1..])
    }

    ghost function NotRunning(t: Id): Store
      requires t in timers
    {
      this.(timers := timers[t := timers[t].(running := false)])
    }
  }

  lemma PushedKeeps(s: Store, t: Id, timer: Timer)
    requires s.Linked() && !s.IsRunning(t) && !s.IsQueued(t)
    ensures s.Pushed(t, timer).Linked()
    ensures s.Pushed(t, timer).Live() == s.Live()[t := timer]
  {
    var s' := s.Pushed(t, timer);
    forall i, j ensures s'.Distinct(i, j) {
      assert s.Distinct(i, j);
    }
    forall u ensures s'.TimerLinked(u) {
      assert s.TimerLinked(u);
      assert s'.queue[|s.queue|] == Data(timer.point, t);
    }
    forall d ensures s'.DataLinked(d) {
      assert s.DataLinked(d);
    }
  }

  /** Starting a timer whose canceled entry is still queued revives that entry. */
  lemma PushedTwice(s: Store, t: Id, timer: Timer)
    requires s.IsQueued(t)
    ensures !s.Pushed(t, timer).Linked()
  {
    var k :| 0 <= k < |s.queue| && s.queue[k].id == t;
    assert !s.Pushed(t, timer).Distinct(k, |s.queue|);
  }

  lemma StoppedKeeps(s: Store, t: Id)
    requires s.Linked()
    ensures s.Stopped(t).Linked()
    ensures s.Stopped(t).Live() == s.Live() - {t}
  {
    var s' := s.Stopped(t);
    forall i, j ensures s'.Distinct(i, j) {
      assert s.Distinct(i, j);
    }
    forall u ensures s'.TimerLinked(u) {
      assert s.TimerLinked(u);
    }
    forall d ensures s'.DataLinked(d) {
      assert s.DataLinked(d);
    }
  }

  lemma PoppedQueue(s: Store, k: nat)
    requires s.Linked() && k < |s.queue|
    ensures forall d :: d in s.Popped(k).queue <==> d in s.queue && d.id != s.queue[k].id
  {
    var s' := s.Popped(k);
    forall d | d in s'.queue ensures d in s.queue && d.id != s.queue[k].id {
      var j :| 0 <= j < |s'.queue| && s'.queue[j] == d;
      assert s.queue[if j < k then j else j + 1] == d;
      assert s.Distinct(j, k) && s.Distinct(k, j + 1);
    }
    forall d | d in s.queue && d.id != s.queue[k].id ensures d in s'.queue {
      var j :| 0 <= j < |s.queue| && s.queue[j] == d;
      assert s'.queue[if j < k then j else j - 1] == d;
    }
  }

  lemma PoppedDistinct(s: Store, k: nat, i: int, j: int)
    requires s.Linked() && k < |s.queue|
    ensures s.Popped(k).Distinct(i, j)
  {
    assert s.Distinct(if i < k then i else i + 1, if j < k then j else j + 1);
  }

  /** The top is popped after its timer fired, or if it was canceled before. */
  lemma PoppedKeeps(s: Store, k: nat)
    requires s.Linked() && k < |s.queue|
    ensures s.queue[k].id in s.timers
    ensures s.Popped(k).NotRunning(s.queue[k].id).Linked()
    ensures s.Popped(k).NotRunning(s.queue[k].id).Live() == s.Live() - {s.queue[k].id}
    ensures s.timers[s.queue[k].id].canceled ==>
              s.Popped(k).Linked() && s.Popped(k).Live() == s.Live()
  {
    assert s.DataLinked(s.queue[k]);
    var s1 := s.Popped(k);
    var s' := s1.NotRunning(s.queue[k].id);
    PoppedQueue(s, k);
    forall i, j ensures s1.Distinct(i, j) && s'.Distinct(i, j) {
      PoppedDistinct(s, k, i, j);
      assert s'.queue == s1.queue;
    }
    forall u ensures s'.TimerLinked(u) {
      assert s.TimerLinked(u);
    }
    forall d ensures s'.DataLinked(d) {
      assert s.DataLinked(d);
    }
    if s.timers[s.queue[k].id].canceled {
      assert s' == s1;
      assert s.Live() - {s.queue[k].id} == s.Live();
    }
  }

  /** The top is the next to expire if it was not canceled. */
  lemma TopIsNext(s: Store, k: nat)
    requires s.Linked() && s.IsTop(k)
    ensures s.queue[k].id in s.timers
    ensures var t := s.queue[k].id;
            !s.timers[t].canceled ==>
              s.IsRunning(t) && t in s.Live() && s.timers[t].point == s.Live()[t].point == NextPoint(s.Live())
  {
    var t := s.queue[k].id;
    assert s.DataLinked(s.queue[k]);
    if !s.timers[t].canceled {
      forall u | u in s.Live() ensures s.queue[k].point <= s.Live()[u].point {
        assert s.TimerLinked(u);
      }
      assert t in s.Live();
      assert IsNextPoint(s.Live(), s.queue[k].point);
      NextPointUnique(s.Live(), s.queue[k].point);
    }
  }

  lemma LiveIsQueued(s: Store)
    requires s.Linked()
    ensures s.queue == [] ==> s.Live() == map[]
  {
    if t :| t in s.Live() {
      assert s.TimerLinked(t);
    }
  }

  lemma {:induction false} FirstExists(queue: seq<Data>, n: nat) returns (k: int)
    requires 0 < n <= |queue|
    ensures IsFirst(queue, n, k)
  {
    if n == 1 {
      k := 0;
    } else {
      k := FirstExists(queue, n - 1);
      if queue[n - 1].point < queue[k].point {
        k := n - 1;
      }
    }
  }

  /** The timer at the top is expired and called back, and its entry popped. */
  ghost function Expired(s: Store, k: nat): Store
    requires k < |s.queue| && s.queue[k].id in s.timers
  {
    var t := s.queue[k].id;
    var callBack := s.timers[t].callBack;
    var s1 := s.Popped(k).NotRunning(t);
    if callBack.Stops? then s1.Stopped(callBack.other) else s1
  }

  lemma ExpiredKeeps(s: Store, k: nat)
    requires s.Linked() && k < |s.queue| && s.queue[k].id in s.timers && s.IsRunning(s.queue[k].id)
    ensures Expired(s, k).Linked()
    ensures Expired(s, k).Live() == AfterFiring(s.Live(), {s.queue[k].id})
    ensures !Expired(s, k).timers[s.queue[k].id].canceled
  {
    var t := s.queue[k].id;
    var callBack := s.timers[t].callBack;
    PoppedKeeps(s, k);
    assert s.TimerLinked(t);
    if callBack.Stops? {
      StoppedKeeps(s.Popped(k).NotRunning(t), callBack.other);
      assert StoppedBy(s.Live(), {t}) == {callBack.other};
    } else {
      assert StoppedBy(s.Live(), {t}) == {};
    }
  }

  lemma LinkedIsNotDoomed(s: Store, t: Id)
    requires s.Linked()
    ensures !s.IsDoomed(t)
  {
    if s.IsQueued(t) {
      var k :| 0 <= k < |s.queue| && s.queue[k].id == t;
      assert s.DataLinked(s.queue[k]);
    }
  }

  /**
    A timer is started again: when it expires, by whichever entry, it leaves
    an entry on which the program fails if and only if it was still queued.
   */
  lemma RestartFails(s: Store, t: Id, timer: Timer, k: nat)
    requires s.Linked() && !s.IsRunning(t)
    requires k < |s.queue| + 1 && s.Pushed(t, timer).queue[k].id == t
    ensures Expired(s.Pushed(t, timer), k).IsDoomed(t) <==> s.IsQueued(t)
  {
    var s1 := s.Pushed(t, timer);
    if s.IsQueued(t) {
      var j :| 0 <= j < |s.queue| && s.queue[j].id == t;
      var other := if k == |s.queue| then j else |s.queue|;
      assert s1.queue[other].id == t && other != k;
      if k < |s.queue| {
        assert s.Distinct(j, k) && s.Distinct(k, j);
      }
      assert s1.Popped(k).queue[if other < k then other else other - 1].id == t;
    } else {
      PushedKeeps(s, t, timer);
      assert s1.IsRunning(t);
      ExpiredKeeps(s1, k);
      LinkedIsNotDoomed(Expired(s1, k), t);
    }
  }

  lemma PoppedOther(s: Store, t: Id, k: nat)
    requires s.IsQueued(t) && k < |s.queue| && s.queue[k].id != t
    ensures s.Popped(k).IsQueued(t)
  {
    var j :| 0 <= j < |s.queue| && s.queue[j].id == t;
    assert s.Popped(k).queue[if j < k then j else j - 1].id == t;
  }

  /** Nothing but starting the same timer once more prevents the failure. */
  lemma DoomedStays(s: Store, t: Id, u: Id, timer: Timer, k: nat)
    requires s.IsDoomed(t)
    ensures s.Stopped(u).IsDoomed(t)
    ensures u != t ==> s.Pushed(u, timer).IsDoomed(t)
    ensures k < |s.queue| && s.queue[k].id != t && s.queue[k].id in s.timers ==>
              s.Popped(k).IsDoomed(t) && Expired(s, k).IsDoomed(t)
  {
    var j :| 0 <= j < |s.queue| && s.queue[j].id == t;
    assert s.Stopped(u).queue[j].id == t && s.Pushed(u, timer).queue[j].id == t;
    if k < |s.queue| && s.queue[k].id != t && s.queue[k].id in s.timers {
      PoppedOther(s, t, k);
      var i :| 0 <= i < |s.Popped(k).queue| && s.Popped(k).queue[i].id == t;
      assert Expired(s, k).queue[i].id == t;
    }
  }

  /** Stopping a running timer and starting it again always leads there. */
  lemma StopThenStart(s: Store, t: Id, timer: Timer, k: nat)
    requires s.Linked() && s.IsRunning(t)
    requires k < |s.queue| + 1 && s.Stopped(t).Pushed(t, timer).queue[k].id == t
    ensures Expired(s.Stopped(t).Pushed(t, timer), k).IsDoomed(t)
  {
    assert s.TimerLinked(t);
    StoppedKeeps(s, t);
    var j :| 0 <= j < |s.queue| && s.queue[j] == Data(s.timers[t].point, t);
    assert s.Stopped(t).queue[j].id == t;
    RestartFails(s.Stopped(t), t, timer, k);
  }

  // ----- The store as it is changed in place -----

  class RunningTimers {
    var queue: seq<Data>
    var timers: map<Id, TimerImpl>

    ghost function Current(): Store
      reads this
    {
      Store(queue, timers)
    }

    ghost function Live(): Live
      reads this
    {
      Current().Live()
    }

    ghost predicate Valid()
      reads this
    {
      Current().Linked()
    }

    constructor ()
      ensures Valid() && Live() == map[] && timers == map[]
    {
      queue, timers := [], map[];
    }

    /** The store stays consistent, and the expiry of the timer leaves nothing behind, if it is not still queued. */
    method Start(t: Id, timer: Timer)
      requires Valid() && t !in Live()
      modifies this
      ensures Current() == old(Current()).Pushed(t, timer)
      ensures Valid() <==> !old(Current()).IsQueued(t)
      ensures Valid() ==> Live() == old(Live())[t := timer]
      ensures forall k: nat | k < |queue| && queue[k].id == t ::
                Expired(Current(), k).IsDoomed(t) <==> old(Current()).IsQueued(t)
    {
      ghost var before := Current();
      forall k: nat | k < |before.queue| + 1 && before.Pushed(t, timer).queue[k].id == t
        ensures Expired(before.Pushed(t, timer), k).IsDoomed(t) <==> before.IsQueued(t)
      {
        RestartFails(before, t, timer, k);
      }
      if before.IsQueued(t) {
        PushedTwice(before, t, timer);
      } else {
        PushedKeeps(before, t, timer);
      }
      queue := queue + [Data(timer.point, t)];
      timers := timers[t := TimerImpl(true, timer.point, timer.callBack, false)];
      assert Current() == before.Pushed(t, timer);
    }

    /** Only a timer that is running is canceled, and it never was canceled before. */
    method Stop(t: Id)
      requires Current().IsRunning(t) ==> !timers[t].canceled
      modifies this`timers
      ensures Current() == old(Current()).Stopped(t) && timers.Keys == old(timers.Keys)
      ensures old(Valid()) ==> Valid() && Live() == old(Live()) - {t}
    {
      ghost var before := Current();
      if before.Linked() {
        StoppedKeeps(before, t);
      }
      if t in timers && timers[t].running {
        timers := timers[t := timers[t].(running := false, canceled := true)];
      }
      assert Current() == before.Stopped(t);
    }

    /** `m_pqueue.top()`, as an index. */
    method Top() returns (k: nat)
      requires queue != []
      ensures Current().IsTop(k)
    {
      ghost var first := FirstExists(queue, |queue|);
      k :| 0 <= k < |queue| && IsFirst(queue, |queue|, k);
    }

    /** `timer->expire()` for the timer at the top, and the pop of its entry. */
    method ExpireTop(k: nat)
      requires Valid() && Current().IsTop(k) && Current().IsRunning(queue[k].id)
      modifies this
      ensures Valid() && Live() == AfterFiring(old(Live()), {old(queue[k].id)})
      ensures timers.Keys == old(timers.Keys) && |queue| == |old(queue)| - 1
      ensures !timers[old(queue[k].id)].canceled
    {
      ghost var before := Current();
      ExpiredKeeps(before, k);
      var t := queue[k].id;
      var callBack := timers[t].callBack;
      timers := timers[t := timers[t].(running := false)];
      if callBack.Stops? {
        assert before.TimerLinked(callBack.other);
        Stop(callBack.other);
      }
      queue := queue[..k] + queue[k + 1..];
      assert Current() == Expired(before, k);
    }

    method PopCanceled(k: nat)
      requires Valid() && k < |queue| && queue[k].id in timers && timers[queue[k].id].canceled
      modifies this`queue
      ensures Valid() && Live() == old(Live()) && |queue| == |old(queue)| - 1
    {
      PoppedKeeps(Current(), k);
      queue := queue[..k] + queue[k + 1..];
    }

    /**
      Fires due timers, each once, until none is left; `fired` lists them in
      the order in which they fired.
     */
    method ExpireNext() returns (now: int, fired: seq<Id>)
      requires Valid() && Live() != map[]
      modifies this
      ensures Valid() && timers.Keys == old(timers.Keys)
      ensures NoDuplicates(fired) && Expires(old(Live()), now, Elements(fired), Live())
    {
      ghost var live := Live();
      LiveIsQueued(Current());
      now, fired := 0, [];
      var again := true;
      while again
        invariant Valid() && timers.Keys == old(timers.Keys)
        invariant again ==> Live() == live && queue != []
        invariant !again ==> now == NextPoint(live) && |fired| == 1
                             && fired[0] in Due(live) && Live() == AfterFiring(live, {fired[0]})
        decreases again, |queue|
      {
        var k := Top();
        TopIsNext(Current(), k);
        var t := queue[k].id;
        if !timers[t].canceled {
          now := timers[t].point;
          ExpireTop(k);
          fired := [t];
        } else {
          PopCanceled(k);
          LiveIsQueued(Current());
        }
        again := timers[t].canceled;
      }
      assert Elements(fired) == {fired[0]};
      while queue != []
        invariant Valid() && timers.Keys == old(timers.Keys)
        invariant NoDuplicates(fired) && {} < Elements(fired) <= Due(live)
        invariant Live() == AfterFiring(live, Elements(fired))
        decreases |queue|
      {
        var k := Top();
        TopIsNext(Current(), k);
        var t := queue[k].id;
        if !timers[t].canceled {
          assert timers[t].point >= now;
          if timers[t].point != now {
            StillRunningIsLater(live, Elements(fired));
            return;
          }
          FiringOneMore(live, Elements(fired), t);
          ExpireTop(k);
          FiredOneMore(fired, t);
          fired := fired + [t];
        } else {
          PopCanceled(k);
        }
      }
      LiveIsQueued(Current());
    }
  }
}
