/**
  The cross-check of `src/timer_test.cxx`: the multimap store and the priority
  queue store are driven by the same operations.
 */
module TimerCrossCheck {
  import opened Timers
  import MultimapTimers
  import PqueueTimers

  /** The counters of the first store and the size of its map. */
  datatype Account = Account(size: int, running: int, expired: int, canceledRemoved: int, canceled: int)

  /** How many timers fired in all. */
  ghost function Total(fired: seq<set<Id>>): nat {
    if fired == [] then 0 else Total(fired[..|fired| - 1]) + |fired[|fired| - 1]|
  }

  lemma TotalSnoc(fired: seq<set<Id>>, ids: set<Id>)
    ensures Total(fired + [ids]) == Total(fired) + |ids|
  {
    assert (fired + [ids])[..|fired|] == fired;
  }

  /** The first store is consistent and holds the running timers of the specification. */
  ghost predicate Agree0(store0: MultimapTimers.RunningTimers, s: Spec)
    reads store0
  {
    && store0.Valid() && store0.Live() == s.live && store0.expiredTimers == Total(s.fired)
    && store0.canceledTimers + |s.live| == |s.started|
  }

  /** So is the second store, and it has seen only timers that were started. */
  ghost predicate Agree1(store1: PqueueTimers.RunningTimers, s: Spec)
    reads store1
  {
    store1.Valid() && store1.Live() == s.live && store1.timers.Keys <= s.started
  }

  method Expire0(store0: MultimapTimers.RunningTimers, ghost s: Spec) returns (now: int, fired: set<Id>)
    requires Agree0(store0, s) && Legal(s, ExpireNext)
    modifies store0
    ensures Agree0(store0, Next(s, ExpireNext))
    ensures now == NextPoint(s.live) && fired == Due(s.live)
  {
    var list;
    now, list := store0.ExpireNext();
    fired := Elements(list);
    AllDueFire(s.live, now, fired, store0.Live());
    TotalSnoc(s.fired, Due(s.live));
  }

  method Expire1(store1: PqueueTimers.RunningTimers, ghost s: Spec) returns (now: int, fired: set<Id>)
    requires Agree1(store1, s) && Legal(s, ExpireNext)
    modifies store1
    ensures Agree1(store1, Next(s, ExpireNext))
    ensures now == NextPoint(s.live) && fired == Due(s.live)
  {
    var list;
    now, list := store1.ExpireNext();
    fired := Elements(list);
    AllDueFire(s.live, now, fired, store1.Live());
  }

  lemma OneMoreStarted(s: Spec, t: Id, timer: Timer)
    requires t !in s.started && t !in s.live
    ensures |s.started + {t}| == |s.started| + 1 && |s.live[t := timer]| == |s.live| + 1
  {
    assert s.live[t := timer].Keys == s.live.Keys + {t};
  }

  method StartBoth(store0: MultimapTimers.RunningTimers, store1: PqueueTimers.RunningTimers,
                   t: Id, timer: Timer, ghost s: Spec)
    requires store0 as object != store1 && Agree0(store0, s) && Agree1(store1, s) && Legal(s, Start(t, timer))
    modifies store0, store1
    ensures Agree0(store0, Next(s, Start(t, timer))) && Agree1(store1, Next(s, Start(t, timer)))
  {
    NotStarted(store1.Current(), t);
    OneMoreStarted(s, t, timer);
    store0.Start(t, timer);
    store1.Start(t, timer);
  }

  method StopBoth(store0: MultimapTimers.RunningTimers, store1: PqueueTimers.RunningTimers, t: Id, ghost s: Spec)
    requires store0 as object != store1 && Agree0(store0, s) && Agree1(store1, s)
    modifies store0, store1
    ensures Agree0(store0, Next(s, Stop(t))) && Agree1(store1, Next(s, Stop(t)))
  {
    RunningNotCanceled(store1.Current(), t);
    store0.Stop(t);
    store1.Stop(t);
  }

  lemma RunSnoc(front: seq<Op>, op: Op)
    requires Run(front + [op]).Some?
    ensures Run(front).Some? && Legal(Run(front).value, op)
    ensures Run(front + [op]) == Some(Next(Run(front).value, op))
  {
    assert (front + [op])[..|front|] == front;
  }

  lemma PrefixSnoc(ops: seq<Op>, k: nat)
    requires k < |ops|
    ensures ops[..k + 1] == ops[..k] + [ops[k]]
  {
  }

  /**
    Both stores fire the same timers at the same points, namely those of the
    specification, in every legal run, and the counters keep account of every
    entry of the map.
   */
  method Drive(ops: seq<Op>) returns (points0: seq<int>, points1: seq<int>, fired0: seq<set<Id>>, fired1: seq<set<Id>>,
                                   account: Account)
    requires Run(ops).Some?
    ensures points0 == points1 == Run(ops).value.points
    ensures fired0 == fired1 == Run(ops).value.fired
    ensures IsSchedule(ops, points0, fired0)
    ensures account.running == |Run(ops).value.live| == |Running(ops, fired0)| && account.expired == Total(fired0)
    ensures account.canceled + account.running == |Started(ops)|
    ensures account.size == account.running + account.canceled - account.expired - account.canceledRemoved
  {
    var store0 := new MultimapTimers.RunningTimers();
    var store1 := new PqueueTimers.RunningTimers();
    points0, points1, fired0, fired1 := [], [], [], [];
    ghost var s := NOTHING_STARTED;
    for k := 0 to |ops|
      invariant fresh(store0) && fresh(store1) && store0 as object != store1
      invariant Run(ops[..k]) == Some(s) && Agree0(store0, s) && Agree1(store1, s)
      invariant points0 == s.points == points1 && fired0 == s.fired == fired1
    {
      LegalPrefix(ops, k + 1);
      PrefixSnoc(ops, k);
      RunSnoc(ops[..k], ops[k]);
      match ops[k] {
        case Start(t, timer) => StartBoth(store0, store1, t, timer, s);
        case Stop(t) => StopBoth(store0, store1, t, s);
        case ExpireNext =>
          var now0, set0 := Expire0(store0, s);
          var now1, set1 := Expire1(store1, s);
          // The point that the second store expires at is the one that the first store remembered.
          assert now0 == now1;
          points0, fired0 := points0 + [now0], fired0 + [set0];
          points1, fired1 := points1 + [now1], fired1 + [set1];
      }
      s := Next(s, ops[k]);
    }
    assert ops[..|ops|] == ops;
    RunIsSchedule(ops);
    RunningIsLive(ops);
    StartedTimers(ops);
    account := Account(|store0.entries|, store0.runningTimers, store0.expiredTimers,
                       store0.canceledRemoved, store0.canceledTimers);
  }

  /** The timers that the operations start. */
  ghost function Started(ops: seq<Op>): set<Id> {
    set op | op in ops && op.Start? :: op.id
  }

  lemma StartedTimers(ops: seq<Op>)
    requires Run(ops).Some?
    ensures Started(ops) == Run(ops).value.started
  {
    RunIsSchedule(ops);
    forall t ensures t in Started(ops) <==> t in Run(ops).value.started {
      if timer :| Start(t, timer) in ops {
        assert Start(t, timer).id in Started(ops);
      }
    }
  }

  lemma NotStarted(s: PqueueTimers.Store, t: Id)
    requires s.Linked() && t !in s.timers
    ensures !s.IsQueued(t) && t !in s.Live()
  {
    forall k | 0 <= k < |s.queue| ensures s.queue[k].id != t {
      assert s.DataLinked(s.queue[k]);
    }
  }

  lemma RunningNotCanceled(s: PqueueTimers.Store, t: Id)
    requires s.Linked()
    ensures s.IsRunning(t) ==> !s.timers[t].canceled
  {
    assert s.TimerLinked(t);
  }
}
