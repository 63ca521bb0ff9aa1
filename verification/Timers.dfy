/**
  What a store of running timers does, independent of how it is stored
  (`src/timer_test.cxx`).  A timer has an expiration point and a call back
  that either does nothing the store notices or stops another timer.
 */
module Timers {

  type Id = nat

  datatype Option<T> = None | Some(value: T)

  datatype CallBack = Nothing | Stops(other: Id)

  datatype Timer = Timer(point: int, callBack: CallBack)

  /** The running timers. */
  type Live = map<Id, Timer>

  ghost predicate IsNextPoint(live: Live, p: int) {
    && (exists t :: t in live && live[t].point == p)
    && (forall t | t in live :: p <= live[t].point)
  }

  lemma {:induction false} NextPointExists(live: Live)
    requires live != map[]
    ensures exists p :: IsNextPoint(live, p)
    decreases |live|
  {
    var t :| t in live;
    var rest := live - {t};
    if rest == map[] {
      assert forall u | u in live :: u == t by {
        forall u | u in live ensures u == t {
          assert u != t ==> u in rest;
        }
      }
      assert IsNextPoint(live, live[t].point);
    } else {
      NextPointExists(rest);
      var p :| IsNextPoint(rest, p);
      assert forall u | u in live :: u == t || u in rest;
      assert IsNextPoint(live, if live[t].point < p then live[t].point else p);
    }
  }

  ghost function NextPoint(live: Live): (p: int)
    requires live != map[]
    ensures IsNextPoint(live, p)
  {
    NextPointExists(live);
    var p :| IsNextPoint(live, p);
    p
  }

  /** The timers that expire next, all at once. */
  ghost function Due(live: Live): set<Id>
    requires live != map[]
  {
    set t | t in live && live[t].point == NextPoint(live)
  }

  ghost function StoppedBy(live: Live, fired: set<Id>): set<Id> {
    set t | t in fired && t in live && live[t].callBack.Stops? :: live[t].callBack.other
  }

  /** Timers that fired no longer run, nor do those that their call backs stopped. */
  ghost function AfterFiring(live: Live, fired: set<Id>): Live {
    live - fired - StoppedBy(live, fired)
  }

  /** No due timer's call back stops another due timer. */
  ghost predicate NoTies(live: Live)
    requires live != map[]
  {
    forall t | t in Due(live) && live[t].callBack.Stops? ::
      live[t].callBack.other == t || live[t].callBack.other !in Due(live)
  }

  lemma FiringOneMore(live: Live, fired: set<Id>, t: Id)
    requires t in AfterFiring(live, fired)
    ensures AfterFiring(AfterFiring(live, fired), {t}) == AfterFiring(live, fired + {t})
  {
    var now := AfterFiring(live, fired);
    assert StoppedBy(live, fired + {t}) == StoppedBy(live, fired) + StoppedBy(now, {t});
  }

  /** The timers in a list of those that fired. */
  function Elements(fired: seq<Id>): set<Id> {
    set t | t in fired
  }

  ghost predicate NoDuplicates(fired: seq<Id>) {
    |Elements(fired)| == |fired|
  }

  lemma FiredOneMore(fired: seq<Id>, t: Id)
    requires NoDuplicates(fired) && t !in Elements(fired)
    ensures NoDuplicates(fired + [t]) && Elements(fired + [t]) == Elements(fired) + {t}
  {
    assert Elements(fired + [t]) == Elements(fired) + {t};
  }

  /**
    A correct `expire_next`: due timers fire, what they stop no longer runs,
    and nothing that still runs is due.  Which due timers fire may depend on
    their order, if some of them stop others.
   */
  ghost predicate Expires(live: Live, now: int, fired: set<Id>, after: Live) {
    && live != map[] && now == NextPoint(live)
    && fired != {} && fired <= Due(live)
    && after == AfterFiring(live, fired)
    && (after != map[] ==> now < NextPoint(after))
  }

  lemma StillRunningIsLater(live: Live, fired: set<Id>)
    requires live != map[] && AfterFiring(live, fired) != map[]
    ensures NextPoint(live) <= NextPoint(AfterFiring(live, fired))
  {
    var after := AfterFiring(live, fired);
    var t :| t in after && after[t].point == NextPoint(after);
    assert t in live;
  }

  lemma NoEarlierThanNext(live: Live)
    ensures forall t | t in live :: NextPoint(live) <= live[t].point
  {
  }

  /** Every due timer fired or was stopped by one that did. */
  lemma DueFiredOrStopped(live: Live, now: int, fired: set<Id>, after: Live, t: Id)
    requires Expires(live, now, fired, after) && t in Due(live)
    ensures t in fired || t in StoppedBy(live, fired)
  {
    NoEarlierThanNext(after);
    assert t in after <==> t !in fired && t !in StoppedBy(live, fired);
  }

  /** If no due timer stops another one, exactly the due timers fire. */
  lemma AllDueFire(live: Live, now: int, fired: set<Id>, after: Live)
    requires Expires(live, now, fired, after) && NoTies(live)
    ensures fired == Due(live)
  {
    forall t | t in Due(live) ensures t in fired {
      DueFiredOrStopped(live, now, fired, after, t);
    }
  }

  /** Firing goes on until nothing is due; a timer that was stopped does not fire. */
  lemma {:induction false} FireOn(live: Live, fired: set<Id>, t: Id) returns (all: set<Id>)
    requires live != map[] && {} != fired <= Due(live)
    requires t !in fired && t in StoppedBy(live, fired)
    ensures Expires(live, NextPoint(live), all, AfterFiring(live, all))
    ensures t !in all
    decreases Due(live) - fired
  {
    var after := AfterFiring(live, fired);
    if u :| u in after && u in Due(live) {
      assert StoppedBy(live, fired) <= StoppedBy(live, fired + {u});
      all := FireOn(live, fired + {u}, t);
    } else {
      all := fired;
      if after != map[] {
        StillRunningIsLater(live, fired);
        var u :| u in after && after[u].point == NextPoint(after);
        assert u in live && u !in Due(live);
      }
    }
  }

  /** Which timers fire does not depend on their order if and only if no due timer stops another one. */
  lemma AlwaysAllDue(live: Live)
    requires live != map[]
    ensures (forall now, fired, after | Expires(live, now, fired, after) :: fired == Due(live)) <==> NoTies(live)
  {
    if NoTies(live) {
      forall now, fired, after | Expires(live, now, fired, after) ensures fired == Due(live) {
        AllDueFire(live, now, fired, after);
      }
    } else {
      var t :| t in Due(live) && live[t].callBack.Stops?
               && live[t].callBack.other != t && live[t].callBack.other in Due(live);
      var other := live[t].callBack.other;
      assert other in StoppedBy(live, {t});
      var all := FireOn(live, {t}, other);
      assert Expires(live, NextPoint(live), all, AfterFiring(live, all)) && all != Due(live);
    }
  }

  lemma NextPointUnique(live: Live, p: int)
    requires live != map[] && IsNextPoint(live, p)
    ensures NextPoint(live) == p
  {
  }

  // ----- Whole runs -----

  datatype Op = Start(id: Id, timer: Timer) | Stop(id: Id) | ExpireNext

  /** `points` and `fired` say at which point each `ExpireNext` fired which timers. */
  datatype Spec = Spec(started: set<Id>, live: Live, points: seq<int>, fired: seq<set<Id>>)

  const NOTHING_STARTED := Spec({}, map[], [], [])

  /** Every timer is started at most once, and something is running when timers expire. */
  ghost predicate Legal(s: Spec, op: Op) {
    match op
    case Start(t, _) => t !in s.started
    case Stop(_) => true
    case ExpireNext => s.live != map[] && NoTies(s.live)
  }

  ghost function Next(s: Spec, op: Op): Spec
    requires Legal(s, op)
  {
    match op
    case Start(t, timer) => s.(started := s.started + {t}, live := s.live[t := timer])
    case Stop(t) => s.(live := s.live - {t})
    case ExpireNext =>
      Spec(s.started, AfterFiring(s.live, Due(s.live)), s.points + [NextPoint(s.live)], s.fired + [Due(s.live)])
  }

  /** The state after a list of operations, if all of them are legal. */
  ghost function Run(ops: seq<Op>): Option<Spec> {
    if ops == [] then Some(NOTHING_STARTED)
    else match Run(ops[..|ops| - 1])
      case None => None
      case Some(s) => if Legal(s, ops[|ops| - 1]) then Some(Next(s, ops[|ops| - 1])) else None
  }

  lemma {:induction false} LegalPrefix(ops: seq<Op>, k: nat)
    requires Run(ops).Some? && k <= |ops|
    ensures Run(ops[..k]).Some?
    decreases |ops|
  {
    if k == |ops| {
      assert ops[..k] == ops;
    } else {
      assert ops[..|ops| - 1][..k] == ops[..k];
      LegalPrefix(ops[..|ops| - 1], k);
    }
  }

  // ----- What runs mean -----

  /** How many times timers were expired. */
  ghost function Expiries(ops: seq<Op>): nat {
    if ops == [] then 0 else Expiries(ops[..|ops| - 1]) + if ops[|ops| - 1].ExpireNext? then 1 else 0
  }

  /** An earlier start gave timer `u` a call back that stops `t`. */
  ghost predicate StartedToStop(ops: seq<Op>, u: Id, t: Id) {
    exists point :: Start(u, Timer(point, Stops(t))) in ops
  }

  /**
    Operation `j` ends timer `t`: it stops it, or makes it fire, or fires a
    timer that was started to stop it; `fired` says what fired at each expiry.
   */
  ghost predicate Ends(ops: seq<Op>, fired: seq<set<Id>>, j: int, t: Id)
    requires 0 <= j < |ops|
  {
    match ops[j]
    case Start(_, _) => false
    case Stop(u) => u == t
    case ExpireNext =>
      var e := Expiries(ops[..j]);
      && e < |fired|
      && (t in fired[e] || exists u :: u in fired[e] && StartedToStop(ops[..j], u, t))
  }

  ghost predicate StartedAt(ops: seq<Op>, fired: seq<set<Id>>, k: int, t: Id, timer: Timer) {
    && 0 <= k < |ops| && ops[k] == Start(t, timer)
    && forall j | k < j < |ops| :: !Ends(ops, fired, j, t)
  }

  /** The timer was started and nothing has ended it since. */
  ghost predicate Runs(ops: seq<Op>, fired: seq<set<Id>>, t: Id, timer: Timer) {
    exists k :: StartedAt(ops, fired, k, t, timer)
  }

  /** At the end of `ops` the running timers with the least point are `ids`, and `point` is theirs. */
  ghost predicate IsNext(ops: seq<Op>, fired: seq<set<Id>>, point: int, ids: set<Id>) {
    && ids != {}
    && (forall t, timer | Runs(ops, fired, t, timer) :: point <= timer.point)
    && (forall t :: t in ids <==> exists timer :: Runs(ops, fired, t, timer) && timer.point == point)
  }

  /** No timer among `ids` was started to stop another one of them. */
  ghost predicate Independent(ops: seq<Op>, ids: set<Id>) {
    forall t, u | t in ids && u in ids && StartedToStop(ops, t, u) :: t == u
  }

  /** Every timer is started at most once. */
  ghost predicate StartsDiffer(ops: seq<Op>) {
    forall i, j | 0 <= i < j < |ops| && ops[i].Start? && ops[j].Start? :: ops[i].id != ops[j].id
  }

  /** The `k`th operation is an expiry at the right point that fires the right timers. */
  ghost predicate HappensAt(ops: seq<Op>, points: seq<int>, fired: seq<set<Id>>, k: int)
    requires |points| == |fired| && 0 <= k <= |ops|
  {
    var e := Expiries(ops[..k]);
    && e < |fired|
    && IsNext(ops[..k], fired, points[e], fired[e]) && Independent(ops[..k], fired[e])
  }

  /**
    In the list every timer is started at most once, and `points` and `fired`
    are the points and the timers of its expiries.
   */
  ghost predicate IsSchedule(ops: seq<Op>, points: seq<int>, fired: seq<set<Id>>) {
    && |points| == |fired| == Expiries(ops) && StartsDiffer(ops)
    && forall k {:trigger IsExpiry(ops, k)} | IsExpiry(ops, k) :: HappensAt(ops, points, fired, k)
  }

  ghost predicate IsExpiry(ops: seq<Op>, k: int) {
    0 <= k < |ops| && ops[k].ExpireNext?
  }

  lemma ExpiriesSnoc(ops: seq<Op>, op: Op)
    ensures Expiries(ops + [op]) == Expiries(ops) + if op.ExpireNext? then 1 else 0
  {
    assert (ops + [op])[..|ops|] == ops;
  }

  lemma {:induction false} ExpiryBefore(ops: seq<Op>, k: int)
    requires 0 <= k <= |ops|
    ensures Expiries(ops[..k]) + (if k < |ops| && ops[k].ExpireNext? then 1 else 0) <= Expiries(ops)
    decreases |ops|
  {
    if k == |ops| {
      assert ops[..k] == ops;
    } else {
      var front := ops[..|ops| - 1];
      assert front[..k] == ops[..k];
      if k < |front| {
        ExpiryBefore(front, k);
      } else {
        assert front[..k] == front;
      }
    }
  }

  /** What fired later does not matter, nor does what comes later in the list. */
  lemma EndsStable(ops: seq<Op>, longer: seq<Op>, fired: seq<set<Id>>, more: seq<set<Id>>, j: int, t: Id)
    requires 0 <= j < |ops| && ops <= longer && fired <= more && Expiries(ops) <= |fired|
    ensures Ends(longer, more, j, t) <==> Ends(ops, fired, j, t)
  {
    assert longer[..j] == ops[..j] && longer[j] == ops[j];
    ExpiryBefore(ops, j);
  }

  lemma StartedStable(ops: seq<Op>, fired: seq<set<Id>>, more: seq<set<Id>>, k: int, t: Id, timer: Timer)
    requires fired <= more && Expiries(ops) <= |fired|
    ensures StartedAt(ops, more, k, t, timer) <==> StartedAt(ops, fired, k, t, timer)
  {
    forall j | 0 <= j < |ops| ensures Ends(ops, more, j, t) <==> Ends(ops, fired, j, t) {
      EndsStable(ops, ops, fired, more, j, t);
    }
  }

  lemma RunsStable(ops: seq<Op>, fired: seq<set<Id>>, more: seq<set<Id>>, t: Id, timer: Timer)
    requires fired <= more && Expiries(ops) <= |fired|
    ensures Runs(ops, more, t, timer) <==> Runs(ops, fired, t, timer)
  {
    if k :| StartedAt(ops, more, k, t, timer) {
      StartedStable(ops, fired, more, k, t, timer);
    }
    if k :| StartedAt(ops, fired, k, t, timer) {
      StartedStable(ops, fired, more, k, t, timer);
    }
  }

  lemma IsNextStable(ops: seq<Op>, fired: seq<set<Id>>, more: seq<set<Id>>, point: int, ids: set<Id>)
    requires fired <= more && Expiries(ops) <= |fired|
    ensures IsNext(ops, more, point, ids) <==> IsNext(ops, fired, point, ids)
  {
    forall t, timer ensures Runs(ops, more, t, timer) <==> Runs(ops, fired, t, timer) {
      RunsStable(ops, fired, more, t, timer);
    }
  }

  lemma StartedAtSnoc(ops: seq<Op>, op: Op, fired: seq<set<Id>>, k: int, t: Id, timer: Timer)
    requires Expiries(ops) <= |fired| && 0 <= k < |ops|
    ensures StartedAt(ops + [op], fired, k, t, timer)
            <==> StartedAt(ops, fired, k, t, timer) && !Ends(ops + [op], fired, |ops|, t)
  {
    forall j | 0 <= j < |ops| ensures Ends(ops + [op], fired, j, t) <==> Ends(ops, fired, j, t) {
      EndsStable(ops, ops + [op], fired, fired, j, t);
    }
  }

  /** A timer runs after one more operation if that starts it, or if it ran and that does not end it. */
  lemma RunsSnoc(ops: seq<Op>, op: Op, fired: seq<set<Id>>, t: Id, timer: Timer)
    requires Expiries(ops) <= |fired|
    ensures Runs(ops + [op], fired, t, timer)
            <==> op == Start(t, timer) || (Runs(ops, fired, t, timer) && !Ends(ops + [op], fired, |ops|, t))
  {
    if op == Start(t, timer) {
      assert StartedAt(ops + [op], fired, |ops|, t, timer);
    }
    if k :| 0 <= k < |ops| && StartedAt(ops, fired, k, t, timer) {
      StartedAtSnoc(ops, op, fired, k, t, timer);
    }
    if k :| StartedAt(ops + [op], fired, k, t, timer) {
      if k < |ops| {
        StartedAtSnoc(ops, op, fired, k, t, timer);
      }
    }
  }

  /** The state holds the timers that run, and knows which were started. */
  ghost predicate Holds(ops: seq<Op>, s: Spec) {
    && |s.points| == |s.fired| == Expiries(ops) && StartsDiffer(ops)
    && (forall t :: t in s.started <==> exists timer :: Start(t, timer) in ops)
    && (forall t, timer :: Runs(ops, s.fired, t, timer) <==> t in s.live && s.live[t] == timer)
  }

  lemma RunsWasStarted(ops: seq<Op>, fired: seq<set<Id>>, t: Id, timer: Timer)
    requires Runs(ops, fired, t, timer)
    ensures Start(t, timer) in ops
  {
    var k :| StartedAt(ops, fired, k, t, timer);
  }

  lemma StartedOnce(ops: seq<Op>, t: Id, a: Timer, b: Timer)
    requires StartsDiffer(ops) && Start(t, a) in ops && Start(t, b) in ops
    ensures a == b
  {
    var i :| 0 <= i < |ops| && ops[i] == Start(t, a);
    var j :| 0 <= j < |ops| && ops[j] == Start(t, b);
  }

  /** The call back of a running timer is the one that it was started with. */
  lemma StopsWhatItWasStartedFor(ops: seq<Op>, s: Spec, u: Id, t: Id)
    requires Holds(ops, s) && u in s.live
    ensures StartedToStop(ops, u, t) <==> s.live[u].callBack == Stops(t)
  {
    var timer := s.live[u];
    assert Runs(ops, s.fired, u, timer);
    RunsWasStarted(ops, s.fired, u, timer);
    if point :| Start(u, Timer(point, Stops(t))) in ops {
      StartedOnce(ops, u, timer, Timer(point, Stops(t)));
    }
    if timer.callBack == Stops(t) {
      assert timer == Timer(timer.point, Stops(t));
    }
  }

  lemma DueIsNext(ops: seq<Op>, s: Spec)
    requires Holds(ops, s) && s.live != map[]
    ensures IsNext(ops, s.fired, NextPoint(s.live), Due(s.live))
    ensures NoTies(s.live) <==> Independent(ops, Due(s.live))
  {
    NoEarlierThanNext(s.live);
    var first :| first in s.live && s.live[first].point == NextPoint(s.live);
    assert first in Due(s.live);
    forall t
      ensures t in Due(s.live) <==> exists timer :: Runs(ops, s.fired, t, timer) && timer.point == NextPoint(s.live)
    {
      if t in Due(s.live) {
        assert Runs(ops, s.fired, t, s.live[t]);
      }
    }
    forall t, u | t in Due(s.live)
      ensures StartedToStop(ops, t, u) <==> s.live[t].callBack == Stops(u)
    {
      StopsWhatItWasStartedFor(ops, s, t, u);
    }
  }

  /** Only the due timers can be what happens next. */
  lemma NextIsDue(ops: seq<Op>, s: Spec, point: int, ids: set<Id>)
    requires Holds(ops, s) && IsNext(ops, s.fired, point, ids)
    ensures s.live != map[] && point == NextPoint(s.live) && ids == Due(s.live)
  {
    var t :| t in ids;
    var timer :| Runs(ops, s.fired, t, timer) && timer.point == point;
    assert t in s.live && s.live[t].point == point;
    forall u | u in s.live ensures point <= s.live[u].point {
      assert Runs(ops, s.fired, u, s.live[u]);
    }
    NextPointUnique(s.live, point);
    forall u ensures u in ids <==> u in Due(s.live) {
      if u in Due(s.live) {
        assert Runs(ops, s.fired, u, s.live[u]);
      }
    }
  }

  lemma InSnoc(ops: seq<Op>, op: Op)
    ensures forall o :: o in ops + [op] <==> o in ops || o == op
  {
  }

  lemma StartedSnoc(ops: seq<Op>, op: Op, s: Spec)
    requires Holds(ops, s) && Legal(s, op)
    ensures StartsDiffer(ops + [op])
    ensures forall t :: t in Next(s, op).started <==> exists timer :: Start(t, timer) in ops + [op]
  {
    InSnoc(ops, op);
    if op.Start? {
      forall i | 0 <= i < |ops| && ops[i].Start? ensures ops[i].id != op.id {
        assert Start(ops[i].id, ops[i].timer) in ops;
      }
    }
  }

  /** What the last operation does to a timer that runs before it. */
  lemma LastEnds(ops: seq<Op>, op: Op, s: Spec, fired: seq<set<Id>>, t: Id)
    requires Holds(ops, s) && Legal(s, op) && fired == Next(s, op).fired
    ensures op.Stop? ==> (Ends(ops + [op], fired, |ops|, t) <==> op.id == t)
    ensures op.ExpireNext? ==>
              (Ends(ops + [op], fired, |ops|, t) <==> t in Due(s.live) || t in StoppedBy(s.live, Due(s.live)))
  {
    assert (ops + [op])[..|ops|] == ops;
    if op.ExpireNext? {
      var due := Due(s.live);
      assert fired[Expiries(ops)] == due;
      forall u | u in due ensures StartedToStop(ops, u, t) <==> s.live[u].callBack == Stops(t) {
        StopsWhatItWasStartedFor(ops, s, u, t);
      }
    }
  }

  lemma HoldsSnoc(ops: seq<Op>, op: Op, s: Spec)
    requires Holds(ops, s) && Legal(s, op)
    ensures Holds(ops + [op], Next(s, op))
  {
    var s' := Next(s, op);
    ExpiriesSnoc(ops, op);
    StartedSnoc(ops, op, s);
    forall t, timer
      ensures Runs(ops + [op], s'.fired, t, timer) <==> t in s'.live && s'.live[t] == timer
    {
      RunsStable(ops, s.fired, s'.fired, t, timer);
      RunsSnoc(ops, op, s'.fired, t, timer);
      LastEnds(ops, op, s, s'.fired, t);
      if op.Start? && op.id == t {
        assert !Ends(ops + [op], s'.fired, |ops|, t);
        if Runs(ops, s.fired, t, timer) {
          RunsWasStarted(ops, s.fired, t, timer);
        }
      }
    }
  }

  lemma ExpirySnoc(ops: seq<Op>, op: Op, k: int)
    requires 0 <= k <= |ops|
    ensures (ops + [op])[..k] == ops[..k]
    ensures IsExpiry(ops + [op], k) <==> IsExpiry(ops, k) || (k == |ops| && op.ExpireNext?)
    ensures Expiries(ops[..k]) + (if IsExpiry(ops, k) then 1 else 0) <= Expiries(ops)
  {
    ExpiryBefore(ops, k);
  }

  lemma HappensStable(ops: seq<Op>, op: Op, points: seq<int>, fired: seq<set<Id>>,
                      points': seq<int>, fired': seq<set<Id>>, k: int)
    requires |points| == |fired| == Expiries(ops) && |points'| == |fired'|
    requires points <= points' && fired <= fired' && IsExpiry(ops, k)
    ensures HappensAt(ops + [op], points', fired', k) <==> HappensAt(ops, points, fired, k)
  {
    ExpirySnoc(ops, op, k);
    var e := Expiries(ops[..k]);
    IsNextStable(ops[..k], fired, fired', points[e], fired[e]);
  }

  /** One more operation: the old expiries stay right, and the last one has to be. */
  lemma ScheduleSnoc(ops: seq<Op>, op: Op, points: seq<int>, fired: seq<set<Id>>,
                     points': seq<int>, fired': seq<set<Id>>)
    requires |points| == |fired| == Expiries(ops) && points <= points' && fired <= fired'
    requires |points'| == |fired'| == Expiries(ops + [op]) && StartsDiffer(ops + [op])
    ensures IsSchedule(ops + [op], points', fired')
            <==> IsSchedule(ops, points, fired)
                 && (op.ExpireNext? ==> HappensAt(ops + [op], points', fired', |ops|))
  {
    assert StartsDiffer(ops) by {
      assert forall i | 0 <= i < |ops| :: (ops + [op])[i] == ops[i];
    }
    forall k | 0 <= k <= |ops|
      ensures IsExpiry(ops + [op], k) <==> IsExpiry(ops, k) || (k == |ops| && op.ExpireNext?)
      ensures IsExpiry(ops, k) ==>
                (HappensAt(ops + [op], points', fired', k) <==> HappensAt(ops, points, fired, k))
    {
      ExpirySnoc(ops, op, k);
      if IsExpiry(ops, k) {
        HappensStable(ops, op, points, fired, points', fired', k);
      }
    }
  }

  lemma ExpiryHappens(ops: seq<Op>, s: Spec)
    requires Holds(ops, s) && Legal(s, ExpireNext)
    ensures HappensAt(ops + [ExpireNext], Next(s, ExpireNext).points, Next(s, ExpireNext).fired, |ops|)
  {
    var s' := Next(s, ExpireNext);
    assert (ops + [ExpireNext])[..|ops|] == ops;
    DueIsNext(ops, s);
    IsNextStable(ops, s.fired, s'.fired, NextPoint(s.live), Due(s.live));
  }

  /** What a run computes is the schedule of its operations, and its state holds the timers that run. */
  lemma {:induction false} RunIsSchedule(ops: seq<Op>)
    requires Run(ops).Some?
    ensures Holds(ops, Run(ops).value)
    ensures IsSchedule(ops, Run(ops).value.points, Run(ops).value.fired)
    decreases |ops|
  {
    if ops != [] {
      var front, op := ops[..|ops| - 1], ops[|ops| - 1];
      assert front + [op] == ops;
      RunIsSchedule(front);
      var s := Run(front).value;
      HoldsSnoc(front, op, s);
      if op.ExpireNext? {
        ExpiryHappens(front, s);
      }
      ScheduleSnoc(front, op, s.points, s.fired, Next(s, op).points, Next(s, op).fired);
    }
  }

  /** An expiry of a schedule is one of the specification. */
  lemma HappensLegally(ops: seq<Op>, s: Spec, points: seq<int>, fired: seq<set<Id>>)
    requires Holds(ops, s) && s.points <= points && s.fired <= fired && |points| == |fired| == |s.fired| + 1
    requires HappensAt(ops + [ExpireNext], points, fired, |ops|)
    ensures Legal(s, ExpireNext)
    ensures points == Next(s, ExpireNext).points && fired == Next(s, ExpireNext).fired
  {
    var e := Expiries(ops);
    assert (ops + [ExpireNext])[..|ops|] == ops;
    IsNextStable(ops, s.fired, fired, points[e], fired[e]);
    NextIsDue(ops, s, points[e], fired[e]);
    DueIsNext(ops, s);
    assert points == points[..e] + [points[e]] && fired == fired[..e] + [fired[e]];
  }

  lemma StartIsLegal(ops: seq<Op>, s: Spec, op: Op)
    requires Holds(ops, s) && op.Start? && StartsDiffer(ops + [op])
    ensures Legal(s, op)
  {
    assert (ops + [op])[|ops|] == op;
    forall i | 0 <= i < |ops| && ops[i].Start? ensures ops[i].id != op.id {
      assert (ops + [op])[i] == ops[i];
    }
    assert forall timer :: Start(op.id, timer) !in ops;
  }

  /** Only a legal list of operations has a schedule, and only one. */
  lemma {:induction false} ScheduleIsRun(ops: seq<Op>, points: seq<int>, fired: seq<set<Id>>)
    requires IsSchedule(ops, points, fired)
    ensures Run(ops).Some? && Run(ops).value.points == points && Run(ops).value.fired == fired
    decreases |ops|
  {
    if ops != [] {
      var front, op := ops[..|ops| - 1], ops[|ops| - 1];
      assert front + [op] == ops;
      ExpiriesSnoc(front, op);
      var e := Expiries(front);
      ScheduleSnoc(front, op, points[..e], fired[..e], points, fired);
      ScheduleIsRun(front, points[..e], fired[..e]);
      RunIsSchedule(front);
      var s := Run(front).value;
      match op {
        case Start(_, _) => StartIsLegal(front, s, op);
        case Stop(_) =>
        case ExpireNext => HappensLegally(front, s, points, fired);
      }
    }
  }

  /** The meaning of runs: exactly the legal lists have a schedule, and it is what they compute. */
  lemma RunsMeanSchedules(ops: seq<Op>, points: seq<int>, fired: seq<set<Id>>)
    ensures Run(ops).Some? && Run(ops).value.points == points && Run(ops).value.fired == fired
            <==> IsSchedule(ops, points, fired)
  {
    if Run(ops).Some? {
      RunIsSchedule(ops);
    }
    if IsSchedule(ops, points, fired) {
      ScheduleIsRun(ops, points, fired);
    }
  }

  /** The timers that run after the operations. */
  ghost function Running(ops: seq<Op>, fired: seq<set<Id>>): set<Id> {
    set op | op in ops && op.Start? && Runs(ops, fired, op.id, op.timer) :: op.id
  }

  lemma RunningIsLive(ops: seq<Op>)
    requires Run(ops).Some?
    ensures Running(ops, Run(ops).value.fired) == Run(ops).value.live.Keys
    ensures |Running(ops, Run(ops).value.fired)| == |Run(ops).value.live|
  {
    RunIsSchedule(ops);
    var s := Run(ops).value;
    forall t ensures t in Running(ops, s.fired) <==> t in s.live.Keys {
      if t in s.live {
        assert Runs(ops, s.fired, t, s.live[t]);
        RunsWasStarted(ops, s.fired, t, s.live[t]);
        assert Start(t, s.live[t]) in ops;
      }
    }
  }
}
