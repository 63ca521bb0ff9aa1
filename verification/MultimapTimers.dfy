/**
  `RunningTimersImpl<., 0>` of `src/timer_test.cxx`: a multimap from
  expiration points to timers in which a stopped timer leaves an entry with a
  null pointer, and the global counters that keep account of this.
 */
module MultimapTimers {
  import opened Timers

  /** A map entry; `node` is what an iterator to it points at. */
  datatype Entry = Entry(node: nat, key: int)

  /** `iter` is None for the end iterator, that is, when the timer is not running. */
  datatype TimerImpl = TimerImpl(iter: Option<nat>, point: int, callBack: CallBack)

  /** The multimap with the timer pointers of its entries, and the timers with their handles. */
  datatype Store = Store(entries: seq<Entry>, second: map<nat, Option<Id>>, timers: map<Id, TimerImpl>, nextNode: nat) {

    predicate IsRunning(t: Id) {
      t in timers && timers[t].iter.Some?
    }

    ghost function Live(): Live {
      map t | t in timers && IsRunning(t) :: Timer(timers[t].point, timers[t].callBack)
    }

    ghost predicate InOrder(i: int, j: int) {
      0 <= i < j < |entries| ==> entries[i].node != entries[j].node && entries[i].key <= entries[j].key
    }

    /** A running timer has an entry that points back at it. */
    ghost predicate TimerLinked(t: Id) {
      IsRunning(t) ==>
        && Entry(timers[t].iter.value, timers[t].point) in entries
        && timers[t].iter.value in second && second[timers[t].iter.value] == Some(t)
    }

    /** An entry is canceled, or points at a running timer that points back at it. */
    ghost predicate EntryLinked(e: Entry) {
      e in entries ==>
        && e.node in second && e.node < nextNode
        && (second[e.node].Some? ==>
              IsRunning(second[e.node].value) && timers[second[e.node].value].iter == Some(e.node))
    }

    ghost predicate Linked() {
      && (forall i, j {:trigger InOrder(i, j)} :: InOrder(i, j))
      && (forall t {:trigger TimerLinked(t)} :: TimerLinked(t))
      && (forall e {:trigger EntryLinked(e)} :: EntryLinked(e))
    }

    ghost predicate FrontRuns() {
      entries != [] && EntryLinked(entries[0]) && second[entries[0].node].Some?
    }

    ghost function Front(): Id
      requires FrontRuns()
    {
      second[entries[0].node].value
    }

    ghost function Pushed(t: Id, timer: Timer, i: nat): Store
      requires i <= |entries|
    {
      Store(entries[..i] + [Entry(nextNode, timer.point)] + entries[i..],
            second[nextNode := Some(t)],
            timers[t := TimerImpl(Some(nextNode), timer.point, timer.callBack)],
            nextNode + 1)
    }

    /** A running timer is stopped by nulling its entry and forgetting the iterator. */
    ghost function Nulled(t: Id): Store
      requires IsRunning(t)
    {
      this.(second := second[timers[t].iter.value := None], timers := timers[t := timers[t].(iter := None)])
    }

    ghost function Stopped(t: Id): Store {
      if IsRunning(t) then Nulled(t) else this
    }

    ghost function Popped(): Store
      requires entries != []
    {
      this.(entries := entries[1..])
    }
  }

  // ----- What the changes keep -----

  lemma PushedEntries(s: Store, t: Id, timer: Timer, i: nat)
    requires i <= |s.entries|
    ensures forall e :: e in s.Pushed(t, timer, i).entries <==> e in s.entries || e == Entry(s.nextNode, timer.point)
  {
    assert s.entries == s.entries[..i] + s.entries[i..];
  }

  lemma PushedInOrder(s: Store, t: Id, timer: Timer, i: nat, k: int, l: int)
    requires s.Linked() && i <= |s.entries|
    requires forall j | 0 <= j < i :: s.entries[j].key <= timer.point
    requires forall j | i <= j < |s.entries| :: timer.point <= s.entries[j].key
    ensures s.Pushed(t, timer, i).InOrder(k, l)
  {
    var k', l' := if k < i then k else k - 1, if l < i then l else l - 1;
    assert s.InOrder(k', l');
    if 0 <= k' < |s.entries| {
      assert s.EntryLinked(s.entries[k']);
    }
    if 0 <= l' < |s.entries| {
      assert s.EntryLinked(s.entries[l']);
    }
  }

  lemma UpperBound(s: Store, point: int, i: nat)
    requires s.Linked() && i <= |s.entries| && (i < |s.entries| ==> point < s.entries[i].key)
    ensures forall j | i <= j < |s.entries| :: point <= s.entries[j].key
  {
    forall j | i <= j < |s.entries| ensures point <= s.entries[j].key {
      assert s.InOrder(i, j);
    }
  }

  lemma PushedKeeps(s: Store, t: Id, timer: Timer, i: nat)
    requires s.Linked() && !s.IsRunning(t) && i <= |s.entries|
    requires forall j | 0 <= j < i :: s.entries[j].key <= timer.point
    requires forall j | i <= j < |s.entries| :: timer.point <= s.entries[j].key
    ensures s.Pushed(t, timer, i).Linked()
    ensures s.Pushed(t, timer, i).Live() == s.Live()[t := timer]
  {
    var s' := s.Pushed(t, timer, i);
    PushedEntries(s, t, timer, i);
    forall k, l ensures s'.InOrder(k, l) {
      PushedInOrder(s, t, timer, i, k, l);
    }
    forall u ensures s'.TimerLinked(u) {
      assert s.TimerLinked(u);
      if s.IsRunning(u) {
        assert s.EntryLinked(Entry(s.timers[u].iter.value, s.timers[u].point));
      }
    }
    forall e ensures s'.EntryLinked(e) {
      assert s.EntryLinked(e);
    }
  }

  lemma NulledKeeps(s: Store, t: Id)
    requires s.Linked() && s.IsRunning(t)
    ensures s.Nulled(t).Linked()
    ensures s.Nulled(t).Live() == s.Live() - {t}
  {
    var s' := s.Nulled(t);
    assert s.TimerLinked(t);
    forall k, l ensures s'.InOrder(k, l) {
      assert s.InOrder(k, l);
    }
    forall u ensures s'.TimerLinked(u) {
      assert s.TimerLinked(u);
    }
    forall e ensures s'.EntryLinked(e) {
      assert s.EntryLinked(e);
    }
  }

  lemma StoppedKeeps(s: Store, t: Id)
    requires s.Linked()
    ensures s.Stopped(t).Linked()
    ensures s.Stopped(t).Live() == s.Live() - {t}
  {
    if s.IsRunning(t) {
      NulledKeeps(s, t);
    }
  }

  lemma PoppedKeeps(s: Store)
    requires s.Linked() && s.entries != [] && !s.FrontRuns()
    ensures s.Popped().Linked()
    ensures s.Popped().Live() == s.Live()
  {
    var s' := s.Popped();
    assert forall e :: e in s.entries <==> e == s.entries[0] || e in s'.entries;
    assert s.EntryLinked(s.entries[0]);
    forall k, l ensures s'.InOrder(k, l) {
      assert s.InOrder(k + 1, l + 1);
    }
    forall u ensures s'.TimerLinked(u) {
      assert s.TimerLinked(u);
    }
    forall e ensures s'.EntryLinked(e) {
      assert s.EntryLinked(e);
    }
  }

  lemma QueuedNoEarlier(s: Store, u: Id)
    requires s.Linked() && s.IsRunning(u)
    ensures s.entries != [] && s.entries[0].key <= s.timers[u].point
  {
    assert s.TimerLinked(u);
    var k :| 0 <= k < |s.entries| && s.entries[k] == Entry(s.timers[u].iter.value, s.timers[u].point);
    assert s.InOrder(0, k);
  }

  /** A running timer in front expires next. */
  lemma FrontIsNext(s: Store)
    requires s.Linked() && s.FrontRuns()
    ensures s.IsRunning(s.Front()) && s.Front() in s.Live()
    ensures s.timers[s.Front()].point == s.Live()[s.Front()].point == NextPoint(s.Live())
  {
    var t := s.Front();
    assert s.EntryLinked(s.entries[0]) && s.TimerLinked(t);
    var k :| 0 <= k < |s.entries| && s.entries[k] == Entry(s.timers[t].iter.value, s.timers[t].point);
    assert s.InOrder(0, k);
    assert k == 0;
    forall u | u in s.Live() ensures s.entries[0].key <= s.Live()[u].point {
      QueuedNoEarlier(s, u);
    }
    assert t in s.Live();
    assert IsNextPoint(s.Live(), s.entries[0].key);
    NextPointUnique(s.Live(), s.entries[0].key);
  }

  lemma LiveIsQueued(s: Store)
    requires s.Linked()
    ensures s.entries == [] ==> s.Live() == map[]
  {
    if t :| t in s.Live() {
      QueuedNoEarlier(s, t);
    }
  }

  /** The timer in front is expired: stopped, called back, and its entry erased. */
  ghost function CalledBack(s: Store): Store
    requires s.FrontRuns() && s.IsRunning(s.Front())
  {
    var callBack := s.timers[s.Front()].callBack;
    if callBack.Stops? then s.Nulled(s.Front()).Stopped(callBack.other) else s.Nulled(s.Front())
  }

  lemma CalledBackKeeps(s: Store)
    requires s.Linked() && s.FrontRuns() && s.IsRunning(s.Front())
    ensures var s1 := CalledBack(s);
            && s1.Linked() && s1.entries == s.entries && !s1.FrontRuns()
            && s1.Live() == AfterFiring(s.Live(), {s.Front()})
  {
    var t := s.Front();
    var callBack := s.timers[t].callBack;
    NulledKeeps(s, t);
    assert s.EntryLinked(s.entries[0]);
    if callBack.Stops? {
      StoppedKeeps(s.Nulled(t), callBack.other);
      assert StoppedBy(s.Live(), {t}) == {callBack.other};
    } else {
      assert StoppedBy(s.Live(), {t}) == {};
    }
  }

  lemma OneLess(live: Live, t: Id)
    requires t in live
    ensures |live - {t}| == |live| - 1
  {
    assert (live - {t}).Keys == live.Keys - {t};
  }

  lemma OneMore(live: Live, t: Id, timer: Timer)
    requires t !in live
    ensures |live[t := timer]| == |live| + 1
  {
    assert live[t := timer].Keys == live.Keys + {t};
  }

  // ----- The store as it is changed in place -----

  class RunningTimers {
    var entries: seq<Entry>
    var second: map<nat, Option<Id>>
    var timers: map<Id, TimerImpl>
    var nextNode: nat

    var runningTimers: int
    var expiredTimers: int
    var canceledRemoved: int
    var canceledTimers: int

    ghost function Current(): Store
      reads this
    {
      Store(entries, second, timers, nextNode)
    }

    ghost function Live(): Live
      reads this
    {
      Current().Live()
    }

    /** Conservation: where the entries of the map come from and where they went. */
    ghost predicate Counted()
      reads this
    {
      && runningTimers == |Live()|
      && |entries| == runningTimers + canceledTimers - expiredTimers - canceledRemoved
    }

    ghost predicate Valid()
      reads this
    {
      Current().Linked() && Counted()
    }

    constructor ()
      ensures Valid() && Live() == map[] && expiredTimers == 0 == canceledTimers
    {
      entries, second, timers, nextNode := [], map[], map[], 0;
      runningTimers, expiredTimers, canceledRemoved, canceledTimers := 0, 0, 0, 0;
    }

    /** `m_map.emplace` puts a new entry after all entries with the same key. */
    method Start(t: Id, timer: Timer)
      requires Valid() && t !in Live()
      modifies this
      ensures Valid() && Live() == old(Live())[t := timer]
      ensures expiredTimers == old(expiredTimers) && canceledTimers == old(canceledTimers)
    {
      ghost var before := Current();
      runningTimers := runningTimers + 1;
      var i := 0;
      while i < |entries| && entries[i].key <= timer.point
        invariant 0 <= i <= |entries|
        invariant forall j | 0 <= j < i :: entries[j].key <= timer.point
      {
        i := i + 1;
      }
      UpperBound(before, timer.point, i);
      PushedKeeps(before, t, timer, i);
      OneMore(before.Live(), t, timer);
      entries := entries[..i] + [Entry(nextNode, timer.point)] + entries[i..];
      second := second[nextNode := Some(t)];
      timers := timers[t := TimerImpl(Some(nextNode), timer.point, timer.callBack)];
      nextNode := nextNode + 1;
      assert Current() == before.Pushed(t, timer, i);
    }

    /** `TimerHandleImpl<0>::set_not_running`. */
    method SetNotRunning(t: Id)
      requires Valid() && Current().IsRunning(t)
      modifies this`second, this`timers, this`canceledTimers, this`runningTimers
      ensures Valid() && Current() == old(Current()).Nulled(t)
      ensures Live() == old(Live()) - {t} && canceledTimers + |Live()| == old(canceledTimers + |Live()|)
    {
      ghost var before := Current();
      NulledKeeps(before, t);
      OneLess(before.Live(), t);
      canceledTimers := canceledTimers + 1;
      runningTimers := runningTimers - 1;
      second := second[timers[t].iter.value := None];
      timers := timers[t := timers[t].(iter := None)];
      assert Current() == before.Nulled(t);
    }

    method Stop(t: Id)
      requires Valid()
      modifies this`second, this`timers, this`canceledTimers, this`runningTimers
      ensures Valid() && Current() == old(Current()).Stopped(t)
      ensures Live() == old(Live()) - {t} && canceledTimers + |Live()| == old(canceledTimers + |Live()|)
    {
      StoppedKeeps(Current(), t);
      if t in timers && timers[t].iter.Some? {
        SetNotRunning(t);
      }
    }

    /** `TimerImpl<0>::expire` for the timer in front, up to the counter at its end. */
    method CallBackFront()
      requires Valid() && Current().FrontRuns() && Current().IsRunning(Current().Front())
      modifies this`second, this`timers, this`canceledTimers, this`runningTimers
      ensures Valid() && Current() == CalledBack(old(Current()))
      ensures canceledTimers + |Live()| == old(canceledTimers + |Live()|)
    {
      var t := second[entries[0].node].value;
      var callBack := timers[t].callBack;
      SetNotRunning(t);
      if callBack.Stops? {
        Stop(callBack.other);
      }
    }

    /** `timer->expire()` for the timer in front, and the erasure of its entry. */
    method ExpireFront()
      requires Valid() && Current().FrontRuns()
      modifies this
      ensures Valid() && Live() == AfterFiring(old(Live()), {old(Current().Front())})
      ensures entries == old(entries)[1..] && expiredTimers == old(expiredTimers) + 1
      ensures canceledTimers + |Live()| == old(canceledTimers + |Live()|)
    {
      FrontIsNext(Current());
      CalledBackKeeps(Current());
      CallBackFront();
      PoppedKeeps(Current());
      expiredTimers := expiredTimers + 1;
      entries := entries[1..];
    }

    /** An entry of a canceled timer in front is erased. */
    method RemoveCanceled()
      requires Valid() && entries != [] && !Current().FrontRuns()
      modifies this
      ensures Valid() && Live() == old(Live())
      ensures entries == old(entries)[1..] && expiredTimers == old(expiredTimers)
      ensures canceledTimers == old(canceledTimers)
    {
      PoppedKeeps(Current());
      canceledRemoved := canceledRemoved + 1;
      entries := entries[1..];
    }

    /** The second loop of `expire_next`: all timers that expired now too, after the one that fired first. */
    method ExpireAlso(now: int, first: Id, ghost live: Live) returns (fired: seq<Id>)
      requires Valid() && live != map[] && now == NextPoint(live) && first in Due(live)
      requires Live() == AfterFiring(live, {first})
      modifies this
      ensures Valid() && expiredTimers + 1 == old(expiredTimers) + |fired|
      ensures canceledTimers + |Live()| == old(canceledTimers + |Live()|)
      ensures NoDuplicates(fired) && Expires(live, now, Elements(fired), Live())
    {
      fired := [first];
      assert Elements(fired) == {first};
      while entries != []
        invariant Valid() && expiredTimers + 1 == old(expiredTimers) + |fired|
        invariant canceledTimers + |Live()| == old(canceledTimers + |Live()|)
        invariant NoDuplicates(fired) && {} < Elements(fired) <= Due(live)
        invariant Live() == AfterFiring(live, Elements(fired))
        decreases |entries|
      {
        assert Current().EntryLinked(entries[0]);
        var timer := second[entries[0].node];
        if timer.Some? {
          FrontIsNext(Current());
          assert timers[timer.value].point >= now;
          if timers[timer.value].point != now {
            StillRunningIsLater(live, Elements(fired));
            return;
          }
          FiringOneMore(live, Elements(fired), timer.value);
          ExpireFront();
          FiredOneMore(fired, timer.value);
          fired := fired + [timer.value];
        } else {
          RemoveCanceled();
        }
      }
      LiveIsQueued(Current());
    }

    /**
      Fires due timers, each once, until none is left; `fired` lists them in
      the order in which they fired.
     */
    method ExpireNext() returns (now: int, fired: seq<Id>)
      requires Valid() && Live() != map[]
      modifies this
      ensures Valid() && expiredTimers == old(expiredTimers) + |fired|
      ensures canceledTimers + |Live()| == old(canceledTimers + |Live()|)
      ensures NoDuplicates(fired) && Expires(old(Live()), now, Elements(fired), Live())
    {
      ghost var live := Live();
      LiveIsQueued(Current());
      now := 0;
      var timer: Option<Id> := None;
      while timer == None
        invariant Valid()
        invariant expiredTimers == old(expiredTimers) + if timer.Some? then 1 else 0
        invariant canceledTimers + |Live()| == old(canceledTimers + |Live()|)
        invariant timer == None ==> Live() == live && entries != []
        invariant timer.Some? ==> now == NextPoint(live)
                                  && timer.value in Due(live) && Live() == AfterFiring(live, {timer.value})
        decreases timer == None, |entries|
      {
        assert Current().EntryLinked(entries[0]);
        timer := second[entries[0].node];
        if timer.Some? {
          FrontIsNext(Current());
          now := timers[timer.value].point;
          ExpireFront();
        } else {
          RemoveCanceled();
          LiveIsQueued(Current());
        }
      }
      fired := ExpireAlso(now, timer.value, live);
    }
  }
}
