/**
  The signal handler and the worker loop of `src/signal_test.cxx` while
  `running` is true: handlers count a signal and post a semaphore, workers
  count down until they see zero and then wait on the semaphore.

  Any number of workers and handlers interleave between any two accesses to
  the shared counters.  A handler is not tied to the thread it interrupts, so
  it may overlap with every worker.
 */
module SignalWorkers {

  /** The two signals that are counted. */
  datatype Signal = Sig34 | Sig35

  /** The next shared access of a worker; `Cas` carries the value that was loaded. */
  datatype Pc =
    | Top
    | Load(sig: Signal)
    | Cas(sig: Signal, cnt: int)
    | Note(sig: Signal)
    | SemWait

  /**
    The shared variables per signal: the counter, the handlers that are
    between their increment and their post, the `was_here` counter, and (for
    specification only) how many signals were delivered.
   */
  datatype Shared = Shared(count: int, posting: int, wasHere: int, delivered: int)

  datatype State = State(s34: Shared, s35: Shared, sem: int, workers: seq<Pc>) {
    function Get(sig: Signal): Shared {
      if sig == Sig34 then s34 else s35
    }

    function Set(sig: Signal, sh: Shared): State {
      if sig == Sig34 then this.(s34 := sh) else this.(s35 := sh)
    }

    function At(i: nat, pc: Pc): State
      requires i < |workers|
    {
      this.(workers := workers[i := pc])
    }
  }

  /** `weakly` lets a compare-exchange fail although the value matches. */
  datatype Event =
    | Increment(sig: Signal)
    | Post(sig: Signal)
    | Work(i: nat, weakly: bool)
    | Interrupt(i: nat)

  /** `sem_wait` blocks at zero, unless it returns early because of a signal. */
  predicate Enabled(s: State, e: Event) {
    match e
    case Increment(_) => true
    case Post(sig) => s.Get(sig).posting > 0
    case Work(i, _) => i < |s.workers| && (s.workers[i].SemWait? ==> s.sem > 0)
    case Interrupt(i) => i < |s.workers| && s.workers[i].SemWait?
  }

  function Next(s: State, e: Event): State
    requires Enabled(s, e)
  {
    match e
    case Increment(sig) =>
      var sh := s.Get(sig);
      s.Set(sig, sh.(count := sh.count + 1, posting := sh.posting + 1, delivered := sh.delivered + 1))
    case Post(sig) =>
      var sh := s.Get(sig);
      s.Set(sig, sh.(posting := sh.posting - 1)).(sem := s.sem + 1)
    case Interrupt(i) => s.At(i, Top)
    case Work(i, weakly) =>
      match s.workers[i]
      case Top => s.At(i, Load(Sig34))
      case Load(sig) =>
        var cnt := s.Get(sig).count;
        s.At(i, if cnt > 0 then Cas(sig, cnt) else if sig == Sig34 then Load(Sig35) else SemWait)
      case Cas(sig, cnt) =>
        var sh := s.Get(sig);
        if sh.count == cnt && !weakly then s.Set(sig, sh.(count := cnt - 1)).At(i, Note(sig))
        else s.At(i, Load(sig))
      case Note(sig) =>
        var sh := s.Get(sig);
        s.Set(sig, sh.(wasHere := sh.wasHere + 1)).At(i, Load(sig))
      case SemWait => s.(sem := s.sem - 1).At(i, Top)
  }

  function Init(n: nat): State {
    State(Shared(0, 0, 0, 0), Shared(0, 0, 0, 0), 0, seq(n, _ => Top))
  }

  // ----- Conservation and no lost signal -----

  /** Workers that have taken a signal of this kind and not noted it yet. */
  ghost function Noting(workers: seq<Pc>, sig: Signal): nat {
    if workers == [] then 0
    else (if workers[0] == Note(sig) then 1 else 0) + Noting(workers[1..], sig)
  }

  lemma {:induction false} NotingUpdate(workers: seq<Pc>, i: nat, pc: Pc, sig: Signal)
    requires i < |workers|
    ensures Noting(workers[i := pc], sig) - (if pc == Note(sig) then 1 else 0)
         == Noting(workers, sig) - (if workers[i] == Note(sig) then 1 else 0)
  {
    if i == 0 {
      assert workers[0 := pc][1..] == workers[1..];
    } else {
      assert workers[i := pc][1..] == workers[1..][i - 1 := pc];
      NotingUpdate(workers[1..], i - 1, pc, sig);
    }
  }

  /** A worker that will look at the counter of `sig` before it blocks. */
  predicate WillLook(pc: Pc, sig: Signal) {
    match pc
    case Top => true
    case Load(at) => sig == Sig35 || at == Sig34
    case Cas(at, _) => sig == Sig35 || at == Sig34
    case Note(at) => sig == Sig35 || at == Sig34
    case SemWait => false
  }

  ghost predicate SomeoneWillLook(workers: seq<Pc>, sig: Signal) {
    exists i :: 0 <= i < |workers| && WillLook(workers[i], sig)
  }

  ghost predicate SharedInv(s: State, sig: Signal) {
    var sh := s.Get(sig);
    && sh.count >= 0 && sh.posting >= 0 && sh.wasHere >= 0
    && sh.delivered == sh.count + Noting(s.workers, sig) + sh.wasHere
    && (sh.count > 0 ==> sh.posting > 0 || s.sem > 0 || SomeoneWillLook(s.workers, sig))
  }

  ghost predicate Inv(s: State) {
    && s.sem >= 0
    && (forall i | 0 <= i < |s.workers| && s.workers[i].Cas? :: s.workers[i].cnt > 0)
    && SharedInv(s, Sig34) && SharedInv(s, Sig35)
  }

  lemma {:induction false} InitInv(n: nat)
    ensures Inv(Init(n))
  {
    NobodyNoting(n, Sig34);
    NobodyNoting(n, Sig35);
  }

  lemma {:induction false} NobodyNoting(n: nat, sig: Signal)
    ensures Noting(seq(n, _ => Top), sig) == 0
  {
    if n > 0 {
      NobodyNoting(n - 1, sig);
      assert seq(n, _ => Top)[1..] == seq(n - 1, _ => Top);
    }
  }

  /** A worker step leaves somebody who will look, unless the counter is zero or the semaphore is not. */
  lemma SomeoneStillLooks(s: State, e: Event, sig: Signal)
    requires SharedInv(s, sig) && s.sem >= 0 && Enabled(s, e) && (e.Work? || e.Interrupt?)
    ensures var s' := Next(s, e);
            s'.Get(sig).count > 0 ==> s'.Get(sig).posting > 0 || s'.sem > 0 || SomeoneWillLook(s'.workers, sig)
  {
    var s' := Next(s, e);
    var pc := s'.workers[e.i];
    assert s'.workers == s.workers[e.i := pc];
    if WillLook(pc, sig) {
      assert SomeoneWillLook(s'.workers, sig);
    } else if SomeoneWillLook(s.workers, sig) {
      var i :| 0 <= i < |s.workers| && WillLook(s.workers[i], sig);
      assert i != e.i ==> WillLook(s'.workers[i], sig);
    }
  }

  /** A handler leaves the workers alone. */
  lemma HandlerKeepsShared(s: State, e: Event, sig: Signal)
    requires Inv(s) && Enabled(s, e) && (e.Increment? || e.Post?)
    ensures SharedInv(Next(s, e), sig)
  {
    assert Next(s, e).workers == s.workers;
  }

  lemma WorkerKeepsShared(s: State, e: Event, sig: Signal)
    requires Inv(s) && Enabled(s, e) && (e.Work? || e.Interrupt?)
    ensures SharedInv(Next(s, e), sig)
  {
    var s' := Next(s, e);
    assert s'.workers == s.workers[e.i := s'.workers[e.i]];
    NotingUpdate(s.workers, e.i, s'.workers[e.i], sig);
    SomeoneStillLooks(s, e, sig);
  }

  lemma NextKeepsShared(s: State, e: Event, sig: Signal)
    requires Inv(s) && Enabled(s, e)
    ensures SharedInv(Next(s, e), sig)
  {
    if e.Work? || e.Interrupt? {
      WorkerKeepsShared(s, e, sig);
    } else {
      HandlerKeepsShared(s, e, sig);
    }
  }

  lemma NextKeepsInv(s: State, e: Event)
    requires Inv(s) && Enabled(s, e)
    ensures Inv(Next(s, e))
  {
    assert forall i | 0 <= i < |s.workers| && Next(s, e).workers[i].Cas? :: Next(s, e).workers[i].cnt > 0;
    NextKeepsShared(s, e, Sig34);
    NextKeepsShared(s, e, Sig35);
  }

  /** Every event of the list can happen when its turn comes. */
  ghost predicate Legal(s: State, events: seq<Event>)
    decreases events
  {
    events == [] || (Enabled(s, events[0]) && Legal(Next(s, events[0]), events[1..]))
  }

  ghost function Run(s: State, events: seq<Event>): State
    requires Legal(s, events)
    decreases events
  {
    if events == [] then s else Run(Next(s, events[0]), events[1..])
  }

  lemma {:induction false} RunKeepsInv(s: State, events: seq<Event>)
    requires Inv(s) && Legal(s, events)
    ensures Inv(Run(s, events)) && |Run(s, events).workers| == |s.workers|
    decreases events
  {
    if events != [] {
      NextKeepsInv(s, events[0]);
      RunKeepsInv(Next(s, events[0]), events[1..]);
    }
  }

  lemma MultisetHead(events: seq<Event>, e: Event)
    requires events != []
    ensures multiset(events)[e] == multiset(events[1..])[e] + if events[0] == e then 1 else 0
  {
    assert events == [events[0]] + events[1..];
    assert multiset(events) == multiset([events[0]]) + multiset(events[1..]);
  }

  /** What the fields count: the handlers of each signal that were entered, and those that have not posted yet. */
  lemma {:induction false} RunCountsEvents(s: State, events: seq<Event>, sig: Signal)
    requires Legal(s, events)
    ensures var sh, sh' := s.Get(sig), Run(s, events).Get(sig);
            && sh'.delivered == sh.delivered + multiset(events)[Increment(sig)]
            && sh'.posting == sh.posting + multiset(events)[Increment(sig)] - multiset(events)[Post(sig)]
    decreases events
  {
    if events != [] {
      MultisetHead(events, Increment(sig));
      MultisetHead(events, Post(sig));
      RunCountsEvents(Next(s, events[0]), events[1..], sig);
    }
  }

  /** A wait that is interrupted lets its worker look at both counters again, and changes nothing else. */
  lemma InterruptedLooks(s: State, i: nat, sig: Signal)
    requires Enabled(s, Interrupt(i))
    ensures var s' := Next(s, Interrupt(i));
            && |s'.workers| == |s.workers| && WillLook(s'.workers[i], sig) && Enabled(s', Work(i, false))
            && (forall j | 0 <= j < |s.workers| && j != i :: s'.workers[j] == s.workers[j])
            && s'.Get(sig) == s.Get(sig) && s'.sem == s.sem
  {
  }

  /** Everybody is blocked: no worker can continue and no handler is about to post. */
  ghost predicate AllBlocked(s: State) {
    && s.sem == 0 && s.s34.posting == 0 && s.s35.posting == 0
    && forall i | 0 <= i < |s.workers| :: s.workers[i] == SemWait
  }

  /** Both counters are zero and every delivered signal has been noted. */
  ghost predicate AllHandled(s: State) {
    && s.s34.count == 0 == s.s35.count
    && s.s34.wasHere == s.s34.delivered && s.s35.wasHere == s.s35.delivered
  }

  lemma {:induction false} BlockedNotNoting(workers: seq<Pc>, sig: Signal)
    requires forall i | 0 <= i < |workers| :: workers[i] == SemWait
    ensures Noting(workers, sig) == 0
  {
    if workers != [] {
      BlockedNotNoting(workers[1..], sig);
    }
  }

  /**
    No lost signal: in every run, whenever everybody is blocked, both counters
    are zero and every delivered signal has been handled, each as the signal
    that it was.
   */
  lemma NoLostSignal(n: nat, events: seq<Event>)
    requires Legal(Init(n), events) && AllBlocked(Run(Init(n), events))
    ensures AllHandled(Run(Init(n), events))
    ensures forall sig :: Run(Init(n), events).Get(sig).wasHere == multiset(events)[Increment(sig)]
  {
    InitInv(n);
    RunKeepsInv(Init(n), events);
    var s := Run(Init(n), events);
    BlockedNotNoting(s.workers, Sig34);
    BlockedNotNoting(s.workers, Sig35);
    RunCountsEvents(Init(n), events, Sig34);
    RunCountsEvents(Init(n), events, Sig35);
    forall sig: Signal ensures s.Get(sig).wasHere == multiset(events)[Increment(sig)] {
      assert sig == Sig34 || sig == Sig35;
    }
  }

  /** Delivered signals are pending, being noted or handled, at every moment of every run. */
  lemma Conservation(n: nat, events: seq<Event>, sig: Signal)
    requires Legal(Init(n), events)
    ensures var s := Run(Init(n), events);
            var sh := s.Get(sig);
            && multiset(events)[Increment(sig)] == sh.count + Noting(s.workers, sig) + sh.wasHere
            && sh.delivered == multiset(events)[Increment(sig)]
            && sh.posting + multiset(events)[Post(sig)] == multiset(events)[Increment(sig)]
            && sh.count >= 0 && sh.wasHere >= 0 && sh.posting >= 0 && s.sem >= 0
  {
    InitInv(n);
    RunKeepsInv(Init(n), events);
    RunCountsEvents(Init(n), events, sig);
  }

  // ----- Once no more signals arrive, everything is handled -----

  /** Posts and worker steps in which no compare-exchange fails without reason. */
  predicate Quiet(e: Event) {
    e.Post? || (e.Work? && !e.weakly)
  }

  ghost function Rank(pc: Pc, count34: int, count35: int): nat {
    match pc
    case Top => 10
    case Load(sig) => if sig == Sig34 then 9 else 5
    case Cas(sig, cnt) =>
      if sig == Sig34 then if cnt == count34 then 8 else 10
      else if cnt == count35 then 4 else 6
    case Note(sig) => if sig == Sig34 then 10 else 6
    case SemWait => 0
  }

  ghost function Ranks(workers: seq<Pc>, count34: int, count35: int): nat {
    if workers == [] then 0 else Rank(workers[0], count34, count35) + Ranks(workers[1..], count34, count35)
  }

  lemma {:induction false} RanksUpdate(workers: seq<Pc>, i: nat, pc: Pc, a: int, b: int)
    requires i < |workers|
    ensures Ranks(workers[i := pc], a, b) - Rank(pc, a, b) == Ranks(workers, a, b) - Rank(workers[i], a, b)
  {
    if i == 0 {
      assert workers[0 := pc][1..] == workers[1..];
    } else {
      assert workers[i := pc][1..] == workers[1..][i - 1 := pc];
      RanksUpdate(workers[1..], i - 1, pc, a, b);
    }
  }

  /** A counter that changes makes the loaded values of other workers stale. */
  lemma {:induction false} RanksStale(workers: seq<Pc>, a: int, b: int, a': int, b': int)
    ensures Ranks(workers, a', b') <= Ranks(workers, a, b) + 2 * |workers|
  {
    if workers != [] {
      RanksStale(workers[1..], a, b, a', b');
    }
  }

  /** What remains to be done if no more signals arrive; one pending signal can make all workers look again. */
  ghost function Remaining(s: State): int {
    12 * (s.s34.posting + s.s35.posting) + 11 * s.sem
    + PendingWork(|s.workers|, s.s34.count + s.s35.count)
    + Ranks(s.workers, s.s34.count, s.s35.count)
  }

  ghost function PendingWork(workers: nat, pending: int): int {
    (2 * workers + 3) * pending
  }

  lemma OneLessPending(workers: nat, pending: int)
    ensures PendingWork(workers, pending - 1) == PendingWork(workers, pending) - 2 * workers - 3
    ensures pending >= 0 ==> PendingWork(workers, pending) >= 0
  {
  }

  lemma RemainingIsNonnegative(s: State)
    requires Inv(s)
    ensures 0 <= Remaining(s)
  {
    OneLessPending(|s.workers|, s.s34.count + s.s35.count);
  }

  /** A worker that takes a signal. */
  lemma TakingShrinks(s: State, e: Event)
    requires Inv(s) && Enabled(s, e) && e.Work? && !e.weakly
    requires s.workers[e.i].Cas? && s.Get(s.workers[e.i].sig).count == s.workers[e.i].cnt
    ensures Remaining(Next(s, e)) < Remaining(s)
  {
    var s' := Next(s, e);
    var pc := Note(s.workers[e.i].sig);
    assert s'.workers == s.workers[e.i := pc];
    RanksUpdate(s.workers, e.i, pc, s.s34.count, s.s35.count);
    RanksStale(s'.workers, s.s34.count, s.s35.count, s'.s34.count, s'.s35.count);
    OneLessPending(|s.workers|, s.s34.count + s.s35.count);
    assert s'.s34.count + s'.s35.count == s.s34.count + s.s35.count - 1;
  }

  lemma QuietStepShrinks(s: State, e: Event)
    requires Inv(s) && Enabled(s, e) && Quiet(e)
    ensures Remaining(Next(s, e)) < Remaining(s)
  {
    if e.Work? {
      var pc := s.workers[e.i];
      if pc.Cas? && s.Get(pc.sig).count == pc.cnt {
        TakingShrinks(s, e);
      } else {
        var s' := Next(s, e);
        assert s'.workers == s.workers[e.i := s'.workers[e.i]];
        RanksUpdate(s.workers, e.i, s'.workers[e.i], s.s34.count, s.s35.count);
      }
    }
  }

  ghost predicate AllQuiet(events: seq<Event>) {
    forall e | e in events :: Quiet(e)
  }

  lemma {:induction false} QuietRunsEnd(s: State, events: seq<Event>)
    requires Inv(s) && Legal(s, events) && AllQuiet(events)
    ensures Inv(Run(s, events)) && Remaining(Run(s, events)) + |events| <= Remaining(s)
    ensures 0 <= Remaining(s)
    decreases events
  {
    RemainingIsNonnegative(s);
    if events != [] {
      assert events[0] in events;
      assert forall e | e in events[1..] :: e in events;
      QuietStepShrinks(s, events[0]);
      NextKeepsInv(s, events[0]);
      QuietRunsEnd(Next(s, events[0]), events[1..]);
    }
  }

  /** Neither a handler nor a worker can go on. */
  ghost predicate Stuck(s: State) {
    forall e | Quiet(e) :: !Enabled(s, e)
  }

  lemma StuckIsHandled(s: State)
    requires Inv(s) && |s.workers| > 0 && Stuck(s)
    ensures AllBlocked(s) && AllHandled(s)
  {
    assert !Enabled(s, Post(Sig34)) && !Enabled(s, Post(Sig35)) && !Enabled(s, Work(0, false));
    forall i | 0 <= i < |s.workers| ensures s.workers[i] == SemWait {
      assert !Enabled(s, Work(i, false));
    }
    BlockedNotNoting(s.workers, Sig34);
    BlockedNotNoting(s.workers, Sig35);
  }

  /**
    From every reachable state, once signals stop arriving, the workers take
    only finitely many steps, and a state in which none of them can take a
    step is one in which every delivered signal has been handled.
   */
  lemma EverythingIsHandled(n: nat, events: seq<Event>, rest: seq<Event>)
    requires n > 0 && Legal(Init(n), events)
    requires Legal(Run(Init(n), events), rest) && AllQuiet(rest)
    ensures |rest| <= Remaining(Run(Init(n), events))
    ensures Stuck(Run(Run(Init(n), events), rest)) ==> AllHandled(Run(Run(Init(n), events), rest))
    ensures Stuck(Run(Run(Init(n), events), rest)) ==>
              forall sig :: Run(Run(Init(n), events), rest).Get(sig).wasHere == multiset(events)[Increment(sig)]
  {
    InitInv(n);
    RunKeepsInv(Init(n), events);
    HandledAfterQuiet(Run(Init(n), events), rest);
    forall sig: Signal
      ensures Run(Run(Init(n), events), rest).Get(sig).delivered == multiset(events)[Increment(sig)]
    {
      RunCountsEvents(Init(n), events, sig);
      RunCountsEvents(Run(Init(n), events), rest, sig);
      assert Increment(sig) !in rest;
    }
  }

  lemma HandledAfterQuiet(s: State, rest: seq<Event>)
    requires Inv(s) && |s.workers| > 0 && Legal(s, rest) && AllQuiet(rest)
    ensures |rest| <= Remaining(s)
    ensures Stuck(Run(s, rest)) ==> AllHandled(Run(s, rest))
  {
    QuietRunsEnd(s, rest);
    RunKeepsInv(s, rest);
    RemainingIsNonnegative(Run(s, rest));
    if Stuck(Run(s, rest)) {
      StuckIsHandled(Run(s, rest));
    }
  }
}
