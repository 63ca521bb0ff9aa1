/**
  The counting tasks of `src/threadpool.cxx`: a producer adds tasks to a
  bounded queue, and a task that draws a counter value divisible by `modulo`
  is put in the queue again.  Any number of threads execute tasks, so a task
  draws its value in one step and returns in a later one.
 */
module RequeueCount {

  /**
    `toAdd` turns of the producer loop are left, of which `full` found no room
    so far; `again` and `last` are executions that drew a value and will
    return true respectively false.
   */
  datatype State = State(toAdd: nat, full: nat, accepted: nat, queued: nat,
                         again: nat, last: nat, finished: nat, count: nat)

  datatype Event = Produce | Execute | Requeue | Finish

  predicate Enabled(s: State, e: Event) {
    match e
    case Produce => s.toAdd > 0
    case Execute => s.queued > 0
    case Requeue => s.again > 0
    case Finish => s.last > 0
  }

  function Next(s: State, e: Event, capacity: nat, modulo: nat): State
    requires Enabled(s, e) && modulo > 0
  {
    match e
    case Produce =>
      if s.queued < capacity then s.(toAdd := s.toAdd - 1, accepted := s.accepted + 1, queued := s.queued + 1)
      else s.(toAdd := s.toAdd - 1, full := s.full + 1)
    case Execute =>
      var c := s.count;
      if c % modulo == 0 then s.(count := c + 1, queued := s.queued - 1, again := s.again + 1)
      else s.(count := c + 1, queued := s.queued - 1, last := s.last + 1)
    case Requeue => s.(again := s.again - 1, queued := s.queued + 1)
    case Finish => s.(last := s.last - 1, finished := s.finished + 1)
  }

  function Init(loopSize: nat): State {
    State(loopSize, 0, 0, 0, 0, 0, 0, 0)
  }

  // ----- What every step keeps -----

  /** How many of the first `n` counter values are divisible by `modulo`. */
  ghost function Multiples(n: nat, modulo: nat): nat
    requires modulo > 0
  {
    if n == 0 then 0 else Multiples(n - 1, modulo) + if (n - 1) % modulo == 0 then 1 else 0
  }

  ghost predicate Inv(s: State, loopSize: nat, modulo: nat)
    requires modulo > 0
  {
    && s.accepted + s.full + s.toAdd == loopSize
    && s.accepted == s.queued + s.again + s.last + s.finished
    && s.last + s.finished == s.count - Multiples(s.count, modulo)
    && (s.count > 0 && (s.count - 1) % modulo == 0 ==> s.queued + s.again > 0)
  }

  /** How many steps a state is away from the start. */
  ghost function Steps(s: State, loopSize: nat): int {
    loopSize - s.toAdd + 2 * s.count - s.again - s.last
  }

  lemma OneMoreDraw(count: nat, modulo: nat, before: nat, after: nat)
    requires modulo > 0 && before == Multiples(count, modulo) && after == Multiples(count + 1, modulo)
    ensures after == before + if count % modulo == 0 then 1 else 0
  {
  }

  lemma NextKeepsInv(s: State, e: Event, loopSize: nat, capacity: nat, modulo: nat)
    requires modulo > 0 && Inv(s, loopSize, modulo) && Enabled(s, e)
    ensures Inv(Next(s, e, capacity, modulo), loopSize, modulo)
    ensures Steps(Next(s, e, capacity, modulo), loopSize) == Steps(s, loopSize) + 1
  {
    if e == Execute {
      OneMoreDraw(s.count, modulo, Multiples(s.count, modulo), Multiples(s.count + 1, modulo));
    }
  }

  ghost predicate Legal(s: State, events: seq<Event>, capacity: nat, modulo: nat)
    requires modulo > 0
    decreases events
  {
    events == [] || (&& Enabled(s, events[0])
                     && Legal(Next(s, events[0], capacity, modulo), events[1..], capacity, modulo))
  }

  ghost function Run(s: State, events: seq<Event>, capacity: nat, modulo: nat): State
    requires modulo > 0 && Legal(s, events, capacity, modulo)
    decreases events
  {
    if events == [] then s else Run(Next(s, events[0], capacity, modulo), events[1..], capacity, modulo)
  }

  lemma {:induction false} RunKeepsInv(s: State, events: seq<Event>, loopSize: nat, capacity: nat, modulo: nat)
    requires modulo > 0 && Inv(s, loopSize, modulo) && Legal(s, events, capacity, modulo)
    ensures Inv(Run(s, events, capacity, modulo), loopSize, modulo)
    ensures Steps(Run(s, events, capacity, modulo), loopSize) == Steps(s, loopSize) + |events|
    decreases events
  {
    if events != [] {
      NextKeepsInv(s, events[0], loopSize, capacity, modulo);
      RunKeepsInv(Next(s, events[0], capacity, modulo), events[1..], loopSize, capacity, modulo);
    }
  }

  // ----- What the fields count -----

  lemma MultisetHead(events: seq<Event>, e: Event)
    requires events != []
    ensures multiset(events)[e] == multiset(events[1..])[e] + if events[0] == e then 1 else 0
  {
    assert multiset(events) == multiset([events[0]]) + multiset(events[1..]) by {
      assert events == [events[0]] + events[1..];
    }
  }

  lemma {:induction false} RunCountsEvents(s: State, events: seq<Event>, capacity: nat, modulo: nat)
    requires modulo > 0 && Legal(s, events, capacity, modulo)
    ensures var s' := Run(s, events, capacity, modulo);
            && s'.count == s.count + multiset(events)[Execute]
            && s'.finished == s.finished + multiset(events)[Finish]
            && s'.accepted + s'.full == s.accepted + s.full + multiset(events)[Produce]
            && s'.again + s'.last + multiset(events)[Requeue] + multiset(events)[Finish]
               == s.again + s.last + multiset(events)[Execute]
    decreases events
  {
    if events != [] {
      MultisetHead(events, Produce);
      MultisetHead(events, Execute);
      MultisetHead(events, Requeue);
      MultisetHead(events, Finish);
      RunCountsEvents(Next(s, events[0], capacity, modulo), events[1..], capacity, modulo);
    }
  }

  // ----- The bound of the queue -----

  function Min(a: int, b: int): int {
    if a <= b then a else b
  }

  /** Nobody executed anything yet. */
  ghost predicate OnlyProduced(s: State, loopSize: nat, capacity: nat) {
    && s.again == 0 && s.last == 0 && s.count == 0
    && s.queued == s.accepted == Min(loopSize - s.toAdd, capacity)
  }

  ghost predicate QueueInv(s: State, loopSize: nat, capacity: nat) {
    && (s.count == 0 ==> OnlyProduced(s, loopSize, capacity))
    && (s.full > 0 ==> s.accepted >= capacity)
    && s.accepted == s.queued + s.again + s.last + s.finished
    && s.accepted + s.full + s.toAdd == loopSize
  }

  lemma NextKeepsQueueInv(s: State, e: Event, loopSize: nat, capacity: nat, modulo: nat)
    requires modulo > 0 && QueueInv(s, loopSize, capacity) && Enabled(s, e)
    ensures QueueInv(Next(s, e, capacity, modulo), loopSize, capacity)
  {
  }

  lemma {:induction false} RunKeepsQueueInv(s: State, events: seq<Event>, loopSize: nat, capacity: nat, modulo: nat)
    requires modulo > 0 && QueueInv(s, loopSize, capacity) && Legal(s, events, capacity, modulo)
    ensures QueueInv(Run(s, events, capacity, modulo), loopSize, capacity)
    decreases events
  {
    if events != [] {
      NextKeepsQueueInv(s, events[0], loopSize, capacity, modulo);
      RunKeepsQueueInv(Next(s, events[0], capacity, modulo), events[1..], loopSize, capacity, modulo);
    }
  }

  /**
    Tasks are turned away exactly when the queue is full: while nothing was
    executed, the first `capacity` turns of the producer succeed and no other,
    and in every run none is turned away before that many were accepted.
   */
  lemma QueueIsBounded(loopSize: nat, capacity: nat, modulo: nat, events: seq<Event>)
    requires modulo > 0 && Legal(Init(loopSize), events, capacity, modulo)
    ensures var s := Run(Init(loopSize), events, capacity, modulo);
            && (Execute !in events ==> s.queued == s.accepted == Min(multiset(events)[Produce], capacity))
            && (s.full > 0 ==> s.accepted >= capacity)
  {
    RunKeepsQueueInv(Init(loopSize), events, loopSize, capacity, modulo);
    RunCountsEvents(Init(loopSize), events, capacity, modulo);
  }

  // ----- Counting -----

  /** `n` written as `q` times `modulo` and a rest `r`. */
  lemma {:induction false} MultiplesOf(n: nat, modulo: nat, q: nat, r: nat)
    requires modulo > 0 && n == q * modulo + r && r < modulo
    ensures Multiples(n, modulo) == q + if r > 0 then 1 else 0
    decreases n
  {
    if n > 0 {
      if r > 0 {
        MultiplesOf(n - 1, modulo, q, r - 1);
        Remainder(n - 1, modulo, q, r - 1);
      } else {
        assert q > 0;
        assert (q - 1) * modulo + modulo == q * modulo;
        MultiplesOf(n - 1, modulo, q - 1, modulo - 1);
        Remainder(n - 1, modulo, q - 1, modulo - 1);
      }
    } else {
      SmallMultiple(q, modulo);
    }
  }

  lemma Remainder(n: nat, m: nat, q: int, r: nat)
    requires m > 0 && n == q * m + r && r < m
    ensures n % m == r && n / m == q
  {
    var k := n / m - q;
    assert k * m == r - n % m;
    SmallMultiple(k, m);
  }

  lemma SmallMultiple(k: int, m: int)
    requires -m < k * m < m
    ensures k == 0
  {
  }

  /** The smallest number of `d`s that cover `n`. */
  function CeilDiv(n: nat, d: nat): nat
    requires d > 0
  {
    (n + d - 1) / d
  }

  lemma {:induction false} MultiplesAtMostHalf(n: nat, modulo: nat)
    requires modulo >= 2
    ensures 2 * Multiples(n, modulo) <= n + 1
    ensures n % modulo == 0 ==> 2 * Multiples(n, modulo) <= n
  {
    if n > 0 {
      MultiplesAtMostHalf(n - 1, modulo);
      if (n - 1) % modulo == 0 {
        Remainder(n, modulo, (n - 1) / modulo, 1);
      }
    }
  }

  /** The executions needed for `done` tasks, if the last execution was not one to repeat. */
  lemma ExecutionsFor(count: nat, done: nat, modulo: nat)
    requires modulo >= 2 && done == count - Multiples(count, modulo)
    requires count > 0 ==> (count - 1) % modulo != 0
    ensures count == done + CeilDiv(done, modulo - 1)
  {
    var q, r, d := count / modulo, count % modulo, modulo - 1;
    assert count == q * modulo + r;
    MultiplesOf(count, modulo, q, r);
    assert q * modulo == q * d + q;
    if r == 0 {
      assert done == q * d;
      Remainder(done + d - 1, d, q, d - 1);
    } else {
      Remainder(count - 1, modulo, q, r - 1);
      assert done + d - 1 == (q + 1) * d + (r - 2);
      Remainder(done + d - 1, d, q + 1, r - 2);
    }
  }

  // ----- Whole runs -----

  ghost predicate Quiescent(s: State) {
    s.toAdd == 0 && s.queued == 0 && s.again == 0 && s.last == 0
  }

  /** The number that the program prints as expected. */
  function Expected(accepted: nat, modulo: nat): nat
    requires modulo >= 2
  {
    accepted * modulo / (modulo - 1)
  }

  lemma StepsAreBounded(s: State, loopSize: nat, modulo: nat)
    requires modulo >= 2 && Inv(s, loopSize, modulo)
    ensures Steps(s, loopSize) <= 5 * loopSize + 2
  {
    MultiplesAtMostHalf(s.count, modulo);
  }

  lemma SomethingToDo(s: State) returns (e: Event)
    requires !Quiescent(s)
    ensures Enabled(s, e)
  {
    e := if s.toAdd > 0 then Produce else if s.queued > 0 then Execute else if s.again > 0 then Requeue else Finish;
  }

  lemma QuiescentCount(s: State, loopSize: nat, modulo: nat)
    requires modulo >= 2 && Inv(s, loopSize, modulo) && Quiescent(s)
    ensures s.accepted == loopSize - s.full == s.finished
    ensures s.count == s.accepted + CeilDiv(s.accepted, modulo - 1)
  {
    ExecutionsFor(s.count, s.accepted, modulo);
  }

  /**
    Some step is possible, or every accepted task has finished after exactly
    this many executions.
   */
  ghost predicate Outcome(s: State, loopSize: nat, modulo: nat)
    requires modulo >= 2
  {
    if Quiescent(s) then
      && s.accepted == loopSize - s.full == s.finished
      && s.count == s.accepted + CeilDiv(s.accepted, modulo - 1)
    else
      exists e :: Enabled(s, e)
  }

  lemma InvGivesOutcome(s: State, loopSize: nat, modulo: nat)
    requires modulo >= 2 && Inv(s, loopSize, modulo)
    ensures Outcome(s, loopSize, modulo) && Steps(s, loopSize) <= 5 * loopSize + 2
  {
    StepsAreBounded(s, loopSize, modulo);
    if Quiescent(s) {
      QuiescentCount(s, loopSize, modulo);
    } else {
      var e := SomethingToDo(s);
    }
  }

  /** The turns of the producer, the executions, and the executions that finished a task. */
  ghost predicate CountsAgree(produced: nat, executed: nat, finished: nat, loopSize: nat, modulo: nat)
    requires modulo >= 2
  {
    produced == loopSize && executed == finished + CeilDiv(finished, modulo - 1)
  }

  lemma CountsAtEnd(s: State, produced: nat, executed: nat, finished: nat, loopSize: nat, modulo: nat)
    requires modulo >= 2 && Inv(s, loopSize, modulo)
    requires s.count == executed && s.finished == finished && s.accepted + s.full == produced
    ensures Quiescent(s) ==> CountsAgree(produced, executed, finished, loopSize, modulo)
  {
    if Quiescent(s) {
      QuiescentCount(s, loopSize, modulo);
    }
  }

  /**
    Under every schedule the work ends after a bounded number of steps: as
    long as it is not done some step is possible, and when it is done the
    number of executions is exactly determined.
   */
  lemma EveryScheduleCounts(loopSize: nat, capacity: nat, modulo: nat, events: seq<Event>)
    requires modulo >= 2 && Legal(Init(loopSize), events, capacity, modulo)
    ensures |events| <= 5 * loopSize + 2
    ensures Outcome(Run(Init(loopSize), events, capacity, modulo), loopSize, modulo)
    ensures Quiescent(Run(Init(loopSize), events, capacity, modulo)) ==>
              var m := multiset(events);
              CountsAgree(m[Produce], m[Execute], m[Finish], loopSize, modulo)
  {
    RunCountsEvents(Init(loopSize), events, capacity, modulo);
    var s := Run(Init(loopSize), events, capacity, modulo);
    RunKeepsInv(Init(loopSize), events, loopSize, capacity, modulo);
    CountsAtEnd(s, multiset(events)[Produce], multiset(events)[Execute], multiset(events)[Finish], loopSize, modulo);
    InvGivesOutcome(s, loopSize, modulo);
  }

  /** The printed expectation is right if and only if `modulo - 1` divides the number of tasks, else one too low. */
  lemma ExpectedIsFloor(accepted: nat, modulo: nat)
    requires modulo >= 2
    ensures accepted + CeilDiv(accepted, modulo - 1)
         == Expected(accepted, modulo) + if accepted % (modulo - 1) == 0 then 0 else 1
  {
    var d := modulo - 1;
    var q, r := accepted / d, accepted % d;
    assert accepted == q * d + r;
    assert accepted * modulo == accepted * d + accepted == (accepted + q) * d + r by {
      assert (accepted + q) * d == accepted * d + q * d;
    }
    Remainder(accepted * modulo, d, accepted + q, r);
    if r == 0 {
      Remainder(accepted + d - 1, d, q, d - 1);
    } else {
      assert accepted + d - 1 == (q + 1) * d + (r - 1);
      Remainder(accepted + d - 1, d, q + 1, r - 1);
    }
  }
}
