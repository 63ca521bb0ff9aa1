/**
  The saturating wait/signal counters of `src/wait_signal_test2.cxx`.  A task
  has a counter per condition: 0 while it is waiting for the condition, 1
  initially, and 2 after a signal that was not waited for.  Conditions below
  `normals` are normal, the others are required.

  The source has two conditions of each kind; here there are any number.
 */
module WaitSignal {

  type Mask = set<nat>

  datatype Op = Wait(mask: Mask) | Signal(mask: Mask)

  datatype Option<T> = None | Some(value: T)

  // ----- The counters as a value -----

  predicate HasIdle(s: seq<int>) {
    exists i :: 0 <= i < |s| && s[i] == 0
  }

  predicate RequiredIdle(s: seq<int>, normals: nat) {
    exists i :: normals <= i < |s| && s[i] == 0
  }

  function Waited(s: seq<int>, mask: Mask): seq<int> {
    seq(|s|, i requires 0 <= i < |s| => if i in mask then s[i] - 1 else s[i])
  }

  function Signalled(s: seq<int>, mask: Mask): seq<int> {
    seq(|s|, i requires 0 <= i < |s| => if i in mask && s[i] != 2 then s[i] + 1 else s[i])
  }

  predicate WaitAllowed(s: seq<int>, mask: Mask) {
    forall i :: 0 <= i < |s| && i in mask ==> s[i] != 0
  }

  predicate SignalAllowed(s: seq<int>, mask: Mask, idle: bool) {
    idle ==> forall i :: 0 <= i < |s| && i in mask ==> s[i] == 0
  }

  /** A counter of a normal condition that changes to 1 may wake up the task. */
  predicate Wakes(s: seq<int>, normals: nat, mask: Mask, before: int) {
    exists i :: 0 <= i < |s| && i < normals && i in mask && s[i] == before
  }

  function Ones(n: nat): seq<int> {
    seq(n, _ => 1)
  }

  function NormalsReset(s: seq<int>, normals: nat): seq<int> {
    seq(|s|, i requires 0 <= i < |s| => if i < normals && s[i] == 0 then 1 else s[i])
  }

  function Settled(s: seq<int>, normals: nat, wokenUp: bool, orWokeUp: bool): seq<int> {
    if wokenUp then Ones(|s|) else if orWokeUp then NormalsReset(s, normals) else s
  }

  /** The counters after an operation, if it is allowed. */
  function Step(s: seq<int>, normals: nat, op: Op): Option<seq<int>> {
    match op
    case Signal(mask) =>
      if !SignalAllowed(s, mask, HasIdle(s)) then None
      else
        var s1, orWokeUp := Signalled(s, mask), Wakes(s, normals, mask, 0);
        var wokenUp := HasIdle(s) && !RequiredIdle(s1, normals) && (orWokeUp || !HasIdle(s1));
        Some(Settled(s1, normals, wokenUp, orWokeUp))
    case Wait(mask) =>
      if !WaitAllowed(s, mask) then None
      else
        var s1, orWokeUp := Waited(s, mask), Wakes(s, normals, mask, 2);
        Some(Settled(s1, normals, !RequiredIdle(s1, normals) && orWokeUp, orWokeUp))
  }

  datatype Progress = Progress(counters: seq<int>, running: bool)

  /** One turn of the loop over a list of operations. */
  function LoopStep(p: Progress, normals: nat, op: Op): Option<Progress> {
    match Step(p.counters, normals, op)
    case None => None
    case Some(s) =>
      if op.Wait? && !p.running then None
      else
        var running := !HasIdle(s);
        Some(Progress(if op.Wait? && running then Ones(|s|) else s, running))
  }

  function Run(p: Progress, normals: nat, ops: seq<Op>): Option<Progress> {
    if ops == [] then Some(p)
    else match Run(p, normals, ops[..|ops| - 1])
      case None => None
      case Some(q) => LoopStep(q, normals, ops[|ops| - 1])
  }

  // ----- The counters as they are changed in place -----

  class Task {
    const normals: nat
    const counters: array<int>

    constructor (normals: nat, required: nat)
      ensures this.normals == normals && fresh(counters) && counters[..] == Ones(normals + required)
    {
      this.normals := normals;
      this.counters := new int[normals + required](_ => 1);
    }

    ghost predicate Valid()
      reads this, counters
    {
      forall i | 0 <= i < counters.Length :: 0 <= counters[i] <= 2
    }

    /** `allowed` is false where the source throws. */
    method WaitFor(mask: Mask) returns (allowed: bool, orWokeUp: bool)
      requires Valid()
      modifies counters
      ensures allowed <==> WaitAllowed(old(counters[..]), mask)
      ensures allowed ==> counters[..] == Waited(old(counters[..]), mask)
      ensures allowed ==> (orWokeUp <==> Wakes(old(counters[..]), normals, mask, 2))
    {
      ghost var before := counters[..];
      orWokeUp := false;
      for i := 0 to counters.Length
        invariant forall j | 0 <= j < i :: j in mask ==> before[j] != 0
        invariant forall j | 0 <= j < i :: counters[j] == Waited(before, mask)[j]
        invariant forall j | i <= j < counters.Length :: counters[j] == before[j]
        invariant orWokeUp <==> exists j :: 0 <= j < i && j < normals && j in mask && before[j] == 2
      {
        if i in mask {
          if counters[i] == 0 {
            return false, orWokeUp;
          }
          counters[i] := counters[i] - 1;
          if counters[i] == 1 && i < normals {
            orWokeUp := true;
          }
        }
      }
      allowed := true;
    }

    method SignalTo(mask: Mask, isIdle: bool) returns (allowed: bool, orWokeUp: bool)
      requires Valid()
      modifies counters
      ensures allowed <==> SignalAllowed(old(counters[..]), mask, isIdle)
      ensures allowed ==> counters[..] == Signalled(old(counters[..]), mask)
      ensures allowed ==> (orWokeUp <==> Wakes(old(counters[..]), normals, mask, 0))
    {
      ghost var before := counters[..];
      orWokeUp := false;
      for i := 0 to counters.Length
        invariant isIdle ==> forall j | 0 <= j < i :: j in mask ==> before[j] == 0
        invariant forall j | 0 <= j < i :: counters[j] == Signalled(before, mask)[j]
        invariant forall j | i <= j < counters.Length :: counters[j] == before[j]
        invariant orWokeUp <==> exists j :: 0 <= j < i && j < normals && j in mask && before[j] == 0
      {
        if i in mask {
          if isIdle && counters[i] != 0 {
            return false, orWokeUp;
          }
          if counters[i] != 2 {
            counters[i] := counters[i] + 1;
            if counters[i] == 1 && i < normals {
              orWokeUp := true;
            }
          }
        }
      }
      allowed := true;
    }

    method Reset()
      modifies counters
      ensures counters[..] == Ones(counters.Length)
    {
      for i := 0 to counters.Length
        invariant forall j | 0 <= j < i :: counters[j] == 1
      {
        counters[i] := 1;
      }
    }

    method ResetOrCounters()
      modifies counters
      ensures counters[..] == NormalsReset(old(counters[..]), normals)
    {
      ghost var before := counters[..];
      for i := 0 to counters.Length
        invariant forall j | 0 <= j < i :: counters[j] == NormalsReset(before, normals)[j]
        invariant forall j | i <= j < counters.Length :: counters[j] == before[j]
      {
        if i < normals && counters[i] == 0 {
          counters[i] := 1;
        }
      }
    }

    method HasIdleCounter() returns (idle: bool)
      ensures idle <==> HasIdle(counters[..])
    {
      idle := false;
      for i := 0 to counters.Length
        invariant idle <==> exists j :: 0 <= j < i && counters[j] == 0
      {
        if counters[i] == 0 {
          idle := true;
        }
      }
      assert idle ==> HasIdle(counters[..]);
    }

    method RequiredIsIdle() returns (idle: bool)
      requires normals <= counters.Length
      ensures idle <==> RequiredIdle(counters[..], normals)
    {
      idle := false;
      for i := normals to counters.Length
        invariant idle <==> exists j :: normals <= j < i && counters[j] == 0
      {
        if counters[i] == 0 {
          idle := true;
        }
      }
    }

    method Settle(wokenUp: bool, orWokeUp: bool)
      modifies counters
      ensures counters[..] == Settled(old(counters[..]), normals, wokenUp, orWokeUp)
    {
      if wokenUp {
        Reset();
      } else if orWokeUp {
        ResetOrCounters();
      }
    }

    /** The operation as the main program applies it to a state. */
    method Operate(op: Op) returns (allowed: bool)
      requires Valid() && normals <= counters.Length
      modifies counters
      ensures allowed <==> Step(old(counters[..]), normals, op).Some?
      ensures allowed ==> counters[..] == Step(old(counters[..]), normals, op).value
    {
      var orWokeUp;
      match op {
        case Signal(mask) =>
          var idle := HasIdleCounter();
          allowed, orWokeUp := SignalTo(mask, idle);
          if allowed {
            var required := RequiredIsIdle();
            var stillIdle := HasIdleCounter();
            Settle(idle && !required && (orWokeUp || !stillIdle), orWokeUp);
          }
        case Wait(mask) =>
          allowed, orWokeUp := WaitFor(mask);
          if allowed {
            var required := RequiredIsIdle();
            Settle(!required && orWokeUp, orWokeUp);
          }
      }
    }

    /** A list of operations on a task that starts with all counters at 1. */
    method Operations(ops: seq<Op>) returns (allowed: bool, running: bool)
      requires normals <= counters.Length
      modifies counters
      ensures var r := Run(Progress(Ones(counters.Length), true), normals, ops);
              && (allowed <==> r.Some?)
              && (allowed ==> counters[..] == r.value.counters && running == r.value.running)
    {
      Reset();
      running := true;
      ghost var start := Progress(Ones(counters.Length), true);
      for k := 0 to |ops|
        invariant Valid()
        invariant Run(start, normals, ops[..k]) == Some(Progress(counters[..], running))
      {
        ghost var before := counters[..];
        RunExtends(start, normals, ops, k);
        allowed := Operate(ops[k]);
        if !allowed || (ops[k].Wait? && !running) {
          RunStaysDisallowed(start, normals, ops, k + 1);
          return false, running;
        }
        StepInRange(before, normals, ops[k]);
        assert Valid() by {
          assert forall i | 0 <= i < counters.Length :: counters[i] == counters[..][i];
        }
        var idle := HasIdleCounter();
        running := !idle;
        if ops[k].Wait? && running {
          Reset();
        }
      }
      assert ops[..|ops|] == ops;
      allowed := true;
    }
  }

  ghost predicate InRange(s: seq<int>) {
    forall i | 0 <= i < |s| :: 0 <= s[i] <= 2
  }

  lemma StepInRange(s: seq<int>, normals: nat, op: Op)
    requires InRange(s) && Step(s, normals, op).Some?
    ensures InRange(Step(s, normals, op).value) && |Step(s, normals, op).value| == |s|
  {
  }

  lemma RunExtends(p: Progress, normals: nat, ops: seq<Op>, k: nat)
    requires k < |ops|
    ensures Run(p, normals, ops[..k + 1])
         == match Run(p, normals, ops[..k])
            case None => None
            case Some(q) => LoopStep(q, normals, ops[k])
  {
    assert ops[..k + 1][..k] == ops[..k];
  }

  lemma {:induction false} RunStaysDisallowed(p: Progress, normals: nat, ops: seq<Op>, k: nat)
    requires k <= |ops| && Run(p, normals, ops[..k]).None?
    ensures Run(p, normals, ops).None?
    decreases |ops| - k
  {
    if k < |ops| {
      RunExtends(p, normals, ops, k);
      RunStaysDisallowed(p, normals, ops, k + 1);
    } else {
      assert ops[..k] == ops;
    }
  }

  // ----- What the counters implement -----

  /**
    All required conditions of the mask are signalled, and if the mask has
    normal conditions then at least one of those is.
   */
  ghost predicate Satisfied(normals: nat, mask: Mask, signalled: Mask) {
    && (forall i | i in mask && normals <= i :: i in signalled)
    && ((exists i :: i in mask && i < normals) ==> exists i :: i in mask && i < normals && i in signalled)
  }

  /** A task is running and collects signals, or waits for `mask` after the signals of this round. */
  datatype Phase = Running(signalled: Mask) | Waiting(mask: Mask, signalled: Mask)

  /** The conditions that a waiting task still waits for. */
  ghost predicate IsOpen(normals: nat, mask: Mask, signalled: Mask, i: nat) {
    && i in mask && i !in signalled
    && (i < normals ==> !exists j :: j in mask && j < normals && j in signalled)
  }

  ghost function Awaiting(normals: nat, mask: Mask, signalled: Mask): Phase {
    if Satisfied(normals, mask, signalled) then Running({}) else Waiting(mask, signalled)
  }

  ghost function PhaseStep(ph: Phase, normals: nat, op: Op): Option<Phase> {
    match ph
    case Running(signalled) =>
      (match op
       case Signal(m) => Some(Running(signalled + m))
       case Wait(m) => Some(Awaiting(normals, m, signalled)))
    case Waiting(mask, signalled) =>
      match op
      case Wait(_) => None
      case Signal(m) =>
        if forall i | i in m :: IsOpen(normals, mask, signalled, i)
        then Some(Awaiting(normals, mask, signalled + m)) else None
  }

  ghost function PhaseRun(ph: Phase, normals: nat, ops: seq<Op>): Option<Phase> {
    if ops == [] then Some(ph)
    else match PhaseRun(ph, normals, ops[..|ops| - 1])
      case None => None
      case Some(q) => PhaseStep(q, normals, ops[|ops| - 1])
  }

  /** The value that counter `i` must have in a phase. */
  ghost function CounterIn(ph: Phase, normals: nat, i: nat): int {
    match ph
    case Running(signalled) => if i in signalled then 2 else 1
    case Waiting(mask, signalled) =>
      if i in mask then if IsOpen(normals, mask, signalled, i) then 0 else 1
      else if i in signalled then 2 else 1
  }

  ghost predicate Represents(p: Progress, ph: Phase, normals: nat) {
    && (forall i | 0 <= i < |p.counters| :: p.counters[i] == CounterIn(ph, normals, i))
    && p.running == ph.Running?
    && (ph.Waiting? ==> !Satisfied(normals, ph.mask, ph.signalled) && Fits(ph.mask, |p.counters|))
  }

  /** Masks name existing conditions only. */
  ghost predicate Fits(mask: Mask, n: nat) {
    forall i | i in mask :: i < n
  }

  lemma WaitingHasIdle(p: Progress, ph: Phase, normals: nat)
    requires Represents(p, ph, normals)
    ensures HasIdle(p.counters) <==> ph.Waiting?
  {
    if ph.Waiting? {
      var i := OpenCondition(normals, ph.mask, ph.signalled);
      assert p.counters[i] == 0;
    }
  }

  lemma OpenCondition(normals: nat, mask: Mask, signalled: Mask) returns (i: nat)
    requires !Satisfied(normals, mask, signalled)
    ensures IsOpen(normals, mask, signalled, i)
  {
    if j: nat :| j in mask && normals <= j && j !in signalled {
      i := j;
    } else {
      i :| i in mask && i < normals;
    }
  }

  lemma RunningSignalled(p: Progress, ph: Phase, normals: nat, m: Mask)
    requires Represents(p, ph, normals) && ph.Running? && Fits(m, |p.counters|)
    ensures LoopStep(p, normals, Signal(m)).Some?
    ensures Represents(LoopStep(p, normals, Signal(m)).value, Running(ph.signalled + m), normals)
  {
    WaitingHasIdle(p, ph, normals);
    var s1 := Signalled(p.counters, m);
    assert !HasIdle(s1);
    assert !Wakes(p.counters, normals, m, 0);
  }

  lemma RunningWaits(p: Progress, ph: Phase, normals: nat, m: Mask)
    requires Represents(p, ph, normals) && ph.Running? && Fits(m, |p.counters|)
    ensures LoopStep(p, normals, Wait(m)).Some?
    ensures Represents(LoopStep(p, normals, Wait(m)).value, Awaiting(normals, m, ph.signalled), normals)
  {
    var s, s1 := p.counters, Waited(p.counters, m);
    var orWokeUp := Wakes(s, normals, m, 2);
    assert orWokeUp <==> exists i :: i in m && i < normals && i in ph.signalled by {
      if i: nat :| i in m && i < normals && i in ph.signalled {
        assert s[i] == 2;
      }
    }
    assert RequiredIdle(s1, normals) <==> exists i :: i in m && normals <= i && i !in ph.signalled by {
      if i: nat :| i in m && normals <= i && i !in ph.signalled {
        assert s1[i] == 0;
      }
    }
    AwaitedCounters(s1, normals, m, ph.signalled, orWokeUp);
  }

  /** Once the counters of the mask are counted down or up, settling them gives the next phase. */
  lemma AwaitedCounters(s1: seq<int>, normals: nat, m: Mask, signalled: Mask, orWokeUp: bool)
    requires Fits(m, |s1|)
    requires forall i | 0 <= i < |s1| ::
               s1[i] == if i in m then if i in signalled then 1 else 0 else if i in signalled then 2 else 1
    requires orWokeUp <==> exists i :: i in m && i < normals && i in signalled
    ensures var s2 := Settled(s1, normals, !RequiredIdle(s1, normals) && orWokeUp, orWokeUp);
            var ph := Awaiting(normals, m, signalled);
            && (HasIdle(s2) <==> ph.Waiting?)
            && (ph.Waiting? ==> forall i | 0 <= i < |s1| :: s2[i] == CounterIn(ph, normals, i))
  {
    var s2 := Settled(s1, normals, !RequiredIdle(s1, normals) && orWokeUp, orWokeUp);
    if Satisfied(normals, m, signalled) {
      assert !RequiredIdle(s1, normals);
      assert !HasIdle(s2);
    } else {
      var i := OpenCondition(normals, m, signalled);
      assert s1[i] == 0;
      assert orWokeUp ==> RequiredIdle(s1, normals);
      assert s2[i] == 0;
    }
  }

  lemma WaitingSignalled(p: Progress, ph: Phase, normals: nat, m: Mask)
    requires Represents(p, ph, normals) && ph.Waiting? && Fits(m, |p.counters|)
    requires forall i | i in m :: IsOpen(normals, ph.mask, ph.signalled, i)
    ensures LoopStep(p, normals, Signal(m)).Some?
    ensures Represents(LoopStep(p, normals, Signal(m)).value, Awaiting(normals, ph.mask, ph.signalled + m), normals)
  {
    var s, s1, signalled := p.counters, Signalled(p.counters, m), ph.signalled + m;
    WaitingHasIdle(p, ph, normals);
    assert SignalAllowed(s, m, true);
    var orWokeUp := Wakes(s, normals, m, 0);
    assert orWokeUp <==> exists i :: i in m && i < normals by {
      if i: nat :| i in m && i < normals {
        assert s[i] == 0;
      }
    }
    assert RequiredIdle(s1, normals) <==> exists i :: i in ph.mask && normals <= i && i !in signalled by {
      if i: nat :| i in ph.mask && normals <= i && i !in signalled {
        assert s1[i] == 0;
      }
    }
    if Satisfied(normals, ph.mask, signalled) {
      assert !RequiredIdle(s1, normals);
      if !orWokeUp {
        assert !HasIdle(s1);
      }
    } else {
      var i := OpenCondition(normals, ph.mask, signalled);
      var s2 := Settled(s1, normals, !RequiredIdle(s1, normals) && orWokeUp, orWokeUp);
      assert s1[i] == 0;
      assert orWokeUp ==> RequiredIdle(s1, normals);
      assert s2[i] == 0;
    }
  }

  /** The counters do exactly what the phases say, and allow exactly what they allow. */
  lemma StepRefines(p: Progress, ph: Phase, normals: nat, op: Op)
    requires Represents(p, ph, normals) && op.mask != {} && Fits(op.mask, |p.counters|)
    ensures match PhaseStep(ph, normals, op)
            case None => LoopStep(p, normals, op) == None
            case Some(ph') =>
              && LoopStep(p, normals, op).Some?
              && Represents(LoopStep(p, normals, op).value, ph', normals)
              && |LoopStep(p, normals, op).value.counters| == |p.counters|
  {
    match op
    case Wait(m) =>
      if ph.Running? {
        RunningWaits(p, ph, normals, m);
      }
    case Signal(m) =>
      if ph.Running? {
        RunningSignalled(p, ph, normals, m);
      } else if forall i | i in m :: IsOpen(normals, ph.mask, ph.signalled, i) {
        WaitingSignalled(p, ph, normals, m);
      } else {
        var i :| i in m && !IsOpen(normals, ph.mask, ph.signalled, i);
        assert p.counters[i] != 0;
        WaitingHasIdle(p, ph, normals);
      }
  }

  ghost predicate Proper(ops: seq<Op>, n: nat) {
    forall op | op in ops :: op.mask != {} && Fits(op.mask, n)
  }

  /**
    Refinement: on every list of operations the counters allow an operation
    exactly when the phases do, and then they represent the same phase; in
    particular the task is running exactly when what it waited for was
    signalled in that round.
   */
  lemma {:induction false} RunRefines(n: nat, normals: nat, ops: seq<Op>)
    requires Proper(ops, n)
    ensures match PhaseRun(Running({}), normals, ops)
            case None => Run(Progress(Ones(n), true), normals, ops) == None
            case Some(ph) =>
              && Run(Progress(Ones(n), true), normals, ops).Some?
              && Represents(Run(Progress(Ones(n), true), normals, ops).value, ph, normals)
              && |Run(Progress(Ones(n), true), normals, ops).value.counters| == n
    decreases |ops|
  {
    if ops != [] {
      var front, op := ops[..|ops| - 1], ops[|ops| - 1];
      assert forall o | o in front :: o in ops;
      assert op in ops;
      RunRefines(n, normals, front);
      if PhaseRun(Running({}), normals, front).Some? {
        StepRefines(Run(Progress(Ones(n), true), normals, front).value,
                    PhaseRun(Running({}), normals, front).value, normals, op);
      }
    }
  }

  // ----- Order of operations -----

  ghost function AllSignalled(ops: seq<Op>): Mask {
    if ops == [] then {}
    else AllSignalled(ops[..|ops| - 1]) + if ops[|ops| - 1].Signal? then ops[|ops| - 1].mask else {}
  }

  ghost predicate NoWait(ops: seq<Op>) {
    forall op | op in ops :: op.Signal?
  }

  lemma SatisfiedMonotone(normals: nat, mask: Mask, a: Mask, b: Mask)
    requires a <= b && Satisfied(normals, mask, a)
    ensures Satisfied(normals, mask, b)
  {
  }

  /** A round: a wait in phase `Running(s0)` and the signals after it. */
  lemma {:induction false} RoundOutcome(normals: nat, before: seq<Op>, s0: Mask, mask: Mask, after: seq<Op>)
    requires PhaseRun(Running({}), normals, before) == Some(Running(s0)) && NoWait(after)
    requires PhaseRun(Running({}), normals, before + [Wait(mask)] + after).Some?
    ensures var ph := PhaseRun(Running({}), normals, before + [Wait(mask)] + after).value;
            var signalled := s0 + AllSignalled(after);
            if Satisfied(normals, mask, signalled) then ph.Running? else ph == Waiting(mask, signalled)
    decreases |after|
  {
    var ops := before + [Wait(mask)] + after;
    if after == [] {
      assert ops[..|ops| - 1] == before;
      assert s0 + AllSignalled(after) == s0;
    } else {
      var front, op := after[..|after| - 1], after[|after| - 1];
      assert ops[..|ops| - 1] == before + [Wait(mask)] + front;
      assert forall o | o in front :: o in after;
      assert op in after;
      RoundOutcome(normals, before, s0, mask, front);
      var signalled := s0 + AllSignalled(front);
      assert s0 + AllSignalled(after) == signalled + op.mask;
      if Satisfied(normals, mask, signalled) {
        SatisfiedMonotone(normals, mask, signalled, signalled + op.mask);
      }
    }
  }

  /** Some wait in the list has got the signals of the list that it waits for. */
  ghost predicate IsSatisfiedBy(normals: nat, since: seq<Op>) {
    exists mask :: Wait(mask) in since && Satisfied(normals, mask, AllSignalled(since))
  }

  /** After how many operations the task started running for the last time. */
  ghost function LastStart(normals: nat, ops: seq<Op>): (k: nat)
    ensures k <= |ops|
  {
    if ops == [] then 0
    else
      var k := LastStart(normals, ops[..|ops| - 1]);
      if IsSatisfiedBy(normals, ops[k..]) then |ops| else k
  }

  /** The operations since then. */
  ghost function SinceStart(normals: nat, ops: seq<Op>): seq<Op> {
    ops[LastStart(normals, ops)..]
  }

  /** The phase carries the signals of these operations, and the only wait among them. */
  ghost predicate Carries(ph: Phase, since: seq<Op>) {
    && ph.signalled == AllSignalled(since)
    && (forall op | op in since && op.Wait? :: ph.Waiting? && op.mask == ph.mask)
    && (ph.Waiting? ==> Wait(ph.mask) in since)
  }

  lemma SliceSnoc(ops: seq<Op>, op: Op, k: nat)
    requires k <= |ops|
    ensures (ops + [op])[..|ops|] == ops && (ops + [op])[k..] == ops[k..] + [op]
    ensures (ops + [op])[|ops| + 1..] == []
  {
  }

  lemma SignalledSnoc(ops: seq<Op>, op: Op)
    ensures AllSignalled(ops + [op]) == AllSignalled(ops) + if op.Signal? then op.mask else {}
  {
    assert (ops + [op])[..|ops|] == ops;
  }

  lemma SinceStartSnoc(normals: nat, ops: seq<Op>, op: Op)
    ensures var longer := SinceStart(normals, ops) + [op];
            && SinceStart(normals, ops + [op]) == (if IsSatisfiedBy(normals, longer) then [] else longer)
            && AllSignalled(longer) == AllSignalled(SinceStart(normals, ops)) + if op.Signal? then op.mask else {}
  {
    SliceSnoc(ops, op, LastStart(normals, ops));
    SignalledSnoc(SinceStart(normals, ops), op);
  }

  lemma CarriesOneMore(normals: nat, ph: Phase, since: seq<Op>, op: Op)
    requires Carries(ph, since) && PhaseStep(ph, normals, op).Some?
    requires AllSignalled(since + [op]) == AllSignalled(since) + if op.Signal? then op.mask else {}
    ensures Carries(PhaseStep(ph, normals, op).value,
                    if IsSatisfiedBy(normals, since + [op]) then [] else since + [op])
  {
    var longer := since + [op];
    assert forall o :: o in longer <==> o in since || o == op;
    assert ph.Running? && op.Wait? ==> Wait(op.mask) in longer;
    assert ph.Waiting? ==> Wait(ph.mask) in longer;
  }

  /** The signals that the phase carries are those since the task started running for the last time. */
  lemma {:induction false} PhaseCarriesRound(normals: nat, ops: seq<Op>)
    requires PhaseRun(Running({}), normals, ops).Some?
    ensures Carries(PhaseRun(Running({}), normals, ops).value, SinceStart(normals, ops))
    decreases |ops|
  {
    if ops != [] {
      var front, op := ops[..|ops| - 1], ops[|ops| - 1];
      assert front + [op] == ops;
      PhaseCarriesRound(normals, front);
      SinceStartSnoc(normals, front, op);
      CarriesOneMore(normals, PhaseRun(Running({}), normals, front).value, SinceStart(normals, front), op);
    }
  }

  /**
    Operation `k` is allowed: a wait if nothing is waited for since the last
    start, a signal also if it is for conditions that are waited for.
   */
  ghost predicate AllowedAt(normals: nat, ops: seq<Op>, k: int)
    requires 0 <= k < |ops|
  {
    var since := SinceStart(normals, ops[..k]);
    || NoWait(since)
    || (ops[k].Signal? &&
        exists mask :: Wait(mask) in since &&
                       forall i | i in ops[k].mask :: IsOpen(normals, mask, AllSignalled(since), i))
  }

  ghost predicate AllAllowed(normals: nat, ops: seq<Op>) {
    forall k {:trigger AllowedAt(normals, ops, k)} | 0 <= k < |ops| :: AllowedAt(normals, ops, k)
  }

  lemma CarriesAllows(normals: nat, ph: Phase, since: seq<Op>, op: Op)
    requires Carries(ph, since)
    ensures NoWait(since) <==> ph.Running?
    ensures PhaseStep(ph, normals, op).Some? <==>
            || NoWait(since)
            || (op.Signal? &&
                exists mask :: Wait(mask) in since &&
                               forall i | i in op.mask :: IsOpen(normals, mask, AllSignalled(since), i))
  {
    if ph.Waiting? {
      assert Wait(ph.mask) in since;
      assert forall mask | Wait(mask) in since :: mask == ph.mask;
    }
  }

  lemma AllAllowedSnoc(normals: nat, ops: seq<Op>, front: seq<Op>)
    requires ops != [] && front == ops[..|ops| - 1]
    ensures AllAllowed(normals, ops) <==> AllAllowed(normals, front) && AllowedAt(normals, ops, |front|)
  {
    forall k | 0 <= k < |front| ensures AllowedAt(normals, ops, k) <==> AllowedAt(normals, front, k) {
      assert ops[..k] == front[..k];
    }
  }

  lemma {:induction false} PhaseAllows(normals: nat, ops: seq<Op>)
    ensures PhaseRun(Running({}), normals, ops).Some? <==> AllAllowed(normals, ops)
    decreases |ops|
  {
    if ops != [] {
      var front, op := ops[..|ops| - 1], ops[|ops| - 1];
      PhaseAllows(normals, front);
      AllAllowedSnoc(normals, ops, front);
      if PhaseRun(Running({}), normals, front).Some? {
        PhaseCarriesRound(normals, front);
        CarriesAllows(normals, PhaseRun(Running({}), normals, front).value, SinceStart(normals, front), op);
      }
    }
  }

  /**
    What any list of operations means: exactly when it is legal, and that then
    the task is running exactly when nothing is waited for since its last start.
   */
  lemma OperationsMean(n: nat, normals: nat, ops: seq<Op>)
    requires Proper(ops, n)
    ensures Run(Progress(Ones(n), true), normals, ops).Some? <==> AllAllowed(normals, ops)
    ensures Run(Progress(Ones(n), true), normals, ops).Some? ==>
              (Run(Progress(Ones(n), true), normals, ops).value.running <==> NoWait(SinceStart(normals, ops)))
  {
    RunRefines(n, normals, ops);
    PhaseAllows(normals, ops);
    if PhaseRun(Running({}), normals, ops).Some? {
      PhaseCarriesRound(normals, ops);
      CarriesAllows(normals, PhaseRun(Running({}), normals, ops).value, SinceStart(normals, ops), Wait({}));
    }
  }

  /** A wait is only allowed while the task is running. */
  lemma {:induction false} RunningBeforeWait(normals: nat, before: seq<Op>, mask: Mask, after: seq<Op>)
    requires PhaseRun(Running({}), normals, before + [Wait(mask)] + after).Some?
    ensures PhaseRun(Running({}), normals, before).Some? && PhaseRun(Running({}), normals, before).value.Running?
    decreases |after|
  {
    var ops := before + [Wait(mask)] + after;
    if after == [] {
      assert ops[..|ops| - 1] == before;
    } else {
      assert ops[..|ops| - 1] == before + [Wait(mask)] + after[..|after| - 1];
      RunningBeforeWait(normals, before, mask, after[..|after| - 1]);
    }
  }

  /**
    Every round of every legal run: after `wait(mask)` and any signals, the
    task is running exactly when all required conditions of the mask were
    signalled since it last started running and, if the mask has normal ones,
    one of those.
   */
  lemma RoundOfCounters(n: nat, normals: nat, before: seq<Op>, mask: Mask, after: seq<Op>)
    requires Proper(before + [Wait(mask)] + after, n) && NoWait(after)
    requires Run(Progress(Ones(n), true), normals, before + [Wait(mask)] + after).Some?
    ensures Run(Progress(Ones(n), true), normals, before + [Wait(mask)] + after).value.running
            <==> Satisfied(normals, mask, AllSignalled(SinceStart(normals, before)) + AllSignalled(after))
  {
    RunRefines(n, normals, before + [Wait(mask)] + after);
    RunningBeforeWait(normals, before, mask, after);
    PhaseCarriesRound(normals, before);
    RoundOutcome(normals, before, AllSignalled(SinceStart(normals, before)), mask, after);
  }

  lemma {:induction false} SignalsKeepRunning(normals: nat, ops: seq<Op>)
    requires NoWait(ops)
    ensures PhaseRun(Running({}), normals, ops) == Some(Running(AllSignalled(ops)))
    decreases |ops|
  {
    if ops != [] {
      var front := ops[..|ops| - 1];
      assert forall o | o in front :: o in ops;
      assert ops[|ops| - 1] in ops;
      SignalsKeepRunning(normals, front);
    }
  }

  lemma {:induction false} SignalledBySome(ops: seq<Op>, i: nat)
    ensures i in AllSignalled(ops) <==> exists op :: op in ops && op.Signal? && i in op.mask
    decreases |ops|
  {
    if ops != [] {
      var front, last := ops[..|ops| - 1], ops[|ops| - 1];
      SignalledBySome(front, i);
      assert forall o :: o in ops <==> o in front || o == last;
    }
  }

  lemma {:induction false} SignalledTogether(a: seq<Op>, b: seq<Op>)
    ensures AllSignalled(a + b) == AllSignalled(a) + AllSignalled(b)
    decreases |b|
  {
    if b == [] {
      assert a + b == a;
    } else {
      assert (a + b)[..|a + b| - 1] == a + b[..|b| - 1];
      SignalledTogether(a, b[..|b| - 1]);
    }
  }

  ghost predicate AtMostOneWait(ops: seq<Op>) {
    forall i, j | 0 <= i < |ops| && 0 <= j < |ops| && ops[i].Wait? && ops[j].Wait? :: i == j
  }

  /** How a legal list with at most one wait ends depends only on what is in it. */
  lemma EndsRunning(normals: nat, ops: seq<Op>)
    requires AtMostOneWait(ops) && PhaseRun(Running({}), normals, ops).Some?
    ensures PhaseRun(Running({}), normals, ops).value.Running?
            <==> forall mask | Wait(mask) in ops :: Satisfied(normals, mask, AllSignalled(ops))
  {
    if i :| 0 <= i < |ops| && ops[i].Wait? {
      var before, mask, after := ops[..i], ops[i].mask, ops[i + 1..];
      assert ops == before + [Wait(mask)] + after;
      assert NoWait(before) && NoWait(after);
      SignalsKeepRunning(normals, before);
      RoundOutcome(normals, before, AllSignalled(before), mask, after);
      SignalledTogether(before + [Wait(mask)], after);
      SignalledTogether(before, [Wait(mask)]);
      assert Wait(mask) in ops;
      assert forall m | Wait(m) in ops :: m == mask;
    } else {
      SignalsKeepRunning(normals, ops);
    }
  }

  /** Two legal orders of the same operations, at most one of them a wait, end alike. */
  lemma OrderDoesNotMatter(n: nat, normals: nat, a: seq<Op>, b: seq<Op>)
    requires multiset(a) == multiset(b) && Proper(a, n) && AtMostOneWait(a) && AtMostOneWait(b)
    requires Run(Progress(Ones(n), true), normals, a).Some?
    requires Run(Progress(Ones(n), true), normals, b).Some?
    ensures Run(Progress(Ones(n), true), normals, a).value.running
         == Run(Progress(Ones(n), true), normals, b).value.running
  {
    SameElements(a, b);
    RunRefines(n, normals, a);
    RunRefines(n, normals, b);
    EndsRunning(normals, a);
    EndsRunning(normals, b);
    forall i: nat ensures i in AllSignalled(a) <==> i in AllSignalled(b) {
      SignalledBySome(a, i);
      SignalledBySome(b, i);
    }
    assert AllSignalled(a) == AllSignalled(b);
  }

  lemma SameElements(a: seq<Op>, b: seq<Op>)
    requires multiset(a) == multiset(b)
    ensures forall op :: op in a <==> op in b
  {
    forall op ensures op in a <==> op in b {
      assert op in a <==> op in multiset(a);
      assert op in b <==> op in multiset(b);
    }
  }

  lemma PhaseRunSnoc(normals: nat, ops: seq<Op>, op: Op)
    ensures PhaseRun(Running({}), normals, ops + [op])
         == match PhaseRun(Running({}), normals, ops)
            case None => None
            case Some(ph) => PhaseStep(ph, normals, op)
  {
    assert (ops + [op])[..|ops|] == ops;
  }

  lemma ThreeSteps(w: Op, s: Op)
    requires w == Wait({0}) && s == Signal({0})
    ensures PhaseRun(Running({}), 1, [s]) == Some(Running({0}))
    ensures PhaseRun(Running({}), 1, [s] + [s]) == Some(Running({0}))
    ensures PhaseRun(Running({}), 1, [s] + [w]) == Some(Running({}))
  {
    assert {0} + {0} == {0} && {} + {0} == {0};
    assert Satisfied(1, {0}, {0});
    PhaseRunSnoc(1, [], s);
    assert [] + [s] == [s];
    PhaseRunSnoc(1, [s], s);
    PhaseRunSnoc(1, [s], w);
  }

  lemma FourSteps(w: Op, s: Op)
    requires w == Wait({0}) && s == Signal({0})
    ensures PhaseRun(Running({}), 1, [s] + [s] + [w] + [w]) == Some(Waiting({0}, {}))
    ensures PhaseRun(Running({}), 1, [s] + [w] + [s] + [w]) == Some(Running({}))
  {
    ThreeSteps(w, s);
    assert Satisfied(1, {0}, {0}) && {} + {0} == {0};
    assert !Satisfied(1, {0}, {}) by {
      assert 0 in {0};
    }
    PhaseRunSnoc(1, [s] + [s], w);
    PhaseRunSnoc(1, [s] + [s] + [w], w);
    PhaseRunSnoc(1, [s] + [w], s);
    PhaseRunSnoc(1, [s] + [w] + [s], w);
  }

  /** With two waits the order does matter: two signals in a row count only once. */
  lemma OrderMattersForTwoWaits()
    ensures var w, s, start := Wait({0}), Signal({0}), Progress(Ones(1), true);
            && multiset([s] + [s] + [w] + [w]) == multiset([s] + [w] + [s] + [w])
            && Run(start, 1, [s] + [s] + [w] + [w]).Some? && Run(start, 1, [s] + [w] + [s] + [w]).Some?
            && !Run(start, 1, [s] + [s] + [w] + [w]).value.running
            && Run(start, 1, [s] + [w] + [s] + [w]).value.running
  {
    var w, s := Wait({0}), Signal({0});
    FourSteps(w, s);
    RunRefines(1, 1, [s] + [s] + [w] + [w]);
    RunRefines(1, 1, [s] + [w] + [s] + [w]);
  }

  ghost function WaitCount(ops: seq<Op>): nat {
    if ops == [] then 0 else WaitCount(ops[..|ops| - 1]) + if ops[|ops| - 1].Wait? then 1 else 0
  }

  /** Two legal orders of the same operations, with at most `k` waits. */
  ghost predicate Reordering(n: nat, normals: nat, a: seq<Op>, b: seq<Op>, k: nat) {
    && multiset(a) == multiset(b) && Proper(a, n)
    && WaitCount(a) <= k && WaitCount(b) <= k
    && Run(Progress(Ones(n), true), normals, a).Some?
    && Run(Progress(Ones(n), true), normals, b).Some?
  }

  ghost predicate EndAlike(n: nat, normals: nat, a: seq<Op>, b: seq<Op>)
    requires Run(Progress(Ones(n), true), normals, a).Some?
    requires Run(Progress(Ones(n), true), normals, b).Some?
  {
    Run(Progress(Ones(n), true), normals, a).value.running == Run(Progress(Ones(n), true), normals, b).value.running
  }

  lemma {:induction false} NoWaitsCounted(ops: seq<Op>, i: nat)
    requires i < |ops| && ops[i].Wait?
    ensures WaitCount(ops) > 0
  {
    if i < |ops| - 1 {
      NoWaitsCounted(ops[..|ops| - 1], i);
    }
  }

  lemma {:induction false} OneWaitCounted(ops: seq<Op>)
    requires WaitCount(ops) <= 1
    ensures AtMostOneWait(ops)
  {
    if ops != [] {
      var front := ops[..|ops| - 1];
      OneWaitCounted(front);
      forall i, j | 0 <= i < |ops| && 0 <= j < |ops| && ops[i].Wait? && ops[j].Wait? ensures i == j {
        if i < |front| && j == |front| {
          NoWaitsCounted(front, i);
        } else if j < |front| && i == |front| {
          NoWaitsCounted(front, j);
        } else if i < |front| {
          assert front[i].Wait? && front[j].Wait?;
        }
      }
    }
  }

  lemma WaitCountSnoc(ops: seq<Op>, op: Op)
    ensures WaitCount(ops + [op]) == WaitCount(ops) + if op.Wait? then 1 else 0
  {
    assert (ops + [op])[..|ops|] == ops;
  }

  lemma CountTwoWaits(w: Op, s: Op)
    requires w.Wait? && s.Signal?
    ensures WaitCount([s] + [s] + [w] + [w]) == 2 == WaitCount([s] + [w] + [s] + [w])
  {
    assert [] + [s] == [s];
    WaitCountSnoc([], s);
    WaitCountSnoc([s], s);
    WaitCountSnoc([s] + [s], w);
    WaitCountSnoc([s] + [s] + [w], w);
    WaitCountSnoc([s], w);
    WaitCountSnoc([s] + [w], s);
    WaitCountSnoc([s] + [w] + [s], w);
  }

  lemma TwoOrders(k: nat, a: seq<Op>, b: seq<Op>)
    requires var w, s := Wait({0}), Signal({0});
             a == [s] + [s] + [w] + [w] && b == [s] + [w] + [s] + [w] && 2 <= k
    ensures Reordering(1, 1, a, b, k) && !EndAlike(1, 1, a, b)
  {
    OrderMattersForTwoWaits();
    CountTwoWaits(Wait({0}), Signal({0}));
  }

  /** The order never matters if and only if there is at most one wait. */
  lemma OrderMattersFromTwoWaits(k: nat)
    ensures (forall n, normals, a, b | Reordering(n, normals, a, b, k) :: EndAlike(n, normals, a, b)) <==> k <= 1
  {
    if k <= 1 {
      forall n, normals, a, b | Reordering(n, normals, a, b, k) ensures EndAlike(n, normals, a, b) {
        OneWaitCounted(a);
        OneWaitCounted(b);
        OrderDoesNotMatter(n, normals, a, b);
      }
    } else {
      var w, s := Wait({0}), Signal({0});
      TwoOrders(k, [s] + [s] + [w] + [w], [s] + [w] + [s] + [w]);
    }
  }

  // ----- States as numbers -----

  function PowerOf3(n: nat): nat {
    if n == 0 then 1 else 3 * PowerOf3(n - 1)
  }

  /** The counters as the digits of a number in base 3, the first one least significant. */
  function StateCode(s: seq<int>): int {
    if s == [] then 0 else s[0] + 3 * StateCode(s[1..])
  }

  function Digit(code: nat, i: nat): nat {
    if i == 0 then code % 3 else Digit(code / 3, i - 1)
  }

  lemma FirstDigit(d: int, rest: nat)
    requires 0 <= d <= 2
    ensures (d + 3 * rest) % 3 == d && (d + 3 * rest) / 3 == rest
  {
  }

  /** Decoding an encoded state gives every counter back. */
  lemma {:induction false} DigitOfState(s: seq<int>, i: nat)
    requires InRange(s) && i < |s|
    ensures 0 <= StateCode(s) && Digit(StateCode(s), i) == s[i]
    decreases |s|
  {
    StateCodeBound(s);
    StateCodeBound(s[1..]);
    FirstDigit(s[0], StateCode(s[1..]));
    if i > 0 {
      DigitOfState(s[1..], i - 1);
    }
  }

  lemma {:induction false} StateCodeBound(s: seq<int>)
    requires InRange(s)
    ensures 0 <= StateCode(s) < PowerOf3(|s|)
  {
    if s != [] {
      StateCodeBound(s[1..]);
    }
  }

  /** The digit is what the source computes with the power `p` of 3. */
  lemma {:induction false} DigitIsQuotient(code: nat, i: nat)
    ensures PowerOf3(i) > 0 && Digit(code, i) == (code / PowerOf3(i)) % 3
    decreases i
  {
    if i > 0 {
      DigitIsQuotient(code / 3, i - 1);
      QuotientOfQuotient(code, PowerOf3(i - 1));
    }
  }

  lemma QuotientOfQuotient(code: nat, p: nat)
    requires p > 0
    ensures code / 3 / p == code / (3 * p)
  {
    var third := code / 3;
    var q := third / p;
    assert third == q * p + third % p;
    var rest := 3 * (third % p) + code % 3;
    assert code == q * (3 * p) + rest && 0 <= rest < 3 * p;
    UniqueQuotient(code, 3 * p, q, rest);
  }

  lemma UniqueQuotient(a: nat, b: nat, q: nat, r: nat)
    requires r < b && a == q * b + r
    ensures a / b == q
  {
    var k := a / b - q;
    assert k * b == r - a % b;
    SmallMultiple(k, b);
  }

  lemma SmallMultiple(k: int, b: int)
    requires -b < k * b < b
    ensures k == 0
  {
  }

  /** No two states have the same number. */
  lemma {:induction false} StateCodeInjective(s: seq<int>, t: seq<int>)
    requires InRange(s) && InRange(t) && |s| == |t| && StateCode(s) == StateCode(t)
    ensures s == t
  {
    forall i | 0 <= i < |s| ensures s[i] == t[i] {
      DigitOfState(s, i);
      DigitOfState(t, i);
    }
  }
}
