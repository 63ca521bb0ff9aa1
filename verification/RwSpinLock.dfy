/**
  The state machine of the read/write spin lock of `src/rwspinlock_test.cxx`:
  four counters, the transitions that change them, and the follow-up that a
  thread applies depending on what its transition found.

  The source explores small counters; here they are unbounded.  As in the
  source a transition starts in a stable state and is taken together with its
  follow-up.
 */
module RwSpinLock {

  datatype Transition =
    | RdLock | RdUnlock | WrLock | WrUnlock | Wr2RdLock | Rd2WrLock
    | FailedRdLock | FailedWrLock | FailedRd2WrLock | SuccessfulRd2WrLock
    | MustThrow | NoTransition

  predicate IsInitial(t: Transition) {
    t in {RdLock, RdUnlock, WrLock, WrUnlock, Wr2RdLock, Rd2WrLock}
  }

  predicate IsBlocking(t: Transition) {
    t in {FailedRdLock, FailedWrLock, FailedRd2WrLock}
  }

  /**
    `c` waits for read-to-write, `w` has a write lock, `v` has or waits for a
    write lock, `r` has a read lock.
   */
  datatype State = State(c: int, w: int, v: int, r: int) {

    predicate IsIllegal() {
      c > r || c > v || w > v
    }

    predicate IsStable() {
      !(|| IsIllegal()
        || w > 1
        || c > 1
        || (w == 1 && r > 0)
        || (v > 0 && w == 0 && r == c))
    }

    /** Threads wait for a write lock while nobody has a lock that it is not converting. */
    predicate IsHandOff() {
      v > 0 && w == 0 && r == c && 0 <= c <= 1 && c <= v
    }

    predicate IsNatural() {
      c >= 0 && w >= 0 && v >= 0 && r >= 0
    }

    function FollowUp(previous: State): Transition {
      if c >= 2 && c > previous.c then MustThrow
      else if r > previous.r && previous.v > 0 then
        if w < previous.w then NoTransition else FailedRdLock
      else if v > previous.v && (previous.r > c || previous.w > 0) then
        if c > previous.c then FailedRd2WrLock else FailedWrLock
      else if c > previous.c then SuccessfulRd2WrLock
      else NoTransition
    }
  }

  /** A transition may be refused, leave the lock in a state, or hit the fatal check. */
  datatype Applied = Refused | Fatal | Ok(state: State)

  function Changed(t: Transition, s: State): State {
    match t
    case RdLock => s.(r := s.r + 1)
    case RdUnlock => s.(r := s.r - 1)
    case WrLock => s.(w := s.w + 1, v := s.v + 1)
    case WrUnlock => s.(w := s.w - 1, v := s.v - 1)
    case Wr2RdLock => s.(w := s.w - 1, v := s.v - 1, r := s.r + 1)
    case Rd2WrLock => s.(c := s.c + 1, v := s.v + 1)
    case FailedRdLock => s.(r := s.r - 1)
    case FailedWrLock => s.(w := s.w - 1)
    case FailedRd2WrLock => s
    case SuccessfulRd2WrLock => s.(w := s.w + 1, c := s.c - 1, r := s.r - 1)
    case MustThrow => s
    case NoTransition => s
  }

  function ApplyTo(t: Transition, s: State): Applied {
    if (t == RdUnlock && s.r == 0) || (t == WrUnlock && s.w == 0) || (t == Wr2RdLock && s.w == 0)
       || (t == Rd2WrLock && s.r == 0) || t == MustThrow
    then Refused
    else if Changed(t, s).IsIllegal() then Fatal
    else Ok(Changed(t, s))
  }

  /** What a transition and its follow-up come to; `Crashed` means that a check failed on the way. */
  datatype Outcome = Skipped | Crashed | Throws | Completed(state: State, blocking: bool)

  function Step(t: Transition, s: State): Outcome {
    match ApplyTo(t, s)
    case Refused => Skipped
    case Fatal => Crashed
    case Ok(s1) =>
      var f := s1.FollowUp(s);
      if f == NoTransition then Completed(s1, false)
      else if f == MustThrow then Throws
      else match ApplyTo(f, s1)
        case Ok(s2) => Completed(s2, IsBlocking(f))
        case _ => Crashed
  }

  // ----- The lock as it is changed in place -----

  class Lock {
    var c: int
    var w: int
    var v: int
    var r: int

    function Current(): State
      reads this
    {
      State(c, w, v, r)
    }

    /** `ok` is the returned value; `fatal` that the legality check at the end failed. */
    method Apply(t: Transition) returns (ok: bool, fatal: bool)
      requires !Current().IsIllegal()
      modifies this
      ensures match ApplyTo(t, old(Current()))
              case Refused => !ok && Current() == old(Current())
              case Fatal => fatal
              case Ok(s) => ok && !fatal && Current() == s
    {
      fatal := false;
      match t {
        case RdLock =>
          r := r + 1;
        case RdUnlock =>
          if r == 0 { return false, false; }
          r := r - 1;
        case WrLock =>
          w := w + 1;
          v := v + 1;
        case WrUnlock =>
          if w == 0 { return false, false; }
          w := w - 1;
          v := v - 1;
        case Wr2RdLock =>
          if w == 0 { return false, false; }
          w := w - 1;
          v := v - 1;
          r := r + 1;
        case Rd2WrLock =>
          if r == 0 { return false, false; }
          c := c + 1;
          v := v + 1;
        case FailedRdLock =>
          r := r - 1;
        case FailedWrLock =>
          w := w - 1;
        case FailedRd2WrLock =>
        case SuccessfulRd2WrLock =>
          w := w + 1;
          c := c - 1;
          r := r - 1;
        case MustThrow =>
          return false, false;
        case NoTransition =>
      }
      fatal := Current().IsIllegal();
      ok := true;
    }

    /** One transition of a thread together with its follow-up; no check ever fails. */
    method Transit(t: Transition) returns (done: bool, throws: bool, blocking: bool)
      requires IsInitial(t) && Current().IsNatural() && Current().IsStable()
      modifies this
      ensures match Step(t, old(Current()))
              case Skipped => !done && !throws && Current() == old(Current())
              case Crashed => false
              case Throws => throws
              case Completed(s, b) => done && !throws && Current() == s && blocking == b
    {
      var previous := Current();
      StepIsClosed(t, previous);
      var fatal;
      done, fatal := Apply(t);
      throws, blocking := false, false;
      if done {
        assert !fatal;
        var f := Current().FollowUp(previous);
        if f == MustThrow {
          throws := true;
        } else if f != NoTransition {
          done, fatal := Apply(f);
          assert done && !fatal;
        }
        blocking := IsBlocking(f);
      }
    }
  }

  // ----- Closure -----

  /**
    From every stable state, a transition and its follow-up never pass through
    an illegal state, and unless the thread must throw they end in a stable
    state or a hand-off state.
   */
  lemma StepIsClosed(t: Transition, s: State)
    requires IsInitial(t) && s.IsNatural() && s.IsStable()
    ensures match Step(t, s)
            case Skipped => true
            case Crashed => false
            case Throws => true
            case Completed(s', _) => s'.IsNatural() && (s'.IsStable() || s'.IsHandOff())
  {
  }

  /**
    The stable states: nobody writes, and either nobody waits or somebody
    reads; one thread writes and nobody reads; or one of several readers
    waits to convert.
   */
  lemma StableStates(s: State)
    requires s.IsNatural()
    ensures s.IsStable() <==>
            || (s.c == 0 && s.w == 0 && (s.v == 0 || s.r > 0))
            || (s.c == 0 && s.w == 1 && s.v > 0 && s.r == 0)
            || (s.c == 1 && s.w == 0 && s.v > 0 && s.r > 1)
  {
  }

  /** Exactly when a transition is refused, and when the thread must throw. */
  lemma StepStopped(t: Transition, s: State)
    requires IsInitial(t) && s.IsNatural() && s.IsStable()
    ensures Step(t, s) == Skipped <==>
            ((t == RdUnlock || t == Rd2WrLock) && s.r == 0) || ((t == WrUnlock || t == Wr2RdLock) && s.w == 0)
    ensures Step(t, s) == Throws <==> t == Rd2WrLock && s.c == 1
  {
  }

  /** Exactly when a transition blocks, and when it leaves the lock to be handed over. */
  lemma StepOutcome(t: Transition, s: State)
    requires IsInitial(t) && s.IsNatural() && s.IsStable() && Step(t, s).Completed?
    ensures Step(t, s).blocking <==>
            || (t == RdLock && s.v > 0)
            || (t == WrLock && (s.w == 1 || s.r > 0))
            || (t == Rd2WrLock && s.r > 1)
    ensures Step(t, s).state.IsHandOff() <==>
            || (t == RdUnlock && s.v > 0 && s.r == s.c + 1)
            || (t == WrUnlock && s.v > 1)
  {
    StepResult(t, s);
  }

  /** The counters that a completed transition leaves behind; an attempt that blocks changes no holder. */
  lemma StepResult(t: Transition, s: State)
    requires IsInitial(t) && s.IsNatural() && s.IsStable() && Step(t, s).Completed?
    ensures var s', blocking := Step(t, s).state, Step(t, s).blocking;
            match t
            case RdLock => s' == if blocking then s else s.(r := s.r + 1)
            case RdUnlock => s' == s.(r := s.r - 1)
            case WrLock => s' == if blocking then s.(v := s.v + 1) else s.(v := s.v + 1, w := s.w + 1)
            case WrUnlock => s' == s.(v := s.v - 1, w := s.w - 1)
            case Wr2RdLock => s' == s.(v := s.v - 1, w := s.w - 1, r := s.r + 1)
            case _ => s' == if blocking then s.(c := s.c + 1, v := s.v + 1)
                            else s.(v := s.v + 1, w := s.w + 1, r := s.r - 1)
  {
  }

  /**
    From a hand-off state, the converting thread can complete its conversion;
    a waiting writer can be granted the lock exactly when nobody converts.
   */
  lemma HandOffRestoresStability(s: State)
    requires s.IsNatural() && s.IsHandOff()
    ensures s.c == 1 ==>
            && ApplyTo(SuccessfulRd2WrLock, s).Ok? && ApplyTo(SuccessfulRd2WrLock, s).state.IsStable()
            && ApplyTo(SuccessfulRd2WrLock, s).state == State(0, 1, s.v, 0)
    ensures s.(w := 1).IsStable() <==> s.c == 0
  {
  }

  // ----- Threads -----

  type Thread = nat

  /** What a thread that the counters know about is doing. */
  datatype Role = Reading | Writing | WaitingToWrite | Converting

  datatype System = System(lock: State, roles: map<Thread, Role>)

  ghost function With(roles: map<Thread, Role>, role: Role): set<Thread> {
    set t | t in roles && roles[t] == role
  }

  ghost function Count(roles: map<Thread, Role>, role: Role): nat {
    |With(roles, role)|
  }

  /** The counters are the numbers of threads in each role. */
  ghost predicate Counted(y: System) {
    && y.lock.c == Count(y.roles, Converting)
    && y.lock.w == Count(y.roles, Writing)
    && y.lock.v == Count(y.roles, Writing) + Count(y.roles, WaitingToWrite) + Count(y.roles, Converting)
    && y.lock.r == Count(y.roles, Reading) + Count(y.roles, Converting)
  }

  ghost predicate Inv(y: System) {
    Counted(y) && (y.lock.IsStable() || y.lock.IsHandOff())
  }

  lemma WithAdded(roles: map<Thread, Role>, t: Thread, role: Role, other: Role)
    requires t !in roles
    ensures With(roles[t := role], other) == if other == role then With(roles, other) + {t} else With(roles, other)
  {
  }

  lemma CountAdd(roles: map<Thread, Role>, t: Thread, role: Role)
    requires t !in roles
    ensures forall other :: Count(roles[t := role], other) == Count(roles, other) + if other == role then 1 else 0
  {
    forall other: Role
      ensures Count(roles[t := role], other) == Count(roles, other) + if other == role then 1 else 0
    {
      WithAdded(roles, t, role, other);
    }
  }

  lemma CountRemove(roles: map<Thread, Role>, t: Thread)
    requires t in roles
    ensures forall other :: Count(roles - {t}, other) == Count(roles, other) - if other == roles[t] then 1 else 0
  {
    var roles' := roles - {t};
    assert roles == roles'[t := roles[t]];
    CountAdd(roles', t, roles[t]);
  }

  lemma CountMove(roles: map<Thread, Role>, t: Thread, role: Role)
    requires t in roles
    ensures forall other :: Count(roles[t := role], other)
                         == Count(roles, other) - (if other == roles[t] then 1 else 0) + if other == role then 1 else 0
  {
    assert roles[t := role] == (roles - {t})[t := role];
    CountRemove(roles, t);
    CountAdd(roles - {t}, t, role);
  }

  /** A thread uses the lock, or is handed the lock that it waits for. */
  datatype Event = Uses(thread: Thread, t: Transition) | Granted(thread: Thread)

  /** The role in which a thread may apply a transition, if it needs one. */
  ghost predicate MayUse(roles: map<Thread, Role>, thread: Thread, t: Transition) {
    match t
    case RdLock => thread !in roles
    case WrLock => thread !in roles
    case RdUnlock => thread in roles && roles[thread] == Reading
    case Rd2WrLock => thread in roles && roles[thread] == Reading
    case WrUnlock => thread in roles && roles[thread] == Writing
    case Wr2RdLock => thread in roles && roles[thread] == Writing
    case _ => false
  }

  function RolesAfter(roles: map<Thread, Role>, thread: Thread, t: Transition, blocking: bool): map<Thread, Role> {
    match t
    case RdLock => if blocking then roles else roles[thread := Reading]
    case WrLock => roles[thread := if blocking then WaitingToWrite else Writing]
    case Wr2RdLock => roles[thread := Reading]
    case Rd2WrLock => roles[thread := if blocking then Converting else Writing]
    case _ => roles - {thread}
  }

  ghost predicate Enabled(y: System, e: Event) {
    match e
    case Uses(thread, t) => y.lock.IsStable() && MayUse(y.roles, thread, t) && Step(t, y.lock).Completed?
    case Granted(thread) =>
      && y.lock.IsHandOff() && thread in y.roles
      && y.roles[thread] == if y.lock.c == 1 then Converting else WaitingToWrite
  }

  ghost function Next(y: System, e: Event): System
    requires Enabled(y, e)
  {
    match e
    case Uses(thread, t) =>
      var o := Step(t, y.lock);
      System(o.state, RolesAfter(y.roles, thread, t, o.blocking))
    case Granted(thread) =>
      System(if y.lock.c == 1 then Changed(SuccessfulRd2WrLock, y.lock) else y.lock.(w := y.lock.w + 1),
             y.roles[thread := Writing])
  }

  lemma NextKeepsInv(y: System, e: Event)
    requires Inv(y) && Enabled(y, e)
    ensures Inv(Next(y, e))
  {
    match e
    case Granted(thread) =>
      CountMove(y.roles, thread, Writing);
      HandOffRestoresStability(y.lock);
    case Uses(thread, t) =>
      StepIsClosed(t, y.lock);
      RolesAfterCounted(y, thread, t);
  }

  /** The numbers of threads per role, converting first. */
  ghost predicate Counts(roles: map<Thread, Role>, converting: int, writing: int, waiting: int, reading: int) {
    && Count(roles, Converting) == converting && Count(roles, Writing) == writing
    && Count(roles, WaitingToWrite) == waiting && Count(roles, Reading) == reading
  }

  function One(a: Role, b: Role): int {
    if a == b then 1 else 0
  }

  lemma CountsRemoved(roles: map<Thread, Role>, t: Thread, c: int, w: int, v: int, r: int)
    requires t in roles && Counts(roles, c, w, v, r)
    ensures Counts(roles - {t}, c - One(roles[t], Converting), w - One(roles[t], Writing),
                   v - One(roles[t], WaitingToWrite), r - One(roles[t], Reading))
  {
    CountRemove(roles, t);
  }

  lemma CountsAdded(roles: map<Thread, Role>, t: Thread, role: Role, c: int, w: int, v: int, r: int)
    requires t !in roles && Counts(roles, c, w, v, r)
    ensures Counts(roles[t := role], c + One(role, Converting), w + One(role, Writing),
                   v + One(role, WaitingToWrite), r + One(role, Reading))
  {
    CountAdd(roles, t, role);
  }

  lemma CountsMoved(roles: map<Thread, Role>, t: Thread, role: Role, c: int, w: int, v: int, r: int)
    requires t in roles && Counts(roles, c, w, v, r)
    ensures Counts(roles[t := role], c - One(roles[t], Converting) + One(role, Converting),
                   w - One(roles[t], Writing) + One(role, Writing),
                   v - One(roles[t], WaitingToWrite) + One(role, WaitingToWrite),
                   r - One(roles[t], Reading) + One(role, Reading))
  {
    CountMove(roles, t, role);
  }

  lemma RolesAfterCounted(y: System, thread: Thread, t: Transition)
    requires Inv(y) && Enabled(y, Uses(thread, t))
    ensures Counted(Next(y, Uses(thread, t)))
  {
    var blocking := Step(t, y.lock).blocking;
    StepResult(t, y.lock);
    var c, w := Count(y.roles, Converting), Count(y.roles, Writing);
    var v, r := Count(y.roles, WaitingToWrite), Count(y.roles, Reading);
    match t
    case RdLock =>
      if !blocking {
        CountsAdded(y.roles, thread, Reading, c, w, v, r);
      }
    case WrLock =>
      CountsAdded(y.roles, thread, if blocking then WaitingToWrite else Writing, c, w, v, r);
    case Wr2RdLock =>
      CountsMoved(y.roles, thread, Reading, c, w, v, r);
    case Rd2WrLock =>
      CountsMoved(y.roles, thread, if blocking then Converting else Writing, c, w, v, r);
    case _ =>
      CountsRemoved(y.roles, thread, c, w, v, r);
  }

  const UNLOCKED := System(State(0, 0, 0, 0), map[])

  ghost predicate IsRun(run: seq<System>, events: seq<Event>) {
    && |run| == |events| + 1 && run[0] == UNLOCKED
    && forall k {:trigger events[k]} | 0 <= k < |events| ::
         Enabled(run[k], events[k]) && run[k + 1] == Next(run[k], events[k])
  }

  lemma {:induction false} RunKeepsInv(run: seq<System>, events: seq<Event>, k: nat)
    requires IsRun(run, events) && k < |run|
    ensures Inv(run[k])
  {
    if k > 0 {
      RunKeepsInv(run, events, k - 1);
      assert run[k] == Next(run[k - 1], events[k - 1]);
      NextKeepsInv(run[k - 1], events[k - 1]);
    }
  }

  /**
    Mutual exclusion over whole runs: the counters are the role counts, two
    different threads never both write, and no thread reads while one writes.
   */
  lemma MutualExclusion(run: seq<System>, events: seq<Event>, k: nat, a: Thread, b: Thread)
    requires IsRun(run, events) && k < |run|
    requires a in run[k].roles && b in run[k].roles && a != b && run[k].roles[a] == Writing
    ensures Counted(run[k])
    ensures run[k].roles[b] == WaitingToWrite
  {
    RunKeepsInv(run, events, k);
    var roles := run[k].roles;
    MemberCounts(roles, a);
    MemberCounts(roles, b);
    if roles[b] == Writing {
      TwoMembers(With(roles, Writing), a, b);
    }
  }

  lemma MemberCounts(roles: map<Thread, Role>, t: Thread)
    requires t in roles
    ensures t in With(roles, roles[t]) && Count(roles, roles[t]) > 0
  {
  }

  lemma TwoMembers<T>(s: set<T>, a: T, b: T)
    requires a in s && b in s && a != b
    ensures |s| >= 2
  {
    assert {a, b} <= s;
    assert |s - {a, b}| == |s| - |{a, b}|;
  }

  /**
    What a thread can do in a stable state: one without a lock can try for
    either, a reader and a writer can let go of theirs or change it, except
    that only one reader can convert, and one that waits can do nothing.
   */
  lemma UsesOfThread(run: seq<System>, events: seq<Event>, k: nat, a: Thread, t: Transition)
    requires IsRun(run, events) && k < |run| && run[k].lock.IsStable()
    ensures var roles := run[k].roles;
            Enabled(run[k], Uses(a, t)) <==>
            if a !in roles then t == RdLock || t == WrLock
            else if roles[a] == Reading then t == RdUnlock || (t == Rd2WrLock && With(roles, Converting) == {})
            else if roles[a] == Writing then t == WrUnlock || t == Wr2RdLock
            else false
  {
    RunKeepsInv(run, events, k);
    var y := run[k];
    if a in y.roles {
      MemberCounts(y.roles, a);
    }
    if IsInitial(t) {
      StepStopped(t, y.lock);
      StepIsClosed(t, y.lock);
    }
    assert y.lock.c == 0 <==> With(y.roles, Converting) == {};
  }

  /** What a thread holds after it used the lock. */
  lemma RoleAfterUse(run: seq<System>, events: seq<Event>, k: nat, a: Thread, t: Transition, b: Thread)
    requires IsRun(run, events) && k < |run| && Enabled(run[k], Uses(a, t))
    ensures var roles, after, blocking :=
              run[k].roles, Next(run[k], Uses(a, t)).roles, Step(t, run[k].lock).blocking;
            && (b != a ==> (b in after <==> b in roles) && (b in roles ==> after[b] == roles[b]))
            && (a in after <==> !(t == RdUnlock || t == WrUnlock || (t == RdLock && blocking)))
            && (a in after ==>
                  after[a] == if t == RdLock || t == Wr2RdLock then Reading
                              else if !blocking then Writing
                              else if t == WrLock then WaitingToWrite else Converting)
  {
  }

  /**
    No thread waits in vain: whenever some thread waits to write or converts,
    another thread reads or writes, or somebody can be granted the lock and
    that restores a stable state.
   */
  lemma WaitersAreServed(run: seq<System>, events: seq<Event>, k: nat, a: Thread) returns (b: Thread)
    requires IsRun(run, events) && k < |run|
    requires a in run[k].roles && run[k].roles[a] in {WaitingToWrite, Converting}
    ensures if run[k].lock.IsStable() then b in run[k].roles && run[k].roles[b] in {Reading, Writing}
            else Enabled(run[k], Granted(b)) && Next(run[k], Granted(b)).lock.IsStable()
  {
    RunKeepsInv(run, events, k);
    var y := run[k];
    MemberCounts(y.roles, a);
    var role := if !y.lock.IsStable() then if y.lock.c == 1 then Converting else WaitingToWrite
                else if y.lock.w == 1 then Writing else Reading;
    assert Count(y.roles, role) > 0;
    b :| b in With(y.roles, role);
    if !y.lock.IsStable() {
      HandOffRestoresStability(y.lock);
    }
  }
}
