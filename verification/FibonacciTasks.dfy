/**
  The tree of cooperating tasks of `src/fibonacci.cxx`.  Every task with an
  index of at least two starts two child tasks that both signal the same
  condition bit of their parent, and the parent waits on that bit until it
  finds both children finished.

  Tasks run on different threads, so a step is taken by any one task of the
  tree: the two calls of `finished()`, the call of `wait(1)` and the signal
  of a child that just finished are separate steps.
 */
module FibonacciTasks {

  /** The sequence 1, 1, 2, 3, 5, ... */
  function Fib(n: int): nat {
    if n < 2 then 1 else Fib(n - 1) + Fib(n - 2)
  }

  /** The three states of a condition bit. */
  datatype Bit = Idle | Running | SkipWait {
    function Signal(): Bit {
      if this == Idle then Running else SkipWait
    }

    function Wait(): Bit
      requires this != Idle
    {
      if this == SkipWait then Running else Idle
    }

    function Credits(): nat {
      match this
      case Idle => 0
      case Running => 1
      case SkipWait => 2
    }
  }

  /**
    Where a task is: the state `Fibonacci_wait` is split at the two reads and
    at the call of `wait`, and a finished child has signalled its parent or
    not yet.
   */
  datatype At = Start | CheckLargest | CheckSmallest | CallWait | Math | Done | Finished | Signalled

  datatype Children = NoChildren | Two(largest: Task, smallest: Task)

  datatype Task = Task(index: int, at: At, value: int, bit: Bit, children: Children) {
    predicate IsFinished() {
      at == Finished || at == Signalled
    }
  }

  function New(index: int): Task {
    Task(index, Start, 0, Running, NoChildren)
  }

  /** The task itself executes the next part of `multiplex_impl`. */
  ghost predicate OwnStep(t: Task, t': Task) {
    && t.bit != Idle
    && match t.at
       case Start =>
         if t.index < 2 then t' == t.(value := 1, at := Done)
         else t' == t.(at := CheckLargest, children := Two(New(t.index - 1), New(t.index - 2)))
       case CheckLargest =>
         && t.children.Two?
         && t' == t.(at := if t.children.largest.IsFinished() then CheckSmallest else CallWait)
       case CheckSmallest =>
         && t.children.Two?
         && t' == t.(at := if t.children.smallest.IsFinished() then Math else CallWait)
       case CallWait => t' == t.(bit := t.bit.Wait(), at := CheckLargest)
       case Math =>
         && t.children.Two?
         && t' == t.(value := t.children.largest.value + t.children.smallest.value, at := Done)
       case Done => t' == t.(at := Finished)
       case Finished => false
       case Signalled => false
  }

  /** A child that finished signals the bit of its parent. */
  ghost predicate ChildSignals(t: Task, t': Task) {
    && t.children.Two?
    && var Two(l, s) := t.children;
       || (l.at == Finished && t' == t.(bit := t.bit.Signal(), children := Two(l.(at := Signalled), s)))
       || (s.at == Finished && t' == t.(bit := t.bit.Signal(), children := Two(l, s.(at := Signalled))))
  }

  /** Some task in the tree below `t` takes a step. */
  ghost predicate Next(t: Task, t': Task) {
    || OwnStep(t, t')
    || ChildSignals(t, t')
    || (&& t.children.Two? && t'.children.Two?
        && var Two(l, s) := t.children;
        && var Two(l', s') := t'.children;
           && t' == t.(children := t'.children)
           && ((s' == s && Next(l, l')) || (l' == l && Next(s, s'))))
  }

  // ----- What every step keeps -----

  ghost predicate Unsignalled(t: Task)
    requires t.children.Two?
  {
    t.children.largest.at != Signalled || t.children.smallest.at != Signalled
  }

  ghost predicate Inv(t: Task) {
    && (t.children.Two? <==> t.index >= 2 && t.at != Start)
    && (t.children.NoChildren? ==> t.at in {Start, Done, Finished, Signalled} && t.bit != Idle)
    && t.value == (if t.at in {Done, Finished, Signalled} then Fib(t.index) else 0)
    && (t.children.Two? ==>
          var Two(l, s) := t.children;
          && l.index == t.index - 1 && s.index == t.index - 2
          && Inv(l) && Inv(s)
          && (t.at == CheckSmallest ==> l.IsFinished())
          && (t.at == Math ==> l.IsFinished() && s.IsFinished())
          && (t.bit == Idle ==> t.at == CheckLargest && Unsignalled(t))
          && (t.at == CallWait && !Unsignalled(t) ==> t.bit == SkipWait))
  }

  lemma {:induction false} FinishedStays(t: Task, t': Task)
    requires Next(t, t')
    ensures t'.index == t.index
    ensures t.IsFinished() ==> t'.at == t.at && t'.value == t.value
    ensures t'.at == Signalled ==> t.at == Signalled
  {
  }

  lemma {:induction false} NextKeepsInv(t: Task, t': Task)
    requires Inv(t) && Next(t, t')
    ensures Inv(t')
    decreases t
  {
    if OwnStep(t, t') {
    } else if ChildSignals(t, t') {
      var Two(l, s) := t.children;
      SignalKeepsInv(l);
      SignalKeepsInv(s);
    } else {
      var Two(l, s) := t.children;
      var Two(l', s') := t'.children;
      if s' == s && Next(l, l') {
        NextKeepsInv(l, l');
        FinishedStays(l, l');
      } else {
        NextKeepsInv(s, s');
        FinishedStays(s, s');
      }
    }
  }

  lemma SignalKeepsInv(t: Task)
    requires Inv(t)
    ensures t.at == Finished ==> Inv(t.(at := Signalled))
  {
  }

  // ----- No run gets stuck -----

  /** As long as a task has not finished, some task below it can take a step. */
  lemma {:induction false} Progress(t: Task) returns (t': Task)
    requires Inv(t) && !t.IsFinished()
    ensures Next(t, t')
    decreases t
  {
    if t.bit != Idle {
      t' := match t.at
        case Start =>
          if t.index < 2 then t.(value := 1, at := Done)
          else t.(at := CheckLargest, children := Two(New(t.index - 1), New(t.index - 2)))
        case CheckLargest => t.(at := if t.children.largest.IsFinished() then CheckSmallest else CallWait)
        case CheckSmallest => t.(at := if t.children.smallest.IsFinished() then Math else CallWait)
        case CallWait => t.(bit := t.bit.Wait(), at := CheckLargest)
        case Math => t.(value := t.children.largest.value + t.children.smallest.value, at := Done)
        case _ => t.(at := Finished);
      assert OwnStep(t, t');
    } else {
      var Two(l, s) := t.children;
      if l.at == Finished {
        t' := t.(bit := t.bit.Signal(), children := Two(l.(at := Signalled), s));
      } else if l.at != Signalled {
        var l' := Progress(l);
        t' := t.(children := Two(l', s));
      } else if s.at == Finished {
        t' := t.(bit := t.bit.Signal(), children := Two(l, s.(at := Signalled)));
      } else {
        var s' := Progress(s);
        t' := t.(children := Two(l, s'));
      }
    }
  }

  /** A child that has finished can signal its parent whatever the parent does. */
  lemma ChildCanSignal(t: Task, largest: bool) returns (t': Task)
    requires t.children.Two?
    requires (if largest then t.children.largest else t.children.smallest).at == Finished
    ensures Next(t, t') && t'.children.Two? && t'.at == t.at
    ensures (if largest then t'.children.largest else t'.children.smallest).at == Signalled
    ensures (if largest then t'.children.smallest == t.children.smallest else t'.children.largest == t.children.largest)
    ensures t'.bit == if t.bit == Idle then Running else SkipWait
  {
    var Two(l, s) := t.children;
    var children := if largest then Two(l.(at := Signalled), s) else Two(l, s.(at := Signalled));
    t' := t.(bit := t.bit.Signal(), children := children);
    assert ChildSignals(t, t');
  }

  /** Whatever a task below one child can do, it can do at any moment, whatever the rest of the tree does. */
  lemma ChildrenInterleave(t: Task, l': Task, s': Task)
    requires t.children.Two?
    ensures Next(t.children.largest, l') ==> Next(t, t.(children := Two(l', t.children.smallest)))
    ensures Next(t.children.smallest, s') ==> Next(t, t.(children := Two(t.children.largest, s')))
  {
  }

  /** A task that is not waiting can always go on until it has finished. */
  lemma TaskCanContinue(t: Task) returns (t': Task)
    requires Inv(t) && t.bit != Idle && !t.IsFinished()
    ensures OwnStep(t, t') && Next(t, t') && t' != t
  {
    t' := match t.at
      case Start =>
        if t.index < 2 then t.(value := 1, at := Done)
        else t.(at := CheckLargest, children := Two(New(t.index - 1), New(t.index - 2)))
      case CheckLargest => t.(at := if t.children.largest.IsFinished() then CheckSmallest else CallWait)
      case CheckSmallest => t.(at := if t.children.smallest.IsFinished() then Math else CallWait)
      case CallWait => t.(bit := t.bit.Wait(), at := CheckLargest)
      case Math => t.(value := t.children.largest.value + t.children.smallest.value, at := Done)
      case _ => t.(at := Finished);
  }

  // ----- Every run ends -----

  /** A task that has not started yet still owes all the steps of its children. */
  ghost function StartRank(index: int): nat {
    if index < 2 then 7 else 19 + StartRank(index - 1) + StartRank(index - 2)
  }

  ghost function Rank(t: Task): nat {
    match t.at
    case Start => StartRank(t.index)
    case CheckLargest => 10
    case CheckSmallest => 9
    case CallWait => 8
    case Math => 7
    case Done => 6
    case Finished => 5
    case Signalled => 0
  }

  /** A pending signal is worth one more round of checking, which pays for itself. */
  ghost function Work(t: Task): nat {
    4 * t.bit.Credits() + Rank(t)
    + if t.children.Two? then Work(t.children.largest) + Work(t.children.smallest) else 0
  }

  lemma {:induction false} OwnStepDoesWork(t: Task, t': Task)
    requires Inv(t) && OwnStep(t, t')
    ensures Work(t') < Work(t)
  {
  }

  lemma {:induction false} SignalDoesWork(t: Task, t': Task)
    requires Inv(t) && ChildSignals(t, t')
    ensures Work(t') < Work(t)
  {
    var Two(l, s) := t.children;
    assert l.at == Finished ==> Work(l.(at := Signalled)) + 5 == Work(l);
    assert s.at == Finished ==> Work(s.(at := Signalled)) + 5 == Work(s);
  }

  lemma {:induction false} NextDoesWork(t: Task, t': Task)
    requires Inv(t) && Next(t, t')
    ensures Work(t') < Work(t)
    decreases t
  {
    if OwnStep(t, t') {
      OwnStepDoesWork(t, t');
    } else if ChildSignals(t, t') {
      SignalDoesWork(t, t');
    } else {
      var Two(l, s) := t.children;
      var Two(l', s') := t'.children;
      if s' == s && Next(l, l') {
        NextDoesWork(l, l');
      } else {
        NextDoesWork(s, s');
      }
    }
  }

  // ----- Whole runs -----

  /** A run of the task tree for index `n`, whose root has no parent to signal. */
  ghost predicate IsRun(n: int, run: seq<Task>) {
    && run != [] && run[0] == New(n)
    && forall k {:trigger run[k]} | 0 < k < |run| :: Next(run[k - 1], run[k])
  }

  lemma {:induction false} RunKeepsInv(n: int, run: seq<Task>, k: nat)
    requires IsRun(n, run) && k < |run|
    ensures Inv(run[k]) && run[k].index == n && run[k].at != Signalled
    ensures Work(run[k]) + k <= Work(New(n))
  {
    if k > 0 {
      RunKeepsInv(n, run, k - 1);
      NextKeepsInv(run[k - 1], run[k]);
      NextDoesWork(run[k - 1], run[k]);
      FinishedStays(run[k - 1], run[k]);
    }
  }

  /**
    For every index and every interleaving: no run is longer than a fixed
    number of steps, a run can always be continued until the root has
    finished, and the value of the root is 0 or the Fibonacci number.
   */
  lemma EveryRunComputesFib(n: int, run: seq<Task>)
    requires IsRun(n, run)
    ensures |run| <= Work(New(n)) + 1
    ensures var root := run[|run| - 1];
            && (root.value != 0 ==> root.value == Fib(n))
            && (root.IsFinished() ==> root.value == Fib(n))
            && (!root.IsFinished() ==> exists t' :: Next(root, t'))
  {
    var root := run[|run| - 1];
    RunKeepsInv(n, run, |run| - 1);
    if !root.IsFinished() {
      var t' := Progress(root);
    }
  }

  lemma LongerRun(n: int, run: seq<Task>, t: Task)
    requires IsRun(n, run) && Next(run[|run| - 1], t)
    ensures IsRun(n, run + [t])
  {
    var longer := run + [t];
    forall k | 0 < k < |longer| ensures Next(longer[k - 1], longer[k]) {
      if k < |run| {
        assert longer[k] == run[k] && longer[k - 1] == run[k - 1];
      } else {
        assert longer[k - 1] == run[|run| - 1];
      }
    }
  }

  /** A run whose root has not finished has a longer one, within the bound. */
  lemma OneMoreStep(n: int, run: seq<Task>) returns (longer: seq<Task>)
    requires IsRun(n, run) && !run[|run| - 1].IsFinished()
    ensures IsRun(n, longer) && run <= longer && |run| < |longer| <= Work(New(n)) + 1
  {
    RunKeepsInv(n, run, |run| - 1);
    var t' := Progress(run[|run| - 1]);
    longer := run + [t'];
    LongerRun(n, run, t');
    RunKeepsInv(n, longer, |longer| - 1);
  }

  /** Hence every run can be extended to one in which the root has finished. */
  lemma {:induction false} EveryRunCanFinish(n: int, run: seq<Task>) returns (whole: seq<Task>)
    requires IsRun(n, run)
    ensures IsRun(n, whole) && run <= whole
    ensures whole[|whole| - 1].at == Finished
    decreases Work(New(n)) + 1 - |run|
  {
    if run[|run| - 1].IsFinished() {
      RunKeepsInv(n, run, |run| - 1);
      whole := run;
    } else {
      var longer := OneMoreStep(n, run);
      whole := EveryRunCanFinish(n, longer);
    }
  }
}
