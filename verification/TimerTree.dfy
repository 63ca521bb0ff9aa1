/**
  The state that `RunningTimersImpl<., 2>::sanity_check` of
  `src/timer_test.cxx` inspects: one queue of timers per interval, a cache
  with the next expiration point of every queue, and a tournament tree over
  that cache whose root is at index 1.
 */
module TimerTree {
  import opened TournamentTree

  /** The expiration point of an empty queue: the largest representable one. */
  const NONE: int := 0x7fff_ffff_ffff_ffff

  /** A queue entry is the expiration point of a timer, or a canceled timer. */
  datatype Entry = Canceled | Running(point: int)

  type Queue = seq<Entry>

  datatype RunningTimers = RunningTimers(queues: seq<Queue>, cache: seq<int>, tree: seq<nat>) {

    function TreeSize(): nat {
      |cache|
    }

    /** Sizes and index ranges of the arrays; the tree uses indices 1 up to its size. */
    ghost predicate WellFormed() {
      && 2 <= TreeSize() && TreeSize() % 2 == 0
      && |tree| == TreeSize() && |queues| <= TreeSize()
      && (forall ti | 1 <= ti < |tree| :: tree[ti] < TreeSize())
    }

    /** Each cache entry is the next expiration point of its queue, whose front is not canceled. */
    ghost predicate CacheChecked() {
      forall interval | 0 <= interval < TreeSize() ::
        if interval < |queues| then
          && (queues[interval] == [] || queues[interval][0].Running?)
          && cache[interval] == NextExpirationPoint(queues[interval])
        else
          cache[interval] == NONE
    }

    /** The node above the intervals `interval` and `interval + 1` names the earlier one. */
    ghost predicate PairChecked(interval: nat)
      requires WellFormed() && interval % 2 == 0 && interval < TreeSize()
    {
      var winner := tree[(TreeSize() + interval) / 2];
      && winner - winner % 2 == interval
      && cache[winner + 1 - 2 * (winner % 2)] >= cache[winner]
    }

    /** The parent of `ti` and its sibling names one of their winners, and the other is not earlier. */
    ghost predicate NodeChecked(ti: nat)
      requires WellFormed() && 1 < ti < TreeSize()
    {
      var pin, inn, sin := tree[ti / 2], tree[ti], tree[if ti % 2 == 0 then ti + 1 else ti - 1];
      && (pin == inn || pin == sin)
      && cache[pin] <= cache[inn + sin - pin]
    }

    ghost predicate TreeChecked()
      requires WellFormed()
    {
      && (forall interval: nat {:trigger PairChecked(interval)} |
            interval % 2 == 0 && interval < TreeSize() :: PairChecked(interval))
      && (forall ti: nat {:trigger NodeChecked(ti)} | 1 < ti < TreeSize() :: NodeChecked(ti))
    }

    ghost predicate SanityCheck() {
      WellFormed() && CacheChecked() && TreeChecked()
    }

    /** Timers of one interval expire in the order in which they were queued. */
    ghost predicate QueuesOrdered() {
      forall q | q in queues :: Ordered(q)
    }
  }

  function NextExpirationPoint(q: Queue): int {
    if q == [] || q[0].Canceled? then NONE else q[0].point
  }

  ghost predicate Ordered(q: Queue) {
    && (forall i | 0 <= i < |q| && q[i].Running? :: q[i].point < NONE)
    && (forall i, j | 0 <= i < j < |q| && q[i].Running? && q[j].Running? :: q[i].point <= q[j].point)
  }

  predicate InnerPosition(n: nat, i: nat) {
    i + 1 < n
  }

  predicate LeafPosition(n: nat, i: nat) {
    n <= i + 1 < 2 * n
  }

  /** The tree over `n` intervals, with the root at position 0. */
  function FullShape(n: nat): Shape {
    Shape(if n == 0 then 0 else n - 1,
          set i: nat | i < n && InnerPosition(n, i),
          map i: nat | i < 2 * n && LeafPosition(n, i) :: i + 1 - n)
  }

  ghost predicate IsFull(sh: Shape, n: nat) {
    && 2 <= n && n % 2 == 0 && sh.size == n - 1
    && (forall i: nat :: i in sh.inner <==> i < n - 1)
    && (forall i: nat :: i in sh.leaf <==> n - 1 <= i < 2 * n - 1)
    && (forall i | i in sh.leaf :: sh.leaf[i] == i + 1 - n)
  }

  lemma FullShapeIsFull(n: nat)
    requires 2 <= n && n % 2 == 0
    ensures IsFull(FullShape(n), n)
  {
    var sh := FullShape(n);
    forall i: nat ensures i in sh.inner <==> i < n - 1 {
      assert InnerPosition(n, i) <==> i < n - 1;
    }
    forall i: nat ensures i in sh.leaf <==> n - 1 <= i < 2 * n - 1 {
      assert LeafPosition(n, i) <==> n - 1 <= i < 2 * n - 1;
    }
  }

  lemma FullFits(sh: Shape, rt: RunningTimers)
    requires rt.WellFormed() && IsFull(sh, rt.TreeSize())
    ensures sh.Fits(rt.tree[1..], rt.cache)
  {
  }

  /** `w` names the one of `a` and `b` that expires first. */
  predicate Names(cache: seq<int>, w: nat, a: nat, b: nat)
    requires a < |cache| && b < |cache|
  {
    (w == a && cache[a] <= cache[b]) || (w == b && cache[b] <= cache[a])
  }

  lemma BottomNode(sh: Shape, rt: RunningTimers, i: nat, interval: nat)
    requires rt.WellFormed() && IsFull(sh, rt.TreeSize()) && sh.Fits(rt.tree[1..], rt.cache)
    requires interval < rt.TreeSize() && rt.TreeSize() + interval == 2 * (i + 1)
    ensures interval + 1 < rt.TreeSize() && i in sh.inner
    ensures sh.NodeSane(rt.tree[1..], rt.cache, i) <==> Names(rt.cache, rt.tree[i + 1], interval, interval + 1)
  {
    assert sh.Linked(i);
    assert sh.Winner(rt.tree[1..], 2 * i + 1) == interval && sh.Winner(rt.tree[1..], 2 * i + 2) == interval + 1;
  }

  lemma UpperNode(sh: Shape, rt: RunningTimers, i: nat)
    requires rt.WellFormed() && IsFull(sh, rt.TreeSize()) && sh.Fits(rt.tree[1..], rt.cache)
    requires 2 * i + 3 < rt.TreeSize()
    ensures i in sh.inner
    ensures sh.NodeSane(rt.tree[1..], rt.cache, i)
            <==> Names(rt.cache, rt.tree[i + 1], rt.tree[2 * i + 2], rt.tree[2 * i + 3])
  {
    var t := rt.tree[1..];
    assert sh.Linked(i);
    assert sh.Winner(t, 2 * i + 1) == rt.tree[2 * i + 2] && sh.Winner(t, 2 * i + 2) == rt.tree[2 * i + 3];
  }

  lemma PairCheckedMeans(rt: RunningTimers, i: nat, interval: nat)
    requires rt.WellFormed()
    requires interval + 1 < rt.TreeSize() && rt.TreeSize() + interval == 2 * (i + 1)
    ensures interval % 2 == 0
    ensures rt.PairChecked(interval) <==> Names(rt.cache, rt.tree[i + 1], interval, interval + 1)
  {
  }

  lemma NodeCheckedMeans(rt: RunningTimers, i: nat, ti: nat)
    requires rt.WellFormed() && ti < rt.TreeSize() && (ti == 2 * i + 2 || ti == 2 * i + 3)
    ensures rt.NodeChecked(ti) <==> Names(rt.cache, rt.tree[i + 1], rt.tree[2 * i + 2], rt.tree[2 * i + 3])
  {
    assert ti / 2 == i + 1;
  }

  /** The local checks hold exactly when the whole tree is sane. */
  lemma ChecksMeanSane(sh: Shape, rt: RunningTimers)
    requires rt.WellFormed() && IsFull(sh, rt.TreeSize())
    ensures rt.TreeChecked() <==> sh.Sane(rt.tree[1..], rt.cache)
  {
    if rt.TreeChecked() {
      CheckedIsSane(sh, rt);
    }
    if sh.Sane(rt.tree[1..], rt.cache) {
      SaneIsChecked(sh, rt);
    }
  }

  lemma CheckedIsSane(sh: Shape, rt: RunningTimers)
    requires rt.WellFormed() && IsFull(sh, rt.TreeSize()) && rt.TreeChecked()
    ensures sh.Sane(rt.tree[1..], rt.cache)
  {
    var n, t, cache := rt.TreeSize(), rt.tree[1..], rt.cache;
    FullFits(sh, rt);
    forall i | i in sh.inner ensures sh.NodeSane(t, cache, i) {
      if n - 1 <= 2 * i + 1 {
        BottomNode(sh, rt, i, 2 * (i + 1) - n);
        PairCheckedMeans(rt, i, 2 * (i + 1) - n);
      } else {
        UpperNode(sh, rt, i);
        NodeCheckedMeans(rt, i, 2 * i + 2);
      }
    }
  }

  lemma SaneIsChecked(sh: Shape, rt: RunningTimers)
    requires rt.WellFormed() && IsFull(sh, rt.TreeSize()) && sh.Sane(rt.tree[1..], rt.cache)
    ensures rt.TreeChecked()
  {
    forall interval: nat | interval % 2 == 0 && interval < rt.TreeSize() ensures rt.PairChecked(interval) {
      SanePairIsChecked(sh, rt, interval);
    }
    forall ti: nat | 1 < ti < rt.TreeSize() ensures rt.NodeChecked(ti) {
      SaneNodeIsChecked(sh, rt, ti);
    }
  }

  lemma SanePairIsChecked(sh: Shape, rt: RunningTimers, interval: nat)
    requires rt.WellFormed() && IsFull(sh, rt.TreeSize()) && sh.Sane(rt.tree[1..], rt.cache)
    requires interval % 2 == 0 && interval < rt.TreeSize()
    ensures rt.PairChecked(interval)
  {
    var i := (rt.TreeSize() + interval) / 2 - 1;
    BottomNode(sh, rt, i, interval);
    PairCheckedMeans(rt, i, interval);
  }

  lemma SaneNodeIsChecked(sh: Shape, rt: RunningTimers, ti: nat)
    requires rt.WellFormed() && IsFull(sh, rt.TreeSize()) && sh.Sane(rt.tree[1..], rt.cache)
    requires 1 < ti < rt.TreeSize()
    ensures rt.NodeChecked(ti)
  {
    var i := ti / 2 - 1;
    UpperNode(sh, rt, i);
    NodeCheckedMeans(rt, i, ti);
  }

  /** If the checks hold, no queue has an earlier expiration point than the root's. */
  lemma RootOfCheckedTree(rt: RunningTimers)
    requires rt.SanityCheck()
    ensures forall k | 0 <= k < rt.TreeSize() :: rt.cache[rt.tree[1]] <= rt.cache[k]
  {
    var n := rt.TreeSize();
    var sh := FullShape(n);
    FullShapeIsFull(n);
    ChecksMeanSane(sh, rt);
    RootIsMinimum(sh, rt.tree[1..], rt.cache);
    forall k | 0 <= k < n ensures rt.cache[rt.tree[1]] <= rt.cache[k] {
      assert k + n - 1 in sh.leaf && sh.leaf[k + n - 1] == k;
    }
  }

  /**
    If the checks hold, the queue named by the root of the tree has a running
    timer in front, and no running timer of any queue expires earlier.
   */
  lemma RootQueueExpiresFirst(rt: RunningTimers, k: nat, j: nat)
    requires rt.SanityCheck() && rt.QueuesOrdered()
    requires k < |rt.queues| && j < |rt.queues[k]| && rt.queues[k][j].Running?
    ensures rt.tree[1] < |rt.queues| && rt.queues[rt.tree[1]] != []
    ensures var front := rt.queues[rt.tree[1]][0];
            front.Running? && front.point <= rt.queues[k][j].point
  {
    var q := rt.queues[k];
    RootOfCheckedTree(rt);
    assert Ordered(q);
    assert rt.cache[k] == q[0].point <= q[j].point < NONE;
    assert rt.cache[rt.tree[1]] <= rt.cache[k];
  }

  /** The root stands for no expiration point exactly when no timer is queued. */
  lemma RootOfEmptyQueues(rt: RunningTimers)
    requires rt.SanityCheck() && rt.QueuesOrdered()
    ensures rt.cache[rt.tree[1]] == NONE <==> forall k | 0 <= k < |rt.queues| :: rt.queues[k] == []
  {
    forall k | 0 <= k < |rt.queues| && rt.queues[k] != [] ensures rt.cache[rt.tree[1]] != NONE {
      RootQueueExpiresFirst(rt, k, 0);
      assert Ordered(rt.queues[rt.tree[1]]);
    }
    if rt.cache[rt.tree[1]] != NONE {
      assert rt.queues[rt.tree[1]] != [];
    }
  }
}
