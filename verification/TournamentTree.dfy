/**
  The tournament tree of `src/tree_prop.cc`: a binary tree over interval
  indices in which every node names the child interval whose cached key is
  smallest, together with the two early-exit loops that repair the tree after
  the key of one interval has changed.

  The source fixes one tree of five nodes over four intervals.  Here the shape
  is arbitrary: any full binary tree addressed by the heap positions that the
  source's `p` and `s` compute with.
 */
module TournamentTree {

  /** The position above `i`. */
  function Parent(i: nat): nat
    requires 0 < i
  {
    (i + 1) / 2 - 1
  }

  /** The other child of `Parent(i)`. */
  function Sibling(i: nat): nat
    requires 0 < i
  {
    if i % 2 == 1 then i + 1 else i - 1
  }

  function Min(a: int, b: int): int {
    if a <= b then a else b
  }

  /**
    `inner` are the positions that hold a comparison, `leaf` maps the position
    of each interval to that interval, and `size` is the length of the array
    in which node contents are stored.  A leaf at a position below `size` is a
    node with fixed content, like t[2] and t[4] in the source; other leaves
    exist only in the cache.
   */
  datatype Shape = Shape(size: nat, inner: set<nat>, leaf: map<nat, nat>) {

    ghost predicate Has(i: nat) {
      i in inner || i in leaf
    }

    /** Position `i` is linked to its children and its parent. */
    ghost predicate Linked(i: nat) {
      && (i in inner ==> i < size && Has(2 * i + 1) && Has(2 * i + 2))
      && (i in inner && 0 < i ==> Sibling(i) < size)
      && (Has(i) && 0 < i ==> Parent(i) in inner)
    }

    ghost predicate Valid() {
      && inner !! leaf.Keys
      && 0 in inner
      && (forall i: nat {:trigger Linked(i)} :: Linked(i))
      && (forall i, j | i in leaf && j in leaf && leaf[i] == leaf[j] :: i == j)
    }

    /** The node contents and the cache have room for every position and interval. */
    ghost predicate Fits(t: seq<nat>, cache: seq<int>) {
      && Valid()
      && |t| == size
      && (forall i | i in leaf :: leaf[i] < |cache|)
      && (forall i | i in leaf && i < size :: t[i] == leaf[i])
      && (forall i | i in inner :: i < size && t[i] < |cache|)
    }

    /** The interval that position `i` stands for. */
    function Winner(t: seq<nat>, i: nat): nat
      requires |t| == size && (i in leaf || i < size)
    {
      if i in leaf then leaf[i] else t[i]
    }

    /** Node `i` names one of its children's winners, and one with the smallest key. */
    ghost predicate NodeSane(t: seq<nat>, cache: seq<int>, i: nat)
      requires Fits(t, cache) && i in inner
    {
      && Linked(i)
      && var a, b := Winner(t, 2 * i + 1), Winner(t, 2 * i + 2);
      && (t[i] == a || t[i] == b)
      && cache[t[i]] == Min(cache[a], cache[b])
    }

    ghost predicate Sane(t: seq<nat>, cache: seq<int>) {
      && Fits(t, cache)
      && forall i {:trigger NodeSane(t, cache, i)} | i in inner :: NodeSane(t, cache, i)
    }
  }

  /** `q` is `j` or a descendant of `j`. */
  ghost predicate Under(q: nat, j: nat) {
    q == j || (j < q && Under(Parent(q), j))
  }

  // ----- Positions -----

  lemma {:induction false} UnderTransitive(a: nat, b: nat, c: nat)
    requires Under(a, b) && Under(b, c)
    ensures Under(a, c)
    decreases a
  {
    if a != b {
      UnderTransitive(Parent(a), b, c);
      UnderLe(b, c);
    }
  }

  lemma {:induction false} UnderLe(q: nat, j: nat)
    requires Under(q, j)
    ensures j <= q
  {
  }

  lemma ChildUnder(i: nat)
    ensures Parent(2 * i + 1) == i == Parent(2 * i + 2)
    ensures Under(2 * i + 1, i) && Under(2 * i + 2, i)
  {
    assert Under(i, i);
  }

  /** Nothing is below both children of one node. */
  lemma {:induction false} ChildrenDisjoint(q: nat, i: nat)
    ensures !(Under(q, 2 * i + 1) && Under(q, 2 * i + 2))
    decreases q
  {
    if 2 * i + 2 < q {
      ChildrenDisjoint(Parent(q), i);
    } else if Under(q, 2 * i + 1) && q == 2 * i + 2 {
      UnderLe(Parent(q), 2 * i + 1);
    }
  }

  /** A proper descendant of `i` is below exactly one of its children. */
  lemma {:induction false} UnderChild(q: nat, i: nat)
    requires Under(q, i) && q != i
    ensures Under(q, 2 * i + 1) || Under(q, 2 * i + 2)
    decreases q
  {
    if Parent(q) != i {
      UnderChild(Parent(q), i);
      if Under(Parent(q), 2 * i + 1) {
        UnderLe(Parent(q), 2 * i + 1);
      } else {
        UnderLe(Parent(q), 2 * i + 2);
      }
    }
  }

  lemma {:induction false} UnderRoot(q: nat)
    ensures Under(q, 0)
  {
    if q != 0 {
      UnderRoot(Parent(q));
    }
  }

  predicate Pair(a: nat, b: nat, i: nat) {
    (a == 2 * i + 1 && b == 2 * i + 2) || (a == 2 * i + 2 && b == 2 * i + 1)
  }

  lemma SiblingIsPair(c: nat)
    requires 0 < c
    ensures Pair(c, Sibling(c), Parent(c))
  {
    if c % 2 == 1 {
      assert c == 2 * (c / 2) + 1;
    } else {
      assert c == 2 * (c / 2);
    }
  }

  lemma SiblingInTree(sh: Shape, c: nat)
    requires sh.Valid() && sh.Has(c) && 0 < c
    ensures sh.Has(Sibling(c))
    ensures Pair(c, Sibling(c), Parent(c))
  {
    SiblingIsPair(c);
    assert sh.Linked(c) && sh.Linked(Parent(c));
  }

  // ----- What a sane tree says -----

  /** In a sane tree, every winner is an interval stored at a leaf below the node. */
  lemma {:induction false} WinnerIsBelow(sh: Shape, t: seq<nat>, cache: seq<int>, j: nat) returns (q: nat)
    requires sh.Sane(t, cache) && sh.Has(j)
    ensures q in sh.leaf && Under(q, j) && sh.leaf[q] == sh.Winner(t, j)
    decreases if j < sh.size then sh.size - j else 0
  {
    if j in sh.leaf {
      q := j;
    } else {
      assert sh.NodeSane(t, cache, j);
      ChildUnder(j);
      if t[j] == sh.Winner(t, 2 * j + 1) {
        q := WinnerIsBelow(sh, t, cache, 2 * j + 1);
        UnderTransitive(q, 2 * j + 1, j);
      } else {
        q := WinnerIsBelow(sh, t, cache, 2 * j + 2);
        UnderTransitive(q, 2 * j + 2, j);
      }
    }
  }

  /** In a sane tree, no position below `j` has a smaller key than the winner of `j`. */
  lemma {:induction false} WinnerIsLeast(sh: Shape, t: seq<nat>, cache: seq<int>, q: nat, j: nat)
    requires sh.Sane(t, cache) && sh.Has(q) && sh.Has(j) && Under(q, j)
    ensures cache[sh.Winner(t, j)] <= cache[sh.Winner(t, q)]
    decreases q
  {
    if q != j {
      var i := Parent(q);
      assert sh.Linked(q) && sh.NodeSane(t, cache, i);
      assert q == 2 * i + 1 || q == 2 * i + 2;
      WinnerIsLeast(sh, t, cache, i, j);
    }
  }

  /**
    The root of a sane tree holds an interval, and no interval has a smaller
    key.
   */
  lemma RootIsMinimum(sh: Shape, t: seq<nat>, cache: seq<int>)
    requires sh.Sane(t, cache)
    ensures t[0] in sh.leaf.Values
    ensures forall q | q in sh.leaf :: cache[t[0]] <= cache[sh.leaf[q]]
  {
    var w := WinnerIsBelow(sh, t, cache, 0);
    assert sh.leaf[w] in sh.leaf.Values;
    forall q | q in sh.leaf ensures cache[t[0]] <= cache[sh.leaf[q]] {
      UnderRoot(q);
      WinnerIsLeast(sh, t, cache, q, 0);
    }
  }

  // ----- Changing one key -----

  /** An interval that is not stored below `j` does not win at `j`. */
  lemma NotWinnerElsewhere(sh: Shape, t: seq<nat>, cache: seq<int>, q: nat, j: nat)
    requires sh.Sane(t, cache) && q in sh.leaf && sh.Has(j) && !Under(q, j)
    ensures sh.Winner(t, j) != sh.leaf[q]
  {
    var w := WinnerIsBelow(sh, t, cache, j);
  }

  /** Whoever does not win at `c` does not win above `c` either, unless from the other side. */
  lemma {:induction false} NotWinnerAbove(sh: Shape, t: seq<nat>, cache: seq<int>, q: nat, c: nat, j: nat)
    requires sh.Sane(t, cache) && q in sh.leaf
    requires sh.Has(c) && Under(q, c) && sh.Winner(t, c) != sh.leaf[q]
    requires sh.Has(j) && Under(c, j)
    ensures sh.Winner(t, j) != sh.leaf[q]
    decreases c
  {
    if c != j {
      var i := Parent(c);
      assert sh.Linked(c) && sh.NodeSane(t, cache, i);
      ChildUnder(i);
      ChildrenDisjoint(q, i);
      UnderTransitive(q, c, i);
      NotWinnerElsewhere(sh, t, cache, q, Sibling(c));
      NotWinnerAbove(sh, t, cache, q, i, j);
    }
  }

  /**
    The climb from leaf `q` has reached node `i` from its child `c`: nodes off
    the path and nodes at or above `i` still have their old content, and the
    nodes already passed are sane for the new key.
   */
  ghost predicate Climb(sh: Shape, t0: seq<nat>, t: seq<nat>, cache0: seq<int>, cache: seq<int>,
                        q: nat, c: nat, i: nat) {
    && sh.Sane(t0, cache0) && sh.Fits(t, cache)
    && q in sh.leaf && cache == cache0[sh.leaf[q] := cache[sh.leaf[q]]]
    && sh.Has(c) && 0 < c && Under(q, c)
    && i == Parent(c) && i in sh.inner && sh.Linked(i) && Under(q, i)
    && (forall j: nat | j < sh.size && (!Under(q, j) || j <= i) :: t[j] == t0[j])
    && (forall j {:trigger sh.NodeSane(t, cache, j)} | j in sh.inner && Under(q, j) && i < j ::
          sh.NodeSane(t, cache, j))
  }

  lemma ClimbStart(sh: Shape, t: seq<nat>, cache0: seq<int>, cache: seq<int>, q: nat)
    requires sh.Sane(t, cache0) && q in sh.leaf
    requires |cache| == |cache0| && cache == cache0[sh.leaf[q] := cache[sh.leaf[q]]]
    ensures Climb(sh, t, t, cache0, cache, q, q, Parent(q))
  {
    assert sh.Linked(q) && sh.Linked(Parent(q));
    ChildUnder(Parent(q));
    forall j | j in sh.inner && Under(q, j) ensures j <= Parent(q) {
      UnderLe(Parent(q), j);
    }
  }

  /** Two positions above `q` are above one another. */
  lemma {:induction false} AncestorsAreOrdered(q: nat, a: nat, b: nat)
    requires Under(q, a) && Under(q, b) && a <= b
    ensures Under(b, a)
    decreases q
  {
    if q != b {
      UnderLe(Parent(q), b);
      AncestorsAreOrdered(Parent(q), a, b);
    }
  }

  lemma ChildrenOf(sh: Shape, j: nat) returns (a: nat, b: nat)
    requires sh.Valid() && j in sh.inner
    ensures sh.Has(a) && sh.Has(b) && a == 2 * j + 1 && b == 2 * j + 2
  {
    assert sh.Linked(j);
    a, b := 2 * j + 1, 2 * j + 2;
  }

  /** A node stays sane if it and its children keep their winners, and those keep their keys. */
  lemma SameNodeSane(sh: Shape, t0: seq<nat>, t: seq<nat>, cache0: seq<int>, cache: seq<int>,
                     q: nat, j: nat, a: nat, b: nat)
    requires sh.Sane(t0, cache0) && sh.Fits(t, cache)
    requires q in sh.leaf && cache == cache0[sh.leaf[q] := cache[sh.leaf[q]]]
    requires j in sh.inner && t[j] == t0[j]
    requires sh.Has(a) && sh.Has(b) && a == 2 * j + 1 && b == 2 * j + 2
    requires sh.Winner(t, a) == sh.Winner(t0, a) != sh.leaf[q]
    requires sh.Winner(t, b) == sh.Winner(t0, b) != sh.leaf[q]
    ensures sh.NodeSane(t, cache, j)
  {
    assert sh.NodeSane(t0, cache0, j);
  }

  /** A node that is not above the changed leaf stays sane. */
  lemma OffPathSane(sh: Shape, t0: seq<nat>, t: seq<nat>, cache0: seq<int>, cache: seq<int>, q: nat, j: nat)
    requires sh.Sane(t0, cache0) && sh.Fits(t, cache)
    requires q in sh.leaf && cache == cache0[sh.leaf[q] := cache[sh.leaf[q]]]
    requires forall k: nat | k < sh.size && !Under(q, k) :: t[k] == t0[k]
    requires j in sh.inner && !Under(q, j)
    ensures sh.NodeSane(t, cache, j)
  {
    var a, b := ChildrenOf(sh, j);
    OffPathChild(sh, t0, t, cache0, q, j, a);
    OffPathChild(sh, t0, t, cache0, q, j, b);
    SameNodeSane(sh, t0, t, cache0, cache, q, j, a, b);
  }

  lemma OffPathChild(sh: Shape, t0: seq<nat>, t: seq<nat>, cache0: seq<int>, q: nat, j: nat, ch: nat)
    requires sh.Sane(t0, cache0) && |t| == sh.size && q in sh.leaf && !Under(q, j)
    requires forall k: nat | k < sh.size && !Under(q, k) :: t[k] == t0[k]
    requires sh.Has(ch) && (ch == 2 * j + 1 || ch == 2 * j + 2)
    ensures sh.Winner(t, ch) == sh.Winner(t0, ch) != sh.leaf[q]
  {
    ChildUnder(j);
    if Under(q, ch) {
      UnderTransitive(q, ch, j);
    }
    NotWinnerElsewhere(sh, t0, cache0, q, ch);
  }

  /** Node `i` gets new content and is sane with it: the climb goes on, or is over at the root. */
  lemma ClimbStep(sh: Shape, t0: seq<nat>, t: seq<nat>, t': seq<nat>, cache0: seq<int>, cache: seq<int>,
                  q: nat, c: nat, i: nat)
    requires Climb(sh, t0, t, cache0, cache, q, c, i)
    requires |t'| == |t| && t'[i] < |cache| && t' == t[i := t'[i]]
    requires sh.Fits(t', cache) && sh.NodeSane(t', cache, i)
    ensures 0 < i ==> Climb(sh, t0, t', cache0, cache, q, i, Parent(i))
    ensures i == 0 ==> sh.Sane(t', cache)
  {
    forall j | j in sh.inner && Under(q, j) && i < j ensures sh.NodeSane(t', cache, j) {
      assert sh.NodeSane(t, cache, j);
    }
    if i == 0 {
      forall j | j in sh.inner ensures sh.NodeSane(t', cache, j) {
        if !Under(q, j) {
          OffPathSane(sh, t0, t', cache0, cache, q, j);
        }
      }
    } else {
      assert sh.Linked(i) && sh.Linked(Parent(i));
      ChildUnder(Parent(i));
      UnderTransitive(q, i, Parent(i));
      forall j | j in sh.inner && Under(q, j) && Parent(i) < j ensures sh.NodeSane(t', cache, j) {
        if j < i {
          AncestorsAreOrdered(q, j, i);
          UnderLe(Parent(i), j);
        }
      }
    }
  }

  /** Node `i` is sane as it is and not won by the changed interval: nothing above it needs repair. */
  lemma ClimbStop(sh: Shape, t0: seq<nat>, t: seq<nat>, cache0: seq<int>, cache: seq<int>, q: nat, c: nat, i: nat)
    requires Climb(sh, t0, t, cache0, cache, q, c, i)
    requires sh.NodeSane(t, cache, i) && t[i] != sh.leaf[q]
    ensures sh.Sane(t, cache)
  {
    forall j | j in sh.inner ensures sh.NodeSane(t, cache, j) {
      if !Under(q, j) {
        OffPathSane(sh, t0, t, cache0, cache, q, j);
      } else if j < i {
        AncestorsAreOrdered(q, j, i);
        AboveStopSane(sh, t0, t, cache0, cache, q, c, i, j);
      }
    }
  }

  lemma AboveStopChildren(sh: Shape, t0: seq<nat>, t: seq<nat>, cache0: seq<int>, cache: seq<int>,
                          q: nat, c: nat, i: nat, a: nat, b: nat, j: nat)
    requires Climb(sh, t0, t, cache0, cache, q, c, i) && t[i] != sh.leaf[q]
    requires sh.Has(a) && sh.Has(b) && a == 2 * j + 1 && b == 2 * j + 2 && Under(i, j) && i != j
    ensures sh.Winner(t, a) == sh.Winner(t0, a) != sh.leaf[q]
    ensures sh.Winner(t, b) == sh.Winner(t0, b) != sh.leaf[q]
  {
    UnderChild(i, j);
    ChildrenDisjoint(q, j);
    AboveStopChild(sh, t0, t, cache0, cache, q, c, i, a, b);
    AboveStopChild(sh, t0, t, cache0, cache, q, c, i, b, a);
  }

  lemma AboveStopSane(sh: Shape, t0: seq<nat>, t: seq<nat>, cache0: seq<int>, cache: seq<int>,
                      q: nat, c: nat, i: nat, j: nat)
    requires Climb(sh, t0, t, cache0, cache, q, c, i)
    requires t[i] != sh.leaf[q]
    requires j in sh.inner && j < i && Under(i, j)
    ensures sh.NodeSane(t, cache, j)
  {
    var a, b := ChildrenOf(sh, j);
    AboveStopChildren(sh, t0, t, cache0, cache, q, c, i, a, b, j);
    SameNodeSane(sh, t0, t, cache0, cache, q, j, a, b);
  }

  /** One of two children `ch` and `other` of a node above `i`. */
  lemma AboveStopChild(sh: Shape, t0: seq<nat>, t: seq<nat>, cache0: seq<int>, cache: seq<int>,
                       q: nat, c: nat, i: nat, ch: nat, other: nat)
    requires Climb(sh, t0, t, cache0, cache, q, c, i)
    requires t[i] != sh.leaf[q] && sh.Has(ch)
    requires Under(i, ch) || (Under(i, other) && !(Under(q, ch) && Under(q, other)))
    ensures sh.Winner(t, ch) == sh.Winner(t0, ch) != sh.leaf[q]
  {
    if Under(i, ch) {
      UnderLe(i, ch);
      NotWinnerAbove(sh, t0, cache0, q, i, ch);
    } else {
      UnderTransitive(q, i, other);
      NotWinnerElsewhere(sh, t0, cache0, q, ch);
    }
  }

  /** In the decrease loop the changed interval may take over node `i`. */
  lemma DecreaseTakesOver(sh: Shape, t0: seq<nat>, t: seq<nat>, cache0: seq<int>, cache: seq<int>,
                          q: nat, c: nat, i: nat)
    requires Climb(sh, t0, t, cache0, cache, q, c, i)
    requires sh.Winner(t, c) == sh.leaf[q]
    requires cache[sh.leaf[q]] <= cache0[sh.leaf[q]] && cache[sh.leaf[q]] <= cache[t[i]]
    ensures sh.Fits(t[i := sh.leaf[q]], cache) && sh.NodeSane(t[i := sh.leaf[q]], cache, i)
  {
    assert sh.NodeSane(t0, cache0, i);
    ChildUnder(i);
    SiblingInTree(sh, c);
    ChildrenDisjoint(q, i);
    NotWinnerElsewhere(sh, t0, cache0, q, Sibling(c));
  }

  /** In the decrease loop a strictly smaller node `i` must be won from the other side. */
  lemma DecreaseStops(sh: Shape, t0: seq<nat>, t: seq<nat>, cache0: seq<int>, cache: seq<int>, q: nat, c: nat, i: nat)
    requires Climb(sh, t0, t, cache0, cache, q, c, i)
    requires sh.Winner(t, c) == sh.leaf[q]
    requires cache[sh.leaf[q]] <= cache[sh.Winner(t0, c)]
    requires cache[t[i]] < cache[sh.leaf[q]]
    ensures sh.Sane(t, cache)
  {
    assert sh.NodeSane(t0, cache0, i);
    ChildUnder(i);
    ChildrenDisjoint(q, i);
    ClimbStop(sh, t0, t, cache0, cache, q, c, i);
  }

  lemma WinnerFits(sh: Shape, t: seq<nat>, cache: seq<int>, i: nat)
    requires sh.Fits(t, cache) && sh.Has(i)
    ensures sh.Winner(t, i) < |cache|
  {
  }

  lemma UpdateFits(sh: Shape, t: seq<nat>, cache: seq<int>, i: nat, w: nat)
    requires sh.Fits(t, cache) && i in sh.inner && w < |cache|
    ensures sh.Fits(t[i := w], cache)
  {
  }

  lemma SmallerChildSane(sh: Shape, t: seq<nat>, cache: seq<int>, i: nat, a: nat, b: nat, w: nat)
    requires sh.Fits(t, cache) && i in sh.inner && sh.Linked(i) && Pair(a, b, i)
    requires w == sh.Winner(t, a) || w == sh.Winner(t, b)
    requires cache[w] == Min(cache[sh.Winner(t, a)], cache[sh.Winner(t, b)])
    ensures sh.Fits(t[i := w], cache) && sh.NodeSane(t[i := w], cache, i)
  {
    var t' := t[i := w];
    WinnerFits(sh, t, cache, a);
    WinnerFits(sh, t, cache, b);
    UpdateFits(sh, t, cache, i, w);
    assert sh.Winner(t', a) == sh.Winner(t, a) && sh.Winner(t', b) == sh.Winner(t, b);
  }

  /** What both loops promise when the interval at leaf `q` gets the key `v`. */
  ghost predicate Repaired(sh: Shape, t0: seq<nat>, t: seq<nat>, cache0: seq<int>, cache: seq<int>, q: nat, v: int) {
    && q in sh.leaf && sh.leaf[q] < |cache0|
    && cache == cache0[sh.leaf[q] := v]
    && sh.Sane(t, cache)
    && |t| == |t0|
    && (forall j: nat | j < |t| && !Under(q, j) :: t[j] == t0[j])
  }

  /** In the increase loop `inn` won at the child `c` with key `nv`, and `si` at its sibling. */
  ghost predicate Rising(sh: Shape, t0: seq<nat>, t: seq<nat>, cache0: seq<int>, cache: seq<int>,
                         q: nat, c: nat, i: nat, inn: nat, si: nat, nv: int) {
    && Climb(sh, t0, t, cache0, cache, q, c, i) && sh.Has(Sibling(c))
    && inn == sh.Winner(t, c) < |cache| && nv == cache[inn]
    && si == sh.Winner(t, Sibling(c)) < |cache|
  }

  lemma IncreaseStarts(sh: Shape, t: seq<nat>, cache0: seq<int>, cache: seq<int>, q: nat)
    requires sh.Sane(t, cache0) && q in sh.leaf
    requires |cache| == |cache0| && cache == cache0[sh.leaf[q] := cache[sh.leaf[q]]]
    ensures 0 < q && sh.Has(Sibling(q)) && (Sibling(q) in sh.leaf || Sibling(q) < sh.size)
    ensures Rising(sh, t, t, cache0, cache, q, q, Parent(q),
                   sh.leaf[q], sh.Winner(t, Sibling(q)), cache[sh.leaf[q]])
  {
    assert sh.Linked(q);
    ClimbStart(sh, t, cache0, cache, q);
    SiblingInTree(sh, q);
    WinnerFits(sh, t, cache, Sibling(q));
  }

  /** In the increase loop node `i` gets the smaller of its two children's winners. */
  lemma IncreaseTakesOver(sh: Shape, t0: seq<nat>, t: seq<nat>, cache0: seq<int>, cache: seq<int>,
                          q: nat, c: nat, i: nat, inn: nat, si: nat, nv: int, w: nat)
    requires Rising(sh, t0, t, cache0, cache, q, c, i, inn, si, nv)
    requires w == if nv > cache[si] then si else inn
    ensures sh.Fits(t[i := w], cache) && sh.NodeSane(t[i := w], cache, i)
    ensures i == 0 ==> Repaired(sh, t0, t[i := w], cache0, cache, q, cache[sh.leaf[q]])
    ensures 0 < i ==> Climb(sh, t0, t[i := w], cache0, cache, q, i, Parent(i))
  {
    SiblingInTree(sh, c);
    SmallerChildSane(sh, t, cache, i, c, Sibling(c), w);
    ClimbStep(sh, t0, t, t[i := w], cache0, cache, q, c, i);
  }

  lemma IncreaseGoesOn(sh: Shape, t0: seq<nat>, t: seq<nat>, cache0: seq<int>, cache: seq<int>, q: nat, i: nat)
    requires 0 < i && i < |t| && Climb(sh, t0, t, cache0, cache, q, i, Parent(i)) && i in sh.inner
    ensures Sibling(i) < |t| && t[i] < |cache|
    ensures Rising(sh, t0, t, cache0, cache, q, i, Parent(i), t[i], t[Sibling(i)], cache[t[i]])
  {
    SiblingInTree(sh, i);
    assert sh.Linked(i);
    WinnerFits(sh, t, cache, i);
    WinnerFits(sh, t, cache, Sibling(i));
  }

  /** The changed interval is on the side from which the climb came. */
  lemma SiblingNotWon(sh: Shape, t0: seq<nat>, t: seq<nat>, cache0: seq<int>, cache: seq<int>, q: nat, c: nat, i: nat)
    requires Climb(sh, t0, t, cache0, cache, q, c, i) && sh.Has(Sibling(c)) && Pair(c, Sibling(c), i)
    ensures sh.Winner(t, Sibling(c)) == sh.Winner(t0, Sibling(c)) != sh.leaf[q]
  {
    ChildrenDisjoint(q, i);
    NotWinnerElsewhere(sh, t0, cache0, q, Sibling(c));
  }

  lemma PairSane(sh: Shape, t: seq<nat>, cache: seq<int>, i: nat, a: nat, b: nat)
    requires sh.Fits(t, cache) && i in sh.inner && sh.Linked(i) && Pair(a, b, i)
    requires t[i] == sh.Winner(t, b) && cache[t[i]] <= cache[sh.Winner(t, a)]
    ensures sh.NodeSane(t, cache, i)
  {
  }

  /** In the increase loop nothing above `i` changes if `i` already names the smaller sibling. */
  lemma IncreaseStops(sh: Shape, t0: seq<nat>, t: seq<nat>, cache0: seq<int>, cache: seq<int>,
                      q: nat, c: nat, i: nat, inn: nat, si: nat, nv: int)
    requires Rising(sh, t0, t, cache0, cache, q, c, i, inn, si, nv)
    requires nv > cache[si] && t[i] == si
    ensures Repaired(sh, t0, t, cache0, cache, q, cache[sh.leaf[q]])
  {
    SiblingInTree(sh, c);
    SiblingNotWon(sh, t0, t, cache0, cache, q, c, i);
    PairSane(sh, t, cache, i, c, Sibling(c));
    ClimbStop(sh, t0, t, cache0, cache, q, c, i);
  }

  // ----- The update loops -----

  method Decrease(sh: Shape, t: array<nat>, cache: array<int>, q: nat, v: int)
    requires t as object != cache as object && sh.Sane(t[..], cache[..])
    requires q in sh.leaf && v <= cache[sh.leaf[q]]
    modifies t, cache
    ensures Repaired(sh, old(t[..]), t[..], old(cache[..]), cache[..], q, v)
  {
    ghost var t0, cache0 := t[..], cache[..];
    var interval := sh.leaf[q];
    cache[interval] := v;
    var nv := cache[interval];
    var i := Parent(q);
    ghost var c := q;
    ClimbStart(sh, t[..], cache0, cache[..], q);
    while nv <= cache[t[i]]
      invariant Climb(sh, t0, t[..], cache0, cache[..], q, c, i)
      invariant cache[..] == cache0[interval := nv]
      invariant sh.Winner(t[..], c) == interval
      invariant nv <= cache[sh.Winner(t0, c)]
      decreases i
    {
      ghost var before := t[..];
      DecreaseTakesOver(sh, t0, before, cache0, cache[..], q, c, i);
      t[i] := interval;
      assert t[..] == before[i := interval];
      ClimbStep(sh, t0, before, t[..], cache0, cache[..], q, c, i);
      if i == 0 {
        return;
      }
      c := i;
      i := Parent(i);
    }
    DecreaseStops(sh, t0, t[..], cache0, cache[..], q, c, i);
  }

  /** The loop for a key that grew; it never compares with the old key, so `v` is arbitrary. */
  method Increase(sh: Shape, t: array<nat>, cache: array<int>, q: nat, v: int)
    requires t as object != cache as object && sh.Sane(t[..], cache[..])
    requires q in sh.leaf
    modifies t, cache
    ensures Repaired(sh, old(t[..]), t[..], old(cache[..]), cache[..], q, v)
  {
    ghost var t0, cache0 := t[..], cache[..];
    var interval := sh.leaf[q];
    cache[interval] := v;
    var nv := cache[interval];
    var i := Parent(q);
    var inn := interval;
    ghost var c := q;
    ghost var keys := cache[..];
    IncreaseStarts(sh, t0, cache0, keys, q);
    var si := sh.Winner(t[..], Sibling(q));
    while true
      invariant cache[..] == keys
      invariant Rising(sh, t0, t[..], cache0, keys, q, c, i, inn, si, nv)
      decreases i
    {
      ghost var before := t[..];
      var sv := cache[si];
      IncreaseTakesOver(sh, t0, before, cache0, keys, q, c, i, inn, si, nv, if nv > sv then si else inn);
      if nv > sv {
        if t[i] == si {
          IncreaseStops(sh, t0, before, cache0, keys, q, c, i, inn, si, nv);
          return;
        }
        nv := sv;
        inn := si;
      }
      t[i] := inn;
      assert t[..] == before[i := inn];
      if i == 0 {
        return;
      }
      IncreaseGoesOn(sh, t0, t[..], cache0, keys, q, i);
      si := t[Sibling(i)];
      c := i;
      i := Parent(i);
    }
  }

  /** One change of a key: the source picks the loop by comparing with the old key. */
  method Update(sh: Shape, t: array<nat>, cache: array<int>, q: nat, v: int)
    requires t as object != cache as object && sh.Sane(t[..], cache[..])
    requires q in sh.leaf
    modifies t, cache
    ensures Repaired(sh, old(t[..]), t[..], old(cache[..]), cache[..], q, v)
  {
    if v < cache[sh.leaf[q]] {
      Decrease(sh, t, cache, q, v);
    } else {
      Increase(sh, t, cache, q, v);
    }
  }

  datatype Change = Change(q: nat, v: int)

  /** The keys after a list of changes. */
  ghost function Keys(sh: Shape, cache: seq<int>, changes: seq<Change>): (keys: seq<int>)
    requires forall c | c in changes :: c.q in sh.leaf && sh.leaf[c.q] < |cache|
    ensures |keys| == |cache|
  {
    if changes == [] then cache
    else
      var last := changes[|changes| - 1];
      Keys(sh, cache, changes[..|changes| - 1])[sh.leaf[last.q] := last.v]
  }

  /** Change `k` is the last one of interval `n`. */
  ghost predicate IsLastChange(sh: Shape, changes: seq<Change>, k: int, n: int)
    requires forall c | c in changes :: c.q in sh.leaf
  {
    && 0 <= k < |changes| && sh.leaf[changes[k].q] == n
    && forall j | k < j < |changes| :: sh.leaf[changes[j].q] != n
  }

  ghost predicate IsUnchanged(sh: Shape, changes: seq<Change>, n: int)
    requires forall c | c in changes :: c.q in sh.leaf
  {
    forall k | 0 <= k < |changes| :: sh.leaf[changes[k].q] != n
  }

  /** The last change of an interval decides its key; other intervals keep theirs. */
  lemma {:induction false} KeyOf(sh: Shape, cache: seq<int>, changes: seq<Change>, n: nat)
    requires forall c | c in changes :: c.q in sh.leaf && sh.leaf[c.q] < |cache|
    requires n < |cache|
    ensures IsUnchanged(sh, changes, n) ==> Keys(sh, cache, changes)[n] == cache[n]
    ensures forall k {:trigger IsLastChange(sh, changes, k, n)} | IsLastChange(sh, changes, k, n) ::
              Keys(sh, cache, changes)[n] == changes[k].v
    decreases |changes|
  {
    if changes != [] {
      var m := |changes| - 1;
      var front := changes[..m];
      assert forall c | c in front :: c in changes;
      assert changes[m] in changes;
      KeyOf(sh, cache, front, n);
      if sh.leaf[changes[m].q] != n {
        assert IsUnchanged(sh, changes, n) ==> IsUnchanged(sh, front, n);
        forall k {:trigger IsLastChange(sh, changes, k, n)} | IsLastChange(sh, changes, k, n)
          ensures Keys(sh, cache, changes)[n] == changes[k].v
        {
          assert IsLastChange(sh, front, k, n);
        }
      }
    }
  }

  /**
    Whole runs: after any list of changes every interval has its latest key,
    and the root names an interval with the least one.
   */
  method UpdateAll(sh: Shape, t: array<nat>, cache: array<int>, changes: seq<Change>) returns (next: nat)
    requires t as object != cache as object && sh.Sane(t[..], cache[..])
    requires forall c | c in changes :: c.q in sh.leaf
    modifies t, cache
    ensures cache[..] == Keys(sh, old(cache[..]), changes)
    ensures forall n | 0 <= n < cache.Length && IsUnchanged(sh, changes, n) :: cache[n] == old(cache[n])
    ensures forall k, n {:trigger IsLastChange(sh, changes, k, n)} |
              0 <= n < cache.Length && IsLastChange(sh, changes, k, n) :: cache[n] == changes[k].v
    ensures sh.Sane(t[..], cache[..])
    ensures next in sh.leaf.Values && next < cache.Length
    ensures forall q | q in sh.leaf :: cache[next] <= cache[sh.leaf[q]]
  {
    ghost var cache0 := cache[..];
    for k := 0 to |changes|
      invariant sh.Sane(t[..], cache[..])
      invariant cache[..] == Keys(sh, cache0, changes[..k])
    {
      assert changes[..k + 1][..k] == changes[..k];
      Update(sh, t, cache, changes[k].q, changes[k].v);
    }
    assert changes[..|changes|] == changes;
    forall n | 0 <= n < cache.Length
      ensures IsUnchanged(sh, changes, n) ==> cache[n] == cache0[n]
      ensures forall k {:trigger IsLastChange(sh, changes, k, n)} | IsLastChange(sh, changes, k, n) ::
                cache[n] == changes[k].v
    {
      KeyOf(sh, cache0, changes, n);
    }
    RootIsMinimum(sh, t[..], cache[..]);
    next := t[0];
  }

  // ----- The five-node tree of the source -----

  const SOURCE_SHAPE := Shape(5, {0, 1, 3}, map[2 := 4, 4 := 3, 7 := 1, 8 := 2])

  /** The source's `is_sane`. */
  predicate IsSane(cache: seq<int>, t: seq<nat>)
    requires |cache| == 5 && |t| == 5 && forall i | 0 <= i < 5 :: t[i] < 5
  {
    && t[4] == 3 && t[2] == 4
    && (t[3] == 1 || t[3] == 2) && Min(cache[1], cache[2]) == cache[t[3]]
    && (t[1] == t[3] || t[1] == t[4]) && Min(cache[t[3]], cache[t[4]]) == cache[t[1]]
    && (t[0] == t[1] || t[0] == t[2]) && Min(cache[t[1]], cache[t[2]]) == cache[t[0]]
  }

  /** The general notion of sanity is the source's check on the source's tree. */
  lemma SourceTree(cache: seq<int>, t: seq<nat>)
    requires |cache| == 5 && |t| == 5 && forall i | 0 <= i < 5 :: t[i] < 5
    ensures IsSane(cache, t) <==> SOURCE_SHAPE.Sane(t, cache)
  {
    var sh := SOURCE_SHAPE;
    SourceShapeValid();
    if IsSane(cache, t) {
      assert sh.Fits(t, cache);
      assert sh.NodeSane(t, cache, 3) && sh.NodeSane(t, cache, 1) && sh.NodeSane(t, cache, 0);
    }
    if sh.Sane(t, cache) {
      assert sh.NodeSane(t, cache, 3) && sh.NodeSane(t, cache, 1) && sh.NodeSane(t, cache, 0);
      assert t[4] == sh.leaf[4] && t[2] == sh.leaf[2];
    }
  }

  lemma SourceShapeValid()
    ensures SOURCE_SHAPE.Valid()
  {
    var sh := SOURCE_SHAPE;
    forall i: nat | sh.Has(i) && 0 < i ensures Parent(i) in sh.inner {
      assert i in {1, 3, 2, 4, 7, 8};
    }
  }
}
