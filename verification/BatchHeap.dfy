/**
 The batch verifier's working state: scalars, points and a max-heap of indices
 over the scalars, all updated in place.
 */
module BatchHeap {
  import opened Arithmetic
  import opened Limbs
  import opened ScalarBatch
  import opened Edwards
  import opened PointOps
  import opened ScalarMult
  import opened IndexHeap
  import opened MultiScalar
  import opened FinalLadder
  import opened Wrappers

  const MAX_BATCH_SIZE := 64
  const HEAP_BATCH_SIZE := 2 * MAX_BATCH_SIZE + 1

  /** Within the window, comparing limbs 0..limbsize compares the scalars. */
  lemma WindowCompares(l: Layout, a: seq<int>, b: seq<int>, limbsize: nat)
    requires Sane(l) && IsScalar(l, a) && IsScalar(l, b) && limbsize < l.limbs
    requires Within(a, limbsize) && Within(b, limbsize)
    ensures Less(l, a, b, limbsize) <==> Val(l, a) < Val(l, b)
    ensures LessEq(l, a, b, limbsize) <==> Val(l, a) <= Val(l, b)
  {
    WithinValue(Base(l), a, limbsize);
    WithinValue(Base(l), b, limbsize);
  }

  /** What the batch code needs of a layout: room for the 128-bit split and the ladder's first limb. */
  predicate BatchLayout(l: Layout) {
    Sane(l) && Limb128(l) + 2 <= l.limbs && LadderLimb(l) < l.limbs && Bit128(l) < l.bits
  }

  /** The size of the first heap: ((count + 1) / 2) | 1. */
  function FirstHeap(count: nat): (k: nat)
    ensures k % 2 == 1 && (count >= 5 ==> 3 <= k <= count)
  {
    if (count + 1) / 2 % 2 == 0 then (count + 1) / 2 + 1 else (count + 1) / 2
  }

  /** 2^128, as the layout splits it. */
  function Bound128(l: Layout): (r: nat)
    ensures r >= 1
  {
    Pow2(l.bits * Limb128(l) + Bit128(l))
  }

  lemma Bit128Positive(l: Layout)
    ensures Bit128(l) > 0
  {}

  /** Limb Limb128 is where a 128-bit scalar ends, and half of 2^128 already reaches it. */
  lemma Bound128Limb(l: Layout, a: seq<int>, k: nat)
    requires Sane(l) && Bit128(l) < l.bits && IsScalar(l, a) && k < l.limbs
    ensures Val(l, a) < Bound128(l) && k >= Limb128(l) ==> Within(a, k)
    ensures k < Limb128(l) && Within(a, k) ==> 2 * Val(l, a) < Bound128(l)
  {
    hide Value, Pow, Pow2, Within, Limb128;
    WithinBound(Base(l), a, k);
    BasePow(l, k + 1);
    MulDist(k, 1, l.bits);
    if k >= Limb128(l) {
      MulMono(Limb128(l), k, l.bits);
      Pow2Mono(l.bits * Limb128(l) + Bit128(l), l.bits * (k + 1));
    } else {
      MulMono(k + 1, Limb128(l), l.bits);
      Bit128Positive(l);
      Pow2StrictMono(l.bits * (k + 1), l.bits * Limb128(l) + Bit128(l));
    }
  }

  /** Within the window, the windowed subtraction is the difference. */
  method Difference(l: Layout, a: seq<int>, b: seq<int>, limbsize: nat) returns (d: seq<int>)
    requires Sane(l) && IsScalar(l, a) && IsScalar(l, b) && limbsize < l.limbs
    requires Within(a, limbsize) && Within(b, limbsize) && Val(l, b) <= Val(l, a)
    ensures IsScalar(l, d) && Within(d, limbsize) && Val(l, d) == Val(l, a) - Val(l, b)
  {
    WithinValue(Base(l), a, limbsize);
    WithinValue(Base(l), b, limbsize);
    d := Sub(l, a, b, limbsize);
    forall i | limbsize < i < |d| ensures d[i] == 0 {
      assert d[i] == d[limbsize + 1..][i - limbsize - 1];
      assert a[i] == a[limbsize + 1..][i - limbsize - 1];
    }
    WithinValue(Base(l), d, limbsize);
  }

  class Batch<G(!new)> {
    const l: Layout
    const scalars: array<seq<int>>
    const points: array<Point>
    const heap: array<nat>
    var size: nat

    /** The curve, and the points whose coordinates the array holds. */
    ghost const c: Curve<G>
    ghost var elems: seq<G>

    ghost predicate Valid()
      reads `size, scalars, heap
    {
      && BatchLayout(l) && Ed25519(c)
      && scalars.Length == points.Length == heap.Length == HEAP_BATCH_SIZE
      && scalars as object != points && heap as object != points
      && size <= HEAP_BATCH_SIZE
      && (forall i :: 0 <= i < HEAP_BATCH_SIZE ==> IsScalar(l, scalars[i]))
      && Permutation(heap[..size])
    }

    ghost predicate HoldsElems()
      reads `elems, points
    {
      |elems| == points.Length && forall i :: 0 <= i < |elems| ==> IsPoint(c, points[i], elems[i])
    }

    /** The scalars as integers. */
    ghost function Scalars(): (s: seq<int>)
      reads scalars
      ensures |s| == scalars.Length && forall i :: 0 <= i < |s| ==> s[i] == Val(l, scalars[i])
    {
      seq(scalars.Length, i requires 0 <= i < scalars.Length reads scalars => Val(l, scalars[i]))
    }

    /** The scalar of each heap node, root first. */
    ghost function NodeKeys(): (k: seq<int>)
      requires Valid()
      reads this, scalars, heap
      ensures |k| == size && forall i :: 0 <= i < size ==> k[i] == Val(l, scalars[heap[i]])
    {
      Keys(heap[..size], Scalars())
    }

    ghost predicate IsHeap()
      requires Valid()
      reads this, scalars, heap
    {
      Ordered(NodeKeys())
    }

    /** Every scalar in the heap fits limbs 0..limbsize. */
    ghost predicate InWindow(limbsize: nat)
      requires Valid()
      reads this, scalars, heap
    {
      limbsize < l.limbs && forall i :: 0 <= i < size ==> Within(scalars[i], limbsize)
    }

    constructor (l: Layout, ghost c: Curve<G>)
      requires BatchLayout(l) && Ed25519(c)
      ensures Valid() && HoldsElems() && this.l == l && this.c == c && size == 0
      ensures fresh(scalars) && fresh(points) && fresh(heap)
    {
      this.l := l;
      this.c := c;
      NeutralPoint(c);
      hide Ed25519, IsPoint;
      elems := seq(HEAP_BATCH_SIZE, _ => c.group.zero);
      var zero := seq(l.limbs, _ => 0);
      scalars := new seq<int>[HEAP_BATCH_SIZE](_ => zero);
      points := new Point[HEAP_BATCH_SIZE](_ => NEUTRAL);
      heap := new nat[HEAP_BATCH_SIZE](_ => 0);
      size := 0;
    }

    method SetScalar(i: nat, d: seq<int>)
      requires Valid() && i < HEAP_BATCH_SIZE && IsScalar(l, d)
      modifies scalars
      ensures Valid() && scalars[..] == old(scalars[..])[i := d]
      ensures Scalars() == old(Scalars())[i := Val(l, d)]
    {
      scalars[i] := d;
    }

    method Swap(a: nat, b: nat)
      requires Valid() && a < size && b < size
      modifies heap
      ensures Valid()
      ensures heap[..size] == old(heap[..size])[a := old(heap[b])][b := old(heap[a])]
      ensures NodeKeys() == old(NodeKeys())[a := old(NodeKeys())[b]][b := old(NodeKeys())[a]]
    {
      SwapPermutation(heap[..size], a, b);
      var temp := heap[a];
      heap[a] := heap[b];
      heap[b] := temp;
      assert heap[..size] == old(heap[..size])[a := old(heap[b])][b := old(heap[a])];
    }

    method RiseSwap(node: nat) returns (parent: nat)
      requires Valid() && 1 <= node < size && Rising(NodeKeys(), node)
      requires NodeKeys()[(node - 1) / 2] <= NodeKeys()[node]
      modifies heap
      ensures Valid() && parent < node && Rising(NodeKeys(), parent)
    {
      parent := (node - 1) / 2;
      RiseStep(NodeKeys(), node);
      Swap(parent, node);
    }

    method SinkSwap(parent: nat, child: nat)
      requires Valid() && 2 * parent + 2 < size && Sinking(NodeKeys(), parent)
      requires child == 2 * parent + 1 || child == 2 * parent + 2
      requires NodeKeys()[child] >= NodeKeys()[2 * parent + 1] && NodeKeys()[child] >= NodeKeys()[2 * parent + 2]
      modifies heap
      ensures Valid() && Sinking(NodeKeys(), child)
    {
      SinkStep(NodeKeys(), parent, child);
      Swap(parent, child);
    }

    method NodeLess(a: nat, b: nat, limbsize: nat) returns (r: bool)
      requires Valid() && a < size && b < size && InWindow(limbsize)
      ensures r <==> NodeKeys()[a] < NodeKeys()[b]
    {
      WindowCompares(l, scalars[heap[a]], scalars[heap[b]], limbsize);
      r := Less(l, scalars[heap[a]], scalars[heap[b]], limbsize);
    }

    method NodeLessEq(a: nat, b: nat, limbsize: nat) returns (r: bool)
      requires Valid() && a < size && b < size && InWindow(limbsize)
      ensures r <==> NodeKeys()[a] <= NodeKeys()[b]
    {
      WindowCompares(l, scalars[heap[a]], scalars[heap[b]], limbsize);
      r := LessEq(l, scalars[heap[a]], scalars[heap[b]], limbsize);
    }

    /** Adds the scalar at index size to the heap. */
    method InsertNext()
      requires Valid() && IsHeap() && size < HEAP_BATCH_SIZE
      modifies heap, `size
      ensures Valid() && IsHeap() && size == old(size) + 1
    {
      var node: nat := size;
      heap[node] := node;
      ghost var before := NodeKeys();
      RiseStart(before, Val(l, scalars[node]));
      size := size + 1;
      assert heap[..size] == old(heap[..size]) + [node];
      assert NodeKeys() == before + [Val(l, scalars[node])];
      while node != 0
        invariant Valid() && size == old(size) + 1 && node < size && Rising(NodeKeys(), node)
        decreases node
      {
        var parent := (node - 1) / 2;
        var less := NodeLess(parent, node, l.limbs - 1);
        if !less {
          break;
        }
        node := RiseSwap(node);
      }
      RiseDone(NodeKeys(), node);
    }

    /** Restores the heap after its root's scalar was lowered: sink to a leaf, then rise. */
    method UpdatedRoot(limbsize: nat)
      requires Valid() && 3 <= size && size % 2 == 1 && InWindow(limbsize)
      requires Sinking(NodeKeys(), 0)
      modifies heap
      ensures Valid() && IsHeap()
    {
      var node: nat := SinkRoot(limbsize);
      while node != 0
        invariant Valid() && InWindow(limbsize) && node < size && Rising(NodeKeys(), node)
        decreases node
      {
        var parent := (node - 1) / 2;
        var lessEq := NodeLessEq(parent, node, limbsize);
        if !lessEq {
          break;
        }
        node := RiseSwap(node);
      }
      RiseDone(NodeKeys(), node);
    }

    method SinkRoot(limbsize: nat) returns (node: nat)
      requires Valid() && 3 <= size && size % 2 == 1 && InWindow(limbsize)
      requires Sinking(NodeKeys(), 0)
      modifies heap
      ensures Valid() && node < size && Rising(NodeKeys(), node)
    {
      node := 1;
      var parent: nat, childl, childr := 0, 1, 2;
      while childr < size
        invariant Valid() && InWindow(limbsize) && parent < size && childl == 2 * parent + 1 && childr == childl + 1
        invariant Sinking(NodeKeys(), parent)
        invariant parent == 0 || node == parent
        decreases size - parent
      {
        var less := NodeLess(childl, childr, limbsize);
        node := if less then childr else childl;
        SinkSwap(parent, node);
        parent := node;
        childl := parent * 2 + 1;
        childr := childl + 1;
      }
      SinkDone(NodeKeys(), node);
    }

    /** Builds the heap over scalars 0..count-1. */
    method Build(count: nat)
      requires Valid() && 3 <= count <= HEAP_BATCH_SIZE
      modifies heap, `size
      ensures Valid() && IsHeap() && size == count
    {
      heap[0] := 0;
      size := 0;
      Extend(count);
    }

    /** Extends the heap to scalars 0..count-1. */
    method Extend(count: nat)
      requires Valid() && IsHeap() && size <= count <= HEAP_BATCH_SIZE
      modifies heap, `size
      ensures Valid() && IsHeap() && size == count
    {
      while size < count
        invariant Valid() && IsHeap() && size <= count
      {
        InsertNext();
      }
    }

    /** The indices of the two largest scalars in the heap. */
    method GetTop2(limbsize: nat) returns (max1: nat, max2: nat)
      requires Valid() && IsHeap() && 3 <= size && InWindow(limbsize)
      ensures max1 == heap[0] && max1 < size && max2 < size && max1 != max2
      ensures forall v :: 0 <= v < size ==> Scalars()[v] <= Scalars()[max1]
      ensures forall v :: 0 <= v < size && v != max1 ==> Scalars()[v] <= Scalars()[max2]
    {
      var h0, h1, h2 := heap[0], heap[1], heap[2];
      WindowCompares(l, scalars[h1], scalars[h2], limbsize);
      if Less(l, scalars[h1], scalars[h2], limbsize) {
        h1 := h2;
      }
      max1, max2 := h0, h1;
      forall v | 0 <= v < size
        ensures Scalars()[v] <= Scalars()[max1] && (v != max1 ==> Scalars()[v] <= Scalars()[max2])
      {
        PermutationOnto(heap[..size], v);
        var i :| 0 <= i < size && heap[i] == v;
        RootIsMax(NodeKeys(), i);
      }
    }

    /** max1 -= max2 and points[max2] += points[max1], then repair the heap. */
    method Round(max1: nat, max2: nat, limbsize: nat)
      requires Valid() && IsHeap() && 3 <= size && size % 2 == 1 && InWindow(limbsize)
      requires max1 == heap[0] && max2 < size && max1 != max2
      requires Scalars()[max2] <= Scalars()[max1]
      requires HoldsElems() && |elems| == HEAP_BATCH_SIZE
      modifies scalars, points, heap, `elems
      ensures Valid() && IsHeap() && InWindow(limbsize) && HoldsElems()
      ensures Scalars() == old(Scalars())[max1 := old(Scalars())[max1] - old(Scalars())[max2]]
      ensures elems == old(elems)[max2 := c.group.add(old(elems[max2]), old(elems[max1]))]
    {
      hide Ed25519;
      Subtract(max1, max2, limbsize);
      AddPoint(max1, max2);
      UpdatedRoot(limbsize);
    }

    method AddPoint(max1: nat, max2: nat)
      requires Ed25519(c) && HoldsElems() && max1 < |elems| && max2 < |elems|
      modifies points, `elems
      ensures HoldsElems() && elems == old(elems)[max2 := c.group.add(old(elems[max2]), old(elems[max1]))]
    {
      hide Ed25519, IsPoint;
      points[max2] := AddPoints(points[max2], points[max1], c, elems[max2], elems[max1]);
      elems := elems[max2 := c.group.add(elems[max2], elems[max1])];
    }

    method SetPoint(i: nat, p: Point, ghost q: G)
      requires HoldsElems() && i < |elems| && IsPoint(c, p, q)
      modifies points, `elems
      ensures HoldsElems() && elems == old(elems)[i := q]
    {
      points[i] := p;
      elems := elems[i := q];
    }

    method Subtract(max1: nat, max2: nat, limbsize: nat)
      requires Valid() && IsHeap() && 1 <= size && InWindow(limbsize)
      requires max1 == heap[0] && max2 < size && max1 != max2
      requires Scalars()[max2] <= Scalars()[max1]
      modifies scalars
      ensures Valid() && InWindow(limbsize) && Sinking(NodeKeys(), 0)
      ensures Scalars() == old(Scalars())[max1 := old(Scalars())[max1] - old(Scalars())[max2]]
    {
      var d := Difference(l, scalars[max1], scalars[max2], limbsize);
      RootLowered(heap[..size], Scalars(), Val(l, d));
      SetScalar(max1, d);
    }

    /** Drops the top limb of the window when the largest scalar no longer uses it. */
    method Shrink(max1: nat, limbsize: nat) returns (limbsize': nat)
      requires Valid() && InWindow(limbsize) && max1 < size
      requires forall v :: 0 <= v < size ==> Scalars()[v] <= Scalars()[max1]
      requires Scalars()[max1] > 0
      ensures InWindow(limbsize')
      ensures limbsize >= Limb128(l) && (limbsize == l.limbs - 1 || 2 * Scalars()[max1] >= Bound128(l)) ==> limbsize' >= Limb128(l)
    {
      limbsize' := limbsize;
      if scalars[max1][limbsize] == 0 {
        if limbsize == 0 {
          ValueZero(Base(l), scalars[max1]);
          assert false;
        }
        limbsize' := limbsize - 1;
        assert Within(scalars[max1], limbsize');
        WithinBound(Base(l), scalars[max1], limbsize');
        forall v | 0 <= v < size ensures Within(scalars[v], limbsize') {
          assert Scalars()[v] <= Scalars()[max1];
          WithinBound(Base(l), scalars[v], limbsize');
        }
        Bound128Limb(l, scalars[max1], limbsize');
      }
    }

    /** Joins the remaining scalars, all below 2^128, to the heap. */
    method ExtendTo(count: nat, limbsize: nat) returns (max1: nat, max2: nat)
      requires Valid() && IsHeap() && 3 <= size <= count <= HEAP_BATCH_SIZE
      requires InWindow(limbsize) && limbsize >= Limb128(l)
      requires forall v :: size <= v < count ==> Scalars()[v] < Bound128(l)
      modifies heap, `size
      ensures Valid() && IsHeap() && size == count && InWindow(limbsize)
      ensures max1 == heap[0] && max1 < size && max2 < size && max1 != max2
      ensures forall v :: 0 <= v < size ==> Scalars()[v] <= Scalars()[max1]
      ensures forall v :: 0 <= v < size && v != max1 ==> Scalars()[v] <= Scalars()[max2]
    {
      forall v | size <= v < count ensures Within(scalars[v], limbsize) {
        assert Scalars()[v] < Bound128(l);
        Bound128Limb(l, scalars[v], limbsize);
      }
      Extend(count);
      max1, max2 := GetTop2(limbsize);
    }

    /**
     The sum of scalars[i] * points[i] over i < count, by repeatedly subtracting the
     second largest scalar from the largest. The scalars from FirstHeap(count) on,
     which fit 128 bits, join only once the others are that small, and not at all
     exactly when the first ones run dry before that.
     */
    method MultiScalarMult(count: nat) returns (r: Option<Point>, extended: bool, last: nat)
      requires Valid() && HoldsElems() && 5 <= count <= HEAP_BATCH_SIZE && count % 2 == 1
      requires forall v :: FirstHeap(count) <= v < count ==> Scalars()[v] < Bound128(l)
      modifies this, scalars, points, heap
      ensures Valid() && HoldsElems() && |elems| == |old(elems)| == HEAP_BATCH_SIZE
      ensures extended <==> !RunsDry(old(Scalars()), FirstHeap(count), Bound128(l))
      ensures size == if extended then count else FirstHeap(count)
      ensures last < size && forall v :: 0 <= v < size && v != last ==> Scalars()[v] == 0
      ensures SameSum(c.group, old(Scalars()), old(elems), Scalars(), elems, size)
      ensures extended ==> Scalars()[last] < Bound128(l)
      ensures Represents(c, r, FinalResult(l, c.group, elems[last], Scalars()[last]))
    {
      ghost var s0, p0 := Scalars(), elems;
      ghost var t;
      extended, last, t := Collapse(count);
      if !extended {
        HistoryDone(c.group, s0, p0, Scalars(), elems, count, FirstHeap(count), Bound128(l), t, last);
      }
      r := Final(l, points[last], scalars[last], c, elems[last]);
    }

    /** The main loop: rounds until at most one scalar in the heap is non-zero. */
    method Collapse(count: nat) returns (extended: bool, max1: nat, ghost t: Trace)
      requires Valid() && HoldsElems() && 5 <= count <= HEAP_BATCH_SIZE && count % 2 == 1
      requires forall v :: FirstHeap(count) <= v < count ==> Scalars()[v] < Bound128(l)
      modifies this, scalars, points, heap
      ensures Valid() && HoldsElems() && size == (if extended then count else FirstHeap(count))
      ensures History(c.group, old(Scalars()), old(elems), Scalars(), elems, count, FirstHeap(count), Bound128(l),
                      extended, t)
      ensures max1 < size && forall v :: 0 <= v < size && v != max1 ==> Scalars()[v] == 0
    {
      ghost var s0, p0 := Scalars(), elems;
      t := Untouched;
      var limbsize := Start(count);
      var done := false;
      extended, max1 := false, 0;
      while !done
        invariant Running(s0, p0, count, limbsize, extended, t)
        invariant done ==> max1 < size && forall v :: 0 <= v < size && v != max1 ==> Scalars()[v] == 0
        decreases !done, Total(Scalars(), count)
      {
        done, max1, limbsize, extended, t := Iterate(s0, p0, count, limbsize, extended, t);
      }
    }

    method Start(count: nat) returns (limbsize: nat)
      requires Valid() && HoldsElems() && 5 <= count <= HEAP_BATCH_SIZE && count % 2 == 1
      requires forall v :: FirstHeap(count) <= v < count ==> Scalars()[v] < Bound128(l)
      modifies heap, `size
      ensures Running(old(Scalars()), old(elems), count, limbsize, false, Untouched)
    {
      limbsize := l.limbs - 1;
      AllNonnegative();
      HistoryStart(c.group, Scalars(), elems, count, FirstHeap(count), Bound128(l));
      Build(FirstHeap(count));
    }

    /** What the main loop keeps: a heap inside the window, and the history of the sum. */
    ghost predicate Running(s0: seq<int>, p0: seq<G>, count: nat, limbsize: nat, extended: bool, t: Trace)
      reads this, scalars, points, heap
    {
      && Valid() && IsHeap() && InWindow(limbsize) && HoldsElems()
      && 5 <= count <= HEAP_BATCH_SIZE && count % 2 == 1
      && size == (if extended then count else FirstHeap(count))
      && (!extended ==> limbsize >= Limb128(l) && (limbsize == l.limbs - 1 || t.Round?))
      && |s0| == |p0| == HEAP_BATCH_SIZE
      && History(c.group, s0, p0, Scalars(), elems, count, FirstHeap(count), Bound128(l), extended, t)
    }

    /** One pass of the main loop; done when no second scalar is left. */
    method Iterate(ghost s0: seq<int>, ghost p0: seq<G>, count: nat, window: nat, wasExtended: bool, ghost t: Trace)
      returns (done: bool, max1: nat, limbsize: nat, extended: bool, ghost t': Trace)
      requires Running(s0, p0, count, window, wasExtended, t)
      modifies this, scalars, points, heap
      ensures Running(s0, p0, count, limbsize, extended, t')
      ensures done ==> max1 < size && forall v :: 0 <= v < size && v != max1 ==> Scalars()[v] == 0
      ensures !done ==> 0 <= Total(Scalars(), count) < Total(old(Scalars()), count)
    {
      hide Value, Combine, SameSum, RunsDry, AtMostOneNonzero, Total, Ed25519, IsPoint, IsScalar, Permutation;
      ghost var s, p := Scalars(), elems;
      limbsize, extended, t' := window, wasExtended, t;
      var max2;
      max1, max2 := GetTop2(limbsize);
      done := IsZero(l, scalars[max2]);
      if done {
        return;
      }
      ghost var top1, top2 := max1, max2;
      if !extended && t.Round? {
        assert s[t.i] <= s[top1] && s[t.j] <= s[top1];
      }
      limbsize, extended, max1, max2 := Prepare(count, max1, max2, window, wasExtended);
      assert Scalars() == s && elems == p;
      if extended && !wasExtended {
        HistoryExtend(c.group, s0, p0, s, p, count, FirstHeap(count), Bound128(l), t, top1, top2);
      }
      t' := Reduce(s0, p0, count, max1, max2, limbsize, extended, t);
    }

    /** The round itself, seen in the history. */
    method Reduce(ghost s0: seq<int>, ghost p0: seq<G>, count: nat, max1: nat, max2: nat, limbsize: nat,
                  extended: bool, ghost t: Trace)
      returns (ghost t': Trace)
      requires Valid() && IsHeap() && InWindow(limbsize) && HoldsElems()
      requires 5 <= count <= HEAP_BATCH_SIZE && count % 2 == 1
      requires size == (if extended then count else FirstHeap(count))
      requires max1 == heap[0] && max1 < size && max2 < size && max1 != max2
      requires !extended ==> limbsize >= Limb128(l) && Scalars()[max1] >= Bound128(l)
      requires |s0| == |p0| == HEAP_BATCH_SIZE
      requires History(c.group, s0, p0, Scalars(), elems, count, FirstHeap(count), Bound128(l), extended, t)
      requires 0 < Scalars()[max2] <= Scalars()[max1]
      modifies scalars, points, heap, `elems
      ensures Running(s0, p0, count, limbsize, extended, t')
      ensures 0 <= Total(Scalars(), count) < Total(old(Scalars()), count)
    {
      hide Value, History, Total;
      ghost var s, p := Scalars(), elems;
      t' := Trace.Round(s[max1], s[max2], max1, max2);
      HistoryRound(c.group, s0, p0, s, p, count, FirstHeap(count), Bound128(l), extended, t, max1, max2);
      Round(max1, max2, limbsize);
      assert elems == p[max2 := c.group.add(p[max2], p[max1])] && Scalars() == s[max1 := s[max1] - s[max2]];
      assert History(c.group, s0, p0, Scalars(), elems, count, FirstHeap(count), Bound128(l), extended, t');
    }

    /** Shrinks the window and, when the largest scalar has come down to 128 bits, extends the heap. */
    method Prepare(count: nat, top1: nat, top2: nat, window: nat, wasExtended: bool)
      returns (limbsize: nat, extended: bool, max1: nat, max2: nat)
      requires Valid() && IsHeap() && InWindow(window) && 3 <= size <= count <= HEAP_BATCH_SIZE
      requires !wasExtended ==> forall v :: size <= v < count ==> Scalars()[v] < Bound128(l)
      requires top1 == heap[0] && top1 < size && top2 < size && top1 != top2
      requires forall v :: 0 <= v < size ==> Scalars()[v] <= Scalars()[top1]
      requires forall v :: 0 <= v < size && v != top1 ==> Scalars()[v] <= Scalars()[top2]
      requires 0 < Scalars()[top2]
      requires !wasExtended ==> window >= Limb128(l) && (window == l.limbs - 1 || 2 * Scalars()[top1] >= Bound128(l))
      modifies heap, `size
      ensures Valid() && IsHeap() && InWindow(limbsize)
      ensures extended <==> wasExtended || Scalars()[top1] < Bound128(l)
      ensures size == if extended && !wasExtended then count else old(size)
      ensures !extended ==> limbsize >= Limb128(l) && max1 == top1 && max2 == top2
      ensures max1 == heap[0] && max1 < size && max2 < size && max1 != max2
      ensures 0 < Scalars()[max2] <= Scalars()[max1]
    {
      max1, max2, extended := top1, top2, wasExtended;
      limbsize := Shrink(max1, window);
      if !extended && AtMost128(l, scalars[max1]) {
        max1, max2 := ExtendTo(count, limbsize);
        extended := true;
        assert Scalars()[top1] <= Scalars()[max2] || Scalars()[top2] <= Scalars()[max2];
      }
    }

    lemma AllNonnegative()
      requires Valid()
      ensures forall v :: 0 <= v < HEAP_BATCH_SIZE ==> Scalars()[v] >= 0
    {
      forall v | 0 <= v < HEAP_BATCH_SIZE ensures Scalars()[v] >= 0 {
        ValueBound(Base(l), scalars[v]);
      }
    }
  }
}
