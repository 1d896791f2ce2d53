/** Index heaps: an array of indices ordered by the keys they point to. */
module IndexHeap {

  /** h holds each of 0..|h|-1 once. */
  ghost predicate Permutation(h: seq<nat>) {
    && (forall i :: 0 <= i < |h| ==> h[i] < |h|)
    && (forall i, j :: 0 <= i < j < |h| ==> h[i] != h[j])
  }

  lemma PermutationOnto(h: seq<nat>, v: nat)
    requires Permutation(h) && v < |h|
    ensures v in h
  {
    var all := Below(|h|);
    var hit := set i | 0 <= i < |h| :: h[i];
    ImageCard(h, |h|);
    assert hit <= all;
    if v !in h {
      assert hit <= all - {v};
      SubsetCard(hit, all - {v});
    }
  }

  ghost function Below(n: nat): (s: set<nat>)
    ensures |s| == n && forall x: nat :: x in s <==> x < n
  {
    if n == 0 then {} else Below(n - 1) + {n - 1}
  }

  lemma {:induction false} ImageCard(h: seq<nat>, n: nat)
    requires n <= |h| && forall i, j :: 0 <= i < j < |h| ==> h[i] != h[j]
    ensures |set i | 0 <= i < n :: h[i]| == n
  {
    if n > 0 {
      ImageCard(h, n - 1);
      assert (set i | 0 <= i < n :: h[i]) == (set i | 0 <= i < n - 1 :: h[i]) + {h[n - 1]};
    }
  }

  lemma {:induction false} SubsetCard<T>(a: set<T>, b: set<T>)
    requires a <= b
    ensures |a| <= |b|
  {
    if a != {} {
      var x :| x in a;
      SubsetCard(a - {x}, b - {x});
    }
  }

  lemma SwapPermutation(h: seq<nat>, i: nat, j: nat)
    requires Permutation(h) && i < |h| && j < |h|
    ensures Permutation(h[i := h[j]][j := h[i]])
  {}

  /** The key each heap node points to. */
  ghost function Keys(h: seq<nat>, key: seq<int>): (k: seq<int>)
    requires forall i :: 0 <= i < |h| ==> h[i] < |key|
    ensures |k| == |h| && forall i :: 0 <= i < |h| ==> k[i] == key[h[i]]
  {
    seq(|h|, i requires 0 <= i < |h| => key[h[i]])
  }

  /** Node i's key is at most its parent's. */
  ghost predicate Below1(k: seq<int>, i: int)
    requires 1 <= i < |k|
  {
    k[i] <= k[(i - 1) / 2]
  }

  /** Node i's key is at most its grandparent's. */
  ghost predicate Below2(k: seq<int>, i: int)
    requires 3 <= i < |k|
  {
    k[i] <= k[((i - 1) / 2 - 1) / 2]
  }

  /** Every node's key is at most its parent's. */
  ghost predicate Ordered(k: seq<int>) {
    forall i {:trigger Below1(k, i)} :: 1 <= i < |k| ==> Below1(k, i)
  }

  /** Ordered but for node against its parent; node's children are below that parent. */
  ghost predicate Rising(k: seq<int>, node: nat) {
    && (forall i {:trigger Below1(k, i)} :: 1 <= i < |k| && i != node ==> Below1(k, i))
    && (forall i {:trigger Below2(k, i)} :: 3 <= i < |k| && (i - 1) / 2 == node ==> Below2(k, i))
  }

  /** Ordered but for node against its parent and its children; its children are below that parent. */
  ghost predicate Sinking(k: seq<int>, node: nat) {
    && (forall i {:trigger Below1(k, i)} :: 1 <= i < |k| && i != node && (i - 1) / 2 != node ==> Below1(k, i))
    && (forall i {:trigger Below2(k, i)} :: 3 <= i < |k| && (i - 1) / 2 == node ==> Below2(k, i))
  }

  /** A new last node starts out rising. */
  lemma RiseStart(k: seq<int>, v: int)
    requires Ordered(k)
    ensures Rising(k + [v], |k|)
  {
    forall i | 1 <= i < |k| ensures Below1(k + [v], i) {
      assert Below1(k, i);
    }
  }

  lemma RiseStep(k: seq<int>, node: nat)
    requires 1 <= node < |k| && Rising(k, node) && k[(node - 1) / 2] <= k[node]
    ensures Rising(k[(node - 1) / 2 := k[node]][node := k[(node - 1) / 2]], (node - 1) / 2)
  {
    var p := (node - 1) / 2;
    var k' := k[p := k[node]][node := k[p]];
    forall i | 1 <= i < |k| && i != p ensures Below1(k', i) {
      assert i != node ==> Below1(k, i);
      if (i - 1) / 2 == node {
        assert Below2(k, i);
      }
    }
    forall i | 3 <= i < |k| && (i - 1) / 2 == p ensures Below2(k', i) {
      assert i != node ==> Below1(k, i);
      assert Below1(k, p);
    }
  }

  lemma RiseDone(k: seq<int>, node: nat)
    requires node < |k| && Rising(k, node) && (node == 0 || k[(node - 1) / 2] >= k[node])
    ensures Ordered(k)
  {
    forall i | 1 <= i < |k| ensures Below1(k, i) {}
  }

  /** Lowering the root leaves it sinking. */
  lemma SinkStart(k: seq<int>, v: int)
    requires k != [] && Ordered(k)
    ensures Sinking(k[0 := v], 0)
  {
    var k' := k[0 := v];
    forall i | 3 <= i < |k| ensures Below1(k', i) {
      assert Below1(k, i);
    }
  }

  /** Lowering the scalar the root points to leaves the root sinking. */
  lemma RootLowered(h: seq<nat>, key: seq<int>, v: int)
    requires h != [] && Permutation(h) && |h| <= |key| && Ordered(Keys(h, key))
    ensures Sinking(Keys(h, key[h[0] := v]), 0)
  {
    assert Keys(h, key[h[0] := v]) == Keys(h, key)[0 := v];
    SinkStart(Keys(h, key), v);
  }

  /** Moving the larger child up keeps everything but the sinking node in order. */
  lemma SinkStep(k: seq<int>, node: nat, child: nat)
    requires 2 * node + 2 < |k| && Sinking(k, node)
    requires child == 2 * node + 1 || child == 2 * node + 2
    requires k[child] >= k[2 * node + 1] && k[child] >= k[2 * node + 2]
    ensures Sinking(k[node := k[child]][child := k[node]], child)
  {
    var k' := k[node := k[child]][child := k[node]];
    forall i | 1 <= i < |k| && i != child && (i - 1) / 2 != child ensures Below1(k', i) {
      assert i != node && (i - 1) / 2 != node ==> Below1(k, i);
      if i == node && node >= 1 {
        assert Below2(k, child);
      }
    }
    forall i | 3 <= i < |k| && (i - 1) / 2 == child ensures Below2(k', i) {
      assert Below1(k, i);
    }
  }

  /** At a leaf, a sinking node becomes a rising one; an odd size leaves no lone left child. */
  lemma SinkDone(k: seq<int>, node: nat)
    requires node < |k| <= 2 * node + 2 && |k| % 2 == 1 && Sinking(k, node)
    ensures Rising(k, node)
  {
    assert |k| <= 2 * node + 1;
  }

  /** The root is a maximum, and every other node is below one of its two children. */
  lemma {:induction false} RootIsMax(k: seq<int>, i: nat)
    requires Ordered(k) && i < |k|
    ensures k[i] <= k[0]
    ensures 1 <= i ==> k[i] <= k[1] || (2 < |k| && k[i] <= k[2])
  {
    if i > 0 {
      assert Below1(k, i);
      RootIsMax(k, (i - 1) / 2);
    }
  }
}
