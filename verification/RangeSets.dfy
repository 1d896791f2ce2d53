/** Sets of unsigned values as sorted, disjoint, non-touching closed intervals. */
module RangeSets {
  import opened Arithmetic

  datatype Interval = Interval(first: nat, last: nat)

  /** The fewest intervals: in order, none empty, with at least one value missing in between. */
  predicate Canonical(rs: seq<Interval>) {
    && (forall i :: 0 <= i < |rs| ==> rs[i].first <= rs[i].last)
    && (forall i :: 0 <= i < |rs| - 1 ==> rs[i].last + 1 < rs[i + 1].first)
  }

  predicate Contains(rs: seq<Interval>, v: nat) {
    exists i :: 0 <= i < |rs| && rs[i].first <= v <= rs[i].last
  }

  predicate In(iv: Interval, v: nat) {
    iv.first <= v <= iv.last
  }

  /** Every value is at least the first one. */
  lemma {:induction false} Increasing(rs: seq<Interval>, i: nat, j: nat)
    requires Canonical(rs) && i < j < |rs|
    ensures rs[i].last + 1 < rs[j].first
    decreases j
  {
    if i < j - 1 {
      Increasing(rs, i, j - 1);
    }
  }

  lemma ContainsCons(iv: Interval, rs: seq<Interval>, v: nat)
    ensures Contains([iv] + rs, v) <==> In(iv, v) || Contains(rs, v)
  {
    var s := [iv] + rs;
    if Contains(rs, v) {
      var i :| 0 <= i < |rs| && rs[i].first <= v <= rs[i].last;
      assert s[i + 1] == rs[i];
    }
    if Contains(s, v) {
      var i :| 0 <= i < |s| && s[i].first <= v <= s[i].last;
      assert i > 0 ==> s[i] == rs[i - 1];
    }
    assert s[0] == iv;
  }

  lemma CanonicalCons(iv: Interval, rs: seq<Interval>)
    requires Canonical(rs) && iv.first <= iv.last && (rs != [] ==> iv.last + 1 < rs[0].first)
    ensures Canonical([iv] + rs)
  {}

  function Max(a: nat, b: nat): nat {
    if a < b then b else a
  }

  /** Adding an interval joins all intervals it overlaps or touches; an empty one adds nothing. */
  function Insert(rs: seq<Interval>, iv: Interval): seq<Interval>
    decreases |rs|
  {
    if iv.first > iv.last then rs
    else if rs == [] then [iv]
    else if iv.last + 1 < rs[0].first then [iv] + rs
    else if rs[0].last + 1 < iv.first then [rs[0]] + Insert(rs[1..], iv)
    else Insert(rs[1..], Interval(Min(rs[0].first, iv.first), Max(rs[0].last, iv.last)))
  }

  lemma {:induction false} InsertCanonical(rs: seq<Interval>, iv: Interval)
    requires Canonical(rs)
    ensures Canonical(Insert(rs, iv))
    ensures iv.first <= iv.last ==> Insert(rs, iv) != [] && (rs == [] || Insert(rs, iv)[0].first == Min(rs[0].first, iv.first))
    ensures rs == [] && iv.first <= iv.last ==> Insert(rs, iv)[0].first == iv.first
    decreases |rs|
  {
    if iv.first <= iv.last && rs != [] {
      if rs[0].last + 1 < iv.first {
        InsertCanonical(rs[1..], iv);
        CanonicalCons(rs[0], Insert(rs[1..], iv));
      } else if iv.last + 1 >= rs[0].first {
        InsertCanonical(rs[1..], Interval(Min(rs[0].first, iv.first), Max(rs[0].last, iv.last)));
      }
    }
  }

  lemma {:induction false} InsertContains(rs: seq<Interval>, iv: Interval, v: nat)
    requires Canonical(rs)
    ensures Contains(Insert(rs, iv), v) <==> Contains(rs, v) || In(iv, v)
    decreases |rs|
  {
    if rs != [] {
      assert rs == [rs[0]] + rs[1..];
      ContainsCons(rs[0], rs[1..], v);
    }
    if iv.first <= iv.last {
      if rs == [] {
        ContainsCons(iv, [], v);
      } else if iv.last + 1 < rs[0].first {
        ContainsCons(iv, rs, v);
      } else if rs[0].last + 1 < iv.first {
        InsertContains(rs[1..], iv, v);
        ContainsCons(rs[0], Insert(rs[1..], iv), v);
      } else {
        InsertContains(rs[1..], Interval(Min(rs[0].first, iv.first), Max(rs[0].last, iv.last)), v);
      }
    }
  }

  /** Past the last value, with a gap, an interval is simply appended. */
  lemma {:induction false} InsertAppends(rs: seq<Interval>, iv: Interval)
    requires Canonical(rs + [iv])
    ensures Insert(rs, iv) == rs + [iv]
    decreases |rs|
  {
    assert (rs + [iv])[|rs|] == iv;
    if rs != [] {
      Increasing(rs + [iv], 0, |rs|);
      assert (rs + [iv])[0] == rs[0];
      TailCanonical(rs + [iv]);
      assert (rs + [iv])[1..] == rs[1..] + [iv];
      InsertAppends(rs[1..], iv);
    }
  }

  lemma TailCanonical(rs: seq<Interval>)
    requires Canonical(rs) && rs != []
    ensures Canonical(rs[1..])
  {}

  /** Two canonical forms of the same set are equal. */
  lemma {:induction false} CanonicalUnique(rs: seq<Interval>, ss: seq<Interval>)
    requires Canonical(rs) && Canonical(ss) && forall v: nat :: Contains(rs, v) <==> Contains(ss, v)
    ensures rs == ss
    decreases |rs|
  {
    if rs == [] || ss == [] {
      if rs != [] {
        assert Contains(rs, rs[0].first);
      }
      if ss != [] {
        assert Contains(ss, ss[0].first);
      }
    } else {
      SameFirst(rs, ss);
      SameFirst(ss, rs);
      forall v: nat ensures Contains(rs[1..], v) <==> Contains(ss[1..], v) {
        TailContains(rs, v);
        TailContains(ss, v);
      }
      CanonicalUnique(rs[1..], ss[1..]);
      assert rs == [rs[0]] + rs[1..] && ss == [ss[0]] + ss[1..];
    }
  }

  lemma TailContains(rs: seq<Interval>, v: nat)
    requires Canonical(rs) && rs != []
    ensures Contains(rs[1..], v) <==> Contains(rs, v) && v > rs[0].last
    ensures v <= rs[0].last && Contains(rs, v) ==> In(rs[0], v)
  {
    assert rs == [rs[0]] + rs[1..];
    ContainsCons(rs[0], rs[1..], v);
    if Contains(rs[1..], v) {
      var i :| 0 <= i < |rs[1..]| && rs[1..][i].first <= v <= rs[1..][i].last;
      Increasing(rs, 0, i + 1);
    }
  }

  lemma SameFirst(rs: seq<Interval>, ss: seq<Interval>)
    requires Canonical(rs) && Canonical(ss) && rs != [] && ss != [] && forall v: nat :: Contains(rs, v) <==> Contains(ss, v)
    ensures ss[0].first <= rs[0].first && ss[0].last <= rs[0].last
  {
    assert Contains(rs, rs[0].first) && Contains(ss, ss[0].first);
    FirstIsLeast(ss, rs[0].first);
    FirstIsLeast(rs, ss[0].first);
    if ss[0].last > rs[0].last {
      assert Contains(ss, rs[0].last + 1);
      TailContains(rs, rs[0].last + 1);
      AfterFirst(rs);
    }
  }

  lemma FirstIsLeast(rs: seq<Interval>, v: nat)
    requires Canonical(rs) && Contains(rs, v)
    ensures rs != [] && rs[0].first <= v
  {
    var i :| 0 <= i < |rs| && rs[i].first <= v <= rs[i].last;
    if i > 0 {
      Increasing(rs, 0, i);
    }
  }

  lemma AfterFirst(rs: seq<Interval>)
    requires Canonical(rs) && rs != []
    ensures !Contains(rs[1..], rs[0].last + 1)
  {
    if Contains(rs[1..], rs[0].last + 1) {
      var i :| 0 <= i < |rs[1..]| && rs[1..][i].first <= rs[0].last + 1 <= rs[1..][i].last;
      Increasing(rs, 0, i + 1);
    }
  }
}
