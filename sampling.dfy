/** The stratified split `sampleAClass` of src/METADATA.js: per class, a fixed share of
    the rows is drawn without replacement for training and the rest is kept for
    testing. The random draw is any choice among the candidates still in the pool. */
module Sampling {
  import opened Values
  import opened Seqs
  import opened Summary

  /** The share of each class that goes to training, `num / den`. */
  datatype Fraction = Fraction(num: nat, den: nat)

  predicate ValidFraction(f: Fraction)
  {
    0 < f.den && f.num <= f.den
  }

  /** `Math.floor(count * fraction)`: the number of rows of a class drawn for training. */
  function Quota(f: Fraction, count: nat): (q: nat)
    requires ValidFraction(f)
    ensures q <= count
    ensures count == 0 ==> q == 0
  {
    MulMonotone(count, f.num, f.den);
    DivBound(count * f.num, f.den, count);
    count * f.num / f.den
  }

  lemma {:induction false} MulMonotone(c: nat, x: nat, y: nat)
    ensures x <= y ==> c * x <= c * y
  {
    if c > 0 {
      MulMonotone(c - 1, x, y);
      assert c * x == (c - 1) * x + x && c * y == (c - 1) * y + y;
    }
  }

  lemma {:induction false} DivBound(a: nat, d: nat, b: nat)
    requires 0 < d && a <= b * d
    ensures a / d <= b
  {
    var q := a / d;
    assert d * q + a % d == a;
    MulMonotone(d, b + 1, q);
    assert d * (b + 1) == b * d + d;
  }

  /** Non-decreasing under the comparison `(a, b) => a < b ? -1 : (b < a) | 0`. */
  predicate Sorted(s: seq<Value>)
  {
    forall k, l :: 0 <= k < l < |s| ==> !Less(s[l], s[k])
  }

  /** Inserts position `i` into `o` before the first position whose value is greater. */
  function InsertIndex(v: seq<Value>, o: seq<nat>, i: nat): (r: seq<nat>)
    requires InBounds(o, |v|) && i < |v|
    ensures |r| == |o| + 1 && InBounds(r, |v|)
    ensures forall x :: x in r <==> x in o || x == i
  {
    if |o| == 0 then [i]
    else if Less(v[i], v[o[0]]) then [i] + o
    else [o[0]] + InsertIndex(v, o[1..], i)
  }

  lemma {:induction false} GatherCons<T>(v: seq<T>, x: nat, o: seq<nat>)
    requires x < |v| && InBounds(o, |v|)
    ensures InBounds([x] + o, |v|)
    ensures Gather(v, [x] + o) == [v[x]] + Gather(v, o)
  {
  }

  /** Inserting in front of a greater first value keeps the order. */
  lemma {:induction false} InsertFrontSorted(v: seq<Value>, o: seq<nat>, i: nat)
    requires InBounds(o, |v|) && i < |v| && |o| > 0 && Less(v[i], v[o[0]])
    requires Sorted(Gather(v, o))
    ensures Sorted(Gather(v, [i] + o))
  {
    var g := Gather(v, [i] + o);
    var go := Gather(v, o);
    forall k, l | 0 <= k < l < |g| ensures !Less(g[l], g[k]) {
      if k == 0 {
        if l == 1 { LessIrreflexive(go[0]); } else { assert !Less(go[l - 1], go[0]); }
        if Less(go[l - 1], v[i]) { LessTransitive(go[l - 1], v[i], go[0]); }
      } else {
        assert g[k] == go[k - 1] && g[l] == go[l - 1];
      }
    }
  }

  /** Keeping a first value that is not greater in front of a sorted insertion keeps
      the order. */
  lemma {:induction false} InsertBehindSorted(v: seq<Value>, o: seq<nat>, i: nat, rt: seq<nat>)
    requires InBounds(o, |v|) && i < |v| && |o| > 0 && !Less(v[i], v[o[0]])
    requires Sorted(Gather(v, o))
    requires InBounds(rt, |v|) && Sorted(Gather(v, rt))
    requires forall x :: x in rt <==> x in o[1..] || x == i
    ensures Sorted(Gather(v, [o[0]] + rt))
  {
    var g := Gather(v, [o[0]] + rt);
    var go := Gather(v, o);
    var tail := o[1..];
    forall k, l | 0 <= k < l < |g| ensures !Less(g[l], g[k]) {
      if k == 0 {
        assert rt[l - 1] in rt;
        if rt[l - 1] != i {
          var m :| 0 <= m < |tail| && tail[m] == rt[l - 1];
          assert go[m + 1] == v[rt[l - 1]];
        }
      } else {
        assert g[k] == Gather(v, rt)[k - 1] && g[l] == Gather(v, rt)[l - 1];
      }
    }
  }

  lemma {:induction false} InsertIndexSorted(v: seq<Value>, o: seq<nat>, i: nat)
    requires InBounds(o, |v|) && i < |v|
    requires Sorted(Gather(v, o))
    ensures Sorted(Gather(v, InsertIndex(v, o, i)))
  {
    if |o| == 0 {
    } else if Less(v[i], v[o[0]]) {
      InsertFrontSorted(v, o, i);
    } else {
      var tail := o[1..];
      assert Gather(v, tail) == Gather(v, o)[1..];
      InsertIndexSorted(v, tail, i);
      InsertBehindSorted(v, o, i, InsertIndex(v, tail, i));
    }
  }

  lemma {:induction false} InsertIndexDistinct(v: seq<Value>, o: seq<nat>, i: nat)
    requires InBounds(o, |v|) && i < |v| && Distinct(o) && i !in o
    ensures Distinct(InsertIndex(v, o, i))
  {
    if |o| > 0 && !Less(v[i], v[o[0]]) {
      assert o[0] !in o[1..];
      InsertIndexDistinct(v, o[1..], i);
    }
  }

  lemma {:induction false} InsertIndexMultiset(v: seq<Value>, o: seq<nat>, i: nat)
    requires InBounds(o, |v|) && i < |v|
    ensures multiset(Gather(v, InsertIndex(v, o, i))) == multiset(Gather(v, o)) + multiset{v[i]}
  {
    if |o| == 0 {
      assert Gather(v, [i]) == [v[i]];
    } else if Less(v[i], v[o[0]]) {
      GatherCons(v, i, o);
    } else {
      var t := o[1..];
      InsertIndexMultiset(v, t, i);
      assert [o[0]] + t == o;
      GatherCons(v, o[0], t);
      GatherCons(v, o[0], InsertIndex(v, t, i));
    }
  }

  /** The positions `0..m-1` sorted by their values: `result` after its `sort`. */
  function SortOrder(v: seq<Value>, m: nat): (r: seq<nat>)
    requires m <= |v|
    ensures |r| == m && InBounds(r, |v|)
  {
    if m == 0 then []
    else InsertIndex(v, SortOrder(v, m - 1), m - 1)
  }

  lemma {:induction false} SortOrderSortedStep(v: seq<Value>, m: nat)
    requires 0 < m <= |v| && Sorted(Gather(v, SortOrder(v, m - 1)))
    ensures Sorted(Gather(v, SortOrder(v, m)))
  {
    InsertIndexSorted(v, SortOrder(v, m - 1), m - 1);
  }

  lemma {:induction false} InsertIndexPrefixMultiset(v: seq<Value>, o: seq<nat>, r: seq<nat>, m: nat)
    requires 0 < m <= |v| && InBounds(o, |v|) && r == InsertIndex(v, o, m - 1)
    requires multiset(Gather(v, o)) == multiset(v[..m - 1])
    ensures InBounds(r, |v|) && multiset(Gather(v, r)) == multiset(v[..m])
  {
    InsertIndexMultiset(v, o, m - 1);
    PrefixMultiset(v, m);
  }

  /** The sort yields every position below `m` exactly once. */
  lemma {:induction false} SortOrderPermutes(v: seq<Value>, m: nat)
    requires m <= |v|
    ensures InBounds(SortOrder(v, m), m) && Distinct(SortOrder(v, m))
  {
    if m > 0 {
      var o := SortOrder(v, m - 1);
      SortOrderPermutes(v, m - 1);
      assert m - 1 !in o;
      InsertIndexDistinct(v, o, m - 1);
      var r := SortOrder(v, m);
      forall k | 0 <= k < m ensures r[k] < m {
        assert r[k] in r;
      }
    }
  }

  /** The values at the sorted positions are in order. */
  lemma {:induction false} SortOrderSorted(v: seq<Value>, m: nat)
    requires m <= |v|
    ensures Sorted(Gather(v, SortOrder(v, m)))
  {
    if m > 0 {
      SortOrderSorted(v, m - 1);
      SortOrderSortedStep(v, m);
    }
  }

  /** The values at the sorted positions are those of `v[..m]`. */
  lemma {:induction false} SortOrderMultiset(v: seq<Value>, m: nat)
    requires m <= |v|
    ensures multiset(Gather(v, SortOrder(v, m))) == multiset(v[..m])
  {
    if m > 0 {
      SortOrderMultiset(v, m - 1);
      InsertIndexPrefixMultiset(v, SortOrder(v, m - 1), SortOrder(v, m), m);
    } else {
      assert Gather(v, SortOrder(v, m)) == [] == v[..m];
    }
  }

  /** Of two sorted sequences holding the same values, the first elements agree. */
  lemma {:induction false} SortedHead(a: seq<Value>, b: seq<Value>)
    requires Sorted(a) && Sorted(b) && multiset(a) == multiset(b) && |a| > 0
    ensures |b| > 0 && a[0] == b[0]
  {
    assert a[0] in multiset(b);
    var j :| 0 <= j < |b| && b[j] == a[0];
    assert b[0] in multiset(a);
    var i :| 0 <= i < |a| && a[i] == b[0];
    if i > 0 { assert !Less(a[i], a[0]); }
    if j > 0 { assert !Less(b[j], b[0]); }
    if a[0] != b[0] { LessTotal(a[0], b[0]); }
  }

  lemma {:induction false} SortedTail(a: seq<Value>)
    requires Sorted(a) && |a| > 0
    ensures Sorted(a[1..])
  {
    var t := a[1..];
    forall k, l | 0 <= k < l < |t| ensures !Less(t[l], t[k]) {
      assert t[k] == a[k + 1] && t[l] == a[l + 1];
    }
  }

  lemma {:induction false} TailMultiset(a: seq<Value>, b: seq<Value>)
    requires |a| > 0 && |b| > 0 && a[0] == b[0] && multiset(a) == multiset(b)
    ensures multiset(a[1..]) == multiset(b[1..])
  {
    HeadMultiset(a);
    HeadMultiset(b);
  }

  lemma {:induction false} HeadMultiset(a: seq<Value>)
    requires |a| > 0
    ensures multiset(a[1..]) == multiset(a) - multiset{a[0]}
  {
    assert a == [a[0]] + a[1..];
    assert multiset(a) == multiset{a[0]} + multiset(a[1..]);
  }

  /** Two sorted sequences holding the same values are equal: `classVectorSorted`,
      sorted on its own, is the vector read in the order of `result`. */
  lemma {:induction false} SortedUnique(a: seq<Value>, b: seq<Value>)
    requires Sorted(a) && Sorted(b) && multiset(a) == multiset(b)
    ensures a == b
    decreases |a|
  {
    assert |a| == |multiset(a)| == |multiset(b)| == |b|;
    if |a| > 0 {
      SortedHead(a, b);
      SortedTail(a);
      SortedTail(b);
      TailMultiset(a, b);
      SortedUnique(a[1..], b[1..]);
      assert a == [a[0]] + a[1..] && b == [b[0]] + b[1..];
    }
  }

  /** The sequence a count object describes when each value is written out as often as
      it is counted, class after class. */
  function Expand(c: Counts): (s: seq<Value>)
    ensures |s| == Total(c)
  {
    if |c| == 0 then [] else Expand(c[..|c| - 1]) + Repeat(c[|c| - 1].0, c[|c| - 1].1)
  }

  /** Where class `i` starts in the sorted copy: `shift[i - 1]`, or 0 for the first class. */
  function Start(c: Counts, i: nat): nat
    requires i <= |c|
  {
    Total(c[..i])
  }

  lemma {:induction false} StartNext(c: Counts, i: nat)
    requires i < |c|
    ensures Start(c, i + 1) == Start(c, i) + c[i].1
  {
    assert c[..i + 1][..i] == c[..i];
  }

  lemma {:induction false} StartBound(c: Counts, i: nat)
    requires i <= |c|
    ensures Start(c, i) <= Total(c)
    decreases |c| - i
  {
    if i < |c| {
      StartNext(c, i);
      StartBound(c, i + 1);
    } else {
      assert c[..i] == c;
    }
  }

  /** Class `i` occupies positions `Start(c, i)` to `Start(c, i + 1) - 1` of the
      written-out sequence. */
  lemma {:induction false} ExpandAt(c: Counts, i: nat, l: nat)
    requires i < |c| && l < c[i].1
    ensures Start(c, i) + l < |Expand(c)|
    ensures Expand(c)[Start(c, i) + l] == c[i].0
  {
    var m := |c| - 1;
    var c0 := c[..m];
    assert Expand(c) == Expand(c0) + Repeat(c[m].0, c[m].1);
    if i == m {
      assert c[..i] == c0;
    } else {
      assert c[..i] == c0[..i];
      ExpandAt(c0, i, l);
    }
  }

  /** In a count object whose keys are distinct, a value occurs in the written-out
      sequence as often as it is counted. */
  lemma {:induction false} ExpandMultiplicity(c: Counts, e: Value)
    requires Distinct(Keys(c))
    ensures multiset(Expand(c))[e] ==
              if e in Keys(c) then c[IndexOf(Keys(c), e)].1 else 0
  {
    if |c| > 0 {
      var m := |c| - 1;
      var c0 := c[..m];
      assert Keys(c) == Keys(c0) + [c[m].0];
      ExpandMultiplicity(c0, e);
      RepeatMultiset(c[m].0, c[m].1, e);
      IndexOfSnoc(Keys(c0), c[m].0, e);
      if e == c[m].0 {
        assert e !in Keys(c0);
      } else if e in Keys(c0) {
        var k := IndexOf(Keys(c0), e);
        assert c[k] == c0[k];
      }
    }
  }

  /** Each class's count replaced by its quota. */
  function Scale(c: Counts, f: Fraction): (r: Counts)
    requires ValidFraction(f)
    ensures |r| == |c| && Keys(r) == Keys(c)
    ensures forall i :: 0 <= i < |c| ==> r[i] == (c[i].0, Quota(f, c[i].1))
  {
    seq(|c|, i requires 0 <= i < |c| => (c[i].0, Quota(f, c[i].1)))
  }

  /** Writing out the quotas gives each value its count's quota. */
  lemma {:induction false} ScaleMultiplicity(c: Counts, f: Fraction, e: Value)
    requires ValidFraction(f) && Distinct(Keys(c))
    ensures multiset(Expand(Scale(c, f)))[e] == Quota(f, multiset(Expand(c))[e])
  {
    ExpandMultiplicity(c, e);
    ExpandMultiplicity(Scale(c, f), e);
  }

  lemma {:induction false} ExpandScaleNext(c: Counts, f: Fraction, i: nat)
    requires ValidFraction(f) && i < |c|
    ensures Expand(Scale(c[..i + 1], f)) == Expand(Scale(c[..i], f)) + Repeat(c[i].0, Quota(f, c[i].1))
  {
    var s := Scale(c[..i + 1], f);
    assert s[..i] == Scale(c[..i], f);
  }

  /** A value already present in a sorted vector, appended while keeping it sorted,
      equals the vector's last element. */
  lemma {:induction false} SortedLast(s0: seq<Value>, x: Value)
    requires Sorted(s0 + [x]) && x in s0
    ensures x == s0[|s0| - 1]
  {
    var s := s0 + [x];
    var m := |s0| - 1;
    var j :| 0 <= j < |s0| && s0[j] == x;
    assert s[m] == s0[m] && s[m + 1] == x && s[j] == x;
    assert !Less(x, s0[m]);
    if j < m { assert !Less(s0[m], x); }
    if x != s0[m] { LessTotal(x, s0[m]); }
  }

  /** When the written-out counts reproduce a non-empty vector, the last class is the
      class of its last element. */
  lemma {:induction false} TallyLast(s: seq<Value>)
    requires |s| > 0 && Expand(Tally(s)) == s
    ensures |Tally(s)| > 0 && Tally(s)[|Tally(s)| - 1].0 == s[|s| - 1]
  {
    var c := Tally(s);
    TallyTotal(s);
    assert |c| > 0;
    var m := |c| - 1;
    TallyKeys(s);
    TallyMultiplicity(s);
    assert Keys(c)[m] == c[m].0;
    assert c[m].0 in s;
    assert c[m].1 >= 1;
    assert Expand(c) == Expand(c[..m]) + Repeat(c[m].0, c[m].1);
  }

  /** Counting once more the class that comes last appends one element to the
      written-out sequence. */
  lemma {:induction false} ExpandBumpLast(c0: Counts, x: Value)
    requires |c0| > 0 && c0[|c0| - 1].0 == x && Distinct(Keys(c0))
    ensures Expand(Bump(c0, x)) == Expand(c0) + [x]
  {
    var m := |c0| - 1;
    var c := c0[m := (x, c0[m].1 + 1)];
    LastKey(c0, x);
    BumpAt(c0, x, m);
    var front := Expand(c0[..m]);
    assert c[..m] == c0[..m];
    ExpandLast(c);
    ExpandLast(c0);
    RepeatSnoc(x, c0[m].1);
    assert Expand(c) == front + (Repeat(x, c0[m].1) + [x]);
    assert front + (Repeat(x, c0[m].1) + [x]) == (front + Repeat(x, c0[m].1)) + [x];
  }

  lemma {:induction false} LastKey(c0: Counts, x: Value)
    requires |c0| > 0 && c0[|c0| - 1].0 == x && Distinct(Keys(c0))
    ensures IndexOf(Keys(c0), x) == |c0| - 1
  {
    assert Keys(c0)[|c0| - 1] == x;
    IndexOfDistinct(Keys(c0), |c0| - 1);
  }

  lemma {:induction false} ExpandLast(c: Counts)
    requires |c| > 0
    ensures Expand(c) == Expand(c[..|c| - 1]) + Repeat(c[|c| - 1].0, c[|c| - 1].1)
  {
  }

  lemma {:induction false} RepeatSnoc(x: Value, n: nat)
    ensures Repeat(x, n + 1) == Repeat(x, n) + [x]
  {
  }

  /** Counting a new class appends one element to the written-out sequence. */
  lemma {:induction false} ExpandBumpNew(c0: Counts, x: Value)
    requires x !in Keys(c0)
    ensures Expand(Bump(c0, x)) == Expand(c0) + [x]
  {
    var c := c0 + [(x, 1)];
    assert Bump(c0, x) == c;
    assert c[..|c0|] == c0;
    assert Repeat(x, 1) == [x];
  }

  /** A vector whose counts write it out again still does after repeating its last
      element. */
  lemma {:induction false} TallyBumpLast(s0: seq<Value>, x: Value)
    requires |s0| > 0 && x == s0[|s0| - 1] && Expand(Tally(s0)) == s0
    ensures Expand(Bump(Tally(s0), x)) == s0 + [x]
  {
    TallyLast(s0);
    TallyKeys(s0);
    ExpandBumpLast(Tally(s0), x);
  }

  /** The count object of a sorted vector, written out, is that vector: equal values
      sit together and the classes come in ascending order. */
  lemma {:induction false} SortedTally(s: seq<Value>)
    requires Sorted(s)
    ensures Expand(Tally(s)) == s
  {
    if |s| > 0 {
      var s0, x := s[..|s| - 1], s[|s| - 1];
      assert s == s0 + [x];
      assert Sorted(s0) by {
        forall k, l | 0 <= k < l < |s0| ensures !Less(s0[l], s0[k]) {
          assert s0[k] == s[k] && s0[l] == s[l];
        }
      }
      SortedTally(s0);
      var c0 := Tally(s0);
      assert Tally(s) == Bump(c0, x);
      TallyKeys(s0);
      if x in Keys(c0) {
        assert x == s0[|s0| - 1] by {
          assert x in s0;
          SortedLast(s0, x);
        }
        TallyBumpLast(s0, x);
      } else {
        ExpandBumpNew(c0, x);
      }
    }
  }

  /** `r.map((x) => x + shift[i - 1])`. */
  function Offset(r: seq<nat>, base: nat): (moved: seq<nat>)
    ensures |moved| == |r|
    ensures forall k :: 0 <= k < |r| ==> moved[k] == r[k] + base
  {
    seq(|r|, k requires 0 <= k < |r| => r[k] + base)
  }

  /** The draw for one class: `q` local positions out of `0..c-1`, each picked among
      the candidates left and then removed from them. */
  method DrawWithoutReplacement(c: nat, q: nat) returns (r: seq<nat>)
    requires q <= c
    ensures |r| == q && Distinct(r) && InBounds(r, c)
  {
    var arr := Range(c);
    r := [];
    var j := 0;
    while j < q
      invariant 0 <= j <= q
      invariant |r| == j && |arr| == c - j
      invariant Distinct(r) && Distinct(arr)
      invariant InBounds(r, c) && InBounds(arr, c)
      invariant forall x :: x in r ==> x !in arr
    {
      assert arr[0] in arr;
      var p :| 0 <= p < |arr|;
      var n := arr[p];
      r := r + [n];
      var ind := IndexOf(arr, n);
      DeleteDistinct(arr, ind);
      DeleteMembers(arr, ind);
      arr := Delete(arr, ind);
      j := j + 1;
    }
  }

  /** `shift`: the running sums of the class counts. */
  method CumulativeCounts(counts: Counts) returns (shift: seq<nat>)
    ensures |shift| == |counts|
    ensures forall i :: 0 <= i < |counts| ==> shift[i] == Start(counts, i + 1)
  {
    shift := [];
    var a := 0;
    var idx := 0;
    while idx < |counts|
      invariant 0 <= idx <= |counts|
      invariant |shift| == idx && a == Start(counts, idx)
      invariant forall i :: 0 <= i < idx ==> shift[i] == Start(counts, i + 1)
    {
      StartNext(counts, idx);
      a := a + counts[idx].1;
      shift := shift + [a];
      idx := idx + 1;
    }
  }

  lemma {:induction false} DistinctConcat(a: seq<nat>, b: seq<nat>, m: nat)
    requires Distinct(a) && Distinct(b) && InBounds(a, m)
    requires forall k :: 0 <= k < |b| ==> m <= b[k]
    ensures Distinct(a + b)
  {
    var s := a + b;
    forall k, l | 0 <= k < l < |s| ensures s[k] != s[l] {
      if l >= |a| && k < |a| { assert s[k] < m <= s[l]; }
    }
  }

  /** One class's picks, moved into its block of the sorted copy, extend the picks so
      far by exactly that class's quota of its value. */
  lemma {:induction false} PickStep(sorted: seq<Value>, counts: Counts, f: Fraction, i: nat,
                 selected: seq<nat>, r: seq<nat>)
    requires ValidFraction(f) && Expand(counts) == sorted && i < |counts|
    requires InBounds(selected, Start(counts, i)) && InBounds(selected, |sorted|)
    requires Distinct(selected)
    requires Gather(sorted, selected) == Expand(Scale(counts[..i], f))
    requires |r| == Quota(f, counts[i].1) && Distinct(r) && InBounds(r, counts[i].1)
    ensures var s := selected + Offset(r, Start(counts, i));
      && InBounds(s, Start(counts, i + 1)) && InBounds(s, |sorted|)
      && Distinct(s)
      && Gather(sorted, s) == Expand(Scale(counts[..i + 1], f))
  {
    var base := Start(counts, i);
    var moved := Offset(r, base);
    StartNext(counts, i);
    StartBound(counts, i + 1);
    forall k | 0 <= k < |moved| ensures moved[k] < |sorted| && sorted[moved[k]] == counts[i].0 {
      ExpandAt(counts, i, r[k]);
    }
    assert Gather(sorted, moved) == Repeat(counts[i].0, Quota(f, counts[i].1));
    ExpandScaleNext(counts, f, i);
    GatherAppend(sorted, selected, moved);
    assert Distinct(moved);
    DistinctConcat(selected, moved, base);
  }

  /** The loop over the classes: each class's quota of positions inside its block of
      the sorted copy. */
  method PickPerClass(sorted: seq<Value>, counts: Counts, f: Fraction) returns (selected: seq<nat>)
    requires ValidFraction(f) && Expand(counts) == sorted
    ensures InBounds(selected, |sorted|) && Distinct(selected)
    ensures Gather(sorted, selected) == Expand(Scale(counts, f))
  {
    selected := [];
    var i := 0;
    while i < |counts|
      invariant 0 <= i <= |counts|
      invariant InBounds(selected, Start(counts, i)) && InBounds(selected, |sorted|)
      invariant Distinct(selected)
      invariant Gather(sorted, selected) == Expand(Scale(counts[..i], f))
    {
      var shift := CumulativeCounts(counts);
      var c := counts[i].1;
      var r := DrawWithoutReplacement(c, Quota(f, c));
      PickStep(sorted, counts, f, i, selected, r);
      if i == 0 {
        assert counts[..0] == [];
        assert Offset(r, 0) == r;
        selected := selected + r;
      } else {
        selected := selected + Offset(r, shift[i - 1]);
      }
      i := i + 1;
    }
    assert counts[..i] == counts;
  }

  /** `indexOfSelected.forEach((e) => trainIndex.push(result[e]))`. */
  method SortBack(order: seq<nat>, selected: seq<nat>) returns (train: seq<nat>)
    requires InBounds(selected, |order|)
    ensures train == Gather(order, selected)
  {
    train := [];
    var k := 0;
    while k < |selected|
      invariant 0 <= k <= |selected|
      invariant |train| == k
      invariant forall j :: 0 <= j < k ==> train[j] == order[selected[j]]
    {
      train := train + [order[selected[k]]];
      k := k + 1;
    }
  }

  /** The final scan: a mask entry per row, and the rows not picked, in order. */
  method Mark(n: nat, train: seq<nat>) returns (test: seq<nat>, mask: seq<bool>)
    ensures |mask| == n
    ensures forall i :: 0 <= i < n ==> (mask[i] <==> i in train)
    ensures test == Complement(train, n)
  {
    mask := [];
    test := [];
    var idx := 0;
    while idx < n
      invariant 0 <= idx <= n
      invariant |mask| == idx
      invariant forall j :: 0 <= j < idx ==> (mask[j] <==> j in train)
      invariant test == Complement(train, idx)
    {
      if idx in train {
        mask := mask + [true];
      } else {
        mask := mask + [false];
        test := test + [idx];
      }
      idx := idx + 1;
    }
  }

  /** The picks, read back through the sort, hold each class's quota of the rows. */
  lemma {:induction false} TrainQuota(v: seq<Value>, f: Fraction, order: seq<nat>, counts: Counts, selected: seq<nat>)
    requires ValidFraction(f)
    requires order == SortOrder(v, |v|)
    requires Expand(counts) == Gather(v, order) && Distinct(Keys(counts))
    requires InBounds(selected, |v|) && Distinct(selected)
    requires Gather(Gather(v, order), selected) == Expand(Scale(counts, f))
    ensures InBounds(Gather(order, selected), |v|) && Distinct(Gather(order, selected))
    ensures forall e :: multiset(Gather(v, Gather(order, selected)))[e] == Quota(f, multiset(v)[e])
  {
    SortOrderPermutes(v, |v|);
    SortOrderMultiset(v, |v|);
    assert v[..|v|] == v;
    GatherDistinct(order, selected, |v|);
    var train := Gather(order, selected);
    assert Gather(v, train) == Gather(Gather(v, order), selected);
    forall e ensures multiset(Gather(v, train))[e] == Quota(f, multiset(v)[e]) {
      ScaleMultiplicity(counts, f, e);
    }
  }

  /** The default `fraction` of `sample`, 0.8. */
  const DefaultFraction := Fraction(4, 5)

  /** What a split of the rows of `v` must satisfy: `train` holds distinct rows and
      exactly the quota of every class; `test` holds every other row, in ascending
      order, so that the two partition the rows; `mask[i]` says whether row `i` is a
      training row. */
  ghost predicate Stratified(v: seq<Value>, f: Fraction, train: seq<nat>, test: seq<nat>, mask: seq<bool>)
    requires ValidFraction(f)
  {
    && InBounds(train, |v|) && Distinct(train)
    && |mask| == |v|
    && (forall i :: 0 <= i < |v| ==> (mask[i] <==> i in train))
    && test == Complement(train, |v|) && InBounds(test, |v|)
    && (forall i :: i in test <==> 0 <= i < |v| && i !in train)
    && (forall k, l :: 0 <= k < l < |test| ==> test[k] < test[l])
    && |train| + |test| == |v|
    && (forall e :: multiset(Gather(v, train))[e] == Quota(f, multiset(v)[e]))
    && (forall e :: multiset(Gather(v, test))[e] == multiset(v)[e] - Quota(f, multiset(v)[e]))
  }

  /** `sampleAClass(classVector, fraction)`: sorts the rows by class, draws each
      class's quota inside its block, maps the draws back to the original rows and
      marks them. */
  method SampleAClass(v: seq<Value>, f: Fraction) returns (train: seq<nat>, test: seq<nat>, mask: seq<bool>)
    requires ValidFraction(f)
    ensures Stratified(v, f, train, test, mask)
  {
    var order := SortOrder(v, |v|);
    // the sorted copy: by SortedUnique, every sort of `v` under this order yields it
    var sorted := Gather(v, order);
    SortOrderSorted(v, |v|);
    var counts := SummaryAClass(sorted);
    SortedTally(sorted);
    var selected := PickPerClass(sorted, counts, f);
    train := SortBack(order, selected);
    TrainQuota(v, f, order, counts, selected);
    test, mask := Mark(|v|, train);
    ComplementSpec(train, |v|);
    PartitionSize(train, |v|);
    PartitionMultiset(v, train);
    forall e ensures multiset(Gather(v, test))[e] == multiset(v)[e] - Quota(f, multiset(v)[e]) {
      assert multiset(Gather(v, train))[e] + multiset(Gather(v, test))[e] == multiset(v)[e];
    }
  }

  /** Three classes of fifty rows each, as in the iris data set. */
  function Iris(): (v: seq<Value>)
    ensures |v| == 150
  {
    Repeat(Str("setosa"), 50) + Repeat(Str("versicolor"), 50) + Repeat(Str("virginica"), 50)
  }

  lemma {:induction false} IrisCounts(e: Value)
    ensures multiset(Iris())[e] ==
      if e == Str("setosa") || e == Str("versicolor") || e == Str("virginica") then 50 else 0
  {
    RepeatMultiset(Str("setosa"), 50, e);
    RepeatMultiset(Str("versicolor"), 50, e);
    RepeatMultiset(Str("virginica"), 50, e);
  }

  /** Forty rows of each iris class. */
  function IrisTrain(): (v: seq<Value>)
    ensures |v| == 120
  {
    Repeat(Str("setosa"), 40) + Repeat(Str("versicolor"), 40) + Repeat(Str("virginica"), 40)
  }

  lemma {:induction false} IrisTrainCounts(e: Value)
    ensures multiset(IrisTrain())[e] == Quota(DefaultFraction, multiset(Iris())[e])
  {
    IrisCounts(e);
    RepeatMultiset(Str("setosa"), 40, e);
    RepeatMultiset(Str("versicolor"), 40, e);
    RepeatMultiset(Str("virginica"), 40, e);
  }

  /** A training set holding each iris class at its 0.8 quota has 120 rows. */
  lemma {:induction false} IrisTrainSize(train: seq<nat>)
    requires InBounds(train, 150)
    requires forall e :: multiset(Gather(Iris(), train))[e] == Quota(DefaultFraction, multiset(Iris())[e])
    ensures |train| == 120
  {
    var g := Gather(Iris(), train);
    forall e ensures multiset(g)[e] == multiset(IrisTrain())[e] {
      IrisTrainCounts(e);
    }
    assert multiset(g) == multiset(IrisTrain());
    assert |g| == |multiset(g)|;
  }

  /** What every stratified 0.8 split of the iris classes looks like. */
  lemma {:induction false} IrisStratified(train: seq<nat>, test: seq<nat>, mask: seq<bool>)
    requires Stratified(Iris(), DefaultFraction, train, test, mask)
    ensures |train| == 120 && |test| == 30 && |mask| == 150
    ensures InBounds(test, 150)
    ensures multiset(Gather(Iris(), test))[Str("setosa")] == 10
    ensures multiset(Gather(Iris(), test))[Str("versicolor")] == 10
    ensures multiset(Gather(Iris(), test))[Str("virginica")] == 10
  {
    IrisTrainSize(train);
    assert Quota(DefaultFraction, 50) == 40;
    IrisCounts(Str("setosa"));
    IrisCounts(Str("versicolor"));
    IrisCounts(Str("virginica"));
  }

  /** With fraction 0.8 the iris classes split into 120 training and 30 test rows,
      10 test rows per class. */
  method IrisSplit() returns (train: seq<nat>, test: seq<nat>, mask: seq<bool>)
    ensures |train| == 120 && |test| == 30 && |mask| == 150
    ensures InBounds(test, 150)
    ensures multiset(Gather(Iris(), test))[Str("setosa")] == 10
    ensures multiset(Gather(Iris(), test))[Str("versicolor")] == 10
    ensures multiset(Gather(Iris(), test))[Str("virginica")] == 10
  {
    train, test, mask := SampleAClass(Iris(), DefaultFraction);
    IrisStratified(train, test, mask);
  }
}
