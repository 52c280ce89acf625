/** Sequence operations the table and the sampler are built from:
    `indexOf`, `splice(i, 1)`, index gathering and index complements. */
module Seqs {

  /** No element occurs twice. */
  predicate Distinct<T(==)>(s: seq<T>)
  {
    forall i, j :: 0 <= i < j < |s| ==> s[i] != s[j]
  }

  /** `s.indexOf(x)`: the first position holding `x`, or -1 when there is none. */
  function IndexOf<T(==)>(s: seq<T>, x: T): (r: int)
    ensures -1 <= r < |s|
    ensures r == -1 <==> x !in s
    ensures 0 <= r ==> s[r] == x && forall j :: 0 <= j < r ==> s[j] != x
  {
    if |s| == 0 then -1
    else if s[0] == x then 0
    else
      var k := IndexOf(s[1..], x);
      if k < 0 then -1 else k + 1
  }

  /** In a sequence without repetitions, the position of an element is the one it sits at. */
  lemma {:induction false} IndexOfDistinct<T>(s: seq<T>, i: nat)
    requires Distinct(s) && i < |s|
    ensures IndexOf(s, s[i]) == i
  {
  }

  /** `s.splice(i, 1)`: `s` without its element at position `i`. */
  function Delete<T>(s: seq<T>, i: nat): (r: seq<T>)
    requires i < |s|
    ensures |r| == |s| - 1
    ensures forall k :: 0 <= k < i ==> r[k] == s[k]
    ensures forall k :: i <= k < |r| ==> r[k] == s[k + 1]
  {
    s[..i] + s[i + 1..]
  }

  lemma {:induction false} DeleteDistinct<T>(s: seq<T>, i: nat)
    requires i < |s|
    ensures Distinct(s) ==> Distinct(Delete(s, i))
  {
  }

  /** Deleting from a sequence without repetitions takes away exactly one element. */
  lemma {:induction false} DeleteMembers<T>(s: seq<T>, i: nat)
    requires Distinct(s) && i < |s|
    ensures forall x :: x in Delete(s, i) <==> x in s && x != s[i]
  {
    var r := Delete(s, i);
    forall x | x in s && x != s[i] ensures x in r {
      var k :| 0 <= k < |s| && s[k] == x;
      if k < i { assert r[k] == x; } else { assert r[k - 1] == x; }
    }
  }

  /** `[...Array(n).keys()]`: the positions 0, 1, ..., n-1 in order. */
  function Range(n: nat): (r: seq<nat>)
    ensures |r| == n && Distinct(r)
    ensures forall k :: 0 <= k < n ==> r[k] == k
  {
    seq(n, k => k)
  }

  /** Every index of `idx` is a position of `v`. */
  predicate InBounds(idx: seq<nat>, n: nat)
  {
    forall k :: 0 <= k < |idx| ==> idx[k] < n
  }

  /** `idx.map((e) => v[e])`: the elements of `v` at the positions listed in `idx`. */
  function Gather<T>(v: seq<T>, idx: seq<nat>): (r: seq<T>)
    requires InBounds(idx, |v|)
    ensures |r| == |idx|
    ensures forall k :: 0 <= k < |idx| ==> r[k] == v[idx[k]]
  {
    seq(|idx|, k requires 0 <= k < |idx| => v[idx[k]])
  }

  lemma {:induction false} GatherAppend<T>(v: seq<T>, a: seq<nat>, b: seq<nat>)
    requires InBounds(a, |v|) && InBounds(b, |v|)
    ensures InBounds(a + b, |v|)
    ensures Gather(v, a + b) == Gather(v, a) + Gather(v, b)
  {
  }

  /** Gathering through a sequence of indices without repetitions keeps them apart. */
  lemma {:induction false} GatherDistinct(order: seq<nat>, idx: seq<nat>, n: nat)
    requires InBounds(order, n) && Distinct(order)
    requires InBounds(idx, |order|) && Distinct(idx)
    ensures InBounds(Gather(order, idx), n)
    ensures Distinct(Gather(order, idx))
  {
  }

  /** `n` copies of `x`. */
  function Repeat<T>(x: T, n: nat): (r: seq<T>)
    ensures |r| == n
    ensures forall k :: 0 <= k < n ==> r[k] == x
  {
    seq(n, _ => x)
  }

  lemma {:induction false} RepeatMultiset<T>(x: T, n: nat, e: T)
    ensures multiset(Repeat(x, n))[e] == if e == x then n else 0
  {
    if n > 0 {
      assert Repeat(x, n) == Repeat(x, n - 1) + [x];
      RepeatMultiset(x, n - 1, e);
    }
  }

  /** The positions below `n` that `t` does not hold, in ascending order. */
  function Complement(t: seq<nat>, n: nat): (r: seq<nat>)
    ensures InBounds(r, n)
  {
    if n == 0 then []
    else Complement(t, n - 1) + (if n - 1 in t then [] else [n - 1])
  }

  /** `Complement(t, n)` lists, in ascending order, exactly the positions below `n`
      missing from `t`. */
  lemma {:induction false} ComplementSpec(t: seq<nat>, n: nat)
    ensures forall i :: i in Complement(t, n) <==> 0 <= i < n && i !in t
    ensures forall k, l :: 0 <= k < l < |Complement(t, n)| ==>
              Complement(t, n)[k] < Complement(t, n)[l]
  {
    if n > 0 {
      ComplementSpec(t, n - 1);
      var c := Complement(t, n - 1);
      if n - 1 in t {
        assert Complement(t, n) == c;
      } else {
        assert Complement(t, n) == c + [n - 1];
        assert forall i :: i in c + [n - 1] <==> i in c || i == n - 1;
      }
    }
  }

  /** The positions below `n` that `t` holds, in ascending order. */
  function Members(t: seq<nat>, n: nat): (r: seq<nat>)
    ensures InBounds(r, n)
  {
    if n == 0 then []
    else Members(t, n - 1) + (if n - 1 in t then [n - 1] else [])
  }

  lemma {:induction false} GatherSnoc<T>(v: seq<T>, a: seq<nat>, x: nat)
    requires InBounds(a, |v|) && x < |v|
    ensures InBounds(a + [x], |v|)
    ensures Gather(v, a + [x]) == Gather(v, a) + [v[x]]
  {
  }

  lemma {:induction false} InBoundsWiden(idx: seq<nat>, n: nat, m: nat)
    requires InBounds(idx, n) && n <= m
    ensures InBounds(idx, m)
  {
  }

  /** Gathering one more position adds its element. */
  lemma {:induction false} GatherSnocMultiset<T>(v: seq<T>, a: seq<nat>, x: nat)
    requires InBounds(a, |v|) && x < |v|
    ensures InBounds(a + [x], |v|)
    ensures multiset(Gather(v, a + [x])) == multiset(Gather(v, a)) + multiset{v[x]}
  {
    GatherSnoc(v, a, x);
  }

  /** Position `n - 1` goes either to `Members` or to `Complement`. */
  lemma {:induction false} SplitStep<T>(v: seq<T>, t: seq<nat>, n: nat)
    requires 0 < n <= |v|
    ensures InBounds(Complement(t, n), |v|) && InBounds(Members(t, n), |v|)
    ensures InBounds(Complement(t, n - 1), |v|) && InBounds(Members(t, n - 1), |v|)
    ensures multiset(Gather(v, Members(t, n))) + multiset(Gather(v, Complement(t, n)))
         == multiset(Gather(v, Members(t, n - 1))) + multiset(Gather(v, Complement(t, n - 1)))
            + multiset{v[n - 1]}
  {
    var m, c := Members(t, n - 1), Complement(t, n - 1);
    InBoundsWiden(m, n - 1, |v|);
    InBoundsWiden(c, n - 1, |v|);
    InBoundsWiden(Members(t, n), n, |v|);
    InBoundsWiden(Complement(t, n), n, |v|);
    if n - 1 in t {
      assert Members(t, n) == m + [n - 1] && Complement(t, n) == c;
      SplitAdd(v, m, c, Members(t, n), Complement(t, n), n - 1);
    } else {
      assert Complement(t, n) == c + [n - 1] && Members(t, n) == m;
      SplitAdd(v, c, m, Complement(t, n), Members(t, n), n - 1);
    }
  }

  /** Adding a position to one side of a split adds its element to the whole. */
  lemma {:induction false} SplitAdd<T>(v: seq<T>, a: seq<nat>, b: seq<nat>, a': seq<nat>, b': seq<nat>, x: nat)
    requires InBounds(a, |v|) && InBounds(b, |v|) && x < |v|
    requires a' == a + [x] && b' == b
    ensures InBounds(a', |v|) && InBounds(b', |v|)
    ensures multiset(Gather(v, a')) + multiset(Gather(v, b'))
         == multiset(Gather(v, a)) + multiset(Gather(v, b)) + multiset{v[x]}
    ensures multiset(Gather(v, b')) + multiset(Gather(v, a'))
         == multiset(Gather(v, b)) + multiset(Gather(v, a)) + multiset{v[x]}
  {
    GatherSnocMultiset(v, a, x);
  }

  lemma {:induction false} PrefixMultiset<T>(v: seq<T>, n: nat)
    requires 0 < n <= |v|
    ensures multiset(v[..n]) == multiset(v[..n - 1]) + multiset{v[n - 1]}
  {
    assert v[..n] == v[..n - 1] + [v[n - 1]];
  }

  /** Every position below `n` is in exactly one of `Members` and `Complement`. */
  lemma {:induction false} SplitMultiset<T>(v: seq<T>, t: seq<nat>, n: nat)
    requires n <= |v|
    ensures InBounds(Complement(t, n), |v|) && InBounds(Members(t, n), |v|)
    ensures multiset(Gather(v, Members(t, n))) + multiset(Gather(v, Complement(t, n)))
         == multiset(v[..n])
  {
    InBoundsWiden(Members(t, n), n, |v|);
    InBoundsWiden(Complement(t, n), n, |v|);
    if n > 0 {
      InBoundsWiden(Members(t, n - 1), n - 1, |v|);
      InBoundsWiden(Complement(t, n - 1), n - 1, |v|);
      var before := multiset(Gather(v, Members(t, n - 1))) + multiset(Gather(v, Complement(t, n - 1)));
      assert multiset(Gather(v, Members(t, n))) + multiset(Gather(v, Complement(t, n)))
             == before + multiset{v[n - 1]} by {
        SplitStep(v, t, n);
      }
      assert before == multiset(v[..n - 1]) by {
        SplitMultiset(v, t, n - 1);
      }
      assert multiset(v[..n]) == multiset(v[..n - 1]) + multiset{v[n - 1]} by {
        PrefixMultiset(v, n);
      }
    }
  }

  /** Adding one position to `t` adds its element to what `Members` gathers. */
  lemma {:induction false} MembersSnoc<T>(v: seq<T>, t: seq<nat>, x: nat, n: nat)
    requires x !in t && x < |v| && n <= |v|
    ensures multiset(Gather(v, Members(t + [x], n)))
         == multiset(Gather(v, Members(t, n))) + (if x < n then multiset{v[x]} else multiset{})
  {
    if n > 0 {
      MembersSnoc(v, t, x, n - 1);
      var a, b := Members(t + [x], n - 1), Members(t, n - 1);
      var y := n - 1;
      assert y in t + [x] <==> y in t || y == x;
      if y in t {
        assert Gather(v, Members(t + [x], n)) == Gather(v, a) + [v[y]] by {
          assert Members(t + [x], n) == a + [y];
          GatherSnoc(v, a, y);
        }
        assert Gather(v, Members(t, n)) == Gather(v, b) + [v[y]] by {
          assert Members(t, n) == b + [y];
          GatherSnoc(v, b, y);
        }
      } else if y == x {
        assert Gather(v, Members(t + [x], n)) == Gather(v, a) + [v[y]] by {
          assert Members(t + [x], n) == a + [y];
          GatherSnoc(v, a, y);
        }
        assert Members(t, n) == b;
      } else {
        assert Members(t + [x], n) == a;
        assert Members(t, n) == b;
      }
    }
  }

  /** A sequence of distinct positions gathers the same elements as its ascending form. */
  lemma {:induction false} MembersMultiset<T>(v: seq<T>, t: seq<nat>)
    requires Distinct(t) && InBounds(t, |v|)
    ensures multiset(Gather(v, t)) == multiset(Gather(v, Members(t, |v|)))
  {
    if |t| > 0 {
      var t0, x := t[..|t| - 1], t[|t| - 1];
      assert t == t0 + [x];
      MembersMultiset(v, t0);
      MembersSnoc(v, t0, x, |v|);
      GatherSnoc(v, t0, x);
    } else {
      assert Members(t, |v|) == [] by { MembersEmpty(|v|); }
    }
  }

  lemma {:induction false} MembersEmpty(n: nat)
    ensures Members([], n) == []
  {
    if n > 0 { MembersEmpty(n - 1); }
  }

  /** Train-and-test split of positions: the elements gathered by `t` and by its
      complement make up `v` exactly. */
  lemma {:induction false} PartitionMultiset<T>(v: seq<T>, t: seq<nat>)
    requires Distinct(t) && InBounds(t, |v|)
    ensures InBounds(Complement(t, |v|), |v|)
    ensures multiset(Gather(v, t)) + multiset(Gather(v, Complement(t, |v|))) == multiset(v)
  {
    MembersMultiset(v, t);
    SplitMultiset(v, t, |v|);
    assert v[..|v|] == v;
  }

  /** The complement of `|t|` distinct positions below `n` has `n - |t|` elements. */
  lemma {:induction false} PartitionSize(t: seq<nat>, n: nat)
    requires Distinct(t) && InBounds(t, n)
    ensures |t| + |Complement(t, n)| == n
  {
    var v := Range(n);
    PartitionMultiset(v, t);
    calc {
      |t| + |Complement(t, n)|;
      |multiset(Gather(v, t))| + |multiset(Gather(v, Complement(t, n)))|;
      |multiset(v)|;
      n;
    }
  }

  lemma {:induction false} IndexOfSnoc<T>(s: seq<T>, y: T, x: T)
    ensures IndexOf(s + [y], x) == if x in s then IndexOf(s, x) else if x == y then |s| else -1
  {
    var r := IndexOf(s + [y], x);
    if x in s {
      var k := IndexOf(s, x);
      assert (s + [y])[k] == x;
      assert r <= k;
      assert r < |s| ==> s[r] == x;
    } else if x == y {
      assert (s + [y])[|s|] == x;
    }
  }

  lemma {:induction false} DeleteSnoc<T>(s: seq<T>, y: T, i: nat)
    requires i < |s|
    ensures Delete(s + [y], i) == Delete(s, i) + [y]
  {
  }

  /** The entries of `items` whose name, at the same position of `names`, is not in
      `drop`: what is left of a named sequence once every name of `drop` is removed. */
  function Keep<T>(names: seq<string>, items: seq<T>, drop: set<string>): (r: seq<T>)
    requires |names| == |items|
    ensures |r| <= |items|
  {
    if |names| == 0 then []
    else
      var m := |names| - 1;
      Keep(names[..m], items[..m], drop) + (if names[m] in drop then [] else [items[m]])
  }

  /** Every item kept sits beside a name kept, so the kept sequences stay aligned. */
  lemma {:induction false} KeepLength<T>(names: seq<string>, items: seq<T>, drop: set<string>)
    requires |names| == |items|
    ensures |Keep(names, items, drop)| == |Keep(names, names, drop)|
  {
    if |names| > 0 {
      var m := |names| - 1;
      KeepLength(names[..m], items[..m], drop);
    }
  }

  /** The names kept are exactly the names not dropped, still without repetitions. */
  lemma {:induction false} KeepNames(names: seq<string>, drop: set<string>)
    requires Distinct(names)
    ensures Distinct(Keep(names, names, drop))
    ensures forall x :: x in Keep(names, names, drop) <==> x in names && x !in drop
  {
    if |names| > 0 {
      var m := |names| - 1;
      var n0 := names[..m];
      KeepNames(n0, drop);
      assert names == n0 + [names[m]];
      assert forall x :: x in names <==> x in n0 || x == names[m];
    }
  }

  /** Nothing is dropped: every item is kept. */
  lemma {:induction false} KeepNothing<T>(names: seq<string>, items: seq<T>)
    requires |names| == |items|
    ensures Keep(names, items, {}) == items
  {
    if |names| > 0 {
      var m := |names| - 1;
      KeepNothing(names[..m], items[..m]);
      assert items == items[..m] + [items[m]];
    }
  }

  /** Removing the entry named `n` (found by `indexOf` among the names still there, and
      skipped when absent) from what is kept after dropping `drop` keeps what dropping
      `drop + {n}` keeps. */
  lemma {:induction false} KeepStep<T>(names: seq<string>, items: seq<T>, drop: set<string>, n: string)
    requires Distinct(names) && |names| == |items|
    ensures |Keep(names, items, drop)| == |Keep(names, names, drop)|
    ensures IndexOf(Keep(names, names, drop), n) < 0 ==>
              Keep(names, items, drop + {n}) == Keep(names, items, drop)
    ensures IndexOf(Keep(names, names, drop), n) >= 0 ==>
              Delete(Keep(names, items, drop), IndexOf(Keep(names, names, drop), n))
              == Keep(names, items, drop + {n})
  {
    KeepLength(names, items, drop);
    if |names| > 0 {
      var m := |names| - 1;
      var n0, i0, h := names[..m], items[..m], names[m];
      var k0, ki0 := Keep(n0, n0, drop), Keep(n0, i0, drop);
      KeepStep(n0, i0, drop, n);
      assert names[..m] == n0 && items[..m] == i0;
      if h in drop {
        assert Keep(names, names, drop) == k0;
        assert Keep(names, items, drop) == ki0;
        assert Keep(names, items, drop + {n}) == Keep(n0, i0, drop + {n});
      } else if h == n {
        KeepNames(n0, drop);
        assert n !in k0;
        assert Keep(names, names, drop) == k0 + [h];
        IndexOfSnoc(k0, h, n);
        assert Keep(names, items, drop) == ki0 + [items[m]];
        assert Keep(names, items, drop + {n}) == Keep(n0, i0, drop + {n});
        assert IndexOf(k0, n) < 0;
      } else {
        assert Keep(names, names, drop) == k0 + [h];
        IndexOfSnoc(k0, h, n);
        assert Keep(names, items, drop) == ki0 + [items[m]];
        assert Keep(names, items, drop + {n}) == Keep(n0, i0, drop + {n}) + [items[m]];
        var i := IndexOf(k0, n);
        if i >= 0 {
          DeleteSnoc(ki0, items[m], i);
        }
      }
    }
  }
}
