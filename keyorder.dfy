/** The order in which JavaScript lists the keys of the count object that
    `summaryAClass` builds, and what that order does to the per-class loop of
    `sampleAClass` (src/METADATA.js:239-258) when it differs from the sorted order. */
module KeyOrder {
  import opened Values
  import opened Seqs
  import opened Summary
  import opened Sampling

  /** The largest array index plus one: a key is an array index below this bound. */
  const IndexBound: nat := 4294967295

  predicate AllDigits(s: string)
  {
    forall k :: 0 <= k < |s| ==> '0' <= s[k] <= '9'
  }

  /** The number a string of decimal digits spells. */
  function DigitsValue(s: string): (n: nat)
    requires AllDigits(s)
  {
    if |s| == 0 then 0 else DigitsValue(s[..|s| - 1]) * 10 + (s[|s| - 1] - '0') as nat
  }

  /** A property key that is an array index: the canonical decimal text of an integer
      below 2^32 - 1, without leading zeros. */
  predicate IsIndexKey(s: string)
  {
    && |s| > 0 && AllDigits(s)
    && (|s| == 1 || s[0] != '0')
    && DigitsValue(s) < IndexBound
  }

  /** A count-object key as JavaScript stores it: the text of the value. */
  predicate IndexKey(x: Value)
  {
    IsIndexKey(ToText(x))
  }

  /** The numeric value of an array-index key (0 for any other key). */
  function KeyValue(x: Value): nat
  {
    if IndexKey(x) then DigitsValue(ToText(x)) else 0
  }

  /** Inserts an entry among entries kept in ascending order of `key`. */
  function InsertBy(c: Counts, e: (Value, nat), key: Value -> nat): (r: Counts)
    ensures |r| == |c| + 1
  {
    if |c| == 0 then [e]
    else if key(e.0) < key(c[0].0) then [e] + c
    else [c[0]] + InsertBy(c[1..], e, key)
  }

  /** Insertion adds the entry and loses none. */
  lemma {:induction false} InsertMultiset(c: Counts, e: (Value, nat), key: Value -> nat)
    ensures multiset(InsertBy(c, e, key)) == multiset(c) + multiset{e}
  {
    if |c| > 0 && key(e.0) >= key(c[0].0) {
      InsertMultiset(c[1..], e, key);
      assert c == [c[0]] + c[1..];
    }
  }

  /** Inserting an entry that passes `keep` among entries that pass it keeps them so. */
  lemma {:induction false} InsertKeeps(c: Counts, e: (Value, nat), key: Value -> nat, keep: Value -> bool)
    requires keep(e.0) && forall k :: 0 <= k < |c| ==> keep(c[k].0)
    ensures forall k :: 0 <= k < |InsertBy(c, e, key)| ==> keep(InsertBy(c, e, key)[k].0)
  {
    if |c| > 0 && key(e.0) >= key(c[0].0) {
      InsertKeeps(c[1..], e, key, keep);
    }
  }

  /** Entries in ascending order of `key`. */
  predicate AscendingBy(c: Counts, key: Value -> nat)
  {
    forall k, l :: 0 <= k < l < |c| ==> key(c[k].0) <= key(c[l].0)
  }

  /** Inserting an entry into entries in ascending order keeps them in ascending order. */
  lemma {:induction false} InsertAscending(c: Counts, e: (Value, nat), key: Value -> nat)
    requires AscendingBy(c, key)
    ensures AscendingBy(InsertBy(c, e, key), key)
  {
    if |c| > 0 && key(e.0) >= key(c[0].0) {
      var t := c[1..];
      var least := key(c[0].0);
      InsertAscending(t, e, key);
      InsertKeeps(t, e, key, x => key(x) >= least);
      var r := InsertBy(c, e, key);
      assert r == [c[0]] + InsertBy(t, e, key);
      forall k, l | 0 <= k < l < |r| ensures key(r[k].0) <= key(r[l].0) {
        if k == 0 {
          assert r[l] == InsertBy(t, e, key)[l - 1];
        } else {
          assert r[k] == InsertBy(t, e, key)[k - 1] && r[l] == InsertBy(t, e, key)[l - 1];
        }
      }
    }
  }

  /** The entries whose keys pass `keep`, in ascending order of `key`. */
  function SortedPart(c: Counts, keep: Value -> bool, key: Value -> nat): (r: Counts)
    ensures forall k :: 0 <= k < |r| ==> keep(r[k].0)
    ensures AscendingBy(r, key)
  {
    if |c| == 0 then []
    else
      var p := SortedPart(c[..|c| - 1], keep, key);
      if keep(c[|c| - 1].0) then
        InsertKeeps(p, c[|c| - 1], key, keep);
        InsertAscending(p, c[|c| - 1], key);
        InsertBy(p, c[|c| - 1], key)
      else p
  }

  /** The other entries, in the order they were created. */
  function RestPart(c: Counts, keep: Value -> bool): (r: Counts)
    ensures forall k :: 0 <= k < |r| ==> !keep(r[k].0)
  {
    if |c| == 0 then []
    else if keep(c[|c| - 1].0) then RestPart(c[..|c| - 1], keep)
    else RestPart(c[..|c| - 1], keep) + [c[|c| - 1]]
  }

  /** Filtering a concatenation filters each part. */
  lemma {:induction false} RestPartConcat(a: Counts, b: Counts, keep: Value -> bool)
    ensures RestPart(a + b, keep) == RestPart(a, keep) + RestPart(b, keep)
  {
    if |b| == 0 {
      assert a + b == a;
    } else {
      var b0 := b[..|b| - 1];
      RestPartConcat(a, b0, keep);
      assert (a + b)[..|a + b| - 1] == a + b0;
    }
  }

  /** Filtering entries that all fail `keep` leaves them as they are. */
  lemma {:induction false} RestPartAll(c: Counts, keep: Value -> bool)
    requires forall k :: 0 <= k < |c| ==> !keep(c[k].0)
    ensures RestPart(c, keep) == c
  {
    if |c| > 0 {
      RestPartAll(c[..|c| - 1], keep);
    }
  }

  /** Filtering entries that all pass `keep` leaves nothing. */
  lemma {:induction false} RestPartNone(c: Counts, keep: Value -> bool)
    requires forall k :: 0 <= k < |c| ==> keep(c[k].0)
    ensures RestPart(c, keep) == []
  {
    if |c| > 0 {
      RestPartNone(c[..|c| - 1], keep);
    }
  }

  /** The entries that pass `keep` come first, in ascending order of `key`; filtering
      them out leaves the other entries in their original order. */
  lemma {:induction false} PartsOrder(c: Counts, keep: Value -> bool, key: Value -> nat)
    ensures var r := SortedPart(c, keep, key) + RestPart(c, keep);
      && (forall k, l :: 0 <= k < l < |r| && !keep(r[k].0) ==> !keep(r[l].0))
      && (forall k, l :: 0 <= k < l < |r| && keep(r[l].0) ==> key(r[k].0) <= key(r[l].0))
      && RestPart(r, keep) == RestPart(c, keep)
  {
    var sorted := SortedPart(c, keep, key);
    var rest := RestPart(c, keep);
    RestPartConcat(sorted, rest, keep);
    RestPartNone(sorted, keep);
    RestPartAll(rest, keep);
  }

  /** `Object.keys(counts)` with `Object.values(counts)`: array-index keys first, in
      ascending numeric order, then the other keys in the order they were created. */
  function ObjectKeys(c: Counts): (r: Counts)
    ensures forall k, l :: 0 <= k < l < |r| && !IndexKey(r[k].0) ==> !IndexKey(r[l].0)
    ensures forall k, l :: 0 <= k < l < |r| && IndexKey(r[l].0) ==> KeyValue(r[k].0) <= KeyValue(r[l].0)
    ensures RestPart(r, IndexKey) == RestPart(c, IndexKey)
  {
    PartsOrder(c, IndexKey, KeyValue);
    SortedPart(c, IndexKey, KeyValue) + RestPart(c, IndexKey)
  }

  /** Splitting the entries in two parts loses none and adds none. */
  lemma {:induction false} PartsPermute(c: Counts, keep: Value -> bool, key: Value -> nat)
    ensures multiset(SortedPart(c, keep, key)) + multiset(RestPart(c, keep)) == multiset(c)
  {
    if |c| > 0 {
      var p := c[..|c| - 1];
      var x := c[|c| - 1];
      PartsPermute(p, keep, key);
      assert multiset(c) == multiset(p) + multiset{x} by {
        assert c == p + [x];
      }
      if keep(x.0) {
        assert SortedPart(c, keep, key) == InsertBy(SortedPart(p, keep, key), x, key);
        assert RestPart(c, keep) == RestPart(p, keep);
        InsertMultiset(SortedPart(p, keep, key), x, key);
      } else {
        assert SortedPart(c, keep, key) == SortedPart(p, keep, key);
        assert RestPart(c, keep) == RestPart(p, keep) + [x];
      }
    }
  }

  /** `ObjectKeys` only rearranges the entries of the count object. */
  lemma {:induction false} ObjectKeysPermutes(c: Counts)
    ensures multiset(ObjectKeys(c)) == multiset(c)
  {
    PartsPermute(c, IndexKey, KeyValue);
  }

  /** The number of draws of all classes in `draws`. */
  function Drawn(draws: seq<seq<nat>>): nat
  {
    if |draws| == 0 then 0 else Drawn(draws[..|draws| - 1]) + |draws[|draws| - 1]|
  }

  /** The draws before class `i`, and class `i`'s own, fit in the draws of all classes. */
  lemma {:induction false} DrawnPrefix(draws: seq<seq<nat>>, i: nat)
    requires i < |draws|
    ensures Drawn(draws[..i]) + |draws[i]| <= Drawn(draws)
  {
    var n := |draws| - 1;
    if i < n {
      DrawnPrefix(draws[..n], i);
      assert draws[..n][..i] == draws[..i];
    } else {
      assert draws[..i] == draws[..n];
    }
  }

  /** Draw `k` of class `i` sits in `r` after the draws of the classes before it, moved
      up by the counts of those classes. */
  predicate PlacedAt(c: Counts, draws: seq<seq<nat>>, r: seq<nat>, i: nat, k: nat)
    requires i < |c| == |draws| && k < |draws[i]|
  {
    Drawn(draws[..i]) + k < |r| && r[Drawn(draws[..i]) + k] == Total(c[..i]) + draws[i][k]
  }

  /** Every draw of every class is placed so in `r`. */
  predicate Places(c: Counts, draws: seq<seq<nat>>, r: seq<nat>)
    requires |draws| == |c|
  {
    forall i: nat, k: nat :: i < |c| && k < |draws[i]| ==> PlacedAt(c, draws, r, i, k)
  }

  /** A draw of a class before the last one is where the placed draws of those classes
      put it. */
  lemma {:induction false} PlacedBefore(c: Counts, draws: seq<seq<nat>>, front: seq<nat>, i: nat, k: nat)
    requires |draws| == |c| > 0 && i < |c| - 1 && k < |draws[i]|
    requires Places(c[..|c| - 1], draws[..|c| - 1], front)
    ensures Drawn(draws[..i]) + k < |front| && front[Drawn(draws[..i]) + k] == Total(c[..i]) + draws[i][k]
  {
    var n := |c| - 1;
    assert PlacedAt(c[..n], draws[..n], front, i, k);
    assert draws[..n][..i] == draws[..i] && c[..n][..i] == c[..i] && draws[..n][i] == draws[i];
  }

  /** Appending the last class's moved draws to the placed draws of the others places
      all of them. */
  lemma {:induction false} PlacesStep(c: Counts, draws: seq<seq<nat>>, front: seq<nat>)
    requires |draws| == |c| > 0
    requires |front| == Drawn(draws[..|c| - 1])
    requires Places(c[..|c| - 1], draws[..|c| - 1], front)
    ensures Places(c, draws, front + Offset(draws[|c| - 1], Total(c[..|c| - 1])))
  {
    var n := |c| - 1;
    var r := front + Offset(draws[n], Total(c[..n]));
    forall i: nat, k: nat | i < |c| && k < |draws[i]|
      ensures PlacedAt(c, draws, r, i, k)
    {
      if i < n {
        PlacedBefore(c, draws, front, i, k);
      } else {
        assert draws[..i] == draws[..n] && c[..i] == c[..n];
      }
    }
  }

  /** Every class's local draws lie below that class's count. */
  predicate WithinCounts(c: Counts, draws: seq<seq<nat>>)
    requires |draws| == |c|
  {
    forall i :: 0 <= i < |c| ==> InBounds(draws[i], c[i].1)
  }

  /** When every class's draws lie within its count, appending the last class's moved
      draws to the others keeps every position below the total. */
  lemma {:induction false} BoundsStep(c: Counts, draws: seq<seq<nat>>, front: seq<nat>)
    requires |draws| == |c| > 0
    requires WithinCounts(c[..|c| - 1], draws[..|c| - 1]) ==> InBounds(front, Total(c[..|c| - 1]))
    ensures WithinCounts(c, draws) ==>
      InBounds(front + Offset(draws[|c| - 1], Total(c[..|c| - 1])), Total(c))
  {
    var n := |c| - 1;
    if WithinCounts(c, draws) {
      assert forall i :: 0 <= i < n ==> InBounds(draws[..n][i], c[..n][i].1) by {
        forall i | 0 <= i < n ensures InBounds(draws[..n][i], c[..n][i].1) {
          assert draws[..n][i] == draws[i] && c[..n][i] == c[i];
        }
      }
      InBoundsWiden(front, Total(c[..n]), Total(c));
    }
  }

  /** The per-class loop of `sampleAClass` as written: class `i` of the count object's
      key order receives the block that starts at the sum of the counts before it,
      and its local draws are moved into that block, class after class. */
  function SelectBlocks(c: Counts, draws: seq<seq<nat>>): (r: seq<nat>)
    requires |draws| == |c|
    ensures |r| == Drawn(draws)
    ensures Places(c, draws, r)
    ensures WithinCounts(c, draws) ==> InBounds(r, Total(c))
  {
    if |c| == 0 then []
    else
      var n := |c| - 1;
      var front := SelectBlocks(c[..n], draws[..n]);
      BoundsStep(c, draws, front);
      PlacesStep(c, draws, front);
      front + Offset(draws[n], Total(c[..n]))
  }

  /** The class vector of the counterexample: already in sorted order, since "10"
      comes before "9" character by character. */
  const TenNineNine: seq<Value> := [Str("10"), Str("9"), Str("9")]

  lemma {:induction false} TenNineNineSorted()
    ensures Sorted(TenNineNine)
  {
    assert StrLess("10", "9");
  }

  lemma {:induction false} TallyOne()
    ensures Tally([Str("10")]) == [(Str("10"), 1)]
  {
    TallySnoc([Str("10")]);
    assert [Str("10")][..0] == [];
  }

  lemma {:induction false} TallyTwo()
    ensures Tally([Str("10"), Str("9")]) == [(Str("10"), 1), (Str("9"), 1)]
  {
    TallyOne();
    TallySnoc([Str("10"), Str("9")]);
    assert [Str("10"), Str("9")][..1] == [Str("10")];
    assert Keys([(Str("10"), 1)]) == [Str("10")];
    assert IndexOf(Keys([(Str("10"), 1)]), Str("9")) == -1;
  }

  lemma {:induction false} TenNineNineTally()
    ensures Tally(TenNineNine) == [(Str("10"), 1), (Str("9"), 2)]
  {
    var c2: Counts := [(Str("10"), 1), (Str("9"), 1)];
    TallyTwo();
    TallySnoc(TenNineNine);
    assert TenNineNine[..2] == [Str("10"), Str("9")];
    assert Keys(c2) == [Str("10"), Str("9")];
    BumpAt(c2, Str("9"), 1);
  }

  /** Both keys of the counterexample are array indices: 10 and 9. */
  lemma {:induction false} TenNineNineKeyValues()
    ensures IndexKey(Str("10")) && IndexKey(Str("9"))
    ensures KeyValue(Str("10")) == 10 && KeyValue(Str("9")) == 9
  {
    assert DigitsValue("1") == 1 by {
      assert "1"[..0] == "";
    }
    assert DigitsValue("10") == 10 by {
      assert "10"[..1] == "1";
    }
    assert DigitsValue("9") == 9 by {
      assert "9"[..0] == "";
    }
  }

  lemma {:induction false} TenNineNineObjectKeys()
    ensures ObjectKeys([(Str("10"), 1), (Str("9"), 2)]) == [(Str("9"), 2), (Str("10"), 1)]
  {
    var c: Counts := [(Str("10"), 1), (Str("9"), 2)];
    TenNineNineKeyValues();
    assert c[..1] == [(Str("10"), 1)];
    assert SortedPart(c[..1], IndexKey, KeyValue) == [(Str("10"), 1)] by {
      assert |c[..1][..0]| == 0;
    }
    assert SortedPart(c, IndexKey, KeyValue) == [(Str("9"), 2), (Str("10"), 1)];
    assert RestPart(c[..1], IndexKey) == [] by {
      assert |c[..1][..0]| == 0;
    }
    assert RestPart(c, IndexKey) == [];
  }

  /** A class vector already in sorted order is its own sorted copy. */
  lemma {:induction false} SortedCopyIdentity(v: seq<Value>)
    requires Sorted(v)
    ensures Gather(v, SortOrder(v, |v|)) == v
  {
    SortOrderSorted(v, |v|);
    SortOrderMultiset(v, |v|);
    assert v[..|v|] == v;
    SortedUnique(Gather(v, SortOrder(v, |v|)), v);
  }

  /** The blocks of the counterexample: class "9" first, at position 0. */
  lemma {:induction false} TenNineNineBlocks(c: Counts)
    requires c == [(Str("9"), 2), (Str("10"), 1)]
    ensures SelectBlocks(c, [[0], []]) == [0]
    ensures Expand(c)[0] == Str("9")
  {
    assert c[..1] == [(Str("9"), 2)];
    assert |c[..1][..0]| == 0;
    assert Total(c[..1]) == 2;
    assert SelectBlocks(c[..1], [[0], []][..1]) == [0] by {
      assert [[0], []][..1] == [[0]];
      assert [[0]][..0] == [];
      assert Offset([0], 0) == [0];
    }
    assert Offset([], 2) == [];
    assert Expand(c[..1]) == Repeat(Str("9"), 2);
  }

  /** The default fraction gives class "9" one training row and class "10" none. */
  lemma {:induction false} TenNineNineQuotas()
    ensures Quota(DefaultFraction, 2) == 1 && Quota(DefaultFraction, 1) == 0
  {
    assert Quota(Fraction(4, 5), 2) == 8 / 5;
    assert Quota(Fraction(4, 5), 1) == 4 / 5;
  }

  /** The counterexample. `TenNineNine` is its own sorted copy, and summaryAClass creates
      the key "10" before "9"; but JavaScript lists the array-index key 9 before 10.
      Class "9" (two rows, quota 1) is therefore given the block that starts at
      position 0, and its legal draw 0 lands on the row labelled "10": the training
      set holds one "10", whose quota is 0, and no "9", whose quota is 1. */
  lemma {:induction false} AsWrittenMisplacesClass()
    ensures TenNineNine[SortOrder(TenNineNine, 3)[0]] == Str("10")
    ensures ObjectKeys(Tally(TenNineNine)) == [(Str("9"), 2), (Str("10"), 1)]
    ensures Quota(DefaultFraction, 2) == 1 && Quota(DefaultFraction, 1) == 0
    ensures SelectBlocks(ObjectKeys(Tally(TenNineNine)), [[0], []]) == [0]
    ensures Expand(ObjectKeys(Tally(TenNineNine))) != TenNineNine
  {
    assert ObjectKeys(Tally(TenNineNine)) == [(Str("9"), 2), (Str("10"), 1)] by {
      TenNineNineTally();
      TenNineNineObjectKeys();
    }
    assert TenNineNine[SortOrder(TenNineNine, 3)[0]] == Str("10") by {
      TenNineNineSorted();
      SortedCopyIdentity(TenNineNine);
      assert Gather(TenNineNine, SortOrder(TenNineNine, 3))[0] == TenNineNine[0];
    }
    TenNineNineQuotas();
    TenNineNineBlocks(ObjectKeys(Tally(TenNineNine)));
  }
}
