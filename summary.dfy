/** Class vectors: the frequency count `summaryAClass` and the column extraction `get`
    of src/METADATA.js. */
module Summary {
  import opened Values
  import opened Seqs
  import opened Table

  /** The count object: each distinct value with its number of occurrences, in the
      order the values were first met. */
  type Counts = seq<(Value, nat)>

  /** `Object.keys(counts)`. */
  function Keys(c: Counts): (r: seq<Value>)
    ensures |r| == |c|
    ensures forall k :: 0 <= k < |c| ==> r[k] == c[k].0
  {
    seq(|c|, k requires 0 <= k < |c| => c[k].0)
  }

  /** The sum of all counts. */
  function Total(c: Counts): nat
  {
    if |c| == 0 then 0 else Total(c[..|c| - 1]) + c[|c| - 1].1
  }

  /** Replacing one count changes the sum by the difference. */
  lemma {:induction false} TotalUpdate(c: Counts, k: nat, n: nat)
    requires k < |c|
    ensures Total(c[k := (c[k].0, n)]) == Total(c) - c[k].1 + n
  {
    var m := |c| - 1;
    var u := c[k := (c[k].0, n)];
    if k < m {
      assert u[..m] == c[..m][k := (c[k].0, n)];
      TotalUpdate(c[..m], k, n);
    } else {
      assert u[..m] == c[..m];
    }
  }

  /** `counts[x] = (counts[x] || 0) + 1`. */
  function Bump(c: Counts, x: Value): (r: Counts)
  {
    var k := IndexOf(Keys(c), x);
    if k < 0 then c + [(x, 1)] else c[k := (x, c[k].1 + 1)]
  }

  /** `summaryAClass(v)`: the counts after scanning `v` from left to right. */
  function Tally(v: seq<Value>): (c: Counts)
  {
    if |v| == 0 then [] else Bump(Tally(v[..|v| - 1]), v[|v| - 1])
  }

  /** A scan step over a value already counted at `k` raises that count. */
  lemma {:induction false} BumpAt(c: Counts, x: Value, k: nat)
    requires k < |c| && IndexOf(Keys(c), x) == k
    ensures Bump(c, x) == c[k := (x, c[k].1 + 1)]
  {
  }

  /** A scan step adds a key exactly when the value is new. */
  lemma {:induction false} BumpKeys(c: Counts, x: Value)
    ensures Keys(Bump(c, x)) == if x in Keys(c) then Keys(c) else Keys(c) + [x]
  {
  }

  /** A scan step adds one to the count of its value and to no other count. */
  lemma {:induction false} BumpCount(c: Counts, x: Value, k: nat)
    requires Distinct(Keys(c)) && k < |Bump(c, x)|
    ensures Bump(c, x)[k].1 == (if k < |c| then c[k].1 else 0) + (if Bump(c, x)[k].0 == x then 1 else 0)
  {
    var i := IndexOf(Keys(c), x);
    if i >= 0 && k != i {
      assert Keys(c)[k] != x;
    }
  }

  lemma {:induction false} BumpTotal(c: Counts, x: Value)
    ensures Total(Bump(c, x)) == Total(c) + 1
  {
    var i := IndexOf(Keys(c), x);
    if i < 0 {
      assert (c + [(x, 1)])[..|c|] == c;
    } else {
      assert c[i].0 == Keys(c)[i] == x;
      assert Bump(c, x) == c[i := (c[i].0, c[i].1 + 1)];
      TotalUpdate(c, i, c[i].1 + 1);
    }
  }

  lemma {:induction false} TallySnoc(v: seq<Value>)
    requires |v| > 0
    ensures Tally(v) == Bump(Tally(v[..|v| - 1]), v[|v| - 1])
  {
  }

  /** The keys of the count object are the distinct values of `v`, each once. */
  lemma {:induction false} TallyKeys(v: seq<Value>)
    ensures Distinct(Keys(Tally(v)))
    ensures forall x :: x in Keys(Tally(v)) <==> x in v
  {
    if |v| > 0 {
      var v0, x := v[..|v| - 1], v[|v| - 1];
      assert v == v0 + [x];
      TallyKeys(v0);
      TallySnoc(v);
      BumpKeys(Tally(v0), x);
    }
  }

  /** Each count is the number of occurrences of its key. */
  lemma {:induction false} TallyMultiplicity(v: seq<Value>)
    ensures forall k :: 0 <= k < |Tally(v)| ==> Tally(v)[k].1 == multiset(v)[Tally(v)[k].0]
  {
    if |v| > 0 {
      var v0, x := v[..|v| - 1], v[|v| - 1];
      assert v == v0 + [x];
      TallyMultiplicity(v0);
      TallyKeys(v0);
      TallySnoc(v);
      var c0, c := Tally(v0), Tally(v);
      BumpKeys(c0, x);
      forall k | 0 <= k < |c| ensures c[k].1 == multiset(v)[c[k].0] {
        BumpCount(c0, x, k);
        if k >= |c0| {
          assert c[k].0 == x && x !in Keys(c0) && x !in v0;
        } else {
          assert c[k].0 == c0[k].0;
        }
      }
    }
  }

  /** The counts add up to the length of the vector. */
  lemma {:induction false} TallyTotal(v: seq<Value>)
    ensures Total(Tally(v)) == |v|
  {
    if |v| > 0 {
      TallyTotal(v[..|v| - 1]);
      TallySnoc(v);
      BumpTotal(Tally(v[..|v| - 1]), v[|v| - 1]);
    }
  }

  /** The count object has one key per distinct value of `v`, each counting that
      value's occurrences, so the counts add up to `|v|`. */
  lemma {:induction false} TallyCounts(v: seq<Value>)
    ensures Distinct(Keys(Tally(v)))
    ensures forall x :: x in Keys(Tally(v)) <==> x in v
    ensures forall k :: 0 <= k < |Tally(v)| ==> Tally(v)[k].1 == multiset(v)[Tally(v)[k].0]
    ensures Total(Tally(v)) == |v|
  {
    TallyKeys(v);
    TallyMultiplicity(v);
    TallyTotal(v);
  }

  /** Keys come in the order of the values' first occurrences in `v`. */
  lemma {:induction false} TallyOrder(v: seq<Value>)
    ensures forall k, l :: 0 <= k < l < |Tally(v)| ==>
              IndexOf(v, Tally(v)[k].0) < IndexOf(v, Tally(v)[l].0)
  {
    if |v| > 0 {
      var v0, x := v[..|v| - 1], v[|v| - 1];
      assert v == v0 + [x];
      TallyOrder(v0);
      TallyKeys(v0);
      TallySnoc(v);
      var c0, c := Tally(v0), Tally(v);
      BumpKeys(c0, x);
      forall k | 0 <= k < |c0| ensures c[k].0 == c0[k].0 && IndexOf(v, c0[k].0) == IndexOf(v0, c0[k].0) {
        assert Keys(c)[k] == Keys(c0)[k];
        assert c0[k].0 in Keys(c0);
        IndexOfSnoc(v0, x, c0[k].0);
      }
      if x !in Keys(c0) {
        IndexOfSnoc(v0, x, x);
        assert |c| == |c0| + 1 && c[|c0|].0 == x;
      }
    }
  }

  /** A value occurring once in `v` occurs once in the multiset of `v`. */
  lemma {:induction false} DistinctMultiplicity(v: seq<Value>, x: Value)
    requires Distinct(v) && x in v
    ensures multiset(v)[x] == 1
  {
    var v0, y := v[..|v| - 1], v[|v| - 1];
    assert v == v0 + [y];
    if x == y {
      assert x !in v0;
    } else {
      DistinctMultiplicity(v0, x);
    }
  }

  /** For a vector of distinct values every count is 1. */
  lemma {:induction false} TallyDistinct(v: seq<Value>)
    requires Distinct(v)
    ensures |Tally(v)| == |v|
    ensures forall k :: 0 <= k < |Tally(v)| ==> Tally(v)[k].1 == 1
  {
    TallyKeys(v);
    TallyMultiplicity(v);
    TallyTotal(v);
    var c := Tally(v);
    forall k | 0 <= k < |c| ensures c[k].1 == 1 {
      assert c[k].0 in Keys(c);
      DistinctMultiplicity(v, c[k].0);
    }
    TotalOfOnes(c);
  }

  lemma {:induction false} TotalOfOnes(c: Counts)
    requires forall k :: 0 <= k < |c| ==> c[k].1 == 1
    ensures Total(c) == |c|
  {
    if |c| > 0 { TotalOfOnes(c[..|c| - 1]); }
  }

  /** `summaryAClass`: one pass over the vector, counting into `counts`. */
  method SummaryAClass(v: seq<Value>) returns (counts: Counts)
    ensures counts == Tally(v)
    ensures Distinct(Keys(counts))
    ensures forall x :: x in Keys(counts) <==> x in v
    ensures forall k :: 0 <= k < |counts| ==> counts[k].1 == multiset(v)[counts[k].0]
  {
    counts := [];
    var i := 0;
    while i < |v|
      invariant 0 <= i <= |v|
      invariant counts == Tally(v[..i])
    {
      var x := v[i];
      ghost var before := counts;
      var k := IndexOf(Keys(counts), x);
      if k < 0 {
        counts := counts + [(x, 1)];
      } else {
        counts := counts[k := (x, counts[k].1 + 1)];
      }
      assert counts == Bump(before, x);
      assert Tally(v[..i + 1]) == Bump(Tally(v[..i]), x) by {
        assert v[..i + 1][..i] == v[..i];
      }
      i := i + 1;
    }
    assert v[..i] == v;
    TallyCounts(v);
  }

  /** The output formats of `get`. */
  datatype Format = Vector | Factor | Matrix

  /** The encoded column: the values themselves, their class indices, or the class
      indices as an `nObs` by 1 matrix. */
  datatype Encoded =
    | Labels(labels: seq<Value>)
    | Factors(codes: seq<int>)
    | Column(rows: nat, columns: nat, data: seq<int>)

  /** What `get` returns. */
  datatype ClassView = ClassView(
    header: string, groups: seq<Value>, summary: Counts, nObs: nat, nClass: nat, values: Encoded)

  /** `classVector.map((x) => groupIDs.indexOf(x))`. */
  function Factorize(v: seq<Value>, groups: seq<Value>): (r: seq<int>)
    ensures |r| == |v|
    ensures forall i :: 0 <= i < |v| && v[i] in groups ==> 0 <= r[i] < |groups| && groups[r[i]] == v[i]
  {
    seq(|v|, i requires 0 <= i < |v| => IndexOf(groups, v[i]))
  }

  /** Counting the factor encoding counts the groups: code `k` occurs as often as
      group `k` does in the vector. */
  lemma {:induction false} FactorCounts(v: seq<Value>, groups: seq<Value>, k: nat)
    requires Distinct(groups) && k < |groups|
    ensures multiset(Factorize(v, groups))[k] == multiset(v)[groups[k]]
  {
    if |v| > 0 {
      var v0, x := v[..|v| - 1], v[|v| - 1];
      assert v == v0 + [x];
      FactorCounts(v0, groups, k);
      assert Factorize(v, groups) == Factorize(v0, groups) + [IndexOf(groups, x)];
      IndexOfDistinct(groups, k);
      assert IndexOf(groups, x) == k <==> x == groups[k];
    }
  }

  /** What `get` builds from the column it found: the column's classes and their
      counts, and the column encoded as asked. */
  function View(header: string, col: seq<Value>, format: Format): (g: ClassView)
    ensures g.header == header
    ensures g.nObs == |col|
    ensures g.groups == Keys(g.summary)
    ensures g.nClass == |g.groups|
    ensures Distinct(g.groups)
    ensures forall x :: x in g.groups <==> x in col
    ensures forall k :: 0 <= k < |g.summary| ==> g.summary[k].1 == multiset(col)[g.summary[k].0]
    ensures Total(g.summary) == |col|
    ensures format == Vector ==> g.values == Labels(col)
    ensures format == Factor ==> g.values.Factors? && |g.values.codes| == |col|
    ensures format == Matrix ==>
      g.values.Column? && g.values.rows == |col| && g.values.columns == 1 && |g.values.data| == |col|
    ensures format == Factor ==>
      forall i :: 0 <= i < |col| ==> 0 <= g.values.codes[i] < g.nClass && g.groups[g.values.codes[i]] == col[i]
    ensures format == Matrix ==>
      forall i :: 0 <= i < |col| ==> 0 <= g.values.data[i] < g.nClass && g.groups[g.values.data[i]] == col[i]
  {
    var counts := Tally(col);
    TallyCounts(col);
    var groups := Keys(counts);
    var encoded := match format
      case Factor => Factors(Factorize(col, groups))
      case Matrix => Column(|col|, 1, Factorize(col, groups))
      case Vector => Labels(col);
    ClassView(header, groups, counts, |col|, |groups|, encoded)
  }

  /** `get(header, {format})`. A header the table does not have leads the source to
      read a column that does not exist; here it is the error `NoSuchColumn`. */
  function Extract(t: Table, header: string, format: Format): (r: Result<ClassView, Error>)
    ensures r.Success? <==> header in t.headers && IndexOf(t.headers, header) < |t.values|
    ensures r.Failure? ==> r.error == NoSuchColumn
    ensures r.Success? ==> r.value == View(header, t.values[IndexOf(t.headers, header)], format)
  {
    var index := IndexOf(t.headers, header);
    if index < 0 || index >= |t.values| then Failure(NoSuchColumn)
    else Success(View(header, t.values[index], format))
  }
}
