/** The removal scenario of the source's test suite ('test remove row / column by
    index'), worked through the model one step at a time. */
module Scenarios {
  import opened Values
  import opened Seqs
  import opened Table
  import opened Metadata

  const C1: seq<Value> := [Str("1"), Str("2"), Str("3")]
  const C2: seq<Value> := [Str("4"), Str("5"), Str("6")]
  const C3: seq<Value> := [Str("7"), Str("8"), Str("9")]
  const Names: seq<string> := ["1", "2", "3"]
  const Positions: seq<Value> := [Num(0), Num(2)]

  /** Three columns of three rows with the default names. */
  const Start := Table(Names, Names, [C1, C2, C3])
  /** `Start` without rows "1" and "3". */
  const MiddleRow := Table(Names, ["2"], [[Str("2")], [Str("5")], [Str("8")]])
  /** `MiddleRow` without columns "1" and "3". */
  const MiddleCell := Table(["2"], ["2"], [[Str("5")]])

  lemma {:induction false} ResolveExample()
    ensures Resolve(Positions, Names) == [Some("1"), Some("3")]
  {
  }

  lemma {:induction false} DropRowsTwo(t: Table, a: Option<string>, b: Option<string>)
    ensures DropRows(t, [a, b]) == DropRow(DropRow(t, a), b)
  {
    assert [a, b][..1] == [a] && [a][..0] == [];
    assert DropRows(t, [a]) == DropRow(DropRows(t, []), a);
    assert DropRows(t, [a, b]) == DropRow(DropRows(t, [a]), b);
  }

  lemma {:induction false} DropColumnsTwo(t: Table, a: Option<string>, b: Option<string>)
    ensures DropColumns(t, [a, b]) == DropColumn(DropColumn(t, a), b)
  {
    assert [a, b][..1] == [a] && [a][..0] == [];
    assert DropColumns(t, [a]) == DropColumn(DropColumns(t, []), a);
    assert DropColumns(t, [a, b]) == DropColumn(DropColumns(t, [a]), b);
  }

  lemma {:induction false} FirstRowExample()
    ensures DropRow(Start, Some("1")) == Table(Names, ["2", "3"], [C1[1..], C2[1..], C3[1..]])
  {
    assert IndexOf(Names, "1") == 0;
    assert Delete(Names, 0) == ["2", "3"];
    SpliceFirst([C1, C2, C3]);
  }

  lemma {:induction false} SpliceFirst(values: seq<seq<Value>>)
    requires |values| == 3 && forall j :: 0 <= j < 3 ==> |values[j]| > 0
    ensures SpliceCells(values, 0) == [values[0][1..], values[1][1..], values[2][1..]]
  {
    var w := SpliceCells(values, 0);
    forall j | 0 <= j < 3 ensures w[j] == values[j][1..] {
      assert Delete(values[j], 0) == values[j][1..];
    }
  }

  lemma {:induction false} SecondRowExample()
    ensures DropRow(Table(Names, ["2", "3"], [C1[1..], C2[1..], C3[1..]]), Some("3")) == MiddleRow
  {
    var ids: seq<string> := ["2", "3"];
    assert IndexOf(ids, "3") == 1;
    assert Delete(ids, 1) == ["2"];
    assert Delete(C1[1..], 1) == [Str("2")] && Delete(C2[1..], 1) == [Str("5")] &&
           Delete(C3[1..], 1) == [Str("8")];
  }

  lemma {:induction false} FirstColumnExample()
    ensures DropColumn(MiddleRow, Some("1")) == Table(["2", "3"], ["2"], [[Str("5")], [Str("8")]])
  {
    assert IndexOf(Names, "1") == 0;
    assert Delete(Names, 0) == ["2", "3"];
    assert Delete(MiddleRow.values, 0) == [[Str("5")], [Str("8")]];
  }

  lemma {:induction false} SecondColumnExample()
    ensures DropColumn(Table(["2", "3"], ["2"], [[Str("5")], [Str("8")]]), Some("3")) == MiddleCell
  {
    var h: seq<string> := ["2", "3"];
    assert IndexOf(h, "3") == 1;
    assert Delete(h, 1) == ["2"];
    assert Delete([[Str("5")], [Str("8")]], 1) == [[Str("5")]];
  }

  /** Rows 0 and 2 are resolved to "1" and "3" before either goes; so are columns. */
  lemma {:induction false} RemoveByIndexExample()
    ensures RemoveRows(Start, Positions) == MiddleRow
    ensures RemoveColumns(MiddleRow, Positions) == MiddleCell
  {
    ResolveExample();
    DropRowsTwo(Start, Some("1"), Some("3"));
    FirstRowExample();
    SecondRowExample();
    DropColumnsTwo(MiddleRow, Some("1"), Some("3"));
    FirstColumnExample();
    SecondColumnExample();
  }

  /** One column with default names. */
  lemma {:induction false} BuildExample()
    ensures Build([C1], None, None) == Table(["1"], Names, [C1])
  {
    assert NatToString(1) == "1" && NatToString(2) == "2" && NatToString(3) == "3";
    assert DefaultNames(1) == ["1"];
    assert DefaultNames(3) == Names;
  }

  /** Two columns appended under the numeric headers 2 and 3 give `Start`. */
  lemma {:induction false} AppendExample()
    ensures AddColumn(Table(["1"], Names, [C1]), C2, Some(Num(2)))
         == Success(Table(["1", "2"], Names, [C1, C2]))
    ensures AddColumn(Table(["1", "2"], Names, [C1, C2]), C3, Some(Num(3))) == Success(Start)
  {
    assert NatToString(2) == "2" && NatToString(3) == "3";
    assert ColumnName(Table(["1"], Names, [C1]), Some(Num(2))) == "2";
    assert ColumnName(Table(["1", "2"], Names, [C1, C2]), Some(Num(3))) == "3";
    assert ["1"] + ["2"] == ["1", "2"] && ["1", "2"] + ["3"] == Names;
    assert [C1] + [C2] == [C1, C2] && [C1, C2] + [C3] == [C1, C2, C3];
  }

  /** The numeric header 1 names the default first column "1", so the append fails;
      the numeric ID 2 names the default second row. */
  lemma {:induction false} DuplicateNameExample()
    ensures AddColumn(Table(["1"], Names, [C1]), C2, Some(Num(1))) == Failure(DuplicateHeader)
    ensures AddRow(Table(["1", "2"], Names, [C1, C2]), [Num(6), Num(7)], Some(Num(2)))
         == Failure(DuplicateId)
  {
    assert NatToString(1) == "1" && NatToString(2) == "2";
    assert ColumnName(Table(["1"], Names, [C1]), Some(Num(1))) == "1";
    assert RowName(Table(["1", "2"], Names, [C1, C2]), Some(Num(2))) == "2";
    assert Names[1] == "2";
  }

  /** The same scenario on a `METADATA` object: one column with default names, two
      columns appended under the numeric headers 2 and 3, then the removals. */
  method RemoveByIndexScenario() returns (cells: seq<seq<Value>>, ids: seq<string>)
    ensures cells == [[Str("5")]] && ids == ["2"]
  {
    BuildExample();
    AppendExample();
    var m := new METADATA([C1], None, None);
    var e1 := m.Append(C2, "column", Some(Num(2)), None);
    var e2 := m.Append(C3, "column", Some(Num(3)), None);
    RemoveByIndexExample();
    m.Remove(Positions, "row");
    m.Remove(Positions, "column");
    cells, ids := m.values, m.ids;
  }
}
