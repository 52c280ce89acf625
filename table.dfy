/** The metadata table as a value: column names (`headers`), row names (`IDs`) and
    one column of cells per header. This module states what each table operation of
    src/METADATA.js computes; the class in module Metadata performs them in place. */
module Table {
  import opened Values
  import opened Seqs

  datatype Table = Table(headers: seq<string>, ids: seq<string>, values: seq<seq<Value>>)

  /** The object `toJSON` produces and `load` accepts. A JavaScript `name` that is
      missing is `None`; any other non-string name is a `Num`. */
  datatype Serialized = Serialized(
    name: Option<Value>, headers: seq<string>, ids: seq<string>, values: seq<seq<Value>>)

  /** The exceptions the table operations throw. */
  datatype Error =
    | NameNotString          // load: TypeError, `name` is not a string
    | InvalidModel(name: string) // load: RangeError, `name` is not 'metadata'
    | DuplicateHeader        // append by column: 'this header already exist'
    | DuplicateId            // append by row: 'this ID already exist'
    | DimensionMismatch      // append: "dimension doesn't match"
    | NoFirstColumn          // append by column on a table with no column: TypeError
    | NoSuchColumn           // get on a header the table does not have: TypeError

  /** The dimensional invariant: one column per header, one cell per ID in every column. */
  predicate Shaped(t: Table)
  {
    && |t.headers| == |t.values|
    && forall j :: 0 <= j < |t.values| ==> |t.values[j]| == |t.ids|
  }

  /** The full invariant: shaped, and no header or ID occurs twice. */
  predicate WellFormed(t: Table)
  {
    Shaped(t) && Distinct(t.headers) && Distinct(t.ids)
  }

  /** `[...Array(n).keys()].map((x) => (x + 1).toString())`: "1", "2", ..., n. */
  function DefaultNames(n: nat): (r: seq<string>)
    ensures |r| == n
    ensures forall k :: 0 <= k < n ==> r[k] == NatToString(k + 1)
  {
    seq(n, k requires 0 <= k < n => NatToString(k + 1))
  }

  /** Two default names at different positions differ. */
  lemma {:induction false} DefaultNamesDiffer(n: nat, i: nat, j: nat)
    requires i < j < n
    ensures DefaultNames(n)[i] != DefaultNames(n)[j]
  {
    if NatToString(i + 1) == NatToString(j + 1) {
      NatToStringInjective(i + 1, j + 1);
    }
  }

  /** Default names never collide. */
  lemma {:induction false} DefaultNamesDistinct(n: nat)
    ensures Distinct(DefaultNames(n))
  {
    forall i, j | 0 <= i < j < n ensures DefaultNames(n)[i] != DefaultNames(n)[j] {
      DefaultNamesDiffer(n, i, j);
    }
  }

  /** All columns have the same number of cells. */
  predicate Rectangular(cols: seq<seq<Value>>)
  {
    forall j :: 0 <= j < |cols| ==> |cols[j]| == |cols[0]|
  }

  /** `new METADATA(values, options)`: the columns as given, with the headers and IDs
      of the options where present and the default names otherwise. */
  function Build(cols: seq<seq<Value>>, headers: Option<seq<string>>, ids: Option<seq<string>>)
    : (t: Table)
    requires |cols| > 0
    ensures t.values == cols
    ensures headers.None? ==>
              |t.headers| == |cols| &&
              forall j :: 0 <= j < |cols| ==> t.headers[j] == NatToString(j + 1)
    ensures ids.None? ==>
              |t.ids| == |cols[0]| &&
              forall i :: 0 <= i < |cols[0]| ==> t.ids[i] == NatToString(i + 1)
    ensures headers.Some? ==> t.headers == headers.value
    ensures ids.Some? ==> t.ids == ids.value
  {
    Table(
      if headers.Some? then headers.value else DefaultNames(|cols|),
      if ids.Some? then ids.value else DefaultNames(|cols[0]|),
      cols)
  }

  /** Built from equally long columns without explicit names, a table keeps its
      invariant. */
  lemma {:induction false} BuildDefaultWellFormed(cols: seq<seq<Value>>)
    requires |cols| > 0 && Rectangular(cols)
    ensures WellFormed(Build(cols, None, None))
  {
    DefaultNamesDistinct(|cols|);
    DefaultNamesDistinct(|cols[0]|);
  }

  /** `toJSON`: the three sequences under the tag 'metadata'. */
  function Encode(t: Table): (s: Serialized)
    ensures s.name == Some(Str("metadata"))
  {
    Serialized(Some(Str("metadata")), t.headers, t.ids, t.values)
  }

  /** `METADATA.load`: checks the tag, then takes the three sequences as they are. */
  function Decode(s: Serialized): (r: Result<Table, Error>)
    ensures r.Success? <==> s.name == Some(Str("metadata"))
    ensures s.name.None? || s.name.value.Num? ==> r == Failure(NameNotString)
    ensures s.name.Some? && s.name.value.Str? && s.name.value.s != "metadata" ==>
              r == Failure(InvalidModel(s.name.value.s))
    ensures r.Success? ==> Encode(r.value) == s
  {
    match s.name
    case None => Failure(NameNotString)
    case Some(Num(_)) => Failure(NameNotString)
    case Some(Str(x)) =>
      if x != "metadata" then Failure(InvalidModel(x))
      else Success(Table(s.headers, s.ids, s.values))
  }

  /** `load(toJSON())` gives back the same headers, IDs and columns. */
  lemma {:induction false} LoadSaveRoundTrip(t: Table)
    ensures Decode(Encode(t)) == Success(t)
  {
  }

  /** The name `append` gives a new column: the one supplied, turned into a string,
      or the column count plus one. */
  function ColumnName(t: Table, header: Option<Value>): (name: string)
    ensures header.None? ==> name == NatToString(|t.headers| + 1)
    ensures header.Some? ==> name == ToText(header.value)
  {
    if header.Some? then ToText(header.value) else NatToString(|t.headers| + 1)
  }

  /** The name `append` gives a new row: the one supplied, turned into a string, or
      the row count plus one. */
  function RowName(t: Table, id: Option<Value>): (name: string)
    ensures id.None? ==> name == NatToString(|t.ids| + 1)
    ensures id.Some? ==> name == ToText(id.value)
  {
    if id.Some? then ToText(id.value) else NatToString(|t.ids| + 1)
  }

  /** `append(col, 'column', {header})`. The duplicate check comes first; a table
      without columns has no first column to measure `col` against. */
  function AddColumn(t: Table, col: seq<Value>, header: Option<Value>): (r: Result<Table, Error>)
    ensures ColumnName(t, header) in t.headers ==> r == Failure(DuplicateHeader)
    ensures ColumnName(t, header) !in t.headers && |t.values| == 0 ==> r == Failure(NoFirstColumn)
    ensures ColumnName(t, header) !in t.headers && |t.values| > 0 && |col| != |t.values[0]| ==>
              r == Failure(DimensionMismatch)
    ensures r.Success? <==>
              ColumnName(t, header) !in t.headers && |t.values| > 0 && |col| == |t.values[0]|
    ensures r.Success? ==>
              r.value == Table(t.headers + [ColumnName(t, header)], t.ids, t.values + [col])
  {
    var name := ColumnName(t, header);
    if name in t.headers then Failure(DuplicateHeader)
    else if |t.values| == 0 then Failure(NoFirstColumn)
    else if |col| == |t.values[0]| then Success(Table(t.headers + [name], t.ids, t.values + [col]))
    else Failure(DimensionMismatch)
  }

  /** Column `j` with `row[j]` pushed at its end, for every column. */
  function PushRow(values: seq<seq<Value>>, row: seq<Value>): (r: seq<seq<Value>>)
    requires |row| == |values|
    ensures |r| == |values|
    ensures forall j :: 0 <= j < |values| ==> r[j] == values[j] + [row[j]]
  {
    seq(|values|, j requires 0 <= j < |values| => values[j] + [row[j]])
  }

  /** `append(row, 'row', {ID})`: one cell per existing column, in column order. */
  function AddRow(t: Table, row: seq<Value>, id: Option<Value>): (r: Result<Table, Error>)
    ensures RowName(t, id) in t.ids ==> r == Failure(DuplicateId)
    ensures RowName(t, id) !in t.ids && |row| != |t.values| ==> r == Failure(DimensionMismatch)
    ensures r.Success? <==> RowName(t, id) !in t.ids && |row| == |t.values|
    ensures r.Success? ==>
              && r.value.headers == t.headers
              && r.value.ids == t.ids + [RowName(t, id)]
              && |r.value.values| == |t.values|
              && forall j :: 0 <= j < |t.values| ==> r.value.values[j] == t.values[j] + [row[j]]
  {
    var name := RowName(t, id);
    if name in t.ids then Failure(DuplicateId)
    else if |row| == |t.values| then Success(Table(t.headers, t.ids + [name], PushRow(t.values, row)))
    else Failure(DimensionMismatch)
  }

  /** A successful append keeps the invariant. */
  lemma {:induction false} AddColumnWellFormed(t: Table, col: seq<Value>, header: Option<Value>)
    requires WellFormed(t) && AddColumn(t, col, header).Success?
    ensures WellFormed(AddColumn(t, col, header).value)
  {
  }

  lemma {:induction false} AddRowWellFormed(t: Table, row: seq<Value>, id: Option<Value>)
    requires WellFormed(t) && AddRow(t, row, id).Success?
    ensures WellFormed(AddRow(t, row, id).value)
  {
  }

  /** The first pass of `remove`: a number is replaced by the name at that position
      (nothing, when there is none); a string is a name already. */
  function Resolve(keys: seq<Value>, names: seq<string>): (r: seq<Option<string>>)
    ensures |r| == |keys|
    ensures forall k :: 0 <= k < |keys| && keys[k].Str? ==> r[k] == Some(keys[k].s)
    ensures forall k :: 0 <= k < |keys| && keys[k].Num? && 0 <= keys[k].n < |names| ==>
              r[k] == Some(names[keys[k].n])
    ensures forall k :: 0 <= k < |keys| && keys[k].Num? && !(0 <= keys[k].n < |names|) ==>
              r[k] == None
  {
    seq(|keys|, k requires 0 <= k < |keys| =>
      match keys[k]
      case Str(s) => Some(s)
      case Num(n) => if 0 <= n < |names| then Some(names[n]) else None)
  }

  /** The names a resolved list asks to remove. */
  function Targets(r: seq<Option<string>>): (d: set<string>)
    ensures forall x :: x in d <==> Some(x) in r
  {
    set k | 0 <= k < |r| && r[k].Some? :: r[k].value
  }

  /** One step of the second pass of `remove` by column: the column named `target`,
      looked up among the headers still present, goes away with its header. */
  function DropColumn(t: Table, target: Option<string>): (r: Table)
    ensures Shaped(t) ==> Shaped(r)
    ensures r.ids == t.ids
    ensures Distinct(t.headers) ==> Distinct(r.headers)
  {
    if target.None? then t
    else
      var i := IndexOf(t.headers, target.value);
      if i < 0 then t
      else
        DeleteDistinct(t.headers, i);
        Table(Delete(t.headers, i), t.ids, Splice(t.values, i))
  }

  /** `s.splice(i, 1)`: the element at `i` removed, or `s` itself when there is none. */
  function Splice<T>(s: seq<T>, i: nat): (r: seq<T>)
    ensures i < |s| ==> r == Delete(s, i)
    ensures |s| <= i ==> r == s
  {
    if i < |s| then Delete(s, i) else s
  }

  /** `values.map((x) => x.splice(i, 1))`: every column without its cell at `i`. */
  function SpliceCells(values: seq<seq<Value>>, i: nat): (r: seq<seq<Value>>)
    ensures |r| == |values|
    ensures forall j :: 0 <= j < |values| ==> r[j] == Splice(values[j], i)
  {
    seq(|values|, j requires 0 <= j < |values| => Splice(values[j], i))
  }

  /** One step of the second pass of `remove` by row: the row named `target`, looked
      up among the IDs still present, goes away from the IDs and from every column. */
  function DropRow(t: Table, target: Option<string>): (r: Table)
    ensures Shaped(t) ==> Shaped(r)
    ensures r.headers == t.headers
    ensures Distinct(t.ids) ==> Distinct(r.ids)
  {
    if target.None? then t
    else
      var i := IndexOf(t.ids, target.value);
      if i < 0 then t
      else
        DeleteDistinct(t.ids, i);
        Table(t.headers, Delete(t.ids, i), SpliceCells(t.values, i))
  }

  /** The second pass of `remove` by column, one resolved name after the other. */
  function DropColumns(t: Table, targets: seq<Option<string>>): (r: Table)
    ensures Shaped(t) ==> Shaped(r)
    ensures r.ids == t.ids
    ensures Distinct(t.headers) ==> Distinct(r.headers)
  {
    if |targets| == 0 then t
    else DropColumn(DropColumns(t, targets[..|targets| - 1]), targets[|targets| - 1])
  }

  /** The second pass of `remove` by row, one resolved name after the other. */
  function DropRows(t: Table, targets: seq<Option<string>>): (r: Table)
    ensures Shaped(t) ==> Shaped(r)
    ensures r.headers == t.headers
    ensures Distinct(t.ids) ==> Distinct(r.ids)
  {
    if |targets| == 0 then t
    else DropRow(DropRows(t, targets[..|targets| - 1]), targets[|targets| - 1])
  }

  /** `remove(keys, 'column')`: positions are resolved against the headers before any
      deletion; names not present (any more) are skipped. */
  function RemoveColumns(t: Table, keys: seq<Value>): (r: Table)
    ensures WellFormed(t) ==> WellFormed(r)
  {
    DropColumns(t, Resolve(keys, t.headers))
  }

  /** `remove(keys, 'row')`, resolved against the IDs before any deletion. */
  function RemoveRows(t: Table, keys: seq<Value>): (r: Table)
    ensures WellFormed(t) ==> WellFormed(r)
  {
    DropRows(t, Resolve(keys, t.ids))
  }

  /** Column removal keeps exactly the columns whose header was not asked for, in
      their order, each with its header. */
  lemma {:induction false} DropColumnsKeep(t: Table, targets: seq<Option<string>>)
    requires WellFormed(t)
    ensures DropColumns(t, targets) ==
      Table(Keep(t.headers, t.headers, Targets(targets)), t.ids,
            Keep(t.headers, t.values, Targets(targets)))
  {
    var h := t.headers;
    if |targets| == 0 {
      KeepNothing(h, h);
      KeepNothing(h, t.values);
      assert Targets(targets) == {};
    } else {
      var pre, last := targets[..|targets| - 1], targets[|targets| - 1];
      DropColumnsKeep(t, pre);
      var d := Targets(pre);
      assert targets == pre + [last];
      if last.None? {
        assert Targets(targets) == d;
      } else {
        assert Targets(targets) == d + {last.value};
        KeepStep(h, h, d, last.value);
        KeepStep(h, t.values, d, last.value);
      }
    }
  }

  lemma {:induction false} RemoveColumnsKeep(t: Table, keys: seq<Value>)
    requires WellFormed(t)
    ensures RemoveColumns(t, keys) ==
      Table(Keep(t.headers, t.headers, Targets(Resolve(keys, t.headers))), t.ids,
            Keep(t.headers, t.values, Targets(Resolve(keys, t.headers))))
  {
    DropColumnsKeep(t, Resolve(keys, t.headers));
  }

  /** Keep applied to every column. */
  function KeepCells(ids: seq<string>, values: seq<seq<Value>>, drop: set<string>)
    : (r: seq<seq<Value>>)
    requires forall j :: 0 <= j < |values| ==> |values[j]| == |ids|
    ensures |r| == |values|
    ensures forall j :: 0 <= j < |values| ==> r[j] == Keep(ids, values[j], drop)
  {
    seq(|values|, j requires 0 <= j < |values| => Keep(ids, values[j], drop))
  }

  /** In every column, the cell of row `n` goes the way `n` goes among the IDs. */
  lemma {:induction false} KeepCellsStep(ids: seq<string>, values: seq<seq<Value>>, d: set<string>, n: string)
    requires Distinct(ids) && forall j :: 0 <= j < |values| ==> |values[j]| == |ids|
    ensures var i := IndexOf(Keep(ids, ids, d), n);
      && (i < 0 ==> KeepCells(ids, values, d + {n}) == KeepCells(ids, values, d))
      && (i >= 0 ==> SpliceCells(KeepCells(ids, values, d), i) == KeepCells(ids, values, d + {n}))
  {
    var i := IndexOf(Keep(ids, ids, d), n);
    var a, b := KeepCells(ids, values, d), KeepCells(ids, values, d + {n});
    if i < 0 {
      forall j | 0 <= j < |values| ensures b[j] == a[j] {
        KeepStep(ids, values[j], d, n);
      }
    } else {
      var c := SpliceCells(a, i);
      forall j | 0 <= j < |values| ensures c[j] == b[j] {
        KeepStep(ids, values[j], d, n);
      }
    }
  }

  /** Dropping one more row from the kept rows keeps one name fewer. */
  lemma {:induction false} DropRowKeepStep(t: Table, d: set<string>, n: string)
    requires WellFormed(t)
    ensures DropRow(Table(t.headers, Keep(t.ids, t.ids, d), KeepCells(t.ids, t.values, d)), Some(n))
         == Table(t.headers, Keep(t.ids, t.ids, d + {n}), KeepCells(t.ids, t.values, d + {n}))
  {
    KeepStep(t.ids, t.ids, d, n);
    KeepCellsStep(t.ids, t.values, d, n);
  }

  /** Row removal keeps exactly the rows whose ID was not asked for, in their order,
      in the IDs and in every column alike. */
  lemma {:induction false} DropRowsKeep(t: Table, targets: seq<Option<string>>)
    requires WellFormed(t)
    ensures DropRows(t, targets) ==
      Table(t.headers, Keep(t.ids, t.ids, Targets(targets)),
            KeepCells(t.ids, t.values, Targets(targets)))
  {
    var ids := t.ids;
    if |targets| == 0 {
      KeepNothing(ids, ids);
      forall j | 0 <= j < |t.values| ensures Keep(ids, t.values[j], {}) == t.values[j] {
        KeepNothing(ids, t.values[j]);
      }
      assert Targets(targets) == {};
    } else {
      var pre, last := targets[..|targets| - 1], targets[|targets| - 1];
      assert targets == pre + [last];
      DropRowsKeep(t, pre);
      if last.None? {
        assert Targets(targets) == Targets(pre);
      } else {
        assert Targets(targets) == Targets(pre) + {last.value};
        DropRowKeepStep(t, Targets(pre), last.value);
      }
    }
  }

  lemma {:induction false} RemoveRowsKeep(t: Table, keys: seq<Value>)
    requires WellFormed(t)
    ensures RemoveRows(t, keys) ==
      Table(t.headers, Keep(t.ids, t.ids, Targets(Resolve(keys, t.ids))),
            KeepCells(t.ids, t.values, Targets(Resolve(keys, t.ids))))
  {
    DropRowsKeep(t, Resolve(keys, t.ids));
  }

  /** Appending a column and then removing it by its header gives the table back. */
  lemma {:induction false} AddColumnThenRemove(t: Table, col: seq<Value>, header: Option<Value>)
    requires WellFormed(t) && AddColumn(t, col, header).Success?
    ensures RemoveColumns(AddColumn(t, col, header).value, [Str(ColumnName(t, header))]) == t
  {
    var name := ColumnName(t, header);
    var u := AddColumn(t, col, header).value;
    IndexOfSnoc(t.headers, name, name);
    assert IndexOf(u.headers, name) == |t.headers|;
    var targets := Resolve([Str(name)], u.headers);
    assert targets == [Some(name)];
    assert targets[..0] == [];
    assert DropColumns(u, targets) == DropColumn(u, Some(name));
    assert Delete(u.headers, |t.headers|) == t.headers;
    assert Splice(u.values, |t.headers|) == t.values;
  }

  /** Removing the cell just pushed onto every column restores the columns. */
  lemma {:induction false} SpliceLast(values: seq<seq<Value>>, row: seq<Value>, n: nat)
    requires |row| == |values| && forall j :: 0 <= j < |values| ==> |values[j]| == n
    ensures SpliceCells(PushRow(values, row), n) == values
  {
    var w := SpliceCells(PushRow(values, row), n);
    forall j | 0 <= j < |values| ensures w[j] == values[j] {
      assert PushRow(values, row)[j] == values[j] + [row[j]];
      assert Delete(values[j] + [row[j]], n) == values[j];
    }
  }

  /** Appending a row and then removing it by its ID gives the table back. */
  lemma {:induction false} AddRowThenRemove(t: Table, row: seq<Value>, id: Option<Value>)
    requires WellFormed(t) && AddRow(t, row, id).Success?
    ensures RemoveRows(AddRow(t, row, id).value, [Str(RowName(t, id))]) == t
  {
    var name := RowName(t, id);
    var u := AddRow(t, row, id).value;
    assert u == Table(t.headers, t.ids + [name], PushRow(t.values, row));
    assert IndexOf(u.ids, name) == |t.ids| by {
      IndexOfSnoc(t.ids, name, name);
    }
    var targets := Resolve([Str(name)], u.ids);
    assert DropRows(u, targets) == DropRow(u, Some(name)) by {
      assert targets == [Some(name)];
      assert targets[..0] == [];
    }
    assert Delete(u.ids, |t.ids|) == t.ids;
    assert SpliceCells(u.values, |t.ids|) == t.values by {
      SpliceLast(t.values, row, |t.ids|);
    }
  }
}
