/** The `METADATA` class of src/METADATA.js: metadata columns with their headers and
    row IDs, changed in place by `append` and `remove`. Every method is proved against
    the value-level operation of the same name on `Table`. */
module Metadata {
  import opened Values
  import opened Seqs
  import opened Table
  import opened Summary
  import opened Sampling

  /** What `sample` returns. */
  datatype SampleResult = SampleResult(
    trainIndex: seq<nat>, testIndex: seq<nat>, mask: seq<bool>, classVector: seq<Value>)

  /** How a method that may throw left the object: on success, in the state the
      operation computes; on an error, untouched, with the error reported. */
  predicate Applied(r: Result<Table, Error>, before: Table, after: Table, err: Option<Error>)
  {
    match r
    case Success(t) => err == None && after == t
    case Failure(e) => err == Some(e) && after == before
  }

  class METADATA {
    var headers: seq<string>
    var ids: seq<string>
    var values: seq<seq<Value>>

    /** The table this object holds. */
    function State(): Table
      reads this
    {
      Table(headers, ids, values)
    }

    /** `new METADATA(values, {headers, IDs})`: missing names default to "1", "2", ... */
    constructor (cols: seq<seq<Value>>, headerNames: Option<seq<string>>, idNames: Option<seq<string>>)
      requires |cols| > 0
      ensures State() == Build(cols, headerNames, idNames)
    {
      values := cols;
      headers := if headerNames.Some? then headerNames.value else DefaultNames(|cols|);
      ids := if idNames.Some? then idNames.value else DefaultNames(|cols[0]|);
    }

    /** `new METADATA(true, metadata)`: the three sequences of a saved object as they are. */
    constructor Restore(s: Serialized)
      ensures State() == Table(s.headers, s.ids, s.values)
    {
      headers := s.headers;
      ids := s.ids;
      values := s.values;
    }

    /** `METADATA.load(metadata)`: rejects an object whose name is not the string
      'metadata', and restores the others. */
    static method Load(s: Serialized) returns (r: Result<METADATA, Error>)
      ensures r.Failure? ==> Decode(s) == Failure(r.error)
      ensures r.Success? ==> fresh(r.value) && Decode(s) == Success(r.value.State())
    {
      if s.name.None? || s.name.value.Num? {
        return Failure(NameNotString);
      }
      if s.name.value.s != "metadata" {
        return Failure(InvalidModel(s.name.value.s));
      }
      var m := new METADATA.Restore(s);
      return Success(m);
    }

    /** `toJSON()`: what `load` turns back into this very state. */
    function ToJSON(): (s: Serialized)
      reads this
      ensures s.name == Some(Str("metadata"))
      ensures Decode(s) == Success(State())
    {
      Encode(State())
    }

    /** `list()`: the headers, as `toJSON` saves them. */
    function List(): (r: seq<string>)
      reads this
      ensures r == ToJSON().headers
      ensures |r| == |State().headers|
    {
      headers
    }

    /** `append(values, 'column', {header})`. */
    method AppendByColumn(col: seq<Value>, header: Option<Value>) returns (err: Option<Error>)
      modifies this
      ensures Applied(AddColumn(old(State()), col, header), old(State()), State(), err)
      ensures WellFormed(old(State())) ==> WellFormed(State())
    {
      var name := ColumnName(State(), header);
      if name in headers {
        return Some(DuplicateHeader);
      }
      if |values| == 0 {
        return Some(NoFirstColumn);
      }
      if |col| == |values[0]| {
        values := values + [col];
        headers := headers + [name];
        err := None;
        if WellFormed(old(State())) {
          AddColumnWellFormed(old(State()), col, header);
        }
      } else {
        err := Some(DimensionMismatch);
      }
    }

    /** `append(values, 'row', {ID})`: each column receives its cell in turn. */
    method AppendByRow(row: seq<Value>, id: Option<Value>) returns (err: Option<Error>)
      modifies this
      ensures Applied(AddRow(old(State()), row, id), old(State()), State(), err)
      ensures WellFormed(old(State())) ==> WellFormed(State())
    {
      var name := RowName(State(), id);
      if name in ids {
        return Some(DuplicateId);
      }
      if |row| != |values| {
        return Some(DimensionMismatch);
      }
      var j := 0;
      while j < |values|
        invariant 0 <= j <= |values| == |row|
        invariant headers == old(headers) && ids == old(ids)
        invariant |values| == |old(values)|
        invariant forall k :: 0 <= k < j ==> values[k] == old(values)[k] + [row[k]]
        invariant forall k :: j <= k < |values| ==> values[k] == old(values)[k]
      {
        values := values[j := values[j] + [row[j]]];
        j := j + 1;
      }
      ids := ids + [name];
      err := None;
      assert values == PushRow(old(values), row);
      if WellFormed(old(State())) {
        AddRowWellFormed(old(State()), row, id);
      }
    }

    /** `append(values, by, {header, ID})`: 'column' reads only `header`, 'row' only
      `ID`, and a `by` other than 'column' and 'row' changes nothing. */
    method Append(cells: seq<Value>, axis: string, header: Option<Value>, id: Option<Value>)
      returns (err: Option<Error>)
      modifies this
      ensures axis == "column" ==> Applied(AddColumn(old(State()), cells, header), old(State()), State(), err)
      ensures axis == "row" ==> Applied(AddRow(old(State()), cells, id), old(State()), State(), err)
      ensures axis != "column" && axis != "row" ==> err == None && State() == old(State())
      ensures WellFormed(old(State())) ==> WellFormed(State())
    {
      if axis == "column" {
        err := AppendByColumn(cells, header);
      } else if axis == "row" {
        err := AppendByRow(cells, id);
      } else {
        err := None;
      }
    }

    /** The first pass of `remove`: a number becomes the name at that position. */
    static method ResolveKeys(keys: seq<Value>, names: seq<string>) returns (index: seq<Option<string>>)
      ensures index == Resolve(keys, names)
    {
      index := [];
      var k := 0;
      while k < |keys|
        invariant 0 <= k <= |keys|
        invariant index == Resolve(keys, names)[..k]
      {
        var el := keys[k];
        var target: Option<string>;
        if el.Num? {
          target := if 0 <= el.n < |names| then Some(names[el.n]) else None;
        } else {
          target := Some(el.s);
        }
        index := index + [target];
        k := k + 1;
      }
    }

    /** One step of `remove(index, 'column')`: the column of a resolved name goes
      away; a name not present is skipped. */
    method RemoveColumn(target: Option<string>)
      modifies this
      ensures State() == DropColumn(old(State()), target)
    {
      if target.Some? {
        var id := IndexOf(headers, target.value);
        if id > -1 {
          headers := Delete(headers, id);
          values := Splice(values, id);
        }
      }
    }

    /** `remove(index, 'column')`. */
    method RemoveByColumn(keys: seq<Value>)
      modifies this
      ensures State() == RemoveColumns(old(State()), keys)
      ensures WellFormed(old(State())) ==> WellFormed(State())
    {
      var index := ResolveKeys(keys, headers);
      ghost var start := State();
      var k := 0;
      while k < |index|
        invariant 0 <= k <= |index|
        invariant State() == DropColumns(start, index[..k])
      {
        ghost var before := State();
        RemoveColumn(index[k]);
        assert DropColumns(start, index[..k + 1]) == DropColumn(before, index[k]) by {
          assert index[..k + 1][..k] == index[..k];
        }
        k := k + 1;
      }
      assert index[..k] == index;
    }

    /** `this.values.map((x) => x.splice(id, 1))`: cell `id` leaves every column. */
    method SpliceColumns(id: nat)
      modifies this
      ensures values == SpliceCells(old(values), id)
      ensures headers == old(headers) && ids == old(ids)
    {
      var j := 0;
      while j < |values|
        invariant 0 <= j <= |values| == |old(values)|
        invariant headers == old(headers) && ids == old(ids)
        invariant forall m :: 0 <= m < j ==> values[m] == Splice(old(values)[m], id)
        invariant forall m :: j <= m < |values| ==> values[m] == old(values)[m]
      {
        values := values[j := Splice(values[j], id)];
        j := j + 1;
      }
    }

    /** One step of `remove(index, 'row')`: the row of a resolved ID goes away from
      the IDs and from each column; an ID not present is skipped. */
    method RemoveRow(target: Option<string>)
      modifies this
      ensures State() == DropRow(old(State()), target)
    {
      if target.Some? {
        var id := IndexOf(ids, target.value);
        if id > -1 {
          ids := Delete(ids, id);
          SpliceColumns(id);
        }
      }
    }

    /** `remove(index, 'row')`: the row goes away from the IDs and from each column. */
    method RemoveByRow(keys: seq<Value>)
      modifies this
      ensures State() == RemoveRows(old(State()), keys)
      ensures WellFormed(old(State())) ==> WellFormed(State())
    {
      var index := ResolveKeys(keys, ids);
      ghost var start := State();
      var k := 0;
      while k < |index|
        invariant 0 <= k <= |index|
        invariant State() == DropRows(start, index[..k])
      {
        ghost var before := State();
        RemoveRow(index[k]);
        assert DropRows(start, index[..k + 1]) == DropRow(before, index[k]) by {
          assert index[..k + 1][..k] == index[..k];
        }
        k := k + 1;
      }
      assert index[..k] == index;
    }

    /** `remove(index, by)`: a `by` other than 'column' and 'row' changes nothing. */
    method Remove(keys: seq<Value>, axis: string)
      modifies this
      ensures axis == "column" ==> State() == RemoveColumns(old(State()), keys)
      ensures axis == "row" ==> State() == RemoveRows(old(State()), keys)
      ensures axis != "column" && axis != "row" ==> State() == old(State())
      ensures WellFormed(old(State())) ==> WellFormed(State())
    {
      if axis == "column" {
        RemoveByColumn(keys);
      } else if axis == "row" {
        RemoveByRow(keys);
      }
    }

    /** `get(header, {format})`: the column, its classes and their counts, encoded as
      asked. */
    method Get(header: string, format: Format) returns (r: Result<ClassView, Error>)
      ensures r == Extract(State(), header, format)
    {
      var index := IndexOf(headers, header);
      if index < 0 || index >= |values| {
        return Failure(NoSuchColumn);
      }
      var classVector := values[index];
      var counts := SummaryAClass(classVector);
      var groups := Keys(counts);
      var encoded;
      match format {
        case Factor =>
          encoded := Factors(Factorize(classVector, groups));
        case Matrix =>
          encoded := Column(|classVector|, 1, Factorize(classVector, groups));
        case Vector =>
          encoded := Labels(classVector);
      }
      r := Success(ClassView(header, groups, counts, |classVector|, |groups|, encoded));
    }

    /** `sample(header, {fraction})`: the column that `get` finds, split by class. */
    method Sample(header: string, fraction: Option<Fraction>) returns (r: Result<SampleResult, Error>)
      requires fraction.Some? ==> ValidFraction(fraction.value)
      ensures Extract(State(), header, Vector).Failure? ==> r == Failure(NoSuchColumn)
      ensures Extract(State(), header, Vector).Success? ==>
        && r.Success?
        && r.value.classVector == values[IndexOf(headers, header)]
        && Stratified(r.value.classVector,
                      if fraction.Some? then fraction.value else DefaultFraction,
                      r.value.trainIndex, r.value.testIndex, r.value.mask)
    {
      var f := if fraction.Some? then fraction.value else DefaultFraction;
      var view := Get(header, Vector);
      if view.Failure? {
        return Failure(view.error);
      }
      var classVector := view.value.values.labels;
      var trainIndex, testIndex, mask := SampleAClass(classVector, f);
      r := Success(SampleResult(trainIndex, testIndex, mask, classVector));
    }
  }
}
