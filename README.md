# METADATA in Dafny

A model of the `METADATA` class of src/METADATA.js (dataset metadata: named columns of
class labels, named rows) and of its two helpers `summaryAClass` and `sampleAClass`.
Each operation is stated with a contract, and the properties the code promises are proved.

- A metadata object holds three sequences: `headers` (column names), `IDs` (row names)
  and `values` (one column of cells per header).
- The class `Metadata.METADATA` keeps them as fields and changes them in place, as the
  source does. Each of its methods is proved against a value-level function on the
  datatype `Table.Table`:
  - `Build` for the constructor;
  - `Encode`/`Decode` for `toJSON`/`load`;
  - `AddColumn`/`AddRow` for `append`;
  - `RemoveColumns`/`RemoveRows` for `remove`;
  - `Extract` for `get`.
- The properties are proved about those functions, among them:
  - the load/save round trip;
  - the shape invariant kept by `append` and `remove`;
  - removal as "keep every column or row whose name was not named";
  - `append` followed by `remove` of the new name restores the table.
- `summaryAClass` is the specification function `Summary.Tally` and the loop
  `Summary.SummaryAClass`. The counts have distinct keys, exactly the values that occur,
  each with its multiplicity, in order of first occurrence.
- `sampleAClass` follows the steps of the source:
  - sort the indices: the function `Sampling.SortOrder`, an insertion sort, with lemmas
    that it is a sorted permutation;
  - count the sorted copy;
  - draw each class's quota inside its block;
  - map the draws back;
  - mark the training rows.

  Each step after the sort is a method.

  `Sampling.SampleAClass` proves the outcome, `Stratified`:
  - the training rows are distinct;
  - they hold exactly `floor(count × fraction)` rows of every class;
  - the test rows are all the others, in ascending order;
  - the mask marks the training rows.
- Module `Scenarios` works two tests of the suite through the model: 'test remove row /
  column by index' and the rejection of duplicate header and ID names.
- Module `KeyOrder` holds the finding below.

Files: `values.dfy` (cell values, decimal names, the `<` order), `seqs.dfy` (sequence
helpers), `table.dfy`, `summary.dfy`, `sampling.dfy`, `metadata.dfy`, `scenarios.dfy`,
`keyorder.dfy`.

## Model

| member | source | states |
|---|---|---|
| Values.NatToString | src/METADATA.js:24-25 | `(x + 1).toString()`: at least one character, a single one exactly when the number is below 10, and the last is the digit `n % 10` |
| Values.NatToStringDigits | src/METADATA.js:24-25 | a default name consists of decimal digits only |
| Values.NatToStringInjective | src/METADATA.js:24-25 | different numbers give different names, so default names never collide |
| Values.ToText | src/METADATA.js:84-85 | `toString()` of a cell: a string is itself, a non-negative integer its decimal text, a negative one "-" before the text of its magnitude |
| Values.StrLessIrreflexive | src/METADATA.js:228-232 | string `<` never holds between a string and itself |
| Values.StrLessTransitive | src/METADATA.js:228-232 | string `<` is transitive |
| Values.StrLessTotal | src/METADATA.js:228-232 | of two different strings one is `<` the other |
| Values.Less | src/METADATA.js:228-232 | the comparator `a < b`: numbers by value, strings character by character, numbers before strings (the mixed case under Left out) |
| Values.LessIrreflexive | src/METADATA.js:228-232 | the comparison both sorts use is irreflexive on class values |
| Values.LessTransitive | src/METADATA.js:228-232 | that comparison is transitive |
| Values.LessTotal | src/METADATA.js:228-232 | that comparison orders any two different class values |
| Seqs.IndexOf | src/METADATA.js:136 | `indexOf`: -1 exactly when the element is absent, otherwise the position of its first occurrence |
| Seqs.IndexOfDistinct | src/METADATA.js:136 | in a sequence without repeats, `indexOf` finds each element at its own position |
| Seqs.Delete | src/METADATA.js:138 | `splice(id, 1)`: one element shorter, elements before `id` unchanged, later ones shifted down by one |
| Seqs.DeleteMembers | src/METADATA.js:138 | deleting from a sequence without repeats removes exactly that element |
| Seqs.Range | src/METADATA.js:243 | `[...Array(n).keys()]` is `0..n-1`, without repeats |
| Seqs.Gather | src/METADATA.js:262 | `result[e]` for each selected `e`: same length, element `k` is `v[idx[k]]` |
| Seqs.GatherDistinct | src/METADATA.js:261-262 | distinct positions looked up in a permutation give distinct rows |
| Seqs.ComplementSpec | src/METADATA.js:264-273 | the test index holds exactly the rows below `n` not in the training index, in ascending order |
| Seqs.Complement | src/METADATA.js:264-273 | the test index: the positions below `n` missing from the training index, each below `n`; ComplementSpec gives membership and order |
| Seqs.PartitionMultiset | src/METADATA.js:264-273 | the training and test rows together hold the class vector's values with their multiplicities |
| Seqs.PartitionSize | src/METADATA.js:264-273 | the sizes of the training and test index add up to the number of rows |
| Table.DefaultNames | src/METADATA.js:24-25 | `n` names, name `k` is the decimal text of `k + 1` |
| Table.DefaultNamesDistinct | src/METADATA.js:24-25 | default names are pairwise different |
| Table.ColumnName | src/METADATA.js:80-85 | the header of a new column: the given one as text, otherwise the column count plus one in decimal |
| Table.RowName | src/METADATA.js:98-103 | the ID of a new row: the given one as text, otherwise the row count plus one in decimal |
| Table.Build | src/METADATA.js:19-30 | the columns are kept; headers and IDs are the given ones or default to "1", "2", ... for the columns and for the rows of the first column |
| Table.BuildDefaultWellFormed | src/METADATA.js:19-30 | columns of equal length with default names make a well-formed table (shape and distinct names) |
| Table.Encode | src/METADATA.js:54-61 | `toJSON` names the object 'metadata' |
| Table.Decode | src/METADATA.js:40-48 | `load` succeeds exactly on the name 'metadata'; a missing or non-string name is the TypeError, another string the RangeError; what succeeds saves back to the same object |
| Table.LoadSaveRoundTrip | src/METADATA.js:40-61 | `load(toJSON())` gives back the same table |
| Table.AddColumn | src/METADATA.js:79-96 | duplicate header is an error; a column of other length than the first is a dimension error; otherwise header and column are appended; success exactly when neither error applies |
| Table.AddRow | src/METADATA.js:97-114 | duplicate ID is an error; a row of other length than the number of columns is a dimension error; otherwise each column receives its cell and the ID is appended; success exactly when neither error applies |
| Table.AddColumnWellFormed | src/METADATA.js:79-96 | a successful column append keeps the table well-formed |
| Table.AddRowWellFormed | src/METADATA.js:97-114 | a successful row append keeps the table well-formed |
| Table.Resolve | src/METADATA.js:130-134 | a string key stays as it is; a number becomes the name at that position, or nothing when out of range |
| Table.DropColumn | src/METADATA.js:135-141 | removing one column keeps the shape, the IDs and distinct headers |
| Table.DropRow | src/METADATA.js:148-154 | removing one row keeps the shape, the headers and distinct IDs |
| Table.SpliceCells | src/METADATA.js:152 | every column loses the cell at `id` |
| Table.RemoveColumns | src/METADATA.js:129-141 | `remove(index, 'column')` keeps a well-formed table well-formed |
| Table.RemoveRows | src/METADATA.js:142-154 | `remove(index, 'row')` keeps a well-formed table well-formed |
| Table.DropColumns | src/METADATA.js:135-141 | the second pass of `remove` by column keeps the shape, the IDs and distinct headers; DropColumnsKeep gives the columns kept |
| Table.DropRows | src/METADATA.js:148-154 | the second pass of `remove` by row keeps the shape, the headers and distinct IDs; DropRowsKeep gives the rows kept |
| Table.DropColumnsKeep | src/METADATA.js:135-141 | removing named columns one at a time leaves exactly the columns whose headers were not named, in their order |
| Table.RemoveColumnsKeep | src/METADATA.js:129-141 | `remove(index, 'column')` keeps exactly the columns whose header is not among the resolved keys |
| Table.DropRowsKeep | src/METADATA.js:148-154 | removing named rows one at a time leaves exactly the rows whose IDs were not named, in every column |
| Table.RemoveRowsKeep | src/METADATA.js:142-154 | `remove(index, 'row')` keeps exactly the rows whose ID is not among the resolved keys |
| Table.AddColumnThenRemove | src/METADATA.js:78-157 | appending a column and removing it by its header restores the table |
| Table.AddRowThenRemove | src/METADATA.js:78-157 | appending a row and removing it by its ID restores the table |
| Summary.Keys | src/METADATA.js:171 | `Object.keys(counts)` in the model's key order: one key per entry, key `k` the value of entry `k` |
| Summary.Bump | src/METADATA.js:219 | one step of the count: a value not yet a key is appended with count 1, a known key's count goes up by one (BumpKeys, BumpCount, BumpTotal) |
| Summary.Tally | src/METADATA.js:216-222 | the count object after scanning the vector left to right; TallyCounts and TallyOrder state its keys, counts and order |
| Summary.BumpTotal | src/METADATA.js:219 | each step of the count adds one to the total |
| Summary.TallyOrder | src/METADATA.js:216-222 | the keys of the count object appear in the order of their first occurrence |
| Summary.TallyCounts | src/METADATA.js:216-222 | the count object has distinct keys, exactly the values that occur, each with its number of occurrences, summing to the length |
| Summary.TallyDistinct | src/METADATA.js:216-222 | a vector without repeats has one key per value, each counted once |
| Summary.SummaryAClass | src/METADATA.js:216-222 | the loop computes the count object, with distinct keys, key present iff the value occurs, counts equal to multiplicities |
| Summary.Factorize | src/METADATA.js:177 | `classVector.map((x) => groupIDs.indexOf(x))`: code `i` names a group whose value is the row's value |
| Summary.FactorCounts | src/METADATA.js:177 | code `k` occurs as often as the `k`-th group's value occurs |
| Summary.View | src/METADATA.js:169-199 | the result of `get`: header, `nObs` the length, groups the count keys, `nClass` their number, counts as multiplicities summing to `nObs`, and values in the requested format with codes pointing at the right group; the groups and codes are what the source computes for columns of strings none of which is an array index (other columns under Left out) |
| Summary.Extract | src/METADATA.js:164-200 | `get` succeeds exactly when the header names a column, and then returns that column's view; otherwise it reports NoSuchColumn |
| Sampling.Quota | src/METADATA.js:246 | `Math.floor(count * fraction)` never exceeds the count and is 0 for an empty class |
| Sampling.InsertIndexSorted | src/METADATA.js:227-231 | inserting an index into a sorted order keeps it sorted |
| Sampling.InsertIndex | src/METADATA.js:227-231 | one insertion step of the sort: one position longer, all positions in range, holding the old positions and the new one |
| Sampling.SortOrder | src/METADATA.js:227-231 | the index array after its sort: `m` positions, all in range; SortOrderPermutes, SortOrderSorted and SortOrderMultiset state that it is a sorted permutation |
| Sampling.SortOrderPermutes | src/METADATA.js:227-231 | the sorted index array is a permutation of `0..n-1` |
| Sampling.SortOrderSorted | src/METADATA.js:227-231 | the rows in index order are sorted by the comparison |
| Sampling.SortOrderMultiset | src/METADATA.js:227-232 | the rows in index order are a permutation of the class vector |
| Sampling.SortedUnique | src/METADATA.js:232 | two sorted permutations of the same values are equal, so the sorted copy equals the rows in index order |
| Sampling.SortedTally | src/METADATA.js:232-235 | the counts of a sorted vector, written out class after class, give back the vector: each class forms one contiguous block |
| Sampling.ExpandAt | src/METADATA.js:240-241 | class `i` occupies the positions from `shift[i - 1]` on |
| Sampling.ExpandMultiplicity | src/METADATA.js:235 | writing out the counts gives each key exactly its count |
| Sampling.ScaleMultiplicity | src/METADATA.js:246 | scaling the counts gives each class its quota |
| Sampling.DrawWithoutReplacement | src/METADATA.js:243-251 | the draw returns `q` distinct positions below the class count |
| Sampling.CumulativeCounts | src/METADATA.js:240-241 | `shift[i]` is the sum of the counts of classes `0..i` |
| Sampling.Offset | src/METADATA.js:256 | `r.map((x) => x + shift[i - 1])`: same length, every draw moved up by the same base |
| Sampling.PickStep | src/METADATA.js:253-257 | one class's draws, shifted to its block, extend the selection by exactly that class's quota of its value |
| Sampling.PickPerClass | src/METADATA.js:239-258 | the selected positions are distinct and hold exactly each class's quota of its value |
| Sampling.SortBack | src/METADATA.js:261-262 | the training index maps each selected position through the sort order |
| Sampling.Mark | src/METADATA.js:264-273 | the mask is true exactly on training rows; the test index is the rest in ascending order |
| Sampling.TrainQuota | src/METADATA.js:239-262 | the training rows are distinct and hold `floor(count × fraction)` rows of every class |
| Sampling.SampleAClass | src/METADATA.js:224-275 | training rows distinct, with each class's quota; test rows the rest in ascending order; sizes add up; the mask marks the training rows; the test rows hold the remainder of every class |
| Sampling.Stratified | src/METADATA.js:224-275 | the outcome a split must have: distinct training rows holding each class's quota, the test rows as the ascending complement, the mask marking the training rows, the sizes adding up |
| Sampling.IrisCounts | src/__tests__/METADATA.test.js:17-28 | the iris vector has 50 rows of each of its three classes |
| Sampling.IrisTrainCounts | src/__tests__/METADATA.test.js:45-58 | forty rows per class is exactly the 0.8 quota of each iris class |
| Sampling.IrisStratified | src/__tests__/METADATA.test.js:45-58 | any stratified split of iris at 0.8 has 120 training rows, 30 test rows, and 10 test rows per class |
| Sampling.IrisSplit | src/__tests__/METADATA.test.js:45-58 | `sample('iris')` yields 120 training rows and 30 test rows with 10 of each class |
| Metadata.METADATA.constructor | src/METADATA.js:19-30 | the new object holds the table `Build` describes |
| Metadata.METADATA.Restore | src/METADATA.js:14-18 | `new METADATA(true, metadata)` takes the three sequences as they are |
| Metadata.METADATA.Load | src/METADATA.js:40-48 | `load` throws exactly what `Decode` reports, or returns a fresh object holding the decoded table |
| Metadata.METADATA.ToJSON | src/METADATA.js:54-61 | the saved object is named 'metadata' and loads back to the current state |
| Metadata.METADATA.List | src/METADATA.js:67-69 | `list` returns the headers as saved |
| Metadata.METADATA.AppendByColumn | src/METADATA.js:79-96 | the object becomes `AddColumn` of its old state, or stays unchanged with the error reported; well-formedness is kept |
| Metadata.METADATA.AppendByRow | src/METADATA.js:97-114 | the cell loop makes the object `AddRow` of its old state, or leaves it unchanged with the error reported; well-formedness is kept |
| Metadata.METADATA.Append | src/METADATA.js:78-118 | dispatch on 'column', which reads only the `header` option, and 'row', which reads only the `ID` option; any other `by` changes nothing |
| Metadata.METADATA.ResolveKeys | src/METADATA.js:130-134 | the first pass over the index computes `Resolve` |
| Metadata.METADATA.RemoveColumn | src/METADATA.js:135-141 | one step of the column pass removes the named column, if present |
| Metadata.METADATA.RemoveByColumn | src/METADATA.js:129-141 | the loop leaves the object in state `RemoveColumns` of the old state, well-formed if it was |
| Metadata.METADATA.SpliceColumns | src/METADATA.js:152 | every column loses cell `id`; headers and IDs unchanged |
| Metadata.METADATA.RemoveRow | src/METADATA.js:148-154 | one step of the row pass removes the named row from the IDs and every column, if present |
| Metadata.METADATA.RemoveByRow | src/METADATA.js:142-154 | the loop leaves the object in state `RemoveRows` of the old state, well-formed if it was |
| Metadata.METADATA.Remove | src/METADATA.js:125-157 | dispatch on 'column' and 'row'; any other `by` changes nothing |
| Metadata.METADATA.Get | src/METADATA.js:164-200 | `get` returns `Extract` of the current state |
| Metadata.METADATA.Sample | src/METADATA.js:202-213 | a missing column is NoSuchColumn; otherwise the class vector is the column and the split is stratified at the given fraction, 0.8 by default |
| Scenarios.ResolveExample | src/__tests__/METADATA.test.js:156 | the keys 0 and 2 name rows "1" and "3" |
| Scenarios.BuildExample | src/__tests__/METADATA.test.js:153 | one column gets header "1" and IDs "1", "2", "3" |
| Scenarios.AppendExample | src/__tests__/METADATA.test.js:154-155 | appending with numeric headers 2 and 3 gives headers "1", "2", "3" |
| Scenarios.DuplicateNameExample | src/__tests__/METADATA.test.js:129-141 | header 1 and ID 2 collide with default names and are rejected |
| Scenarios.RemoveByIndexExample | src/__tests__/METADATA.test.js:152-162 | removing rows [0, 2] and then columns [0, 2] leaves the single cell '5' |
| Scenarios.RemoveByIndexScenario | src/__tests__/METADATA.test.js:152-162 | the same scenario on an object: one column holding '5', ID "2" |
| KeyOrder.InsertAscending | src/METADATA.js:239-241 | placing an index key among index keys in ascending numeric order keeps that order |
| KeyOrder.ObjectKeys | src/METADATA.js:239-241 | JavaScript's key order: every array-index key comes before every other key; the index keys are in ascending numeric order; the other keys keep the order in which they were created |
| KeyOrder.ObjectKeysPermutes | src/METADATA.js:239-241 | that order only rearranges the count object's entries |
| KeyOrder.InsertMultiset | src/METADATA.js:239-241 | placing an index key among the others loses no entry |
| KeyOrder.SelectBlocks | src/METADATA.js:239-258 | the per-class loop as written: the draws of class `i` follow those of the classes before it, each moved up by the sum of those classes' counts; with draws inside each class's count, every selected position lies below the total |
| KeyOrder.AsWrittenMisplacesClass | src/METADATA.js:239-258 | with labels "10", "9", "9", JavaScript visits class "9" first and its legal draw 0 selects the row labelled "10" |

## Left out

- The Matrix library is not part of this model. The 'matrix' format of `get` is a
  `Column(rows, columns, data)` record holding the same codes as 'factor'.
- Randomness: `Math.random` in the draw becomes a nondeterministic choice among the
  remaining candidates. Every property holds for every choice.
- Fractions are `num / den` with `num <= den`, not floating point. The default 0.8 is
  4/5, and `Math.floor` is integer division. A fraction above 1 is not modelled: the
  source's draw loop then runs past the candidates left, reads `undefined` from the
  empty array, and `trainIndex` receives `undefined` entries.
- Numbers are integers. Non-integer and NaN cells are not modelled.
- Mixed comparisons: JavaScript's `<` between a number and a string converts the string
  to a number. The model orders all numbers before all strings, by value and then by
  characters.
- Strings compare character by character, on Dafny characters rather than UTF-16 code
  units.
- Sharing of arrays: the source pushes the caller's arrays into the object, and its test
  suite relies on that (`metadata.splice` changes the shared column). The model copies
  values and does not capture aliasing.
- The cloning of the class vector through JSON at line 226 copies values only, so it is
  the identity here.
- Summary.Tally: keys are class values in order of first occurrence. JavaScript
  stringifies keys, so `1` and `'1'` share one key. The order of `Object.keys` is modelled
  separately in module KeyOrder, used only for the finding.
- Summary.View: the model's `groups` are the class values in order of first occurrence.
  In the source they are `Object.keys(counts)` (line 171). Those keys are strings, and
  the keys that are array indices ("0", "1", "10", ...) come first, in ascending numeric
  order, before the other keys in creation order. The source therefore differs in two
  ways:
  - For a column of numbers the groups are "1", "2", ... rather than 1, 2, ....
    `groupIDs.indexOf(x)` at lines 177 and 183 uses strict equality, so every code of the
    'factor' and 'matrix' formats is -1.
  - For a column of strings some of which are array indices, such as ["3", "1", "2"], the
    groups come in numeric order (["1", "2", "3"]) and the codes follow that order
    ([2, 0, 1], where the model gives [0, 1, 2]).

  The model's groups and codes match the source only for columns of strings none of
  which is an array index.
- Summary.Tally: the source counts into a plain object, so a label that names a member of
  `Object.prototype` is miscounted at line 219. `'__proto__'` is never counted, since its
  setter ignores the string the sum produces. `'constructor'`, `'toString'` and the like
  start from the inherited function, so their counts become strings. Those strings then
  break `shift` and the draw loop at lines 241-256. The model counts every label as a
  value.
- Summary.Extract: a header that names no column is reported as NoSuchColumn. The source
  would throw a TypeError on `classVector.length`.
- Table.AddColumn: a column appended to a table with no column is reported as
  NoFirstColumn. The source throws a TypeError on `this.values[0]`.
- Metadata.METADATA.constructor: requires at least one column. The source throws a
  TypeError on `values[0].length`.
- Metadata.METADATA.Remove: takes a sequence of keys only. Where the source wraps a single
  index that is not an array into a one-element array (line 127), the caller of the model
  passes that one-element sequence.
- Default arguments are explicit: `by` for `append` and `remove`, `format` for `get`.
  A missing `fraction` for `sample` is `None`, which means 0.8.
- Metadata.METADATA.Get: a format other than 'factor' and 'matrix' is `Vector`.
- `load` checks only the `name`. The other fields are taken as given (a `Serialized`
  value).
- Sampling.SampleAClass: the sorted copy of line 232 is modelled as the rows taken in
  the order of line 227. `SortedUnique` proves the two are equal for any sort.
- `shift` is recomputed for every class, as at line 241.
- Sampling.SampleAClass: uses first-occurrence key order for the classes, which is the
  intended behaviour. The order of the code as written is the finding below.

## Findings

| source | as written | input that shows it | evidently intended | confidence | as-written member | corrected member |
|---|---|---|---|---|---|---|
| src/METADATA.js:239-258 | The loop takes classes in `Object.keys(counts)` order, which lists array-index keys in ascending numeric order before all others. The blocks of the sorted copy follow the string order of line 232. | class vector ["10", "9", "9"], fraction 0.8: class "9" (quota 1) gets block 0..1, and the draw 0 picks the row labelled "10" (quota 0) | each class draws only from its own block, so the training set holds `floor(count × fraction)` rows of every class | not executed | KeyOrder.AsWrittenMisplacesClass | Sampling.SampleAClass |
