/**
 The `Dataset` container: column labels, records of text fields and the
 position of the decision-class field. Ingestion parses lines of delimited
 text; inspection counts and filters records by class; partitioning shuffles
 a copy of the records and cuts it into training, test and validation parts;
 persistence assembles the rows that are written out.
 */
module Datasets {
  import opened Wrappers
  import opened Strings
  import opened Indexing
  import Counting
  import Shuffling

  /** One record: its fields, all text. */
  type Record = seq<string>

  /** The exceptions the container lets escape. */
  datatype Error =
    | IndexOutOfRange              // IndexError from reading the class field of a row
    | RatioSumNotOne(total: real)  // ValueError carrying the computed sum of the proportions

  /** How far the three proportions may sum away from 1. */
  const Tolerance: real := 0.000001

  // ----- Ingestion -----

  /** `line.rstrip('\n').split(delimiter)`. */
  function ParseLine(line: string, delimiter: char): (r: Record)
    ensures |r| == Occurrences(RStrip(line, {'\n'}), delimiter) + 1
  {
    Split(RStrip(line, {'\n'}), delimiter)
  }

  /** A parsed line is the line without its trailing newlines, cut at every delimiter. */
  lemma ParseLineFields(line: string, delimiter: char)
    ensures Join(ParseLine(line, delimiter), delimiter) == RStrip(line, {'\n'})
    ensures |ParseLine(line, delimiter)| == Occurrences(RStrip(line, {'\n'}), delimiter) + 1
    ensures forall k :: 0 <= k < |ParseLine(line, delimiter)| ==> delimiter !in ParseLine(line, delimiter)[k]
  {
    JoinSplit(RStrip(line, {'\n'}), delimiter);
  }

  /** `[label.strip() for label in row]`. */
  function TrimLabels(row: Record): (r: seq<string>)
    ensures |r| == |row|
  {
    seq(|row|, k requires 0 <= k < |row| => Strip(row[k]))
  }

  /** Labels that have no surrounding whitespace are kept as they are. */
  lemma TrimLabelsKeepsStripped(row: Record)
    requires forall k :: 0 <= k < |row| ==> Strip(row[k]) == row[k]
    ensures TrimLabels(row) == row
  {
  }

  function ParseLines(lines: seq<string>, delimiter: char): seq<Record> {
    seq(|lines|, k requires 0 <= k < |lines| => ParseLine(lines[k], delimiter))
  }

  /** Parsing one more line appends its record. */
  lemma ParseLinesExtend(lines: seq<string>, a: nat, b: nat, delimiter: char)
    requires a <= b < |lines|
    ensures ParseLines(lines[a..b + 1], delimiter) == ParseLines(lines[a..b], delimiter) + [ParseLine(lines[b], delimiter)]
  {
  }

  /** What one pass of `read_data` over `lines` yields: the header's labels when the
      header flag is set and there is a first line, and the records in file order. */
  datatype Ingested = Ingested(labels: Option<seq<string>>, records: seq<Record>)

  function Ingest(lines: seq<string>, header: bool, delimiter: char): (r: Ingested)
    ensures r.labels.Some? <==> header && |lines| > 0
    ensures |r.records| == |lines| - (if r.labels.Some? then 1 else 0)
  {
    if header && |lines| > 0
    then Ingested(Some(TrimLabels(ParseLine(lines[0], delimiter))), ParseLines(lines[1..], delimiter))
    else Ingested(None, ParseLines(lines, delimiter))
  }

  /** Reading one more line: the first line of a file with a header gives the labels,
      any other line appends its record and keeps the labels. */
  lemma IngestStep(lines: seq<string>, header: bool, delimiter: char, n: nat)
    requires n < |lines|
    ensures var before, after := Ingest(lines[..n], header, delimiter), Ingest(lines[..n + 1], header, delimiter);
            if n == 0 && header
            then after == Ingested(Some(TrimLabels(ParseLine(lines[0], delimiter))), [])
            else after.labels == before.labels && after.records == before.records + [ParseLine(lines[n], delimiter)]
  {
    var skip := if header then 1 else 0;
    if n == 0 && header {
      assert lines[..1][0] == lines[0] && lines[..1][1..] == [];
    } else {
      if header {
        assert lines[..n + 1][0] == lines[0] == lines[..n][0];
      }
      assert lines[..n + 1][skip..] == lines[skip..n + 1];
      assert lines[..n][skip..] == lines[skip..n];
      ParseLinesExtend(lines, skip, n, delimiter);
    }
  }

  /** With the header flag the first line gives the labels, each without surrounding
      whitespace, and every later line gives one record; without it every line gives
      a record. Each record joined back with the delimiter is its line without the
      trailing newlines, and has one field more than that text has delimiters. */
  lemma IngestLines(lines: seq<string>, header: bool, delimiter: char)
    ensures var r, skip := Ingest(lines, header, delimiter), if header && |lines| > 0 then 1 else 0;
            && (r.labels.Some? <==> header && |lines| > 0)
            && (r.labels.Some? ==>
                  |r.labels.value| == |ParseLine(lines[0], delimiter)| &&
                  forall k :: 0 <= k < |r.labels.value| ==>
                    r.labels.value[k] == Strip(ParseLine(lines[0], delimiter)[k]))
            && |r.records| == |lines| - skip
            && forall k :: 0 <= k < |r.records| ==>
                 && Join(r.records[k], delimiter) == RStrip(lines[k + skip], {'\n'})
                 && |r.records[k]| == Occurrences(RStrip(lines[k + skip], {'\n'}), delimiter) + 1
  {
    var r, skip := Ingest(lines, header, delimiter), if header && |lines| > 0 then 1 else 0;
    forall k | 0 <= k < |r.records|
      ensures Join(r.records[k], delimiter) == RStrip(lines[k + skip], {'\n'})
      ensures |r.records[k]| == Occurrences(RStrip(lines[k + skip], {'\n'}), delimiter) + 1
    {
      ParseLineFields(lines[k + skip], delimiter);
    }
  }

  // ----- The class field -----

  /** `row[i]` can be read: `i` is a valid, possibly negative, index of `row`. */
  predicate HasField(row: Record, i: int) {
    ResolveIndex(|row|, i).Some?
  }

  /** `row[i]` under Python's indexing rule. */
  function Field(row: Record, i: int): (f: string)
    requires HasField(row, i)
    ensures 0 <= i ==> f == row[i]
    ensures i < 0 ==> f == row[|row| + i]
  {
    row[ResolveIndex(|row|, i).value]
  }

  /** Every row has a class field at `i`; otherwise reading the class raises. */
  predicate AllHaveField(rows: seq<Record>, i: int) {
    forall k :: 0 <= k < |rows| ==> HasField(rows[k], i)
  }

  /** The class value of every row, in row order. */
  function ClassValues(rows: seq<Record>, i: int): seq<string>
    requires AllHaveField(rows, i)
  {
    seq(|rows|, k requires 0 <= k < |rows| => Field(rows[k], i))
  }

  /** The class values of a non-empty list: the first row's, then the rest's. */
  lemma ClassValuesCons(rows: seq<Record>, i: int)
    requires rows != [] && AllHaveField(rows, i)
    ensures AllHaveField(rows[1..], i)
    ensures ClassValues(rows, i) == [Field(rows[0], i)] + ClassValues(rows[1..], i)
  {
    assert forall k :: 0 <= k < |rows| - 1 ==> rows[1..][k] == rows[k + 1];
  }

  /** The class values of the first `n + 1` rows: those of the first `n`, then row `n`'s. */
  lemma ClassValuesSnoc(rows: seq<Record>, i: int, n: nat)
    requires n < |rows| && AllHaveField(rows[..n], i) && HasField(rows[n], i)
    ensures AllHaveField(rows[..n + 1], i)
    ensures ClassValues(rows[..n + 1], i) == ClassValues(rows[..n], i) + [Field(rows[n], i)]
  {
    assert forall k :: 0 <= k < n ==> rows[..n + 1][k] == rows[..n][k];
  }

  // ----- Rows of one class -----

  /** `a` is `b` with some elements left out, the rest in their order. */
  predicate IsSubsequence<T(==)>(a: seq<T>, b: seq<T>) {
    if a == [] then true
    else if b == [] then false
    else if a[0] == b[0] then IsSubsequence(a[1..], b[1..])
    else IsSubsequence(a, b[1..])
  }

  /** `[row for row in rows if row[i] == v]`: the rows of class `v`, each with its
      multiplicity, in their original order, and nothing else. */
  function MatchingRows(rows: seq<Record>, i: int, v: string): (r: seq<Record>)
    requires AllHaveField(rows, i)
    ensures forall k :: 0 <= k < |r| ==> r[k] in rows && HasField(r[k], i) && Field(r[k], i) == v
  {
    if rows == [] then []
    else
      var rest := MatchingRows(rows[1..], i, v);
      if Field(rows[0], i) == v then [rows[0]] + rest else rest
  }

  /** The rows of class `v` keep the order they had among all the rows. */
  lemma {:induction false} MatchingRowsInOrder(rows: seq<Record>, i: int, v: string)
    requires AllHaveField(rows, i)
    ensures IsSubsequence(MatchingRows(rows, i, v), rows)
  {
    if rows != [] {
      MatchingRowsInOrder(rows[1..], i, v);
    }
  }

  /** Every row of class `v` is kept as often as it occurs, and no other row is. */
  lemma {:induction false} MatchingRowsMultiplicity(rows: seq<Record>, i: int, v: string)
    requires AllHaveField(rows, i)
    ensures forall x :: x in rows ==>
              multiset(MatchingRows(rows, i, v))[x] == (if Field(x, i) == v then multiset(rows)[x] else 0)
    ensures forall x :: x !in rows ==> multiset(MatchingRows(rows, i, v))[x] == 0
  {
    if rows != [] {
      MatchingRowsMultiplicity(rows[1..], i, v);
      assert rows == [rows[0]] + rows[1..];
    }
  }

  /** No row is kept exactly when no row has class `v`. */
  lemma {:induction false} MatchingRowsEmpty(rows: seq<Record>, i: int, v: string)
    requires AllHaveField(rows, i)
    ensures MatchingRows(rows, i, v) == [] <==> forall k :: 0 <= k < |rows| ==> Field(rows[k], i) != v
  {
    if rows != [] {
      MatchingRowsEmpty(rows[1..], i, v);
      assert forall k :: 1 <= k < |rows| ==> rows[k] == rows[1..][k - 1];
    }
  }

  /** As many rows have class `v` as `v` occurs among the class values. */
  lemma {:induction false} MatchingRowsCount(rows: seq<Record>, i: int, v: string)
    requires AllHaveField(rows, i)
    ensures |MatchingRows(rows, i, v)| == multiset(ClassValues(rows, i))[v]
  {
    if rows != [] {
      ClassValuesCons(rows, i);
      MatchingRowsCount(rows[1..], i, v);
    }
  }

  // ----- Class counts -----

  /** The class counts list every class value of the rows once, in the order in which
      the values first appear. */
  lemma ClassCountsKeys(rows: seq<Record>, i: int)
    requires AllHaveField(rows, i)
    ensures var vs := ClassValues(rows, i); var t := Counting.Tally(vs);
            && (forall a, b :: 0 <= a < b < |t| ==> t[a].0 != t[b].0)
            && (forall k :: 0 <= k < |rows| ==> exists e :: 0 <= e < |t| && t[e].0 == Field(rows[k], i))
            && (forall e :: 0 <= e < |t| ==> t[e].0 in vs)
            && (forall a, b :: 0 <= a < b < |t| ==>
                  Counting.FirstIndex(vs, t[a].0) < Counting.FirstIndex(vs, t[b].0))
  {
    var vs := ClassValues(rows, i);
    var t := Counting.Tally(vs);
    Counting.TallyEntries(vs);
    Counting.TallyDistinct(vs);
    Counting.TallyFirstOccurrenceOrder(vs);
    forall k | 0 <= k < |rows| ensures exists e :: 0 <= e < |t| && t[e].0 == Field(rows[k], i) {
      assert vs[k] == Field(rows[k], i);
    }
  }

  /** Each class count is at least 1 and is the number of rows `get_rows_by_class`
      returns for that class; the counts add up to the number of rows. */
  lemma ClassCountsSizes(rows: seq<Record>, i: int)
    requires AllHaveField(rows, i)
    ensures var t := Counting.Tally(ClassValues(rows, i));
            && (forall e :: 0 <= e < |t| ==> t[e].1 >= 1 && t[e].1 == |MatchingRows(rows, i, t[e].0)|)
            && Counting.TotalCount(t) == |rows|
  {
    var vs := ClassValues(rows, i);
    var t := Counting.Tally(vs);
    Counting.TallyEntries(vs);
    Counting.TallyTotal(vs);
    forall e | 0 <= e < |t| ensures t[e].1 == |MatchingRows(rows, i, t[e].0)| {
      MatchingRowsCount(rows, i, t[e].0);
    }
  }

  // ----- Partitioning -----

  /** The training, test and validation parts of a split. */
  datatype Parts = Parts(train: seq<Record>, test: seq<Record>, valid: seq<Record>)

  /** The cuts of `data_split` applied to the already shuffled `s`. */
  function Partition(s: seq<Record>, trainPct: real, testPct: real): (p: Parts)
    ensures |p.train| <= |s| && |p.test| <= |s| && |p.valid| <= |s|
  {
    var trainLast := CutIndex(|s|, trainPct);
    var testLast := CutIndex(|s|, trainPct + testPct);
    Parts(Slice(s, 0, trainLast), Slice(s, trainLast, testLast), Slice(s, testLast, |s|))
  }

  /** `int(n * pct)`: where a proportion `pct` of `n` records ends. */
  function CutIndex(n: nat, pct: real): (c: int)
    ensures 0.0 <= pct ==> 0 <= c
    ensures pct <= 0.0 ==> c <= 0
    ensures pct <= 1.0 ==> c <= n
  {
    assert pct <= 1.0 ==> n as real * pct <= n as real by {
      if pct <= 1.0 {
        if n > 0 && pct > 0.0 {
          assert n as real * pct <= n as real * 1.0;
        }
      }
    }
    Truncate(n as real * pct)
  }

  function Min(a: int, b: int): int {
    if a <= b then a else b
  }

  /** With non-negative training and test proportions the three parts are consecutive
      pieces of `s` that together make up `s`: training holds the first
      `floor(n * trainPct)` records, training and test together the first
      `floor(n * (trainPct + testPct))` (both at most `n`), validation the rest. */
  lemma PartitionSizes(s: seq<Record>, trainPct: real, testPct: real)
    requires trainPct >= 0.0 && testPct >= 0.0
    ensures var p, n := Partition(s, trainPct, testPct), |s|;
            && p.train + p.test + p.valid == s
            && |p.train| == Min(n, (n as real * trainPct).Floor)
            && |p.train| + |p.test| == Min(n, (n as real * (trainPct + testPct)).Floor)
            && |p.valid| == n - (|p.train| + |p.test|)
  {
    var n := |s|;
    CutIndexesOrdered(n, trainPct, testPct);
    CutsCover(s, CutIndex(n, trainPct), CutIndex(n, trainPct + testPct));
  }

  /** With non-negative proportions each cut is the floor of its scaled proportion, and
      the training cut comes first. */
  lemma CutIndexesOrdered(n: nat, trainPct: real, testPct: real)
    requires trainPct >= 0.0 && testPct >= 0.0
    ensures CutIndex(n, trainPct) == (n as real * trainPct).Floor
    ensures CutIndex(n, trainPct + testPct) == (n as real * (trainPct + testPct)).Floor
    ensures 0 <= CutIndex(n, trainPct) <= CutIndex(n, trainPct + testPct)
  {
    ScaledCutsOrdered(n, trainPct, testPct);
  }

  /** Cutting `s` at `0 <= c1 <= c2` gives consecutive pieces that make up `s`. */
  lemma CutsCover(s: seq<Record>, c1: int, c2: int)
    requires 0 <= c1 <= c2
    ensures var n := |s|;
            var train, test, valid := Slice(s, 0, c1), Slice(s, c1, c2), Slice(s, c2, n);
            && train + test + valid == s
            && |train| == Min(n, c1)
            && |train| + |test| == Min(n, c2)
            && |valid| == n - (|train| + |test|)
  {
    SlicesCover(s, c1, c2);
  }

  /** Both cut points are non-negative and the training cut comes first. */
  lemma ScaledCutsOrdered(n: nat, trainPct: real, testPct: real)
    requires trainPct >= 0.0 && testPct >= 0.0
    ensures 0.0 <= n as real * trainPct <= n as real * (trainPct + testPct)
    ensures 0 <= (n as real * trainPct).Floor <= (n as real * (trainPct + testPct)).Floor
  {
    var a, b := n as real * trainPct, n as real * testPct;
    assert n as real * (trainPct + testPct) == a + b;
  }

  /** For any proportions, the training part is a prefix of `s` and the validation part
      a suffix. */
  lemma PartitionEnds(s: seq<Record>, trainPct: real, testPct: real)
    ensures var p := Partition(s, trainPct, testPct);
            && p.train == s[..|p.train|]
            && p.valid == s[|s| - |p.valid|..]
  {
  }

  /** The validation part is always what is left after the test cut. */
  lemma PartitionValidIsRest(s: seq<Record>, trainPct: real, testPct: real)
    ensures var p := Partition(s, trainPct, testPct);
            p.valid == s[SliceBound(|s|, CutIndex(|s|, trainPct + testPct))..]
  {
  }

  /** Ten records cut with the default proportions 0.7 and 0.2, in exact arithmetic,
      give parts of 7, 2 and 1 records. */
  lemma TenRecordsDefaultProportions(s: seq<Record>)
    requires |s| == 10
    ensures var p := Partition(s, 0.7, 0.2);
            |p.train| == 7 && |p.test| == 2 && |p.valid| == 1
  {
    PartitionSizes(s, 0.7, 0.2);
  }

  /** Thirty records cut with the default proportions, in exact arithmetic, give parts
      of 21, 6 and 3 records. */
  lemma ThirtyRecordsDefaultProportions(s: seq<Record>)
    requires |s| == 30
    ensures var p := Partition(s, 0.7, 0.2);
            |p.train| == 21 && |p.test| == 6 && |p.valid| == 3
  {
    PartitionSizes(s, 0.7, 0.2);
  }

  // ----- Persistence -----

  /** The rows `save_to_csv` hands to the writer: the labels as a header row when there
      are labels, then the given rows in their order. */
  function HeaderAndRows(labels: seq<string>, dataList: seq<Record>): (rows: seq<Record>)
    ensures labels != [] ==> |rows| == |dataList| + 1 && rows[0] == labels && rows[1..] == dataList
    ensures labels == [] ==> rows == dataList
  {
    if labels != [] then [labels] + dataList else dataList
  }

  /** The writer emits `row` without quoting: it is not the empty row, it is not the single
      empty field (written as `""`), and no field holds a comma, a quote or a line break. */
  predicate PlainRow(row: Record) {
    && |row| >= 1
    && Join(row, ',') != ""
    && forall k :: 0 <= k < |row| ==>
         ',' !in row[k] && '"' !in row[k] && '\n' !in row[k] && '\r' !in row[k]
  }

  /** The line `csv.writer` writes for a plain row, once reading the file back in text
      mode has turned its "\r\n" terminator into "\n". */
  function CsvLine(row: Record): (line: string)
    requires PlainRow(row)
    ensures |line| >= 2 && line[|line| - 1] == '\n' && '\n' !in line[..|line| - 1]
  {
    JoinAvoids(row, ',', '\n');
    var s := Join(row, ',');
    assert (s + "\n")[..|s|] == s;
    s + "\n"
  }

  function CsvLines(rows: seq<Record>): seq<string>
    requires forall k :: 0 <= k < |rows| ==> PlainRow(rows[k])
  {
    seq(|rows|, k requires 0 <= k < |rows| => CsvLine(rows[k]))
  }

  /** Reading back the line written for a plain row gives the row. */
  lemma ParseCsvLine(row: Record)
    requires PlainRow(row)
    ensures ParseLine(CsvLine(row), ',') == row
  {
    var s := Join(row, ',');
    JoinAvoids(row, ',', '\n');
    assert (s + "\n")[..|s|] == s;
    assert RStrip(s + "\n", {'\n'}) == RStrip(s, {'\n'});
    assert s[|s| - 1] in s;
    assert RStrip(s, {'\n'}) == s;
    SplitJoin(row, ',');
  }

  /** Saving and loading agree: the lines written for the labels (if any) and the rows,
      read back with a comma delimiter and the header flag set exactly when there are
      labels, give back the same labels and rows, provided nothing needs quoting and no
      label has surrounding whitespace. */
  lemma SaveThenRead(labels: seq<string>, dataList: seq<Record>)
    requires labels == [] || PlainRow(labels)
    requires forall k :: 0 <= k < |labels| ==> Strip(labels[k]) == labels[k]
    requires forall k :: 0 <= k < |dataList| ==> PlainRow(dataList[k])
    ensures var rows := HeaderAndRows(labels, dataList);
            && (forall k :: 0 <= k < |rows| ==> PlainRow(rows[k]))
            && Ingest(CsvLines(rows), labels != [], ',')
               == Ingested(if labels != [] then Some(labels) else None, dataList)
  {
    var rows := HeaderAndRows(labels, dataList);
    assert forall k :: 0 <= k < |rows| ==> PlainRow(rows[k]);
    var lines := CsvLines(rows);
    var skip := if labels != [] then 1 else 0;
    forall k | 0 <= k < |dataList| ensures ParseLine(lines[k + skip], ',') == dataList[k] {
      assert rows[k + skip] == dataList[k];
      ParseCsvLine(dataList[k]);
    }
    assert ParseLines(lines[skip..], ',') == dataList;
    if labels != [] {
      ParseCsvLine(labels);
      TrimLabelsKeepsStripped(labels);
    }
  }

  // ----- The container -----

  class Dataset {
    var data: seq<Record>
    var labels: seq<string>
    var classColumnIndex: int

    /** An empty dataset whose class field is the last one. */
    constructor ()
      ensures data == [] && labels == [] && classColumnIndex == -1
    {
      data := [];
      labels := [];
      classColumnIndex := -1;
    }

    /** `read_data` over the lines of a file: sets the class-field index, replaces the
        labels when a header is read, and appends every other line's record to `data`,
        which is never cleared. A file that cannot be opened is the empty sequence of
        lines; one that fails part-way is the lines read before the failure. */
    method ReadData(lines: seq<string>, header: bool := true, delimiter: char := ',', classColIndex: int := -1)
      modifies this
      ensures classColumnIndex == classColIndex
      ensures var r := Ingest(lines, header, delimiter);
              && data == old(data) + r.records
              && labels == (if r.labels.Some? then r.labels.value else old(labels))
    {
      classColumnIndex := classColIndex;
      var lineIdx := 0;
      while lineIdx < |lines|
        invariant 0 <= lineIdx <= |lines|
        invariant classColumnIndex == classColIndex
        invariant var r := Ingest(lines[..lineIdx], header, delimiter);
                  && data == old(data) + r.records
                  && labels == (if r.labels.Some? then r.labels.value else old(labels))
      {
        IngestStep(lines, header, delimiter, lineIdx);
        var row := ParseLine(lines[lineIdx], delimiter);
        if lineIdx == 0 && header {
          labels := TrimLabels(row);
        } else {
          data := data + [row];
        }
        lineIdx := lineIdx + 1;
      }
      assert lines[..|lines|] == lines;
    }

    /** `get_labels`: the stored labels themselves. */
    function GetLabels(): (r: seq<string>)
      reads this
      ensures r == labels
    {
      labels
    }

    /** `get_number_of_classes`: counts the class values in a dict, in order of first
        occurrence; raises when some row lacks the class field. */
    method GetNumberOfClasses() returns (r: Result<seq<(string, nat)>, Error>)
      ensures r.Failure? <==> !AllHaveField(data, classColumnIndex)
      ensures r.Failure? ==> r.error == IndexOutOfRange
      ensures r.Success? ==> r.value == Counting.Tally(ClassValues(data, classColumnIndex))
    {
      var rows, i := data, classColumnIndex;
      var classCounts: Counting.Dict<string> := Counting.Dict([], map[]);
      var n := 0;
      ghost var vals: seq<string> := [];
      while n < |rows|
        invariant 0 <= n <= |rows|
        invariant AllHaveField(rows[..n], i) && vals == ClassValues(rows[..n], i)
        invariant classCounts == Counting.CountAll(vals)
      {
        var row := rows[n];
        var p := ResolveIndex(|row|, i);
        if p.None? {
          assert !HasField(rows[n], i);
          return Failure(IndexOutOfRange);
        }
        var className := row[p.value];
        ClassValuesSnoc(rows, i, n);
        Counting.CountAllSnoc(vals, className);
        classCounts := Counting.Put(classCounts, className, Counting.Get(classCounts, className) + 1);
        vals := vals + [className];
        n := n + 1;
      }
      assert rows[..n] == rows;
      Counting.CountAllCounts(vals);
      Counting.CountedItems(vals, classCounts);
      r := Success(Counting.Items(classCounts));
    }

    /** `data_split`: rejects proportions whose sum is off 1 by more than the tolerance,
        reporting the sum; otherwise shuffles a copy of the records with the draws of
        `pick` and cuts it. The records themselves are left in place, and the three parts
        hold exactly the records, whenever the training and test proportions are not
        negative. */
    method DataSplit(trainPct: real := 0.7, testPct: real := 0.2, valPct: real := 0.1, pick: nat -> nat)
      returns (r: Result<Parts, Error>)
      ensures var total := trainPct + testPct + valPct;
              && (r.Failure? <==> Abs(total - 1.0) > Tolerance)
              && (r.Failure? ==> r.error == RatioSumNotOne(total))
      ensures r.Success? ==> r.value == Partition(Shuffling.Shuffled(data, pick), trainPct, testPct)
      ensures r.Success? && trainPct >= 0.0 && testPct >= 0.0 ==>
                && r.value.train + r.value.test + r.value.valid == Shuffling.Shuffled(data, pick)
                && multiset(r.value.train + r.value.test + r.value.valid) == multiset(data)
    {
      var totalRatio := trainPct + testPct + valPct;
      if Abs(totalRatio - 1.0) > Tolerance {
        return Failure(RatioSumNotOne(totalRatio));
      }
      var records := data;
      var dataCopy := new Record[|records|](k requires 0 <= k < |records| => records[k]);
      assert dataCopy[..] == records;
      Shuffling.ShuffleInPlace(dataCopy, pick);
      r := Success(Partition(dataCopy[..], trainPct, testPct));
      if trainPct >= 0.0 && testPct >= 0.0 {
        PartitionSizes(dataCopy[..], trainPct, testPct);
        Shuffling.ShuffledIsPermutation(records, pick);
      }
    }

    /** `save_to_csv` without the file: the rows given to the writer. */
    function SaveRows(dataList: seq<Record>): (rows: seq<Record>)
      reads this
      ensures labels != [] ==> |rows| == |dataList| + 1 && rows[0] == labels && rows[1..] == dataList
      ensures labels == [] ==> rows == dataList
    {
      HeaderAndRows(labels, dataList)
    }

    /** `get_rows_by_class`: the rows whose class field is exactly `classValue`, none when
        no row has it; raises when some row lacks the class field. */
    function GetRowsByClass(classValue: string): (r: Result<seq<Record>, Error>)
      reads this
      ensures r.Failure? <==> !AllHaveField(data, classColumnIndex)
      ensures r.Failure? ==> r.error == IndexOutOfRange
      ensures r.Success? ==> r.value == MatchingRows(data, classColumnIndex, classValue)
      ensures r.Success? ==>
                (r.value == [] <==> forall k :: 0 <= k < |data| ==> Field(data[k], classColumnIndex) != classValue)
    {
      if AllHaveField(data, classColumnIndex)
      then MatchingRowsEmpty(data, classColumnIndex, classValue);
        Success(MatchingRows(data, classColumnIndex, classValue))
      else Failure(IndexOutOfRange)
    }
  }

  /** A caller loading a header and ten records and splitting them: proportions summing
      to 1.1 are refused with that sum, the default proportions give parts of 7, 2 and 1
      records that together hold the ten records, and the dataset is left as it was. */
  method SplitScenario(lines: seq<string>, pick: nat -> nat)
    requires |lines| == 11
  {
    var ds := new Dataset();
    ds.ReadData(lines);
    assert |ds.data| == 10;
    var loaded := ds.data;
    var refused := ds.DataSplit(0.7, 0.3, 0.1, pick);
    assert refused == Failure(RatioSumNotOne(1.1));
    var parts := ds.DataSplit(pick := pick);
    assert parts.Success?;
    Shuffling.ShuffledIsPermutation(loaded, pick);
    TenRecordsDefaultProportions(Shuffling.Shuffled(loaded, pick));
    assert |parts.value.train| == 7 && |parts.value.test| == 2 && |parts.value.valid| == 1;
    assert multiset(parts.value.train + parts.value.test + parts.value.valid) == multiset(loaded);
    assert ds.data == loaded;
  }
}
