/** The record selection of the CSV import (`uploadCSV`), over records that
    `encoding/csv` has already split into fields: find the header row, then
    keep the records that carry a numeric id and a name, in order. What is
    kept is what the handler inserts into the `users` table. */
module CsvImport {
  import opened Basics
  import opened GoStrings
  import opened GoStrconv

  type Record = seq<string>

  datatype Row = Row(id: int, name: string)

  datatype ImportResult =
    | EmptyFile                               // 400: no records at all
    | Imported(rows: seq<Row>, inserted: nat) // 201 with the number of rows

  /** The header row: at least two fields, the first `id` or `ID`, the
      second `name` or `Name`, after trimming white space. */
  predicate IsHeader(r: Record)
  {
    |r| >= 2
    && (TrimSpace(r[0]) == "id" || TrimSpace(r[0]) == "ID")
    && (TrimSpace(r[1]) == "name" || TrimSpace(r[1]) == "Name")
  }

  /** `startIndex`: one past the first header row, or 0 when there is none
      (DataStartMeans). */
  function DataStart(records: seq<Record>): (k: nat)
    ensures k <= |records|
  {
    if records == [] then 0
    else if IsHeader(records[0]) then 1
    else
      var k := DataStart(records[1..]);
      if k == 0 then 0 else k + 1
  }

  /** The header search loop. */
  method FindDataStart(records: seq<Record>) returns (startIndex: nat)
    ensures startIndex == DataStart(records)
  {
    startIndex := 0;
    for i := 0 to |records|
      invariant forall j :: 0 <= j < i ==> !IsHeader(records[j])
    {
      if IsHeader(records[i]) {
        startIndex := i + 1;
        DataStartIsFirstHeader(records, i);
        return;
      }
    }
    DataStartIsFirstHeader(records, |records|);
  }

  /** DataStart is fixed by the first header: with no header before `i`,
      it is `i + 1` if record `i` is one, and 0 if there is none at all. */
  lemma {:induction false} DataStartIsFirstHeader(records: seq<Record>, i: nat)
    requires i <= |records|
    requires forall j :: 0 <= j < i ==> !IsHeader(records[j])
    requires i < |records| ==> IsHeader(records[i])
    ensures DataStart(records) == if i < |records| then i + 1 else 0
  {
    if i > 0 {
      DataStartIsFirstHeader(records[1..], i - 1);
    } else if records != [] {
      assert IsHeader(records[0]);
    }
  }

  /** The record before DataStart is the first header row; with DataStart
      at 0 there is no header row at all. */
  lemma {:induction false} DataStartMeans(records: seq<Record>)
    ensures var k := DataStart(records);
      && (k > 0 ==> IsHeader(records[k - 1]) && forall j :: 0 <= j < k - 1 ==> !IsHeader(records[j]))
      && (k == 0 ==> forall j :: 0 <= j < |records| ==> !IsHeader(records[j]))
  {
    if records != [] && !IsHeader(records[0]) {
      DataStartMeans(records[1..]);
      var k := DataStart(records[1..]);
      forall j | 0 < j < |records| && (k > 0 ==> j < k)
        ensures !IsHeader(records[j])
      {
        assert records[j] == records[1..][j - 1];
      }
      if k > 0 {
        assert records[k] == records[1..][k - 1];
      }
    }
  }

  /** `isNumeric`: non-empty and accepted by `strconv.Atoi`. */
  predicate IsNumeric(s: string)
  {
    s != "" && Atoi(s).Some?
  }

  /** A numeric id is an optional sign followed by decimal digits, and its
      value must also fit in 64 bits (one more below zero). */
  lemma IsNumericMeans(s: string)
    ensures IsNumeric(s) <==>
      Unsigned(s) != "" && AllDigits(Unsigned(s))
      && DecimalValue(Unsigned(s)) <= (if s[0] == '-' then MaxInt64 + 1 else MaxInt64)
  {
  }

  /** A record the insert loop keeps: two fields or more, a non-empty
      trimmed id that is numeric, and a non-empty trimmed name. */
  predicate Importable(r: Record)
  {
    |r| >= 2 && TrimSpace(r[0]) != "" && TrimSpace(r[1]) != "" && IsNumeric(TrimSpace(r[0]))
  }

  function ToRow(r: Record): (row: Row)
    requires Importable(r)
    ensures row.name == TrimSpace(r[1]) && row.name != ""
    ensures Atoi(TrimSpace(r[0])) == Some(row.id)
  {
    Row(Atoi(TrimSpace(r[0])).value, TrimSpace(r[1]))
  }

  /** The rows the records yield, in order. */
  function Selected(records: seq<Record>): (rows: seq<Row>)
    ensures |rows| <= |records|
  {
    if records == [] then []
    else
      var last := records[|records| - 1];
      Selected(records[..|records| - 1]) + (if Importable(last) then [ToRow(last)] else [])
  }

  /** The checks the insert loop makes on one record, in its order; `None`
      where it moves on to the next record. The branch for an id that
      `strconv.Atoi` rejects cannot be reached: `isNumeric` has just
      accepted that same string. */
  method ReadRecord(record: Record) returns (row: Option<Row>)
    ensures row.Some? <==> Importable(record)
    ensures row.Some? ==> row.value == ToRow(record)
  {
    if |record| < 2 {
      return None;
    }
    var idStr := TrimSpace(record[0]);
    var name := TrimSpace(record[1]);
    if idStr == "" || name == "" {
      return None;
    }
    if !IsNumeric(idStr) {
      return None;
    }
    var id := Atoi(idStr);
    if id.None? {
      assert false;
    }
    row := Some(Row(id.value, name));
  }

  /** The insert loop of `uploadCSV`. An empty file is refused; otherwise
      the rows inserted are exactly the rows selected from the records after
      the header, and `inserted` is their number. */
  method ImportRecords(records: seq<Record>) returns (res: ImportResult)
    ensures res.EmptyFile? <==> records == []
    ensures res.Imported? ==>
      res.rows == Selected(records[DataStart(records)..]) && res.inserted == |res.rows|
  {
    if |records| == 0 {
      return EmptyFile;
    }
    var startIndex := FindDataStart(records);
    var rows: seq<Row> := [];
    var inserted := 0;
    for i := startIndex to |records|
      invariant rows == Selected(records[startIndex..i])
      invariant inserted == |rows|
    {
      var row := ReadRecord(records[i]);
      SelectedExtend(records, startIndex, i);
      if row.Some? {
        rows := rows + [row.value];
        inserted := inserted + 1;
      }
    }
    SliceToEnd(records, startIndex);
    res := Imported(rows, inserted);
  }

  /** One more record adds its row, if it has one, at the end. */
  lemma SelectedSnoc(prefix: seq<Record>, r: Record)
    ensures Selected(prefix + [r]) == Selected(prefix) + (if Importable(r) then [ToRow(r)] else [])
  {
    assert (prefix + [r])[..|prefix|] == prefix;
  }

  /** The selection from `lo` grows by record `hi`'s row, if it has one. */
  lemma SelectedExtend(records: seq<Record>, lo: nat, hi: nat)
    requires lo <= hi < |records|
    ensures Selected(records[lo..hi + 1])
      == Selected(records[lo..hi]) + (if Importable(records[hi]) then [ToRow(records[hi])] else [])
  {
    SliceExtend(records, lo, hi);
    SelectedSnoc(records[lo..hi], records[hi]);
  }

  // ---------------------------------------------------------------------
  // What the selection keeps

  /** Selection works record by record: it distributes over concatenation. */
  lemma {:induction false} SelectedAppend(a: seq<Record>, b: seq<Record>)
    ensures Selected(a + b) == Selected(a) + Selected(b)
    decreases |b|
  {
    if b != [] {
      var b' := b[..|b| - 1];
      FrontOfAppend(a, b);
      SelectedAppend(a, b');
    } else {
      assert a + b == a;
    }
  }

  /** Every selected row has a non-empty, already trimmed name and an id in
      the 64-bit range. */
  lemma {:induction false} SelectedRowsWellFormed(records: seq<Record>)
    ensures forall row :: row in Selected(records) ==>
      row.name != "" && TrimSpace(row.name) == row.name && MinInt64 <= row.id <= MaxInt64
    decreases |records|
  {
    if records != [] {
      var last := records[|records| - 1];
      SelectedRowsWellFormed(records[..|records| - 1]);
      if Importable(last) {
        TrimSpaceIdempotent(last[1]);
      }
    }
  }

  /** When every record is importable, each yields its row, in place. */
  lemma {:induction false} AllImportableAllSelected(records: seq<Record>)
    requires forall i :: 0 <= i < |records| ==> Importable(records[i])
    ensures |Selected(records)| == |records|
    ensures forall i :: 0 <= i < |records| ==> Selected(records)[i] == ToRow(records[i])
    decreases |records|
  {
    if records != [] {
      var init := records[..|records| - 1];
      AllImportableAllSelected(init);
      RowsExtend(init, records[|records| - 1]);
      SplitLast(records);
    }
  }

  /** The indexed form carries over to one more importable record. */
  lemma RowsExtend(init: seq<Record>, r: Record)
    requires Importable(r)
    requires forall i :: 0 <= i < |init| ==> Importable(init[i])
    requires |Selected(init)| == |init|
    requires forall i :: 0 <= i < |init| ==> Selected(init)[i] == ToRow(init[i])
    ensures var all := init + [r];
      |Selected(all)| == |all| && forall i :: 0 <= i < |all| ==> Selected(all)[i] == ToRow(all[i])
  {
    var all := init + [r];
    SelectedSnoc(init, r);
    var rows := Selected(all);
    assert rows == Selected(init) + [ToRow(r)];
    forall i | 0 <= i < |all|
      ensures rows[i] == ToRow(all[i])
    {
      if i < |init| {
        assert all[i] == init[i] && rows[i] == Selected(init)[i];
      } else {
        assert all[i] == r;
      }
    }
  }

  /** Records without a numeric id and a name yield nothing. */
  lemma {:induction false} NoneImportableNoneSelected(records: seq<Record>)
    requires forall i :: 0 <= i < |records| ==> !Importable(records[i])
    ensures Selected(records) == []
    decreases |records|
  {
    if records != [] {
      NoneImportableNoneSelected(records[..|records| - 1]);
    }
  }

  /** Without a header row the data starts at the first record. */
  lemma NoHeaderReadsEverything(records: seq<Record>)
    requires forall j :: 0 <= j < |records| ==> !IsHeader(records[j])
    ensures DataStart(records) == 0
  {
    DataStartIsFirstHeader(records, |records|);
  }

  /** A header row is never imported as data: "id" is not a number. */
  lemma HeaderIsNotImportable(r: Record)
    requires IsHeader(r)
    ensures !Importable(r)
  {
    var id := TrimSpace(r[0]);
    assert !IsDigit(id[0]);
  }
}
