/** The CSV ledger of collected products (`to_csv`): appending new `NUM`s
    to an existing file, or writing a fresh one. A file is modelled as its
    header and its rows of cells, as `csv.DictReader` sees them. */
module CsvLedger {
  import opened Results
  import opened Text
  import opened Records
  import opened AmountKeys
  import opened Grouping

  /** The columns of a freshly written ledger, before any `AMT_NUM` ones. */
  const BaseColumns: seq<string> :=
    ["NUM", "MAKER_NM", "FOOD_NM_KR", "FOOD_CAT1_NM", "SERVING_SIZE", "NUTRI_AMOUNT_SERVING", "Z10500"]

  datatype Ledger = Ledger(header: seq<string>, rows: seq<seq<string>>)

  datatype Mode = AppendMode | WriteMode

  /** The dict `to_csv` returns. */
  datatype Summary = Summary(mode: Mode, appended: nat, skipped: nat, columns: seq<string>, totalExisting: nat)

  /** The existing file has no `NUM` column (a `RuntimeError` in the source). */
  datatype LedgerError = NoNumColumn

  /** A record's `NUM`, stripped; a missing field reads as "". */
  function RecordNum(r: Record): string
  {
    StrippedField(r, NumField)
  }

  /** The last position of `k` in `h`: the column whose cell a `dict(zip(...))`
      keeps when a name repeats. */
  function LastIndex(h: seq<string>, k: string): (r: Option<nat>)
    ensures r.None? <==> k !in h
    ensures r.Some? ==> r.value < |h| && h[r.value] == k
    ensures r.Some? ==> forall j :: r.value < j < |h| ==> h[j] != k
  {
    if h == [] then None
    else if h[|h| - 1] == k then Some(|h| - 1)
    else LastIndex(h[..|h| - 1], k)
  }

  /** `str(row.get("NUM", "")).strip()` for a row read by `DictReader`: a
      row too short to reach a `NUM` column gets `None` there, which `str`
      renders as "None". */
  function ReadNum(header: seq<string>, row: seq<string>): (n: string)
    ensures NumField !in header ==> n == ""
    ensures (exists j :: |row| <= j < |header| && header[j] == NumField) ==> n == "None"
    ensures NumField in header && |row| >= |header| ==> n == Strip(row[LastIndex(header, NumField).value])
  {
    var cut := if |row| < |header| then |row| else |header|;
    if NumField in header[cut..] then "None"
    else match LastIndex(header, NumField)
      case None => ""
      case Some(i) =>
        assert header[i] == NumField;
        assert forall j :: cut <= j < |header| ==> header[j] != NumField by {
          forall j | cut <= j < |header|
            ensures header[j] != NumField
          {
            assert header[j] == header[cut..][j - cut];
          }
        }
        Strip(row[i])
  }

  /** The `existing_nums` read from a ledger's rows; `DictReader` skips
      empty lines. */
  function NumsOf(header: seq<string>, rows: seq<seq<string>>): set<string>
  {
    if rows == [] then {}
    else (if rows[0] == [] then {} else {ReadNum(header, rows[0])}) + NumsOf(header, rows[1..])
  }

  /** The row `DictWriter` writes for a record: one cell per column, holding
      the record's value or "" when the record lacks that field. */
  function Row(r: Record, cols: seq<string>): (row: seq<string>)
    ensures |row| == |cols|
    ensures forall i :: 0 <= i < |cols| ==> row[i] == (if cols[i] in r then r[cols[i]] else "")
  {
    seq(|cols|, i requires 0 <= i < |cols| => Field(r, cols[i]))
  }

  /** What the write loop produces: the rows written, the `NUM`s seen at the
      end, and the number of records skipped. */
  datatype Batch = Batch(rows: seq<seq<string>>, seen: set<string>, skipped: nat)

  /** The loop shared by both modes: a record whose `NUM` is blank or already
      seen is skipped; any other is written and its `NUM` remembered. */
  function AppendFrom<T>(xs: seq<T>, num: T -> string, row: T -> seq<string>, seen: set<string>): (b: Batch)
    ensures |b.rows| + b.skipped == |xs|
    ensures seen <= b.seen
  {
    if xs == [] then Batch([], seen, 0)
    else
      var n := num(xs[0]);
      if n == "" || n in seen then
        var b := AppendFrom(xs[1..], num, row, seen);
        b.(skipped := b.skipped + 1)
      else
        var b := AppendFrom(xs[1..], num, row, seen + {n});
        b.(rows := [row(xs[0])] + b.rows)
  }

  /** The write-mode header: the base columns, then the `AMT_NUM` columns
      when they are asked for. */
  function WriteColumns(records: seq<Record>, includeAmt: bool): seq<string>
  {
    BaseColumns + (if includeAmt then AmtKeysAll(records) else [])
  }

  /** A record laid out over the columns `cols`. */
  function RowOver(cols: seq<string>): Record -> seq<string>
  {
    r => Row(r, cols)
  }

  /** `to_csv`; `existing` is the file's content, `None` when it does not
      exist. */
  function ToCsv(records: seq<Record>, existing: Option<Ledger>, includeAmt: bool)
    : (r: Result<(Ledger, Summary), LedgerError>)
    ensures r.Err? <==> existing.Some? && NumField !in existing.value.header
    ensures r.Err? ==> r.error == NoNumColumn
    ensures r.Ok? ==> r.value.1.appended + r.value.1.skipped == |records|
    ensures r.Ok? ==> r.value.1.columns == r.value.0.header
    ensures r.Ok? && existing.Some? ==>
              && r.value.1.mode == AppendMode
              && r.value.0.header == existing.value.header
              && |r.value.0.rows| == |existing.value.rows| + r.value.1.appended
              && r.value.0.rows[..|existing.value.rows|] == existing.value.rows
    ensures existing.None? ==>
              && r.Ok? && r.value.1.mode == WriteMode && r.value.1.totalExisting == 0
              && r.value.0.header == WriteColumns(records, includeAmt)
              && |r.value.0.rows| == r.value.1.appended
  {
    match existing
    case None =>
      var cols := WriteColumns(records, includeAmt);
      var b := AppendFrom(records, RecordNum, RowOver(cols), {});
      Ok((Ledger(cols, b.rows), Summary(WriteMode, |b.rows|, b.skipped, cols, 0)))
    case Some(l) =>
      if NumField !in l.header then Err(NoNumColumn)
      else
        var b := AppendFrom(records, RecordNum, RowOver(l.header), NumsOf(l.header, l.rows));
        var rows := l.rows + b.rows;
        assert rows[..|l.rows|] == l.rows;
        Ok((Ledger(l.header, rows), Summary(AppendMode, |b.rows|, b.skipped, l.header, |b.seen|)))
  }

  // ---------------------------------------------------------------------
  // Which records are written

  /** The non-blank `NUM`s of a batch. */
  ghost function NonBlankNums<T>(xs: seq<T>, num: T -> string): set<string>
  {
    set x | x in xs && num(x) != "" :: num(x)
  }

  /** `xs[i]` is written: its `NUM` is not blank, was not in the ledger, and
      no earlier record of the batch has it. */
  ghost predicate Admitted<T>(xs: seq<T>, num: T -> string, seen: set<string>, i: int)
    requires 0 <= i < |xs|
  {
    && num(xs[i]) != ""
    && num(xs[i]) !in seen
    && forall j :: 0 <= j < i ==> num(xs[j]) != num(xs[i])
  }

  /** The admitted records from position `k` on, in order. */
  ghost function AdmittedFrom<T>(xs: seq<T>, num: T -> string, seen: set<string>, k: nat): seq<T>
    decreases |xs| - k
  {
    if k >= |xs| then []
    else (if Admitted(xs, num, seen, k) then [xs[k]] else []) + AdmittedFrom(xs, num, seen, k + 1)
  }

  lemma NonBlankNumsSnoc<T>(xs: seq<T>, num: T -> string, k: nat)
    requires k < |xs|
    ensures NonBlankNums(xs[..k + 1], num)
            == NonBlankNums(xs[..k], num) + (if num(xs[k]) != "" then {num(xs[k])} else {})
  {
    assert xs[..k + 1] == xs[..k] + [xs[k]];
  }

  lemma NonBlankNumsPrefix<T>(xs: seq<T>, num: T -> string, k: nat, n: string)
    requires k <= |xs| && n != ""
    ensures n in NonBlankNums(xs[..k], num) <==> exists j :: 0 <= j < k && num(xs[j]) == n
  {
    if n in NonBlankNums(xs[..k], num) {
      var x :| x in xs[..k] && num(x) == n;
      var j :| 0 <= j < k && xs[..k][j] == x;
      assert num(xs[j]) == n;
    }
    if exists j :: 0 <= j < k && num(xs[j]) == n {
      var j :| 0 <= j < k && num(xs[j]) == n;
      assert xs[..k][j] == xs[j];
    }
  }

  /** The write loop from position `k` on, with the `NUM`s of the ledger and
      of the records before `k` already seen, writes exactly the admitted
      records from `k` on. */
  lemma {:induction false} AppendFromAdmits<T>(xs: seq<T>, num: T -> string, row: T -> seq<string>,
                                               seen: set<string>, k: nat)
    requires k <= |xs|
    ensures AppendFrom(xs[k..], num, row, seen + NonBlankNums(xs[..k], num)).rows
            == MapSeq(AdmittedFrom(xs, num, seen, k), row)
    decreases |xs| - k
  {
    var s := seen + NonBlankNums(xs[..k], num);
    if k < |xs| {
      var n := num(xs[k]);
      assert xs[k..][0] == xs[k];
      assert xs[k..][1..] == xs[k + 1..];
      NonBlankNumsSnoc(xs, num, k);
      AppendFromAdmits(xs, num, row, seen, k + 1);
      if n != "" {
        NonBlankNumsPrefix(xs, num, k, n);
        assert Admitted(xs, num, seen, k) <==> n !in s;
      }
      if n == "" || n in s {
        assert s == seen + NonBlankNums(xs[..k + 1], num);
      } else {
        assert s + {n} == seen + NonBlankNums(xs[..k + 1], num);
      }
    }
  }

  /** The records the loop writes are the admitted ones, in batch order. */
  lemma AppendFromIsAdmitted<T>(xs: seq<T>, num: T -> string, row: T -> seq<string>, seen: set<string>)
    ensures AppendFrom(xs, num, row, seen).rows == MapSeq(AdmittedFrom(xs, num, seen, 0), row)
  {
    AppendFromAdmits(xs, num, row, seen, 0);
    assert xs[0..] == xs;
    assert xs[..0] == [];
    assert seen + NonBlankNums(xs[..0], num) == seen;
  }

  /** At the end of the loop, the seen `NUM`s are the initial ones plus every
      non-blank `NUM` of the batch. */
  lemma {:induction false} AppendFromSeen<T>(xs: seq<T>, num: T -> string, row: T -> seq<string>, seen: set<string>)
    ensures AppendFrom(xs, num, row, seen).seen == seen + NonBlankNums(xs, num)
  {
    if xs != [] {
      var n := num(xs[0]);
      assert NonBlankNums(xs, num) == NonBlankNums(xs[1..], num) + (if n != "" then {n} else {}) by {
        assert xs == [xs[0]] + xs[1..];
      }
      if n == "" || n in seen {
        AppendFromSeen(xs[1..], num, row, seen);
      } else {
        AppendFromSeen(xs[1..], num, row, seen + {n});
      }
    }
  }

  /** Every written record brings a `NUM` not seen before, so the seen set
      grows by exactly the number of rows written. */
  lemma {:induction false} AppendFromCount<T>(xs: seq<T>, num: T -> string, row: T -> seq<string>, seen: set<string>)
    ensures |AppendFrom(xs, num, row, seen).seen| == |seen| + |AppendFrom(xs, num, row, seen).rows|
  {
    if xs != [] {
      var n := num(xs[0]);
      if n == "" || n in seen {
        AppendFromCount(xs[1..], num, row, seen);
      } else {
        AppendFromCount(xs[1..], num, row, seen + {n});
      }
    }
  }

  /** When every non-blank `NUM` of the batch is already seen, nothing is written. */
  lemma {:induction false} AppendFromCovered<T>(xs: seq<T>, num: T -> string, row: T -> seq<string>, seen: set<string>)
    requires NonBlankNums(xs, num) <= seen
    ensures AppendFrom(xs, num, row, seen).rows == []
    ensures AppendFrom(xs, num, row, seen).skipped == |xs|
  {
    if xs != [] {
      assert xs[0] in xs;
      assert NonBlankNums(xs[1..], num) <= NonBlankNums(xs, num) by {
        forall n | n in NonBlankNums(xs[1..], num)
          ensures n in NonBlankNums(xs, num)
        {
          var x :| x in xs[1..] && num(x) == n && n != "";
          assert x in xs;
        }
      }
      AppendFromCovered(xs[1..], num, row, seen);
    }
  }

  // ---------------------------------------------------------------------
  // Reading written rows back

  lemma {:induction false} NumsOfAppend(h: seq<string>, a: seq<seq<string>>, b: seq<seq<string>>)
    ensures NumsOf(h, a + b) == NumsOf(h, a) + NumsOf(h, b)
  {
    if a != [] {
      assert a + b != [];
      assert (a + b)[0] == a[0];
      assert (a + b)[1..] == a[1..] + b;
      NumsOfAppend(h, a[1..], b);
    } else {
      assert a + b == b;
    }
  }

  /** A row written under a header with a `NUM` column reads back the
      record's `NUM`. */
  lemma ReadNumOfRow(r: Record, h: seq<string>)
    requires NumField in h
    ensures Row(r, h) != [] && ReadNum(h, Row(r, h)) == RecordNum(r)
  {
    var row := Row(r, h);
    assert h[|h|..] == [];
    var i := LastIndex(h, NumField).value;
    assert row[i] == Field(r, NumField);
  }

  /** The rows the loop writes read back as the `NUM`s it added to `seen`,
      when each row reads back its record's `NUM`. */
  lemma {:induction false} AppendFromNums<T>(xs: seq<T>, num: T -> string, row: T -> seq<string>,
                                             h: seq<string>, seen: set<string>)
    requires forall x :: x in xs ==> row(x) != [] && ReadNum(h, row(x)) == num(x)
    ensures NumsOf(h, AppendFrom(xs, num, row, seen).rows) + seen == AppendFrom(xs, num, row, seen).seen
  {
    if xs != [] {
      var n := num(xs[0]);
      assert xs[0] in xs;
      assert forall x :: x in xs[1..] ==> x in xs;
      if n == "" || n in seen {
        AppendFromNums(xs[1..], num, row, h, seen);
      } else {
        var rest := AppendFrom(xs[1..], num, row, seen + {n});
        AppendFromNums(xs[1..], num, row, h, seen + {n});
        NumsOfAppend(h, [row(xs[0])], rest.rows);
        assert [row(xs[0])][1..] == [];
      }
    }
  }

  // ---------------------------------------------------------------------
  // Properties of `to_csv`

  /** The `NUM`s that count as already present: those of the existing file,
      none for a new one. */
  function InitialNums(existing: Option<Ledger>): set<string>
  {
    if existing.Some? then NumsOf(existing.value.header, existing.value.rows) else {}
  }

  /** The loop's rows after `prior` are the admitted records laid out over
      `cols`, in order. */
  lemma AppendedRows(prior: seq<seq<string>>, xs: seq<Record>, num: Record -> string, cols: seq<string>,
                     seen: set<string>)
    ensures var rows := prior + AppendFrom(xs, num, RowOver(cols), seen).rows;
            var admitted := AdmittedFrom(xs, num, seen, 0);
            && |rows| == |prior| + |admitted|
            && forall i :: 0 <= i < |admitted| ==> rows[|prior| + i] == Row(admitted[i], cols)
  {
    var b := AppendFrom(xs, num, RowOver(cols), seen);
    var admitted := AdmittedFrom(xs, num, seen, 0);
    AppendFromIsAdmitted(xs, num, RowOver(cols), seen);
    var rows := prior + b.rows;
    forall i | 0 <= i < |admitted|
      ensures rows[|prior| + i] == Row(admitted[i], cols)
    {
      assert rows[|prior| + i] == b.rows[i];
      assert b.rows[i] == RowOver(cols)(admitted[i]);
    }
  }

  /** In append mode, the rows `to_csv` adds after the existing ones are,
      in batch order, the records whose `NUM` is non-blank, not in the file
      and not taken by an earlier record of the batch, each laid out over
      the file's columns with "" for a missing field. */
  lemma ToCsvAppendsAdmitted(records: seq<Record>, prior: Ledger, includeAmt: bool)
    requires NumField in prior.header
    ensures var (l, s) := ToCsv(records, Some(prior), includeAmt).value;
            var admitted := AdmittedFrom(records, RecordNum, NumsOf(prior.header, prior.rows), 0);
            && |prior.rows| + |admitted| == |l.rows|
            && s.appended == |admitted|
            && forall i :: 0 <= i < |admitted| ==> l.rows[|prior.rows| + i] == Row(admitted[i], l.header)
  {
    var (l, s) := ToCsv(records, Some(prior), includeAmt).value;
    AppendModeRows(records, prior, includeAmt);
    WrittenAdmitted(l, s, prior.rows, records, NumsOf(prior.header, prior.rows));
  }

  lemma AppendModeRows(records: seq<Record>, prior: Ledger, includeAmt: bool)
    requires NumField in prior.header
    ensures var (l, s) := ToCsv(records, Some(prior), includeAmt).value;
            var b := AppendFrom(records, RecordNum, RowOver(prior.header), NumsOf(prior.header, prior.rows));
            && l.header == prior.header && l.rows == prior.rows + b.rows && s.appended == |b.rows|
  {
  }

  /** In write mode, the rows are, in batch order, the records whose `NUM`
      is non-blank and not taken by an earlier record of the batch, each
      laid out over the write-mode columns. */
  lemma ToCsvWritesAdmitted(records: seq<Record>, includeAmt: bool)
    ensures var (l, s) := ToCsv(records, None, includeAmt).value;
            var admitted := AdmittedFrom(records, RecordNum, {}, 0);
            && |admitted| == |l.rows|
            && s.appended == |admitted|
            && forall i :: 0 <= i < |admitted| ==> l.rows[i] == Row(admitted[i], l.header)
  {
    var (l, s) := ToCsv(records, None, includeAmt).value;
    var cols := WriteColumns(records, includeAmt);
    var b := AppendFrom(records, RecordNum, RowOver(cols), {});
    assert l.header == cols && l.rows == b.rows && s.appended == |b.rows|;
    var none: seq<seq<string>> := [];
    assert l.rows == none + b.rows;
    WrittenAdmitted(l, s, none, records, {});
  }

  lemma WrittenAdmitted(l: Ledger, s: Summary, prior: seq<seq<string>>, records: seq<Record>, seen: set<string>)
    requires l.rows == prior + AppendFrom(records, RecordNum, RowOver(l.header), seen).rows
    requires s.appended == |AppendFrom(records, RecordNum, RowOver(l.header), seen).rows|
    ensures var admitted := AdmittedFrom(records, RecordNum, seen, 0);
            && |prior| + |admitted| == |l.rows|
            && s.appended == |admitted|
            && forall i :: 0 <= i < |admitted| ==> l.rows[|prior| + i] == Row(admitted[i], l.header)
  {
    AppendedRows(prior, records, RecordNum, l.header, seen);
  }

  /** `total_existing` in append mode: the distinct `NUM`s of the file before
      the call plus the rows appended. */
  lemma ToCsvTotalExisting(records: seq<Record>, l: Ledger, includeAmt: bool)
    requires NumField in l.header
    ensures ToCsv(records, Some(l), includeAmt).value.1.totalExisting
            == |NumsOf(l.header, l.rows)| + ToCsv(records, Some(l), includeAmt).value.1.appended
  {
    AppendFromCount(records, RecordNum, RowOver(l.header), NumsOf(l.header, l.rows));
  }

  /** The write-mode header starts with the base columns; after them come
      the `AMT_NUM` columns of the batch when asked for, and nothing else. */
  lemma WriteColumnsSplit(records: seq<Record>, includeAmt: bool)
    ensures var h := WriteColumns(records, includeAmt);
            && |h| >= |BaseColumns| && h[..|BaseColumns|] == BaseColumns
            && h[|BaseColumns|..] == (if includeAmt then AmtKeysAll(records) else [])
  {
    var amt := if includeAmt then AmtKeysAll(records) else [];
    var h := BaseColumns + amt;
    assert h[..|BaseColumns|] == BaseColumns;
    assert h[|BaseColumns|..] == amt;
  }

  /** With `include_amt_nums`, the columns after the base ones are every
      `AMT_NUM` field of the batch, each once, ordered by numeric suffix. */
  lemma WriteColumnsAmt(records: seq<Record>)
    ensures var tail := WriteColumns(records, true)[|BaseColumns|..];
            && (forall k :: k in tail <==> IsAmtColumn(k) && exists rec :: rec in records && k in rec)
            && (forall i, j :: 0 <= i < j < |tail| ==> tail[i] != tail[j] && AmtSuffix(tail[i]) <= AmtSuffix(tail[j]))
  {
    WriteColumnsSplit(records, true);
  }

  /** Every row `to_csv` writes reads back as its record's `NUM`. */
  lemma RowsReadBack(records: seq<Record>, h: seq<string>)
    requires NumField in h
    ensures forall x :: x in records ==> RowOver(h)(x) != [] && ReadNum(h, RowOver(h)(x)) == RecordNum(x)
  {
    forall x | x in records
      ensures RowOver(h)(x) != [] && ReadNum(h, RowOver(h)(x)) == RecordNum(x)
    {
      ReadNumOfRow(x, h);
    }
  }

  /** Rows appended by the loop read back as the `NUM`s it adds, when every
      record's row reads back its `NUM`. */
  lemma AppendedNums(prior: seq<seq<string>>, xs: seq<Record>, num: Record -> string, h: seq<string>,
                     seen: set<string>)
    requires forall x :: x in xs ==> RowOver(h)(x) != [] && ReadNum(h, RowOver(h)(x)) == num(x)
    requires NumsOf(h, prior) == seen
    ensures NumsOf(h, prior + AppendFrom(xs, num, RowOver(h), seen).rows) == seen + NonBlankNums(xs, num)
  {
    var b := AppendFrom(xs, num, RowOver(h), seen);
    AppendFromNums(xs, num, RowOver(h), h, seen);
    AppendFromSeen(xs, num, RowOver(h), seen);
    NumsOfAppend(h, prior, b.rows);
  }

  /** The resulting ledger always has a `NUM` column and reads back as the
      initial `NUM`s plus every non-blank `NUM` of the batch. */
  lemma ToCsvLedgerNums(records: seq<Record>, existing: Option<Ledger>, includeAmt: bool)
    requires ToCsv(records, existing, includeAmt).Ok?
    ensures var l := ToCsv(records, existing, includeAmt).value.0;
            NumField in l.header
            && NumsOf(l.header, l.rows) == InitialNums(existing) + NonBlankNums(records, RecordNum)
  {
    var l := ToCsv(records, existing, includeAmt).value.0;
    var seen := InitialNums(existing);
    var prior := if existing.Some? then existing.value.rows else [];
    assert NumField in l.header by {
      if existing.None? {
        assert l.header[0] == NumField;
      }
    }
    assert NumsOf(l.header, prior) == seen;
    RowsReadBack(records, l.header);
    AppendedNums(prior, records, RecordNum, l.header, seen);
    assert l.rows == prior + AppendFrom(records, RecordNum, RowOver(l.header), seen).rows;
  }

  /** Running `to_csv` again with the same records against the ledger it
      produced appends nothing, skips every record and leaves the ledger as
      it was. */
  lemma ToCsvRerun(records: seq<Record>, existing: Option<Ledger>, includeAmt: bool, includeAmt2: bool)
    requires ToCsv(records, existing, includeAmt).Ok?
    ensures var l := ToCsv(records, existing, includeAmt).value.0;
            var again := ToCsv(records, Some(l), includeAmt2);
            again.Ok? && again.value.1.appended == 0 && again.value.1.skipped == |records|
            && again.value.0 == l
  {
    var l := ToCsv(records, existing, includeAmt).value.0;
    ToCsvLedgerNums(records, existing, includeAmt);
    AppendFromCovered(records, RecordNum, RowOver(l.header), NumsOf(l.header, l.rows));
    assert l.rows + [] == l.rows;
  }

  /** An existing file without a `NUM` column is refused and left as it is. */
  lemma ToCsvRefusesWithoutNum(records: seq<Record>, l: Ledger, includeAmt: bool)
    requires NumField !in l.header
    ensures ToCsv(records, Some(l), includeAmt) == Err(NoNumColumn)
  {
  }

  /** Of two records with the same `NUM`, the later one is never written,
      and a record without a `NUM` is never written either. */
  lemma SkippedRecords(records: seq<Record>, seen: set<string>, i: int, j: int)
    requires 0 <= i < j < |records|
    ensures RecordNum(records[j]) == RecordNum(records[i]) ==> !Admitted(records, RecordNum, seen, j)
    ensures RecordNum(records[j]) == "" ==> !Admitted(records, RecordNum, seen, j)
    ensures RecordNum(records[j]) in seen ==> !Admitted(records, RecordNum, seen, j)
  {
  }
}
