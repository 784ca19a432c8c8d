/** CSV upload validation after tokenising. The upload is given as what the
    reader makes of it: the file name, the byte size, whether it decodes as
    UTF-8, the header row and the data rows as (column, value) pairs. Every
    rejection modelled here is an HTTP 400 with the detail text given. Rows
    are those whose cells all fall under a header; a row with more cells
    than the header, on which the source crashes, is outside this model. */
module CsvValidator {
  import opened Domain
  import opened Text

  /** One data row as the reader yields it: (column, value) in column order;
      a missing value is None. */
  type RawRow = seq<(string, Option<string>)>

  datatype Upload = Upload(filename: Option<string>, size: nat, utf8: bool, fieldnames: seq<string>, rows: seq<RawRow>)

  datatype CsvOutcome = Parsed(records: seq<HospitalRecord>) | Rejected(detail: string)

  const MaxFileSizeBytes: nat := MaxFileSizeMb * 1024 * 1024
  const NotCsvMessage: string := "File must be a CSV file"
  const NotUtf8Message: string := "File must be UTF-8 encoded"
  const ReadErrorPrefix: string := "Error reading file: "
  const NoHeadersMessage: string := "CSV file is empty or has no headers"
  const NoDataMessage: string := "CSV file contains no valid data rows"
  const ValidationFailedPrefix: string := "CSV validation failed: "
  const ErrorSeparator: string := "; "

  function SizeMessage(): string {
    "File size exceeds " + NatToString(MaxFileSizeMb) + "MB limit"
  }

  function MissingColumnMessage(column: string): string {
    "Missing required column: '" + column + "'"
  }

  function ExceedsMessage(maxRows: int): string {
    "CSV exceeds maximum allowed rows (" + IntToString(maxRows) + ")"
  }

  function RequiredMessage(rowNumber: int, field: string): string {
    "Row " + IntToString(rowNumber) + ": '" + field + "' is required"
  }

  /** The size and decoding checks as written: the size HTTPException is
      raised inside the try block, caught by its `except Exception`, and
      re-raised with "Error reading file: " and the exception's text
      ("400: " and the detail) in front of the intended detail. */
  function ReadCheckAsWritten(size: nat, utf8: bool): Option<string> {
    if size > MaxFileSizeBytes then Some(ReadErrorPrefix + "400: " + SizeMessage())
    else if !utf8 then Some(NotUtf8Message)
    else None
  }

  /** The size and decoding checks as intended: the size detail unwrapped. */
  function ReadCheck(size: nat, utf8: bool): (r: Option<string>)
    ensures r.None? <==> size <= MaxFileSizeBytes && utf8
    ensures size > MaxFileSizeBytes ==> r == Some(SizeMessage())
    ensures size <= MaxFileSizeBytes && !utf8 ==> r == Some(NotUtf8Message)
  {
    if size > MaxFileSizeBytes then Some(SizeMessage())
    else if !utf8 then Some(NotUtf8Message)
    else None
  }

  /** An oversize file is rejected, as written, with a detail that is not
      the size message but has it as a proper suffix. */
  lemma OversizeDetailAsWritten(size: nat, utf8: bool)
    requires size > MaxFileSizeBytes
    ensures ReadCheckAsWritten(size, utf8).Some? && ReadCheck(size, utf8) == Some(SizeMessage())
    ensures var d := ReadCheckAsWritten(size, utf8).value;
      d != SizeMessage() && |d| > |SizeMessage()| && d[|d| - |SizeMessage()|..] == SizeMessage()
  {
    var d := ReadErrorPrefix + "400: " + SizeMessage();
    assert d[|d| - |SizeMessage()|..] == SizeMessage();
  }

  /** The header row after `h.strip().lower()`. */
  function Headers(fieldnames: seq<string>): (hs: seq<string>)
    ensures |hs| == |fieldnames|
  {
    seq(|fieldnames|, i requires 0 <= i < |fieldnames| => Lower(Strip(fieldnames[i])))
  }

  /** The checks after the read, in the source's order: an empty header
      row, then the required columns, "name" before "address". */
  function HeaderCheck(fieldnames: seq<string>): Option<string> {
    if fieldnames == [] then Some(NoHeadersMessage)
    else if "name" !in Headers(fieldnames) then Some(MissingColumnMessage("name"))
    else if "address" !in Headers(fieldnames) then Some(MissingColumnMessage("address"))
    else None
  }

  /** Everything checked before the first data row, as the source does it:
      the extension, the size and decoding checks with the oversize detail
      wrapped, then the headers. */
  function FileCheck(u: Upload): Option<string> {
    if u.filename.None? || !EndsWith(u.filename.value, ".csv") then Some(NotCsvMessage)
    else if ReadCheckAsWritten(u.size, u.utf8).Some? then ReadCheckAsWritten(u.size, u.utf8)
    else HeaderCheck(u.fieldnames)
  }

  /** The same checks with the size detail as intended. */
  function FileCheckIntended(u: Upload): Option<string> {
    if u.filename.None? || !EndsWith(u.filename.value, ".csv") then Some(NotCsvMessage)
    else if ReadCheck(u.size, u.utf8).Some? then ReadCheck(u.size, u.utf8)
    else HeaderCheck(u.fieldnames)
  }

  /** A ".csv" upload over the size limit: the one case where the detail as
      written and the one intended differ. */
  predicate OversizeCsv(u: Upload) {
    u.filename.Some? && EndsWith(u.filename.value, ".csv") && u.size > MaxFileSizeBytes
  }

  /** The written and the intended file checks reject the same uploads, and
      with the same detail except an oversize one, whose written detail is
      the intended one behind "Error reading file: 400: ". */
  lemma FileCheckAgreement(u: Upload)
    ensures FileCheck(u).None? <==> FileCheckIntended(u).None?
    ensures !OversizeCsv(u) ==> FileCheck(u) == FileCheckIntended(u)
    ensures OversizeCsv(u) ==>
      FileCheckIntended(u) == Some(SizeMessage())
      && FileCheck(u) == Some(ReadErrorPrefix + "400: " + SizeMessage())
  {
  }

  /** A row key after `k.strip().lower()`. */
  function NormKey(k: string): string {
    Lower(Strip(k))
  }

  /** A row value after `v.strip() if v else ""`. */
  function FieldValue(v: Option<string>): string {
    if v.None? || v.value == "" then "" else Strip(v.value)
  }

  /** The dict comprehension over the row's items: a later column whose key
      normalises to the same text overwrites an earlier one. */
  function NormalizeRow(row: RawRow): map<string, string>
    decreases |row|
  {
    if row == [] then map[]
    else
      var n := |row| - 1;
      NormalizeRow(row[..n])[NormKey(row[n].0) := FieldValue(row[n].1)]
  }

  /** Every normalised column key is a key of the normalised row. */
  lemma {:induction false} NormalizeRowKeys(row: RawRow, i: nat)
    requires i < |row|
    ensures NormKey(row[i].0) in NormalizeRow(row)
  {
    var n := |row| - 1;
    if i < n {
      assert row[..n][i] == row[i];
      NormalizeRowKeys(row[..n], i);
    }
  }

  /** Every key of the normalised row is the normalised key of a column,
      so with NormalizeRowKeys the keys are exactly those of the row. */
  lemma {:induction false} NormalizeRowKeysOnly(row: RawRow, k: string)
    requires k in NormalizeRow(row)
    ensures exists i :: 0 <= i < |row| && NormKey(row[i].0) == k
    decreases |row|
  {
    var n := |row| - 1;
    if k != NormKey(row[n].0) {
      NormalizeRowKeysOnly(row[..n], k);
      var i :| 0 <= i < n && NormKey(row[..n][i].0) == k;
      assert row[..n][i] == row[i];
    }
  }

  /** A key written with any ASCII capitalisation and surrounded by
      whitespace normalises to the key. */
  lemma NormKeyUpToCase(pre: string, core: string, post: string, key: string)
    requires AllSpace(pre) && AllSpace(post) && Lower(core) == key
    requires key != [] && !IsSpace(key[0]) && !IsSpace(key[|key| - 1])
    ensures NormKey(pre + core + post) == key
  {
    StripPadded(pre, core, post);
  }

  /** A required column is found whatever its capitalisation and whitespace
      padding in the header row, so it is not reported missing. */
  lemma RequiredColumnUpToCase(u: Upload, i: nat, pre: string, core: string, post: string, key: string)
    requires key == "name" || key == "address"
    requires i < |u.fieldnames| && u.fieldnames[i] == pre + core + post
    requires AllSpace(pre) && AllSpace(post) && Lower(core) == key
    ensures key in Headers(u.fieldnames)
    ensures FileCheck(u) != Some(MissingColumnMessage(key))
  {
    NormKeyUpToCase(pre, core, post, key);
    assert Headers(u.fieldnames)[i] == key;
    var m := MissingColumnMessage(key);
    assert m[0] == 'M' && m[26] == key[0];
    assert NotCsvMessage[0] == 'F' && NotUtf8Message[0] == 'F' && (ReadErrorPrefix + "400: " + SizeMessage())[0] == 'E';
    assert MissingColumnMessage("name")[26] == 'n';
  }

  /** The value under a key is that of the last column with that key. */
  lemma {:induction false} NormalizeRowLastWins(row: RawRow, i: nat)
    requires i < |row|
    requires forall j :: i < j < |row| ==> NormKey(row[j].0) != NormKey(row[i].0)
    ensures NormKey(row[i].0) in NormalizeRow(row)
    ensures NormalizeRow(row)[NormKey(row[i].0)] == FieldValue(row[i].1)
  {
    var n := |row| - 1;
    if i < n {
      assert row[..n][i] == row[i];
      assert forall j :: i < j < n ==> row[..n][j] == row[j];
      NormalizeRowLastWins(row[..n], i);
    }
  }

  /** `normalized_row.get(key, "").strip()`. */
  function Field(m: map<string, string>, key: string): string {
    if key in m then Strip(m[key]) else ""
  }

  /** What one data row yields: a record, or one error per blank required
      field, "name" first. A blank phone becomes None. */
  datatype RowResult = Accepted(record: HospitalRecord) | RowRejected(errors: seq<string>)

  function CheckRow(row: RawRow, rowNumber: int): RowResult {
    var m := NormalizeRow(row);
    var name := Field(m, "name");
    var address := Field(m, "address");
    var phone := Field(m, "phone");
    var errors := (if name == "" then [RequiredMessage(rowNumber, "name")] else [])
                  + (if address == "" then [RequiredMessage(rowNumber, "address")] else []);
    if errors != [] then RowRejected(errors)
    else Accepted(HospitalRecord(name, address, if phone == "" then None else Some(phone), rowNumber))
  }

  /** A row passes when both required fields are non-blank. */
  predicate RowValid(row: RawRow) {
    Field(NormalizeRow(row), "name") != "" && Field(NormalizeRow(row), "address") != ""
  }

  /** Non-empty text with no surrounding whitespace. */
  predicate Trimmed(s: string) {
    s != "" && Strip(s) == s
  }

  predicate WellFormed(rec: HospitalRecord) {
    Trimmed(rec.name) && Trimmed(rec.address) && (rec.phone.Some? ==> Trimmed(rec.phone.value))
  }

  /** A row is accepted exactly when it is valid; an accepted record is
      well formed and carries the row's number; a rejected row has at least
      one error. */
  lemma CheckRowCases(row: RawRow, rowNumber: int)
    ensures CheckRow(row, rowNumber).Accepted? <==> RowValid(row)
    ensures CheckRow(row, rowNumber).Accepted? ==>
      WellFormed(CheckRow(row, rowNumber).record) && CheckRow(row, rowNumber).record.rowNumber == rowNumber
    ensures CheckRow(row, rowNumber).RowRejected? ==> 1 <= |CheckRow(row, rowNumber).errors| <= 2
  {
    var m := NormalizeRow(row);
    if "name" in m { StripIdempotent(m["name"]); }
    if "address" in m { StripIdempotent(m["address"]); }
    if "phone" in m { StripIdempotent(m["phone"]); }
  }

  /** Every row checked, numbered from 2 as the loop numbers them. */
  function CheckRows(rows: seq<RawRow>): (rs: seq<RowResult>)
    ensures |rs| == |rows|
  {
    seq(|rows|, i requires 0 <= i < |rows| => CheckRow(rows[i], i + 2))
  }

  /** What one row adds to the parsed records and to the errors. */
  function Kept(r: RowResult): seq<HospitalRecord> {
    if r.Accepted? then [r.record] else []
  }

  function Reported(r: RowResult): seq<string> {
    if r.RowRejected? then r.errors else []
  }

  /** The records collected from the row results, in row order. */
  function RecordsOf(results: seq<RowResult>): seq<HospitalRecord>
    decreases |results|
  {
    if results == [] then []
    else RecordsOf(results[..|results| - 1]) + Kept(results[|results| - 1])
  }

  /** The errors collected from the row results, in row order. */
  function ErrorsOf(results: seq<RowResult>): seq<string>
    decreases |results|
  {
    if results == [] then []
    else ErrorsOf(results[..|results| - 1]) + Reported(results[|results| - 1])
  }

  /** One more row extends both collections by what that row adds. */
  lemma CollectStep(results: seq<RowResult>, i: nat)
    requires i < |results|
    ensures RecordsOf(results[..i + 1]) == RecordsOf(results[..i]) + Kept(results[i])
    ensures ErrorsOf(results[..i + 1]) == ErrorsOf(results[..i]) + Reported(results[i])
  {
    assert results[..i + 1][..i] == results[..i];
  }

  /** What the row check guarantees of each row's result: an accepted row
      gives a well-formed record carrying its row number, a rejected row at
      least one error. */
  predicate AcceptedWellFormed(results: seq<RowResult>) {
    forall i :: 0 <= i < |results| && results[i].Accepted? ==>
      WellFormed(results[i].record) && results[i].record.rowNumber == i + 2
  }

  predicate RejectionsReported(results: seq<RowResult>) {
    forall i :: 0 <= i < |results| && results[i].RowRejected? ==> results[i].errors != []
  }

  lemma CheckRowsAsChecked(rows: seq<RawRow>)
    ensures AcceptedWellFormed(CheckRows(rows)) && RejectionsReported(CheckRows(rows))
    ensures forall i :: 0 <= i < |rows| ==> (CheckRows(rows)[i].Accepted? <==> RowValid(rows[i]))
  {
    forall i | 0 <= i < |rows|
      ensures CheckRows(rows)[i].Accepted? <==> RowValid(rows[i])
      ensures CheckRows(rows)[i].Accepted? ==>
        WellFormed(CheckRows(rows)[i].record) && CheckRows(rows)[i].record.rowNumber == i + 2
      ensures CheckRows(rows)[i].RowRejected? ==> CheckRows(rows)[i].errors != []
    {
      CheckRowCases(rows[i], i + 2);
    }
  }

  /** The collected records are well formed, carry row numbers between 2 and
      the number of rows plus one, and in strictly increasing order. */
  lemma {:induction false} RecordsWellFormed(results: seq<RowResult>)
    requires AcceptedWellFormed(results)
    ensures var rs := RecordsOf(results);
      && |rs| <= |results|
      && (forall i :: 0 <= i < |rs| ==> WellFormed(rs[i]) && 2 <= rs[i].rowNumber <= |results| + 1)
      && (forall i, j :: 0 <= i < j < |rs| ==> rs[i].rowNumber < rs[j].rowNumber)
  {
    if results != [] {
      var n := |results| - 1;
      var pre := results[..n];
      assert forall i :: 0 <= i < n ==> pre[i] == results[i];
      RecordsWellFormed(pre);
      if results[n].Accepted? {
        AppendLaterRecord(RecordsOf(pre), results[n].record, n + 2);
      }
    }
  }

  /** Appending a well-formed record numbered above every collected one keeps
      the records well formed, in range and in increasing order. */
  lemma AppendLaterRecord(rs: seq<HospitalRecord>, rec: HospitalRecord, k: int)
    requires forall i :: 0 <= i < |rs| ==> WellFormed(rs[i]) && 2 <= rs[i].rowNumber < k
    requires forall i, j :: 0 <= i < j < |rs| ==> rs[i].rowNumber < rs[j].rowNumber
    requires WellFormed(rec) && 2 <= k && rec.rowNumber == k
    ensures var rs' := rs + [rec];
      && (forall i :: 0 <= i < |rs'| ==> WellFormed(rs'[i]) && 2 <= rs'[i].rowNumber <= k)
      && (forall i, j :: 0 <= i < j < |rs'| ==> rs'[i].rowNumber < rs'[j].rowNumber)
  {
    var rs' := rs + [rec];
    assert forall i :: 0 <= i < |rs| ==> rs'[i] == rs[i];
    assert rs'[|rs|] == rec;
  }

  predicate AllAccepted(results: seq<RowResult>) {
    forall i :: 0 <= i < |results| ==> results[i].Accepted?
  }

  /** Dropping the last result keeps the row-check guarantee, and all are
      accepted exactly when the shorter prefix is and the last one is. */
  lemma DropLast(results: seq<RowResult>)
    requires results != []
    ensures var n := |results| - 1;
      && (RejectionsReported(results) ==> RejectionsReported(results[..n]))
      && (AllAccepted(results) <==> AllAccepted(results[..n]) && results[n].Accepted?)
  {
    var n := |results| - 1;
    assert forall i :: 0 <= i < n ==> results[..n][i] == results[i];
  }

  /** No error is collected exactly when every row was accepted, and then
      every row gives a record. */
  lemma {:induction false} RowAccounting(results: seq<RowResult>)
    requires RejectionsReported(results)
    ensures ErrorsOf(results) == [] <==> AllAccepted(results)
    ensures AllAccepted(results) ==> |RecordsOf(results)| == |results|
    ensures |RecordsOf(results)| <= |results|
  {
    if results != [] {
      var n := |results| - 1;
      DropLast(results);
      RowAccounting(results[..n]);
      assert ErrorsOf(results) == ErrorsOf(results[..n]) + Reported(results[n]);
      assert RecordsOf(results) == RecordsOf(results[..n]) + Kept(results[n]);
      assert Reported(results[n]) == [] <==> results[n].Accepted?;
    }
  }

  /** `max_rows or settings.max_csv_rows`: None and 0 fall back to 20. */
  function EffectiveMaxRows(maxRows: Option<int>): int {
    if maxRows.None? || maxRows.value == 0 then MaxCsvRows else maxRows.value
  }

  /** The checks after the row loop of the current validator, in order:
      the row limit, the no-data rule, then the collected errors. */
  function Conclude(max: int, results: seq<RowResult>): CsvOutcome {
    var records := RecordsOf(results);
    var errors := ErrorsOf(results);
    if |records| > max then Rejected(ExceedsMessage(max))
    else if records == [] && errors == [] then Rejected(NoDataMessage)
    else if errors != [] then Rejected(ValidationFailedPrefix + Join(errors, ErrorSeparator))
    else Parsed(records)
  }

  /** The current validator: the file checks, every row scanned, then the
      checks after the loop. */
  function Validate(u: Upload, maxRows: Option<int>): CsvOutcome {
    var file := FileCheck(u);
    if file.Some? then Rejected(file.value)
    else Conclude(EffectiveMaxRows(maxRows), CheckRows(u.rows))
  }

  /** The current validator with the size detail as intended. */
  function ValidateIntended(u: Upload, maxRows: Option<int>): CsvOutcome {
    var file := FileCheckIntended(u);
    if file.Some? then Rejected(file.value)
    else Conclude(EffectiveMaxRows(maxRows), CheckRows(u.rows))
  }

  /** The validator as written and as intended accept the same uploads with
      the same records, and differ only in the detail for an oversize file. */
  lemma ValidateIntendedAgreement(u: Upload, maxRows: Option<int>)
    ensures !OversizeCsv(u) ==> Validate(u, maxRows) == ValidateIntended(u, maxRows)
    ensures OversizeCsv(u) ==>
      ValidateIntended(u, maxRows) == Rejected(SizeMessage())
      && Validate(u, maxRows) == Rejected(ReadErrorPrefix + "400: " + SizeMessage())
  {
    FileCheckAgreement(u);
  }

  /** The row loop of validate_and_parse_csv: the rows are numbered from 2
      in the order the reader yields them, and each row's record or errors
      are collected in that order. */
  method ScanRows(rows: seq<RawRow>) returns (parsed: seq<HospitalRecord>, errors: seq<string>)
    ensures parsed == RecordsOf(CheckRows(rows)) && errors == ErrorsOf(CheckRows(rows))
  {
    parsed, errors := [], [];
    var rowNumber := 1;
    var i := 0;
    ghost var results := CheckRows(rows);
    while i < |rows|
      invariant 0 <= i <= |rows| && rowNumber == i + 1
      invariant parsed == RecordsOf(results[..i]) && errors == ErrorsOf(results[..i])
    {
      rowNumber := rowNumber + 1;
      var checked := CheckRow(rows[i], rowNumber);
      assert checked == results[i];
      CollectStep(results, i);
      if checked.RowRejected? {
        errors := errors + checked.errors;
      } else {
        parsed := parsed + [checked.record];
      }
      i := i + 1;
    }
    assert results[..|rows|] == results;
  }

  /** validate_and_parse_csv. */
  method ValidateAndParseCsv(u: Upload, maxRows: Option<int>) returns (r: CsvOutcome)
    ensures r == Validate(u, maxRows)
  {
    var max := if maxRows.None? || maxRows.value == 0 then MaxCsvRows else maxRows.value;
    var file := FileCheck(u);
    if file.Some? {
      return Rejected(file.value);
    }
    var parsed, errors := ScanRows(u.rows);
    if |parsed| > max {
      return Rejected(ExceedsMessage(max));
    }
    if parsed == [] && errors == [] {
      return Rejected(NoDataMessage);
    }
    if errors != [] {
      return Rejected(ValidationFailedPrefix + Join(errors, ErrorSeparator));
    }
    r := Parsed(records := parsed);
  }

  lemma ConcludeAccepts(max: int, results: seq<RowResult>)
    requires AcceptedWellFormed(results) && RejectionsReported(results)
    ensures Conclude(max, results).Parsed? <==>
      1 <= |results| <= max && AllAccepted(results)
    ensures Conclude(max, results).Parsed? ==>
      var rs := Conclude(max, results).records;
      && |rs| == |results|
      && (forall i :: 0 <= i < |rs| ==> WellFormed(rs[i]) && 2 <= rs[i].rowNumber <= |results| + 1)
      && (forall i, j :: 0 <= i < j < |rs| ==> rs[i].rowNumber < rs[j].rowNumber)
  {
    RowAccounting(results);
    RecordsWellFormed(results);
  }

  /** An upload is accepted exactly when the file checks pass, it has
      between 1 and the row limit data rows, and every row is valid; the
      records are then well formed with increasing row numbers. */
  lemma ValidateAccepts(u: Upload, maxRows: Option<int>)
    ensures Validate(u, maxRows).Parsed? <==>
      FileCheck(u).None? && 1 <= |u.rows| <= EffectiveMaxRows(maxRows)
      && forall i :: 0 <= i < |u.rows| ==> RowValid(u.rows[i])
    ensures Validate(u, maxRows).Parsed? ==>
      var rs := Validate(u, maxRows).records;
      && |rs| == |u.rows|
      && (forall i :: 0 <= i < |rs| ==> WellFormed(rs[i]) && 2 <= rs[i].rowNumber <= |u.rows| + 1)
      && (forall i, j :: 0 <= i < j < |rs| ==> rs[i].rowNumber < rs[j].rowNumber)
  {
    var results := CheckRows(u.rows);
    CheckRowsAsChecked(u.rows);
    ConcludeAccepts(EffectiveMaxRows(maxRows), results);
  }

  /** When the rows are within the limit but some are invalid, the detail
      lists every collected error. */
  lemma ConcludeListsErrors(max: int, results: seq<RowResult>, k: nat)
    requires |RecordsOf(results)| <= max && k < |ErrorsOf(results)|
    ensures Conclude(max, results) == Rejected(ValidationFailedPrefix + Join(ErrorsOf(results), ErrorSeparator))
    ensures exists p :: OccursAt(Conclude(max, results).detail, ErrorsOf(results)[k], p)
  {
    var errors := ErrorsOf(results);
    var j := Join(errors, ErrorSeparator);
    JoinContains(errors, ErrorSeparator, k);
    var p: nat :| OccursAt(j, errors[k], p);
    OccursShifted(ValidationFailedPrefix, j, errors[k], p);
  }
}
