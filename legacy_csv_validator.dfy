/** The original CSV validator. File checks and row handling are the same
    as in the current one; the difference is when the row limit fires: it is
    checked before each data row, so once `max_rows` records are collected
    any further data row, valid or not, rejects the upload. There is no
    fallback for a zero limit. */
module LegacyCsvValidator {
  import opened Domain
  import opened Text
  import opened CsvValidator

  /** The class default for max_rows. */
  const LegacyMaxRows: int := 20

  /** The state of the legacy row loop: it overflowed, or holds the records
      and errors collected so far. */
  datatype Scan = Overflow | Scanned(records: seq<HospitalRecord>, errors: seq<string>)

  /** The legacy loop over the row results, with the limit check in front of
      each row. */
  function LegacyScan(results: seq<RowResult>, maxRows: int): Scan
    decreases |results|
  {
    if results == [] then Scanned([], [])
    else
      var n := |results| - 1;
      match LegacyScan(results[..n], maxRows)
      case Overflow => Overflow
      case Scanned(rs, es) =>
        if |rs| >= maxRows then Overflow else Scanned(rs + Kept(results[n]), es + Reported(results[n]))
  }

  /** The loop overflows exactly when the records collected before the last
      row already reach the limit; otherwise it collects the same records
      and errors as the current validator's loop. */
  lemma {:induction false} LegacyScanCharacterised(results: seq<RowResult>, maxRows: int)
    ensures LegacyScan(results, maxRows) ==
      if |results| > 0 && |RecordsOf(results[..|results| - 1])| >= maxRows then Overflow
      else Scanned(RecordsOf(results), ErrorsOf(results))
  {
    if results != [] {
      var n := |results| - 1;
      var init := results[..n];
      LegacyScanCharacterised(init, maxRows);
      if n > 0 {
        assert init[..n - 1] == results[..n - 1];
        assert RecordsOf(init) == RecordsOf(init[..n - 1]) + Kept(init[n - 1]);
      }
    }
  }

  /** Once the loop has overflowed on a prefix it stays overflowed. */
  lemma {:induction false} OverflowSticks(results: seq<RowResult>, k: nat, maxRows: int)
    requires k <= |results| && LegacyScan(results[..k], maxRows) == Overflow
    ensures LegacyScan(results, maxRows) == Overflow
    decreases |results| - k
  {
    if k < |results| {
      assert results[..k + 1][..k] == results[..k];
      OverflowSticks(results, k + 1, maxRows);
    } else {
      assert results[..k] == results;
    }
  }

  /** The checks after the legacy loop: no "too many rows" check here, the
      no-data rule, then the collected errors. */
  function LegacyConclude(maxRows: int, results: seq<RowResult>): CsvOutcome {
    match LegacyScan(results, maxRows)
    case Overflow => Rejected(ExceedsMessage(maxRows))
    case Scanned(records, errors) =>
      if records == [] && errors == [] then Rejected(NoDataMessage)
      else if errors != [] then Rejected(ValidationFailedPrefix + Join(errors, ErrorSeparator))
      else Parsed(records)
  }

  function LegacyValidate(u: Upload, maxRows: int): CsvOutcome {
    var file := FileCheck(u);
    if file.Some? then Rejected(file.value)
    else LegacyConclude(maxRows, CheckRows(u.rows))
  }

  /** The legacy checks after the loop accept exactly when there is at least
      one row, no more than the limit, and every row was accepted; the
      records are then one per row, well formed, with increasing row
      numbers. */
  lemma LegacyConcludeAccepts(maxRows: int, results: seq<RowResult>)
    requires AcceptedWellFormed(results) && RejectionsReported(results)
    ensures LegacyConclude(maxRows, results).Parsed? <==>
      1 <= |results| <= maxRows && AllAccepted(results)
    ensures LegacyConclude(maxRows, results).Parsed? ==>
      var rs := LegacyConclude(maxRows, results).records;
      && |rs| == |results| <= maxRows
      && (forall i :: 0 <= i < |rs| ==> WellFormed(rs[i]) && 2 <= rs[i].rowNumber <= |results| + 1)
      && (forall i, j :: 0 <= i < j < |rs| ==> rs[i].rowNumber < rs[j].rowNumber)
  {
    LegacyParsedIff(maxRows, results);
    RowAccounting(results);
    RecordsWellFormed(results);
  }

  /** The legacy checks accept exactly the in-limit, all-valid row results,
      with the records the current loop collects. */
  lemma LegacyParsedIff(maxRows: int, results: seq<RowResult>)
    requires RejectionsReported(results)
    ensures LegacyConclude(maxRows, results).Parsed? <==>
      1 <= |results| <= maxRows && AllAccepted(results)
    ensures LegacyConclude(maxRows, results).Parsed? ==>
      LegacyConclude(maxRows, results).records == RecordsOf(results)
  {
    if results == [] {
      assert LegacyScan(results, maxRows) == Scanned([], []);
    } else if !AllAccepted(results) {
      RowAccounting(results);
      LegacyRejectsInvalid(maxRows, results);
    } else if |results| <= maxRows {
      LegacyWithinLimit(maxRows, results);
    } else {
      LegacyOverLimit(maxRows, results);
    }
  }

  /** With every row valid and no more rows than the limit, the legacy
      checks return the records. */
  lemma LegacyWithinLimit(maxRows: int, results: seq<RowResult>)
    requires results != [] && |results| <= maxRows
    requires AllAccepted(results) && RejectionsReported(results)
    ensures LegacyConclude(maxRows, results) == Parsed(RecordsOf(results))
  {
    var n := |results| - 1;
    LegacyScanCharacterised(results, maxRows);
    RowAccounting(results);
    DropLast(results);
    RowAccounting(results[..n]);
    assert LegacyScan(results, maxRows) == Scanned(RecordsOf(results), []);
  }

  /** With every row valid and more rows than the limit, the legacy checks
      give the limit detail. */
  lemma LegacyOverLimit(maxRows: int, results: seq<RowResult>)
    requires results != [] && |results| > maxRows
    requires AllAccepted(results) && RejectionsReported(results)
    ensures LegacyConclude(maxRows, results) == Rejected(ExceedsMessage(maxRows))
  {
    var n := |results| - 1;
    LegacyScanCharacterised(results, maxRows);
    DropLast(results);
    RowAccounting(results[..n]);
    assert LegacyScan(results, maxRows) == Overflow;
  }

  /** A collected error keeps the legacy checks from accepting. */
  lemma LegacyRejectsInvalid(maxRows: int, results: seq<RowResult>)
    requires ErrorsOf(results) != []
    ensures LegacyConclude(maxRows, results).Rejected?
  {
    LegacyScanCharacterised(results, maxRows);
  }

  /** An upload is accepted by the original validator exactly when the file
      checks pass, it has between 1 and `max_rows` data rows, and every row
      is valid; it then returns at most `max_rows` well-formed records with
      increasing row numbers. */
  lemma LegacyValidateAccepts(u: Upload, maxRows: int)
    ensures LegacyValidate(u, maxRows).Parsed? <==>
      FileCheck(u).None? && 1 <= |u.rows| <= maxRows
      && forall i :: 0 <= i < |u.rows| ==> RowValid(u.rows[i])
    ensures LegacyValidate(u, maxRows).Parsed? ==>
      var rs := LegacyValidate(u, maxRows).records;
      && |rs| == |u.rows| <= maxRows
      && (forall i :: 0 <= i < |rs| ==> WellFormed(rs[i]) && 2 <= rs[i].rowNumber <= |u.rows| + 1)
      && (forall i, j :: 0 <= i < j < |rs| ==> rs[i].rowNumber < rs[j].rowNumber)
  {
    CheckRowsAsChecked(u.rows);
    LegacyConcludeAccepts(maxRows, CheckRows(u.rows));
  }

  /** Reaching the limit with a row still to come overflows the whole scan. */
  lemma LimitReached(results: seq<RowResult>, i: nat, maxRows: int)
    requires i < |results| && |RecordsOf(results[..i])| >= maxRows
    ensures LegacyScan(results, maxRows) == Overflow
  {
    assert results[..i + 1][..i] == results[..i];
    LegacyScanCharacterised(results[..i + 1], maxRows);
    OverflowSticks(results, i + 1, maxRows);
  }

  /** The row loop of the original validator, which stops at the first row
      found beyond the limit. */
  method LegacyScanRows(rows: seq<RawRow>, maxRows: int) returns (scan: Scan)
    ensures scan == LegacyScan(CheckRows(rows), maxRows)
  {
    var parsed: seq<HospitalRecord> := [];
    var errors: seq<string> := [];
    var rowNumber := 1;
    var i := 0;
    ghost var results := CheckRows(rows);
    while i < |rows|
      invariant 0 <= i <= |rows| && rowNumber == i + 1
      invariant parsed == RecordsOf(results[..i]) && errors == ErrorsOf(results[..i])
      invariant i > 0 ==> |RecordsOf(results[..i - 1])| < maxRows
    {
      rowNumber := rowNumber + 1;
      if |parsed| >= maxRows {
        LimitReached(results, i, maxRows);
        return Overflow;
      }
      var checked := CheckRow(rows[i], rowNumber);
      assert checked == results[i];
      CollectStep(results, i);
      if checked.RowRejected? {
        errors := errors + checked.errors;
      } else {
        parsed := parsed + [checked.record];
      }
      i := i + 1;
    }
    assert results[..|rows|] == results;
    LegacyScanCharacterised(results, maxRows);
    scan := Scanned(parsed, errors);
  }

  /** validate_and_parse_csv of the original application: returns the
      records together with the error list, which is empty whenever it
      returns at all. */
  method LegacyValidateAndParseCsv(u: Upload, maxRows: int) returns (r: CsvOutcome, errors: seq<string>)
    ensures r == LegacyValidate(u, maxRows)
    ensures r.Parsed? ==> errors == []
  {
    errors := [];
    var file := FileCheck(u);
    if file.Some? {
      return Rejected(file.value), errors;
    }
    var scan := LegacyScanRows(u.rows, maxRows);
    if scan.Overflow? {
      return Rejected(ExceedsMessage(maxRows)), errors;
    }
    var parsed := scan.records;
    errors := scan.errors;
    if parsed == [] && errors == [] {
      return Rejected(NoDataMessage), errors;
    }
    if errors != [] {
      return Rejected(ValidationFailedPrefix + Join(errors, ErrorSeparator)), errors;
    }
    r := Parsed(parsed);
  }

  /** With a positive limit the two validators agree on uploads whose rows
      are all valid, and both reject with the limit message when there are
      more valid rows than the limit. */
  lemma LimitAgreement(maxRows: int, results: seq<RowResult>)
    requires maxRows > 0 && RejectionsReported(results)
    ensures |RecordsOf(results)| > maxRows ==>
      Conclude(maxRows, results) == LegacyConclude(maxRows, results) == Rejected(ExceedsMessage(maxRows))
    ensures AllAccepted(results) ==> Conclude(maxRows, results) == LegacyConclude(maxRows, results)
  {
    LegacyScanCharacterised(results, maxRows);
    RowAccounting(results);
    if results != [] {
      var n := |results| - 1;
      assert RecordsOf(results) == RecordsOf(results[..n]) + Kept(results[n]);
      DropLast(results);
      RowAccounting(results[..n]);
    }
  }

  /** Where they differ: `max_rows` valid rows followed by an invalid one
      are rejected by the legacy validator for the row limit, and by the
      current one for the invalid row. */
  lemma TrailingInvalidRow(maxRows: nat, results: seq<RowResult>)
    requires |results| == maxRows + 1 && RejectionsReported(results)
    requires forall i :: 0 <= i < maxRows ==> results[i].Accepted?
    requires results[maxRows].RowRejected?
    ensures LegacyConclude(maxRows, results) == Rejected(ExceedsMessage(maxRows))
    ensures Conclude(maxRows, results) == Rejected(ValidationFailedPrefix + Join(ErrorsOf(results), ErrorSeparator))
    ensures Conclude(maxRows, results) != LegacyConclude(maxRows, results)
  {
    var init := results[..maxRows];
    assert forall i :: 0 <= i < maxRows ==> init[i] == results[i];
    RowAccounting(init);
    LegacyScanCharacterised(results, maxRows);
    assert RecordsOf(results) == RecordsOf(init) + Kept(results[maxRows]);
    assert ErrorsOf(results) == ErrorsOf(init) + Reported(results[maxRows]);
    DetailsDiffer(Join(ErrorsOf(results), ErrorSeparator), IntToString(maxRows));
  }

  /** A validation-failure detail never reads as a row-limit detail. */
  lemma DetailsDiffer(errors: string, limit: string)
    ensures ValidationFailedPrefix + errors != "CSV exceeds maximum allowed rows (" + limit + ")"
  {
    var a := ValidationFailedPrefix + errors;
    var b := "CSV exceeds maximum allowed rows (" + limit + ")";
    assert a[4] == ValidationFailedPrefix[4] == 'v';
    assert b[4] == 'e';
  }
}
