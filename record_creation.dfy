/** The per-record step of every orchestrator generation: one call to the
    hospital API's create endpoint, abstracted to its three possible outcomes,
    turned into one ProcessingResult; the fan-out as an order-preserving map;
    and the two whole-batch status rewrites (activation and rollback). */
module RecordCreation {
  import opened Domain

  /** What one create_hospital call does: returns a hospital with its id
      (HTTP 200/201), returns an error message (any other status), or raises
      (timeout, transport error, retries exhausted, breaker open). */
  datatype CreateOutcome = Returned(hospitalId: int) | Rejected(error: string) | Raised(error: string)

  /** What one activate_batch call does. */
  datatype ActivationOutcome = ActivationSucceeded | ActivationRejected(error: string) | ActivationRaised(error: string)

  /** What one delete_batch call does: its (success, error) return value is
      ignored by every caller, so only whether it raises matters. */
  datatype DeleteOutcome = DeleteReturned | DeleteRaised(error: string)

  predicate IsFailed(r: ProcessingResult) {
    r.status == RecordFailed
  }

  const UnexpectedPrefix: string := "Unexpected error: "
  const ActivationFailedPrefix: string := "Batch activation failed: "

  /** One record's result from the outcome of its create call. The record's
      row number and name always carry over; a raised exception never escapes. */
  function CreateSingle(rec: HospitalRecord, outcome: CreateOutcome): (r: ProcessingResult)
    ensures r.row == rec.rowNumber && r.name == rec.name
    ensures r.status != CreatedAndActivated
    ensures IsFailed(r) <==> !outcome.Returned?
    ensures r.hospitalId.Some? <==> outcome.Returned?
    ensures outcome.Returned? ==> r.hospitalId == Some(outcome.hospitalId) && r.errorMessage == None
    ensures outcome.Rejected? ==> r.errorMessage == Some(outcome.error)
    ensures outcome.Raised? ==> r.errorMessage == Some(UnexpectedPrefix + outcome.error)
  {
    match outcome
    case Returned(id) => ProcessingResult(rec.rowNumber, Some(id), rec.name, Created, None)
    case Rejected(e) => ProcessingResult(rec.rowNumber, None, rec.name, RecordFailed, Some(e))
    case Raised(e) => ProcessingResult(rec.rowNumber, None, rec.name, RecordFailed, Some(UnexpectedPrefix + e))
  }

  /** The concurrent fan-out, in input order: the i-th record gets the
      outcome of the i-th create call. */
  function CreateAll(records: seq<HospitalRecord>, create: nat -> CreateOutcome): (rs: seq<ProcessingResult>)
    ensures |rs| == |records|
    ensures forall i :: 0 <= i < |rs| ==> rs[i].row == records[i].rowNumber && rs[i].name == records[i].name
    ensures forall i :: 0 <= i < |rs| ==> (IsFailed(rs[i]) <==> !create(i).Returned?)
    ensures forall i :: 0 <= i < |rs| ==> rs[i].status in {Created, RecordFailed}
  {
    var rs := seq(|records|, i requires 0 <= i < |records| => CreateSingle(records[i], create(i)));
    assert forall i :: 0 <= i < |rs| ==> rs[i] == CreateSingle(records[i], create(i));
    rs
  }

  /** sum(1 for r in results if r.status == "failed") */
  function FailedCount(rs: seq<ProcessingResult>): (n: nat)
    ensures n <= |rs|
    decreases |rs|
  {
    if rs == [] then 0 else FailedCount(rs[..|rs| - 1]) + (if IsFailed(rs[|rs| - 1]) then 1 else 0)
  }

  /** No failures counted exactly when no result failed. */
  lemma {:induction false} FailedCountZeroIff(rs: seq<ProcessingResult>)
    ensures FailedCount(rs) == 0 <==> forall i :: 0 <= i < |rs| ==> !IsFailed(rs[i])
    decreases |rs|
  {
    if rs != [] {
      var init := rs[..|rs| - 1];
      FailedCountZeroIff(init);
      assert forall i :: 0 <= i < |init| ==> init[i] == rs[i];
    }
  }

  /** Every result failed exactly when the count is the length. */
  lemma {:induction false} FailedCountAllIff(rs: seq<ProcessingResult>)
    ensures FailedCount(rs) == |rs| <==> forall i :: 0 <= i < |rs| ==> IsFailed(rs[i])
    decreases |rs|
  {
    if rs != [] {
      var init := rs[..|rs| - 1];
      FailedCountAllIff(init);
      assert forall i :: 0 <= i < |init| ==> init[i] == rs[i];
    }
  }

  /** Sequences with the same failure pattern have the same count. */
  lemma {:induction false} FailedCountSamePattern(a: seq<ProcessingResult>, b: seq<ProcessingResult>)
    requires |a| == |b|
    requires forall i :: 0 <= i < |a| ==> (IsFailed(a[i]) <==> IsFailed(b[i]))
    ensures FailedCount(a) == FailedCount(b)
    decreases |a|
  {
    if a != [] {
      FailedCountSamePattern(a[..|a| - 1], b[..|b| - 1]);
    }
  }

  /** How many of the first n create calls did not return a hospital. */
  function UnsuccessfulCalls(create: nat -> CreateOutcome, n: nat): (k: nat)
    ensures k <= n
  {
    if n == 0 then 0 else UnsuccessfulCalls(create, n - 1) + (if create(n - 1).Returned? then 0 else 1)
  }

  /** The failed count of the fan-out is the number of create calls that
      did not return a hospital. */
  lemma {:induction false} FailedCountOfCreateAll(records: seq<HospitalRecord>, create: nat -> CreateOutcome)
    ensures FailedCount(CreateAll(records, create)) == UnsuccessfulCalls(create, |records|)
    decreases |records|
  {
    if records != [] {
      var init := records[..|records| - 1];
      FailedCountOfCreateAll(init, create);
      var all := CreateAll(records, create);
      assert all[..|all| - 1] == CreateAll(init, create);
    }
  }

  /** The rewrite after a successful activation: every result becomes
      "created_and_activated"; nothing else about it changes. */
  function ActivateAll(rs: seq<ProcessingResult>): (out: seq<ProcessingResult>)
    ensures |out| == |rs|
    ensures forall i :: 0 <= i < |out| ==> out[i] == rs[i].(status := CreatedAndActivated)
  {
    seq(|rs|, i requires 0 <= i < |rs| => rs[i].(status := CreatedAndActivated))
  }

  /** The rollback rewrite after a failed activation: every result becomes
      "failed" with the activation error; rows, names and ids are kept. */
  function FailAll(rs: seq<ProcessingResult>, activationError: string): (out: seq<ProcessingResult>)
    ensures |out| == |rs|
    ensures forall i :: 0 <= i < |out| ==>
      out[i] == rs[i].(status := RecordFailed, errorMessage := Some(ActivationFailedPrefix + activationError))
  {
    seq(|rs|, i requires 0 <= i < |rs| => rs[i].(status := RecordFailed, errorMessage := Some(ActivationFailedPrefix + activationError)))
  }

  lemma ActivateAllHasNoFailures(rs: seq<ProcessingResult>)
    ensures FailedCount(ActivateAll(rs)) == 0
  {
    FailedCountZeroIff(ActivateAll(rs));
  }

  lemma FailAllFailsEverything(rs: seq<ProcessingResult>, e: string)
    ensures FailedCount(FailAll(rs, e)) == |rs|
  {
    FailedCountAllIff(FailAll(rs, e));
  }

  /** The in-place loop `for result in results: result.status = "created_and_activated"`. */
  method MarkAllActivated(results: seq<ProcessingResult>) returns (out: seq<ProcessingResult>)
    ensures out == ActivateAll(results)
  {
    out := results;
    var i := 0;
    while i < |out|
      invariant 0 <= i <= |out| == |results|
      invariant forall j :: 0 <= j < i ==> out[j] == results[j].(status := CreatedAndActivated)
      invariant forall j :: i <= j < |out| ==> out[j] == results[j]
    {
      out := out[i := out[i].(status := CreatedAndActivated)];
      i := i + 1;
    }
  }

  /** The in-place rollback loop setting every result to "failed" with
      "Batch activation failed: <error>". */
  method MarkAllFailed(results: seq<ProcessingResult>, activationError: string) returns (out: seq<ProcessingResult>)
    ensures out == FailAll(results, activationError)
  {
    out := results;
    var i := 0;
    while i < |out|
      invariant 0 <= i <= |out| == |results|
      invariant forall j :: 0 <= j < i ==>
        out[j] == results[j].(status := RecordFailed, errorMessage := Some(ActivationFailedPrefix + activationError))
      invariant forall j :: i <= j < |out| ==> out[j] == results[j]
    {
      out := out[i := out[i].(status := RecordFailed, errorMessage := Some(ActivationFailedPrefix + activationError))];
      i := i + 1;
    }
  }
}
