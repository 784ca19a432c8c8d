/** The human-readable status line of a job. The legacy job manager and both
    job services choose it by the same rules, so it is defined once here. */
module StatusMessages {
  import opened Domain
  import opened Text

  const PendingMessage: string := "Job is pending, waiting to start processing"
  const AllSucceededMessage: string := "All hospitals processed successfully"

  /** Python's `f"{x}"` of an optional string: the text, or "None". */
  function OptionText(e: Option<string>): string {
    if e.Some? then e.value else "None"
  }

  function ProcessingMessage(processed: nat, total: nat): string {
    "Processing hospitals: " + NatToString(processed) + "/" + NatToString(total) + " completed"
  }

  function FailuresMessage(failed: nat): string {
    "Processing completed with " + NatToString(failed) + " failures"
  }

  function FailedMessage(error: Option<string>): string {
    "Job failed: " + OptionText(error)
  }

  /** The message for a job's status. Every JobStatus member has a case, so
      the "Unknown status" fallback of the source is unreachable. */
  function StatusMessage(status: JobStatus, processed: nat, total: nat, failed: nat, error: Option<string>): string {
    match status
    case Pending => PendingMessage
    case Processing => ProcessingMessage(processed, total)
    case Completed => if failed > 0 then FailuresMessage(failed) else AllSucceededMessage
    case Failed => FailedMessage(error)
  }

  /** Where the slash sits in `a + "/" + b`. */
  lemma SlashAt(a: string, b: string)
    ensures |a + "/" + b| == |a| + 1 + |b|
    ensures (a + "/" + b)[|a|] == '/'
    ensures forall i :: 0 <= i < |a| ==> (a + "/" + b)[i] == a[i]
  {
  }

  /** Splitting `a + "/" + b` where `a` is all digits is unambiguous. */
  lemma DigitsBeforeSlash(a: string, b: string, c: string, d: string)
    requires forall i :: 0 <= i < |a| ==> IsDigit(a[i])
    requires forall i :: 0 <= i < |c| ==> IsDigit(c[i])
    requires a + "/" + b == c + "/" + d
    ensures a == c && b == d
  {
    var x := a + "/" + b;
    SlashAt(a, b);
    SlashAt(c, d);
    assert |a| == |c|;
    assert a == x[..|a|] == c;
    assert b == x[|a| + 1..] == d;
  }

  /** A common prefix or suffix can be cancelled. */
  lemma CancelPrefix(p: string, a: string, b: string)
    requires p + a == p + b
    ensures a == b
  {
    assert a == (p + a)[|p|..];
    assert b == (p + b)[|p|..];
  }

  lemma CancelSuffix(a: string, b: string, q: string)
    requires a + q == b + q
    ensures a == b
  {
    assert |a| == |b|;
    assert a == (a + q)[..|a|];
    assert b == (b + q)[..|b|];
  }

  lemma RegroupProcessing(pre: string, a: string, b: string, post: string)
    ensures pre + a + "/" + b + post == pre + (a + "/" + (b + post))
  {
  }

  /** The PROCESSING message determines both counts it shows. */
  lemma ProcessingMessageDeterminesCounts(p1: nat, t1: nat, p2: nat, t2: nat)
    requires ProcessingMessage(p1, t1) == ProcessingMessage(p2, t2)
    ensures p1 == p2 && t1 == t2
  {
    var pre, post := "Processing hospitals: ", " completed";
    var a1, b1, a2, b2 := NatToString(p1), NatToString(t1), NatToString(p2), NatToString(t2);
    RegroupProcessing(pre, a1, b1, post);
    RegroupProcessing(pre, a2, b2, post);
    CancelPrefix(pre, a1 + "/" + (b1 + post), a2 + "/" + (b2 + post));
    DigitsBeforeSlash(a1, b1 + post, a2, b2 + post);
    CancelSuffix(b1, b2, post);
    NatToStringInjective(p1, p2);
    NatToStringInjective(t1, t2);
  }

  /** A failures message starts with 'P', unlike the all-succeeded one. */
  lemma FailuresMessageStart(f: nat)
    ensures FailuresMessage(f)[0] == 'P' && AllSucceededMessage[0] == 'A'
  {
  }

  /** The COMPLETED message determines the failure count, and says "all
      processed successfully" exactly when no hospital failed. */
  lemma CompletedMessageDeterminesFailures(p1: nat, t1: nat, f1: nat, e1: Option<string>,
                                           p2: nat, t2: nat, f2: nat, e2: Option<string>)
    requires StatusMessage(Completed, p1, t1, f1, e1) == StatusMessage(Completed, p2, t2, f2, e2)
    ensures f1 == f2
    ensures (StatusMessage(Completed, p1, t1, f1, e1) == AllSucceededMessage) <==> f1 == 0
  {
    FailuresMessageStart(f1);
    FailuresMessageStart(f2);
    if f1 > 0 && f2 > 0 {
      var pre := "Processing completed with ";
      var post := " failures";
      assert pre + (NatToString(f1) + post) == FailuresMessage(f1);
      assert pre + (NatToString(f2) + post) == FailuresMessage(f2);
      CancelPrefix(pre, NatToString(f1) + post, NatToString(f2) + post);
      CancelSuffix(NatToString(f1), NatToString(f2), post);
      NatToStringInjective(f1, f2);
    }
  }

  /** Messages of different statuses never coincide, so the message alone
      tells which status the job is in. */
  lemma StatusMessageDeterminesStatus(s1: JobStatus, p1: nat, t1: nat, f1: nat, e1: Option<string>,
                                      s2: JobStatus, p2: nat, t2: nat, f2: nat, e2: Option<string>)
    requires StatusMessage(s1, p1, t1, f1, e1) == StatusMessage(s2, p2, t2, f2, e2)
    ensures s1 == s2
  {
    KeyPrefix(s1, p1, t1, f1, e1);
    KeyPrefix(s2, p2, t2, f2, e2);
    KeyInjective(s1, f1, s2, f2);
  }

  /** The first twelve characters of a status message. */
  function Key(s: JobStatus, failed: nat): string {
    match s
    case Pending => "Job is pendi"
    case Processing => "Processing h"
    case Completed => if failed > 0 then "Processing c" else "All hospital"
    case Failed => "Job failed: "
  }

  lemma KeyPrefix(s: JobStatus, processed: nat, total: nat, failed: nat, error: Option<string>)
    ensures |StatusMessage(s, processed, total, failed, error)| >= 12
    ensures StatusMessage(s, processed, total, failed, error)[..12] == Key(s, failed)
  {
    match s
    case Pending => HeadOfConcat(PendingMessage, "");
    case Processing => ProcessingKey(processed, total);
    case Completed =>
      if failed > 0 {
        FailuresKey(failed);
        assert StatusMessage(s, processed, total, failed, error) == FailuresMessage(failed);
        assert Key(s, failed) == "Processing c";
      } else {
        HeadOfConcat(AllSucceededMessage, "");
      }
    case Failed => HeadOfConcat("Job failed: ", OptionText(error));
  }

  lemma ProcessingKey(processed: nat, total: nat)
    ensures |ProcessingMessage(processed, total)| >= 12
    ensures ProcessingMessage(processed, total)[..12] == "Processing h"
  {
    var rest := NatToString(processed) + "/" + NatToString(total) + " completed";
    assert ProcessingMessage(processed, total) == "Processing hospitals: " + rest;
    HeadOfConcat("Processing hospitals: ", rest);
  }

  lemma FailuresKey(failed: nat)
    ensures |FailuresMessage(failed)| >= 12
    ensures FailuresMessage(failed)[..12] == "Processing c"
  {
    var rest := NatToString(failed) + " failures";
    assert FailuresMessage(failed) == "Processing completed with " + rest;
    HeadOfConcat("Processing completed with ", rest);
  }

  lemma HeadOfConcat(a: string, b: string)
    requires |a| >= 12
    ensures |a + b| >= 12 && (a + b)[..12] == a[..12]
  {
  }

  lemma KeyInjective(s1: JobStatus, f1: nat, s2: JobStatus, f2: nat)
    requires Key(s1, f1) == Key(s2, f2)
    ensures s1 == s2
  {
    assert Key(s1, f1)[11] == Key(s2, f2)[11];
    assert Key(s1, f1)[0] == Key(s2, f2)[0];
  }
}
