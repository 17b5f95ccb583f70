/**
 The capture retry loop of `app_main` in main/main.c.

 Each pass calls `camera_capture`, which reports a size, then `stat`s the file
 it wrote. A capture error or a failed `stat` goes straight round again: it is
 not counted and there is no delay. A size that matches the file ends the loop;
 a mismatch is counted, and the eleventh one ends the loop too, otherwise the
 task waits 1000 ticks (`vTaskDelay(1000)`) and tries again. Whatever the loop
 ended with, the job is then handed to the mail task.

 The camera and the file system are outside the model: a script of attempt
 results stands for them, and a script that runs out means the loop has not
 finished yet, so a loop that never ends shows up as a script of any length
 that is never decided.
 */
module CaptureRetry {
  import opened Wrappers
  import opened Bytes
  import MailSession

  /** `retryCounter > 10` ends the loop. */
  const RETRY_LIMIT: nat := 10

  /** One pass: the capture failed, or it reported a size and `stat` gave the
      file's size (`None` when `stat` failed). */
  datatype Attempt = CaptureFailed | Captured(reported: nat, stat: Option<nat>)

  predicate IsMatch(a: Attempt) {
    a.Captured? && a.stat.Some? && a.stat.value == a.reported
  }

  predicate IsMismatch(a: Attempt) {
    a.Captured? && a.stat.Some? && a.stat.value != a.reported
  }

  /** The loop ended after `used` attempts, on a size match or by giving up,
      having waited 1000 ticks `delays` times; or it is still going after the
      whole script with `retryCounter` at `counter`. */
  datatype Capture = Done(matched: bool, used: nat, delays: nat) | Looping(counter: nat)

  /** The loop from attempt `i`, with `retryCounter` at `counter`. */
  function Loop(script: seq<Attempt>, i: nat, counter: nat, delays: nat): Capture
    requires i <= |script|
    decreases |script| - i
  {
    if i == |script| then Looping(counter)
    else
      var a := script[i];
      if !a.Captured? || a.stat.None? then Loop(script, i + 1, counter, delays)
      else if a.stat.value == a.reported then Done(true, i + 1, delays)
      else if counter + 1 > RETRY_LIMIT then Done(false, i + 1, delays)
      else Loop(script, i + 1, counter + 1, delays + 1)
  }

  function CaptureLoop(script: seq<Attempt>): Capture {
    Loop(script, 0, 0, 0)
  }

  /** The cycle after the loop: once it has ended, the job goes to the mail
      task; while it is still going, nothing is sent. */
  function Cycle(script: seq<Attempt>, remoteFileName: MailSession.RemoteName): Option<MailSession.Job> {
    if CaptureLoop(script).Done? then Some(MailSession.Job(remoteFileName)) else None
  }

  // ---------------------------------------------------------------------------
  // Reference: counting mismatches

  /** How many size mismatches there are in `s`. */
  function Mismatches(s: seq<Attempt>): (n: nat)
    ensures n <= |s|
  {
    if |s| == 0 then 0
    else Mismatches(s[..|s| - 1]) + (if IsMismatch(s[|s| - 1]) then 1 else 0)
  }

  predicate NoMatch(s: seq<Attempt>) {
    forall j | 0 <= j < |s| :: !IsMatch(s[j])
  }

  /** What the loop does, stated through the script: it stops at the first
      size match if no more than ten mismatches came before it, and otherwise at
      the eleventh mismatch; it waits once for each of the first ten
      mismatches; without either it is still going. */
  predicate Decides(script: seq<Attempt>, r: Capture) {
    match r
    case Done(matched, used, delays) =>
      && 1 <= used <= |script|
      && NoMatch(script[..used - 1])
      && (matched ==> IsMatch(script[used - 1]) && delays == Mismatches(script[..used]) <= RETRY_LIMIT)
      && (!matched ==> IsMismatch(script[used - 1]) && Mismatches(script[..used]) == RETRY_LIMIT + 1
                       && delays == RETRY_LIMIT)
    case Looping(counter) =>
      NoMatch(script) && counter == Mismatches(script) <= RETRY_LIMIT
  }

  lemma MismatchesStep(s: seq<Attempt>, i: nat)
    requires i < |s|
    ensures Mismatches(s[..i + 1]) == Mismatches(s[..i]) + if IsMismatch(s[i]) then 1 else 0
  {
    assert s[..i + 1][..i] == s[..i];
  }

  /** From any point at which no match has been seen and every mismatch so far
      has been counted and waited for, the loop decides as the reference says. */
  lemma {:induction false} LoopDecides(script: seq<Attempt>, i: nat, counter: nat, delays: nat)
    requires i <= |script| && NoMatch(script[..i])
    requires counter == delays == Mismatches(script[..i]) <= RETRY_LIMIT
    ensures Decides(script, Loop(script, i, counter, delays))
    decreases |script| - i
  {
    if i == |script| {
      assert script[..i] == script;
    } else {
      var a := script[i];
      MismatchesStep(script, i);
      assert script[..i + 1][..i] == script[..i];
      if !IsMatch(a) {
        assert NoMatch(script[..i + 1]) by {
          assert forall j | 0 <= j < i :: script[..i + 1][j] == script[..i][j];
        }
      }
      if !a.Captured? || a.stat.None? {
        LoopDecides(script, i + 1, counter, delays);
      } else if a.stat.value != a.reported && counter + 1 <= RETRY_LIMIT {
        LoopDecides(script, i + 1, counter + 1, delays + 1);
      }
    }
  }

  /** The loop ends or keeps going exactly as the reference says. */
  lemma CaptureDecides(script: seq<Attempt>)
    ensures Decides(script, CaptureLoop(script))
  {
    assert script[..0] == [];
    LoopDecides(script, 0, 0, 0);
  }

  // ---------------------------------------------------------------------------
  // Consequences

  lemma {:induction false} AllMismatches(s: seq<Attempt>)
    requires forall j | 0 <= j < |s| :: IsMismatch(s[j])
    ensures Mismatches(s) == |s|
  {
    if |s| > 0 {
      AllMismatches(s[..|s| - 1]);
    }
  }

  /** `k` mismatches then a match, with `k` at most ten: the loop ends with
      the match on attempt `k + 1`, after `k` delays. */
  lemma MatchAfterMismatches(script: seq<Attempt>, k: nat)
    requires k < |script| && k <= RETRY_LIMIT && IsMatch(script[k])
    requires forall j | 0 <= j < k :: IsMismatch(script[j])
    ensures CaptureLoop(script) == Done(true, k + 1, k)
  {
    CaptureDecides(script);
    var p := script[..k];
    assert forall j | 0 <= j < |p| :: p[j] == script[j];
    AllMismatches(p);
    MismatchesStep(script, k);
    var r := CaptureLoop(script);
    if r.Done? && r.used - 1 != k {
      // a match before `k`, or `k` inside the no-match prefix
      PrefixFacts(script, r.used, k);
    }
  }

  /** A shorter prefix of mismatches has at most its own length of them, and
      a longer one contains `script[k]`. */
  lemma PrefixFacts(script: seq<Attempt>, used: nat, k: nat)
    requires 1 <= used <= |script| && k < |script|
    ensures used - 1 > k ==> script[..used - 1][k] == script[k]
    ensures used - 1 < k ==> Mismatches(script[..used]) <= used
  {
  }

  /** Eleven mismatches in a row end the loop without a match after ten
      delays, and the job is still sent. */
  lemma GivesUpAndSends(script: seq<Attempt>, remoteFileName: MailSession.RemoteName)
    requires |script| >= RETRY_LIMIT + 1
    requires forall j | 0 <= j <= RETRY_LIMIT :: IsMismatch(script[j])
    ensures CaptureLoop(script) == Done(false, RETRY_LIMIT + 1, RETRY_LIMIT)
    ensures Cycle(script, remoteFileName) == Some(MailSession.Job(remoteFileName))
  {
    CaptureDecides(script);
    var p := script[..RETRY_LIMIT + 1];
    assert forall j | 0 <= j < |p| :: p[j] == script[j];
    AllMismatches(p);
    MismatchesGrow(script, RETRY_LIMIT + 1);
    var r := CaptureLoop(script);
    if r.Done? && r.used != RETRY_LIMIT + 1 {
      PrefixFacts(script, r.used, RETRY_LIMIT);
      if r.used > RETRY_LIMIT + 1 {
        var q := script[..r.used - 1];
        MismatchesGrow(q, RETRY_LIMIT + 1);
        assert q[..RETRY_LIMIT + 1] == p;
        MismatchesStep(script, r.used - 1);
      }
    }
  }

  /** Mismatches in a prefix are no more than in the whole. */
  lemma {:induction false} MismatchesGrow(s: seq<Attempt>, i: nat)
    requires i <= |s|
    ensures Mismatches(s[..i]) <= Mismatches(s)
    decreases |s| - i
  {
    if i < |s| {
      MismatchesStep(s, i);
      MismatchesGrow(s, i + 1);
    } else {
      assert s[..i] == s;
    }
  }

  /** Attempts that fail to capture or to `stat` change nothing but the
      attempt count: they are free, so a script of only those never ends the
      loop, however long it is. */
  lemma {:induction false} FailuresNeverEnd(script: seq<Attempt>)
    requires forall j | 0 <= j < |script| :: !script[j].Captured? || script[j].stat.None?
    ensures CaptureLoop(script) == Looping(0)
  {
    CaptureDecides(script);
    assert Mismatches(script) == 0 by {
      NoMismatch(script);
    }
  }

  lemma {:induction false} NoMismatch(s: seq<Attempt>)
    requires forall j | 0 <= j < |s| :: !IsMismatch(s[j])
    ensures Mismatches(s) == 0
  {
    if |s| > 0 {
      NoMismatch(s[..|s| - 1]);
    }
  }

  /** The job goes out exactly when the loop has ended, matched or not. */
  lemma SendsIffDone(script: seq<Attempt>, remoteFileName: MailSession.RemoteName)
    ensures Cycle(script, remoteFileName).Some? <==>
      (exists i | 0 <= i < |script| :: IsMatch(script[i])) || Mismatches(script) > RETRY_LIMIT
  {
    CaptureDecides(script);
    var r := CaptureLoop(script);
    if r.Done? {
      MismatchesGrow(script, r.used);
      if r.matched {
        assert IsMatch(script[r.used - 1]);
      }
    }
  }
}
