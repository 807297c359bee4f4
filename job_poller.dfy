/**
 * The batch-job progress poller of util.py (`display_ocr_progress`): while
 * the job is queued or running, fetch it again and report the fraction of
 * requests done.
 *
 * The service is a parameter: `fetched` holds the snapshots that successive
 * `client.batch.jobs.get` calls return. If the job is still active when that
 * sequence runs out, the run is reported as `Stalled`; `display_ocr_progress`
 * would go on polling.
 */
module JobPoller {

  /** The fields of a batch job the poller reads. */
  datatype JobSnapshot = JobSnapshot(status: string, succeededRequests: nat, failedRequests: nat, totalRequests: nat)

  datatype PollOutcome =
    | Finished(job: JobSnapshot)        // the loop ended; this job is returned
    | DivisionByZero(job: JobSnapshot)  // a fetched job had no requests: the quotient raises
    | Stalled(job: JobSnapshot)         // still active after the last snapshot supplied

  predicate InProgress(job: JobSnapshot) {
    job.status == "QUEUED" || job.status == "RUNNING"
  }

  /** The fraction shown on the progress bar, before rounding. */
  function Progress(job: JobSnapshot): (r: real)
    requires job.totalRequests > 0
    ensures 0.0 <= r
    ensures job.succeededRequests + job.failedRequests <= job.totalRequests ==> r <= 1.0
    ensures r == 1.0 <==> job.succeededRequests + job.failedRequests == job.totalRequests
  {
    var done := (job.succeededRequests + job.failedRequests) as real;
    var total := job.totalRequests as real;
    QuotientBounds(done, total);
    done / total
  }

  /** The requests of a job counted as done, succeeded or failed. */
  function Done(job: JobSnapshot): nat {
    job.succeededRequests + job.failedRequests
  }

  /** For one job whose total stays fixed, more requests done never shows
      less progress. */
  lemma ProgressMonotone(a: JobSnapshot, b: JobSnapshot)
    requires a.totalRequests == b.totalRequests > 0
    requires Done(a) <= Done(b)
    ensures Progress(a) <= Progress(b)
  {
    var t := a.totalRequests as real;
    var da := Done(a) as real;
    var db := Done(b) as real;
    assert Progress(a) == da / t && Progress(b) == db / t;
    QuotientBounds(db - da, t);
    assert db / t - da / t == (db - da) / t;
  }

  lemma QuotientBounds(n: real, d: real)
    requires 0.0 <= n && 0.0 < d
    ensures 0.0 <= n / d
    ensures n <= d ==> n / d <= 1.0
    ensures n / d == 1.0 <==> n == d
  {
  }

  /** The job the loop holds after `k` fetches. */
  function Current(initial: JobSnapshot, fetched: seq<JobSnapshot>, k: nat): JobSnapshot
    requires k <= |fetched|
  {
    if k == 0 then initial else fetched[k - 1]
  }

  /** The whole run: its outcome and the progress values reported, in order. */
  function Run(job: JobSnapshot, fetched: seq<JobSnapshot>): (PollOutcome, seq<real>)
    decreases |fetched|
  {
    if !InProgress(job) then (Finished(job), [])
    else if |fetched| == 0 then (Stalled(job), [])
    else
      var next := fetched[0];
      if next.totalRequests == 0 then (DivisionByZero(next), [])
      else
        var (outcome, reported) := Run(next, fetched[1..]);
        (outcome, [Progress(next)] + reported)
  }

  /** `display_ocr_progress`. */
  method DisplayOcrProgress(retrievedJob: JobSnapshot, fetched: seq<JobSnapshot>)
    returns (outcome: PollOutcome, reported: seq<real>)
    ensures (outcome, reported) == Run(retrievedJob, fetched)
    ensures outcome.Finished? ==> !InProgress(outcome.job)
    ensures !InProgress(retrievedJob) ==> outcome == Finished(retrievedJob) && reported == []
  {
    FinishedIsTerminal(retrievedJob, fetched);
    if !InProgress(retrievedJob) {
      AlreadyDone(retrievedJob, fetched);
    }
    var job := retrievedJob;
    var i := 0;
    reported := [];
    assert fetched[0..] == fetched;
    while InProgress(job) && i < |fetched|
      invariant i <= |fetched|
      invariant Run(retrievedJob, fetched).0 == Run(job, fetched[i..]).0
      invariant Run(retrievedJob, fetched).1 == reported + Run(job, fetched[i..]).1
      decreases |fetched| - i
    {
      assert fetched[i..][0] == fetched[i];
      assert fetched[i..][1..] == fetched[i + 1..];
      job := fetched[i];
      if job.totalRequests == 0 {
        outcome := DivisionByZero(job);
        assert reported + [] == reported;
        return;
      }
      var percentDone := Progress(job);
      reported := reported + [percentDone];
      i := i + 1;
    }
    assert reported + [] == reported;
    if InProgress(job) {
      assert fetched[i..] == [];
      outcome := Stalled(job);
    } else {
      outcome := Finished(job);
    }
  }

  // ---------------------------------------------------------------------
  // Properties

  /** What a run reports: one value per fetch, each fetch made while the
      job held was still queued or running, each value the progress of the
      job just fetched. */
  lemma {:induction false} RunReports(initial: JobSnapshot, fetched: seq<JobSnapshot>)
    ensures |Run(initial, fetched).1| <= |fetched|
    ensures forall k :: 0 <= k < |Run(initial, fetched).1| ==>
              InProgress(Current(initial, fetched, k))
              && fetched[k].totalRequests > 0
              && Run(initial, fetched).1[k] == Progress(fetched[k])
    decreases |fetched|
  {
    if InProgress(initial) && |fetched| > 0 && fetched[0].totalRequests > 0 {
      var tail := fetched[1..];
      RunReports(fetched[0], tail);
      var reported := Run(initial, fetched).1;
      var r' := Run(fetched[0], tail).1;
      assert reported == [Progress(fetched[0])] + r';
      forall k | 1 <= k < |reported|
        ensures InProgress(Current(initial, fetched, k)) && fetched[k].totalRequests > 0
                && reported[k] == Progress(fetched[k])
      {
        assert Current(initial, fetched, k) == Current(fetched[0], tail, k - 1);
        assert reported[k] == r'[k - 1] && fetched[k] == tail[k - 1];
      }
    }
  }

  /** Polling a job whose total stays fixed and whose done count only grows
      reports progress that never decreases. */
  lemma ReportsNonDecreasing(initial: JobSnapshot, fetched: seq<JobSnapshot>)
    requires forall j, k :: 0 <= j < k < |fetched| ==>
               fetched[j].totalRequests == fetched[k].totalRequests && Done(fetched[j]) <= Done(fetched[k])
    ensures forall j, k :: 0 <= j < k < |Run(initial, fetched).1| ==>
              Run(initial, fetched).1[j] <= Run(initial, fetched).1[k]
  {
    var reported := Run(initial, fetched).1;
    RunReports(initial, fetched);
    forall j, k | 0 <= j < k < |reported| ensures reported[j] <= reported[k] {
      ProgressMonotone(fetched[j], fetched[k]);
    }
  }

  /** How a run ends: it returns the first job that is neither queued nor
      running, raises at the first fetched job without requests, or is
      still active when the snapshots run out. */
  lemma {:induction false} RunOutcome(initial: JobSnapshot, fetched: seq<JobSnapshot>)
    ensures var (outcome, reported) := Run(initial, fetched);
            (outcome.Finished? ==>
               |reported| <= |fetched|
               && outcome.job == Current(initial, fetched, |reported|) && !InProgress(outcome.job))
            && (outcome.DivisionByZero? ==>
                  |reported| < |fetched| && InProgress(Current(initial, fetched, |reported|))
                  && outcome.job == fetched[|reported|] && outcome.job.totalRequests == 0)
            && (outcome.Stalled? ==>
                  |reported| == |fetched| && InProgress(Current(initial, fetched, |reported|))
                  && outcome.job == Current(initial, fetched, |reported|))
    decreases |fetched|
  {
    if InProgress(initial) && |fetched| > 0 && fetched[0].totalRequests > 0 {
      var tail := fetched[1..];
      RunOutcome(fetched[0], tail);
      var (o', r') := Run(fetched[0], tail);
      assert Run(initial, fetched) == (o', [Progress(fetched[0])] + r');
      if o'.DivisionByZero? {
        assert fetched[|r'| + 1] == tail[|r'|];
      }
      if |r'| < |tail| || o'.Stalled? {
        assert Current(initial, fetched, |r'| + 1) == Current(fetched[0], tail, |r'|);
      }
    }
  }

  /** The loop only ever returns a job that is neither queued nor running. */
  lemma FinishedIsTerminal(initial: JobSnapshot, fetched: seq<JobSnapshot>)
    ensures Run(initial, fetched).0.Finished? ==> !InProgress(Run(initial, fetched).0.job)
  {
    RunOutcome(initial, fetched);
  }

  /** A job that is already done when polling starts is returned as it is,
      with nothing fetched and nothing reported. */
  lemma AlreadyDone(initial: JobSnapshot, fetched: seq<JobSnapshot>)
    requires !InProgress(initial)
    ensures Run(initial, fetched) == (Finished(initial), [])
  {
  }

  /** A well-behaved service, one that eventually answers with a finished job
      and always counts at least one request, ends the loop normally. */
  lemma {:induction false} EndsWhenServiceFinishes(initial: JobSnapshot, fetched: seq<JobSnapshot>, m: nat)
    requires m < |fetched| && !InProgress(fetched[m])
    requires forall k :: 0 <= k <= m ==> fetched[k].totalRequests > 0
    ensures Run(initial, fetched).0.Finished?
    ensures |Run(initial, fetched).1| <= m + 1
    decreases |fetched|
  {
    if InProgress(initial) && m > 0 {
      assert forall k :: 0 <= k <= m - 1 ==> fetched[1..][k].totalRequests > 0 by {
        assert forall k :: 0 <= k <= m - 1 ==> fetched[1..][k] == fetched[k + 1];
      }
      assert fetched[1..][m - 1] == fetched[m];
      EndsWhenServiceFinishes(fetched[0], fetched[1..], m - 1);
    }
  }
}
