/** What every delivery keeps, over any number of runs, crashes and recoveries. */
module DeliveryProperties {
  import opened Delivery
  import opened Wrappers

  // ----- the receipt's own status -----

  lemma {:induction false} FailureCountExact(targets: seq<Target>)
    ensures FailureCount(targets) == 0 <==> forall k | 0 <= k < |targets| :: !targets[k].status.Failed?
    ensures FailureCount(targets) == |targets| <==> forall k | 0 <= k < |targets| :: targets[k].status.Failed?
  {
    if targets != [] {
      var n := |targets| - 1;
      FailureCountExact(targets[..n]);
      assert forall k | 0 <= k < n :: targets[..n][k] == targets[k];
    }
  }

  /** The five verdicts, each told by the targets alone. A status the protocol does not know counts as
      delivered. */
  lemma {:induction false} OverallExact(targets: seq<Target>, fallback: Overall)
    requires targets != []
    ensures var s := OverallStatus(targets, fallback);
            && (s == InFlight <==>
                exists t <- targets :: t.status.Pending? || t.status.Submitting? || t.status.AwaitingResult?)
            && (s == Unknown <==>
                && (forall t <- targets :: !t.status.Pending? && !t.status.Submitting? && !t.status.AwaitingResult?)
                && exists t <- targets :: t.status.DeliveryUnknown?)
            && (s == AllDelivered <==> forall t <- targets :: t.status.Delivered? || t.status.Other?)
            && (s == AllFailed <==> forall t <- targets :: t.status.Failed?)
            && (s == PartialFailed <==>
                && (forall t <- targets :: t.status.Failed? || t.status.Delivered? || t.status.Other?)
                && (exists t <- targets :: t.status.Failed?) && exists t <- targets :: !t.status.Failed?)
  {
    FailureCountExact(targets);
    assert targets[0] in targets;
  }

  ghost predicate InSync(r: Receipt) {
    r.status == OverallStatus(r.targets, r.status)
  }

  /** Giving up on a receipt leaves its status in step with its targets exactly when it had none, or one
      that was neither delivered nor failed. */
  lemma {:induction false} ExpiredInSyncExact(r: Receipt)
    ensures InSync(Expired(r)) <==>
              r.targets == [] || exists t <- r.targets :: !t.status.Delivered? && !t.status.Failed?
  {
    if r.targets != [] {
      ExpiredTargets(r);
      OverallExact(Expired(r).targets, Unknown);
    }
  }

  lemma {:induction false} ExpiredTargets(r: Receipt)
    ensures forall t <- Expired(r).targets :: t.status.Delivered? || t.status.Failed? || t.status.DeliveryUnknown?
    ensures (exists t <- Expired(r).targets :: t.status.DeliveryUnknown?) <==>
              exists t <- r.targets :: !t.status.Delivered? && !t.status.Failed?
  {
    var e := Expired(r);
    if t :| t in r.targets && !t.status.Delivered? && !t.status.Failed? {
      var k :| 0 <= k < |r.targets| && r.targets[k] == t;
      assert e.targets[k].status == DeliveryUnknown;
    }
  }

  // ----- along one log -----

  lemma {:induction false} InSyncAlways(start: Receipt, log: seq<Effect>, n: nat)
    requires n <= |log| && Legal(start, log) && InSync(start)
    ensures InSync(Replay(start, log, n))
  {
    if n > 0 {
      InSyncAlways(start, log, n - 1);
      var r := Replay(start, log, n - 1);
      assert StepLegal(start, log, n - 1);
      if log[n - 1].Expire? {
        if r.targets != [] {
          OverallExact(r.targets, r.status);
        }
        ExpiredInSyncExact(r);
      }
    }
  }

  /** Between any two points of a log a target's status only climbs, and so stays once it is final. */
  lemma {:induction false} StatusesClimb(start: Receipt, log: seq<Effect>, m: nat, n: nat, i: nat)
    requires m <= n <= |log| && Legal(start, log) && i < |start.targets|
    ensures var a, b := Replay(start, log, m).targets[i], Replay(start, log, n).targets[i];
            && a.session == b.session
            && (a.status.Submitting? ==> !b.status.Pending? && !b.status.Other?)
            && (a.status.AwaitingResult? ==> !b.status.Pending? && !b.status.Other? && !b.status.Submitting?)
            && (a.status.Delivered? || a.status.Failed? || a.status.DeliveryUnknown? ==> a.status == b.status)
            && a.status.Climbs(b.status)
  {
    if m < n {
      StatusesClimb(start, log, m, n - 1, i);
      assert StepLegal(start, log, n - 1);
    }
  }

  /** No target is submitted twice. */
  lemma {:induction false} SubmittedOnce(start: Receipt, log: seq<Effect>, m: nat, n: nat, i: nat)
    requires m < |log| && n < |log| && Legal(start, log)
    requires log[m] == Submit(i) && log[n] == Submit(i)
    ensures m == n
  {
    hide Legal;
    if m < n {
      NotAgain(start, log, m, n, i);
    } else if n < m {
      NotAgain(start, log, n, m, i);
    }
  }

  lemma {:induction false} NotAgain(start: Receipt, log: seq<Effect>, m: nat, n: nat, i: nat)
    requires m < n < |log| && Legal(start, log)
    requires log[m] == Submit(i)
    ensures log[n] != Submit(i)
  {
    assert StepLegal(start, log, m) && StepLegal(start, log, n);
    if log[n] == Submit(i) {
      StatusesClimb(start, log, m, n - 1, i);
    }
  }

  // ----- what makes a target final -----

  /** Effect k acts on a verdict about target i: the one just before it, and no crash lies between. */
  predicate ActsOn(log: seq<Effect>, k: nat, i: nat, s: Status)
    requires k < |log|
  {
    k > 0 && Verdict(log[k - 1], i) == Some(s) && !log[k].Begin?
  }

  /** One effect makes a target delivered, or failed, exactly when it acts on a verdict of that kind. */
  lemma {:induction false} FinalStepExact(start: Receipt, log: seq<Effect>, k: nat, i: nat, s: Status)
    requires k < |log| && Legal(start, log) && i < |start.targets| && (s.Delivered? || s.Failed?)
    ensures (Replay(start, log, k).targets[i].status != s && Replay(start, log, k + 1).targets[i].status == s)
            <==> ActsOn(log, k, i, s)
  {
    assert StepLegal(start, log, k);
    if ActsOn(log, k, i, s) {
      assert StepLegal(start, log, k - 1);
      assert Replay(start, log, k) == Replay(start, log, k - 1);
    }
  }

  /** A target that was not so at first is delivered, or failed, exactly when some effect acted on such a
      verdict: it was answered so or, for failed, its call ended in an API error without an answer. */
  lemma {:induction false} FinalExact(start: Receipt, log: seq<Effect>, n: nat, i: nat, s: Status)
    requires n <= |log| && Legal(start, log) && i < |start.targets| && (s.Delivered? || s.Failed?)
    requires start.targets[i].status != s
    ensures Replay(start, log, n).targets[i].status == s <==> exists k | 0 <= k < n :: ActsOn(log, k, i, s)
  {
    if n > 0 {
      FinalExact(start, log, n - 1, i, s);
      FinalStepExact(start, log, n - 1, i, s);
      StatusesClimb(start, log, n - 1, n, i);
    }
  }

  predicate Promised(t: Target) {
    t.status.AwaitingResult? && Correlated(t)
  }

  /** Nothing between m and n acts on a verdict about target i or gives up on the receipt. */
  predicate Undisturbed(log: seq<Effect>, m: nat, n: nat, i: nat)
    requires m <= n <= |log|
  {
    forall k | m <= k < n :: !log[k].Expire? && !ActsOn(log, k, i, Delivered) && !ActsOn(log, k, i, Failed)
  }

  lemma {:induction false} AcceptedStep(start: Receipt, log: seq<Effect>, k: nat, i: nat)
    requires k < |log| && Legal(start, log) && i < |start.targets| && Promised(Replay(start, log, k).targets[i])
    ensures var a, b := Replay(start, log, k).targets[i], Replay(start, log, k + 1).targets[i];
            if log[k].Expire? || ActsOn(log, k, i, Delivered) || ActsOn(log, k, i, Failed) then b.status.Rank() == 3
            else b.status.AwaitingResult? && b.requestId == a.requestId && b.eventCursor == a.eventCursor
  {
    hide OverallStatus, ActsOn;
    FinalStepExact(start, log, k, i, Delivered);
    FinalStepExact(start, log, k, i, Failed);
    assert StepLegal(start, log, k);
  }

  /** An accepted request stays with its correlation exactly until its verdict is acted on or the whole
      receipt is given up. */
  lemma {:induction false} AcceptedExact(start: Receipt, log: seq<Effect>, m: nat, n: nat, i: nat)
    requires m <= n <= |log| && Legal(start, log) && i < |start.targets| && Promised(Replay(start, log, m).targets[i])
    ensures var a, b := Replay(start, log, m).targets[i], Replay(start, log, n).targets[i];
            if Undisturbed(log, m, n, i) then
              b.status.AwaitingResult? && b.requestId == a.requestId && b.eventCursor == a.eventCursor
            else b.status.Rank() == 3
  {
    hide Legal, Replay, ActsOn;
    if m < n {
      AcceptedExact(start, log, m, n - 1, i);
      StatusesClimb(start, log, n - 1, n, i);
      if Undisturbed(log, m, n - 1, i) {
        AcceptedStep(start, log, n - 1, i);
      }
    }
  }

  // ----- crashes -----

  /** A crash keeps what had happened: any prefix of a run. */
  lemma {:induction false} CrashIsLegal(start: Receipt, log: seq<Effect>, n: nat)
    requires n <= |log| && Legal(start, log)
    ensures Legal(start, log[..n])
  {
    assert log == log[..n] + log[n..];
    forall k | 0 <= k < n ensures StepLegal(start, log[..n], k) {
      StepPrefix(start, log[..n], log[n..], k);
    }
  }

  lemma {:induction false} ReplayAppend(start: Receipt, a: seq<Effect>, b: seq<Effect>, n: nat)
    requires n <= |b|
    ensures Replay(start, a + b, |a| + n) == Replay(Replay(start, a, |a|), b, n)
  {
    hide Applied;
    if n == 0 {
      ReplayPrefix(start, a, b, |a|);
    } else {
      ReplayAppend(start, a, b, n - 1);
      assert (a + b)[|a| + n - 1] == b[n - 1];
    }
  }

  lemma {:induction false} RequestsAppend(a: seq<Effect>, b: seq<Effect>, n: nat)
    requires n <= |b|
    ensures Requests(a + b, |a| + n) == Requests(a, |a|) + Requests(b, n)
  {
    if n == 0 {
      ReplayPrefix(Receipt([], Unknown), a, b, |a|);
    } else {
      RequestsAppend(a, b, n - 1);
      assert (a + b)[|a| + n - 1] == b[n - 1];
    }
  }

  lemma {:induction false} StepAppend(start: Receipt, a: seq<Effect>, b: seq<Effect>, n: nat)
    requires n < |b| && StepLegal(Replay(start, a, |a|), b, n) && (n == 0 ==> b[0].Begin?)
    ensures StepLegal(start, a + b, |a| + n)
  {
    hide Replay;
    ReplayAppend(start, a, b, n);
    if n > 0 {
      ReplayAppend(start, a, b, n - 1);
      assert (a + b)[|a| + n - 1] == b[n - 1];
    }
  }

  lemma {:induction false} LegalAppend(start: Receipt, a: seq<Effect>, b: seq<Effect>)
    requires Legal(start, a) && Legal(Replay(start, a, |a|), b) && (b != [] ==> b[0].Begin?)
    ensures Legal(start, a + b)
  {
    hide StepLegal, Replay;
    forall n | 0 <= n < |a + b| ensures StepLegal(start, a + b, n) {
      if n < |a| {
        StepPrefix(start, a, b, n);
      } else {
        StepAppend(start, a, b, n - |a|);
      }
    }
  }

  /** The runs from k on: each goes on from the receipt the one before it left behind, and all but the
      claim's first are recoveries. */
  ghost predicate Life(start: Receipt, runs: seq<seq<Effect>>, k: nat, first: bool)
    requires k <= |runs|
    decreases |runs| - k
  {
    k < |runs| ==>
      && Legal(start, runs[k]) && (runs[k] != [] ==> runs[k][0].Begin?)
      && (!first ==> Requests(runs[k], |runs[k]|) == [])
      && Life(Replay(start, runs[k], |runs[k]|), runs, k + 1, false)
  }

  function History(runs: seq<seq<Effect>>, k: nat): seq<Effect>
    requires k <= |runs|
    decreases |runs| - k
  {
    if k == |runs| then [] else runs[k] + History(runs, k + 1)
  }

  lemma {:induction false} LifeIsLegal(start: Receipt, runs: seq<seq<Effect>>, k: nat, first: bool)
    requires k <= |runs| && Life(start, runs, k, first)
    ensures var h := History(runs, k);
            && Legal(start, h) && (h != [] ==> h[0].Begin?)
            && Requests(h, |h|) == if k < |runs| && first then Requests(runs[k], |runs[k]|) else []
    decreases |runs| - k
  {
    hide Legal, Replay, Requests;
    if k < |runs| {
      var rest := History(runs, k + 1);
      LifeIsLegal(Replay(start, runs[k], |runs[k]|), runs, k + 1, false);
      LegalAppend(start, runs[k], rest);
      RequestsAppend(runs[k], rest, |rest|);
    } else {
      NothingRequested(start);
    }
  }

  lemma {:induction false} NothingRequested(start: Receipt)
    ensures Requests([], 0) == [] && Legal(start, [])
  {
  }

  /** Over a claim's whole life, however often it crashes and recovers: statuses only climb and final
      ones stay, each target is submitted at most once and never by a recovery, the receipt's status
      is in step with its targets, and a target ends up delivered, or failed, exactly when a run acted on
      such a verdict. */
  lemma {:induction false} AcrossCrashes(start: Receipt, runs: seq<seq<Effect>>, m: nat, n: nat, i: nat, s: Status)
    requires Life(start, runs, 0, true) && InSync(start) && i < |start.targets|
    requires m <= n <= |History(runs, 0)| && (s.Delivered? || s.Failed?)
    ensures var h := History(runs, 0);
            var a, b := Replay(start, h, m), Replay(start, h, n);
            && a.targets[i].status.Climbs(b.targets[i].status)
            && (a.targets[i].status.Rank() == 3 ==> a.targets[i].status == b.targets[i].status)
            && InSync(b)
            && (m < n < |h| && h[m] == Submit(i) ==> h[n] != Submit(i))
            && (start.targets[i].status != s ==>
                  (b.targets[i].status == s <==> exists k | 0 <= k < n :: ActsOn(h, k, i, s)))
            && Requests(h, |h|) == if |runs| > 0 then Requests(runs[0], |runs[0]|) else []
  {
    hide Legal, Replay, Requests, InSync, History, Life, ActsOn;
    var h := History(runs, 0);
    LifeIsLegal(start, runs, 0, true);
    StatusesClimb(start, h, m, n, i);
    InSyncAlways(start, h, n);
    if start.targets[i].status != s {
      FinalExact(start, h, n, i, s);
    }
    if m < n < |h| && h[m] == Submit(i) {
      NotAgain(start, h, m, n, i);
    }
  }

  // ----- failed without an answer -----

  /** One target, still to be submitted. */
  function OneTarget(): Receipt {
    Receipt([Target("mayor", Pending, "", "")], InFlight)
  }

  function Patch(status: Status): Target {
    Target("mayor", status, if status.Submitting? then "" else "request", if status.Submitting? then "" else "7")
  }

  /** Accepted by the API; then there was no address to ask for the result. */
  function Unaddressed(): seq<Effect> {
    [Begin, Save(0, Patch(Submitting)), Submit(0), Save(0, Patch(AwaitingResult)), Fault(0), Save(0, Patch(Failed))]
  }

  predicate Answered(log: seq<Effect>, i: nat) {
    exists e <- log :: e.Answer? && e.index == i
  }

  lemma {:induction false} UnaddressedReplays()
    ensures var start, log := OneTarget(), Unaddressed();
            && Replay(start, log, 1) == start
            && Replay(start, log, 2).targets == [Patch(Submitting)]
            && Replay(start, log, 3).targets == [Patch(Submitting)]
            && Replay(start, log, 4).targets == [Patch(AwaitingResult)]
            && Replay(start, log, 5).targets == [Patch(AwaitingResult)]
            && Replay(start, log, 6).targets == [Patch(Failed)]
  {
    var start, log := OneTarget(), Unaddressed();
    assert Replay(start, log, 1) == Applied(start, log[0]);
    assert Replay(start, log, 2) == Applied(Replay(start, log, 1), log[1]);
    assert Replay(start, log, 3) == Applied(Replay(start, log, 2), log[2]);
    assert Replay(start, log, 4) == Applied(Replay(start, log, 3), log[3]);
    assert Replay(start, log, 5) == Applied(Replay(start, log, 4), log[4]);
    assert Replay(start, log, 6) == Applied(Replay(start, log, 5), log[5]);
  }

  /** An accepted request is not kept until its answer, and failed does not mean answered so: an API error
      while waiting ends both. */
  lemma {:induction false} FailedUnanswered()
    ensures var start, log := OneTarget(), Unaddressed();
            && Legal(start, log) && !Answered(log, 0)
            && Promised(Replay(start, log, 4).targets[0])
            && Replay(start, log, 6).targets[0].status == Failed
  {
    hide Replay, Applied;
    UnaddressedReplays();
    var start, log := OneTarget(), Unaddressed();
    assert StepLegal(start, log, 0);
    assert StepLegal(start, log, 1) by {
      assert Replay(start, log, 1) == start;
    }
    assert StepLegal(start, log, 2);
    assert StepLegal(start, log, 3);
    assert StepLegal(start, log, 4);
    assert StepLegal(start, log, 5);
  }
}
