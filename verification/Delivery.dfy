/** Ingress delivery: one receipt, its targets' persisted statuses, and the run that submits them.

    Every effect of a run is logged in the order it happens: a save, an attempt to submit, an answer, an
    API error that is no answer. A crash or an exception in between leaves a prefix of the log, and the
    next run begins anew on what was saved. */
module Delivery {
  import opened Wrappers

  /** A target's status; any other text is carried along as it is. */
  datatype Status = Pending | Submitting | AwaitingResult | Delivered | Failed | DeliveryUnknown | Other(text: string)
  {
    predicate InProgress() {
      Pending? || Submitting? || AwaitingResult?
    }

    /** Submitted, or about to be, and without a final status. */
    predicate UnderWay() {
      Submitting? || AwaitingResult?
    }

    function Rank(): nat {
      if Pending? || Other? then 0 else if Submitting? then 1 else if AwaitingResult? then 2 else 3
    }

    /** From this status the persisted status may become s. */
    predicate Climbs(s: Status) {
      this == s || Rank() < s.Rank()
    }
  }

  datatype Target = Target(session: string, status: Status, requestId: string, eventCursor: string)

  datatype Overall = InFlight | Unknown | AllDelivered | PartialFailed | AllFailed | Unrelated(text: string)

  datatype Receipt = Receipt(targets: seq<Target>, status: Overall)

  // ----- the receipt's own status -----

  function FailureCount(targets: seq<Target>): (n: nat)
    ensures n <= |targets|
  {
    if targets == [] then 0
    else FailureCount(targets[..|targets| - 1]) + (if targets[|targets| - 1].status.Failed? then 1 else 0)
  }

  function OverallStatus(targets: seq<Target>, fallback: Overall): Overall {
    if targets == [] then fallback
    else if exists t <- targets :: t.status.InProgress() then InFlight
    else if exists t <- targets :: t.status.DeliveryUnknown? then Unknown
    else if FailureCount(targets) == 0 then AllDelivered
    else if FailureCount(targets) < |targets| then PartialFailed
    else AllFailed
  }

  function Patched(r: Receipt, i: nat, t: Target): Receipt
    requires i < |r.targets|
  {
    var targets := r.targets[i := t];
    Receipt(targets, OverallStatus(targets, r.status))
  }

  /** What recovery does to a receipt nobody can finish any more. */
  function Expired(r: Receipt): (e: Receipt)
    ensures |e.targets| == |r.targets| && e.status == Unknown
    ensures forall k | 0 <= k < |r.targets| ::
              var t := r.targets[k];
              e.targets[k] == if t.status.Delivered? || t.status.Failed? then t
                              else Target(t.session, DeliveryUnknown, t.requestId, t.eventCursor)
  {
    Receipt(seq(|r.targets|, k requires 0 <= k < |r.targets| => ExpiredTarget(r.targets[k])), Unknown)
  }

  function ExpiredTarget(t: Target): Target {
    if t.status.Delivered? || t.status.Failed? then t else t.(status := DeliveryUnknown)
  }

  // ----- the log -----

  /** Begin starts a run. Answer is what the API said of a request; Fault is a call that ended in an API
      error without an answer: no address to send to, or a reply that cannot be read. */
  datatype Effect =
    | Begin
    | Save(index: nat, target: Target)
    | Expire
    | Submit(index: nat)
    | Answer(index: nat, delivered: bool)
    | Fault(index: nat)

  /** The receipt on disk after the first n effects. */
  function Replay(start: Receipt, log: seq<Effect>, n: nat): (r: Receipt)
    requires n <= |log|
    ensures |r.targets| == |start.targets|
  {
    if n == 0 then start else Applied(Replay(start, log, n - 1), log[n - 1])
  }

  function Applied(r: Receipt, e: Effect): (after: Receipt)
    ensures |after.targets| == |r.targets|
  {
    if e.Save? && e.index < |r.targets| then Patched(r, e.index, e.target)
    else if e.Expire? then Expired(r)
    else r
  }

  /** The final status that an answer or a fault calls for. */
  function VerdictOf(e: Effect): Status {
    if e.Answer? && e.delivered then Delivered else Failed
  }

  /** The final status that e calls for on target i. */
  function Verdict(e: Effect, i: nat): Option<Status> {
    if (e.Answer? || e.Fault?) && e.index == i then Some(VerdictOf(e)) else None
  }

  /** A verdict is acted on at once, unless the run ends there. */
  predicate Follows(e: Effect, next: Effect) {
    || next.Begin?
    || (!e.Answer? && !e.Fault?)
    || (next.Save? && next.index == e.index && next.target.status == VerdictOf(e))
  }

  ghost predicate SaveLegal(r: Receipt, i: nat, t: Target, told: Option<Status>) {
    && i < |r.targets|
    && r.targets[i].session == t.session
    && r.targets[i].status.Climbs(t.status)
    && ((t.status.Delivered? || t.status.Failed?) && t.status != r.targets[i].status ==> told == Some(t.status))
    && (t.status.AwaitingResult? && !r.targets[i].status.AwaitingResult? ==> t.requestId != "")
    && (r.targets[i].status.AwaitingResult? ==> KeepsPromise(r.targets[i], t))
  }

  /** An accepted request keeps its correlation and is given up on only when that is incomplete. */
  predicate KeepsPromise(was: Target, t: Target) {
    && t.requestId == was.requestId && t.eventCursor == was.eventCursor
    && (t.status.DeliveryUnknown? ==> was.requestId == "" || was.eventCursor == "")
  }

  /** Effect n of the log is one the protocol allows. */
  ghost predicate StepLegal(start: Receipt, log: seq<Effect>, n: nat)
    requires n < |log|
  {
    var e, r := log[n], Replay(start, log, n);
    && (n > 0 ==> Follows(log[n - 1], e))
    && if e.Save? then SaveLegal(r, e.index, e.target, if n > 0 then Verdict(log[n - 1], e.index) else None)
       else if e.Expire? then r.status == InFlight
       else if e.Submit? then n > 0 && Opens(Replay(start, log, n - 1), log[n - 1], e.index)
       else if e.Answer? || e.Fault? then e.index < |r.targets| && r.targets[e.index].status.UnderWay()
       else true
  }

  /** The save e turned target i from pending to submitting. */
  ghost predicate Opens(before: Receipt, e: Effect, i: nat) {
    && e.Save? && e.index == i < |before.targets|
    && before.targets[i].status.Pending? && e.target.status.Submitting?
  }

  ghost predicate Legal(start: Receipt, log: seq<Effect>) {
    forall n | 0 <= n < |log| :: StepLegal(start, log, n)
  }

  /** The targets submitted by the first n effects, in order. */
  function Requests(log: seq<Effect>, n: nat): (requests: seq<nat>)
    requires n <= |log|
  {
    if n == 0 then [] else Requests(log, n - 1) + (if log[n - 1].Submit? then [log[n - 1].index] else [])
  }

  lemma {:induction false} ReplayPrefix(start: Receipt, log: seq<Effect>, more: seq<Effect>, n: nat)
    requires n <= |log|
    ensures Replay(start, log + more, n) == Replay(start, log, n)
    ensures Requests(log + more, n) == Requests(log, n)
  {
    hide Applied;
    if n > 0 {
      ReplayPrefix(start, log, more, n - 1);
    }
  }

  lemma {:induction false} StepPrefix(start: Receipt, log: seq<Effect>, more: seq<Effect>, n: nat)
    requires n < |log|
    ensures StepLegal(start, log + more, n) <==> StepLegal(start, log, n)
  {
    hide Replay, Applied;
    ReplayPrefix(start, log, more, n);
    if n > 0 {
      ReplayPrefix(start, log, more, n - 1);
    }
  }

  /** One more legal effect. */
  lemma {:induction false} LegalExtends(start: Receipt, log: seq<Effect>, e: Effect)
    requires Legal(start, log) && StepLegal(start, log + [e], |log|)
    ensures Legal(start, log + [e])
    ensures Replay(start, log + [e], |log|) == Replay(start, log, |log|)
    ensures Requests(log + [e], |log|) == Requests(log, |log|)
  {
    hide StepLegal;
    ReplayPrefix(start, log, [e], |log|);
    forall n | 0 <= n < |log + [e]| ensures StepLegal(start, log + [e], n) {
      if n < |log| {
        StepPrefix(start, log, [e], n);
      }
    }
  }

  // ----- one run over a receipt -----

  /** How an API call ends. ApiError is any API error but the four others: a refusal, no address to send
      to, or an unreadable reply. Aborted stands for every other exception and for a crash. */
  datatype Outcome = Responded | Cancelled | ResultUnknown | RequestFailed | ApiError | Aborted

  /** What comes back from a submission: nothing, an error status, a body that cannot be read, a final
      response, or a promise of a result. */
  datatype Reply = NoReply | HttpError | Unreadable | Immediate | Async(requestId: string, eventCursor: string)

  /** What comes of waiting for a promised result. */
  datatype Wait = NoAddress | Succeeded | Refused | Stopped | Lost | Broken

  /** What the world does while one target is handled: the pass is stopped before it; the call is cancelled
      before anything leaves; there is an address to send to; the reply; what comes of waiting. */
  datatype Call = Call(stopped: bool, cancelled: bool, addressed: bool, reply: Reply, wait: Wait)
  {
    predicate Accepted() {
      !cancelled && addressed && reply.Async? && reply.requestId != "" && reply.eventCursor != ""
    }

    /** The API said that the message was delivered. */
    predicate Delivers() {
      (!cancelled && addressed && reply.Immediate?) || (Accepted() && wait.Succeeded?)
    }

    /** It said that it was not, or the call ended in an API error that is no answer. */
    predicate Fails() {
      || (!cancelled && !addressed)
      || (!cancelled && (reply.HttpError? || reply.Unreadable?))
      || (Accepted() && (wait.Refused? || wait.NoAddress?))
    }

    predicate Interrupts() {
      cancelled || (Accepted() && wait.Stopped?)
    }
  }

  datatype Ending = Completed | Interrupted | Crashed

  predicate HasEnvelope(t: Target, envelopes: map<string, string>) {
    t.session != "" && t.session in envelopes && envelopes[t.session] != ""
  }

  predicate Correlated(t: Target) {
    t.requestId != "" && t.eventCursor != ""
  }

  class DeliveryRun {
    ghost const start: Receipt
    /** Whether the k-th save of this run succeeds, and how many were tried. */
    const saves: nat -> bool
    var saveCount: nat
    var current: Receipt
    ghost var log: seq<Effect>
    ghost var requests: seq<nat>
    ghost var asked: set<nat>
    ghost var faulted: set<nat>

    constructor (receipt: Receipt, saves: nat -> bool)
      ensures Valid() && Calm() && start == current == receipt && this.saves == saves && saveCount == 0
      ensures log == [Begin] && requests == [] && asked == {} && faulted == {}
    {
      this.saves, saveCount := saves, 0;
      start, current, log, requests, asked, faulted := receipt, receipt, [Begin], [], {}, {};
    }

    ghost predicate Valid()
      reads this
    {
      Legal(start, log) && current == Replay(start, log, |log|) && requests == Requests(log, |log|)
    }

    /** The final status the last effect calls for on target i. */
    ghost function Told(i: nat): Option<Status>
      reads this
    {
      if log == [] then None else Verdict(log[|log| - 1], i)
    }

    /** No verdict waits to be acted on. */
    ghost predicate Calm()
      reads this
    {
      log == [] || (!log[|log| - 1].Answer? && !log[|log| - 1].Fault?)
    }

    predicate UnderWay(i: nat)
      reads this
    {
      i < |current.targets| && current.targets[i].status.UnderWay()
    }

    /** One more effect that leaves the receipt and the submissions alone. */
    ghost method Note(e: Effect)
      requires Valid() && StepLegal(start, log + [e], |log|) && !e.Save? && !e.Expire? && !e.Submit?
      modifies `log
      ensures Valid() && log == old(log) + [e]
    {
      LegalExtends(start, log, e);
      log := log + [e];
    }

    /** Saves one target's patch with the receipt's status recomputed; false when the save raised. */
    method PersistTargetPatch(i: nat, t: Target) returns (saved: bool)
      requires Valid()
      requires i < |current.targets| ==> SaveLegal(current, i, t, Told(i))
      requires log == [] || Follows(log[|log| - 1], Save(i, t))
      modifies `current, `saveCount, `log
      ensures Valid()
      ensures saved ==>
                |old(current).targets| > i && current == Patched(old(current), i, t) && log == old(log) + [Save(i, t)]
      ensures !saved ==> current == old(current) && log == old(log)
      ensures saveCount >= old(saveCount)
      ensures i < |old(current).targets| ==> saveCount == old(saveCount) + 1 && saved == saves(old(saveCount))
    {
      if i >= |current.targets| {
        return false;
      }
      saved := saves(saveCount);
      saveCount := saveCount + 1;
      if saved {
        ReplayPrefix(start, log, [Save(i, t)], |log|);
        LegalExtends(start, log, Save(i, t));
        log := log + [Save(i, t)];
        current := Patched(current, i, t);
      }
    }

    /** The request is sent off for target i, whether or not it arrives. */
    method Post(i: nat)
      requires Valid() && |log| > 0 && Opens(Replay(start, log, |log| - 1), log[|log| - 1], i)
      modifies `log, `requests
      ensures Valid() && log == old(log) + [Submit(i)] && requests == old(requests) + [i]
    {
      ReplayPrefix(start, log, [Submit(i)], |log| - 1);
      LegalExtends(start, log, Submit(i));
      log, requests := log + [Submit(i)], requests + [i];
    }

    /** The API answered target i's request. */
    method Hear(i: nat, delivered: bool)
      requires Valid() && Calm() && UnderWay(i)
      modifies `log
      ensures Valid() && Told(i) == Some(if delivered then Delivered else Failed)
      ensures log == old(log) + [Answer(i, delivered)]
    {
      ReplayPrefix(start, log, [Answer(i, delivered)], |log|);
      Note(Answer(i, delivered));
    }

    /** A call about target i ended in an API error that is no answer. */
    method Fail(i: nat)
      requires Valid() && Calm() && UnderWay(i)
      modifies `log, `faulted
      ensures Valid() && Told(i) == Some(Failed) && faulted == old(faulted) + {i}
      ensures log == old(log) + [Fault(i)]
    {
      ReplayPrefix(start, log, [Fault(i)], |log|);
      Note(Fault(i));
      faulted := faulted + {i};
    }

    /** One of the saves tried since the first `from` has raised. */
    ghost predicate SaveRaised(from: nat)
      reads this
    {
      exists k | from <= k < saveCount :: !saves(k)
    }

    /** Only target i may differ from the targets before. */
    twostate predicate OnlyTarget(i: nat)
      reads this
    {
      && |current.targets| == |old(current).targets|
      && (forall k | 0 <= k < |current.targets| && k != i :: current.targets[k] == old(current).targets[k])
    }

    /** Of target i only the status may differ. */
    twostate predicate OnlyStatus(i: nat)
      requires i < |old(current).targets|
      reads this
    {
      && i < |current.targets|
      && current.targets[i] == old(current).targets[i].(status := current.targets[i].status)
    }

    predicate At(i: nat, s: Status)
      reads this
    {
      i < |current.targets| && current.targets[i].status == s
    }

    /** What a caller finds after a call about target i that did not abort. */
    ghost predicate Answered(i: nat, outcome: Outcome)
      reads this
    {
      && (!outcome.Aborted? && At(i, AwaitingResult) ==> current.targets[i].requestId != "")
      && match outcome
         case Responded => (At(i, Delivered) && Calm()) || (UnderWay(i) && Told(i) == Some(Delivered))
         case RequestFailed => (At(i, Failed) && Calm()) || (UnderWay(i) && Told(i) == Some(Failed))
         case ApiError => UnderWay(i) && Told(i) == Some(Failed)
         case Cancelled => UnderWay(i) && Calm()
         case ResultUnknown => UnderWay(i) && Calm()
         case Aborted => true
    }

    method RecordAcceptance(i: nat, requestId: string, eventCursor: string) returns (saved: bool)
      requires Valid() && Calm() && At(i, Submitting) && requestId != "" && eventCursor != ""
      modifies `current, `saveCount, `log
      ensures Valid() && OnlyTarget(i)
      ensures saved ==>
                && Calm() && At(i, AwaitingResult)
                && current.targets[i].requestId == requestId && current.targets[i].eventCursor == eventCursor
      ensures saveCount >= old(saveCount) && (!saved ==> SaveRaised(old(saveCount)))
    {
      var t := current.targets[i].(status := AwaitingResult, requestId := requestId, eventCursor := eventCursor);
      saved := PersistTargetPatch(i, t);
    }

    method RecordTerminal(i: nat, delivered: bool) returns (saved: bool)
      requires Valid() && UnderWay(i) && Told(i) == Some(if delivered then Delivered else Failed)
      modifies `current, `saveCount, `log
      ensures Valid() && OnlyTarget(i)
      ensures saved ==> Calm() && At(i, if delivered then Delivered else Failed) && OnlyStatus(i)
      ensures saveCount >= old(saveCount) && (!saved ==> SaveRaised(old(saveCount)))
    {
      saved := PersistTargetPatch(i, current.targets[i].(status := if delivered then Delivered else Failed));
    }

    /** Waits for the result of an accepted request, whose correlation is already saved. Nothing is asked
        when there is no address to ask. */
    method WaitForResult(i: nat, wait: Wait) returns (outcome: Outcome)
      requires Valid() && Calm() && At(i, AwaitingResult) && Correlated(current.targets[i])
      modifies `log, `asked, `faulted
      ensures Valid() && Answered(i, outcome)
      ensures asked == old(asked) + (if wait.NoAddress? then {} else {i})
      ensures faulted == old(faulted) + (if wait.NoAddress? then {i} else {})
      ensures outcome == match wait
                         case NoAddress => ApiError
                         case Succeeded => Responded
                         case Refused => RequestFailed
                         case Stopped => Cancelled
                         case Lost => ResultUnknown
                         case Broken => Aborted
      ensures log == old(log) + match wait
                                case NoAddress => [Fault(i)]
                                case Succeeded => [Answer(i, true)]
                                case Refused => [Answer(i, false)]
                                case _ => []
    {
      if wait.NoAddress? {
        Fail(i);
        return ApiError;
      }
      asked := asked + {i};
      match wait {
        case Succeeded =>
          Hear(i, true);
          return Responded;
        case Refused =>
          Hear(i, false);
          return RequestFailed;
        case Stopped =>
          return Cancelled;
        case Lost =>
          return ResultUnknown;
        case _ =>
          return Aborted;
      }
    }

    /** Waits, and saves a terminal answer at once. */
    method WaitAndRecord(i: nat, wait: Wait) returns (outcome: Outcome)
      requires Valid() && Calm() && At(i, AwaitingResult) && Correlated(current.targets[i])
      modifies `current, `saveCount, `log, `asked, `faulted
      ensures Valid() && OnlyTarget(i) && Answered(i, outcome)
      ensures old(asked) <= asked && old(faulted) <= faulted
      ensures !outcome.Aborted? ==>
                && (outcome.Responded? <==> wait.Succeeded?)
                && (outcome.RequestFailed? || outcome.ApiError? <==> wait.Refused? || wait.NoAddress?)
                && (outcome.Cancelled? <==> wait.Stopped?)
                && !wait.Broken?
      ensures outcome.Cancelled? || outcome.ResultUnknown? ==> current == old(current)
      ensures !outcome.Aborted? ==> OnlyStatus(i)
      ensures saveCount >= old(saveCount)
      ensures outcome.Aborted? ==> wait.Broken? || SaveRaised(old(saveCount))
    {
      hide Replay, Requests, Legal, OverallStatus;
      outcome := WaitForResult(i, wait);
      if outcome.RequestFailed? || outcome.Responded? {
        var saved := RecordTerminal(i, outcome.Responded?);
        if !saved {
          return Aborted;
        }
      }
    }

    /** Target i has the correlation of the accepted request, or keeps the one it had. */
    ghost predicate Correlates(i: nat, was: Target, call: Call)
      reads this
    {
      && i < |current.targets|
      && var t := current.targets[i];
         if call.Accepted() then t.requestId == call.reply.requestId && t.eventCursor == call.reply.eventCursor
         else t.requestId == was.requestId && t.eventCursor == was.eventCursor
    }

    /** How a call of this kind ends, unless a save raises. */
    ghost predicate EndsAs(call: Call, outcome: Outcome) {
      && (outcome.Responded? <==> call.Delivers())
      && (outcome.RequestFailed? || outcome.ApiError? <==> call.Fails())
      && (outcome.Cancelled? <==> call.Interrupts())
      && (outcome.Aborted? <==> call.Accepted() && call.wait.Broken?)
    }

    /** Submits target i's message and, when it is accepted for later, waits for the result. */
    method DeliverSessionMessage(i: nat, call: Call) returns (outcome: Outcome)
      requires Valid() && At(i, Submitting)
      requires |log| > 0 && Opens(Replay(start, log, |log| - 1), log[|log| - 1], i)
      modifies `current, `saveCount, `log, `requests, `asked, `faulted
      ensures Valid() && OnlyTarget(i) && Answered(i, outcome)
      ensures requests == old(requests) + (if call.cancelled || !call.addressed then [] else [i])
      ensures !call.cancelled && !call.addressed ==> i in faulted
      ensures old(asked) <= asked && old(faulted) <= faulted
      ensures if outcome.Aborted? then (call.Accepted() && call.wait.Broken?) || SaveRaised(old(saveCount))
              else EndsAs(call, outcome)
      ensures saveCount >= old(saveCount)
      ensures !outcome.Aborted? ==> Correlates(i, old(current).targets[i], call)
    {
      hide Replay, Requests, Legal, OverallStatus;
      if call.cancelled {
        return Cancelled;
      }
      if !call.addressed {
        Fail(i);
        return ApiError;
      }
      Post(i);
      match call.reply {
        case NoReply =>
          return ResultUnknown;
        case HttpError =>
          Hear(i, false);
          return ApiError;
        case Unreadable =>
          Fail(i);
          return ApiError;
        case Immediate =>
          Hear(i, true);
          return Responded;
        case Async(requestId, eventCursor) =>
          if requestId == "" || eventCursor == "" {
            return ResultUnknown;
          }
          var saved := RecordAcceptance(i, requestId, eventCursor);
          if !saved {
            return Aborted;
          }
      }
      outcome := WaitAndRecord(i, call.wait);
    }

    /** Saves what a call about target i ended with; false when the save raised. */
    method RecordOutcome(i: nat, outcome: Outcome) returns (saved: bool)
      requires Valid() && Answered(i, outcome) && !outcome.Aborted?
      modifies `current, `saveCount, `log
      ensures Valid() && OnlyTarget(i)
      ensures saved ==>
                && Calm() && |current.targets| == |old(current).targets| > i && OnlyStatus(i)
                && (outcome.Responded? ==> At(i, Delivered))
                && (outcome.RequestFailed? || outcome.ApiError? ==> At(i, Failed))
                && (outcome.Cancelled? || outcome.ResultUnknown? ==>
                    At(i, if old(current).targets[i].requestId != "" then AwaitingResult else DeliveryUnknown))
      ensures saveCount >= old(saveCount) && (!saved ==> SaveRaised(old(saveCount)))
    {
      var t := current.targets[i];
      if outcome.Cancelled? || outcome.ResultUnknown? {
        saved := PersistTargetPatch(i, t.(status := if t.requestId != "" then AwaitingResult else DeliveryUnknown));
      } else if outcome.RequestFailed? || outcome.ApiError? {
        saved := PersistTargetPatch(i, t.(status := Failed));
      } else if !t.status.Delivered? {
        saved := PersistTargetPatch(i, t.(status := Delivered));
      } else {
        saved := true;
      }
    }

    /** Gives up on target i, whose message or correlation is gone. */
    method LoseTrack(i: nat) returns (ending: Ending)
      requires Valid() && Calm() && i < |current.targets| && current.targets[i].status.InProgress()
      requires var t := current.targets[i];
               t.status.AwaitingResult? ==> !Correlated(t)
      modifies `current, `saveCount, `log
      ensures Valid() && OnlyTarget(i)
      ensures !ending.Crashed? ==> ending.Completed? && Calm() && At(i, DeliveryUnknown) && OnlyStatus(i)
      ensures saveCount >= old(saveCount) && (ending.Crashed? ==> SaveRaised(old(saveCount)))
    {
      var saved := PersistTargetPatch(i, current.targets[i].(status := DeliveryUnknown));
      return if saved then Completed else Crashed;
    }

    /** Saves that target i is about to be submitted. */
    method Announce(i: nat) returns (saved: bool)
      requires Valid() && Calm() && At(i, Pending)
      modifies `current, `saveCount, `log
      ensures Valid() && OnlyTarget(i)
      ensures saved ==> current.targets[i] == old(current).targets[i].(status := Submitting)
      ensures saveCount >= old(saveCount) && (!saved ==> SaveRaised(old(saveCount)))
      ensures saved ==> At(i, Submitting) && |log| > 0 && Opens(Replay(start, log, |log| - 1), log[|log| - 1], i)
    {
      ghost var before := log;
      var t := current.targets[i].(status := Submitting);
      saved := PersistTargetPatch(i, t);
      if saved {
        ReplayPrefix(start, before, [Save(i, t)], |before|);
      }
    }

    /** Target i is saved as the call about it ended: delivered, failed, still awaited, or unknown. */
    ghost predicate SavedAs(i: nat, delivers: bool, fails: bool, awaited: bool)
      reads this
    {
      At(i, if delivers then Delivered
            else if fails then Failed
            else if awaited then AwaitingResult
            else DeliveryUnknown)
    }

    /** The same for a target that was submitted; a request it had before may still be awaited. */
    ghost predicate SubmittedAs(i: nat, was: Target, call: Call)
      reads this
    {
      && SavedAs(i, call.Delivers(), call.Fails(), call.Accepted() || was.requestId != "")
      && Correlates(i, was, call)
    }

    /** And for one whose result was asked for again. */
    ghost predicate ResumedAs(i: nat, was: Target, wait: Wait)
      reads this
    {
      && SavedAs(i, wait.Succeeded?, wait.Refused? || wait.NoAddress?, true)
      && current.targets[i] == was.(status := current.targets[i].status)
    }

    /** What a completed pass owes the target that stood at place i when it began. */
    ghost predicate Handled(i: nat, was: Target, envelopes: map<string, string>, call: Call)
      reads this
    {
      && i < |current.targets|
      && if was.status.Pending? then
           if was.session != "" && was.session in envelopes && envelopes[was.session] != "" then
             && SubmittedAs(i, was, call)
             && (call.cancelled || if call.addressed then i in requests else i in faulted)
           else At(i, DeliveryUnknown)
         else if was.status.Submitting? then At(i, DeliveryUnknown)
         else if was.status.AwaitingResult? then
           if was.requestId != "" && was.eventCursor != "" then
             ResumedAs(i, was, call.wait) && if call.wait.NoAddress? then i in faulted else i in asked
           else At(i, DeliveryUnknown)
         else current.targets[i] == was
    }

    /** Handling the target was interrupted, and ends the pass. */
    predicate StopsPass(was: Target, envelopes: map<string, string>, call: Call) {
      if was.status.Pending? then
        was.session != "" && was.session in envelopes && envelopes[was.session] != "" && call.Interrupts()
      else was.status.AwaitingResult? && was.requestId != "" && was.eventCursor != "" && call.wait.Stopped?
    }

    /** The pass goes on behind target i. */
    ghost predicate Passed(i: nat, was: Target, envelopes: map<string, string>, call: Call)
      reads this
    {
      !call.stopped && Handled(i, was, envelopes, call) && !StopsPass(was, envelopes, call)
    }

    /** The pass ends at target j: stopped before it, or interrupted in handling it. */
    ghost predicate EndsAt(j: nat, targets: seq<Target>, envelopes: map<string, string>, calls: nat -> Call)
      reads this
    {
      && j < |targets| == |current.targets|
      && (forall k | 0 <= k < j :: Passed(k, targets[k], envelopes, calls(k)))
      && (forall k | j < k < |targets| :: current.targets[k] == targets[k])
      && if calls(j).stopped then current.targets[j] == targets[j]
         else Handled(j, targets[j], envelopes, calls(j)) && StopsPass(targets[j], envelopes, calls(j))
    }

    /** A pending target: announced as submitting before anything leaves, then submitted. */
    method SubmitPending(i: nat, call: Call) returns (ending: Ending)
      requires Valid() && Calm() && At(i, Pending)
      modifies `current, `saveCount, `log, `requests, `asked, `faulted
      ensures Valid() && OnlyTarget(i) && old(asked) <= asked && old(faulted) <= faulted
      ensures requests == old(requests) || requests == old(requests) + [i]
      ensures !ending.Crashed? ==>
                && Calm() && SubmittedAs(i, old(current).targets[i], call)
                && requests == old(requests) + (if call.cancelled || !call.addressed then [] else [i])
                && (!call.cancelled && !call.addressed ==> i in faulted)
                && (ending.Interrupted? <==> call.Interrupts())
      ensures saveCount >= old(saveCount)
      ensures ending.Crashed? ==> (call.Accepted() && call.wait.Broken?) || SaveRaised(old(saveCount))
    {
      hide Replay, Requests, Legal, OverallStatus;
      var saved := Announce(i);
      if !saved {
        return Crashed;
      }
      var outcome := DeliverSessionMessage(i, call);
      if outcome.Aborted? {
        return Crashed;
      }
      saved := RecordOutcome(i, outcome);
      return if !saved then Crashed else if outcome.Cancelled? then Interrupted else Completed;
    }

    /** An accepted target: asked for its result again, never submitted again. */
    method ResumeAwaiting(i: nat, wait: Wait) returns (ending: Ending)
      requires Valid() && Calm() && At(i, AwaitingResult)
      modifies `current, `saveCount, `log, `asked, `faulted
      ensures Valid() && OnlyTarget(i) && old(asked) <= asked && old(faulted) <= faulted
      ensures !ending.Crashed? ==>
                Calm()
                && var was := old(current).targets[i];
                   if was.requestId != "" && was.eventCursor != "" then
                     && ResumedAs(i, was, wait)
                     && (if wait.NoAddress? then i in faulted else i in asked)
                     && (ending.Interrupted? <==> wait.Stopped?)
                   else At(i, DeliveryUnknown) && ending.Completed?
      ensures saveCount >= old(saveCount)
      ensures ending.Crashed? ==> wait.Broken? || SaveRaised(old(saveCount))
    {
      var t := current.targets[i];
      if !Correlated(t) {
        ending := LoseTrack(i);
        return;
      }
      var outcome := WaitForResult(i, wait);
      if outcome.Aborted? {
        return Crashed;
      }
      var saved := RecordOutcome(i, outcome);
      return if !saved then Crashed else if outcome.Cancelled? then Interrupted else Completed;
    }

    method ResumeTarget(i: nat, envelopes: map<string, string>, call: Call) returns (ending: Ending)
      requires Valid() && Calm() && i < |current.targets|
      modifies `current, `saveCount, `log, `requests, `asked, `faulted
      ensures Valid() && OnlyTarget(i) && old(asked) <= asked && old(faulted) <= faulted
      ensures requests == old(requests) || (requests == old(requests) + [i] && envelopes != map[])
      ensures !ending.Crashed? ==>
                && Calm() && Handled(i, old(current).targets[i], envelopes, call)
                && (ending.Interrupted? <==> StopsPass(old(current).targets[i], envelopes, call))
      ensures saveCount >= old(saveCount)
      ensures ending.Crashed? ==> call.wait.Broken? || SaveRaised(old(saveCount))
    {
      var t := current.targets[i];
      if t.status.Submitting? {
        ending := LoseTrack(i);
      } else if t.status.Pending? {
        if !HasEnvelope(t, envelopes) {
          ending := LoseTrack(i);
        } else {
          ending := SubmitPending(i, call);
        }
      } else if t.status.AwaitingResult? {
        ending := ResumeAwaiting(i, call.wait);
      } else {
        ending := Completed;
      }
    }

    /** The next target of a pass that has handled those before it. */
    method ResumeNext(i: nat, targets: seq<Target>, envelopes: map<string, string>, calls: nat -> Call)
      returns (ending: Ending)
      requires Valid() && Calm() && i < |targets| == |current.targets|
      requires forall k | 0 <= k < i :: Passed(k, targets[k], envelopes, calls(k))
      requires forall k | i <= k < |targets| :: current.targets[k] == targets[k]
      modifies `current, `saveCount, `log, `requests, `asked, `faulted
      ensures Valid() && |current.targets| == |targets|
      ensures requests == old(requests) || envelopes != map[]
      ensures saveCount >= old(saveCount)
      ensures ending.Crashed? ==> calls(i).wait.Broken? || SaveRaised(old(saveCount))
      ensures ending.Completed? ==>
                && Calm() && (forall k | 0 <= k <= i :: Passed(k, targets[k], envelopes, calls(k)))
                && forall k | i < k < |targets| :: current.targets[k] == targets[k]
      ensures ending.Interrupted? ==> EndsAt(i, targets, envelopes, calls)
    {
      hide Legal, Replay, Requests, StopsPass;
      if calls(i).stopped {
        return Interrupted;
      }
      ending := ResumeTarget(i, envelopes, calls(i));
    }

    /** One pass over the targets, each read as it stood when the pass began. A pass that completes has
        handled every one of them; an interrupted one those before the place it ends at, and none behind it;
        without envelopes nothing is submitted. */
    method Resume(envelopes: map<string, string>, calls: nat -> Call) returns (ending: Ending)
      requires Valid() && Calm()
      modifies `current, `saveCount, `log, `requests, `asked, `faulted
      ensures Valid() && |current.targets| == |old(current).targets|
      ensures ending.Completed? ==>
                forall i | 0 <= i < |current.targets| :: Passed(i, old(current).targets[i], envelopes, calls(i))
      ensures ending.Interrupted? ==> exists j: nat :: EndsAt(j, old(current).targets, envelopes, calls)
      ensures saveCount >= old(saveCount)
      ensures ending.Crashed? ==>
                SaveRaised(old(saveCount)) || exists i | 0 <= i < |current.targets| :: calls(i).wait.Broken?
      ensures envelopes == map[] ==> requests == old(requests)
    {
      hide Legal, Replay, Requests, Passed, EndsAt;
      var targets := current.targets;
      var i := 0;
      while i < |targets|
        invariant i <= |targets| == |current.targets| && Valid() && Calm()
        invariant forall k | 0 <= k < i :: Passed(k, targets[k], envelopes, calls(k))
        invariant forall k | i <= k < |targets| :: current.targets[k] == targets[k]
        invariant envelopes == map[] ==> requests == old(requests)
        invariant saveCount >= old(saveCount)
      {
        ending := ResumeNext(i, targets, envelopes, calls);
        if !ending.Completed? {
          return;
        }
        i := i + 1;
      }
      return Completed;
    }

    /** Saves the receipt as given up; false when the save raised. */
    method SaveExpired() returns (saved: bool)
      requires Valid() && current.status == InFlight && Calm()
      modifies `current, `saveCount, `log
      ensures Valid() && current == if saved then Expired(old(current)) else old(current)
      ensures saveCount == old(saveCount) + 1 && saved == saves(old(saveCount))
    {
      saved := saves(saveCount);
      saveCount := saveCount + 1;
      if saved {
        ReplayPrefix(start, log, [Expire], |log|);
        LegalExtends(start, log, Expire);
        log := log + [Expire];
        current := Expired(current);
      }
    }

    /** Recovery of a receipt found in flight after a restart: nothing is ever submitted. */
    method Recover(currentProtocol: bool, stale: bool, calls: nat -> Call) returns (ending: Ending)
      requires Valid() && Calm()
      modifies `current, `saveCount, `log, `requests, `asked, `faulted
      ensures Valid() && requests == old(requests)
      ensures old(current).status != InFlight ==> current == old(current) && log == old(log)
      ensures old(current).status == InFlight && ending.Completed? ==>
                if currentProtocol && exists t <- old(current).targets :: t.status.InProgress() then
                  |current.targets| == |old(current).targets|
                  && forall i | 0 <= i < |current.targets| :: Passed(i, old(current).targets[i], map[], calls(i))
                else current == if stale then Expired(old(current)) else old(current)
      ensures ending.Interrupted? ==> exists j: nat :: EndsAt(j, old(current).targets, map[], calls)
      ensures saveCount >= old(saveCount)
      ensures ending.Crashed? ==>
                SaveRaised(old(saveCount)) || exists i | 0 <= i < |current.targets| :: calls(i).wait.Broken?
    {
      hide Legal, Replay, Requests;
      if current.status != InFlight {
        return Completed;
      }
      if currentProtocol && exists t <- current.targets :: t.status.InProgress() {
        ending := Resume(map[], calls);
      } else if stale {
        var saved := SaveExpired();
        ending := if saved then Completed else Crashed;
      } else {
        ending := Completed;
      }
    }
  }
}
