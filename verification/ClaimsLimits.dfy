/** The exact limits of the locks and claims of one ingress id: when pruning breaks exclusion, and how long
    a claim stays the newest. */
module ClaimsLimits {
  import opened Claims
  import opened ClaimsProperties
  import opened Finite
  import opened Wrappers

  lemma {:induction false} ThreeSteps(s: State, steps: seq<Step>, n: nat)
    requires n + 3 <= |steps|
    ensures After(s, steps, n + 3) == Next(Next(Next(After(s, steps, n), steps[n]), steps[n + 1]), steps[n + 2])
  {
    hide Next;
    assert After(s, steps, n + 2) == Next(After(s, steps, n + 1), steps[n + 1]);
  }

  // ----- who gets on -----

  /** No thread holds a lock and t has not begun. */
  predicate Alone(s: State, t: Tid) {
    s.At(t).Idle? && s.reclaim.held == map[] && s.process.held == map[]
  }

  /** A message claimed by a thread alone. */
  function ClaimRun(t: Tid): seq<Step> {
    [Claim(t), FindReclaimLock(t), TryReclaim(t), Recheck(t), ResetReceipt(t), EndReclaim(t), FindProcessLock(t),
     TryProcess(t), Tick(0)]
  }

  /** The receipts a redelivered message gets on from: none, a claim as old as the stale time, a failure as old
      as the retry time, a rejection at shutdown. */
  predicate MayClaim(r: Option<Receipt>, now: nat) {
    || r.None?
    || (r.value.status == Processing && now - r.value.updatedAt >= 320)
    || (r.value.status == RetryableFailure && now - r.value.updatedAt >= 60)
    || r.value.status == RejectedShuttingDown
  }

  lemma {:induction false} ClaimLooks(s: State, t: Tid)
    requires Alone(s, t)
    ensures var a := Next(Next(Next(s, Claim(t)), FindReclaimLock(t)), TryReclaim(t));
            && a.process == s.process && a.now == s.now
            && if s.receipt.None? then a.At(t).Claimed?
               else if MayClaim(s.receipt, s.now) then a.At(t).Reclaiming? && a.receipt == s.receipt
               else a.At(t).Idle? && a.receipt == s.receipt
  {
  }

  lemma {:induction false} ClaimResets(s: State, t: Tid)
    requires s.process.held == map[]
    requires s.At(t).Idle? || s.At(t).Claimed? || (s.At(t).Reclaiming? && s.receipt.Some? && MayClaim(s.receipt, s.now))
    ensures var a := Next(Next(Next(s, Recheck(t)), ResetReceipt(t)), EndReclaim(t));
            a.process == s.process && if s.At(t).Idle? then a.At(t).Idle? else a.At(t).Claimed?
  {
  }

  lemma {:induction false} ClaimEnters(s: State, t: Tid)
    requires s.process.held == map[] && (s.At(t).Idle? || s.At(t).Claimed?)
    ensures var a := Next(Next(Next(s, FindProcessLock(t)), TryProcess(t)), Tick(0));
            a.At(t).Delivering? <==> s.At(t).Claimed?
  {
  }

  /** A thread alone gets its message to delivery exactly from those receipts. */
  lemma {:induction false} ClaimExact(s: State, t: Tid)
    requires Alone(s, t)
    ensures After(s, ClaimRun(t), 9).At(t).Delivering? <==>
              || s.receipt.None?
              || (s.receipt.value.status == Processing && s.now - s.receipt.value.updatedAt >= 320)
              || (s.receipt.value.status == RetryableFailure && s.now - s.receipt.value.updatedAt >= 60)
              || s.receipt.value.status == RejectedShuttingDown
  {
    hide Next;
    var steps := ClaimRun(t);
    ThreeSteps(s, steps, 0);
    ClaimLooks(s, t);
    ThreeSteps(s, steps, 3);
    ClaimResets(After(s, steps, 3), t);
    ThreeSteps(s, steps, 6);
    ClaimEnters(After(s, steps, 6), t);
  }

  /** A recovery alone gets on exactly with a receipt in flight, or one delivered that is still to be routed. */
  lemma {:induction false} RecoveryExact(s: State, t: Tid)
    requires Alone(s, t)
    ensures Next(Next(Next(s, List(t)), FindProcessLock(t)), TryProcess(t)).At(t).Delivering? <==>
              s.receipt.Some? && (s.receipt.value.status == InFlight || s.receipt.value.status == Unrouted)
  {
    var a := Next(Next(s, List(t)), FindProcessLock(t));
    assert s.receipt.Some? && Recoverable(s.receipt.value) ==> a.At(t).AtProcess? && a.process.held == map[];
  }

  // ----- pruning and exclusion -----

  predicate NoPruning(steps: seq<Step>) {
    forall k | 0 <= k < |steps| :: !steps[k].PruneReceipt?
  }

  /** Two threads deliver at once at the end of the run, which prunes nothing. */
  ghost predicate Breaks(s: State, steps: seq<Step>, t: Tid, u: Tid) {
    && NoPruning(steps) && t != u
    && After(s, steps, |steps|).At(t).Delivering? && After(s, steps, |steps|).At(u).Delivering?
  }

  function HolderOr(s: State, u: Tid): Tid {
    if s.process.current.Some? && s.process.current.value in s.process.held
    then s.process.held[s.process.current.value]
    else u
  }

  /** t goes on to the lock it knows or finds; whoever holds it leaves; the lock is pruned; u claims anew,
      enters under a new lock and saves what it is to deliver; t enters. */
  function BreakingRun(s: State, t: Tid, u: Tid): seq<Step> {
    [EndReclaim(t), FindProcessLock(t), Leave(HolderOr(s, u)), PruneLocks, Claim(u), FindProcessLock(u),
     TryProcess(u), Save(u, InFlight), TryProcess(t)]
  }

  /** t knows a lock nobody holds, and u has not begun. */
  ghost predicate Stranded(s: State, t: Tid, u: Tid) {
    && s.receipt.None? && t != u && s.At(t).AtProcess? && s.At(u).Idle?
    && s.process.current == Some(s.At(t).lock) && s.process.held == map[] && s.At(t).lock < s.process.unused
  }

  lemma {:induction false} Strands(s: State, t: Tid, u: Tid)
    requires ProcessOk(s) && s.receipt.None? && s.At(t).Entering() && u !in s.threads
    ensures Stranded(Next(Next(Next(s, EndReclaim(t)), FindProcessLock(t)), Leave(HolderOr(s, u))), t, u)
  {
    hide ProcessOk;
    var a := Next(s, EndReclaim(t));
    var b := Next(a, FindProcessLock(t));
    var w := HolderOr(s, u);
    LockStands(s, t, w, u);
  }

  /** The holder of the lock, if any, and the lock that t will know. */
  lemma {:induction false} LockStands(s: State, t: Tid, w: Tid, u: Tid)
    requires ProcessOk(s) && s.At(t).Entering() && u !in s.threads && w == HolderOr(s, u)
    ensures t != u && w != t
    ensures s.At(t).AtProcess? ==> s.process.current == Some(s.At(t).lock)
    ensures s.process.current.Some? ==> s.process.current.value < s.process.unused
    ensures if s.process.held == map[] then w == u
            else s.At(w).Delivering? && s.process.held == map[s.At(w).lock := w]
  {
    assert ProcessOkFor(s, t) && ProcessOkFor(s, w);
  }

  lemma {:induction false} NewLock(s: State, t: Tid, u: Tid)
    requires Stranded(s, t, u)
    ensures var a := Next(Next(Next(s, PruneLocks), Claim(u)), FindProcessLock(u));
            && a.process.held == map[] && a.At(t).AtProcess? && a.At(u).AtProcess? && a.At(t).lock != a.At(u).lock
  {
  }

  lemma {:induction false} BothEnter(s: State, t: Tid, u: Tid)
    requires s.process.held == map[] && t != u
    requires s.At(t).AtProcess? && s.At(u).AtProcess? && s.At(t).lock != s.At(u).lock
    ensures var a := Next(Next(Next(s, TryProcess(u)), Save(u, InFlight)), TryProcess(t));
            && a.At(t).Delivering? && a.At(u).Delivering?
            && a.receipt.Some? && a.receipt.value.status == InFlight
  {
  }

  /** Recovery enters like a claim, and finds the other thread's receipt in flight. */
  lemma {:induction false} EnteringBreaks(s: State, t: Tid, u: Tid)
    requires ProcessOk(s) && s.receipt.None? && s.At(t).Entering() && u !in s.threads
    ensures var steps := BreakingRun(s, t, u);
            && Breaks(s, steps, t, u)
            && After(s, steps, |steps|).receipt.Some? && After(s, steps, |steps|).receipt.value.status == InFlight
  {
    hide Next, ProcessOk, Stranded, HolderOr;
    LockStands(s, t, HolderOr(s, u), u);
    var steps := BreakingRun(s, t, u);
    ThreeSteps(s, steps, 0);
    Strands(s, t, u);
    ThreeSteps(s, steps, 3);
    NewLock(After(s, steps, 3), t, u);
    ThreeSteps(s, steps, 6);
    BothEnter(After(s, steps, 6), t, u);
  }

  lemma {:induction false} UnusedThread(threads: set<Tid>) returns (u: Tid)
    ensures u !in threads
  {
    var all := Below(|threads| + 1);
    if all <= threads {
      SubsetSize(all, threads);
    }
    u :| u in all && u !in threads;
  }

  lemma {:induction false} PruneKeepsProcess(s: State)
    requires ProcessInv(s) && Unentered(s)
    ensures ProcessInv(Next(s, PruneReceipt))
  {
    hide Next;
    NoEntryStep(s, PruneReceipt);
    ProcessStep(s, PruneReceipt);
  }

  /** Over every run so far safe, pruning the receipt now lets some run on from here break exclusion exactly
      when some thread is on its way in. */
  lemma {:induction false} PruneExact(s: State, steps: seq<Step>, n: nat)
    requires n <= |steps| && Initial(s) && PrunedUnentered(s, steps, n)
    ensures var a := After(s, steps, n);
            (exists more, t, u :: Breaks(Next(a, PruneReceipt), more, t, u)) <==> exists t: Tid :: a.At(t).Entering()
  {
    hide Next, After, ProcessInv, Breaks, PrunedUnentered;
    InitialInv(s);
    RunKeepsProcess(s, steps, n);
    PruneExactAt(After(s, steps, n));
  }

  lemma {:induction false} PruneExactAt(s: State)
    requires ProcessInv(s)
    ensures (exists steps, t, u :: Breaks(Next(s, PruneReceipt), steps, t, u)) <==> exists t: Tid :: s.At(t).Entering()
  {
    var pruned := Next(s, PruneReceipt);
    if t: Tid :| s.At(t).Entering() {
      assert pruned.receipt.None? && pruned.At(t).Entering() && pruned.process == s.process;
      PrunedLocks(s);
      var u := UnusedThread(pruned.threads.Keys);
      EnteringBreaks(pruned, t, u);
    } else {
      PruneKeepsProcess(s);
      forall steps, t, u ensures !Breaks(pruned, steps, t, u) {
        if NoPruning(steps) {
          NeverBreaks(pruned, steps, t, u);
        }
      }
    }
  }

  lemma {:induction false} PrunedLocks(s: State)
    requires ProcessOk(s)
    ensures ProcessOk(Next(s, PruneReceipt))
  {
    assert forall t: Tid :: ProcessOkFor(s, t) ==> ProcessOkFor(Next(s, PruneReceipt), t);
  }

  lemma {:induction false} NeverBreaks(s: State, steps: seq<Step>, t: Tid, u: Tid)
    requires ProcessInv(s) && NoPruning(steps)
    ensures !Breaks(s, steps, t, u)
  {
    hide After, ProcessInv;
    RunKeepsProcess(s, steps, |steps|);
    ProcessInvParts(After(s, steps, |steps|));
    if After(s, steps, |steps|).At(t).Delivering? && After(s, steps, |steps|).At(u).Delivering? {
      SoleDeliverer(After(s, steps, |steps|), t, u);
    }
  }

  lemma {:induction false} ProcessInvParts(s: State)
    requires ProcessInv(s)
    ensures ProcessOk(s)
  {
  }

  // ----- how long a claim stays the newest -----

  /** The seconds after which a claim may be superseded: the stale time, or the retry time when failures may
      be saved in between. */
  function Limit(failures: bool): nat {
    if failures then FAILED_RECEIPT_RETRY_SECONDS else STALE_PROCESSING_RECEIPT_SECONDS
  }

  /** Thread t makes a claim. */
  predicate MakesClaim(s: State, step: Step, t: Tid) {
    (step == Claim(t) || step == ResetReceipt(t)) && Next(s, step).claims == s.claims + 1
  }

  /** The step saves a failure that may be tried again. */
  predicate SavesFailure(step: Step) {
    step.Conflict? || (step.Save? && step.status.RetryableFailure?)
  }

  /** Steps m up to n prune nothing, and save such failures only if allowed. */
  predicate Calm(steps: seq<Step>, m: nat, n: nat, failures: bool)
    requires m <= n <= |steps|
  {
    forall k | m <= k < n :: !steps[k].PruneReceipt? && (SavesFailure(steps[k]) ==> failures)
  }

  /** The receipt is no older than the claim and no thread is about to reset it. */
  ghost predicate Newest(s: State, since: nat, claims: nat, failures: bool) {
    && s.claims == claims
    && s.receipt.Some? && s.receipt.value.updatedAt >= since
    && s.receipt.value.status != RejectedShuttingDown
    && (s.receipt.value.status == RetryableFailure ==> failures)
    && forall u: Tid :: !s.At(u).Resetting?
  }

  lemma {:induction false} NewestStep(s: State, step: Step, since: nat, claims: nat, failures: bool)
    requires Newest(s, since, claims, failures) && since <= s.now < since + Limit(failures)
    requires !step.PruneReceipt? && (SavesFailure(step) ==> failures)
    ensures Newest(Next(s, step), since, claims, failures)
  {
    assert !Reclaimable(s.receipt.value, s.now);
    forall u: Tid ensures !Next(s, step).At(u).Resetting? {
      assert !s.At(u).Resetting?;
    }
    assert HasActor(step) ==> !s.At(step.t).Resetting?;
  }

  lemma {:induction false} NewestAtFirst(s: State, step: Step, t: Tid, failures: bool)
    requires ReclaimInv(s) && MakesClaim(s, step, t)
    ensures Newest(Next(s, step), s.now, s.claims + 1, failures)
  {
    forall u: Tid ensures !Next(s, step).At(u).Resetting? {
      if s.At(u).Resetting? && s.At(t).Resetting? {
        SoleHolder(s, t, u);
      }
      assert s.receipt.None? ==> !s.At(u).Reclaims();
    }
  }

  lemma {:induction false} TimeStep(s: State, step: Step)
    ensures s.now <= Next(s, step).now
  {
  }

  lemma {:induction false} TimeRuns(s: State, steps: seq<Step>, m: nat, n: nat)
    requires m <= n <= |steps|
    ensures After(s, steps, m).now <= After(s, steps, n).now
    decreases n - m
  {
    hide Next;
    if m < n {
      TimeRuns(s, steps, m, n - 1);
      TimeStep(After(s, steps, n - 1), steps[n - 1]);
    }
  }

  lemma {:induction false} StaysNewest(s: State, steps: seq<Step>, m: nat, n: nat, since: nat, claims: nat,
                                       failures: bool)
    requires m <= n <= |steps| && Calm(steps, m, n, failures)
    requires Newest(After(s, steps, m), since, claims, failures)
    requires since <= After(s, steps, m).now && After(s, steps, n).now < since + Limit(failures)
    ensures Newest(After(s, steps, n), since, claims, failures)
    decreases n - m
  {
    hide Next, Newest;
    if m < n {
      TimeRuns(s, steps, m, n - 1);
      TimeRuns(s, steps, n - 1, n);
      StaysNewest(s, steps, m, n - 1, since, claims, failures);
      NewestStep(After(s, steps, n - 1), steps[n - 1], since, claims, failures);
    }
  }

  /** Step m - 1 makes thread t's claim. */
  ghost predicate ClaimedAt(s: State, steps: seq<Step>, m: nat, t: Tid) {
    && 0 < m <= |steps| && Initial(s) && PrunedUnreclaimed(s, steps, m)
    && MakesClaim(After(s, steps, m - 1), steps[m - 1], t)
  }

  /** A claim is still the newest for as long as the limit says, in any run that prunes nothing meanwhile. */
  lemma {:induction false} ClaimStaysNewest(s: State, steps: seq<Step>, m: nat, n: nat, t: Tid, failures: bool)
    requires ClaimedAt(s, steps, m, t) && m <= n <= |steps| && Calm(steps, m, n, failures)
    requires After(s, steps, n).now < After(s, steps, m).now + Limit(failures)
    ensures After(s, steps, n).claims == After(s, steps, m).claims
  {
    hide Next, ReclaimInv;
    var before := After(s, steps, m - 1);
    InitialInv(s);
    RunKeepsReclaim(s, steps, m - 1);
    NewestAtFirst(before, steps[m - 1], t, failures);
    ClaimTakesNoTime(before, steps[m - 1], t);
    StaysNewest(s, steps, m, n, before.now, before.claims + 1, failures);
  }

  lemma {:induction false} ClaimTakesNoTime(s: State, step: Step, t: Tid)
    requires MakesClaim(s, step, t)
    ensures Next(s, step).now == s.now
  {
  }

  /** The claim thread t makes at step m - 1 enters delivery at step n, so many seconds later, when a newer
      claim has been made; in between nothing is pruned, and failures are saved only if allowed. */
  ghost predicate EntersSuperseded(s: State, steps: seq<Step>, m: nat, n: nat, t: Tid, seconds: nat, failures: bool) {
    && ClaimedAt(s, steps, m, t) && m <= n < |steps| && Calm(steps, m, n, failures)
    && steps[n] == TryProcess(t) && After(s, steps, n).now == After(s, steps, m).now + seconds
    && After(s, steps, n + 1).entries == After(s, steps, n).entries + [After(s, steps, m).claims - 1]
    && After(s, steps, m).claims < After(s, steps, n).claims
  }

  // ----- a claim that is too slow -----

  function Start(): State {
    State(0, None, 0, Locks(None, map[], 0), Locks(None, map[], 0), map[], 0, [], [])
  }

  /** Thread 0 claims; maybe another thread cannot read its receipt yet; time goes by; thread 1 reclaims,
      delivers and leaves; thread 0 enters. */
  function SlowRun(failures: bool, seconds: nat): seq<Step> {
    [Claim(0), if failures then Conflict else Tick(0), Tick(seconds), Claim(1), FindReclaimLock(1), TryReclaim(1),
     Recheck(1), ResetReceipt(1), EndReclaim(1), FindProcessLock(1), TryProcess(1), Leave(1), FindProcessLock(0),
     TryProcess(0), Tick(0)]
  }

  /** What thread 1 does while thread 0 still has its claim. */
  ghost predicate Slow(s: State, pc: Pc, reclaim: Locks, process: Locks, claims: nat, seconds: nat) {
    && s.At(0) == Claimed(0) && s.At(1) == pc && s.now == seconds && s.entries == []
    && s.receipt.Some? && (claims == 1 ==> Reclaimable(s.receipt.value, seconds))
    && s.reclaim == reclaim && s.process == process && s.claims == claims
  }

  function Unlocked(): Locks {
    Locks(None, map[], 0)
  }

  /** Thread 0 holds its claim, and the receipt has this status, all at time 0. */
  ghost predicate JustSaved(s: State, status: Status) {
    && s.At(0) == Claimed(0) && s.At(1) == Idle && s.now == 0 && s.entries == [] && s.claims == 1
    && s.receipt.Some? && s.receipt.value.status == status && s.receipt.value.updatedAt == 0
    && s.reclaim == Unlocked() && s.process == Unlocked()
  }

  lemma {:induction false} SlowClaims()
    ensures JustSaved(Next(Start(), Claim(0)), Processing)
  {
  }

  lemma {:induction false} SlowSaves(s: State)
    requires JustSaved(s, Processing)
    ensures JustSaved(Next(s, Conflict), RetryableFailure) && JustSaved(Next(s, Tick(0)), Processing)
  {
  }

  lemma {:induction false} SlowWaits(s: State, failures: bool, seconds: nat)
    requires JustSaved(s, if failures then RetryableFailure else Processing) && seconds >= Limit(failures)
    ensures Slow(Next(s, Tick(seconds)), Idle, Unlocked(), Unlocked(), 1, seconds)
  {
  }

  lemma {:induction false} SlowFirst(failures: bool, seconds: nat)
    requires seconds >= Limit(failures)
    ensures Slow(Next(Next(Next(Start(), Claim(0)), if failures then Conflict else Tick(0)), Tick(seconds)),
                 Idle, Unlocked(), Unlocked(), 1, seconds)
  {
    hide Next, JustSaved, Slow;
    SlowClaims();
    SlowSaves(Next(Start(), Claim(0)));
    SlowWaits(Next(Next(Start(), Claim(0)), if failures then Conflict else Tick(0)), failures, seconds);
  }

  lemma {:induction false} SlowLooks(s: State, seconds: nat)
    requires Slow(s, Idle, Unlocked(), Unlocked(), 1, seconds)
    ensures s.receipt.Some?
    ensures Slow(Next(Next(Next(s, Claim(1)), FindReclaimLock(1)), TryReclaim(1)),
                 Reclaiming(0, s.receipt.value), Locks(Some(0), map[0 := 1], 1), Unlocked(), 1, seconds)
  {
  }

  lemma {:induction false} SlowResets(s: State, base: Receipt, seconds: nat)
    requires Slow(s, Reclaiming(0, base), Locks(Some(0), map[0 := 1], 1), Unlocked(), 1, seconds)
    ensures Slow(Next(Next(Next(s, Recheck(1)), ResetReceipt(1)), EndReclaim(1)),
                 Claimed(1), Locks(Some(0), map[], 1), Unlocked(), 2, seconds)
  {
  }

  lemma {:induction false} SlowDelivers(s: State, seconds: nat)
    requires Slow(s, Claimed(1), Locks(Some(0), map[], 1), Unlocked(), 2, seconds)
    ensures var a := Next(Next(Next(s, FindProcessLock(1)), TryProcess(1)), Leave(1));
            a.At(0) == Claimed(0) && a.process.held == map[] && a.entries == [1] && a.claims == 2 && a.now == seconds
  {
  }

  lemma {:induction false} SlowEnters(s: State)
    requires s.At(0) == Claimed(0) && s.process.held == map[]
    ensures var a := Next(s, FindProcessLock(0));
            && a.claims == s.claims && a.now == s.now && a.entries == s.entries
            && Next(a, TryProcess(0)).entries == s.entries + [0]
  {
  }

  lemma {:induction false} SlowRunEnters(seconds: nat, failures: bool)
    requires seconds >= Limit(failures)
    ensures EntersSuperseded(Start(), SlowRun(failures, seconds), 1, 13, 0, seconds, failures)
  {
    hide Next, Slow;
    var s, steps := Start(), SlowRun(failures, seconds);
    ThreeSteps(s, steps, 0);
    SlowFirst(failures, seconds);
    ThreeSteps(s, steps, 3);
    SlowLooks(After(s, steps, 3), seconds);
    ThreeSteps(s, steps, 6);
    SlowResets(After(s, steps, 6), After(s, steps, 3).receipt.value, seconds);
    ThreeSteps(s, steps, 9);
    SlowDelivers(After(s, steps, 9), seconds);
    SlowEnters(After(s, steps, 12));
    assert After(s, steps, 13) == Next(After(s, steps, 12), steps[12]);
    assert After(s, steps, 14) == Next(After(s, steps, 13), steps[13]);
    FirstClaim(s, steps);
  }

  lemma {:induction false} FirstClaim(s: State, steps: seq<Step>)
    requires s == Start() && |steps| > 0 && steps[0] == Claim(0)
    ensures ClaimedAt(s, steps, 1, 0) && After(s, steps, 1).claims == 1 && After(s, steps, 1).now == 0
  {
    assert After(s, steps, 0) == s;
  }

  /** At most one delivery holds per claim, not per message: a claim can enter delivery superseded, so many
      seconds after it was made, exactly from the stale time on, or from the retry time on when failures may be
      saved in between. */
  lemma {:induction false} EntersSupersededExact(seconds: nat, failures: bool)
    ensures (exists s, steps, m, n, t :: EntersSuperseded(s, steps, m, n, t, seconds, failures))
            <==> seconds >= if failures then FAILED_RECEIPT_RETRY_SECONDS else STALE_PROCESSING_RECEIPT_SECONDS
  {
    if seconds >= Limit(failures) {
      SlowRunEnters(seconds, failures);
    } else {
      forall s, steps, m, n, t ensures !EntersSuperseded(s, steps, m, n, t, seconds, failures) {
        if EntersSuperseded(s, steps, m, n, t, seconds, failures) {
          ClaimStaysNewest(s, steps, m, n, t, failures);
        }
      }
    }
  }
}
