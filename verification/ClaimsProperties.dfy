/** What the locks and claims of one ingress id guarantee over every run. */
module ClaimsProperties {
  import opened Claims
  import opened Finite
  import opened Wrappers

  // ----- the lock tables -----

  ghost predicate ReclaimOk(s: State) {
    && (forall t: Tid :: ReclaimOkFor(s, t))
    && (s.reclaim.held != map[] ==>
        && s.reclaim.current.Some? && s.reclaim.current.value in s.reclaim.held
        && s.At(s.reclaim.held[s.reclaim.current.value]).HoldsReclaim())
  }

  ghost predicate ProcessOk(s: State) {
    && (forall t: Tid :: ProcessOkFor(s, t))
    && (s.process.current.Some? ==> s.process.current.value < s.process.unused)
    && (s.process.held != map[] ==>
        && s.process.current.Some? && s.process.current.value in s.process.held
        && s.At(s.process.held[s.process.current.value]).Delivering?)
  }

  /** Without a receipt nobody is on the way to the process lock. */
  ghost predicate NoEntryWithoutReceipt(s: State) {
    s.receipt.None? ==> Unentered(s)
  }

  /** Without a receipt nobody is about to reset it. */
  ghost predicate NoReclaimWithoutReceipt(s: State) {
    s.receipt.None? ==> Unreclaimed(s)
  }

  predicate HasActor(step: Step) {
    !step.Reject? && !step.Conflict? && !step.Tick? && !step.PruneLocks? && !step.PruneReceipt? && !step.Restart?
  }

  predicate ActedBy(step: Step, t: Tid) {
    HasActor(step) && step.t == t
  }

  /** A step moves nobody but its own thread; a restart ends them all. */
  lemma {:induction false} OnlyActorMoves(s: State, step: Step, t: Tid)
    requires !ActedBy(step, t)
    ensures Next(s, step).At(t) == s.At(t) || (step.Restart? && Next(s, step).At(t).Idle?)
  {
  }

  lemma {:induction false} NoEntryStep(s: State, step: Step)
    requires NoEntryWithoutReceipt(s) && (step.PruneReceipt? ==> Unentered(s))
    ensures NoEntryWithoutReceipt(Next(s, step))
  {
    forall t: Tid | Next(s, step).receipt.None? ensures !Next(s, step).At(t).Entering() {
      assert !s.At(t).Entering();
    }
  }

  lemma {:induction false} NoReclaimStep(s: State, step: Step)
    requires NoReclaimWithoutReceipt(s) && (step.PruneReceipt? ==> Unreclaimed(s))
    ensures NoReclaimWithoutReceipt(Next(s, step))
  {
    forall t: Tid | Next(s, step).receipt.None? ensures !Next(s, step).At(t).Reclaims() {
      assert !s.At(t).Reclaims();
    }
  }

  ghost predicate ReclaimOkFor(s: State, t: Tid) {
    && (s.At(t).ReclaimLock().Some? ==> s.reclaim.current == s.At(t).ReclaimLock())
    && (s.At(t).HoldsReclaim() ==> s.reclaim.held == map[s.At(t).lock := t])
  }

  lemma {:induction false} ReclaimActor(s: State, step: Step, t: Tid)
    requires NoReclaimWithoutReceipt(s) && ReclaimOk(s) && ActedBy(step, t)
    ensures ReclaimOkFor(Next(s, step), t)
  {
    assert ReclaimOkFor(s, t);
  }

  lemma {:induction false} ReclaimOther(s: State, step: Step, t: Tid)
    requires NoReclaimWithoutReceipt(s) && ReclaimOk(s) && !ActedBy(step, t)
    ensures ReclaimOkFor(Next(s, step), t)
  {
    OnlyActorMoves(s, step, t);
    assert ReclaimOkFor(s, t) && (HasActor(step) ==> ReclaimOkFor(s, step.t));
    if s.At(t).HoldsReclaim() && HasActor(step) && s.At(step.t).HoldsReclaim() {
      SoleHolder(s, t, step.t);
    }
  }

  lemma {:induction false} ReclaimHeld(s: State, step: Step)
    requires NoReclaimWithoutReceipt(s) && ReclaimOk(s)
    ensures var n := Next(s, step);
            n.reclaim.held != map[] ==>
              && n.reclaim.current.Some? && n.reclaim.current.value in n.reclaim.held
              && n.At(n.reclaim.held[n.reclaim.current.value]).HoldsReclaim()
  {
    assert HasActor(step) ==> ReclaimOkFor(s, step.t);
  }

  lemma {:induction false} ReclaimStep(s: State, step: Step)
    requires NoReclaimWithoutReceipt(s) && ReclaimOk(s)
    ensures ReclaimOk(Next(s, step))
  {
    hide Next;
    ReclaimHeld(s, step);
    forall t: Tid ensures ReclaimOkFor(Next(s, step), t) {
      if ActedBy(step, t) {
        ReclaimActor(s, step, t);
      } else {
        ReclaimOther(s, step, t);
      }
    }
  }

  ghost predicate ProcessOkFor(s: State, t: Tid) {
    && (s.At(t).ProcessLock().Some? ==> s.process.current == s.At(t).ProcessLock())
    && (s.At(t).Delivering? ==> s.process.held == map[s.At(t).lock := t])
  }

  lemma {:induction false} ProcessActor(s: State, step: Step, t: Tid)
    requires NoEntryWithoutReceipt(s) && ProcessOk(s) && ActedBy(step, t)
    ensures ProcessOkFor(Next(s, step), t)
  {
    assert ProcessOkFor(s, t);
  }

  lemma {:induction false} ProcessOther(s: State, step: Step, t: Tid)
    requires NoEntryWithoutReceipt(s) && ProcessOk(s) && !ActedBy(step, t)
    ensures ProcessOkFor(Next(s, step), t)
  {
    OnlyActorMoves(s, step, t);
    assert ProcessOkFor(s, t) && (HasActor(step) ==> ProcessOkFor(s, step.t));
  }

  lemma {:induction false} ProcessHeld(s: State, step: Step)
    requires NoEntryWithoutReceipt(s) && ProcessOk(s)
    ensures var n := Next(s, step);
            && (n.process.current.Some? ==> n.process.current.value < n.process.unused)
            && (n.process.held != map[] ==>
                  && n.process.current.Some? && n.process.current.value in n.process.held
                  && n.At(n.process.held[n.process.current.value]).Delivering?)
  {
    assert HasActor(step) ==> ProcessOkFor(s, step.t);
  }

  lemma {:induction false} ProcessStep(s: State, step: Step)
    requires NoEntryWithoutReceipt(s) && ProcessOk(s)
    ensures ProcessOk(Next(s, step))
  {
    hide Next;
    ProcessHeld(s, step);
    forall t: Tid ensures ProcessOkFor(Next(s, step), t) {
      if ActedBy(step, t) {
        ProcessActor(s, step, t);
      } else {
        ProcessOther(s, step, t);
      }
    }
  }

  // ----- claims -----

  ghost predicate Distinct(entries: seq<nat>, claims: nat) {
    && (forall k | 0 <= k < |entries| :: entries[k] < claims)
    && (forall j, k | 0 <= j < k < |entries| :: entries[j] != entries[k])
  }

  ghost predicate UnusedFor(s: State, t: Tid) {
    s.At(t).Unused().Some? ==> s.At(t).Unused().value < s.claims && s.At(t).Unused().value !in s.entries
  }

  ghost predicate Apart(s: State, t: Tid, u: Tid) {
    t != u && s.At(t).Unused().Some? ==> s.At(t).Unused() != s.At(u).Unused()
  }

  ghost predicate TokensOk(s: State) {
    && Distinct(s.entries, s.claims)
    && (forall t: Tid :: UnusedFor(s, t))
    && (forall t: Tid, u: Tid :: Apart(s, t, u))
  }

  /** A thread's unused claim is the one it had, or a new one. */
  lemma {:induction false} UnusedMoves(s: State, step: Step, t: Tid)
    ensures var was, now := s.At(t).Unused(), Next(s, step).At(t).Unused();
            now.None? || now == was
            || (ActedBy(step, t) && now == Some(s.claims) && Next(s, step).claims == s.claims + 1)
  {
    if !ActedBy(step, t) {
      OnlyActorMoves(s, step, t);
    }
  }

  /** An entry added is the acting thread's unused claim, which it then no longer has. */
  lemma {:induction false} EntriesMove(s: State, step: Step)
    ensures var n := Next(s, step);
            && s.claims <= n.claims
            && (n.entries == s.entries ||
                (HasActor(step) && s.At(step.t).Unused().Some? && n.At(step.t).Unused().None?
                 && n.entries == s.entries + [s.At(step.t).Unused().value]))
  {
  }

  lemma {:induction false} TokensStep(s: State, step: Step)
    requires TokensOk(s)
    ensures TokensOk(Next(s, step))
  {
    hide Next;
    EntriesMove(s, step);
    var n := Next(s, step);
    if HasActor(step) {
      assert UnusedFor(s, step.t);
    }
    forall t: Tid ensures UnusedFor(n, t) {
      UnusedMoves(s, step, t);
      assert UnusedFor(s, t);
      assert HasActor(step) ==> Apart(s, step.t, t);
    }
    forall t: Tid, u: Tid ensures Apart(n, t, u) {
      UnusedMoves(s, step, t);
      UnusedMoves(s, step, u);
      assert Apart(s, t, u) && UnusedFor(s, t) && UnusedFor(s, u);
    }
  }

  // ----- resets -----

  /** The later reset read what the earlier one wrote, or something newer; the same only once it was stale. */
  ghost predicate Later(a: Reset, read: Receipt, checkedAt: nat) {
    && a.wrote.version <= read.version
    && (a.wrote.version == read.version ==> checkedAt >= a.wrote.updatedAt + STALE_PROCESSING_RECEIPT_SECONDS)
  }

  /** The receipt on disk is the newest write; a reset's write is on disk until the next one. */
  ghost predicate VersionsOk(s: State) {
    && (s.receipt.Some? ==> s.receipt.value.version == s.version)
    && (forall k | 0 <= k < |s.resets| ::
          var r := s.resets[k];
          && r.read.version < r.wrote.version <= s.version && r.wrote.status == Processing
          && (s.receipt.Some? && r.wrote.version == s.version ==> s.receipt.value == r.wrote))
  }

  ghost predicate InOrder(resets: seq<Reset>) {
    forall j, k | 0 <= j < k < |resets| :: Later(resets[j], resets[k].read, resets[k].checkedAt)
  }

  ghost predicate ResetsOk(s: State) {
    VersionsOk(s) && InOrder(s.resets) && forall t: Tid :: ReadOk(s, t)
  }

  ghost predicate ReadOk(s: State, t: Tid) {
    s.At(t).Resetting? ==>
      && s.At(t).read.version <= s.version
      && forall k | 0 <= k < |s.resets| :: Later(s.resets[k], s.At(t).read, s.At(t).checkedAt)
  }

  lemma {:induction false} ReadActor(s: State, step: Step, t: Tid)
    requires NoReclaimWithoutReceipt(s) && VersionsOk(s) && ReadOk(s, t) && ActedBy(step, t)
    ensures ReadOk(Next(s, step), t)
  {
    assert s.At(t).Reclaims() ==> s.receipt.Some?;
  }

  lemma {:induction false} SoleHolder(s: State, t: Tid, u: Tid)
    requires ReclaimOk(s) && s.At(t).HoldsReclaim() && s.At(u).HoldsReclaim()
    ensures t == u
  {
    assert ReclaimOkFor(s, t) && ReclaimOkFor(s, u);
    SameHolder(s.reclaim.held, s.At(t).lock, t, s.At(u).lock, u);
  }

  lemma {:induction false} SameHolder(held: map<nat, Tid>, l: nat, t: Tid, m: nat, u: Tid)
    requires held == map[l := t] && held == map[m := u]
    ensures t == u
  {
    assert l in held && m in held;
  }

  lemma {:induction false} ReadOther(s: State, step: Step, t: Tid)
    requires ReclaimOk(s) && ReadOk(s, t) && !ActedBy(step, t)
    ensures ReadOk(Next(s, step), t)
  {
    OnlyActorMoves(s, step, t);
    if s.At(t).HoldsReclaim() && HasActor(step) && s.At(step.t).HoldsReclaim() {
      SoleHolder(s, t, step.t);
    }
  }

  lemma {:induction false} VersionsStep(s: State, step: Step)
    requires VersionsOk(s)
    requires HasActor(step) ==> ReadOk(s, step.t)
    ensures VersionsOk(Next(s, step))
  {
  }

  lemma {:induction false} OrderStep(s: State, step: Step)
    requires InOrder(s.resets) && (HasActor(step) ==> ReadOk(s, step.t))
    ensures InOrder(Next(s, step).resets)
  {
  }

  lemma {:induction false} ResetsStep(s: State, step: Step)
    requires NoReclaimWithoutReceipt(s) && ReclaimOk(s) && ResetsOk(s)
    ensures ResetsOk(Next(s, step))
  {
    hide Next, NoReclaimWithoutReceipt, ReclaimOk, VersionsOk, InOrder, ReadOk;
    assert HasActor(step) ==> ReadOk(s, step.t);
    VersionsStep(s, step);
    OrderStep(s, step);
    forall t: Tid ensures ReadOk(Next(s, step), t) {
      if ActedBy(step, t) {
        ReadActor(s, step, t);
      } else {
        ReadOther(s, step, t);
      }
    }
  }

  // ----- runs -----

  /** What exclusion rests on, and what the resets rest on. */
  ghost predicate ProcessInv(s: State) {
    NoEntryWithoutReceipt(s) && ProcessOk(s)
  }

  ghost predicate ReclaimInv(s: State) {
    NoReclaimWithoutReceipt(s) && ReclaimOk(s) && ResetsOk(s)
  }

  lemma {:induction false} InitialInv(s: State)
    requires Initial(s)
    ensures ProcessInv(s) && ReclaimInv(s)
  {
    assert forall t: Tid :: s.At(t) == Idle;
  }

  lemma {:induction false} RunKeepsProcess(s: State, steps: seq<Step>, n: nat)
    requires n <= |steps| && ProcessInv(s) && PrunedUnentered(s, steps, n)
    ensures ProcessInv(After(s, steps, n))
  {
    hide Next, ProcessOk, NoEntryWithoutReceipt, Unentered;
    if n > 0 {
      RunKeepsProcess(s, steps, n - 1);
      NoEntryStep(After(s, steps, n - 1), steps[n - 1]);
      ProcessStep(After(s, steps, n - 1), steps[n - 1]);
    }
  }

  lemma {:induction false} RunKeepsReclaim(s: State, steps: seq<Step>, n: nat)
    requires n <= |steps| && ReclaimInv(s) && PrunedUnreclaimed(s, steps, n)
    ensures ReclaimInv(After(s, steps, n))
  {
    hide Next, ReclaimOk, ResetsOk, NoReclaimWithoutReceipt, Unreclaimed;
    if n > 0 {
      RunKeepsReclaim(s, steps, n - 1);
      NoReclaimStep(After(s, steps, n - 1), steps[n - 1]);
      ReclaimStep(After(s, steps, n - 1), steps[n - 1]);
      ResetsStep(After(s, steps, n - 1), steps[n - 1]);
    }
  }

  lemma {:induction false} SoleDeliverer(s: State, t: Tid, u: Tid)
    requires ProcessOk(s) && s.At(t).Delivering? && s.At(u).Delivering?
    ensures t == u
  {
    assert ProcessOkFor(s, t) && ProcessOkFor(s, u);
    SameHolder(s.process.held, s.At(t).lock, t, s.At(u).lock, u);
  }

  /** As long as its receipt is pruned only while no thread is on its way in, no two threads are ever
      delivering one ingress id at once. */
  lemma {:induction false} ExclusiveDelivery(s: State, steps: seq<Step>, n: nat, t: Tid, u: Tid)
    requires n <= |steps| && Initial(s) && PrunedUnentered(s, steps, n)
    requires After(s, steps, n).At(t).Delivering? && After(s, steps, n).At(u).Delivering?
    ensures t == u
  {
    hide After;
    InitialInv(s);
    RunKeepsProcess(s, steps, n);
    SoleDeliverer(After(s, steps, n), t, u);
  }

  /** No two resets start from the same write of the receipt, and within the stale time of one reset
      another finds some write after it: racing redeliveries cannot both reset what they saw. */
  lemma {:induction false} ResetsAreApart(s: State, steps: seq<Step>, n: nat, j: nat, k: nat)
    requires n <= |steps| && Initial(s) && PrunedUnreclaimed(s, steps, n)
    requires j < k < |After(s, steps, n).resets|
    ensures var a, b := After(s, steps, n).resets[j], After(s, steps, n).resets[k];
            && a.read.version < b.read.version
            && (b.checkedAt < a.wrote.updatedAt + STALE_PROCESSING_RECEIPT_SECONDS ==> a.wrote.version < b.read.version)
  {
    hide After;
    InitialInv(s);
    RunKeepsReclaim(s, steps, n);
    var a := After(s, steps, n);
    assert Later(a.resets[j], a.resets[k].read, a.resets[k].checkedAt);
  }

  // ----- how often a claim delivers -----

  lemma {:induction false} RunKeepsTokens(s: State, steps: seq<Step>, n: nat)
    requires n <= |steps| && Initial(s)
    ensures TokensOk(After(s, steps, n))
  {
    if n > 0 {
      hide Next;
      RunKeepsTokens(s, steps, n - 1);
      TokensStep(After(s, steps, n - 1), steps[n - 1]);
    } else {
      assert forall t: Tid :: s.At(t) == Idle;
    }
  }

  lemma {:induction false} DistinctAreFew(entries: seq<nat>, claims: nat)
    requires Distinct(entries, claims)
    ensures |entries| <= claims
  {
    NoRepeatsSize(entries);
    SubsetSize(Elements(entries), Below(claims));
  }

  /** Claims come from resets and from saving a receipt where there was none. */
  lemma {:induction false} ClaimsStep(s: State, step: Step)
    ensures var n, there := Next(s, step), (r: Option<Receipt>) => if r.Some? then 1 else 0;
            n.claims - |n.resets| - there(n.receipt) <=
            s.claims - |s.resets| - there(s.receipt) + (if step.PruneReceipt? then 1 else 0)
  {
  }

  lemma {:induction false} ClaimsCounted(s: State, steps: seq<Step>, n: nat)
    requires n <= |steps| && Initial(s)
    ensures var a := After(s, steps, n);
            a.claims <= |a.resets| + Prunings(steps, n) + (if a.receipt.Some? then 1 else 0)
  {
    hide Next;
    if n > 0 {
      ClaimsCounted(s, steps, n - 1);
      ClaimsStep(After(s, steps, n - 1), steps[n - 1]);
    }
  }

  /** Each claim enters delivery at most once, whatever is pruned or restarted, and there are no more
      deliveries than one, the resets and the prunings together. */
  lemma {:induction false} DeliveriesAreClaimed(s: State, steps: seq<Step>, n: nat)
    requires n <= |steps| && Initial(s)
    ensures var a := After(s, steps, n);
            Distinct(a.entries, a.claims) && |a.entries| <= 1 + |a.resets| + Prunings(steps, n)
  {
    hide After;
    RunKeepsTokens(s, steps, n);
    DistinctAreFew(After(s, steps, n).entries, After(s, steps, n).claims);
    ClaimsCounted(s, steps, n);
  }

  // ----- who is turned away -----

  /** The claim is spent: nobody has it, and it has not entered. */
  ghost predicate Lost(s: State, claim: nat) {
    claim < s.claims && claim !in s.entries && forall t: Tid :: s.At(t).Unused() != Some(claim)
  }

  lemma {:induction false} LostStep(s: State, step: Step, claim: nat)
    requires Lost(s, claim)
    ensures Lost(Next(s, step), claim)
  {
    hide Next;
    EntriesMove(s, step);
    forall t: Tid ensures Next(s, step).At(t).Unused() != Some(claim) {
      UnusedMoves(s, step, t);
      assert s.At(t).Unused() != Some(claim);
    }
    if HasActor(step) {
      assert s.At(step.t).Unused() != Some(claim);
    }
  }

  lemma {:induction false} LostRuns(s: State, steps: seq<Step>, m: nat, n: nat, claim: nat)
    requires m <= n <= |steps| && Lost(After(s, steps, m), claim)
    ensures Lost(After(s, steps, n), claim)
    decreases n - m
  {
    hide Next, Lost;
    if m < n {
      LostRuns(s, steps, m, n - 1, claim);
      LostStep(After(s, steps, n - 1), steps[n - 1], claim);
    }
  }

  /** Where another holds a lock a thread does not wait: it is done, with the reclaim lock before it resets
      anything, and with the process lock for good: the claim it had never enters, in whatever follows. */
  lemma {:induction false} TurnedAway(s: State, steps: seq<Step>, m: nat, n: nat, t: Tid)
    requires m < n <= |steps| && Initial(s)
    requires var a := After(s, steps, m);
             || (steps[m] == TryReclaim(t) && a.At(t).AtReclaim? && a.At(t).lock in a.reclaim.held)
             || (steps[m] == TryProcess(t) && a.At(t).AtProcess? && a.At(t).lock in a.process.held)
    ensures var a, b := After(s, steps, m), After(s, steps, m + 1);
            && b.At(t).Idle? && b.entries == a.entries && b.receipt == a.receipt
            && (a.At(t).Unused().Some? ==> a.At(t).Unused().value !in After(s, steps, n).entries)
  {
    var a, b := After(s, steps, m), After(s, steps, m + 1);
    assert b == Next(a, steps[m]);
    RunKeepsTokens(s, steps, m);
    if a.At(t).Unused().Some? {
      var claim := a.At(t).Unused().value;
      assert UnusedFor(a, t);
      forall u: Tid ensures b.At(u).Unused() != Some(claim) {
        assert Apart(a, t, u);
      }
      hide Next, After;
      LostRuns(s, steps, m + 1, n, claim);
    }
  }

  /** A restart ends every thread and drops every lock, and keeps the receipt; a claim that had not entered by
      then never does. */
  lemma {:induction false} RestartForgets(s: State, steps: seq<Step>, m: nat, n: nat, claim: nat)
    requires m < n <= |steps| && Initial(s) && steps[m].Restart?
    ensures var a, b := After(s, steps, m), After(s, steps, m + 1);
            && (forall t: Tid :: b.At(t).Idle?) && b.reclaim.current.None? && b.process.current.None?
            && b.reclaim.held == map[] && b.process.held == map[]
            && b.receipt == a.receipt && b.entries == a.entries && b.now == a.now
            && (claim < a.claims && claim !in a.entries ==> claim !in After(s, steps, n).entries)
  {
    var a, b := After(s, steps, m), After(s, steps, m + 1);
    assert b == Next(a, steps[m]);
    if claim < a.claims && claim !in a.entries {
      assert Lost(b, claim);
      hide Next, After;
      LostRuns(s, steps, m + 1, n, claim);
    }
  }

  /** Pruning drops a lock from its table exactly when nobody holds it and the receipt is gone. */
  lemma {:induction false} PruneDrops(s: State)
    ensures var a := Next(s, PruneLocks);
            && a.reclaim.held == s.reclaim.held && a.process.held == s.process.held
            && (a.reclaim.current == if s.reclaim.current.Some? && s.receipt.None?
                                        && s.reclaim.current.value !in s.reclaim.held then None
                                     else s.reclaim.current)
            && (a.process.current == if s.process.current.Some? && s.receipt.None?
                                        && s.process.current.value !in s.process.held then None
                                     else s.process.current)
  {
  }
}
