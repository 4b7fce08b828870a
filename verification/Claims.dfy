/** Who may work on one ingress id: the claim on its receipt, the reclaim of a stale or failed receipt,
    and the process lock around delivery, as steps of any number of threads in one process. */
module Claims {
  import opened Wrappers

  // ----- the receipt -----

  const STALE_PROCESSING_RECEIPT_SECONDS: nat := 20 + 240 + 60
  const FAILED_RECEIPT_RETRY_SECONDS: nat := 60

  /** A receipt's status, as far as claiming and recovery tell them apart: RetryableFailure is any of the
      four failures that may be tried again, Unrouted a delivered receipt whose routing state is still to be
      applied, Other any status that is left alone. */
  datatype Status = Processing | InFlight | RetryableFailure | RejectedShuttingDown | Unrouted | Other

  /** A receipt as one write left it; versions count the writes. */
  datatype Receipt = Receipt(status: Status, updatedAt: nat, version: nat)

  predicate Reclaimable(r: Receipt, now: nat) {
    || (r.status == Processing && now >= r.updatedAt + STALE_PROCESSING_RECEIPT_SECONDS)
    || (r.status == RetryableFailure && now >= r.updatedAt + FAILED_RECEIPT_RETRY_SECONDS)
    || r.status == RejectedShuttingDown
  }

  /** Recovery goes on with such a receipt when it lists it. */
  predicate Recoverable(r: Receipt) {
    r.status == InFlight || r.status == Unrouted
  }

  // ----- the table of locks -----

  type Tid = nat

  /** The lock object the table holds for this id, who holds which lock object, and a fresh name. */
  datatype Locks = Locks(current: Option<nat>, held: map<nat, Tid>, unused: nat)
  {
    /** The lock object for the id, made when there is none. */
    function Get(): (Locks, nat) {
      if current.Some? then (this, current.value) else (Locks(Some(unused), held, unused + 1), unused)
    }

    function Acquire(lock: nat, t: Tid): Locks {
      this.(held := held[lock := t])
    }

    function Release(lock: nat): Locks {
      this.(held := held - {lock})
    }

    /** Drops the table's entry when nobody holds the lock and the receipt is gone. */
    function Prune(receiptGone: bool): Locks {
      if current.Some? && current.value !in held && receiptGone then this.(current := None) else this
    }
  }

  // ----- threads -----

  /** Where a thread stands. A claim is the right to deliver once; recovery enters without one, for a receipt
      it has listed some time before. */
  datatype Pc =
    | Idle
    | Eligible(base: Receipt)
    | AtReclaim(lock: nat, base: Receipt)
    | Reclaiming(lock: nat, base: Receipt)
    | Resetting(lock: nat, read: Receipt, checkedAt: nat)
    | Reclaimed(lock: nat, claim: nat)
    | Claimed(claim: nat)
    | Listed
    | AtProcess(lock: nat, token: Option<nat>)
    | Delivering(lock: nat, token: Option<nat>)
  {
    /** The reclaim lock object this thread knows of, and whether it holds it; likewise for the process lock. */
    function ReclaimLock(): Option<nat> {
      if AtReclaim? || Reclaiming? || Resetting? || Reclaimed? then Some(lock) else None
    }

    predicate HoldsReclaim() {
      Reclaiming? || Resetting? || Reclaimed?
    }

    function ProcessLock(): Option<nat> {
      if AtProcess? || Delivering? then Some(lock) else None
    }

    /** On the way from a claim, or from a listed receipt, to the process lock. */
    predicate Entering() {
      Reclaimed? || Claimed? || Listed? || AtProcess?
    }

    /** On the way from a receipt that may be reclaimed to resetting it. */
    predicate Reclaims() {
      Eligible? || AtReclaim? || Reclaiming? || Resetting?
    }

    /** The claim this thread has not used yet. */
    function Unused(): Option<nat> {
      if Reclaimed? || Claimed? then Some(claim) else if AtProcess? then token else None
    }
  }

  /** One reset of a receipt: what it was based on, when that was checked, and what it wrote. */
  datatype Reset = Reset(read: Receipt, checkedAt: nat, wrote: Receipt)

  datatype State = State(
    now: nat, receipt: Option<Receipt>, version: nat,
    reclaim: Locks, process: Locks, threads: map<Tid, Pc>,
    claims: nat, resets: seq<Reset>, entries: seq<nat>)
  {
    function At(t: Tid): Pc {
      if t in threads then threads[t] else Idle
    }

    function Move(t: Tid, pc: Pc): State {
      this.(threads := threads[t := pc])
    }

    function Write(status: Status): State {
      this.(receipt := Some(Receipt(status, now, version + 1)), version := version + 1)
    }
  }

  // ----- steps -----

  /** What a thread may save under the process lock: anything but a claim and a rejection at shutdown. */
  predicate Savable(status: Status) {
    !status.Processing? && !status.RejectedShuttingDown?
  }

  /** What a rejected message is saved as, where there is no receipt. */
  predicate Rejection(status: Status) {
    status.RejectedShuttingDown? || status.Other?
  }

  /** The steps of a thread t, and those of none in particular; Conflict is a claim that could not read the
      receipt it found and saves a failure over it. */
  datatype Step =
    | Claim(t: Tid)
    | FindReclaimLock(t: Tid)
    | TryReclaim(t: Tid)
    | Recheck(t: Tid)
    | ResetReceipt(t: Tid)
    | EndReclaim(t: Tid)
    | List(t: Tid)
    | FindProcessLock(t: Tid)
    | TryProcess(t: Tid)
    | Save(t: Tid, status: Status)
    | Leave(t: Tid)
    | Reject(status: Status)
    | Conflict
    | Tick(seconds: nat)
    | PruneLocks
    | PruneReceipt
    | Restart

  /** Saves the receipt when there is none, and otherwise looks whether the one there may be reclaimed. */
  function ClaimStep(s: State, t: Tid): State {
    if s.receipt.None? then s.Write(Processing).Move(t, Claimed(s.claims)).(claims := s.claims + 1)
    else if Reclaimable(s.receipt.value, s.now) then s.Move(t, Eligible(s.receipt.value))
    else s
  }

  function FindReclaimLockStep(s: State, t: Tid, base: Receipt): State {
    var (locks, lock) := s.reclaim.Get();
    s.(reclaim := locks).Move(t, AtReclaim(lock, base))
  }

  function TryReclaimStep(s: State, t: Tid, lock: nat, base: Receipt): State {
    if lock in s.reclaim.held then s.Move(t, Idle)
    else s.(reclaim := s.reclaim.Acquire(lock, t)).Move(t, Reclaiming(lock, base))
  }

  /** Reads the receipt again under the lock and backs off when it may no longer be reclaimed. */
  function RecheckStep(s: State, t: Tid, lock: nat, base: Receipt): State {
    var latest := if s.receipt.Some? then s.receipt.value else base;
    if Reclaimable(latest, s.now) then s.Move(t, Resetting(lock, latest, s.now))
    else s.(reclaim := s.reclaim.Release(lock)).Move(t, Idle)
  }

  function ResetStep(s: State, t: Tid, lock: nat, read: Receipt, checkedAt: nat): State {
    var w := s.Write(Processing);
    w.(resets := s.resets + [Reset(read, checkedAt, w.receipt.value)], claims := s.claims + 1)
     .Move(t, Reclaimed(lock, s.claims))
  }

  function FindProcessLockStep(s: State, t: Tid, token: Option<nat>): State {
    var (locks, lock) := s.process.Get();
    s.(process := locks).Move(t, AtProcess(lock, token))
  }

  function TryProcessStep(s: State, t: Tid, lock: nat, token: Option<nat>): State {
    if lock in s.process.held then s.Move(t, Idle)
    else
      s.(process := s.process.Acquire(lock, t), entries := s.entries + (if token.Some? then [token.value] else []))
       .Move(t, Delivering(lock, token))
  }

  /** The thread ends, by an early return, an exception or at last, and drops the lock it holds. */
  function LeaveStep(s: State, t: Tid): State {
    var pc := s.At(t);
    var left := s.Move(t, Idle);
    if pc.HoldsReclaim() then left.(reclaim := s.reclaim.Release(pc.lock))
    else if pc.Delivering? then left.(process := s.process.Release(pc.lock))
    else left
  }

  /** A step that is not enabled changes nothing. */
  function Next(s: State, step: Step): State {
    match step
    case Claim(t) => if s.At(t).Idle? then ClaimStep(s, t) else s
    case FindReclaimLock(t) => if s.At(t).Eligible? then FindReclaimLockStep(s, t, s.At(t).base) else s
    case TryReclaim(t) => if s.At(t).AtReclaim? then TryReclaimStep(s, t, s.At(t).lock, s.At(t).base) else s
    case Recheck(t) => if s.At(t).Reclaiming? then RecheckStep(s, t, s.At(t).lock, s.At(t).base) else s
    case ResetReceipt(t) =>
      if s.At(t).Resetting? then ResetStep(s, t, s.At(t).lock, s.At(t).read, s.At(t).checkedAt) else s
    case EndReclaim(t) =>
      if s.At(t).Reclaimed? then s.(reclaim := s.reclaim.Release(s.At(t).lock)).Move(t, Claimed(s.At(t).claim)) else s
    case List(t) =>
      if s.At(t).Idle? && s.receipt.Some? && Recoverable(s.receipt.value) then s.Move(t, Listed) else s
    case FindProcessLock(t) =>
      if s.At(t).Claimed? then FindProcessLockStep(s, t, Some(s.At(t).claim))
      else if s.At(t).Listed? then FindProcessLockStep(s, t, None)
      else s
    case TryProcess(t) => if s.At(t).AtProcess? then TryProcessStep(s, t, s.At(t).lock, s.At(t).token) else s
    case Save(t, status) => if s.At(t).Delivering? && Savable(status) then s.Write(status) else s
    case Leave(t) => LeaveStep(s, t)
    case Reject(status) => if s.receipt.None? && Rejection(status) then s.Write(status) else s
    case Conflict => s.Write(RetryableFailure)
    case Tick(seconds) => s.(now := s.now + seconds)
    case PruneLocks => s.(reclaim := s.reclaim.Prune(s.receipt.None?), process := s.process.Prune(s.receipt.None?))
    case PruneReceipt => s.(receipt := None)
    case Restart => s.(reclaim := Locks(None, map[], 0), process := Locks(None, map[], 0), threads := map[])
  }

  function After(s: State, steps: seq<Step>, n: nat): State
    requires n <= |steps|
  {
    if n == 0 then s else Next(After(s, steps, n - 1), steps[n - 1])
  }

  /** A process that has just started, with or without a receipt on disk. */
  predicate Initial(s: State) {
    && s.threads == map[] && s.reclaim == s.process == Locks(None, map[], 0)
    && s.claims == 0 && s.resets == [] && s.entries == []
    && (s.receipt.Some? ==> s.receipt.value.version == s.version)
  }

  /** Whenever one of the first n steps prunes the receipt, no thread is on its way to the process lock. */
  ghost predicate PrunedUnentered(s: State, steps: seq<Step>, n: nat)
    requires n <= |steps|
  {
    forall k | 0 <= k < n && steps[k].PruneReceipt? :: Unentered(After(s, steps, k))
  }

  ghost predicate Unentered(s: State) {
    forall t: Tid :: !s.At(t).Entering()
  }

  /** Whenever one of the first n steps prunes the receipt, no thread is about to reset it. */
  ghost predicate PrunedUnreclaimed(s: State, steps: seq<Step>, n: nat)
    requires n <= |steps|
  {
    forall k | 0 <= k < n && steps[k].PruneReceipt? :: Unreclaimed(After(s, steps, k))
  }

  ghost predicate Unreclaimed(s: State) {
    forall t: Tid :: !s.At(t).Reclaims()
  }

  /** How many of the first n steps prune the receipt. */
  function Prunings(steps: seq<Step>, n: nat): nat
    requires n <= |steps|
  {
    if n == 0 then 0 else Prunings(steps, n - 1) + (if steps[n - 1].PruneReceipt? then 1 else 0)
  }
}
