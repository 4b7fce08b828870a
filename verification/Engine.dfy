/** The board watcher's snapshot-diff engine: list, diff against the settled snapshot, debounce per
    file, ask the ledger, notify, fold into the snapshot, persist.

    The outside world is a parameter: what the listing returned, and per settled doc what the ledger
    file held at that moment, what the fetch returned, and whether notify and persist succeeded.
    A fetched document is represented by its SHA-256 digest, which is taken to be injective. */
module Engine {
  import opened Ledger
  import opened Settle
  import opened Wrappers

  type Digest = s: string | s != "" && s != TOMBSTONE witness "0"

  datatype FileStat = FileStat(mtime: int, size: int)
  type Listing = map<string, FileStat>

  /** The settled state of one doc; sha is "" when the baseline could not hash it. */
  datatype SnapshotEntry = SnapshotEntry(stat: FileStat, sha: string)
  type Files = map<string, SnapshotEntry>

  /** What is persisted; a snapshot from before the counts existed carries none. */
  datatype Snapshot = Snapshot(files: Files, consumed: Option<Counts>)

  datatype PendingChange = PendingChange(stat: FileStat, deleted: bool, lastChange: int)
  type Pendings = map<string, PendingChange>

  datatype Verb = Added | Updated | Removed
  datatype Change = Change(name: string, verb: Verb, sha: string)

  datatype Outcome = Outcome(text: string, fetch: Option<Digest>, notifyOk: bool, persistOk: bool)
  type World = string -> Outcome

  datatype State = State(files: Files, counts: Counts, pending: Pendings, boundary: Boundary,
                         disk: Option<Snapshot>, delivered: seq<Change>)

  // ----- tracking -----

  /** What one listing says about a name. */
  datatype Sight = Sight(stat: FileStat, deleted: bool)

  function See(lst: Listing, name: string): Sight {
    if name in lst then Sight(lst[name], false) else Sight(FileStat(0, 0), true)
  }

  predicate Differs(files: Files, lst: Listing, name: string) {
    if name in lst then !(name in files && files[name].stat == lst[name]) else name in files
  }

  function TrackOne(pending: Pendings, name: string, s: Sight, now: int): PendingChange {
    if name in pending && pending[name].stat == s.stat && pending[name].deleted == s.deleted then pending[name]
    else PendingChange(s.stat, s.deleted, now)
  }

  /** The pending changes once a listing has been compared with the snapshot. */
  function TrackAll(files: Files, pending: Pendings, lst: Listing, now: int): Pendings {
    map name | name in lst.Keys + files.Keys && Differs(files, lst, name)
      :: TrackOne(pending, name, See(lst, name), now)
  }

  function At(pending: Pendings, name: string): Option<PendingChange> {
    if name in pending then Some(pending[name]) else None
  }

  function TrackedAt(files: Files, pending: Pendings, lst: Listing, now: int, name: string): Option<PendingChange> {
    if Differs(files, lst, name) then Some(TrackOne(pending, name, See(lst, name), now)) else None
  }

  lemma {:induction false} TrackAllAt(files: Files, pending: Pendings, lst: Listing, now: int, after: Pendings)
    requires forall name :: At(after, name) == TrackedAt(files, pending, lst, now, name)
    ensures after == TrackAll(files, pending, lst, now)
  {
    var spec := TrackAll(files, pending, lst, now);
    forall name ensures name in after <==> name in spec {
      assert At(after, name) == TrackedAt(files, pending, lst, now, name);
    }
    forall name | name in after ensures after[name] == spec[name] {
      assert At(after, name) == TrackedAt(files, pending, lst, now, name);
    }
  }

  // ----- settling -----

  function Persist(st: State, ok: bool): State {
    if ok then st.(disk := Some(Snapshot(st.files, Some(st.counts)))) else st
  }

  predicate Unchanged(files: Files, name: string, sum: string) {
    name in files && files[name].sha != "" && files[name].sha == sum
  }

  ghost function SettleDeletion(decode: Decoder, st: State, name: string, o: Outcome): State
    requires name in st.pending
  {
    var own := Own(decode, o.text, name, TOMBSTONE, st.counts);
    var asked := st.(counts := SettledCounts(decode, o.text, name, TOMBSTONE, st.counts, st.boundary));
    if !own && !o.notifyOk then asked
    else Persist(asked.(files := st.files - {name}, pending := st.pending - {name},
                        delivered := st.delivered + if own then [] else [Change(name, Removed, "")]), o.persistOk)
  }

  ghost function SettleContent(decode: Decoder, st: State, name: string, sum: Digest, o: Outcome): State
    requires name in st.pending
  {
    var own := Own(decode, o.text, name, sum, st.counts);
    var asked := st.(counts := SettledCounts(decode, o.text, name, sum, st.counts, st.boundary));
    var silent := Unchanged(st.files, name, sum) || own;
    if !silent && !o.notifyOk then asked
    else
      var change := Change(name, if name in st.files then Updated else Added, sum);
      Persist(asked.(files := st.files[name := SnapshotEntry(st.pending[name].stat, sum)],
                     pending := st.pending - {name},
                     delivered := st.delivered + if silent then [] else [change]), o.persistOk)
  }

  ghost function SettleChange(decode: Decoder, st: State, name: string, o: Outcome): State {
    if name !in st.pending then st
    else if st.pending[name].deleted then SettleDeletion(decode, st, name, o)
    else match o.fetch
      case None => st
      case Some(sum) => SettleContent(decode, st, name, sum, o)
  }

  /** The state after the first n names of an order have been settled in turn. */
  ghost function SettleAll(decode: Decoder, st: State, order: seq<string>, world: World, n: nat): State
    requires n <= |order|
  {
    if n == 0 then st
    else SettleChange(decode, SettleAll(decode, st, order, world, n - 1), order[n - 1], world(order[n - 1]))
  }

  function Due(pending: Pendings, now: int, debounce: int): set<string> {
    set name | name in pending && now - pending[name].lastChange >= debounce
  }

  ghost predicate Enumerates(order: seq<string>, names: set<string>) {
    && (forall i, j :: 0 <= i < j < |order| ==> order[i] != order[j])
    && (forall name :: name in order <==> name in names)
  }

  // ----- the engine -----

  /** A successful poll: the listing, and the settled files it was compared with. */
  datatype Poll = Poll(now: int, lst: Listing, files: Files)

  /** The difference a poll saw for a name. */
  ghost predicate SawSame(poll: Poll, files: Files, name: string, p: PendingChange) {
    && See(poll.lst, name) == Sight(p.stat, p.deleted)
    && SettledAs(poll.files, files, name)
  }

  /** p was last touched at poll i, and every poll from there on saw exactly p's difference. */
  ghost predicate StillSince(polls: seq<Poll>, i: nat, files: Files, name: string, p: PendingChange) {
    && i < |polls| && polls[i].now == p.lastChange
    && forall j :: i <= j < |polls| ==> SawSame(polls[j], files, name, p)
  }

  ghost predicate Witnessed(files: Files, pending: Pendings, polls: seq<Poll>) {
    forall name :: name in pending ==> exists i: nat :: StillSince(polls, i, files, name, pending[name])
  }

  lemma {:induction false} TrackKeepsWitness(files: Files, pending: Pendings, lst: Listing, now: int, polls: seq<Poll>)
    requires Witnessed(files, pending, polls)
    ensures Witnessed(files, TrackAll(files, pending, lst, now), polls + [Poll(now, lst, files)])
  {
    var after, more := TrackAll(files, pending, lst, now), polls + [Poll(now, lst, files)];
    forall name | name in after ensures exists i: nat :: StillSince(more, i, files, name, after[name]) {
      if name in pending && after[name] == pending[name] {
        var i: nat :| StillSince(polls, i, files, name, pending[name]);
        assert StillSince(more, i, files, name, after[name]);
      } else {
        assert StillSince(more, |polls|, files, name, after[name]);
      }
    }
  }

  /** Settling one doc leaves every other doc's pending change and settled state alone, and either
      finishes the doc or leaves it entirely as it was. */
  lemma {:induction false} SettleOthers(decode: Decoder, st: State, name: string, o: Outcome, n: string)
    ensures var after := SettleChange(decode, st, name, o);
            && (At(after.pending, n) == None || At(after.pending, n) == At(st.pending, n))
            && (n != name || n in after.pending ==>
                  At(after.pending, n) == At(st.pending, n) && SettledAs(after.files, st.files, n))
  {
    if name in st.pending && st.pending[name].deleted {
      assert SettleChange(decode, st, name, o) == SettleDeletion(decode, st, name, o);
    } else if name in st.pending && o.fetch.Some? {
      assert SettleChange(decode, st, name, o) == SettleContent(decode, st, name, o.fetch.value, o);
    }
  }

  /** Both snapshots say the same about n. */
  ghost predicate SettledAs(a: Files, b: Files, n: string) {
    (n in a <==> n in b) && (n in a ==> a[n] == b[n])
  }

  lemma {:induction false} SettleKeepsWitness(decode: Decoder, st: State, name: string, o: Outcome, polls: seq<Poll>)
    requires Witnessed(st.files, st.pending, polls)
    ensures var after := SettleChange(decode, st, name, o);
            Witnessed(after.files, after.pending, polls)
  {
    var after := SettleChange(decode, st, name, o);
    forall n | n in after.pending ensures exists i: nat :: StillSince(polls, i, after.files, n, after.pending[n]) {
      SettleOthers(decode, st, name, o, n);
      KeepWitness(st.files, after.files, st.pending, n, polls);
    }
  }

  lemma {:induction false} KeepWitness(files: Files, after: Files, pending: Pendings, n: string, polls: seq<Poll>)
    requires n in pending && Witnessed(files, pending, polls)
    requires SettledAs(after, files, n)
    ensures exists i: nat :: StillSince(polls, i, after, n, pending[n])
  {
    var i: nat :| StillSince(polls, i, files, n, pending[n]);
    assert StillSince(polls, i, after, n, pending[n]);
  }

  /** Part way through settling: `order` is done, `todo` is still to be visited. */
  ghost predicate SettlingDue(decode: Decoder, start: State, due: set<string>, order: seq<string>, world: World,
                              todo: set<string>, polls: seq<Poll>) {
    var st := SettleAll(decode, start, order, world, |order|);
    && Enumerates(order, due - todo)
    && Witnessed(st.files, st.pending, polls)
    && forall n :: n in todo ==> n in st.pending && n in start.pending && st.pending[n] == start.pending[n]
  }

  lemma {:induction false} SettleOneDue(decode: Decoder, start: State, due: set<string>, order: seq<string>,
                                        world: World, todo: set<string>, polls: seq<Poll>, name: string)
    requires SettlingDue(decode, start, due, order, world, todo + {name}, polls)
    requires name in due && name !in todo
    ensures SettlingDue(decode, start, due, order + [name], world, todo, polls)
    ensures SettleAll(decode, start, order + [name], world, |order| + 1)
         == SettleChange(decode, SettleAll(decode, start, order, world, |order|), name, world(name))
  {
    hide SettleChange;
    var st := SettleAll(decode, start, order, world, |order|);
    SettleKeepsWitness(decode, st, name, world(name), polls);
    SettleAllExtend(decode, start, order, name, world);
    forall n | n in todo ensures At(SettleChange(decode, st, name, world(name)).pending, n) == At(start.pending, n) {
      assert n in todo + {name};
      SettleOthers(decode, st, name, world(name), n);
    }
    assert Enumerates(order + [name], due - todo);
  }

  lemma {:induction false} SkipOne(decode: Decoder, start: State, due: set<string>, order: seq<string>, world: World,
                                   todo: set<string>, polls: seq<Poll>, name: string)
    requires SettlingDue(decode, start, due, order, world, todo + {name}, polls)
    requires name !in due
    ensures SettlingDue(decode, start, due, order, world, todo, polls)
  {
    assert due - (todo + {name}) == due - todo;
  }

  class Watcher {
    const decode: Decoder
    const debounce: int
    var files: Files
    var consumed: Consumed
    var pending: Pendings
    var boundary: Boundary
    var disk: Option<Snapshot>
    var delivered: seq<Change>
    ghost var polls: seq<Poll>

    ghost function St(): State
      reads this, consumed
    {
      State(files, consumed.counts, pending, boundary, disk, delivered)
    }

    /** Every pending change is one the polls since the start have been seeing without a break. */
    ghost predicate Valid()
      reads this
    {
      Witnessed(files, pending, polls)
    }

    /** A start that finds a snapshot: counts missing from it are seeded and persisted at once. */
    constructor Load(decode: Decoder, debounce: int, snap: Snapshot, text: string, persistOk: bool)
      ensures this.decode == decode && this.debounce == debounce && fresh(consumed)
      ensures Valid() && polls == []
      ensures St() == Loaded(decode, snap, text, persistOk)
    {
      this.decode, this.debounce := decode, debounce;
      files, pending, boundary, disk, delivered := snap.files, map[], Boundary(""), Some(snap), [];
      consumed := new Consumed(if snap.consumed.Some? then snap.consumed.value else map[]);
      polls := [];
      new;
      if snap.consumed.None? {
        RetireSettled(decode, text, consumed, Hashes(snap.files));
        if persistOk {
          disk := Some(Snapshot(files, Some(consumed.counts)));
        }
      }
    }

    /** The very first start: records the board without notifying. The boundary was drawn when the
        ledger read `drawn`; it reads `text` once the listing has been taken. */
    constructor Baseline(decode: Decoder, debounce: int, drawn: string, text: string, lst: Listing,
                         fetch: map<string, Digest>, persistOk: bool)
      ensures this.decode == decode && this.debounce == debounce && fresh(consumed)
      ensures Valid() && polls == []
      ensures St() == Baselined(decode, drawn, text, lst, fetch, persistOk)
    {
      this.decode, this.debounce := decode, debounce;
      files, pending, boundary, disk, delivered := map[], map[], Boundary(""), None, [];
      consumed := new Consumed(map[]);
      polls := [];
      new;
      RetireAll(decode, text, consumed, Boundary(drawn));
      var todo := lst.Keys;
      while todo != {}
        invariant todo <= lst.Keys
        invariant files == map name | name in lst.Keys - todo :: BaselineEntry(lst, fetch, name)
        modifies `files
      {
        var name :| name in todo;
        files := files[name := SnapshotEntry(lst[name], if name in fetch then fetch[name] else "")];
        todo := todo - {name};
      }
      assert lst.Keys - todo == lst.Keys;
      if persistOk {
        disk := Some(Snapshot(files, Some(consumed.counts)));
      }
    }

    method Track(name: string, stat: FileStat, deleted: bool, now: int)
      modifies `pending
      ensures pending == old(pending)[name := TrackOne(old(pending), name, Sight(stat, deleted), now)]
    {
      if name !in pending {
        pending := pending[name := PendingChange(stat, deleted, now)];
      } else if pending[name].stat != stat || pending[name].deleted != deleted {
        pending := pending[name := PendingChange(stat, deleted, now)];
      } else {
        assert pending == pending[name := pending[name]];
      }
    }

    /** First pass of a cycle: additions and updates; a doc back at its settled state is dropped. */
    method TrackListed(lst: Listing, now: int)
      modifies `pending
      ensures forall n ::
                At(pending, n) == if n in lst then TrackedAt(files, old(pending), lst, now, n) else At(old(pending), n)
    {
      ghost var was := pending;
      var todo := lst.Keys;
      while todo != {}
        invariant todo <= lst.Keys
        invariant forall n ::
                    At(pending, n) == if n in lst && n !in todo then TrackedAt(files, was, lst, now, n) else At(was, n)
      {
        var name :| name in todo;
        todo := todo - {name};
        assert At(pending, name) == At(was, name);
        if name in files && files[name].stat == lst[name] {
          pending := pending - {name};
        } else {
          Track(name, lst[name], false, now);
        }
      }
    }

    /** Second pass: settled docs missing from the listing. */
    method TrackMissing(lst: Listing, now: int)
      modifies `pending
      ensures forall n ::
                At(pending, n) ==
                if n !in lst && n in files then TrackedAt(files, old(pending), lst, now, n) else At(old(pending), n)
    {
      ghost var was := pending;
      var todo := files.Keys;
      while todo != {}
        invariant todo <= files.Keys
        invariant forall n ::
                    At(pending, n) ==
                    if n !in lst && n in files && n !in todo then TrackedAt(files, was, lst, now, n) else At(was, n)
      {
        var name :| name in todo;
        todo := todo - {name};
        assert At(pending, name) == At(was, name);
        if name !in lst {
          Track(name, FileStat(0, 0), true, now);
        }
      }
    }

    /** Third pass: docs that appeared and vanished before they settled. */
    method DropVanished(lst: Listing)
      modifies `pending
      ensures forall n :: At(pending, n) == if n in lst || n in files then At(old(pending), n) else None
    {
      ghost var was := pending;
      var todo := pending.Keys;
      while todo != {}
        invariant todo <= was.Keys
        invariant forall n :: At(pending, n) == if n in todo || n in lst || n in files then At(was, n) else None
      {
        var name :| name in todo;
        todo := todo - {name};
        if name !in lst && name !in files {
          pending := pending - {name};
        }
      }
    }

    /** The three loops together: what differs is pending, as it is seen now, and any movement restarts its
        quiet time. */
    method Diff(lst: Listing, now: int)
      modifies `pending
      ensures pending == TrackAll(files, old(pending), lst, now)
      ensures forall name :: name in pending <==> Differs(files, lst, name)
      ensures forall name <- pending ::
                var p, was := pending[name], At(old(pending), name);
                && Sight(p.stat, p.deleted) == See(lst, name)
                && p.lastChange == if was.Some? && Sight(was.value.stat, was.value.deleted) == See(lst, name)
                                   then was.value.lastChange else now
    {
      ghost var was := pending;
      TrackListed(lst, now);
      ghost var listed := pending;
      TrackMissing(lst, now);
      DropVanished(lst);
      forall n ensures At(pending, n) == TrackedAt(files, was, lst, now, n) {
        assert At(listed, n) == if n in lst then TrackedAt(files, was, lst, now, n) else At(was, n);
      }
      TrackAllAt(files, was, lst, now, pending);
    }

    method SettleOwnWrite(name: string, sha: string, text: string) returns (own: bool)
      modifies consumed
      ensures own == Own(decode, text, name, sha, old(consumed.counts))
      ensures consumed.counts == SettledCounts(decode, text, name, sha, old(consumed.counts), boundary)
    {
      own := SettleEntry(decode, text, name, sha, consumed, boundary);
    }

    method PersistSnapshot(ok: bool)
      modifies `disk
      ensures disk == if ok then Some(Snapshot(files, Some(consumed.counts))) else old(disk)
    {
      if ok {
        disk := Some(Snapshot(files, Some(consumed.counts)));
      }
    }

    method SettleRemoval(name: string, o: Outcome)
      requires name in pending
      modifies `files, `pending, `disk, `delivered, consumed
      ensures St() == SettleDeletion(decode, old(St()), name, o)
    {
      var own := SettleOwnWrite(name, TOMBSTONE, o.text);
      if !own {
        if !o.notifyOk {
          return;
        }
        delivered := delivered + [Change(name, Removed, "")];
      }
      files := files - {name};
      pending := pending - {name};
      PersistSnapshot(o.persistOk);
    }

    method SettleFetched(name: string, sum: Digest, o: Outcome)
      requires name in pending
      modifies `files, `pending, `disk, `delivered, consumed
      ensures St() == SettleContent(decode, old(St()), name, sum, o)
    {
      hide SettledCounts, Own;
      var existed := name in files;
      var verb := if existed then Updated else Added;
      var own := SettleOwnWrite(name, sum, o.text);
      if !(existed && files[name].sha != "" && files[name].sha == sum) && !own {
        if !o.notifyOk {
          return;
        }
        delivered := delivered + [Change(name, verb, sum)];
      }
      files := files[name := SnapshotEntry(pending[name].stat, sum)];
      pending := pending - {name};
      PersistSnapshot(o.persistOk);
    }

    /** Finalizes one debounced change. */
    method SettlePending(name: string, o: Outcome)
      requires name in pending
      modifies `files, `pending, `disk, `delivered, consumed
      ensures St() == SettleChange(decode, old(St()), name, o)
    {
      if pending[name].deleted {
        SettleRemoval(name, o);
      } else if o.fetch.Some? {
        SettleFetched(name, o.fetch.value, o);
      }
    }

    /** Settles one pending change if it has sat still long enough. */
    method SettleIfDue(name: string, now: int, world: World,
                       ghost start: State, ghost order: seq<string>, ghost todo: set<string>)
      returns (ghost settled: seq<string>)
      requires name !in todo
      requires SettlingDue(decode, start, Due(start.pending, now, debounce), order, world, todo + {name}, polls)
      requires St() == SettleAll(decode, start, order, world, |order|)
      modifies `files, `pending, `disk, `delivered, consumed
      ensures SettlingDue(decode, start, Due(start.pending, now, debounce), settled, world, todo, polls)
      ensures St() == SettleAll(decode, start, settled, world, |settled|)
    {
      assert name in todo + {name};
      if now - pending[name].lastChange >= debounce {
        SettleOneDue(decode, start, Due(start.pending, now, debounce), order, world, todo, polls, name);
        SettlePending(name, world(name));
        settled := order + [name];
      } else {
        SkipOne(decode, start, Due(start.pending, now, debounce), order, world, todo, polls, name);
        settled := order;
      }
    }

    /** Settles everything that has sat still for the debounce window, in whatever order. */
    method SettleDue(now: int, world: World) returns (ghost order: seq<string>)
      requires Valid()
      modifies `files, `pending, `disk, `delivered, consumed
      ensures Valid()
      ensures Enumerates(order, Due(old(pending), now, debounce))
      ensures St() == SettleAll(decode, old(St()), order, world, |order|)
    {
      order := [];
      ghost var start := St();
      var todo := pending.Keys;
      while todo != {}
        invariant SettlingDue(decode, start, Due(start.pending, now, debounce), order, world, todo, polls)
        invariant St() == SettleAll(decode, start, order, world, |order|)
      {
        var name :| name in todo;
        assert todo == (todo - {name}) + {name};
        todo := todo - {name};
        order := SettleIfDue(name, now, world, start, order, todo);
      }
    }

    /** One poll. `text` is the ledger when the cycle starts; `lst` is None when listing failed. */
    method Cycle(text: string, lst: Option<Listing>, now: int, world: World) returns (ghost order: seq<string>)
      requires Valid()
      modifies `files, `pending, `boundary, `disk, `delivered, `polls, consumed
      ensures Valid()
      ensures lst.None? ==> St() == old(St()).(boundary := Boundary(text)) && order == [] && polls == old(polls)
      ensures lst.Some? ==>
                var tracked := TrackAll(old(files), old(pending), lst.value, now);
                && polls == old(polls) + [Poll(now, lst.value, old(files))]
                && Enumerates(order, Due(tracked, now, debounce))
                && St() == SettleAll(decode, old(St()).(boundary := Boundary(text), pending := tracked),
                              order, world, |order|)
                // A change is settled only if every poll since its last movement saw it, and it sat still long enough.
                && forall name :: name in order ==>
                     now - tracked[name].lastChange >= debounce
                     && exists i: nat :: StillSince(polls, i, old(files), name, tracked[name])
    {
      boundary := Boundary(text);
      order := [];
      if lst.None? {
        return;
      }
      TrackKeepsWitness(files, pending, lst.value, now, polls);
      Diff(lst.value, now);
      polls := polls + [Poll(now, lst.value, files)];
      order := SettleDue(now, world);
    }
  }

  lemma {:induction false} SettleAllPrefix(decode: Decoder, st: State, order: seq<string>, more: seq<string>,
                                           world: World, n: nat)
    requires n <= |order|
    ensures SettleAll(decode, st, order + more, world, n) == SettleAll(decode, st, order, world, n)
  {
    if n > 0 {
      SettleAllPrefix(decode, st, order, more, world, n - 1);
    }
  }

  lemma {:induction false} SettleAllExtend(decode: Decoder, st: State, order: seq<string>, name: string, world: World)
    ensures SettleAll(decode, st, order + [name], world, |order| + 1)
         == SettleChange(decode, SettleAll(decode, st, order, world, |order|), name, world(name))
  {
    SettleAllPrefix(decode, st, order, [name], world, |order|);
  }

  // ----- starting -----

  function Hashes(files: Files): map<string, string> {
    map name | name in files :: files[name].sha
  }

  ghost function Loaded(decode: Decoder, snap: Snapshot, text: string, persistOk: bool): State {
    match snap.consumed
    case Some(counts) => State(snap.files, counts, map[], Boundary(""), Some(snap), [])
    case None =>
      Persist(State(snap.files, SeededCounts(decode, text, map[], Hashes(snap.files)), map[],
                    Boundary(""), Some(snap), []),
              persistOk)
  }

  function BaselineEntry(lst: Listing, fetch: map<string, Digest>, name: string): SnapshotEntry
    requires name in lst
  {
    SnapshotEntry(lst[name], if name in fetch then fetch[name] else "")
  }

  ghost function Baselined(decode: Decoder, drawn: string, text: string, lst: Listing, fetch: map<string, Digest>,
                           persistOk: bool): State {
    Persist(State(map name | name in lst :: BaselineEntry(lst, fetch, name),
                  RetiredCounts(decode, text, map[], Boundary(drawn)),
                  map[], Boundary(""), None, []), persistOk)
  }
}
