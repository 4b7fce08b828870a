/** Properties of whole cycles: the order in which pending changes are visited does not matter, and a
    board that stands still converges. */
module EngineProperties {
  import opened Engine
  import opened Ledger
  import opened Settle
  import opened SettleProperties
  import opened Wrappers

  // ----- settles of different docs do not interfere -----

  ghost predicate AgreeOn(a: Counts, b: Counts, file: string) {
    forall e: Entry :: e.file == file ==> CountAt(a, Key(e)) == CountAt(b, Key(e))
  }

  lemma {:induction false} MatchLocal(es: seq<Positioned>, a: Counts, b: Counts, file: string, sha: string, n: nat)
    requires n <= |es| && AgreeOn(a, b, file)
    requires forall i :: 0 <= i < |es| ==> es[i].entry.file == file
    ensures MatchIndex(es, a, sha, n) == MatchIndex(es, b, sha, n)
  {
    if n > 0 {
      MatchLocal(es, a, b, file, sha, n - 1);
      assert CountAt(a, Key(es[n - 1].entry)) == CountAt(b, Key(es[n - 1].entry));
    }
  }

  lemma {:induction false} SpendLocal(es: seq<Positioned>, a: Counts, b: Counts, file: string,
                                      touched: set<Positioned>, n: nat)
    requires n <= |es| && AgreeOn(a, b, file)
    requires forall i :: 0 <= i < |es| ==> es[i].entry.file == file
    ensures AgreeOn(Spend(es, a, touched, n), Spend(es, b, touched, n), file)
  {
    if n > 0 {
      SpendLocal(es, a, b, file, touched, n - 1);
      var key := Key(es[n - 1].entry);
      assert CountAt(Spend(es, a, touched, n - 1), key) == CountAt(Spend(es, b, touched, n - 1), key);
    }
  }

  lemma {:induction false} LedgerLocal(decode: Decoder, text: string, file: string, sha: string, a: Counts, b: Counts,
                                       boundary: Boundary)
    requires AgreeOn(a, b, file)
    ensures Own(decode, text, file, sha, a) == Own(decode, text, file, sha, b)
    ensures AgreeOn(SettledCounts(decode, text, file, sha, a, boundary),
                    SettledCounts(decode, text, file, sha, b, boundary), file)
  {
    var fs := FileEntries(decode, text, file);
    EntriesOrdered(decode, text);
    ForMembers(Entries(decode, text), file);
    assert forall i :: 0 <= i < |fs| ==> fs[i] in fs;
    MatchLocal(fs, a, b, file, sha, |fs|);
    SpendLocal(fs, a, b, file, Touched(fs, MatchIndex(fs, a, sha, |fs|), Cut(text, boundary)), |fs|);
  }

  function FileAt(files: Files, name: string): Option<SnapshotEntry> {
    if name in files then Some(files[name]) else None
  }

  /** Two states look the same as far as one doc is concerned. */
  ghost predicate SameFor(a: State, b: State, name: string) {
    && FileAt(a.files, name) == FileAt(b.files, name)
    && At(a.pending, name) == At(b.pending, name)
    && AgreeOn(a.counts, b.counts, name)
    && a.boundary == b.boundary
  }

  /** What a settle of the doc tells the mayor. */
  ghost function Notice(decode: Decoder, st: State, name: string, o: Outcome): seq<Change> {
    if name !in st.pending || !o.notifyOk then []
    else if st.pending[name].deleted then
      if Own(decode, o.text, name, TOMBSTONE, st.counts) then [] else [Change(name, Removed, "")]
    else match o.fetch
      case None => []
      case Some(sum) =>
        if name in st.files && st.files[name].sha == sum then []
        else if Own(decode, o.text, name, sum, st.counts) then []
        else [Change(name, if name in st.files then Updated else Added, sum)]
  }

  lemma {:induction false} SettleDelivers(decode: Decoder, st: State, name: string, o: Outcome)
    ensures SettleChange(decode, st, name, o).delivered == st.delivered + Notice(decode, st, name, o)
  {
  }

  /** A live line of the ledger records this state of the doc. */
  ghost predicate LineFor(decode: Decoder, text: string, counts: Counts, name: string, sha: string) {
    exists p :: p in Entries(decode, text) && Live(Entries(decode, text), counts, p)
                && p.entry.file == name && p.entry.sha == sha
  }

  lemma {:induction false} OwnIsLineFor(decode: Decoder, text: string, counts: Counts, name: string, sha: string)
    ensures Own(decode, text, name, sha, counts) <==> LineFor(decode, text, counts, name, sha)
  {
    VerdictIsLatestLive(decode, text, name, sha, counts);
    var live, fs := LiveSet(Entries(decode, text), counts), FileEntries(decode, text, name);
    var m := MatchIndex(fs, counts, sha, |fs|);
    if m >= 0 {
      assert fs[m] in live && Recorded(fs[m], name, sha);
    } else if p :| p in Entries(decode, text) && Live(Entries(decode, text), counts, p)
                   && p.entry.file == name && p.entry.sha == sha {
      assert p in live && Recorded(p, name, sha);
    }
  }

  /** An addition or update is settled in silence if the snapshot already has the fetched hash or a live line
      records it; otherwise exactly it is announced, or the settle waits for the next cycle. */
  lemma {:induction false} ContentTold(decode: Decoder, st: State, name: string, o: Outcome)
    requires name in st.pending && !st.pending[name].deleted && o.fetch.Some?
    ensures var after, sum := SettleChange(decode, st, name, o), o.fetch.value;
            var same := name in st.files && st.files[name].sha == sum;
            var silent := same || LineFor(decode, o.text, st.counts, name, sum);
            if silent || o.notifyOk then
              && after.delivered == st.delivered
                 + (if silent then [] else [Change(name, if name in st.files then Updated else Added, sum)])
              && after.files == st.files[name := SnapshotEntry(st.pending[name].stat, sum)]
              && after.pending == st.pending - {name}
            else after.delivered == st.delivered && after.files == st.files && after.pending == st.pending
  {
    hide SettledCounts, Own, LineFor;
    OwnIsLineFor(decode, o.text, st.counts, name, o.fetch.value);
  }

  /** The same for a removal, which a live tombstone explains. */
  lemma {:induction false} RemovalTold(decode: Decoder, st: State, name: string, o: Outcome)
    requires name in st.pending && st.pending[name].deleted
    ensures var after, silent := SettleChange(decode, st, name, o), LineFor(decode, o.text, st.counts, name, "-");
            if silent || o.notifyOk then
              && after.delivered == st.delivered + (if silent then [] else [Change(name, Removed, "")])
              && after.files == st.files - {name} && after.pending == st.pending - {name}
            else after.delivered == st.delivered && after.files == st.files && after.pending == st.pending
  {
    hide SettledCounts, Own, LineFor;
    OwnIsLineFor(decode, o.text, st.counts, name, "-");
  }

  lemma {:induction false} DeletionLocal(decode: Decoder, a: State, b: State, name: string, o: Outcome)
    requires SameFor(a, b, name) && name in a.pending && name in b.pending
    requires AgreeOn(SettledCounts(decode, o.text, name, TOMBSTONE, a.counts, a.boundary),
                     SettledCounts(decode, o.text, name, TOMBSTONE, b.counts, b.boundary), name)
    requires Own(decode, o.text, name, TOMBSTONE, a.counts) == Own(decode, o.text, name, TOMBSTONE, b.counts)
    ensures SameFor(SettleDeletion(decode, a, name, o), SettleDeletion(decode, b, name, o), name)
  {
  }

  lemma {:induction false} ContentLocal(decode: Decoder, a: State, b: State, name: string, sum: Digest, o: Outcome)
    requires SameFor(a, b, name) && name in a.pending && name in b.pending && a.pending[name] == b.pending[name]
    requires AgreeOn(SettledCounts(decode, o.text, name, sum, a.counts, a.boundary),
                     SettledCounts(decode, o.text, name, sum, b.counts, b.boundary), name)
    requires Own(decode, o.text, name, sum, a.counts) == Own(decode, o.text, name, sum, b.counts)
    requires Unchanged(a.files, name, sum) == Unchanged(b.files, name, sum)
    ensures SameFor(SettleContent(decode, a, name, sum, o), SettleContent(decode, b, name, sum, o), name)
  {
    hide SettledCounts, Own;
  }

  lemma {:induction false} SettleLocal(decode: Decoder, a: State, b: State, name: string, o: Outcome)
    requires SameFor(a, b, name)
    ensures SameFor(SettleChange(decode, a, name, o), SettleChange(decode, b, name, o), name)
    ensures Notice(decode, a, name, o) == Notice(decode, b, name, o)
  {
    if name in a.pending {
      assert a.pending[name] == At(a.pending, name).value == b.pending[name];
      assert FileAt(a.files, name) == FileAt(b.files, name);
      if a.pending[name].deleted {
        LedgerLocal(decode, o.text, name, TOMBSTONE, a.counts, b.counts, a.boundary);
        DeletionLocal(decode, a, b, name, o);
      } else if o.fetch.Some? {
        LedgerLocal(decode, o.text, name, o.fetch.value, a.counts, b.counts, a.boundary);
        ContentLocal(decode, a, b, name, o.fetch.value, o);
      }
    }
  }

  lemma {:induction false} SettleCountsFrame(decode: Decoder, st: State, name: string, o: Outcome, key: string)
    requires forall e: Entry :: e.file == name ==> Key(e) != key
    ensures CountAt(SettleChange(decode, st, name, o).counts, key) == CountAt(st.counts, key)
  {
    if name in st.pending {
      if st.pending[name].deleted {
        SettleFrame(decode, o.text, name, TOMBSTONE, st.counts, st.boundary, key);
      } else if o.fetch.Some? {
        SettleFrame(decode, o.text, name, o.fetch.value, st.counts, st.boundary, key);
      }
    }
  }

  lemma {:induction false} SettleElsewhere(decode: Decoder, st: State, name: string, o: Outcome, m: string)
    requires m != name
    ensures SameFor(SettleChange(decode, st, name, o), st, m)
  {
    var after := SettleChange(decode, st, name, o);
    SettleOthers(decode, st, name, o, m);
    forall e: Entry | e.file == m ensures CountAt(after.counts, Key(e)) == CountAt(st.counts, Key(e)) {
      OtherFilesKey(name, e);
      SettleCountsFrame(decode, st, name, o, Key(e));
    }
  }

  ghost predicate Distinct(order: seq<string>) {
    forall i, j :: 0 <= i < j < |order| ==> order[i] != order[j]
  }

  /** After a round of settles every doc is exactly where its own settle, alone, would have put it. */
  lemma {:induction false} RoundIsLocal(decode: Decoder, st: State, order: seq<string>, world: World, n: nat, m: string)
    requires n <= |order| && Distinct(order)
    ensures SameFor(SettleAll(decode, st, order, world, n),
                    if m in order[..n] then SettleChange(decode, st, m, world(m)) else st, m)
  {
    if n > 0 {
      var name := order[n - 1];
      var before := SettleAll(decode, st, order, world, n - 1);
      RoundIsLocal(decode, st, order, world, n - 1, m);
      assert order[..n] == order[..n - 1] + [name];
      if m == name {
        assert m !in order[..n - 1];
        SettleLocal(decode, before, st, m, world(m));
      } else {
        SettleElsewhere(decode, before, name, world(name), m);
      }
    }
  }

  lemma {:induction false} RoundCountsFrame(decode: Decoder, st: State, order: seq<string>, world: World, n: nat,
                                            key: string)
    requires n <= |order|
    requires forall e: Entry :: Key(e) != key
    ensures CountAt(SettleAll(decode, st, order, world, n).counts, key) == CountAt(st.counts, key)
  {
    if n > 0 {
      RoundCountsFrame(decode, st, order, world, n - 1, key);
      SettleCountsFrame(decode, SettleAll(decode, st, order, world, n - 1), order[n - 1], world(order[n - 1]), key);
    }
  }

  /** How often a settle of `name` announces c. */
  ghost function Announces(decode: Decoder, st: State, name: string, o: Outcome, c: Change): nat {
    if c.name == name && Notice(decode, st, name, o) == [c] then 1 else 0
  }

  lemma {:induction false} SettleAnnounces(decode: Decoder, st: State, name: string, o: Outcome, c: Change)
    ensures multiset(SettleChange(decode, st, name, o).delivered)[c]
         == multiset(st.delivered)[c] + Announces(decode, st, name, o, c)
  {
    SettleDelivers(decode, st, name, o);
    var notice := Notice(decode, st, name, o);
    assert multiset(st.delivered + notice) == multiset(st.delivered) + multiset(notice);
    assert notice == [] || notice == [notice[0]];
  }

  lemma {:induction false} RoundDelivers(decode: Decoder, st: State, order: seq<string>, world: World, n: nat,
                                         c: Change)
    requires n <= |order| && Distinct(order)
    ensures multiset(SettleAll(decode, st, order, world, n).delivered)[c] == multiset(st.delivered)[c] +
              if c.name in order[..n] then Announces(decode, st, c.name, world(c.name), c) else 0
  {
    if n > 0 {
      var name := order[n - 1];
      var before := SettleAll(decode, st, order, world, n - 1);
      RoundDelivers(decode, st, order, world, n - 1, c);
      assert order[..n] == order[..n - 1] + [name];
      SettleAnnounces(decode, before, name, world(name), c);
      if c.name == name {
        assert name !in order[..n - 1];
        RoundIsLocal(decode, st, order, world, n - 1, name);
        SettleLocal(decode, before, st, name, world(name));
      }
    }
  }

  /** Whatever order the pending map is visited in, a cycle ends with the same snapshot, the same
      pending changes, the same ledger counts and the same notifications. */
  lemma {:induction false} OrderIrrelevant(decode: Decoder, st: State, a: seq<string>, b: seq<string>,
                                           names: set<string>, world: World)
    requires Enumerates(a, names) && Enumerates(b, names)
    ensures var x := SettleAll(decode, st, a, world, |a|);
            var y := SettleAll(decode, st, b, world, |b|);
            x.files == y.files && x.pending == y.pending && x.counts == y.counts
            && multiset(x.delivered) == multiset(y.delivered)
  {
    var x := SettleAll(decode, st, a, world, |a|);
    var y := SettleAll(decode, st, b, world, |b|);
    assert a[..|a|] == a && b[..|b|] == b;
    forall m ensures SameFor(x, y, m) {
      RoundIsLocal(decode, st, a, world, |a|, m);
      RoundIsLocal(decode, st, b, world, |b|, m);
    }
    SameEverywhere(x, y);
    forall key | forall e: Entry :: Key(e) != key ensures CountAt(x.counts, key) == CountAt(y.counts, key) {
      RoundCountsFrame(decode, st, a, world, |a|, key);
      RoundCountsFrame(decode, st, b, world, |b|, key);
    }
    SameCounts(x, y);
    forall c ensures multiset(x.delivered)[c] == multiset(y.delivered)[c] {
      RoundDelivers(decode, st, a, world, |a|, c);
      RoundDelivers(decode, st, b, world, |b|, c);
    }
  }

  lemma {:induction false} SameEverywhere(x: State, y: State)
    requires forall m :: SameFor(x, y, m)
    ensures x.files == y.files && x.pending == y.pending
  {
    forall m ensures (m in x.files <==> m in y.files) && (m in x.files ==> x.files[m] == y.files[m]) {
      assert SameFor(x, y, m);
    }
    forall m ensures (m in x.pending <==> m in y.pending) && (m in x.pending ==> x.pending[m] == y.pending[m]) {
      assert SameFor(x, y, m);
    }
  }

  lemma {:induction false} SameCounts(x: State, y: State)
    requires forall m :: SameFor(x, y, m)
    requires forall key :: (forall e: Entry :: Key(e) != key) ==> CountAt(x.counts, key) == CountAt(y.counts, key)
    ensures x.counts == y.counts
  {
    forall key ensures CountAt(x.counts, key) == CountAt(y.counts, key) {
      if e: Entry :| Key(e) == key {
        assert SameFor(x, y, e.file);
      }
    }
    forall key ensures (key in x.counts <==> key in y.counts) && (key in x.counts ==> x.counts[key] == y.counts[key]) {
      assert CountAt(x.counts, key) == CountAt(y.counts, key);
    }
  }

  // ----- starting -----

  /** Right after the counts of a snapshot without any have been seeded, a line is spent exactly if its file's
      settled state, the snapshot's known hash or for a missing doc a tombstone, is recorded at or after it. */
  lemma {:induction false} SeededExact(decode: Decoder, snap: Snapshot, text: string, persistOk: bool, p: Positioned)
    requires snap.consumed.None? && p in Entries(decode, text)
    ensures var es, counts := Entries(decode, text), Loaded(decode, snap, text, persistOk).counts;
            !Live(es, counts, p) <==>
              exists q :: q in es && q.entry.file == p.entry.file && p.offset <= q.offset
                          && if q.entry.file in snap.files then
                               snap.files[q.entry.file].sha != "" && q.entry.sha == snap.files[q.entry.file].sha
                             else q.entry.sha == "-"
  {
    SeedIsExact(decode, text, Hashes(snap.files), p);
  }

  /** So no settled state is taken for an own write: neither a known hash of the snapshot nor the absence of a
      doc it does not have. */
  lemma {:induction false} SettledIsNotOwn(decode: Decoder, snap: Snapshot, text: string, persistOk: bool, name: string)
    requires snap.consumed.None? && (name in snap.files ==> snap.files[name].sha != "")
    ensures var sha := if name in snap.files then snap.files[name].sha else "-";
            !LineFor(decode, text, Loaded(decode, snap, text, persistOk).counts, name, sha)
  {
    forall p | p in Entries(decode, text) && p.entry.file == name
               && p.entry.sha == (if name in snap.files then snap.files[name].sha else "-")
      ensures !Live(Entries(decode, text), Loaded(decode, snap, text, persistOk).counts, p)
    {
      SeededExact(decode, snap, text, persistOk, p);
    }
  }

  /** After a baseline a line is live exactly if it was not on record when the boundary was drawn, or the bytes
      drawn no longer stand at the front of the ledger. */
  lemma {:induction false} BaselineRetires(decode: Decoder, drawn: string, text: string, lst: Listing,
                                           fetch: map<string, Digest>, persistOk: bool, p: Positioned)
    requires p in Entries(decode, text)
    ensures var counts := Baselined(decode, drawn, text, lst, fetch, persistOk).counts;
            Live(Entries(decode, text), counts, p) <==> !(drawn <= text && p.offset < |drawn|)
  {
    RetireAllRefines(decode, text, map[], Boundary(drawn));
    assert p in LiveSet(Entries(decode, text), map[]);
    assert Live(Entries(decode, text), RetiredCounts(decode, text, map[], Boundary(drawn)), p)
      <==> p in LiveSet(Entries(decode, text), RetiredCounts(decode, text, map[], Boundary(drawn)));
  }

  /** A poll that sees the baseline's own listing finds nothing to do. */
  lemma {:induction false} BaselineAtRest(decode: Decoder, drawn: string, text: string, lst: Listing,
                                          fetch: map<string, Digest>, persistOk: bool, now: int)
    ensures var st := Baselined(decode, drawn, text, lst, fetch, persistOk);
            && st.files.Keys == lst.Keys && st.delivered == []
            && TrackAll(st.files, st.pending, lst, now) == map[]
  {
    var st := Baselined(decode, drawn, text, lst, fetch, persistOk);
    assert forall name :: !Differs(st.files, lst, name);
  }

  /** And a later touch of a doc whose hash the baseline knows is settled in silence; one it could not hash is
      announced unless the ledger explains it. */
  lemma {:induction false} BaselineKnowsHashes(decode: Decoder, drawn: string, text: string, lst: Listing,
                                               fetch: map<string, Digest>, persistOk: bool, name: string,
                                               p: PendingChange, o: Outcome)
    requires name in lst && !p.deleted && o.fetch.Some? && o.notifyOk
    ensures var st := Baselined(decode, drawn, text, lst, fetch, persistOk).(pending := map[name := p]);
            SettleChange(decode, st, name, o).delivered ==
              if (name in fetch && fetch[name] == o.fetch.value)
                 || LineFor(decode, o.text, st.counts, name, o.fetch.value) then []
              else [Change(name, Updated, o.fetch.value)]
  {
    hide RetiredCounts, LineFor, SettleChange;
    var st := Baselined(decode, drawn, text, lst, fetch, persistOk).(pending := map[name := p]);
    ContentTold(decode, st, name, o);
  }

  // ----- convergence -----

  datatype PollEvent = Failed(text: string) | Polled(text: string, now: int, order: seq<string>, world: World)

  /** The state a cycle leaves behind; `lst` is what every successful listing returns. */
  ghost function CycleOnce(decode: Decoder, st: State, lst: Listing, e: PollEvent): State {
    match e
    case Failed(text) => st.(boundary := Boundary(text))
    case Polled(text, now, order, world) =>
      SettleAll(decode, st.(boundary := Boundary(text), pending := TrackAll(st.files, st.pending, lst, now)),
                order, world, |order|)
  }

  ghost function Cycles(decode: Decoder, st: State, lst: Listing, events: seq<PollEvent>, n: nat): State
    requires n <= |events|
  {
    if n == 0 then st else CycleOnce(decode, Cycles(decode, st, lst, events, n - 1), lst, events[n - 1])
  }

  /** The event visits exactly the changes that are due, and fetch and notify succeed. */
  ghost predicate Healthy(st: State, lst: Listing, debounce: int, e: PollEvent) {
    e.Polled? ==>
      Enumerates(e.order, Due(TrackAll(st.files, st.pending, lst, e.now), e.now, debounce))
      && forall name :: e.world(name).fetch.Some? && e.world(name).notifyOk
  }

  /** The pending changes are exactly the differences from lst, none newer than t. */
  ghost predicate Aligned(st: State, lst: Listing, t: int) {
    forall name :: match At(st.pending, name)
                   case None => !Differs(st.files, lst, name)
                   case Some(p) => Differs(st.files, lst, name) && Sight(p.stat, p.deleted) == See(lst, name)
                                   && p.lastChange <= t
  }

  lemma {:induction false} HealthySettle(decode: Decoder, st: State, name: string, o: Outcome)
    requires name in st.pending && o.fetch.Some? && o.notifyOk
    ensures var after := SettleChange(decode, st, name, o);
            At(after.pending, name) == None
            && (if st.pending[name].deleted then FileAt(after.files, name) == None
                else FileAt(after.files, name) == Some(SnapshotEntry(st.pending[name].stat, o.fetch.value)))
  {
  }

  /** A poll at t or later, when every change already pending was aligned with lst, or at t itself. */
  ghost predicate RestsAt(st: State, lst: Listing, t: int, now: int) {
    || (Aligned(st, lst, t) && t <= now)
    || (now == t && forall name :: name in st.pending ==> st.pending[name].lastChange <= t)
  }

  lemma {:induction false} TrackedAtRest(st: State, lst: Listing, t: int, now: int, name: string)
    requires RestsAt(st, lst, t, now)
    ensures match At(TrackAll(st.files, st.pending, lst, now), name)
            case None => !Differs(st.files, lst, name)
            case Some(p) => Differs(st.files, lst, name) && Sight(p.stat, p.deleted) == See(lst, name)
                            && p.lastChange <= t
  {
    assert At(TrackAll(st.files, st.pending, lst, now), name) == TrackedAt(st.files, st.pending, lst, now, name);
    assert now == t || match At(st.pending, name)
                       case None => !Differs(st.files, lst, name)
                       case Some(p) => Sight(p.stat, p.deleted) == See(lst, name) && p.lastChange <= t;
  }

  lemma {:induction false} NameAtRest(decode: Decoder, st: State, lst: Listing, debounce: int, e: PollEvent, t: int,
                                      name: string)
    requires e.Polled? && Healthy(st, lst, debounce, e) && RestsAt(st, lst, t, e.now)
    ensures var after := CycleOnce(decode, st, lst, e);
            match At(after.pending, name)
            case None => !Differs(after.files, lst, name)
            case Some(p) => Differs(after.files, lst, name) && Sight(p.stat, p.deleted) == See(lst, name)
                            && p.lastChange <= t && e.now - t < debounce
  {
    var tracked := st.(boundary := Boundary(e.text), pending := TrackAll(st.files, st.pending, lst, e.now));
    TrackedAtRest(st, lst, t, e.now, name);
    RoundIsLocal(decode, tracked, e.order, e.world, |e.order|, name);
    assert e.order[..|e.order|] == e.order;
    var end := if name in e.order then SettleChange(decode, tracked, name, e.world(name)) else tracked;
    if name in e.order {
      HealthySettle(decode, tracked, name, e.world(name));
    }
    DiffersLocal(CycleOnce(decode, st, lst, e), end, lst, name);
  }

  lemma {:induction false} DiffersLocal(a: State, b: State, lst: Listing, name: string)
    requires SameFor(a, b, name)
    ensures Differs(a.files, lst, name) == Differs(b.files, lst, name)
  {
    assert FileAt(a.files, name) == FileAt(b.files, name);
  }

  /** A healthy poll of a board at rest: aligned afterwards, and what had been due is settled. */
  lemma {:induction false} PollAtRest(decode: Decoder, st: State, lst: Listing, debounce: int, e: PollEvent, t: int)
    requires e.Polled? && Healthy(st, lst, debounce, e) && RestsAt(st, lst, t, e.now)
    ensures Aligned(CycleOnce(decode, st, lst, e), lst, t)
    ensures e.now - t >= debounce ==> CycleOnce(decode, st, lst, e).pending == map[]
  {
    forall name {
      NameAtRest(decode, st, lst, debounce, e, t, name);
    }
    if e.now - t >= debounce {
      forall name ensures name !in CycleOnce(decode, st, lst, e).pending {
        NameAtRest(decode, st, lst, debounce, e, t, name);
      }
    }
  }

  ghost predicate AtRest(decode: Decoder, st: State, lst: Listing, debounce: int, events: seq<PollEvent>, t: int) {
    && |events| > 0 && events[0].Polled? && events[0].now == t
    && (forall name :: name in st.pending ==> st.pending[name].lastChange <= t)
    && forall i :: 0 <= i < |events| ==>
         Healthy(Cycles(decode, st, lst, events, i), lst, debounce, events[i])
         && (events[i].Polled? ==> t <= events[i].now)
  }

  lemma {:induction false} RestKeepsAligned(decode: Decoder, st: State, lst: Listing, debounce: int,
                                            events: seq<PollEvent>, t: int, n: nat)
    requires AtRest(decode, st, lst, debounce, events, t) && 0 < n <= |events|
    ensures Aligned(Cycles(decode, st, lst, events, n), lst, t)
  {
    var before := Cycles(decode, st, lst, events, n - 1);
    assert Healthy(before, lst, debounce, events[n - 1]);
    if n > 1 {
      RestKeepsAligned(decode, st, lst, debounce, events, t, n - 1);
    }
    match events[n - 1]
    case Failed(text) =>
      assert forall name :: At(Cycles(decode, st, lst, events, n).pending, name) == At(before.pending, name);
    case Polled(_, _, _, _) =>
      PollAtRest(decode, before, lst, debounce, events[n - 1], t);
  }

  lemma {:induction false} NothingDiffers(files: Files, lst: Listing)
    requires forall name :: !Differs(files, lst, name)
    ensures files.Keys == lst.Keys
    ensures forall name :: name in lst ==> files[name].stat == lst[name]
  {
    forall name ensures (name in files <==> name in lst) && (name in lst ==> files[name].stat == lst[name]) {
      assert !Differs(files, lst, name);
    }
  }

  lemma {:induction false} QuietPoll(decode: Decoder, st: State, lst: Listing, debounce: int, e: PollEvent)
    requires e.Polled? && Healthy(st, lst, debounce, e)
    requires st.pending == map[] && forall name :: !Differs(st.files, lst, name)
    ensures CycleOnce(decode, st, lst, e) == st.(boundary := Boundary(e.text))
  {
    var tracked := TrackAll(st.files, st.pending, lst, e.now);
    assert forall name :: name !in tracked;
    assert tracked == map[];
    assert Due(tracked, e.now, debounce) == {};
    if e.order != [] {
      HasMember(e.order);
    }
  }

  lemma {:induction false} HasMember(order: seq<string>)
    requires order != []
    ensures exists name :: name in order
  {
    assert order[0] in order;
  }

  /** Convergence: from any state, if every successful poll from t on sees the same listing and fetch
      and notify work, a poll at or after t + debounce leaves nothing pending and the snapshot equal to
      the listing; and one more poll of the same board notifies nothing and settles nothing. */
  lemma {:induction false} Converges(decode: Decoder, st: State, lst: Listing, debounce: int, events: seq<PollEvent>,
                                     t: int, again: PollEvent)
    requires AtRest(decode, st, lst, debounce, events, t)
    requires events[|events| - 1].Polled? && events[|events| - 1].now >= t + debounce
    requires var end := Cycles(decode, st, lst, events, |events|);
             again.Polled? && Healthy(end, lst, debounce, again)
    ensures var end := Cycles(decode, st, lst, events, |events|);
            && end.pending == map[]
            && end.files.Keys == lst.Keys
            && (forall name :: name in lst ==> end.files[name].stat == lst[name])
            && CycleOnce(decode, end, lst, again) == end.(boundary := Boundary(again.text))
  {
    hide Healthy, CycleOnce, Differs;
    var n := |events|;
    assert Healthy(Cycles(decode, st, lst, events, n - 1), lst, debounce, events[n - 1]);
    if n > 1 {
      RestKeepsAligned(decode, st, lst, debounce, events, t, n - 1);
    }
    PollAtRest(decode, Cycles(decode, st, lst, events, n - 1), lst, debounce, events[n - 1], t);
    var end := Cycles(decode, st, lst, events, n);
    forall name ensures !Differs(end.files, lst, name) {
      assert At(end.pending, name) == None;
    }
    NothingDiffers(end.files, lst);
    QuietPoll(decode, end, lst, debounce, again);
  }
}
