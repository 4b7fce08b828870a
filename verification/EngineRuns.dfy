/** Whole runs of the watcher: own writes are appended to the ledger, polls and settles happen in any
    interleaving, notify and persist may fail, and the process may crash and start again at any point.

    A log of settled changes is kept beside the state; a crash cuts it back to what was persisted. */
module EngineRuns {
  import opened Engine
  import opened EngineProperties
  import opened Ledger
  import opened Settle
  import opened SettleProperties
  import opened Wrappers

  /** One settled change: the new snapshot entry (None for a removal), the offset of the ledger line
      that explained it, and the notification that announced it. */
  datatype Record = Record(name: string, entry: Option<SnapshotEntry>, matched: Option<nat>, notice: Option<Change>)

  datatype Sys = Sys(text: string, up: bool, st: State, base: Files, log: seq<Record>, diskLog: seq<Record>)

  datatype Step =
    | Append(chunk: string)
    | Draw
    | Compare(lst: Listing, now: int)
    | SettleOne(name: string, fetch: Option<Digest>, notifyOk: bool, persistOk: bool)
    | Crash
    | Start(drawn: string, lst: Listing, hashes: map<string, Digest>, persistOk: bool)

  function OutcomeOf(text: string, step: Step): Outcome
    requires step.SettleOne?
  {
    Outcome(text, step.fetch, step.notifyOk, step.persistOk)
  }

  function Asked(st: State, name: string, fetch: Option<Digest>): string
    requires name in st.pending && (st.pending[name].deleted || fetch.Some?)
  {
    if st.pending[name].deleted then TOMBSTONE else fetch.value
  }

  /** The line that explains the settle, by its offset. */
  ghost function Matched(decode: Decoder, text: string, name: string, sha: string, counts: Counts): Option<nat> {
    var fs := FileEntries(decode, text, name);
    var m := MatchIndex(fs, counts, sha, |fs|);
    if m >= 0 then Some(fs[m].offset) else None
  }

  ghost function RecordOf(decode: Decoder, sys: Sys, step: Step, after: State): seq<Record>
    requires step.SettleOne?
  {
    var name := step.name;
    if name !in sys.st.pending || name in after.pending then []
    else if !sys.st.pending[name].deleted && step.fetch.None? then []
    else
      var notice := Notice(decode, sys.st, name, OutcomeOf(sys.text, step));
      [Record(name, FileAt(after.files, name),
              Matched(decode, sys.text, name, Asked(sys.st, name, step.fetch), sys.st.counts),
              if notice == [] then None else Some(notice[0]))]
  }

  ghost function Next(decode: Decoder, sys: Sys, step: Step): Sys {
    match step
    case Append(chunk) => if LineEnd(chunk) then sys.(text := sys.text + chunk) else sys
    case Draw => if sys.up then sys.(st := sys.st.(boundary := Boundary(sys.text))) else sys
    case Compare(lst, now) =>
      if sys.up then sys.(st := sys.st.(pending := TrackAll(sys.st.files, sys.st.pending, lst, now))) else sys
    case SettleOne(name, _, _, persistOk) =>
      if sys.up then
        var after := SettleChange(decode, sys.st, name, OutcomeOf(sys.text, step));
        var log := sys.log + RecordOf(decode, sys, step, after);
        sys.(st := after, log := log, diskLog := if |log| > |sys.log| && persistOk then log else sys.diskLog)
      else sys
    case Crash => sys.(up := false, log := sys.diskLog)
    case Start(drawn, lst, hashes, persistOk) =>
      if sys.up then sys
      else if sys.st.disk.Some? then
        var loaded := Loaded(decode, sys.st.disk.value, sys.text, persistOk);
        sys.(up := true, st := loaded.(delivered := sys.st.delivered), log := sys.diskLog)
      else
        var fresh_ := Baselined(decode, drawn, sys.text, lst, hashes, persistOk);
        sys.(up := true, st := fresh_.(delivered := sys.st.delivered), base := fresh_.files, log := [], diskLog := [])
  }

  ghost function After(decode: Decoder, sys: Sys, steps: seq<Step>, n: nat): Sys
    requires n <= |steps|
  {
    if n == 0 then sys else Next(decode, After(decode, sys, steps, n - 1), steps[n - 1])
  }

  // ----- what a log says -----

  function Apply(files: Files, r: Record): Files {
    match r.entry
    case None => files - {r.name}
    case Some(entry) => files[r.name := entry]
  }

  function Replay(base: Files, log: seq<Record>, n: nat): Files
    requires n <= |log|
  {
    if n == 0 then base else Apply(Replay(base, log, n - 1), log[n - 1])
  }

  /** The change was announced, or explained by a ledger line, or left the content as it was. */
  predicate Justified(files: Files, r: Record) {
    || (r.notice.Some? && r.notice.value.name == r.name
        && r.notice.value.sha == (if r.entry.Some? then r.entry.value.sha else ""))
    || r.matched.Some?
    || (r.entry.Some? && r.name in files && files[r.name].sha == r.entry.value.sha != "")
  }

  ghost predicate Accounts(base: Files, log: seq<Record>, files: Files) {
    && Replay(base, log, |log|) == files
    && forall i :: 0 <= i < |log| ==> Justified(Replay(base, log, i), log[i])
  }

  function ShaOf(r: Record): string {
    if r.entry.Some? then r.entry.value.sha else TOMBSTONE
  }

  /** The log's i-th record is credited to a line of the ledger that is spent by now. */
  ghost predicate CreditedTo(decode: Decoder, text: string, counts: Counts, r: Record) {
    r.matched.Some? ==>
      exists p :: p in Entries(decode, text) && p.offset == r.matched.value && Recorded(p, r.name, ShaOf(r))
                  && !Live(Entries(decode, text), counts, p)
  }

  ghost predicate Credited(decode: Decoder, text: string, counts: Counts, log: seq<Record>) {
    && (forall i :: 0 <= i < |log| ==> CreditedTo(decode, text, counts, log[i]))
    && (forall i, j :: 0 <= i < j < |log| && log[i].matched.Some? ==> log[i].matched != log[j].matched)
  }

  function Notices(log: seq<Record>, n: nat): multiset<Change>
    requires n <= |log|
  {
    if n == 0 then multiset{}
    else Notices(log, n - 1) + if log[n - 1].notice.Some? then multiset{log[n - 1].notice.value} else multiset{}
  }

  ghost predicate LogOk(decode: Decoder, sys: Sys, log: seq<Record>, files: Files, counts: Counts) {
    && Accounts(sys.base, log, files)
    && Credited(decode, sys.text, counts, log)
    && Notices(log, |log|) <= multiset(sys.st.delivered)
  }

  ghost predicate Inv(decode: Decoder, sys: Sys) {
    && LineEnd(sys.text)
    && (sys.up ==> LogOk(decode, sys, sys.log, sys.st.files, sys.st.counts))
    && (sys.st.disk.Some? ==>
          match sys.st.disk.value.consumed
          case None => sys.diskLog == [] && sys.base == sys.st.disk.value.files
          case Some(counts) => LogOk(decode, sys, sys.diskLog, sys.st.disk.value.files, counts))
  }

  // ----- single steps keep the invariant -----

  lemma {:induction false} ReplayPrefix(base: Files, log: seq<Record>, more: seq<Record>, n: nat)
    requires n <= |log|
    ensures Replay(base, log + more, n) == Replay(base, log, n)
    ensures Notices(log + more, n) == Notices(log, n)
  {
    if n > 0 {
      ReplayPrefix(base, log, more, n - 1);
    }
  }

  lemma {:induction false} AppendKeepsCredits(decode: Decoder, text: string, chunk: string, counts: Counts,
                                              log: seq<Record>)
    requires LineEnd(text) && Credited(decode, text, counts, log)
    ensures Credited(decode, text + chunk, counts, log)
  {
    forall i | 0 <= i < |log| && log[i].matched.Some? ensures CreditedTo(decode, text + chunk, counts, log[i]) {
      assert CreditedTo(decode, text, counts, log[i]);
      var p :| p in Entries(decode, text) && p.offset == log[i].matched.value && Recorded(p, log[i].name, ShaOf(log[i]))
               && !Live(Entries(decode, text), counts, p);
      assert text <= text + chunk;
      AppendKeepsLiveness(decode, text, text + chunk, counts, p);
    }
  }

  lemma {:induction false} SettleKeepsCredits(decode: Decoder, text: string, file: string, sha: string,
                                              counts: Counts, boundary: Boundary, log: seq<Record>)
    requires Credited(decode, text, counts, log)
    ensures Credited(decode, text, SettledCounts(decode, text, file, sha, counts, boundary), log)
  {
    var after := SettledCounts(decode, text, file, sha, counts, boundary);
    var es := Entries(decode, text);
    SettleOnlySpends(decode, text, file, sha, counts, boundary);
    forall i | 0 <= i < |log| && log[i].matched.Some? ensures CreditedTo(decode, text, after, log[i]) {
      assert CreditedTo(decode, text, counts, log[i]);
      var p :| p in es && p.offset == log[i].matched.value && Recorded(p, log[i].name, ShaOf(log[i]))
               && !Live(es, counts, p);
      assert p !in LiveSet(es, after);
    }
  }

  /** The line a settle matches was live before and is spent after. */
  lemma {:induction false} MatchIsSpent(decode: Decoder, text: string, file: string, sha: string, counts: Counts,
                                        boundary: Boundary)
    returns (p: Positioned)
    requires Own(decode, text, file, sha, counts)
    ensures p in Entries(decode, text) && Recorded(p, file, sha)
            && Matched(decode, text, file, sha, counts) == Some(p.offset)
    ensures Live(Entries(decode, text), counts, p)
    ensures !Live(Entries(decode, text), SettledCounts(decode, text, file, sha, counts, boundary), p)
  {
    var fs := FileEntries(decode, text, file);
    var m := MatchIndex(fs, counts, sha, |fs|);
    p := fs[m];
    VerdictIsLatestLive(decode, text, file, sha, counts);
    SpentBySettle(decode, text, file, sha, counts, boundary, p);
  }

  lemma {:induction false} SameOffsetSameLine(decode: Decoder, text: string, p: Positioned, q: Positioned)
    requires p in Entries(decode, text) && q in Entries(decode, text) && p.offset == q.offset
    ensures p == q
  {
    EntriesOrdered(decode, text);
    var es := Entries(decode, text);
    var i :| 0 <= i < |es| && es[i] == p;
    var j :| 0 <= j < |es| && es[j] == q;
  }

  /** A settle's own match is a line no earlier record was credited to. */
  lemma {:induction false} NewCreditIsNew(decode: Decoder, text: string, file: string, sha: string, counts: Counts,
                                          boundary: Boundary, log: seq<Record>, r: Record)
    requires Credited(decode, text, counts, log)
    requires r.name == file && ShaOf(r) == sha && r.matched == Matched(decode, text, file, sha, counts)
    ensures Credited(decode, text, SettledCounts(decode, text, file, sha, counts, boundary), log + [r])
  {
    var es := Entries(decode, text);
    var after := SettledCounts(decode, text, file, sha, counts, boundary);
    SettleKeepsCredits(decode, text, file, sha, counts, boundary, log);
    if r.matched.Some? {
      var p := MatchIsSpent(decode, text, file, sha, counts, boundary);
      assert CreditedTo(decode, text, after, r);
      forall i | 0 <= i < |log| ensures log[i].matched != r.matched {
        if log[i].matched == r.matched {
          assert CreditedTo(decode, text, counts, log[i]);
          var q :| q in es && q.offset == log[i].matched.value && !Live(es, counts, q);
          SameOffsetSameLine(decode, text, p, q);
        }
      }
    }
  }

  lemma {:induction false} AddRecord(base: Files, log: seq<Record>, files: Files, r: Record)
    requires Accounts(base, log, files) && Justified(files, r)
    ensures Accounts(base, log + [r], Apply(files, r))
  {
    hide Justified, Apply;
    var more := log + [r];
    ReplayPrefix(base, log, [r], |log|);
    forall i | 0 <= i < |more| ensures Justified(Replay(base, more, i), more[i]) {
      ReplayPrefix(base, log, [r], i);
      if i < |log| {
        assert more[i] == log[i];
      }
    }
    assert Replay(base, more, |more|) == Apply(Replay(base, more, |log|), r);
  }

  lemma {:induction false} AddNotice(log: seq<Record>, r: Record, delivered: seq<Change>, notice: seq<Change>)
    requires Notices(log, |log|) <= multiset(delivered)
    requires notice == if r.notice.Some? then [r.notice.value] else []
    ensures Notices(log + [r], |log| + 1) <= multiset(delivered + notice)
  {
    ReplayPrefix(map[], log, [r], |log|);
    assert multiset(delivered + notice) == multiset(delivered) + multiset(notice);
  }

  /** A settle that stays pending changes nothing but the counts; one that finishes is justified. */
  ghost predicate Explained(sys: Sys, step: Step, after: State, rs: seq<Record>)
    requires step.SettleOne?
  {
    if rs == [] then
      && after.files == sys.st.files && after.pending == sys.st.pending
      && after.delivered == sys.st.delivered && after.disk == sys.st.disk
    else
      && |rs| == 1 && rs[0].name == step.name
      && Justified(sys.st.files, rs[0]) && after.files == Apply(sys.st.files, rs[0])
      && after.delivered == sys.st.delivered + (if rs[0].notice.Some? then [rs[0].notice.value] else [])
      && after.disk == if step.persistOk then Some(Snapshot(after.files, Some(after.counts))) else sys.st.disk
  }

  lemma {:induction false} SettleRecords(decode: Decoder, sys: Sys, step: Step)
    requires step.SettleOne?
    ensures var after := SettleChange(decode, sys.st, step.name, OutcomeOf(sys.text, step));
            Explained(sys, step, after, RecordOf(decode, sys, step, after))
  {
    var name, o := step.name, OutcomeOf(sys.text, step);
    if name in sys.st.pending {
      if sys.st.pending[name].deleted {
        RemovalRecords(decode, sys, step);
      } else if step.fetch.Some? {
        ContentRecords(decode, sys, step, step.fetch.value);
      }
    }
  }

  lemma {:induction false} RemovalRecords(decode: Decoder, sys: Sys, step: Step)
    requires step.SettleOne? && step.name in sys.st.pending && sys.st.pending[step.name].deleted
    ensures var after := SettleDeletion(decode, sys.st, step.name, OutcomeOf(sys.text, step));
            Explained(sys, step, after, RecordOf(decode, sys, step, after))
  {
  }

  lemma {:induction false} ContentRecords(decode: Decoder, sys: Sys, step: Step, sum: Digest)
    requires step.SettleOne? && step.name in sys.st.pending
             && !sys.st.pending[step.name].deleted && step.fetch == Some(sum)
    ensures var after := SettleContent(decode, sys.st, step.name, sum, OutcomeOf(sys.text, step));
            Explained(sys, step, after, RecordOf(decode, sys, step, after))
  {
    hide SettledCounts;
  }

  lemma {:induction false} SettleCredits(decode: Decoder, sys: Sys, step: Step, log: seq<Record>)
    requires step.SettleOne? && Credited(decode, sys.text, sys.st.counts, log)
    ensures var after := SettleChange(decode, sys.st, step.name, OutcomeOf(sys.text, step));
            Credited(decode, sys.text, after.counts, log + RecordOf(decode, sys, step, after))
  {
    var name, st := step.name, sys.st;
    var after := SettleChange(decode, st, name, OutcomeOf(sys.text, step));
    var rs := RecordOf(decode, sys, step, after);
    if name in st.pending && (st.pending[name].deleted || step.fetch.Some?) {
      var sha := Asked(st, name, step.fetch);
      assert after.counts == SettledCounts(decode, sys.text, name, sha, st.counts, st.boundary);
      SettleKeepsCredits(decode, sys.text, name, sha, st.counts, st.boundary, log);
      if rs != [] {
        NewCreditIsNew(decode, sys.text, name, sha, st.counts, st.boundary, log, rs[0]);
        assert rs == [rs[0]];
      }
    }
    if rs == [] {
      assert log + rs == log;
    }
  }

  lemma {:induction false} ExtendAccounts(base: Files, log: seq<Record>, files: Files, rs: seq<Record>, after: Files)
    requires Accounts(base, log, files)
    requires if rs == [] then after == files else |rs| == 1 && Justified(files, rs[0]) && after == Apply(files, rs[0])
    ensures Accounts(base, log + rs, after)
  {
    if rs == [] {
      assert log + rs == log;
    } else {
      assert rs == [rs[0]];
      AddRecord(base, log, files, rs[0]);
    }
  }

  lemma {:induction false} ExtendNotices(log: seq<Record>, delivered: seq<Change>, rs: seq<Record>, after: seq<Change>)
    requires Notices(log, |log|) <= multiset(delivered)
    requires if rs == [] then after == delivered
             else |rs| == 1 && after == delivered + if rs[0].notice.Some? then [rs[0].notice.value] else []
    ensures Notices(log + rs, |log + rs|) <= multiset(after)
  {
    hide Notices;
    if rs == [] {
      assert log + rs == log;
    } else {
      assert rs == [rs[0]];
      AddNotice(log, rs[0], delivered, if rs[0].notice.Some? then [rs[0].notice.value] else []);
    }
  }

  lemma {:induction false} ExtendLog(decode: Decoder, sys: Sys, step: Step, after: State, rs: seq<Record>)
    requires step.SettleOne? && LogOk(decode, sys, sys.log, sys.st.files, sys.st.counts)
    requires Explained(sys, step, after, rs) && Credited(decode, sys.text, after.counts, sys.log + rs)
    ensures LogOk(decode, sys.(st := after), sys.log + rs, after.files, after.counts)
  {
    ExtendAccounts(sys.base, sys.log, sys.st.files, rs, after.files);
    ExtendNotices(sys.log, sys.st.delivered, rs, after.delivered);
  }

  lemma {:induction false} SettleLogOk(decode: Decoder, sys: Sys, step: Step)
    requires step.SettleOne? && LogOk(decode, sys, sys.log, sys.st.files, sys.st.counts)
    ensures var after := SettleChange(decode, sys.st, step.name, OutcomeOf(sys.text, step));
            LogOk(decode, sys.(st := after), sys.log + RecordOf(decode, sys, step, after), after.files, after.counts)
  {
    var after := SettleChange(decode, sys.st, step.name, OutcomeOf(sys.text, step));
    SettleRecords(decode, sys, step);
    SettleCredits(decode, sys, step, sys.log);
    ExtendLog(decode, sys, step, after, RecordOf(decode, sys, step, after));
  }

  lemma {:induction false} SettleDeliversMore(decode: Decoder, sys: Sys, step: Step)
    requires step.SettleOne?
    ensures multiset(sys.st.delivered)
            <= multiset(SettleChange(decode, sys.st, step.name, OutcomeOf(sys.text, step)).delivered)
  {
    var notice := Notice(decode, sys.st, step.name, OutcomeOf(sys.text, step));
    SettleDelivers(decode, sys.st, step.name, OutcomeOf(sys.text, step));
    assert multiset(sys.st.delivered + notice) == multiset(sys.st.delivered) + multiset(notice);
  }

  lemma {:induction false} SettleKeepsInv(decode: Decoder, sys: Sys, step: Step)
    requires Inv(decode, sys) && step.SettleOne? && sys.up
    ensures Inv(decode, Next(decode, sys, step))
  {
    SettleLogOk(decode, sys, step);
    SettleRecords(decode, sys, step);
    SettleDeliversMore(decode, sys, step);
  }

  lemma {:induction false} AppendKeepsInv(decode: Decoder, sys: Sys, chunk: string)
    requires Inv(decode, sys) && LineEnd(chunk)
    ensures Inv(decode, Next(decode, sys, Append(chunk)))
  {
    if sys.up {
      AppendKeepsCredits(decode, sys.text, chunk, sys.st.counts, sys.log);
    }
    if sys.st.disk.Some? && sys.st.disk.value.consumed.Some? {
      AppendKeepsCredits(decode, sys.text, chunk, sys.st.disk.value.consumed.value, sys.diskLog);
    }
  }

  lemma {:induction false} StepKeepsInv(decode: Decoder, sys: Sys, step: Step)
    requires Inv(decode, sys)
    ensures Inv(decode, Next(decode, sys, step))
  {
    match step
    case Append(chunk) => if LineEnd(chunk) { AppendKeepsInv(decode, sys, chunk); }
    case SettleOne(_, _, _, _) => if sys.up { SettleKeepsInv(decode, sys, step); }
    case Draw =>
    case Compare(_, _) =>
    case Crash =>
    case Start(_, _, _, _) =>
  }

  /** A watcher that has never run, or that finds a snapshot with or without counts. */
  ghost predicate Initial(sys: Sys) {
    && LineEnd(sys.text) && !sys.up && sys.log == [] && sys.diskLog == []
    && (sys.st.disk.Some? ==> sys.base == sys.st.disk.value.files)
  }

  lemma {:induction false} RunKeepsInv(decode: Decoder, sys: Sys, steps: seq<Step>, n: nat)
    requires Initial(sys) && n <= |steps|
    ensures Inv(decode, After(decode, sys, steps, n))
  {
    if n > 0 {
      RunKeepsInv(decode, sys, steps, n - 1);
      StepKeepsInv(decode, After(decode, sys, steps, n - 1), steps[n - 1]);
    }
  }

  // ----- main results over whole runs -----

  ghost function CreditsOf(log: seq<Record>, file: string, sha: string): set<nat> {
    set i: nat | i < |log| && log[i].matched.Some? && log[i].name == file && ShaOf(log[i]) == sha
  }

  ghost function LinesOf(decode: Decoder, text: string, file: string, sha: string): set<Positioned> {
    set p | p in Entries(decode, text) && Recorded(p, file, sha)
  }

  /** Each ledger line explains at most one settled change of the persisted history, over any run. */
  lemma {:induction false} CreditsBounded(decode: Decoder, sys: Sys, steps: seq<Step>, n: nat, file: string,
                                          sha: string)
    requires Initial(sys) && n <= |steps|
    ensures var end := After(decode, sys, steps, n);
            end.st.disk.Some? ==>
              |CreditsOf(end.diskLog, file, sha)| <= |LinesOf(decode, end.text, file, sha)|
  {
    var end := After(decode, sys, steps, n);
    RunKeepsInv(decode, sys, steps, n);
    if end.st.disk.Some? && end.st.disk.value.consumed.Some? {
      CreditsFit(decode, end.text, end.st.disk.value.consumed.value, end.diskLog, file, sha,
                 CreditsOf(end.diskLog, file, sha), LinesOf(decode, end.text, file, sha));
    }
  }

  lemma {:induction false} CreditsFit(decode: Decoder, text: string, counts: Counts, log: seq<Record>, file: string,
                                      sha: string, credits: set<nat>, lines: set<Positioned>)
    requires Credited(decode, text, counts, log)
    requires credits <= CreditsOf(log, file, sha)
    requires forall p, i :: p in LinesOf(decode, text, file, sha) && i in credits && log[i].matched == Some(p.offset)
               ==> p in lines
    ensures |credits| <= |lines|
  {
    if credits != {} {
      var i :| i in credits;
      assert CreditedTo(decode, text, counts, log[i]);
      var p :| p in Entries(decode, text) && p.offset == log[i].matched.value && Recorded(p, file, sha);
      assert p in LinesOf(decode, text, file, sha) && p in lines;
      forall q, j | q in LinesOf(decode, text, file, sha) && j in credits - {i} && log[j].matched == Some(q.offset)
        ensures q in lines - {p}
      {
        assert log[i].matched != log[j].matched;
      }
      CreditsFit(decode, text, counts, log, file, sha, credits - {i}, lines - {p});
    }
  }

  /** No change is lost: over any run with crashes and failures, the persisted snapshot is what the
      persisted log makes of the base, every change in the log was announced, or explained by a ledger
      line, or left the content as it was; and every announcement in it was delivered. */
  lemma {:induction false} NoLostChange(decode: Decoder, sys: Sys, steps: seq<Step>, n: nat)
    requires Initial(sys) && n <= |steps|
    ensures var end := After(decode, sys, steps, n);
            end.st.disk.Some? ==>
              Accounts(end.base, end.diskLog, end.st.disk.value.files)
              && Notices(end.diskLog, |end.diskLog|) <= multiset(end.st.delivered)
  {
    RunKeepsInv(decode, sys, steps, n);
  }

  /** A change settled in silence and explained by no line left the content as it was: the hash the doc had
      just before, which was known. */
  lemma {:induction false} SilentIsUnchanged(decode: Decoder, sys: Sys, steps: seq<Step>, n: nat, i: nat)
    requires Initial(sys) && n <= |steps|
    ensures var end := After(decode, sys, steps, n);
            && (end.up && i < |end.log| ==> SilentOnlyIfSame(end.base, end.log, i))
            && (end.st.disk.Some? && i < |end.diskLog| ==> SilentOnlyIfSame(end.base, end.diskLog, i))
  {
    RunKeepsInv(decode, sys, steps, n);
  }

  predicate SilentOnlyIfSame(base: Files, log: seq<Record>, i: nat)
    requires i < |log|
  {
    var r, files := log[i], Replay(base, log, i);
    r.notice.None? && r.matched.None? ==>
      r.entry.Some? && r.name in files && files[r.name].sha != "" && r.entry.value.sha == files[r.name].sha
  }

  /** The step is a settle that finishes and is persisted. */
  ghost predicate Persists(decode: Decoder, sys: Sys, step: Step) {
    && sys.up && step.SettleOne? && step.persistOk
    && RecordOf(decode, sys, step, SettleChange(decode, sys.st, step.name, OutcomeOf(sys.text, step))) != []
  }

  /** The step starts on no snapshot and so takes a new base. */
  predicate TakesBase(sys: Sys, step: Step) {
    step.Start? && !sys.up && sys.st.disk.None?
  }

  /** The step writes the snapshot to disk: a settle that finishes, or a start that seeds or takes a base. */
  ghost predicate Writes(decode: Decoder, sys: Sys, step: Step) {
    || Persists(decode, sys, step)
    || (step.Start? && !sys.up && step.persistOk && (sys.st.disk.None? || sys.st.disk.value.consumed.None?))
  }

  lemma {:induction false} BaseStep(decode: Decoder, sys: Sys, step: Step)
    ensures var after := Next(decode, sys, step);
            && (after.st.disk.Some? <==> sys.st.disk.Some? || Writes(decode, sys, step))
            && (!TakesBase(sys, step) ==> after.base == sys.base)
  {
    if step.SettleOne? {
      SettleRecords(decode, sys, step);
    }
  }

  /** There is a snapshot on disk exactly if there was one or some write has succeeded, and from then on the
      base never changes again: what is then accounted for is every change since that one base. */
  lemma {:induction false} BaseStays(decode: Decoder, sys: Sys, steps: seq<Step>, m: nat, n: nat)
    requires m <= n <= |steps|
    ensures var s, e := After(decode, sys, steps, m), After(decode, sys, steps, n);
            && (e.st.disk.Some? <==>
                s.st.disk.Some? || exists k | m <= k < n :: Writes(decode, After(decode, sys, steps, k), steps[k]))
            && (s.st.disk.Some? ==> e.base == s.base)
    decreases n - m
  {
    hide Next, Writes;
    if m < n {
      BaseStays(decode, sys, steps, m, n - 1);
      BaseStep(decode, After(decode, sys, steps, n - 1), steps[n - 1]);
    }
  }

  /** And no two of them are explained by the same line. */
  lemma {:induction false} OneChangePerLine(decode: Decoder, sys: Sys, steps: seq<Step>, n: nat, i: nat, j: nat)
    requires Initial(sys) && n <= |steps|
    requires var end := After(decode, sys, steps, n);
             end.st.disk.Some? && i < j < |end.diskLog| && end.diskLog[i].matched.Some?
    ensures After(decode, sys, steps, n).diskLog[i].matched != After(decode, sys, steps, n).diskLog[j].matched
  {
    RunKeepsInv(decode, sys, steps, n);
  }

  // ----- superseded own states -----

  /** No line of the file is live, in memory or on disk. */
  ghost predicate AllDead(decode: Decoder, sys: Sys, file: string) {
    && LineEnd(sys.text)
    && (sys.up ==> Dead(decode, sys.text, sys.st.counts, file))
    && sys.st.disk.Some? && sys.st.disk.value.consumed.Some?
    && Dead(decode, sys.text, sys.st.disk.value.consumed.value, file)
  }

  /** The step appends no line of the file. */
  ghost predicate AppendsNothingFor(decode: Decoder, text: string, step: Step, file: string) {
    step.Append? ==> forall p :: p in Entries(decode, text + step.chunk) && p.entry.file == file ==> p.offset < |text|
  }

  lemma {:induction false} AppendKeepsDead(decode: Decoder, text: string, chunk: string, counts: Counts, file: string)
    requires LineEnd(text) && Dead(decode, text, counts, file)
    requires AppendsNothingFor(decode, text, Append(chunk), file)
    ensures Dead(decode, text + chunk, counts, file)
  {
    forall p | p in Entries(decode, text + chunk) && p.entry.file == file
      ensures !Live(Entries(decode, text + chunk), counts, p) {
      assert text <= text + chunk;
      PrefixEntries(decode, text, text + chunk);
      AppendKeepsLiveness(decode, text, text + chunk, counts, p);
    }
  }

  lemma {:induction false} SettleKeepsDead(decode: Decoder, st: State, name: string, o: Outcome, file: string)
    requires Dead(decode, o.text, st.counts, file)
    ensures Dead(decode, o.text, SettleChange(decode, st, name, o).counts, file)
  {
    if name in st.pending && (st.pending[name].deleted || o.fetch.Some?) {
      var sha := Asked(st, name, o.fetch);
      SettleOnlySpends(decode, o.text, name, sha, st.counts, st.boundary);
      var es, after := Entries(decode, o.text), SettledCounts(decode, o.text, name, sha, st.counts, st.boundary);
      assert SettleChange(decode, st, name, o).counts == after;
      forall p | p in es && p.entry.file == file ensures !Live(es, after, p) {
        assert p !in LiveSet(es, after);
      }
    }
  }

  lemma {:induction false} StepKeepsDead(decode: Decoder, sys: Sys, step: Step, file: string)
    requires AllDead(decode, sys, file) && AppendsNothingFor(decode, sys.text, step, file)
    ensures AllDead(decode, Next(decode, sys, step), file)
  {
    match step
    case Append(chunk) =>
      if LineEnd(chunk) {
        AppendKeepsDead(decode, sys.text, chunk, sys.st.disk.value.consumed.value, file);
        if sys.up {
          AppendKeepsDead(decode, sys.text, chunk, sys.st.counts, file);
        }
      }
    case SettleOne(name, _, _, _) =>
      if sys.up {
        SettleKeepsDead(decode, sys.st, name, OutcomeOf(sys.text, step), file);
        SettleRecords(decode, sys, step);
      }
    case Draw =>
    case Compare(_, _) =>
    case Crash =>
    case Start(_, _, _, _) =>
  }

  /** The first n steps of the run append no line of the file. */
  ghost predicate NothingAppendedFor(decode: Decoder, sys: Sys, steps: seq<Step>, n: nat, file: string)
    requires n <= |steps|
  {
    n > 0 ==>
      NothingAppendedFor(decode, sys, steps, n - 1, file)
      && AppendsNothingFor(decode, After(decode, sys, steps, n - 1).text, steps[n - 1], file)
  }

  lemma {:induction false} LastStepKeepsDead(decode: Decoder, sys: Sys, steps: seq<Step>, n: nat, file: string)
    requires 0 < n <= |steps| && AllDead(decode, After(decode, sys, steps, n - 1), file)
    requires AppendsNothingFor(decode, After(decode, sys, steps, n - 1).text, steps[n - 1], file)
    ensures AllDead(decode, After(decode, sys, steps, n), file)
  {
    StepKeepsDead(decode, After(decode, sys, steps, n - 1), steps[n - 1], file);
  }

  lemma {:induction false} RunKeepsDead(decode: Decoder, sys: Sys, steps: seq<Step>, n: nat, file: string)
    requires AllDead(decode, sys, file) && n <= |steps|
    requires NothingAppendedFor(decode, sys, steps, n, file)
    ensures AllDead(decode, After(decode, sys, steps, n), file)
  {
    if n > 0 {
      RunKeepsDead(decode, sys, steps, n - 1, file);
      LastStepKeepsDead(decode, sys, steps, n, file);
    }
  }

  /** No line of the file is live for the counts on disk. */
  ghost predicate DiskDead(decode: Decoder, sys: Sys, file: string) {
    && sys.st.disk.Some? && sys.st.disk.value.consumed.Some?
    && Dead(decode, sys.text, sys.st.disk.value.consumed.value, file)
  }

  /** A settle that supersedes every line of its file leaves it dead in memory, and dead on disk exactly if it
      is persisted or the file was dead there already. */
  lemma {:induction false} SupersedingSettle(decode: Decoder, sys: Sys, step: Step)
    requires LineEnd(sys.text) && sys.up && step.SettleOne?
    requires RecordOf(decode, sys, step, SettleChange(decode, sys.st, step.name, OutcomeOf(sys.text, step))) != []
    requires forall p :: p in Entries(decode, sys.text) && p.entry.file == step.name ==>
               p.offset < Cut(sys.text, sys.st.boundary)
    requires var sha := Asked(sys.st, step.name, step.fetch);
             Own(decode, sys.text, step.name, sha, sys.st.counts) ==>
               exists m :: LatestLive(LiveSet(Entries(decode, sys.text), sys.st.counts), step.name, sha, m)
                           && forall p :: p in Entries(decode, sys.text) && p.entry.file == step.name ==>
                                 p.offset <= m.offset
    ensures var after := Next(decode, sys, step);
            && Dead(decode, after.text, after.st.counts, step.name)
            && (DiskDead(decode, after, step.name) <==> step.persistOk || DiskDead(decode, sys, step.name))
            && (step.persistOk ==> AllDead(decode, after, step.name))
  {
    hide Dead;
    SettleRecords(decode, sys, step);
    SettleSupersedesAll(decode, sys.text, step.name, Asked(sys.st, step.name, step.fetch),
                        sys.st.counts, sys.st.boundary);
  }

  /** Own writes of other files do not bring this one's lines back, nor take them away. */
  lemma {:induction false} AppendDeadExact(decode: Decoder, text: string, chunk: string, counts: Counts, file: string)
    requires LineEnd(text) && AppendsNothingFor(decode, text, Append(chunk), file)
    ensures Dead(decode, text + chunk, counts, file) <==> Dead(decode, text, counts, file)
  {
    assert text <= text + chunk;
    if Dead(decode, text, counts, file) {
      AppendKeepsDead(decode, text, chunk, counts, file);
    } else {
      var p :| p in Entries(decode, text) && p.entry.file == file && Live(Entries(decode, text), counts, p);
      AppendKeepsLiveness(decode, text, text + chunk, counts, p);
    }
  }

  /** While the watcher is up and its memory has the file dead, a step makes it dead on disk only by being
      persisted, and never undoes that. */
  lemma {:induction false} DiskDeadStep(decode: Decoder, sys: Sys, step: Step, file: string)
    requires LineEnd(sys.text) && sys.up && Dead(decode, sys.text, sys.st.counts, file) && !step.Crash?
    requires AppendsNothingFor(decode, sys.text, step, file)
    ensures var after := Next(decode, sys, step);
            && LineEnd(after.text) && after.up && Dead(decode, after.text, after.st.counts, file)
            && (DiskDead(decode, after, file) <==> DiskDead(decode, sys, file) || Persists(decode, sys, step))
  {
    hide Dead;
    match step
    case Append(chunk) =>
      if LineEnd(chunk) {
        AppendKeepsDead(decode, sys.text, chunk, sys.st.counts, file);
        if sys.st.disk.Some? && sys.st.disk.value.consumed.Some? {
          AppendDeadExact(decode, sys.text, chunk, sys.st.disk.value.consumed.value, file);
        }
      }
    case SettleOne(name, _, _, _) =>
      SettleKeepsDead(decode, sys.st, name, OutcomeOf(sys.text, step), file);
      SettleRecords(decode, sys, step);
    case Draw =>
    case Compare(_, _) =>
    case Crash =>
    case Start(_, _, _, _) =>
  }

  /** Until a crash a file dead in memory stays so, and it is dead on disk exactly if it was before or a settle
      has been persisted since: after a persist that failed, a crash before the next one brings it back. */
  lemma {:induction false} DeadUntilCrash(decode: Decoder, sys: Sys, steps: seq<Step>, n: nat, file: string)
    requires LineEnd(sys.text) && sys.up && Dead(decode, sys.text, sys.st.counts, file)
    requires n <= |steps| && NothingAppendedFor(decode, sys, steps, n, file)
    requires forall k | 0 <= k < n :: !steps[k].Crash?
    ensures var after := After(decode, sys, steps, n);
            && LineEnd(after.text) && after.up && Dead(decode, after.text, after.st.counts, file)
            && (DiskDead(decode, after, file) <==>
                DiskDead(decode, sys, file)
                || exists k | 0 <= k < n :: Persists(decode, After(decode, sys, steps, k), steps[k]))
  {
    hide Next, Dead, DiskDead, Persists;
    if n > 0 {
      DeadUntilCrash(decode, sys, steps, n - 1, file);
      DiskDeadStep(decode, After(decode, sys, steps, n - 1), steps[n - 1], file);
    }
  }

  /** A restart goes on from the counts on disk. */
  lemma {:induction false} RestartTakesDisk(decode: Decoder, sys: Sys, start: Step, file: string)
    requires start.Start? && sys.st.disk.Some? && sys.st.disk.value.consumed.Some?
    ensures var after := Next(decode, Next(decode, sys, Crash), start);
            after.up && (Dead(decode, after.text, after.st.counts, file) <==> DiskDead(decode, sys, file))
  {
    hide Dead;
  }

  /** Superseded own states stay dead: once they are, and with no later own write of the file on
      record, every settle of it over any run that changes its content or removes it is announced. */
  lemma {:induction false} SupersededStayDead(decode: Decoder, sys: Sys, steps: seq<Step>, n: nat, file: string)
    requires AllDead(decode, sys, file) && n < |steps|
    requires NothingAppendedFor(decode, sys, steps, n, file)
    requires steps[n].SettleOne? && steps[n].name == file && After(decode, sys, steps, n).up
    ensures var before, after := After(decode, sys, steps, n), After(decode, sys, steps, n + 1);
            after.log != before.log ==>
              var r := after.log[|before.log|];
              r.matched.None?
              && (if r.notice.Some? then after.st.delivered == before.st.delivered + [r.notice.value]
                  else r.entry.Some? && file in before.st.files
                       && before.st.files[file].sha == r.entry.value.sha != "")
  {
    var before := After(decode, sys, steps, n);
    RunKeepsDead(decode, sys, steps, n, file);
    SettleRecords(decode, before, steps[n]);
    if file in before.st.pending && (before.st.pending[file].deleted || steps[n].fetch.Some?) {
      DeadIsNotOwn(decode, before.text, before.st.counts, file, Asked(before.st, file, steps[n].fetch));
    }
  }

  // ----- cycles are runs -----

  /** The ledger after the first n chunks of own writes. */
  function Grown(text: string, chunks: seq<string>, n: nat): string
    requires n <= |chunks|
  {
    if n == 0 then text else Grown(text, chunks, n - 1) + chunks[n - 1]
  }

  /** A cycle as run steps, own writes landing before each settle. */
  function CycleSteps(lst: Listing, now: int, order: seq<string>, world: World, chunks: seq<string>, n: nat): seq<Step>
    requires n <= |order| == |chunks|
  {
    if n == 0 then [Draw, Compare(lst, now)]
    else
      var o := world(order[n - 1]);
      CycleSteps(lst, now, order, world, chunks, n - 1)
      + [Append(chunks[n - 1]), SettleOne(order[n - 1], o.fetch, o.notifyOk, o.persistOk)]
  }

  lemma {:induction false} AfterPrefix(decode: Decoder, sys: Sys, steps: seq<Step>, more: seq<Step>, n: nat)
    requires n <= |steps|
    ensures After(decode, sys, steps + more, n) == After(decode, sys, steps, n)
  {
    hide Next;
    if n > 0 {
      AfterPrefix(decode, sys, steps, more, n - 1);
    }
  }

  lemma {:induction false} AfterTwo(decode: Decoder, sys: Sys, steps: seq<Step>, a: Step, b: Step)
    ensures After(decode, sys, steps + [a, b], |steps| + 2)
         == Next(decode, Next(decode, After(decode, sys, steps, |steps|), a), b)
  {
    hide Next;
    var all := steps + [a, b];
    AfterPrefix(decode, sys, steps, [a, b], |steps|);
    assert all[|steps|] == a && all[|steps| + 1] == b;
    assert After(decode, sys, all, |steps| + 1) == Next(decode, After(decode, sys, all, |steps|), a);
  }

  lemma {:induction false} DrawThenCompare(decode: Decoder, sys: Sys, lst: Listing, now: int)
    requires sys.up
    ensures var end := Next(decode, Next(decode, sys, Draw), Compare(lst, now));
            end.up && end.text == sys.text
            && end.st == sys.st.(boundary := Boundary(sys.text),
                              pending := TrackAll(sys.st.files, sys.st.pending, lst, now))
  {
  }

  lemma {:induction false} AppendThenSettle(decode: Decoder, sys: Sys, steps: seq<Step>, chunk: string, name: string,
                                            o: Outcome)
    requires var s := After(decode, sys, steps, |steps|);
             s.up && LineEnd(chunk) && o.text == s.text + chunk
    ensures var s := After(decode, sys, steps, |steps|);
            var more := steps + [Append(chunk), SettleOne(name, o.fetch, o.notifyOk, o.persistOk)];
            var end := After(decode, sys, more, |more|);
            end.up && end.text == o.text && end.st == SettleChange(decode, s.st, name, o)
  {
    hide SettleChange;
    var step := SettleOne(name, o.fetch, o.notifyOk, o.persistOk);
    AfterTwo(decode, sys, steps, Append(chunk), step);
    assert OutcomeOf(o.text, step) == o;
  }

  ghost predicate RunsTo(decode: Decoder, sys: Sys, steps: seq<Step>, text: string, st: State) {
    var end := After(decode, sys, steps, |steps|);
    end.up && end.text == text && end.st == st
  }

  /** What one cycle of the watcher does is a run, so every result about runs is about the watcher. */
  lemma {:induction false} CycleIsRun(decode: Decoder, sys: Sys, lst: Listing, now: int, order: seq<string>,
                                      world: World, chunks: seq<string>, n: nat)
    requires sys.up && n <= |order| == |chunks|
    requires forall i :: 0 <= i < |chunks| ==>
               LineEnd(chunks[i]) && world(order[i]).text == Grown(sys.text, chunks, i + 1)
    ensures var start := sys.st.(boundary := Boundary(sys.text),
                                   pending := TrackAll(sys.st.files, sys.st.pending, lst, now));
            RunsTo(decode, sys, CycleSteps(lst, now, order, world, chunks, n), Grown(sys.text, chunks, n),
                   SettleAll(decode, start, order, world, n))
  {
    hide Next, SettleChange, TrackAll;
    if n == 0 {
      DrawThenCompare(decode, sys, lst, now);
      AfterTwo(decode, sys, [], Draw, Compare(lst, now));
      assert [] + [Draw, Compare(lst, now)] == [Draw, Compare(lst, now)];
    } else {
      CycleIsRun(decode, sys, lst, now, order, world, chunks, n - 1);
      AppendThenSettle(decode, sys, CycleSteps(lst, now, order, world, chunks, n - 1), chunks[n - 1], order[n - 1],
                       world(order[n - 1]));
    }
  }
}
