/** What becomes of single lines of the ledger over a run of the watcher: until which settle they are live,
    and that an own write landing after the board was read stays live until its own state settles. */
module OwnWrites {
  import opened Engine
  import opened EngineRuns
  import opened Finite
  import opened Ledger
  import opened Settle
  import opened SettleProperties
  import opened Wrappers

  // ----- what one step does to a line -----

  /** The step asks the ledger about its doc. */
  predicate Asks(sys: Sys, step: Step) {
    && sys.up && step.SettleOne? && step.name in sys.st.pending
    && (sys.st.pending[step.name].deleted || step.fetch.Some?)
  }

  /** The line the step's settle matches. */
  ghost predicate Matches(decode: Decoder, sys: Sys, step: Step, m: Positioned)
    requires Asks(sys, step)
  {
    LatestLive(LiveSet(Entries(decode, sys.text), sys.st.counts), step.name, Asked(sys.st, step.name, step.fetch), m)
  }

  /** The step settles p's own state: its match is p, or an identical line behind it. */
  ghost predicate SettlesOwn(decode: Decoder, sys: Sys, step: Step, p: Positioned) {
    Asks(sys, step) && exists m :: Matches(decode, sys, step, m) && m.entry == p.entry && p.offset <= m.offset
  }

  /** The step settles a state newer than p: p lies before the boundary and no line before p is matched. */
  ghost predicate Supersedes(decode: Decoder, sys: Sys, step: Step, p: Positioned) {
    && Asks(sys, step) && step.name == p.entry.file && p.offset < Cut(sys.text, sys.st.boundary)
    && forall m :: Matches(decode, sys, step, m) ==> p.offset <= m.offset
  }

  ghost predicate LiveIn(decode: Decoder, sys: Sys, p: Positioned) {
    Live(Entries(decode, sys.text), sys.st.counts, p)
  }

  lemma {:induction false} SettleExact(decode: Decoder, sys: Sys, step: Step, p: Positioned)
    requires Asks(sys, step) && p in Entries(decode, sys.text)
    ensures Live(Entries(decode, sys.text),
                 SettledCounts(decode, sys.text, step.name, Asked(sys.st, step.name, step.fetch), sys.st.counts,
                               sys.st.boundary), p)
            <==> LiveIn(decode, sys, p) && !SettlesOwn(decode, sys, step, p) && !Supersedes(decode, sys, step, p)
  {
    hide Live, SettledCounts, Cut;
    var text, file, sha, counts := sys.text, step.name, Asked(sys.st, step.name, step.fetch), sys.st.counts;
    var fs := FileEntries(decode, text, file);
    var m := MatchIndex(fs, counts, sha, |fs|);
    SpentBySettle(decode, text, file, sha, counts, sys.st.boundary, p);
    VerdictIsLatestLive(decode, text, file, sha, counts);
    if m >= 0 {
      assert Matches(decode, sys, step, fs[m]);
      forall q | Matches(decode, sys, step, q) ensures q == fs[m] {
        SameOffsetSameLine(decode, text, q, fs[m]);
      }
    }
  }

  /** While the watcher is up, a line stops being live exactly when a step settles its own state or one that
      supersedes it. */
  lemma {:induction false} LiveStep(decode: Decoder, sys: Sys, step: Step, p: Positioned)
    requires LineEnd(sys.text) && sys.up && !step.Crash? && p in Entries(decode, sys.text)
    ensures var after := Next(decode, sys, step);
            && LineEnd(after.text) && after.up && p in Entries(decode, after.text)
            && (LiveIn(decode, after, p) <==>
                LiveIn(decode, sys, p) && !SettlesOwn(decode, sys, step, p) && !Supersedes(decode, sys, step, p))
  {
    hide Live, SettledCounts, SettlesOwn, Supersedes;
    if step.Append? && LineEnd(step.chunk) {
      AppendKeepsLiveness(decode, sys.text, sys.text + step.chunk, sys.st.counts, p);
    }
    if Asks(sys, step) {
      SettleExact(decode, sys, step, p);
    } else {
      NothingAsked(decode, sys, step, p);
    }
  }

  lemma {:induction false} NothingAsked(decode: Decoder, sys: Sys, step: Step, p: Positioned)
    requires !Asks(sys, step)
    ensures !SettlesOwn(decode, sys, step, p) && !Supersedes(decode, sys, step, p)
  {
  }

  // ----- a line on record -----

  /** Steps m up to n hold no crash. */
  predicate NoCrash(steps: seq<Step>, m: nat, n: nat)
    requires m <= n <= |steps|
  {
    forall k | m <= k < n :: !steps[k].Crash?
  }

  /** Until a crash, a line is live exactly as long as no step has settled its own state or a newer one. */
  lemma {:induction false} LiveExact(decode: Decoder, sys: Sys, steps: seq<Step>, m: nat, n: nat, p: Positioned)
    requires m <= n <= |steps| && NoCrash(steps, m, n)
    requires var s := After(decode, sys, steps, m);
             LineEnd(s.text) && s.up && p in Entries(decode, s.text)
    ensures var s := After(decode, sys, steps, n);
            && LineEnd(s.text) && s.up && p in Entries(decode, s.text)
            && (LiveIn(decode, s, p) <==>
                && LiveIn(decode, After(decode, sys, steps, m), p)
                && forall k | m <= k < n :: !SettlesOwn(decode, After(decode, sys, steps, k), steps[k], p)
                                            && !Supersedes(decode, After(decode, sys, steps, k), steps[k], p))
    decreases n - m
  {
    hide Next, LiveIn, SettlesOwn, Supersedes;
    if m < n {
      LiveExact(decode, sys, steps, m, n - 1, p);
      LiveStep(decode, After(decode, sys, steps, n - 1), steps[n - 1], p);
    }
  }

  // ----- a line that lands is live -----

  ghost function Copies(es: seq<Positioned>, e: Entry): set<Positioned> {
    set q | q in es && q.entry == e
  }

  /** No line content has been spent more often than the ledger has it. */
  ghost predicate Fits(decode: Decoder, text: string, counts: Counts) {
    forall e: Entry :: Get(counts, Key(e)) <= |Copies(Entries(decode, text), e)|
  }

  lemma {:induction false} TwinsAreCopies(es: seq<Positioned>, among: seq<Positioned>, p: Positioned, e: Entry)
    requires p in among && p.entry == e && forall q :: q in among ==> q in es
    ensures Rank(among, p) + 1 <= |Copies(es, e)|
  {
    var twins := Twins(among, p);
    assert p in Copies(es, e) && p !in twins;
    SubsetSize(twins + {p}, Copies(es, e));
  }

  lemma {:induction false} SpendFits(es: seq<Positioned>, among: seq<Positioned>, counts: Counts,
                                     touched: set<Positioned>, e: Entry)
    requires Get(counts, Key(e)) <= |Copies(es, e)| && forall q :: q in among ==> q in es
    ensures Get(Spend(among, counts, touched, |among|), Key(e)) <= |Copies(es, e)|
  {
    hide Spend;
    var after := Spend(among, counts, touched, |among|);
    SpendCounts(among, counts, touched, |among|, Key(e));
    if Get(after, Key(e)) > Get(counts, Key(e)) {
      var i :| 0 <= i < |among| && Key(among[i].entry) == Key(e) && Get(after, Key(e)) == Rank(among, among[i]) + 1;
      KeyInjective(among[i].entry, e);
      assert among[i] in es;
      TwinsAreCopies(es, among, among[i], e);
    }
  }

  lemma {:induction false} SettleFits(decode: Decoder, text: string, file: string, sha: string, counts: Counts,
                                      boundary: Boundary)
    requires Fits(decode, text, counts)
    ensures Fits(decode, text, SettledCounts(decode, text, file, sha, counts, boundary))
  {
    hide Spend, Copies;
    var es, fs := Entries(decode, text), FileEntries(decode, text, file);
    var m := MatchIndex(fs, counts, sha, |fs|);
    EntriesOrdered(decode, text);
    ForMembers(es, file);
    forall e: Entry
      ensures Get(SettledCounts(decode, text, file, sha, counts, boundary), Key(e)) <= |Copies(es, e)|
    {
      SpendFits(es, fs, counts, Touched(fs, m, Cut(text, boundary)), e);
    }
  }

  lemma {:induction false} FreshFits(decode: Decoder, text: string, touched: set<Positioned>)
    ensures Fits(decode, text, Spend(Entries(decode, text), map[], touched, |Entries(decode, text)|))
  {
    hide Spend;
    var es := Entries(decode, text);
    forall e: Entry ensures Get(Spend(es, map[], touched, |es|), Key(e)) <= |Copies(es, e)| {
      SpendFits(es, es, map[], touched, e);
    }
  }

  lemma {:induction false} AppendFits(decode: Decoder, text: string, chunk: string, counts: Counts)
    requires LineEnd(text) && Fits(decode, text, counts)
    ensures Fits(decode, text + chunk, counts)
  {
    EntriesAppend(decode, text, chunk);
    forall e: Entry ensures Get(counts, Key(e)) <= |Copies(Entries(decode, text + chunk), e)| {
      SubsetSize(Copies(Entries(decode, text), e), Copies(Entries(decode, text + chunk), e));
    }
  }

  lemma {:induction false} LandsLive(decode: Decoder, text: string, chunk: string, counts: Counts, p: Positioned)
    requires LineEnd(text) && Fits(decode, text, counts)
    requires p in Entries(decode, text + chunk) && p.offset >= |text|
    ensures Live(Entries(decode, text + chunk), counts, p)
  {
    assert text <= text + chunk;
    PrefixEntries(decode, text, text + chunk);
    EntriesOrdered(decode, text);
    SubsetSize(Copies(Entries(decode, text), p.entry), Twins(Entries(decode, text + chunk), p));
  }

  /** The counts in memory and on disk fit the ledger. */
  ghost predicate AllFit(decode: Decoder, sys: Sys) {
    && LineEnd(sys.text)
    && (sys.up ==> Fits(decode, sys.text, sys.st.counts))
    && (sys.st.disk.Some? && sys.st.disk.value.consumed.Some? ==>
          Fits(decode, sys.text, sys.st.disk.value.consumed.value))
  }

  lemma {:induction false} StepFits(decode: Decoder, sys: Sys, step: Step)
    requires AllFit(decode, sys)
    ensures AllFit(decode, Next(decode, sys, step))
  {
    hide Fits, Spend;
    match step
    case Append(chunk) =>
      if LineEnd(chunk) {
        if sys.up {
          AppendFits(decode, sys.text, chunk, sys.st.counts);
        }
        if sys.st.disk.Some? && sys.st.disk.value.consumed.Some? {
          AppendFits(decode, sys.text, chunk, sys.st.disk.value.consumed.value);
        }
      }
    case SettleOne(name, fetch, _, _) =>
      if Asks(sys, step) {
        SettleFits(decode, sys.text, name, Asked(sys.st, name, fetch), sys.st.counts, sys.st.boundary);
        SettleRecords(decode, sys, step);
      }
    case Start(drawn, _, _, _) =>
      if sys.st.disk.Some? {
        FreshFits(decode, sys.text, AccountedFor(Entries(decode, sys.text), Hashes(sys.st.disk.value.files)));
      } else {
        FreshFits(decode, sys.text, Before(Entries(decode, sys.text), Cut(sys.text, Boundary(drawn))));
      }
    case Draw =>
    case Compare(_, _) =>
    case Crash =>
  }

  lemma {:induction false} RunFits(decode: Decoder, sys: Sys, steps: seq<Step>, n: nat)
    requires n <= |steps| && AllFit(decode, sys)
    ensures AllFit(decode, After(decode, sys, steps, n))
  {
    hide Next, AllFit;
    if n > 0 {
      RunFits(decode, sys, steps, n - 1);
      StepFits(decode, After(decode, sys, steps, n - 1), steps[n - 1]);
    }
  }

  // ----- an own write after the board was read -----

  /** Steps m up to n belong to one cycle: no boundary is drawn and nothing crashes. */
  predicate OneCycle(steps: seq<Step>, m: nat, n: nat)
    requires m <= n <= |steps|
  {
    forall k | m <= k < n :: !steps[k].Draw? && !steps[k].Crash?
  }

  lemma {:induction false} CycleKeepsBoundary(decode: Decoder, sys: Sys, steps: seq<Step>, m: nat, n: nat)
    requires m <= n <= |steps| && OneCycle(steps, m, n)
    requires var s := After(decode, sys, steps, m);
             LineEnd(s.text) && s.up
    ensures var s, e := After(decode, sys, steps, m), After(decode, sys, steps, n);
            LineEnd(e.text) && e.up && e.st.boundary == s.st.boundary && s.text <= e.text
    decreases n - m
  {
    if m < n {
      CycleKeepsBoundary(decode, sys, steps, m, n - 1);
      BoundaryStays(decode, After(decode, sys, steps, n - 1), steps[n - 1]);
    }
  }

  lemma {:induction false} BoundaryStays(decode: Decoder, sys: Sys, step: Step)
    requires LineEnd(sys.text) && sys.up && !step.Draw? && !step.Crash?
    ensures var after := Next(decode, sys, step);
            && LineEnd(after.text) && after.up && after.st.boundary == sys.st.boundary && sys.text <= after.text
            && (after.text != sys.text ==> step.Append? && after.text == sys.text + step.chunk && after.st == sys.st)
  {
    hide SettledCounts;
  }

  /** No step before the one it lands with settles a line. */
  lemma {:induction false} NotSettledYet(decode: Decoder, sys: Sys, steps: seq<Step>, m: nat, n: nat, p: Positioned)
    requires m <= n < |steps| && OneCycle(steps, m, n + 1)
    requires var s := After(decode, sys, steps, m);
             LineEnd(s.text) && s.up
    requires p.offset >= |After(decode, sys, steps, n).text|
    ensures forall k | m <= k <= n :: !SettlesOwn(decode, After(decode, sys, steps, k), steps[k], p)
  {
    hide Next, SettlesOwn, LineEnd;
    forall k | m <= k <= n ensures !SettlesOwn(decode, After(decode, sys, steps, k), steps[k], p) {
      CycleKeepsBoundary(decode, sys, steps, m, k);
      CycleKeepsBoundary(decode, sys, steps, k, n);
      SettlesOnRecord(decode, After(decode, sys, steps, k), steps[k], p);
    }
  }

  lemma {:induction false} SettlesOnRecord(decode: Decoder, sys: Sys, step: Step, p: Positioned)
    requires p.offset >= |sys.text|
    ensures !SettlesOwn(decode, sys, step, p)
  {
    EntriesOrdered(decode, sys.text);
  }

  lemma {:induction false} NotSuperseded(decode: Decoder, sys: Sys, step: Step, p: Positioned)
    requires p.offset >= |sys.st.boundary.prefix|
    ensures !Supersedes(decode, sys, step, p)
  {
  }

  lemma {:induction false} LandsNow(decode: Decoder, sys: Sys, step: Step, p: Positioned)
    requires AllFit(decode, sys) && sys.up && !step.Draw? && !step.Crash?
    requires p !in Entries(decode, sys.text) && p in Entries(decode, Next(decode, sys, step).text)
    ensures p.offset >= |sys.text| && LiveIn(decode, Next(decode, sys, step), p)
  {
    hide Next;
    BoundaryStays(decode, sys, step);
    PrefixEntries(decode, sys.text, Next(decode, sys, step).text);
    LandsLive(decode, sys.text, step.chunk, sys.st.counts, p);
  }

  /** A line past the boundary lands live, and then only a settle of its own state spends it. */
  lemma {:induction false} LateStep(decode: Decoder, sys: Sys, step: Step, p: Positioned)
    requires AllFit(decode, sys) && sys.up && !step.Draw? && !step.Crash?
    requires p.offset >= |sys.st.boundary.prefix| && p in Entries(decode, Next(decode, sys, step).text)
    ensures if p in Entries(decode, sys.text) then
              LiveIn(decode, Next(decode, sys, step), p) <==>
                LiveIn(decode, sys, p) && !SettlesOwn(decode, sys, step, p)
            else p.offset >= |sys.text| && LiveIn(decode, Next(decode, sys, step), p)
  {
    hide Next, LiveIn, SettlesOwn, Supersedes, Fits;
    if p in Entries(decode, sys.text) {
      NotSuperseded(decode, sys, step, p);
      LiveStep(decode, sys, step, p);
    } else {
      LandsNow(decode, sys, step, p);
    }
  }

  /** An own write that lands after the boundary was drawn is live until a settle of its own state, and
      until nothing else: neither a settle of any other state of its file nor a failed notification or
      persist spends it within the cycle. */
  lemma {:induction false} LateWriteSurvives(decode: Decoder, sys: Sys, steps: seq<Step>, m: nat, n: nat,
                                             p: Positioned)
    requires AllFit(decode, sys) && 0 < m <= n <= |steps| && OneCycle(steps, m, n)
    requires steps[m - 1].Draw? && After(decode, sys, steps, m).up
    requires p in Entries(decode, After(decode, sys, steps, n).text)
    requires p.offset >= |After(decode, sys, steps, m).text|
    ensures LiveIn(decode, After(decode, sys, steps, n), p) <==>
              forall k | m <= k < n :: !SettlesOwn(decode, After(decode, sys, steps, k), steps[k], p)
    decreases n
  {
    hide Next, After, LiveIn, SettlesOwn, AllFit, LineEnd, Entries;
    Drawn(decode, sys, steps, m);
    if m < n {
      var before := After(decode, sys, steps, n - 1);
      CycleKeepsBoundary(decode, sys, steps, m, n - 1);
      RunFits(decode, sys, steps, n - 1);
      LastStep(decode, sys, steps, n);
      LateStep(decode, before, steps[n - 1], p);
      if p in Entries(decode, before.text) {
        LateWriteSurvives(decode, sys, steps, m, n - 1, p);
      } else {
        NotSettledYet(decode, sys, steps, m, n - 1, p);
      }
    } else {
      EntriesOrdered(decode, After(decode, sys, steps, m).text);
    }
  }

  lemma {:induction false} LastStep(decode: Decoder, sys: Sys, steps: seq<Step>, n: nat)
    requires 0 < n <= |steps|
    ensures After(decode, sys, steps, n) == Next(decode, After(decode, sys, steps, n - 1), steps[n - 1])
  {
  }

  lemma {:induction false} Drawn(decode: Decoder, sys: Sys, steps: seq<Step>, m: nat)
    requires AllFit(decode, sys) && 0 < m <= |steps| && steps[m - 1].Draw? && After(decode, sys, steps, m).up
    ensures var s := After(decode, sys, steps, m);
            LineEnd(s.text) && s.st.boundary == Boundary(s.text)
  {
    RunFits(decode, sys, steps, m);
  }
}
