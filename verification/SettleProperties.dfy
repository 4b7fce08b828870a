/** What the count-per-line encoding of the ledger achieves, stated on sets of live lines. */
module SettleProperties {
  import opened Ledger
  import opened Settle
  import opened Wrappers

  // ----- the model: a set of live lines -----

  ghost predicate Recorded(p: Positioned, file: string, sha: string) {
    p.entry.file == file && p.entry.sha == sha
  }

  /** m is the latest live line that records (file, sha). */
  ghost predicate LatestLive(live: set<Positioned>, file: string, sha: string, m: Positioned) {
    m in live && Recorded(m, file, sha)
    && forall q :: q in live && Recorded(q, file, sha) ==> q.offset <= m.offset
  }

  /** The live lines after a settle of `file` that matched m (or nothing) under the cut. */
  ghost function Remaining(live: set<Positioned>, file: string, cut: nat, match_: Option<Positioned>): set<Positioned> {
    match match_
    case None => set p | p in live && !(p.entry.file == file && p.offset < cut)
    case Some(m) => set p | p in live
                            && !(p.entry.file == file && p.offset <= m.offset && (p.offset < cut || p.entry == m.entry))
  }

  ghost predicate Settles(before: set<Positioned>, file: string, sha: string, cut: nat, own: bool,
                          after: set<Positioned>) {
    if own then exists m :: LatestLive(before, file, sha, m) && after == Remaining(before, file, cut, Some(m))
    else (forall p :: p in before ==> !Recorded(p, file, sha)) && after == Remaining(before, file, cut, None)
  }

  // ----- refinement -----

  /** A settle of one file leaves every count that is not keyed by a line of that file alone. */
  lemma {:induction false} SettleFrame(decode: Decoder, text: string, file: string, sha: string, counts: Counts,
                                       boundary: Boundary, key: string)
    requires forall e: Entry :: e.file == file ==> Key(e) != key
    ensures CountAt(SettledCounts(decode, text, file, sha, counts, boundary), key) == CountAt(counts, key)
  {
    var fs := FileEntries(decode, text, file);
    EntriesOrdered(decode, text);
    ForMembers(Entries(decode, text), file);
    assert forall i :: 0 <= i < |fs| ==> fs[i] in fs;
    SpendFrame(fs, counts, Touched(fs, MatchIndex(fs, counts, sha, |fs|), Cut(text, boundary)), |fs|, key);
  }

  lemma {:induction false} OtherFilesKey(file: string, other: Entry)
    requires other.file != file
    ensures forall e: Entry :: e.file == file ==> Key(e) != Key(other)
  {
    forall e: Entry | e.file == file ensures Key(e) != Key(other) {
      if Key(e) == Key(other) {
        KeyInjective(e, other);
      }
    }
  }

  ghost predicate SpentWith(fs: seq<Positioned>, m: int, cut: nat, p: Positioned)
    requires -1 <= m < |fs|
  {
    (m >= 0 ==> p.offset <= fs[m].offset) && (p.offset < cut || (m >= 0 && p.entry == fs[m].entry))
  }

  lemma {:induction false} SpentWithin(fs: seq<Positioned>, counts: Counts, m: int, cut: nat, p: Positioned)
    requires Ordered(fs) && -1 <= m < |fs| && p in fs
    ensures Live(fs, Spend(fs, counts, Touched(fs, m, cut), |fs|), p)
          <==> Live(fs, counts, p) && !SpentWith(fs, m, cut, p)
  {
    var touched := Touched(fs, m, cut);
    SpendLive(fs, counts, touched, p);
    var i :| 0 <= i < |fs| && fs[i] == p;
    TouchedIndex(fs, m, cut, i);
    if m >= 0 {
      TouchedIndex(fs, m, cut, m);
    }
  }

  /** What a settle spends, line by line. */
  lemma {:induction false} SpentBySettle(decode: Decoder, text: string, file: string, sha: string, counts: Counts,
                                         boundary: Boundary, p: Positioned)
    requires p in Entries(decode, text)
    ensures var es := Entries(decode, text);
            var fs := FileEntries(decode, text, file);
            var m := MatchIndex(fs, counts, sha, |fs|);
            Live(es, SettledCounts(decode, text, file, sha, counts, boundary), p) <==>
              Live(es, counts, p) && !(p.entry.file == file && SpentWith(fs, m, Cut(text, boundary), p))
  {
    var es := Entries(decode, text);
    EntriesOrdered(decode, text);
    if p.entry.file == file {
      var fs := FileEntries(decode, text, file);
      ForMembers(es, file);
      ForLive(es, file, counts, p);
      ForLive(es, file, SettledCounts(decode, text, file, sha, counts, boundary), p);
      SpentWithin(fs, counts, MatchIndex(fs, counts, sha, |fs|), Cut(text, boundary), p);
    } else {
      OtherFilesKey(file, p.entry);
      SettleFrame(decode, text, file, sha, counts, boundary, Key(p.entry));
    }
  }

  lemma {:induction false} VerdictIsLatestLive(decode: Decoder, text: string, file: string, sha: string, counts: Counts)
    ensures var live := LiveSet(Entries(decode, text), counts);
            var fs := FileEntries(decode, text, file);
            var m := MatchIndex(fs, counts, sha, |fs|);
            if m >= 0 then LatestLive(live, file, sha, fs[m]) else forall p :: p in live ==> !Recorded(p, file, sha)
  {
    var es := Entries(decode, text);
    var fs := FileEntries(decode, text, file);
    var m := MatchIndex(fs, counts, sha, |fs|);
    EntriesOrdered(decode, text);
    ForMembers(es, file);
    forall p | p in LiveSet(es, counts) && Recorded(p, file, sha) ensures m >= 0 && p.offset <= fs[m].offset {
      ForLive(es, file, counts, p);
      var i :| 0 <= i < |fs| && fs[i] == p;
      assert i <= m;
    }
    if m >= 0 {
      ForLive(es, file, counts, fs[m]);
    }
  }

  /** The count map refines a plain set of live lines: a settle takes the latest live line of the
      settled hash, and retires what that state supersedes. */
  lemma {:induction false} SettleRefines(decode: Decoder, text: string, file: string, sha: string, counts: Counts,
                                         boundary: Boundary)
    ensures var es := Entries(decode, text);
            Settles(LiveSet(es, counts), file, sha, Cut(text, boundary),
                    Own(decode, text, file, sha, counts),
                    LiveSet(es, SettledCounts(decode, text, file, sha, counts, boundary)))
  {
    var es := Entries(decode, text);
    var before := LiveSet(es, counts);
    var after := LiveSet(es, SettledCounts(decode, text, file, sha, counts, boundary));
    var fs := FileEntries(decode, text, file);
    var m := MatchIndex(fs, counts, sha, |fs|);
    VerdictIsLatestLive(decode, text, file, sha, counts);
    forall p | p in es ensures p in after <==>
      p in before && !(p.entry.file == file && SpentWith(fs, m, Cut(text, boundary), p))
    {
      SpentBySettle(decode, text, file, sha, counts, boundary, p);
    }
    if m >= 0 {
      assert after == Remaining(before, file, Cut(text, boundary), Some(fs[m]));
    } else {
      assert after == Remaining(before, file, Cut(text, boundary), None);
    }
  }

  /** Settling never brings a spent line back. */
  lemma {:induction false} SettleOnlySpends(decode: Decoder, text: string, file: string, sha: string, counts: Counts,
                                            boundary: Boundary)
    ensures var es := Entries(decode, text);
            LiveSet(es, SettledCounts(decode, text, file, sha, counts, boundary)) <= LiveSet(es, counts)
  {
    SettleRefines(decode, text, file, sha, counts, boundary);
  }

  /** Asking an unchanged ledger again after a "not ours" gives "not ours", under any boundary,
      and under the same boundary leaves every count as it is. */
  lemma {:induction false} ReaskIsStable(decode: Decoder, text: string, file: string, sha: string, counts: Counts,
                                         boundary: Boundary)
    requires !Own(decode, text, file, sha, counts)
    ensures var after := SettledCounts(decode, text, file, sha, counts, boundary);
            !Own(decode, text, file, sha, after)
            && SettledCounts(decode, text, file, sha, after, boundary) == after
  {
    var after := SettledCounts(decode, text, file, sha, counts, boundary);
    var fs := FileEntries(decode, text, file);
    SettleOnlySpends(decode, text, file, sha, counts, boundary);
    VerdictIsLatestLive(decode, text, file, sha, counts);
    VerdictIsLatestLive(decode, text, file, sha, after);
    var touched := Touched(fs, -1, Cut(text, boundary));
    forall i | 0 <= i < |fs| && fs[i] in touched ensures Get(after, Key(fs[i].entry)) > Rank(fs, fs[i]) {
      SpendCounts(fs, counts, touched, |fs|, Key(fs[i].entry));
    }
    SpendSaturated(fs, after, touched, |fs|);
  }

  lemma {:induction false} SpendSaturated(es: seq<Positioned>, counts: Counts, touched: set<Positioned>, n: nat)
    requires n <= |es|
    requires forall i :: 0 <= i < |es| && es[i] in touched ==> Get(counts, Key(es[i].entry)) > Rank(es, es[i])
    ensures Spend(es, counts, touched, n) == counts
  {
    if n > 0 {
      SpendSaturated(es, counts, touched, n - 1);
    }
  }

  /** The baseline's retirement: exactly the lines before the cut stop being live. */
  lemma {:induction false} RetireAllRefines(decode: Decoder, text: string, counts: Counts, boundary: Boundary)
    ensures var es := Entries(decode, text);
            LiveSet(es, RetiredCounts(decode, text, counts, boundary))
              == set p | p in LiveSet(es, counts) && p.offset >= Cut(text, boundary)
  {
    var es := Entries(decode, text);
    var cut := Cut(text, boundary);
    var after := RetiredCounts(decode, text, counts, boundary);
    forall p | p in es ensures Live(es, after, p) <==> Live(es, counts, p) && p.offset >= cut {
      SpendLive(es, counts, Before(es, cut), p);
    }
  }

  /** The upgrade seed is exact: a line ends up spent iff its file's settled state is recorded at
      or after it, identical lines on both sides of that point included. */
  lemma {:induction false} SeedIsExact(decode: Decoder, text: string, settled: map<string, string>, p: Positioned)
    requires p in Entries(decode, text)
    ensures var es := Entries(decode, text);
            !Live(es, SeededCounts(decode, text, map[], settled), p) <==>
              exists q :: q in es && q.entry.file == p.entry.file && p.offset <= q.offset
                          && if q.entry.file in settled then
                               settled[q.entry.file] != "" && q.entry.sha == settled[q.entry.file]
                             else q.entry.sha == "-"
  {
    var es := Entries(decode, text);
    var touched := AccountedFor(es, settled);
    SpendLive(es, map[], touched, p);
    if q :| q in es && q in touched && q.entry == p.entry && p.offset <= q.offset {
      assert p in touched;
    }
  }

  // ----- boundaries -----

  /** Entries that start before the end of a line-terminated prefix are exactly the prefix's entries. */
  lemma {:induction false} PrefixEntries(decode: Decoder, early: string, text: string)
    requires LineEnd(early) && early <= text
    ensures Entries(decode, early) <= Entries(decode, text)
    ensures forall p :: p in Entries(decode, text) ==> (p.offset < |early| <==> p in Entries(decode, early))
  {
    var more := text[|early|..];
    assert text == early + more;
    EntriesAppend(decode, early, more);
    EntriesOrdered(decode, early);
    EntriesOrdered(decode, text, |early|);
    assert forall p :: p in Entries(decode, text) ==>
      p in Entries(decode, early) || p in Entries(decode, text, |early|);
  }

  /** Appending leaves the liveness of every line on record alone. */
  lemma {:induction false} AppendKeepsLiveness(decode: Decoder, early: string, text: string, counts: Counts,
                                               p: Positioned)
    requires LineEnd(early) && early <= text && p in Entries(decode, early)
    ensures p in Entries(decode, text)
    ensures Live(Entries(decode, text), counts, p) <==> Live(Entries(decode, early), counts, p)
  {
    PrefixEntries(decode, early, text);
    EntriesOrdered(decode, early);
    assert Entries(decode, early) <= Entries(decode, text);
    assert forall q :: q in Entries(decode, early) ==> q in Entries(decode, text);
    assert Twins(Entries(decode, text), p) == Twins(Entries(decode, early), p);
  }

  /** A settle spends no line appended after its boundary was drawn, except the match and lines
      identical to it; once the drawn bytes are gone from the front of the ledger, nothing but those. */
  lemma {:induction false} BoundarySafety(decode: Decoder, drawn: string, text: string, file: string, sha: string,
                                          counts: Counts, p: Positioned)
    requires LineEnd(drawn)
    requires p in Entries(decode, text)
    ensures var es := Entries(decode, text);
            var after := SettledCounts(decode, text, file, sha, counts, Boundary(drawn));
            Live(es, counts, p) && !Live(es, after, p) && !(drawn <= text && p in Entries(decode, drawn)) ==>
              exists m :: LatestLive(LiveSet(es, counts), file, sha, m) && p.entry == m.entry && p.offset <= m.offset
  {
    SettleRefines(decode, text, file, sha, counts, Boundary(drawn));
    if drawn <= text {
      PrefixEntries(decode, drawn, text);
    }
    var es := Entries(decode, text);
    var after := SettledCounts(decode, text, file, sha, counts, Boundary(drawn));
    assert p in LiveSet(es, counts) <==> Live(es, counts, p);
    assert p in LiveSet(es, after) <==> Live(es, after, p);
  }

  /** The same for the baseline: only lines on record when the boundary was drawn are retired. */
  lemma {:induction false} RetireAllBoundarySafety(decode: Decoder, drawn: string, text: string, counts: Counts,
                                                   p: Positioned)
    requires LineEnd(drawn)
    requires p in Entries(decode, text)
    ensures var es := Entries(decode, text);
            Live(es, RetiredCounts(decode, text, counts, Boundary(drawn)), p) <==>
              Live(es, counts, p) && !(drawn <= text && p in Entries(decode, drawn))
  {
    RetireAllRefines(decode, text, counts, Boundary(drawn));
    assert p in LiveSet(Entries(decode, text), RetiredCounts(decode, text, counts, Boundary(drawn)))
      <==> p in LiveSet(Entries(decode, text), counts) && p.offset >= Cut(text, Boundary(drawn));
    if drawn <= text {
      PrefixEntries(decode, drawn, text);
    }
  }

  /** What the Go comment claims of a boundary drawn at `drawn`: whatever is appended, the entries
      on record then are the ones before it, and the later ones start at or past it. */
  ghost predicate Separates(decode: Decoder, drawn: string) {
    forall text: string, p: Positioned ::
      drawn <= text && p in Entries(decode, text) ==> (p.offset < |drawn| <==> p in Entries(decode, drawn))
  }

  /** Where the last, unterminated line of the text starts. */
  function LastLine(text: string): (t: nat)
    ensures t <= |text| && LineEnd(text[..t]) && (t == |text| <==> LineEnd(text))
    ensures forall k | t <= k < |text| :: text[k] != '\n'
  {
    if LineEnd(text) then |text|
    else
      var t := LastLine(text[..|text| - 1]);
      assert text[..|text| - 1][..t] == text[..t];
      assert forall k | t <= k < |text| - 1 :: text[k] == text[..|text| - 1][k];
      t
  }

  function Torn(text: string): string {
    text[LastLine(text)..]
  }

  /** What may complete a line: a newline can only be at its end. */
  predicate OneLine(rest: string) {
    forall k | 0 <= k < |rest| - 1 :: rest[k] != '\n'
  }

  /** However the unterminated line is completed, it decodes to what it decodes to now, or to nothing. */
  ghost predicate Stable(decode: Decoder, torn: string) {
    forall rest | OneLine(rest) && decode(torn + rest).Some? :: decode(torn + rest) == decode(torn)
  }

  lemma {:induction false} NoStopBefore(text: string, i: nat, j: nat)
    requires i < j <= |text| && forall k | i <= k < j - 1 :: text[k] != '\n'
    ensures LineStop(text, i) >= j
    ensures forall k | i <= k < LineStop(text, i) - 1 :: text[k] != '\n'
    decreases |text| - i
  {
    if text[i] != '\n' && i + 1 < |text| {
      NoStopBefore(text, i + 1, if i + 1 < j then j else i + 2);
    }
  }

  /** Where the completed line ends. */
  lemma {:induction false} TornStop(drawn: string, text: string)
    requires !LineEnd(drawn) && drawn <= text
    ensures var t := LastLine(drawn);
            var stop := LineStop(text, t);
            |drawn| <= stop && text[t..stop] == Torn(drawn) + text[|drawn|..stop] && OneLine(text[|drawn|..stop])
  {
    hide LastLine, LineStop;
    var t := LastLine(drawn);
    var stop := LineStop(text, t);
    assert forall k | t <= k < |drawn| :: text[k] == drawn[k];
    NoStopBefore(text, t, |drawn|);
    assert text[t..stop] == text[t..|drawn|] + text[|drawn|..stop] && text[t..|drawn|] == Torn(drawn);
  }

  /** The entries of a text that starts with an unterminated ledger: those of its whole lines, that of the
      completed line, and those behind it. */
  lemma {:induction false} TornEntries(decode: Decoder, drawn: string, text: string)
    requires !LineEnd(drawn) && drawn <= text
    ensures var t := LastLine(drawn);
            var stop := LineStop(text, t);
            Entries(decode, text)
               == Entries(decode, drawn[..t]) + Decoded(decode, text[t..stop], t) + Entries(decode, text, stop)
  {
    hide LastLine, LineStop, Decoded;
    var t := LastLine(drawn);
    assert text[..t] == drawn[..t] && text == drawn[..t] + text[t..];
    EntriesAppend(decode, drawn[..t], text[t..]);
  }

  lemma {:induction false} TornAlone(decode: Decoder, drawn: string)
    requires !LineEnd(drawn)
    ensures Entries(decode, drawn)
         == Entries(decode, drawn[..LastLine(drawn)]) + Decoded(decode, Torn(drawn), LastLine(drawn))
  {
    hide LastLine;
    TornEntries(decode, drawn, drawn);
    TornStop(drawn, drawn);
    assert Entries(decode, drawn, |drawn|) == [] && drawn[LastLine(drawn)..|drawn|] == Torn(drawn);
  }

  /** The completed line is on record as it stands exactly if it decodes to what it decoded to. */
  lemma {:induction false} TornOnRecord(decode: Decoder, drawn: string, e: Entry)
    requires !LineEnd(drawn)
    ensures Positioned(e, LastLine(drawn)) in Entries(decode, drawn) <==> decode(Torn(drawn)) == Some(e)
  {
    TornAlone(decode, drawn);
    EntriesOrdered(decode, drawn[..LastLine(drawn)]);
  }

  /** For one decoder, the comment's claim holds exactly if the ledger ends at a line end or nothing can
      complete its last line to an entry it does not already hold. */
  lemma {:induction false} BoundaryClaimFor(decode: Decoder, drawn: string)
    ensures Separates(decode, drawn) <==> LineEnd(drawn) || Stable(decode, Torn(drawn))
  {
    if LineEnd(drawn) {
      forall text: string, p: Positioned | drawn <= text && p in Entries(decode, text)
        ensures p.offset < |drawn| <==> p in Entries(decode, drawn)
      {
        PrefixEntries(decode, drawn, text);
      }
    } else if Stable(decode, Torn(drawn)) {
      forall text: string, p: Positioned | drawn <= text && p in Entries(decode, text)
        ensures p.offset < |drawn| <==> p in Entries(decode, drawn)
      {
        StableSeparates(decode, drawn, text, p);
      }
    } else {
      var rest :| OneLine(rest) && decode(Torn(drawn) + rest).Some?
               && decode(Torn(drawn) + rest) != decode(Torn(drawn));
      CompletionBreaks(decode, drawn, rest);
    }
  }

  lemma {:induction false} StableSeparates(decode: Decoder, drawn: string, text: string, p: Positioned)
    requires !LineEnd(drawn) && Stable(decode, Torn(drawn)) && drawn <= text && p in Entries(decode, text)
    ensures p.offset < |drawn| <==> p in Entries(decode, drawn)
  {
    hide Entries, LastLine, LineStop, Torn;
    var t := LastLine(drawn);
    var stop := LineStop(text, t);
    TornEntries(decode, drawn, text);
    TornStop(drawn, text);
    TornAlone(decode, drawn);
    EntriesOrdered(decode, drawn);
    EntriesOrdered(decode, text, stop);
    if p in Decoded(decode, text[t..stop], t) {
      assert decode(Torn(drawn) + text[|drawn|..stop]) == Some(p.entry);
      TornOnRecord(decode, drawn, p.entry);
    }
  }

  lemma {:induction false} CompletionBreaks(decode: Decoder, drawn: string, rest: string)
    requires !LineEnd(drawn) && OneLine(rest)
    requires decode(Torn(drawn) + rest).Some? && decode(Torn(drawn) + rest) != decode(Torn(drawn))
    ensures !Separates(decode, drawn)
  {
    hide Entries, LastLine, LineStop;
    var text, t := drawn + rest, LastLine(drawn);
    var e := decode(Torn(drawn) + rest).value;
    CompletedStop(drawn, rest);
    TornEntries(decode, drawn, text);
    assert text[t..|text|] == Torn(drawn) + rest;
    assert Positioned(e, t) in Decoded(decode, text[t..|text|], t);
    TornOnRecord(decode, drawn, e);
    assert drawn <= text;
  }

  lemma {:induction false} CompletedStop(drawn: string, rest: string)
    requires !LineEnd(drawn) && OneLine(rest)
    ensures var text, t := drawn + rest, LastLine(drawn);
            LineStop(text, t) == |text| && text[t..] == Torn(drawn) + rest
  {
    hide LastLine, LineStop;
    var text, t := drawn + rest, LastLine(drawn);
    assert forall k | t <= k < |text| - 1 :: text[k] == if k < |drawn| then drawn[k] else rest[k - |drawn|];
    NoStopBefore(text, t, |text|);
  }

  ghost function WholeLines(): Decoder {
    raw => if raw != "" && raw[|raw| - 1] == '\n' then Some(Entry("", "", "")) else None
  }

  /** It holds for every decoder exactly if the ledger ends at a line end. */
  lemma {:induction false} BoundaryClaimExact(drawn: string)
    ensures (forall decode: Decoder :: Separates(decode, drawn)) <==> LineEnd(drawn)
  {
    if LineEnd(drawn) {
      forall decode: Decoder ensures Separates(decode, drawn) {
        BoundaryClaimFor(decode, drawn);
      }
    } else {
      var torn := Torn(drawn);
      assert torn[|torn| - 1] == drawn[|drawn| - 1];
      assert OneLine("\n") && WholeLines()(torn + "\n").Some? && WholeLines()(torn).None?;
      CompletionBreaks(WholeLines(), drawn, "\n");
    }
  }

  // ----- superseded states -----

  ghost predicate Dead(decode: Decoder, text: string, counts: Counts, file: string) {
    forall p :: p in Entries(decode, text) && p.entry.file == file ==> !Live(Entries(decode, text), counts, p)
  }

  /** A settle under a boundary that covers all lines of the file, and that matched its last line
      or nothing, leaves no line of the file live. */
  lemma {:induction false} SettleSupersedesAll(decode: Decoder, text: string, file: string, sha: string,
                                               counts: Counts, boundary: Boundary)
    requires forall p :: p in Entries(decode, text) && p.entry.file == file ==> p.offset < Cut(text, boundary)
    requires Own(decode, text, file, sha, counts) ==>
               exists m :: LatestLive(LiveSet(Entries(decode, text), counts), file, sha, m)
                           && forall p :: p in Entries(decode, text) && p.entry.file == file ==> p.offset <= m.offset
    ensures Dead(decode, text, SettledCounts(decode, text, file, sha, counts, boundary), file)
  {
    var es := Entries(decode, text);
    var before := LiveSet(es, counts);
    var after := SettledCounts(decode, text, file, sha, counts, boundary);
    var cut := Cut(text, boundary);
    SettleRefines(decode, text, file, sha, counts, boundary);
    forall p | p in es && p.entry.file == file ensures p !in LiveSet(es, after) {
      if Own(decode, text, file, sha, counts) {
        var last :| LatestLive(before, file, sha, last)
                 && forall q :: q in es && q.entry.file == file ==> q.offset <= last.offset;
        var m :| LatestLive(before, file, sha, m) && LiveSet(es, after) == Remaining(before, file, cut, Some(m));
        assert last.offset <= m.offset;
      }
    }
  }

  lemma {:induction false} DeadIsNotOwn(decode: Decoder, text: string, counts: Counts, file: string, sha: string)
    requires Dead(decode, text, counts, file)
    ensures !Own(decode, text, file, sha, counts)
  {
    VerdictIsLatestLive(decode, text, file, sha, counts);
  }
}
