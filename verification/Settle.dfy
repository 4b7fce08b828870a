/** Settling against the ledger: the three operations that spend entries, and what they mean in
    terms of single live lines instead of counts per key. */
module Settle {
  import opened Ledger
  import opened Wrappers

  /** The retirement line: the ledger's text when it was drawn. */
  datatype Boundary = Boundary(prefix: string)

  /** The boundary's offset, or 0 when the ledger no longer starts with its bytes. */
  function Cut(text: string, boundary: Boundary): (cut: nat)
  {
    if boundary.prefix <= text then |boundary.prefix| else 0
  }

  // ----- specification on counts -----

  /** Greatest index below n of a live entry recording sha, or -1. */
  ghost function MatchIndex(es: seq<Positioned>, counts: Counts, sha: string, n: nat): (m: int)
    requires n <= |es|
    ensures -1 <= m < n
    ensures m >= 0 ==> es[m].entry.sha == sha && Live(es, counts, es[m])
    ensures forall i :: m < i < n ==> !(es[i].entry.sha == sha && Live(es, counts, es[i]))
  {
    if n == 0 then -1
    else if es[n - 1].entry.sha == sha && Live(es, counts, es[n - 1]) then n - 1
    else MatchIndex(es, counts, sha, n - 1)
  }

  ghost function Cutoff(es: seq<Positioned>, m: int): nat
    requires -1 <= m < |es|
  {
    if m >= 0 then m + 1 else |es|
  }

  ghost function Touched(es: seq<Positioned>, m: int, cut: nat): set<Positioned>
    requires -1 <= m < |es|
  {
    set i | 0 <= i < Cutoff(es, m) && (i == m || es[i].offset < cut) :: es[i]
  }

  ghost function FileEntries(decode: Decoder, text: string, file: string): seq<Positioned> {
    For(Entries(decode, text), file)
  }

  ghost predicate Own(decode: Decoder, text: string, file: string, sha: string, counts: Counts) {
    var es := FileEntries(decode, text, file);
    MatchIndex(es, counts, sha, |es|) >= 0
  }

  ghost function SettledCounts(decode: Decoder, text: string, file: string, sha: string,
                               counts: Counts, boundary: Boundary): Counts {
    var es := FileEntries(decode, text, file);
    var m := MatchIndex(es, counts, sha, |es|);
    Spend(es, counts, Touched(es, m, Cut(text, boundary)), |es|)
  }

  ghost function Before(es: seq<Positioned>, cut: nat): set<Positioned> {
    set p | p in es && p.offset < cut
  }

  ghost function RetiredCounts(decode: Decoder, text: string, counts: Counts, boundary: Boundary): Counts {
    var es := Entries(decode, text);
    Spend(es, counts, Before(es, Cut(text, boundary)), |es|)
  }

  /** e records the settled state of its file: `settled` holds the files present and their hashes. */
  predicate RecordsSettled(settled: map<string, string>, e: Entry) {
    if e.file in settled then settled[e.file] != "" && e.sha == settled[e.file] else e.sha == TOMBSTONE
  }

  ghost function AccountedFor(es: seq<Positioned>, settled: map<string, string>): set<Positioned> {
    set p | p in es && exists q :: q in es && q.entry.file == p.entry.file && p.offset <= q.offset
                                   && RecordsSettled(settled, q.entry)
  }

  ghost function SeededCounts(decode: Decoder, text: string, counts: Counts, settled: map<string, string>): Counts {
    var es := Entries(decode, text);
    Spend(es, counts, AccountedFor(es, settled), |es|)
  }

  // ----- the operations -----

  /** The count map a snapshot holds, updated in place by the ledger. */
  class Consumed {
    var counts: Counts

    constructor (counts: Counts)
      ensures this.counts == counts
    {
      this.counts := counts;
    }
  }

  lemma {:induction false} ScanStep(decode: Decoder, text: string, i: nat, es: seq<Positioned>, rest: seq<Positioned>)
    requires i < |text| && rest == Entries(decode, text, i)
    ensures var stop := LineStop(text, i);
            match decode(text[i..stop])
            case Some(e) => es + rest == (es + [Positioned(e, i)]) + Entries(decode, text, stop)
            case None => es + rest == es + Entries(decode, text, stop)
  {
  }

  method Scan(decode: Decoder, text: string) returns (es: seq<Positioned>)
    ensures es == Entries(decode, text)
  {
    es := [];
    var offset := 0;
    ghost var rest := Entries(decode, text);
    while offset < |text|
      invariant 0 <= offset <= |text|
      invariant rest == Entries(decode, text, offset)
      invariant es + rest == Entries(decode, text)
    {
      var start := offset;
      offset := LineStop(text, start);
      ScanStep(decode, text, start, es, rest);
      rest := Entries(decode, text, offset);
      var e := decode(text[start..offset]);
      if e.Some? {
        es := es + [Positioned(e.value, start)];
      }
    }
  }

  method EntriesFor(decode: Decoder, text: string, file: string) returns (out: seq<Positioned>)
    ensures out == FileEntries(decode, text, file)
  {
    var all := Scan(decode, text);
    out := [];
    for i := 0 to |all|
      invariant out == FileAmong(all, file, i)
    {
      if all[i].entry.file == file {
        out := out + [all[i]];
      }
    }
  }

  /** How many of the first n entries share the key. */
  ghost function Seen(es: seq<Positioned>, key: string, n: nat): nat
    requires n <= |es|
  {
    if n == 0 then 0 else Seen(es, key, n - 1) + if Key(es[n - 1].entry) == key then 1 else 0
  }

  ghost function TwinsBelow(es: seq<Positioned>, e: Entry, offset: nat): set<Positioned> {
    set q | q in es && q.entry == e && q.offset < offset
  }

  lemma {:induction false} TwinsBelowStep(es: seq<Positioned>, e: Entry, n: nat)
    requires Ordered(es) && 0 < n < |es|
    ensures |TwinsBelow(es, e, es[n].offset)|
         == |TwinsBelow(es, e, es[n - 1].offset)| + if es[n - 1].entry == e then 1 else 0
  {
    var low, high := TwinsBelow(es, e, es[n - 1].offset), TwinsBelow(es, e, es[n].offset);
    forall q | q in high ensures q in low || (q == es[n - 1] && es[n - 1].entry == e) {
      var j :| 0 <= j < |es| && es[j] == q;
      assert j <= n - 1;
    }
    assert high == if es[n - 1].entry == e then low + {es[n - 1]} else low;
  }

  lemma {:induction false} SeenIsRank(es: seq<Positioned>, e: Entry, n: nat)
    requires Ordered(es) && n < |es|
    ensures Seen(es, Key(e), n) == |TwinsBelow(es, e, es[n].offset)|
  {
    if n == 0 {
      forall q | q in es ensures q.offset >= es[0].offset {
        var j :| 0 <= j < |es| && es[j] == q;
      }
      assert TwinsBelow(es, e, es[0].offset) == {};
    } else {
      SeenIsRank(es, e, n - 1);
      TwinsBelowStep(es, e, n);
      if Key(es[n - 1].entry) == Key(e) {
        KeyInjective(es[n - 1].entry, e);
      }
    }
  }

  /** The running count per key is the number of earlier identical lines. */
  lemma {:induction false} OccurrenceIsRank(es: seq<Positioned>, i: nat)
    requires Ordered(es) && i < |es|
    ensures Seen(es, Key(es[i].entry), i) == Rank(es, es[i])
  {
    SeenIsRank(es, es[i].entry, i);
    assert Twins(es, es[i]) == TwinsBelow(es, es[i].entry, es[i].offset);
  }

  lemma {:induction false} TouchedIndex(es: seq<Positioned>, m: int, cut: nat, i: nat)
    requires Ordered(es) && -1 <= m < |es| && i < |es|
    ensures es[i] in Touched(es, m, cut) <==> i < Cutoff(es, m) && (i == m || es[i].offset < cut)
  {
  }

  lemma {:induction false} SpendNothingMore(es: seq<Positioned>, counts: Counts, touched: set<Positioned>, from: nat,
                                            n: nat)
    requires from <= n <= |es|
    requires forall i :: from <= i < n ==> es[i] !in touched
    ensures Spend(es, counts, touched, n) == Spend(es, counts, touched, from)
  {
    if from < n {
      SpendNothingMore(es, counts, touched, from, n - 1);
    }
  }

  method Occurrences(es: seq<Positioned>) returns (occurrence: seq<nat>)
    requires Ordered(es)
    ensures |occurrence| == |es|
    ensures forall j :: 0 <= j < |es| ==> occurrence[j] == Rank(es, es[j])
  {
    occurrence := [];
    var seen: map<string, nat> := map[];
    for i := 0 to |es|
      invariant |occurrence| == i
      invariant forall j :: 0 <= j < i ==> occurrence[j] == Rank(es, es[j])
      invariant forall k :: Get(seen, k) == Seen(es, k, i)
    {
      var key := Key(es[i].entry);
      OccurrenceIsRank(es, i);
      occurrence := occurrence + [Get(seen, key)];
      seen := seen[key := Get(seen, key) + 1];
    }
  }

  method FindMatch(es: seq<Positioned>, counts: Counts, sha: string, occurrence: seq<nat>) returns (found: int)
    requires |occurrence| == |es|
    requires forall j :: 0 <= j < |es| ==> occurrence[j] == Rank(es, es[j])
    ensures found == MatchIndex(es, counts, sha, |es|)
  {
    var i := |es| - 1;
    while i >= 0
      invariant -1 <= i < |es|
      invariant MatchIndex(es, counts, sha, |es|) == MatchIndex(es, counts, sha, i + 1)
    {
      if es[i].entry.sha == sha && Get(counts, Key(es[i].entry)) <= occurrence[i] {
        return i;
      }
      i := i - 1;
    }
    return -1;
  }

  method SpendUpTo(es: seq<Positioned>, found: int, cut: nat, occurrence: seq<nat>, consumed: Consumed,
                   ghost touched: set<Positioned>)
    requires -1 <= found < |es| && |occurrence| == |es|
    requires forall j :: 0 <= j < |es| ==> occurrence[j] == Rank(es, es[j])
    requires forall j :: 0 <= j < |es| ==>
               (es[j] in touched <==> j < Cutoff(es, found) && (j == found || es[j].offset < cut))
    modifies consumed
    ensures consumed.counts == Spend(es, old(consumed.counts), touched, |es|)
  {
    var cutoff := if found >= 0 then found + 1 else |es|;
    for j := 0 to cutoff
      invariant consumed.counts == Spend(es, old(consumed.counts), touched, j)
    {
      if j != found && es[j].offset >= cut {
        continue;
      }
      var key := Key(es[j].entry);
      if Get(consumed.counts, key) < occurrence[j] + 1 {
        consumed.counts := consumed.counts[key := occurrence[j] + 1];
      }
    }
    SpendNothingMore(es, old(consumed.counts), touched, cutoff, |es|);
  }

  /** Was (file, sha) our own write? Spends what the settled state uses up or supersedes. */
  method SettleEntry(decode: Decoder, text: string, file: string, sha: string, consumed: Consumed, boundary: Boundary)
    returns (own: bool)
    modifies consumed
    ensures own == Own(decode, text, file, sha, old(consumed.counts))
    ensures consumed.counts == SettledCounts(decode, text, file, sha, old(consumed.counts), boundary)
  {
    var entries := EntriesFor(decode, text, file);
    if |entries| == 0 {
      return false;
    }
    EntriesOrdered(decode, text);
    ForMembers(Entries(decode, text), file);
    var cut := Cut(text, boundary);
    var occurrence := Occurrences(entries);
    var found := FindMatch(entries, consumed.counts, sha, occurrence);
    SpendUpTo(entries, found, cut, occurrence, consumed, Touched(entries, found, cut));
    return found >= 0;
  }

  method RetireBefore(es: seq<Positioned>, cut: nat, consumed: Consumed)
    requires Ordered(es)
    modifies consumed
    ensures consumed.counts == Spend(es, old(consumed.counts), Before(es, cut), |es|)
  {
    var seen: map<string, nat> := map[];
    for i := 0 to |es|
      invariant forall k :: Get(seen, k) == Seen(es, k, i)
      invariant consumed.counts == Spend(es, old(consumed.counts), Before(es, cut), i)
    {
      var key := Key(es[i].entry);
      OccurrenceIsRank(es, i);
      seen := seen[key := Get(seen, key) + 1];
      if es[i].offset < cut && Get(consumed.counts, key) < seen[key] {
        consumed.counts := consumed.counts[key := seen[key]];
      }
    }
  }

  method RetireAll(decode: Decoder, text: string, consumed: Consumed, boundary: Boundary)
    modifies consumed
    ensures consumed.counts == RetiredCounts(decode, text, old(consumed.counts), boundary)
  {
    var es := Scan(decode, text);
    EntriesOrdered(decode, text);
    RetireBefore(es, Cut(text, boundary), consumed);
  }

  /** `last` gives, per file, the index of its last entry among the first n that records the settled state. */
  ghost predicate IsLast(es: seq<Positioned>, settled: map<string, string>, last: map<string, nat>, n: nat)
    requires n <= |es|
  {
    && (forall f :: f in last ==>
          last[f] < n && es[last[f]].entry.file == f && RecordsSettled(settled, es[last[f]].entry))
    && (forall j :: 0 <= j < n && RecordsSettled(settled, es[j].entry) ==>
          es[j].entry.file in last && j <= last[es[j].entry.file])
  }

  lemma {:induction false} AccountedIndex(es: seq<Positioned>, settled: map<string, string>, last: map<string, nat>,
                                          i: nat)
    requires Ordered(es) && i < |es| && IsLast(es, settled, last, |es|)
    ensures es[i] in AccountedFor(es, settled) <==> es[i].entry.file in last && i <= last[es[i].entry.file]
  {
    var f := es[i].entry.file;
    if f in last && i <= last[f] {
      assert es[last[f]] in es && es[i].offset <= es[last[f]].offset;
    }
    if q :| q in es && q.entry.file == f && es[i].offset <= q.offset && RecordsSettled(settled, q.entry) {
      var j :| 0 <= j < |es| && es[j] == q;
      assert i <= j <= last[f];
    }
  }

  method LastSettled(es: seq<Positioned>, settled: map<string, string>) returns (last: map<string, nat>)
    ensures IsLast(es, settled, last, |es|)
  {
    last := map[];
    for i := 0 to |es|
      invariant IsLast(es, settled, last, i)
    {
      if RecordsSettled(settled, es[i].entry) {
        last := last[es[i].entry.file := i];
      }
    }
  }

  method RetireUpTo(es: seq<Positioned>, last: map<string, nat>, consumed: Consumed, ghost touched: set<Positioned>)
    requires Ordered(es)
    requires forall i :: 0 <= i < |es| ==>
               (es[i] in touched <==> es[i].entry.file in last && i <= last[es[i].entry.file])
    modifies consumed
    ensures consumed.counts == Spend(es, old(consumed.counts), touched, |es|)
  {
    var seen: map<string, nat> := map[];
    for i := 0 to |es|
      invariant forall k :: Get(seen, k) == Seen(es, k, i)
      invariant consumed.counts == Spend(es, old(consumed.counts), touched, i)
    {
      var key := Key(es[i].entry);
      OccurrenceIsRank(es, i);
      seen := seen[key := Get(seen, key) + 1];
      if es[i].entry.file !in last || i > last[es[i].entry.file] {
        continue;
      }
      if Get(consumed.counts, key) < seen[key] {
        consumed.counts := consumed.counts[key := seen[key]];
      }
    }
  }

  method RetireSettled(decode: Decoder, text: string, consumed: Consumed, settled: map<string, string>)
    modifies consumed
    ensures consumed.counts == SeededCounts(decode, text, old(consumed.counts), settled)
  {
    var es := Scan(decode, text);
    EntriesOrdered(decode, text);
    var last := LastSettled(es, settled);
    forall i | 0 <= i < |es|
      ensures es[i] in AccountedFor(es, settled) <==> es[i].entry.file in last && i <= last[es[i].entry.file]
    {
      AccountedIndex(es, settled, last, i);
    }
    RetireUpTo(es, last, consumed, AccountedFor(es, settled));
  }
}
