/** The own-write ledger of the board watcher: an append-only text of lines, and a count per
    distinct line that says how many of its occurrences have been spent.

    The Go code reads the ledger file afresh on every call, so the file's text is a parameter of
    every operation here. Trimming and JSON decoding of one line is the parameter `decode`.
    SHA-256 is taken to be injective: a boundary carries the bytes the Go code keeps the hash of. */
module Ledger {
  import opened Finite
  import opened Wrappers

  const SEPARATOR: char := '\U{1F}'
  const TOMBSTONE := "-"

  datatype RawEntry = Entry(file: string, sha: string, ts: string)

  predicate Clean(e: RawEntry) {
    SEPARATOR !in e.file && SEPARATOR !in e.sha && SEPARATOR !in e.ts
  }

  type Entry = e: RawEntry | Clean(e) witness Entry("", "", "")
  type Decoder = string -> Option<Entry>
  type Counts = map<string, nat>

  /** An entry with the offset its line starts at. */
  datatype Positioned = Positioned(entry: Entry, offset: nat)

  // ----- keys -----

  function Key(e: Entry): string {
    e.file + [SEPARATOR] + e.sha + [SEPARATOR] + e.ts
  }

  lemma {:induction false} CutAtSeparator(a: string, b: string, x: string, y: string)
    requires SEPARATOR !in a && SEPARATOR !in b
    requires a + [SEPARATOR] + x == b + [SEPARATOR] + y
    ensures a == b && x == y
  {
    var s, t := a + [SEPARATOR] + x, b + [SEPARATOR] + y;
    assert s[|a|] == SEPARATOR && t[|b|] == SEPARATOR;
    assert forall i :: 0 <= i < |a| ==> s[i] == a[i] && s[i] != SEPARATOR;
    assert forall i :: 0 <= i < |b| ==> t[i] == b[i] && t[i] != SEPARATOR;
    assert |a| == |b|;
    assert a == s[..|a|] && b == t[..|b|];
    assert x == s[|a| + 1..] && y == t[|b| + 1..];
  }

  /** One key, one line content: the count map never confuses two different entries. */
  lemma {:induction false} KeyInjective(a: Entry, b: Entry)
    requires Key(a) == Key(b)
    ensures a == b
  {
    assert Key(a) == a.file + [SEPARATOR] + (a.sha + [SEPARATOR] + a.ts);
    assert Key(b) == b.file + [SEPARATOR] + (b.sha + [SEPARATOR] + b.ts);
    CutAtSeparator(a.file, b.file, a.sha + [SEPARATOR] + a.ts, b.sha + [SEPARATOR] + b.ts);
    CutAtSeparator(a.sha, b.sha, a.ts, b.ts);
  }

  // ----- reading the text -----

  /** Where the line that starts at i ends, its terminator included. */
  function LineStop(text: string, i: nat): (stop: nat)
    requires i < |text|
    ensures i < stop <= |text|
    decreases |text| - i
  {
    if text[i] == '\n' || i + 1 == |text| then i + 1 else LineStop(text, i + 1)
  }

  /** What one raw line contributes: an undecodable line contributes nothing. */
  ghost function Decoded(decode: Decoder, raw: string, start: nat): seq<Positioned> {
    match decode(raw)
    case Some(e) => [Positioned(e, start)]
    case None => []
  }

  /** The entries of the lines that start at i or later. */
  ghost function Entries(decode: Decoder, text: string, i: nat := 0): seq<Positioned>
    requires i <= |text|
    decreases |text| - i
  {
    if i == |text| then []
    else
      var stop := LineStop(text, i);
      Decoded(decode, text[i..stop], i) + Entries(decode, text, stop)
  }

  predicate LineEnd(text: string) {
    text == "" || text[|text| - 1] == '\n'
  }

  ghost predicate Ordered(es: seq<Positioned>) {
    forall i, j :: 0 <= i < j < |es| ==> es[i].offset < es[j].offset
  }

  lemma {:induction false} OrderedConcat(a: seq<Positioned>, b: seq<Positioned>)
    requires Ordered(a) && Ordered(b)
    requires forall p, q :: p in a && q in b ==> p.offset < q.offset
    ensures Ordered(a + b)
  {
    var c := a + b;
    forall i, j | 0 <= i < j < |c| ensures c[i].offset < c[j].offset {
      if i < |a| <= j {
        assert c[i] in a && c[j] in b;
      }
    }
  }

  lemma {:induction false} EntriesOrdered(decode: Decoder, text: string, i: nat := 0)
    requires i <= |text|
    ensures Ordered(Entries(decode, text, i))
    ensures forall p :: p in Entries(decode, text, i) ==> i <= p.offset < |text|
    decreases |text| - i
  {
    if i < |text| {
      var stop := LineStop(text, i);
      EntriesOrdered(decode, text, stop);
      var head, rest := Decoded(decode, text[i..stop], i), Entries(decode, text, stop);
      assert forall p :: p in head + rest ==> p in head || p in rest;
      OrderedConcat(head, rest);
    }
  }

  lemma {:induction false} LineStopAppend(a: string, b: string, i: nat)
    requires LineEnd(a) && i < |a|
    ensures LineStop(a + b, i) == LineStop(a, i)
    decreases |a| - i
  {
    if a[i] != '\n' {
      LineStopAppend(a, b, i + 1);
    }
  }

  /** Appending after a line end leaves every entry on record where it is. */
  lemma {:induction false} EntriesAppend(decode: Decoder, a: string, b: string, i: nat := 0)
    requires LineEnd(a) && i <= |a|
    ensures Entries(decode, a + b, i) == Entries(decode, a, i) + Entries(decode, a + b, |a|)
    decreases |a| - i
  {
    if i < |a| {
      LineStopAppend(a, b, i);
      var stop := LineStop(a, i);
      assert (a + b)[i..stop] == a[i..stop];
      EntriesAppend(decode, a, b, stop);
    }
  }

  /** text[from..to] is one line, its newline included. */
  predicate IsLine(text: string, from: nat, to: nat) {
    && from < to <= |text|
    && (from == 0 || text[from - 1] == '\n')
    && (to == |text| || text[to - 1] == '\n')
    && forall k | from <= k < to - 1 :: text[k] != '\n'
  }

  lemma {:induction false} LineStopExact(text: string, i: nat)
    requires i < |text|
    ensures var stop := LineStop(text, i);
            (stop == |text| || text[stop - 1] == '\n') && forall k | i <= k < stop - 1 :: text[k] != '\n'
    decreases |text| - i
  {
    if text[i] != '\n' && i + 1 < |text| {
      LineStopExact(text, i + 1);
    }
  }

  /** The entries are what the lines decode to, each with the offset its line starts at. */
  lemma {:induction false} EntriesExact(decode: Decoder, text: string, p: Positioned, i: nat := 0)
    requires i <= |text| && (i == 0 || i == |text| || text[i - 1] == '\n')
    ensures p in Entries(decode, text, i) <==>
              && i <= p.offset
              && exists to: nat :: IsLine(text, p.offset, to) && decode(text[p.offset..to]) == Some(p.entry)
    decreases |text| - i
  {
    if i < |text| {
      var stop := LineStop(text, i);
      LineStopExact(text, i);
      EntriesExact(decode, text, p, stop);
      assert IsLine(text, i, stop);
      if i <= p.offset < stop {
        forall to | IsLine(text, p.offset, to) ensures p.offset == i && to == stop {
        }
      }
    }
  }

  // ----- liveness -----

  function Get(counts: Counts, key: string): nat {
    if key in counts then counts[key] else 0
  }

  function Raise(counts: Counts, key: string, n: nat): Counts {
    if Get(counts, key) < n then counts[key := n] else counts
  }

  /** The lines identical to p's that stand before it. */
  ghost function Twins(es: seq<Positioned>, p: Positioned): set<Positioned> {
    set q | q in es && q.entry == p.entry && q.offset < p.offset
  }

  ghost function Rank(es: seq<Positioned>, p: Positioned): nat {
    |Twins(es, p)|
  }

  /** An entry is unspent when its key has been spent at most as often as it has earlier twins. */
  ghost predicate Live(es: seq<Positioned>, counts: Counts, p: Positioned) {
    Get(counts, Key(p.entry)) <= Rank(es, p)
  }

  ghost function LiveSet(es: seq<Positioned>, counts: Counts): set<Positioned> {
    set p | p in es && Live(es, counts, p)
  }

  /** The entries of one file among the first n. */
  ghost function FileAmong(es: seq<Positioned>, file: string, n: nat): seq<Positioned>
    requires n <= |es|
  {
    if n == 0 then []
    else FileAmong(es, file, n - 1) + if es[n - 1].entry.file == file then [es[n - 1]] else []
  }

  ghost function For(es: seq<Positioned>, file: string): seq<Positioned> {
    FileAmong(es, file, |es|)
  }

  lemma {:induction false} FileAmongMembers(es: seq<Positioned>, file: string, n: nat)
    requires n <= |es| && Ordered(es)
    ensures forall p :: p in FileAmong(es, file, n) <==> p in es[..n] && p.entry.file == file
    ensures Ordered(FileAmong(es, file, n))
  {
    if n > 0 {
      FileAmongMembers(es, file, n - 1);
      assert es[..n] == es[..n - 1] + [es[n - 1]];
      var front := FileAmong(es, file, n - 1);
      assert forall p :: p in front ==> p in es[..n - 1];
    }
  }

  lemma {:induction false} ForMembers(es: seq<Positioned>, file: string)
    requires Ordered(es)
    ensures forall p :: p in For(es, file) <==> p in es && p.entry.file == file
    ensures Ordered(For(es, file))
  {
    FileAmongMembers(es, file, |es|);
    assert es[..|es|] == es;
  }

  /** Liveness in one file's entries is liveness in the ledger. */
  lemma {:induction false} ForLive(es: seq<Positioned>, file: string, counts: Counts, p: Positioned)
    requires Ordered(es) && p.entry.file == file
    ensures Rank(For(es, file), p) == Rank(es, p)
    ensures Live(For(es, file), counts, p) == Live(es, counts, p)
  {
    ForMembers(es, file);
    assert Twins(For(es, file), p) == Twins(es, p);
  }

  lemma {:induction false} RankMonotone(es: seq<Positioned>, p: Positioned, q: Positioned)
    requires p in es && p.entry == q.entry
    ensures p.offset < q.offset ==> Rank(es, p) + 1 <= Rank(es, q)
    ensures p.offset == q.offset ==> Rank(es, p) == Rank(es, q)
  {
    if p.offset < q.offset {
      assert Twins(es, p) + {p} <= Twins(es, q);
      SubsetSize(Twins(es, p) + {p}, Twins(es, q));
    } else if p.offset == q.offset {
      assert Twins(es, p) == Twins(es, q);
    }
  }

  // ----- spending -----

  /** The counts after the entries of `touched` among the first n have each been raised to
      "this occurrence and all before it are spent". */
  ghost function Spend(es: seq<Positioned>, counts: Counts, touched: set<Positioned>, n: nat): Counts
    requires n <= |es|
  {
    if n == 0 then counts
    else
      var c := Spend(es, counts, touched, n - 1);
      if es[n - 1] in touched then Raise(c, Key(es[n - 1].entry), Rank(es, es[n - 1]) + 1) else c
  }

  lemma {:induction false} SpendCounts(es: seq<Positioned>, counts: Counts, touched: set<Positioned>, n: nat,
                                       key: string)
    requires n <= |es|
    ensures Get(Spend(es, counts, touched, n), key) >= Get(counts, key)
    ensures forall i :: 0 <= i < n && es[i] in touched && Key(es[i].entry) == key
              ==> Get(Spend(es, counts, touched, n), key) > Rank(es, es[i])
    ensures Get(Spend(es, counts, touched, n), key) > Get(counts, key) ==>
              exists i :: 0 <= i < n && es[i] in touched && Key(es[i].entry) == key
                          && Get(Spend(es, counts, touched, n), key) == Rank(es, es[i]) + 1
  {
    if n > 0 {
      SpendCounts(es, counts, touched, n - 1, key);
    }
  }

  /** What raising a count per key means for single lines: exactly the touched lines and the
      identical lines before them stop being live. */
  lemma {:induction false} SpendLive(es: seq<Positioned>, counts: Counts, touched: set<Positioned>, p: Positioned)
    requires p in es
    ensures Live(es, Spend(es, counts, touched, |es|), p)
       <==> Live(es, counts, p)
            && !exists q :: q in es && q in touched && q.entry == p.entry && p.offset <= q.offset
  {
    var after := Spend(es, counts, touched, |es|);
    var key := Key(p.entry);
    SpendCounts(es, counts, touched, |es|, key);
    if q :| q in es && q in touched && q.entry == p.entry && p.offset <= q.offset {
      var i :| 0 <= i < |es| && es[i] == q;
      assert Get(after, key) > Rank(es, q);
      RankMonotone(es, p, q);
    } else if Live(es, counts, p) && Get(after, key) > Get(counts, key) {
      var i :| 0 <= i < |es| && es[i] in touched && Key(es[i].entry) == key && Get(after, key) == Rank(es, es[i]) + 1;
      KeyInjective(es[i].entry, p.entry);
      RankMonotone(es, es[i], p);
    }
  }

  function CountAt(counts: Counts, key: string): Option<nat> {
    if key in counts then Some(counts[key]) else None
  }

  /** Keys of no entry keep their counts, as map entries too. */
  lemma {:induction false} SpendFrame(es: seq<Positioned>, counts: Counts, touched: set<Positioned>, n: nat,
                                      key: string)
    requires n <= |es|
    requires forall i :: 0 <= i < n ==> Key(es[i].entry) != key
    ensures CountAt(Spend(es, counts, touched, n), key) == CountAt(counts, key)
  {
    if n > 0 {
      SpendFrame(es, counts, touched, n - 1, key);
    }
  }
}
