/** What withdrawing a release leaves alone. */
module RegistryProperties {
  import opened Registry
  import opened Wrappers

  // ----- the line written -----

  lemma {:induction false} SkipSpaceAt(s: string, i: nat, j: nat)
    requires i <= j < |s| && !IsSpace(s[j]) && forall k | i <= k < j :: IsSpace(s[k])
    ensures SkipSpace(s, i) == j
    decreases j - i
  {
    if i < j {
      SkipSpaceAt(s, i + 1, j);
    }
  }

  lemma {:induction false} KeyEndAt(s: string, i: nat, j: nat)
    requires i <= j < |s| && !IsKeyChar(s[j]) && forall k | i <= k < j :: IsKeyChar(s[k])
    ensures KeyEnd(s, i) == j
    decreases j - i
  {
    if i < j {
      KeyEndAt(s, i + 1, j);
    }
  }

  predicate IsKey(key: string) {
    key != "" && forall k | 0 <= k < |key| :: IsKeyChar(key[k])
  }

  lemma {:induction false} KeysAreKeys()
    ensures IsKey("withdrawn") && IsKey("withdrawn_reason")
  {
  }

  lemma {:induction false} MadeParts(key: string, value: string)
    ensures var s, n := Made(key, value), 2 + |key|;
            && n + 3 <= |s| && s[0] == s[1] == ' ' && s[2..n] == key && s[n] == ' ' && s[n + 1] == '='
            && forall k | 2 <= k < n :: s[k] == key[k - 2]
  {
  }

  /** A written line is read as the field it sets. */
  lemma {:induction false} MadeReadsBack(key: string, value: string)
    requires IsKey(key)
    ensures FieldKey(Made(key, value)) == Some(key)
  {
    var s, n := Made(key, value), 2 + |key|;
    MadeParts(key, value);
    hide Made, SkipSpace, KeyEnd;
    SkipSpaceAt(s, 0, 2);
    KeyEndAt(s, 2, n);
    SkipSpaceAt(s, n, n + 1);
  }

  lemma {:induction false} SliceHead(line: string, i: nat, j: nat, part: string)
    requires i < j <= |line| && line[i..j] == part
    ensures line[i] == part[0]
  {
  }

  lemma {:induction false} PackBracket(line: string)
    requires IsPackHeader(line)
    ensures SkipSpace(line, 0) == 0 && line[0] == '['
  {
    hide SkipSpace;
    SliceHead(line, 0, 8, "[[pack]]");
  }

  lemma {:induction false} ReleaseBracket(line: string)
    requires IsReleaseHeader(line)
    ensures var i := SkipSpace(line, 0);
            i < |line| && line[i] == '['
  {
    hide SkipSpace, IsSpace;
    var i := SkipSpace(line, 0);
    SliceHead(line, i, i + 16, "[[pack.release]]");
  }

  /** A header sets no field. */
  lemma {:induction false} HeadersAreNoFields(line: string, kind: Kind)
    requires IsHeader(kind, line)
    ensures FieldKey(line).None?
  {
    hide SkipSpace, IsPackHeader, IsReleaseHeader;
    if kind.Pack? {
      PackBracket(line);
    } else {
      ReleaseBracket(line);
    }
  }

  lemma {:induction false} MadeIsNeither(key: string, value: string, other: string)
    requires IsKey(key) && other != key
    ensures Quoted(Made(key, value), other).None? && FieldKey(Made(key, value)) != Some(other)
    ensures !IsHeader(Pack, Made(key, value)) && !IsHeader(Release, Made(key, value))
  {
    hide FieldKey, IsHeader;
    MadeReadsBack(key, value);
    if IsHeader(Pack, Made(key, value)) {
      HeadersAreNoFields(Made(key, value), Pack);
    }
    if IsHeader(Release, Made(key, value)) {
      HeadersAreNoFields(Made(key, value), Release);
    }
  }

  // ----- reading lines in pieces -----

  function OrElse(a: Option<string>, b: Option<string>): Option<string> {
    if a.Some? then a else b
  }

  lemma {:induction false} ValueSlice(lines: seq<string>, i: nat, hi: nat, part: seq<string>, j: nat, key: string)
    requires i <= hi <= |lines| && j <= |part| && hi - i == |part| - j
    requires forall k | i <= k < hi :: lines[k] == part[k - i + j]
    ensures FieldValue(lines, i, hi, key) == FieldValue(part, j, |part|, key)
    decreases hi - i
  {
    hide Quoted;
    if i < hi {
      assert lines[i] == part[j];
      ValueSlice(lines, i + 1, hi, part, j + 1, key);
    }
  }

  lemma {:induction false} ValueSplits(lines: seq<string>, i: nat, m: nat, hi: nat, key: string)
    requires i <= m <= hi <= |lines|
    ensures FieldValue(lines, i, hi, key) == OrElse(FieldValue(lines, i, m, key), FieldValue(lines, m, hi, key))
    decreases m - i
  {
    hide Quoted;
    if i < m {
      ValueSplits(lines, i + 1, m, hi, key);
    }
  }

  /** An edit of one place: `dropped` lines at k give way to one line. */
  function Edit(lines: seq<string>, k: nat, dropped: nat, line: string): seq<string>
    requires k + dropped <= |lines|
  {
    lines[..k] + [line] + lines[k + dropped..]
  }

  lemma {:induction false} EditKeepsValue(lines: seq<string>, k: nat, dropped: nat, line: string, key: string)
    requires k + dropped <= |lines| && dropped <= 1 && Quoted(line, key).None?
    requires dropped == 1 ==> Quoted(lines[k], key).None?
    ensures var e := Edit(lines, k, dropped, line);
            FieldValue(e, 0, |e|, key) == FieldValue(lines, 0, |lines|, key)
  {
    hide Quoted;
    var e := Edit(lines, k, dropped, line);
    ValueSplits(e, 0, k, |e|, key);
    ValueSplits(lines, 0, k, |lines|, key);
    ValueSlice(e, 0, k, lines[..k], 0, key);
    ValueSlice(lines, 0, k, lines[..k], 0, key);
    ValueSlice(e, k + 1, |e|, lines[k + dropped..], 0, key);
    ValueSlice(lines, k + dropped, |lines|, lines[k + dropped..], 0, key);
  }

  // ----- one upsert -----

  /** The first line that sets key sets it to value. */
  ghost predicate Sets(lines: seq<string>, key: string, value: string) {
    var k := FieldIndex(lines, 0, |lines|, key);
    k < |lines| && lines[k] == Made(key, value)
  }

  /** Upserting edits one place, past the first line of a block that starts with a header. */
  lemma {:induction false} UpsertedIsEdit(lines: seq<string>, key: string, value: string) returns (k: nat, dropped: nat)
    requires lines != [] && FieldKey(lines[0]).None?
    ensures 0 < k && k + dropped <= |lines| && dropped <= 1
    ensures dropped == 1 ==> FieldKey(lines[k]) == Some(key)
    ensures dropped == 0 ==> forall j | 0 <= j < |lines| :: FieldKey(lines[j]) != Some(key)
    ensures forall j | 0 <= j < k :: FieldKey(lines[j]) != Some(key)
    ensures Upserted(lines, key, value) == Edit(lines, k, dropped, Made(key, value))
  {
    hide FieldKey, Made;
    k := FieldIndex(lines, 0, |lines|, key);
    if k < |lines| {
      dropped := 1;
    } else {
      k, dropped := AfterDescription(lines, |lines|, |lines|), 0;
    }
  }

  lemma {:induction false} FirstAt(lines: seq<string>, k: nat, key: string)
    requires k < |lines| && FieldKey(lines[k]) == Some(key) && forall j | 0 <= j < k :: FieldKey(lines[j]) != Some(key)
    ensures FieldIndex(lines, 0, |lines|, key) == k
  {
    hide FieldKey, FieldIndex;
  }

  lemma {:induction false} UpsertSets(lines: seq<string>, key: string, value: string)
    requires lines != [] && FieldKey(lines[0]).None? && IsKey(key)
    ensures Sets(Upserted(lines, key, value), key, value)
  {
    hide FieldKey, Made, Upserted, FieldIndex;
    var k, dropped := UpsertedIsEdit(lines, key, value);
    MadeReadsBack(key, value);
    FirstAt(Edit(lines, k, dropped, Made(key, value)), k, key);
  }

  lemma {:induction false} SetsIsFixed(lines: seq<string>, key: string, value: string)
    requires Sets(lines, key, value)
    ensures Upserted(lines, key, value) == lines
  {
    hide FieldKey, Made;
  }

  lemma {:induction false} UpsertKeepsSets(lines: seq<string>, key: string, value: string, other: string, kept: string)
    requires lines != [] && FieldKey(lines[0]).None? && IsKey(key) && other != key && Sets(lines, other, kept)
    ensures Sets(Upserted(lines, key, value), other, kept)
  {
    hide FieldKey, Made, Upserted, FieldIndex;
    var k, dropped := UpsertedIsEdit(lines, key, value);
    MadeIsNeither(key, value, other);
    var i := FieldIndex(lines, 0, |lines|, other);
    var e := Edit(lines, k, dropped, Made(key, value));
    var to := if i < k then i else i + 1 - dropped;
    assert e[to] == lines[i];
    assert forall j | 0 <= j < to :: FieldKey(e[j]) != Some(other) by {
      assert forall j | 0 <= j < |e| && j != k :: e[j] == lines[if j < k then j else j - 1 + dropped];
    }
    FirstAt(e, to, other);
  }

  /** One release: its header and no other. */
  ghost predicate OneRelease(lines: seq<string>) {
    && lines != [] && IsHeader(Release, lines[0])
    && forall k | 0 < k < |lines| :: !IsHeader(Pack, lines[k]) && !IsHeader(Release, lines[k])
  }

  lemma {:induction false} UpsertKeepsShape(lines: seq<string>, key: string, value: string, other: string)
    requires OneRelease(lines) && IsKey(key) && other != key
    ensures var e := Upserted(lines, key, value);
            && OneRelease(e) && e[0] == lines[0] && FieldKey(e[0]).None?
            && |lines| <= |e| <= |lines| + 1
            && FieldValue(e, 0, |e|, other) == FieldValue(lines, 0, |lines|, other)
  {
    hide FieldKey, Made, Upserted, FieldIndex, IsHeader;
    HeadersAreNoFields(lines[0], Release);
    var k, dropped := UpsertedIsEdit(lines, key, value);
    MadeIsNeither(key, value, other);
    EditKeepsValue(lines, k, dropped, Made(key, value), other);
  }

  function Cut(lines: seq<string>, k: nat): seq<string>
    requires k < |lines|
  {
    lines[..k] + lines[k + 1..]
  }

  /** All lines but the first that sets key. */
  function Without(lines: seq<string>, key: string): seq<string> {
    var k := FieldIndex(lines, 0, |lines|, key);
    if k == |lines| then lines else Cut(lines, k)
  }

  /** All lines but the first that sets each field of a withdrawal. */
  function Rest(lines: seq<string>): seq<string> {
    Without(Without(lines, "withdrawn_reason"), "withdrawn")
  }

  lemma {:induction false} UpsertKeepsOthers(lines: seq<string>, key: string, value: string)
    requires lines != [] && FieldKey(lines[0]).None? && IsKey(key)
    ensures Without(Upserted(lines, key, value), key) == Without(lines, key)
  {
    hide FieldKey, Made, Upserted, FieldIndex;
    var k, dropped := UpsertedIsEdit(lines, key, value);
    MadeReadsBack(key, value);
    var e := Edit(lines, k, dropped, Made(key, value));
    FirstAt(e, k, key);
    assert e[..k] + e[k + 1..] == lines[..k] + lines[k + dropped..];
    if dropped == 1 {
      FirstAt(lines, k, key);
    }
  }

  lemma {:induction false} NoneAt(lines: seq<string>, key: string)
    requires forall j | 0 <= j < |lines| :: FieldKey(lines[j]) != Some(key)
    ensures FieldIndex(lines, 0, |lines|, key) == |lines|
  {
    hide FieldKey, FieldIndex;
  }

  /** Where the first line of another key stands once line i is gone. */
  lemma {:induction false} IndexWithout(lines: seq<string>, i: nat, key: string)
    requires i < |lines| && FieldKey(lines[i]) != Some(key)
    ensures var j, rest := FieldIndex(lines, 0, |lines|, key), Cut(lines, i);
            |rest| == |lines| - 1 && FieldIndex(rest, 0, |rest|, key) == if j < i then j else j - 1
  {
    hide FieldKey, FieldIndex;
    var j, rest := FieldIndex(lines, 0, |lines|, key), Cut(lines, i);
    assert forall m | 0 <= m < |rest| :: rest[m] == lines[if m < i then m else m + 1];
    if j == |lines| {
      NoneAt(rest, key);
    } else {
      FirstAt(rest, if j < i then j else j - 1, key);
    }
  }

  lemma {:induction false} CutBoth(lines: seq<string>, i: nat, j: nat)
    requires i < j < |lines|
    ensures |Cut(lines, i)| == |Cut(lines, j)| == |lines| - 1
    ensures Cut(Cut(lines, i), j - 1) == Cut(Cut(lines, j), i)
  {
    assert forall m | 0 <= m < |lines| - 2 ::
        Cut(Cut(lines, i), j - 1)[m] == Cut(Cut(lines, j), i)[m];
  }

  lemma {:induction false} WithoutAfter(lines: seq<string>, a: string, b: string)
    requires a != b
    ensures var i, j := FieldIndex(lines, 0, |lines|, a), FieldIndex(lines, 0, |lines|, b);
            && (i < |lines| ==> i != j && |Cut(lines, i)| == |lines| - 1)
            && Without(Without(lines, a), b) ==
               if i == |lines| then Without(lines, b)
               else if j == |lines| then Cut(lines, i)
               else Cut(Cut(lines, i), if j < i then j else j - 1)
  {
    hide FieldKey, FieldIndex, Cut;
    var i := FieldIndex(lines, 0, |lines|, a);
    if i < |lines| {
      IndexWithout(lines, i, b);
    }
  }

  /** The first lines of two keys may be taken out in either order. */
  lemma {:induction false} WithoutCommutes(lines: seq<string>, a: string, b: string)
    requires a != b
    ensures Without(Without(lines, a), b) == Without(Without(lines, b), a)
  {
    hide FieldKey, FieldIndex, Cut;
    var i, j := FieldIndex(lines, 0, |lines|, a), FieldIndex(lines, 0, |lines|, b);
    WithoutAfter(lines, a, b);
    WithoutAfter(lines, b, a);
    if i < j < |lines| {
      CutBoth(lines, i, j);
    } else if j < i < |lines| {
      CutBoth(lines, j, i);
    }
  }

  // ----- one release withdrawn -----

  /** The release's own lines: both fields set; every line but the first that sets each of them kept, in its
      order; at most two lines more; the header first; its version and any other field read as before. */
  lemma {:induction false} WithdrawnRelease(release: seq<string>, reason: string, other: string)
    requires OneRelease(release) && other != "withdrawn" && other != "withdrawn_reason"
    ensures var e := WithdrawnLines(release, reason);
            && Sets(e, "withdrawn", "true") && Sets(e, "withdrawn_reason", reason)
            && Rest(e) == Rest(release)
            && |release| <= |e| <= |release| + 2
            && OneRelease(e) && e[0] == release[0]
            && FieldValue(e, 0, |e|, other) == FieldValue(release, 0, |release|, other)
  {
    hide Upserted, Sets, Without, IsHeader, FieldKey;
    KeysAreKeys();
    var once := Upserted(release, "withdrawn_reason", reason);
    HeadersAreNoFields(release[0], Release);
    UpsertSets(release, "withdrawn_reason", reason);
    UpsertKeepsOthers(release, "withdrawn_reason", reason);
    UpsertKeepsShape(release, "withdrawn_reason", reason, other);
    UpsertSets(once, "withdrawn", "true");
    UpsertKeepsSets(once, "withdrawn", "true", "withdrawn_reason", reason);
    UpsertKeepsOthers(once, "withdrawn", "true");
    WithoutCommutes(WithdrawnLines(release, reason), "withdrawn_reason", "withdrawn");
    WithoutCommutes(once, "withdrawn_reason", "withdrawn");
    UpsertKeepsShape(once, "withdrawn", "true", other);
  }

  lemma {:induction false} WithdrawnTwice(release: seq<string>, reason: string)
    requires OneRelease(release)
    ensures var e := WithdrawnLines(release, reason);
            WithdrawnLines(e, reason) == e
  {
    hide Upserted, Sets, OneRelease;
    WithdrawnRelease(release, reason, "version");
    SetsIsFixed(WithdrawnLines(release, reason), "withdrawn_reason", reason);
    SetsIsFixed(WithdrawnLines(release, reason), "withdrawn", "true");
  }

  // ----- the rest of the registry -----

  /** Block b of `was` gave way to a block of length n in `now`: the same before and behind it, the same
      header, no other header inside, and the searched fields read alike. */
  ghost predicate Spliced(was: seq<string>, now: seq<string>, b: Block, n: nat) {
    && b.start < b.end <= |was| && 0 < n && |now| == |was| - (b.end - b.start) + n
    && (forall k | 0 <= k <= b.start :: now[k] == was[k])
    && (forall k | b.end <= k < |was| :: now[k - (b.end - b.start) + n] == was[k])
    && (forall k | b.start < k < b.end :: !IsHeader(Pack, was[k]) && !IsHeader(Release, was[k]))
    && (forall k | b.start < k < b.start + n :: !IsHeader(Pack, now[k]) && !IsHeader(Release, now[k]))
  }

  ghost predicate SameField(was: seq<string>, now: seq<string>, b: Block, n: nat, key: string)
    requires Spliced(was, now, b, n)
  {
    FieldValue(was, b.start, b.end, key) == FieldValue(now, b.start, b.start + n, key)
  }

  /** Where a place outside the block's inside has gone. */
  function Moved(b: Block, n: nat, i: nat): (j: int)
    ensures b.start < b.end <= i ==> j >= 0
  {
    if i <= b.start then i else i - (b.end - b.start) + n
  }

  predicate Outside(b: Block, i: nat) {
    i <= b.start || b.end <= i
  }

  lemma {:induction false} NextIs(lines: seq<string>, kind: Kind, i: nat, hi: nat, h: nat)
    requires i <= h <= hi <= |lines| && (h < hi ==> IsHeader(kind, lines[h]))
    requires forall k | i <= k < h :: !IsHeader(kind, lines[k])
    ensures NextHeader(lines, kind, i, hi) == h
    decreases h - i
  {
    hide IsHeader;
    if i < h {
      NextIs(lines, kind, i + 1, hi, h);
    }
  }

  /** What stands at a place of the new lines. */
  lemma {:induction false} At(was: seq<string>, now: seq<string>, b: Block, n: nat, kind: Kind, k: nat)
    requires Spliced(was, now, b, n) && k < |now|
    ensures k <= b.start ==> now[k] == was[k]
    ensures b.start < k < b.start + n ==> !IsHeader(kind, now[k])
    ensures b.start + n <= k ==> now[k] == was[k - n + (b.end - b.start)]
  {
    hide IsHeader;
    if b.start + n <= k {
      var j := k - n + (b.end - b.start);
      assert now[j - (b.end - b.start) + n] == was[j];
    }
  }

  lemma {:induction false} SameNextHeader(was: seq<string>, now: seq<string>, b: Block, n: nat, kind: Kind, i: nat,
                                          hi: nat)
    requires Spliced(was, now, b, n) && i <= hi <= |was| && Outside(b, i) && Outside(b, hi)
    ensures var h := NextHeader(was, kind, i, hi);
            && Outside(b, h)
            && 0 <= Moved(b, n, i) <= Moved(b, n, h) <= Moved(b, n, hi) <= |now|
            && NextHeader(now, kind, Moved(b, n, i), Moved(b, n, hi)) == Moved(b, n, h)
  {
    hide IsHeader, NextHeader;
    var h := NextHeader(was, kind, i, hi);
    var from, to := Moved(b, n, i), Moved(b, n, h);
    forall k | from <= k < to ensures !IsHeader(kind, now[k]) {
      At(was, now, b, n, kind, k);
      assert k <= b.start ==> !IsHeader(kind, was[k]);
      assert b.start + n <= k ==> !IsHeader(kind, was[k - n + (b.end - b.start)]);
    }
    if h < hi {
      At(was, now, b, n, kind, to);
    }
    NextIs(now, kind, from, Moved(b, n, hi), to);
  }

  lemma {:induction false} Lengths(was: seq<string>, now: seq<string>, b: Block, n: nat)
    requires Spliced(was, now, b, n)
    ensures b.start < b.end <= |was| && 0 < n && |now| == |was| - (b.end - b.start) + n
  {
  }

  lemma {:induction false} Inside(lines: seq<string>, kind: Kind, i: nat, end: nat, hi: nat)
    requires i <= end <= hi <= |lines| && forall k | i <= k < end :: !IsHeader(kind, lines[k])
    ensures NextHeader(lines, kind, i, hi) == NextHeader(lines, kind, end, hi)
  {
    hide IsHeader;
    NextIs(lines, kind, i, hi, NextHeader(lines, kind, end, hi));
  }

  lemma {:induction false} BothInside(was: seq<string>, now: seq<string>, b: Block, n: nat, kind: Kind, hi: nat)
    requires Spliced(was, now, b, n) && b.end <= hi <= |was|
    ensures NextHeader(was, kind, b.start + 1, hi) == NextHeader(was, kind, b.end, hi)
    ensures NextHeader(now, kind, b.start + 1, Moved(b, n, hi)) == NextHeader(now, kind, b.start + n, Moved(b, n, hi))
  {
    hide IsHeader, NextHeader;
    Inside(was, kind, b.start + 1, b.end, hi);
    Inside(now, kind, b.start + 1, b.start + n, Moved(b, n, hi));
  }

  lemma {:induction false} SameEndHere(was: seq<string>, now: seq<string>, b: Block, n: nat, kind: Kind, hi: nat)
    requires Spliced(was, now, b, n) && b.end <= hi <= |was|
    ensures var end := NextHeader(was, kind, b.start + 1, hi);
            && b.end <= end
            && 0 <= Moved(b, n, end) <= Moved(b, n, hi) <= |now|
            && NextHeader(now, kind, b.start + 1, Moved(b, n, hi)) == Moved(b, n, end)
  {
    hide IsHeader, NextHeader, Spliced;
    Lengths(was, now, b, n);
    BothInside(was, now, b, n, kind, hi);
    SameNextHeader(was, now, b, n, kind, b.end, hi);
    assert Moved(b, n, b.end) == b.start + n;
  }

  lemma {:induction false} SameEndElsewhere(was: seq<string>, now: seq<string>, b: Block, n: nat, kind: Kind,
                                            start: nat, hi: nat)
    requires Spliced(was, now, b, n) && start < hi <= |was| && Outside(b, start) && Outside(b, hi) && start != b.start
    ensures var end := NextHeader(was, kind, start + 1, hi);
            && Outside(b, end)
            && 0 <= Moved(b, n, start) + 1 <= Moved(b, n, end) <= Moved(b, n, hi) <= |now|
            && NextHeader(now, kind, Moved(b, n, start) + 1, Moved(b, n, hi)) == Moved(b, n, end)
  {
    hide IsHeader, NextHeader, Spliced;
    Lengths(was, now, b, n);
    assert Outside(b, start + 1) && Moved(b, n, start) + 1 == Moved(b, n, start + 1);
    SameNextHeader(was, now, b, n, kind, start + 1, hi);
  }

  /** The block that starts at a header ends where it did, or where that has gone. */
  lemma {:induction false} SameEnd(was: seq<string>, now: seq<string>, b: Block, n: nat, kind: Kind, start: nat,
                                   hi: nat)
    requires Spliced(was, now, b, n) && start < hi <= |was| && Outside(b, start) && Outside(b, hi)
    ensures var end := NextHeader(was, kind, start + 1, hi);
            && Outside(b, end) && start < end
            && 0 <= Moved(b, n, start) < Moved(b, n, end) <= Moved(b, n, hi) <= |now|
            && NextHeader(now, kind, Moved(b, n, start) + 1, Moved(b, n, hi)) == Moved(b, n, end)
  {
    hide IsHeader, NextHeader, Spliced;
    Lengths(was, now, b, n);
    if start == b.start {
      SameEndHere(was, now, b, n, kind, hi);
    } else {
      SameEndElsewhere(was, now, b, n, kind, start, hi);
    }
  }

  lemma {:induction false} SameValueAround(was: seq<string>, now: seq<string>, b: Block, n: nat, key: string, i: nat,
                                           hi: nat)
    requires Spliced(was, now, b, n) && SameField(was, now, b, n, key)
    requires i <= b.start && b.end <= hi <= |was|
    ensures i <= Moved(b, n, hi) <= |now|
    ensures FieldValue(now, i, Moved(b, n, hi), key) == FieldValue(was, i, hi, key)
  {
    hide FieldValue, IsHeader;
    var to := Moved(b, n, hi);
    assert FieldValue(now, i, b.start, key) == FieldValue(was, i, b.start, key) by {
      Same(was, now, i, b.start, i, key);
    }
    assert FieldValue(now, b.start + n, to, key) == FieldValue(was, b.end, hi, key) by {
      Same(was, now, b.end, hi, b.start + n, key);
    }
    hide Spliced;
    ValueSplits(was, i, b.start, hi, key);
    ValueSplits(was, b.start, b.end, hi, key);
    ValueSplits(now, i, b.start, to, key);
    ValueSplits(now, b.start, b.start + n, to, key);
  }

  /** A stretch between outside places reads the same. */
  lemma {:induction false} SameValue(was: seq<string>, now: seq<string>, b: Block, n: nat, key: string, i: nat, hi: nat)
    requires Spliced(was, now, b, n) && SameField(was, now, b, n, key)
    requires i <= hi <= |was| && Outside(b, i) && Outside(b, hi)
    ensures 0 <= Moved(b, n, i) <= Moved(b, n, hi) <= |now|
    ensures FieldValue(now, Moved(b, n, i), Moved(b, n, hi), key) == FieldValue(was, i, hi, key)
  {
    hide FieldValue, IsHeader;
    if hi <= b.start {
      Same(was, now, i, hi, i, key);
    } else if b.end <= i {
      Same(was, now, i, hi, Moved(b, n, i), key);
    } else {
      SameValueAround(was, now, b, n, key, i, hi);
    }
  }

  lemma {:induction false} Same(was: seq<string>, now: seq<string>, i: nat, hi: nat, to: nat, key: string)
    requires i <= hi <= |was| && to + (hi - i) <= |now|
    requires forall k | i <= k < hi :: now[k - i + to] == was[k]
    ensures FieldValue(now, to, to + (hi - i), key) == FieldValue(was, i, hi, key)
    decreases hi - i
  {
    hide Quoted;
    if i < hi {
      assert now[i - i + to] == was[i];
      Same(was, now, i + 1, hi, to + 1, key);
    }
  }

  function MovedBlock(b: Block, n: nat, c: Option<Block>): Option<Block> {
    if c.None? || Moved(b, n, c.value.start) < 0 || Moved(b, n, c.value.end) < 0 then None
    else Some(Block(Moved(b, n, c.value.start), Moved(b, n, c.value.end)))
  }

  /** A search between outside places finds the same block, or where it has gone. */
  lemma {:induction false} SameSearch(was: seq<string>, now: seq<string>, b: Block, n: nat, kind: Kind, i: nat,
                                      hi: nat, key: string, value: string)
    requires Spliced(was, now, b, n) && SameField(was, now, b, n, key)
    requires i <= hi <= |was| && Outside(b, i) && Outside(b, hi)
    ensures 0 <= Moved(b, n, i) <= Moved(b, n, hi) <= |now|
    ensures var c := Search(was, kind, i, hi, key, value);
            && (c.Some? ==> Outside(b, c.value.start) && Outside(b, c.value.end)
                            && Moved(b, n, c.value.start) >= 0 && Moved(b, n, c.value.end) >= 0)
            && Search(now, kind, Moved(b, n, i), Moved(b, n, hi), key, value) == MovedBlock(b, n, c)
    decreases hi - i
  {
    hide IsHeader, NextHeader, FieldValue, Spliced, SameField, Search;
    SameNextHeader(was, now, b, n, kind, i, hi);
    var start := NextHeader(was, kind, i, hi);
    SearchSkips(was, kind, i, hi, key, value);
    SearchSkips(now, kind, Moved(b, n, i), Moved(b, n, hi), key, value);
    if start == hi {
      NothingLeft(was, kind, hi, key, value);
      NothingLeft(now, kind, Moved(b, n, hi), key, value);
    } else {
      SameEnd(was, now, b, n, kind, start, hi);
      var end := NextHeader(was, kind, start + 1, hi);
      SameValue(was, now, b, n, key, start, end);
      SearchStep(was, kind, start, hi, key, value);
      SearchStep(now, kind, Moved(b, n, start), Moved(b, n, hi), key, value);
      SameSearch(was, now, b, n, kind, end, hi, key, value);
    }
  }

  // ----- withdrawing -----

  lemma {:induction false} FindIsRelease(lines: seq<string>, pack: string, version: string)
    ensures Find(lines, pack, version).Some? ==>
              var b, p := Find(lines, pack, version).value, FindPack(lines, pack);
              && p.Some? && IsBlock(lines, Pack, 0, |lines|, p.value)
              && FieldValue(lines, p.value.start, p.value.end, "name") == Some(pack)
              && IsBlock(lines, Release, p.value.start, p.value.end, b)
              && FieldValue(lines, b.start, b.end, "version") == Some(version)
  {
    hide IsHeader, FieldValue, Search;
    SearchFinds(lines, Pack, 0, |lines|, "name", pack);
    if FindPack(lines, pack).Some? {
      var p := FindPack(lines, pack).value;
      SearchFinds(lines, Release, p.start, p.end, "version", version);
    }
  }

  lemma {:induction false} FoundIsOneRelease(lines: seq<string>, pack: string, version: string)
    ensures Find(lines, pack, version).Some? ==>
              var b := Find(lines, pack, version).value;
              OneRelease(lines[b.start..b.end])
  {
    hide IsHeader, FieldValue, Search, Find;
    FindIsRelease(lines, pack, version);
  }

  lemma {:induction false} SpliceOf(was: seq<string>, b: Block, release: seq<string>)
    requires b.start < b.end <= |was|
    requires OneRelease(was[b.start..b.end]) && OneRelease(release) && release[0] == was[b.start]
    ensures Spliced(was, was[..b.start] + release + was[b.end..], b, |release|)
  {
    hide IsHeader;
    var now := was[..b.start] + release + was[b.end..];
    forall k | b.start < k < b.end ensures !IsHeader(Pack, was[k]) && !IsHeader(Release, was[k]) {
      assert was[k] == was[b.start..b.end][k - b.start];
    }
    forall k | b.start < k < b.start + |release| ensures !IsHeader(Pack, now[k]) && !IsHeader(Release, now[k]) {
      assert now[k] == release[k - b.start];
    }
  }

  lemma {:induction false} SameFieldOf(was: seq<string>, b: Block, release: seq<string>, key: string)
    requires b.start < b.end <= |was| && Spliced(was, was[..b.start] + release + was[b.end..], b, |release|)
    requires FieldValue(release, 0, |release|, key) == FieldValue(was[b.start..b.end], 0, b.end - b.start, key)
    ensures SameField(was, was[..b.start] + release + was[b.end..], b, |release|, key)
  {
    hide Spliced, FieldValue;
    var now := was[..b.start] + release + was[b.end..];
    ValueSlice(was, b.start, b.end, was[b.start..b.end], 0, key);
    ValueSlice(now, b.start, b.start + |release|, release, 0, key);
  }

  /** How many lines the withdrawn release has. */
  function Grown(lines: seq<string>, b: Block, reason: string): nat
    requires b.start <= b.end <= |lines|
  {
    |WithdrawnLines(lines[b.start..b.end], reason)|
  }

  lemma {:induction false} WithdrawalSplices(lines: seq<string>, pack: string, version: string, reason: string)
    ensures Find(lines, pack, version).Some? ==>
              var b := Find(lines, pack, version).value;
              var now, n := Withdrawn(lines, b, reason), Grown(lines, b, reason);
              Spliced(lines, now, b, n) && SameField(lines, now, b, n, "name") && SameField(lines, now, b, n, "version")
  {
    hide IsHeader, FieldValue, Find, WithdrawnLines, Spliced, SameField, OneRelease, Rest, Sets;
    if Find(lines, pack, version).Some? {
      FoundIsOneRelease(lines, pack, version);
      var b := Find(lines, pack, version).value;
      var release := lines[b.start..b.end];
      var edited := WithdrawnLines(release, reason);
      WithdrawnRelease(release, reason, "name");
      WithdrawnRelease(release, reason, "version");
      assert release[0] == lines[b.start];
      SpliceOf(lines, b, edited);
      SameFieldOf(lines, b, edited, "name");
      SameFieldOf(lines, b, edited, "version");
    }
  }

  lemma {:induction false} SameFind(lines: seq<string>, now: seq<string>, b: Block, n: nat, pack: string,
                                    version: string)
    requires Spliced(lines, now, b, n) && SameField(lines, now, b, n, "name") && SameField(lines, now, b, n, "version")
    ensures Find(now, pack, version) == MovedBlock(b, n, Find(lines, pack, version))
    ensures var c := Find(lines, pack, version);
            c.Some? ==> Outside(b, c.value.start) && Outside(b, c.value.end)
                        && Moved(b, n, c.value.start) >= 0 && Moved(b, n, c.value.end) >= 0
  {
    hide IsHeader, FieldValue, Spliced, SameField, Search;
    Lengths(lines, now, b, n);
    SameSearch(lines, now, b, n, Pack, 0, |lines|, "name", pack);
    var p := FindPack(lines, pack);
    if p.Some? {
      SearchBounds(lines, Pack, 0, |lines|, "name", pack);
      SameSearch(lines, now, b, n, Release, p.value.start, p.value.end, "version", version);
    }
  }

  /** Two blocks of one kind that share a line are one. */
  lemma {:induction false} BlocksApart(lines: seq<string>, kind: Kind, lo: nat, hi: nat, b: Block, c: Block)
    requires IsBlock(lines, kind, lo, hi, b) && IsBlock(lines, kind, lo, hi, c)
    ensures b == c || b.end <= c.start || c.end <= b.start
  {
    hide IsHeader;
  }

  /** Different packs or versions have different releases. */
  lemma {:induction false} ReleasesApart(lines: seq<string>, pack: string, version: string, pack': string,
                                         version': string)
    requires pack != pack' || version != version'
    ensures Find(lines, pack, version).Some? && Find(lines, pack', version').Some? ==>
              var b, c := Find(lines, pack, version).value, Find(lines, pack', version').value;
              c.end <= b.start || b.end <= c.start
  {
    hide IsHeader, FieldValue, Find, FindPack;
    if Find(lines, pack, version).Some? && Find(lines, pack', version').Some? {
      FindIsRelease(lines, pack, version);
      FindIsRelease(lines, pack', version');
      var p, q := FindPack(lines, pack).value, FindPack(lines, pack').value;
      var b, c := Find(lines, pack, version).value, Find(lines, pack', version').value;
      BlocksApart(lines, Pack, 0, |lines|, p, q);
      if p == q {
        BlocksApart(lines, Release, p.start, p.end, b, c);
      }
    }
  }

  /** The release that any other pack and version name is the same lines as before, or still missing. */
  lemma {:induction false} OthersKept(lines: seq<string>, pack: string, version: string, reason: string,
                                      pack': string, version': string)
    requires pack != pack' || version != version'
    ensures Find(lines, pack, version).Some? ==>
              var now := Withdrawn(lines, Find(lines, pack, version).value, reason);
              var c, d := Find(lines, pack', version'), Find(now, pack', version');
              && (c.Some? <==> d.Some?)
              && (c.Some? ==> now[d.value.start..d.value.end] == lines[c.value.start..c.value.end])
  {
    hide IsHeader, Find, Withdrawn, Grown, SameField;
    if Find(lines, pack, version).Some? {
      var b := Find(lines, pack, version).value;
      var now, n := Withdrawn(lines, b, reason), Grown(lines, b, reason);
      WithdrawalSplices(lines, pack, version, reason);
      SameFind(lines, now, b, n, pack', version');
      ReleasesApart(lines, pack, version, pack', version');
    }
  }
}
