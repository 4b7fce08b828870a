/** Line-preserving edits of a pack registry: finding a pack's release by its header and fields, and
    marking the release withdrawn. */
module Registry {
  import opened Wrappers

  // ----- one line -----

  predicate IsSpace(c: char) {
    || c in " \t\n\r\U{0B}\U{0C}\U{85}\U{A0}\U{1680}\U{2028}\U{2029}\U{202F}\U{205F}\U{3000}"
    || '\U{1C}' <= c <= '\U{1F}' || '\U{2000}' <= c <= '\U{200A}'
  }

  function SkipSpace(s: string, i: nat): (j: nat)
    requires i <= |s|
    ensures i <= j <= |s| && (forall k | i <= k < j :: IsSpace(s[k])) && (j < |s| ==> !IsSpace(s[j]))
    decreases |s| - i
  {
    if i < |s| && IsSpace(s[i]) then SkipSpace(s, i + 1) else i
  }

  predicate IsKeyChar(c: char) {
    'a' <= c <= 'z' || 'A' <= c <= 'Z' || c == '_'
  }

  function KeyEnd(s: string, i: nat): (j: nat)
    requires i <= |s|
    ensures i <= j <= |s| && (forall k | i <= k < j :: IsKeyChar(s[k])) && (j < |s| ==> !IsKeyChar(s[j]))
    decreases |s| - i
  {
    if i < |s| && IsKeyChar(s[i]) then KeyEnd(s, i + 1) else i
  }

  function QuoteEnd(s: string, i: nat): (j: nat)
    requires i <= |s|
    ensures i <= j <= |s|
    decreases |s| - i
  {
    if i < |s| && s[i] != '"' then QuoteEnd(s, i + 1) else i
  }

  predicate IsPackHeader(line: string) {
    |line| >= 8 && line[..8] == "[[pack]]" && SkipSpace(line, 8) == |line|
  }

  predicate IsReleaseHeader(line: string) {
    var i := SkipSpace(line, 0);
    i + 16 <= |line| && line[i..i + 16] == "[[pack.release]]" && SkipSpace(line, i + 16) == |line|
  }

  /** Where the equals sign of a field line stands; the line's length when it is no field line. */
  function Equals(line: string): (k: nat)
    ensures k <= |line|
  {
    var i := SkipSpace(line, 0);
    var j := KeyEnd(line, i);
    var k := SkipSpace(line, j);
    if i < j && k < |line| && line[k] == '=' then k else |line|
  }

  function FieldKey(line: string): Option<string> {
    var i := SkipSpace(line, 0);
    if Equals(line) == |line| then None else Some(line[i..KeyEnd(line, i)])
  }

  /** The text between the quotes of a line that sets key. */
  function Quoted(line: string, key: string): Option<string> {
    if FieldKey(line) != Some(key) then None
    else if Equals(line) == |line| then None
    else
      var m := SkipSpace(line, Equals(line) + 1);
      if m == |line| || line[m] != '"' then None
      else
        var e := QuoteEnd(line, m + 1);
        if e == |line| then None else Some(line[m + 1..e])
  }

  /** A field line as the helpers write it. */
  function Made(key: string, value: string): string {
    "  " + key + " = " + value + "\n"
  }

  // ----- blocks -----

  datatype Kind = Pack | Release

  predicate IsHeader(kind: Kind, line: string) {
    if kind.Pack? then IsPackHeader(line) else IsReleaseHeader(line)
  }

  function NextHeader(lines: seq<string>, kind: Kind, i: nat, hi: nat): (h: nat)
    requires i <= hi <= |lines|
    ensures i <= h <= hi && (h < hi ==> IsHeader(kind, lines[h])) && forall k | i <= k < h :: !IsHeader(kind, lines[k])
    decreases hi - i
  {
    if i == hi || IsHeader(kind, lines[i]) then i else NextHeader(lines, kind, i + 1, hi)
  }

  /** The first quoted value of key in lines[i..hi]. */
  function FieldValue(lines: seq<string>, i: nat, hi: nat, key: string): Option<string>
    requires i <= hi <= |lines|
    decreases hi - i
  {
    if i == hi then None
    else if Quoted(lines[i], key).Some? then Quoted(lines[i], key)
    else FieldValue(lines, i + 1, hi, key)
  }

  datatype Block = Block(start: nat, end: nat)

  /** The first block of the kind in lines[i..hi] whose key has the value: from its header to the next. */
  function Search(lines: seq<string>, kind: Kind, i: nat, hi: nat, key: string, value: string): Option<Block>
    requires i <= hi <= |lines|
    decreases hi - i
  {
    var start := NextHeader(lines, kind, i, hi);
    if start == hi then None
    else
      var end := NextHeader(lines, kind, start + 1, hi);
      if FieldValue(lines, start, end, key) == Some(value) then Some(Block(start, end))
      else Search(lines, kind, end, hi, key, value)
  }

  /** A block of the kind between lo and hi: a header and all that follows it before the next. */
  ghost predicate IsBlock(lines: seq<string>, kind: Kind, lo: nat, hi: nat, b: Block) {
    && lo <= b.start < b.end <= hi <= |lines|
    && IsHeader(kind, lines[b.start])
    && (forall k | b.start < k < b.end :: !IsHeader(kind, lines[k]))
    && (b.end < hi ==> IsHeader(kind, lines[b.end]))
  }

  /** The first block starts at the first header and ends at the second; every other is behind it. */
  lemma {:induction false} FirstBlock(lines: seq<string>, kind: Kind, i: nat, hi: nat, c: Block)
    requires i <= hi <= |lines| && IsBlock(lines, kind, i, hi, c)
    ensures var start := NextHeader(lines, kind, i, hi);
            && start < hi
            && var end := NextHeader(lines, kind, start + 1, hi);
               c == Block(start, end) || IsBlock(lines, kind, end, hi, c)
  {
    hide IsHeader, NextHeader;
    var start := NextHeader(lines, kind, i, hi);
    assert start <= c.start;
    var end := NextHeader(lines, kind, start + 1, hi);
    if c.start == start {
      assert c.end <= end && end <= c.end;
    } else {
      assert end <= c.start;
    }
  }

  /** Search finds a block of the value. */
  lemma {:induction false} SearchFinds(lines: seq<string>, kind: Kind, i: nat, hi: nat, key: string, value: string)
    requires i <= hi <= |lines|
    ensures var b := Search(lines, kind, i, hi, key, value);
            b.Some? ==>
              && IsBlock(lines, kind, i, hi, b.value)
              && FieldValue(lines, b.value.start, b.value.end, key) == Some(value)
    decreases hi - i
  {
    hide IsHeader, FieldValue, NextHeader;
    var start := NextHeader(lines, kind, i, hi);
    if start < hi {
      SearchFinds(lines, kind, NextHeader(lines, kind, start + 1, hi), hi, key, value);
    }
  }

  /** Search finds one if there is any, and none before it. */
  lemma {:induction false} SearchFindsFirst(lines: seq<string>, kind: Kind, i: nat, hi: nat, key: string,
                                            value: string, c: Block)
    requires i <= hi <= |lines| && IsBlock(lines, kind, i, hi, c)
    requires FieldValue(lines, c.start, c.end, key) == Some(value)
    ensures var b := Search(lines, kind, i, hi, key, value);
            b.Some? && b.value.start <= c.start
    decreases hi - i
  {
    hide IsHeader, FieldValue, NextHeader, IsBlock;
    FirstBlock(lines, kind, i, hi, c);
    var start := NextHeader(lines, kind, i, hi);
    var end := NextHeader(lines, kind, start + 1, hi);
    BlockBounds(lines, kind, i, hi, c);
    if c != Block(start, end) {
      BlockBounds(lines, kind, end, hi, c);
      SearchFindsFirst(lines, kind, end, hi, key, value, c);
    }
  }

  lemma {:induction false} BlockBounds(lines: seq<string>, kind: Kind, lo: nat, hi: nat, b: Block)
    requires IsBlock(lines, kind, lo, hi, b)
    ensures lo <= b.start < b.end <= hi <= |lines|
  {
  }

  /** At a header, the block is this one or one behind it. */
  lemma {:induction false} SearchStep(lines: seq<string>, kind: Kind, start: nat, hi: nat, key: string, value: string)
    requires start < hi <= |lines| && IsHeader(kind, lines[start])
    ensures var end := NextHeader(lines, kind, start + 1, hi);
            Search(lines, kind, start, hi, key, value) ==
            if FieldValue(lines, start, end, key) == Some(value) then Some(Block(start, end))
            else Search(lines, kind, end, hi, key, value)
  {
    hide IsHeader, FieldValue, NextHeader;
    assert NextHeader(lines, kind, start, hi) == start;
  }

  lemma {:induction false} SearchSkips(lines: seq<string>, kind: Kind, i: nat, hi: nat, key: string, value: string)
    requires i <= hi <= |lines|
    ensures Search(lines, kind, i, hi, key, value)
         == Search(lines, kind, NextHeader(lines, kind, i, hi), hi, key, value)
  {
    hide IsHeader, FieldValue, NextHeader;
    var start := NextHeader(lines, kind, i, hi);
    if start < hi {
      SearchStep(lines, kind, start, hi, key, value);
    }
  }

  lemma {:induction false} NothingLeft(lines: seq<string>, kind: Kind, hi: nat, key: string, value: string)
    requires hi <= |lines|
    ensures Search(lines, kind, hi, hi, key, value) == None
  {
  }

  function FindPack(lines: seq<string>, pack: string): Option<Block> {
    Search(lines, Pack, 0, |lines|, "name", pack)
  }

  lemma {:induction false} SearchBounds(lines: seq<string>, kind: Kind, i: nat, hi: nat, key: string, value: string)
    requires i <= hi <= |lines|
    ensures var b := Search(lines, kind, i, hi, key, value);
            b.Some? ==> i <= b.value.start < b.value.end <= hi
  {
    hide Search;
    SearchFinds(lines, kind, i, hi, key, value);
  }

  /** The release of a version within the first pack of a name. */
  function Find(lines: seq<string>, pack: string, version: string): (b: Option<Block>)
    ensures b.Some? ==> b.value.start < b.value.end <= |lines|
  {
    SearchBounds(lines, Pack, 0, |lines|, "name", pack);
    var p := FindPack(lines, pack);
    if p.None? then None
    else
      SearchBounds(lines, Release, p.value.start, p.value.end, "version", version);
      Search(lines, Release, p.value.start, p.value.end, "version", version)
  }

  method FindBlock(lines: seq<string>, kind: Kind, lo: nat, hi: nat, key: string, value: string)
    returns (b: Option<Block>)
    requires lo <= hi <= |lines|
    ensures b == Search(lines, kind, lo, hi, key, value)
  {
    hide IsHeader, FieldValue, NextHeader, Search;
    var i := NextHeader(lines, kind, lo, hi);
    SearchSkips(lines, kind, lo, hi, key, value);
    while i < hi
      invariant lo <= i <= hi && (i < hi ==> IsHeader(kind, lines[i]))
      invariant Search(lines, kind, i, hi, key, value) == Search(lines, kind, lo, hi, key, value)
      decreases hi - i
    {
      SearchStep(lines, kind, i, hi, key, value);
      var end := NextHeader(lines, kind, i + 1, hi);
      if FieldValue(lines, i, end, key) == Some(value) {
        return Some(Block(i, end));
      }
      i := end;
    }
    NothingLeft(lines, kind, hi, key, value);
    return None;
  }

  // ----- edits -----

  /** The first line of lines[i..hi] that sets key, or hi. */
  function FieldIndex(lines: seq<string>, i: nat, hi: nat, key: string): (k: nat)
    requires i <= hi <= |lines|
    ensures i <= k <= hi && (k < hi ==> FieldKey(lines[k]) == Some(key))
    ensures forall j | i <= j < k :: FieldKey(lines[j]) != Some(key)
    decreases hi - i
  {
    if i == hi || FieldKey(lines[i]) == Some(key) then i else FieldIndex(lines, i + 1, hi, key)
  }

  /** The place after the last description among the first n lines, or `none`. */
  function AfterDescription(lines: seq<string>, n: nat, none: nat): (k: nat)
    requires n <= |lines|
    ensures k == none || 0 < k <= n
  {
    if n == 0 then none
    else if FieldKey(lines[n - 1]) == Some("description") then n
    else AfterDescription(lines, n - 1, none)
  }

  function Upserted(lines: seq<string>, key: string, value: string): seq<string> {
    var k := FieldIndex(lines, 0, |lines|, key);
    if k < |lines| then lines[k := Made(key, value)]
    else
      var at := AfterDescription(lines, |lines|, |lines|);
      lines[..at] + [Made(key, value)] + lines[at..]
  }

  class LineList {
    var lines: seq<string>

    constructor (lines: seq<string>)
      ensures this.lines == lines
    {
      this.lines := lines;
    }

    /** Replaces the first line of [start, end) that sets key. */
    method ReplaceField(start: nat, end: nat, key: string, value: string) returns (changed: bool)
      requires start <= end <= |lines|
      modifies this
      ensures var k := FieldIndex(old(lines), start, end, key);
              && changed == (k < end)
              && lines == if k < end then old(lines)[k := Made(key, value)] else old(lines)
    {
      var i := start;
      while i < end
        invariant start <= i <= end && lines == old(lines)
        invariant FieldIndex(lines, i, end, key) == FieldIndex(lines, start, end, key)
      {
        if FieldKey(lines[i]) == Some(key) {
          lines := lines[i := Made(key, value)];
          return true;
        }
        i := i + 1;
      }
      return false;
    }
  }

  /** Replaces the field, or inserts it after the last description, or else at the end. */
  method UpsertField(lines: seq<string>, key: string, value: string) returns (edited: seq<string>)
    ensures edited == Upserted(lines, key, value)
  {
    var next := new LineList(lines);
    var changed := next.ReplaceField(0, |lines|, key, value);
    if changed {
      return next.lines;
    }
    var at := |lines|;
    for i := 0 to |lines|
      invariant at == AfterDescription(lines, i, |lines|)
      invariant next.lines == lines
    {
      if FieldKey(lines[i]) == Some("description") {
        at := i + 1;
      }
    }
    return next.lines[..at] + [Made(key, value)] + next.lines[at..];
  }

  /** The release's lines with both fields set. */
  function WithdrawnLines(release: seq<string>, reason: string): seq<string> {
    Upserted(Upserted(release, "withdrawn_reason", reason), "withdrawn", "true")
  }

  function Withdrawn(lines: seq<string>, b: Block, reason: string): seq<string>
    requires b.start <= b.end <= |lines|
  {
    lines[..b.start] + WithdrawnLines(lines[b.start..b.end], reason) + lines[b.end..]
  }

  /** Marks one release withdrawn; `reason` is the reason as a quoted TOML string. */
  method Withdraw(lines: seq<string>, pack: string, version: string, reason: string)
    returns (r: Result<seq<string>, string>)
    ensures var b := Find(lines, pack, version);
            if b.Some? then r == Ok(Withdrawn(lines, b.value, reason)) else r.Err?
  {
    var p := FindBlock(lines, Pack, 0, |lines|, "name", pack);
    if p.None? {
      return Err("pack not found");
    }
    SearchBounds(lines, Pack, 0, |lines|, "name", pack);
    var b := FindBlock(lines, Release, p.value.start, p.value.end, "version", version);
    if b.None? {
      return Err("release not found");
    }
    SearchBounds(lines, Release, p.value.start, p.value.end, "version", version);
    var release := UpsertField(lines[b.value.start..b.value.end], "withdrawn_reason", reason);
    release := UpsertField(release, "withdrawn", "true");
    return Ok(lines[..b.value.start] + release + lines[b.value.end..]);
  }
}
