/** The stat listing of a remote board: one "mtime size name" line a document, in any order. */
module Listing {
  import opened Wrappers

  datatype Stat = Stat(mtime: int, size: int)

  // ----- document names -----

  predicate Alphanumeric(c: char) {
    'a' <= c <= 'z' || 'A' <= c <= 'Z' || '0' <= c <= '9'
  }

  predicate EndsInMd(name: string) {
    |name| >= 3 && name[|name| - 3..] == ".md"
  }

  predicate ValidName(name: string) {
    && EndsInMd(name) && |name| <= 255 && Alphanumeric(name[0])
    && forall k | 0 <= k < |name| :: Alphanumeric(name[k]) || name[k] in "._-"
  }

  method ValidateName(name: string) returns (ok: bool)
    ensures ok <==> ValidName(name)
  {
    if !EndsInMd(name) || |name| > 255 {
      return false;
    }
    for i := 0 to |name|
      invariant i > 0 ==> Alphanumeric(name[0])
      invariant forall k | 0 <= k < i :: Alphanumeric(name[k]) || name[k] in "._-"
    {
      var allowed := Alphanumeric(name[i]) || name[i] in "._-";
      if i == 0 {
        allowed := Alphanumeric(name[i]);
      }
      if !allowed {
        return false;
      }
    }
    return true;
  }

  // ----- numbers -----

  const MAX_INT64: int := 0x7fff_ffff_ffff_ffff
  const MIN_INT64: int := -0x8000_0000_0000_0000

  predicate IsDigit(c: char) {
    '0' <= c <= '9'
  }

  function Digits(n: nat): (s: string)
    ensures s != "" && forall c <- s :: IsDigit(c)
  {
    if n < 10 then [('0' as int + n) as char] else Digits(n / 10) + [('0' as int + n % 10) as char]
  }

  function Value(s: string): nat
    requires forall c <- s :: IsDigit(c)
  {
    if s == "" then 0
    else
      assert IsDigit(s[|s| - 1]);
      10 * Value(s[..|s| - 1]) + (s[|s| - 1] as int - '0' as int)
  }

  lemma {:induction false} ValueOfDigits(n: nat)
    ensures Value(Digits(n)) == n
  {
    if n >= 10 {
      ValueOfDigits(n / 10);
      assert Digits(n)[..|Digits(n)| - 1] == Digits(n / 10);
    } else {
      assert Digits(n)[..0] == "";
    }
  }

  /** Base ten with an optional sign, within 64 bits. */
  function ParseInt(s: string): Option<int> {
    var digits := if s != "" && s[0] in "+-" then s[1..] else s;
    if digits == "" || exists c <- digits :: !IsDigit(c) then None
    else
      var n: int := if s[0] == '-' then 0 - Value(digits) else Value(digits);
      if MIN_INT64 <= n <= MAX_INT64 then Some(n) else None
  }

  function Decimal(n: int): (s: string)
    ensures s != "" && forall c <- s :: IsDigit(c) || c == '-'
  {
    if n < 0 then "-" + Digits(-n) else Digits(n)
  }

  lemma {:induction false} ParseDecimal(n: int)
    requires MIN_INT64 <= n <= MAX_INT64
    ensures ParseInt(Decimal(n)) == Some(n)
  {
    if n < 0 {
      ValueOfDigits(-n);
      assert Decimal(n)[1..] == Digits(-n);
    } else {
      ValueOfDigits(n);
      assert IsDigit(Digits(n)[0]);
    }
  }

  // ----- lines -----

  /** The white space a line is trimmed of. */
  predicate IsSpace(c: char) {
    || c in " \t\n\r\U{0B}\U{0C}\U{85}\U{A0}\U{1680}\U{2028}\U{2029}\U{202F}\U{205F}\U{3000}"
    || '\U{2000}' <= c <= '\U{200A}'
  }

  function Trim(s: string): (t: string)
    ensures t != "" ==> !IsSpace(t[0]) && !IsSpace(t[|t| - 1])
    ensures s == "" || (!IsSpace(s[0]) && !IsSpace(s[|s| - 1])) ==> t == s
  {
    if s == "" then s
    else if IsSpace(s[0]) then Trim(s[1..])
    else if IsSpace(s[|s| - 1]) then Trim(s[..|s| - 1])
    else s
  }

  /** The first place of c in s from i on, or the end. */
  function Find(s: string, c: char, i: nat): (j: nat)
    requires i <= |s|
    ensures i <= j <= |s| && (j < |s| ==> s[j] == c) && forall k | i <= k < j :: s[k] != c
    decreases |s| - i
  {
    if i == |s| || s[i] == c then i else Find(s, c, i + 1)
  }

  datatype Line = Blank | Broken | Stray | Doc(name: string, stat: Stat)

  /** What one line says: nothing, nonsense, a document outside the naming contract, or a document. */
  function ReadLine(raw: string): Line {
    var line := Trim(raw);
    if line == "" then Blank
    else
      var a := Find(line, ' ', 0);
      if a == |line| then Broken
      else
        var b := Find(line, ' ', a + 1);
        if b == |line| then Broken
        else
          var mtime, size, name := ParseInt(line[..a]), ParseInt(line[a + 1..b]), line[b + 1..];
          if mtime.None? || size.None? then Broken
          else if !ValidName(name) then Stray
          else Doc(name, Stat(mtime.value, size.value))
  }

  /** The text cut at its newlines, from position i on. */
  function Split(text: string, i: nat): (lines: seq<string>)
    requires i <= |text|
    decreases |text| - i
  {
    var e := Find(text, '\n', i);
    if e == |text| then [text[i..]] else [text[i..e]] + Split(text, e + 1)
  }

  /** The documents among the first n lines, the last line of each name; None once a line is broken. */
  function Documents(lines: seq<string>, n: nat): Option<map<string, Stat>>
    requires n <= |lines|
  {
    if n == 0 then Some(map[])
    else
      var before, line := Documents(lines, n - 1), ReadLine(lines[n - 1]);
      if before.None? || line.Broken? then None
      else if line.Doc? then Some(before.value[line.name := line.stat])
      else before
  }

  method ParseLine(raw: string) returns (r: Line)
    ensures r == ReadLine(raw)
  {
    hide ValidName, ParseInt, Trim, Find;
    var line := Trim(raw);
    if line == "" {
      return Blank;
    }
    var a := Find(line, ' ', 0);
    if a == |line| {
      return Broken;
    }
    var b := Find(line, ' ', a + 1);
    if b == |line| {
      return Broken;
    }
    var mtime := ParseInt(line[..a]);
    if mtime.None? {
      return Broken;
    }
    var size := ParseInt(line[a + 1..b]);
    if size.None? {
      return Broken;
    }
    var name := line[b + 1..];
    var valid := ValidateName(name);
    return if valid then Doc(name, Stat(mtime.value, size.value)) else Stray;
  }

  /** One broken line fails the whole listing, however good the others are. */
  method ParseListing(text: string) returns (r: Result<map<string, Stat>, string>)
    ensures var docs := Documents(Split(text, 0), |Split(text, 0)|);
            if docs.Some? then r == Ok(docs.value) else r.Err?
    ensures r.Err? <==> exists line <- Split(text, 0) :: ReadLine(line).Broken?
  {
    hide ReadLine, Split;
    var lines := Split(text, 0);
    var listing: map<string, Stat> := map[];
    for i := 0 to |lines|
      invariant Documents(lines, i) == Some(listing)
      invariant forall k | 0 <= k < i :: !ReadLine(lines[k]).Broken?
    {
      var line := ParseLine(lines[i]);
      if line.Broken? {
        BrokenStays(lines, i + 1, |lines|);
        return Err(lines[i]);
      }
      if line.Doc? {
        listing := listing[line.name := line.stat];
      }
    }
    return Ok(listing);
  }

  lemma {:induction false} BrokenStays(lines: seq<string>, m: nat, n: nat)
    requires m <= n <= |lines| && Documents(lines, m).None?
    ensures Documents(lines, n).None?
  {
    hide ReadLine;
    if m < n {
      BrokenStays(lines, m, n - 1);
    }
  }

  // ----- what a peer sends -----

  /** One line as the remote stat prints it. */
  function Rendered(name: string, stat: Stat): string {
    Decimal(stat.mtime) + " " + Decimal(stat.size) + " " + name
  }

  /** Any document name the remote glob can match: it may hold spaces, but no newline. */
  predicate Globbed(name: string) {
    EndsInMd(name) && '\n' !in name
  }

  predicate FitsInt64(stat: Stat) {
    MIN_INT64 <= stat.mtime <= MAX_INT64 && MIN_INT64 <= stat.size <= MAX_INT64
  }

  lemma {:induction false} FindAfter(before: string, c: char, rest: string, i: nat)
    requires i <= |before| && forall k | i <= k < |before| :: before[k] != c
    ensures Find(before + [c] + rest, c, i) == |before|
    decreases |before| - i
  {
    if i < |before| {
      FindAfter(before, c, rest, i + 1);
    }
  }

  lemma {:induction false} TrimRendered(name: string, stat: Stat)
    requires Globbed(name)
    ensures Trim(Rendered(name, stat)) == Rendered(name, stat) != ""
  {
    hide Trim, Decimal;
    var line, m := Rendered(name, stat), Decimal(stat.mtime);
    assert line[0] == m[0] && m[0] in m;
    assert line[|line| - 1] == name[|name| - 1] == name[|name| - 3..][2];
  }

  lemma {:induction false} Spaceless(n: int)
    ensures forall k | 0 <= k < |Decimal(n)| :: Decimal(n)[k] != ' '
  {
    hide Decimal;
    forall k | 0 <= k < |Decimal(n)| ensures Decimal(n)[k] != ' ' {
      assert Decimal(n)[k] in Decimal(n);
    }
  }

  /** Two fields without spaces and a rest are cut apart again. */
  lemma {:induction false} CutFields(m: string, z: string, name: string)
    requires (forall k | 0 <= k < |m| :: m[k] != ' ') && forall k | 0 <= k < |z| :: z[k] != ' '
    ensures var line := m + " " + z + " " + name;
            && Find(line, ' ', 0) == |m| && Find(line, ' ', |m| + 1) == |m| + 1 + |z| < |line|
            && line[..|m|] == m && line[|m| + 1..|m| + 1 + |z|] == z && line[|m| + 1 + |z| + 1..] == name
  {
    hide Find;
    var line := m + " " + z + " " + name;
    assert line == m + [' '] + (z + " " + name);
    FindAfter(m, ' ', z + " " + name, 0);
    assert line == (m + " " + z) + [' '] + name;
    FindAfter(m + " " + z, ' ', name, |m| + 1);
  }

  lemma {:induction false} RenderedReadsBack(name: string, stat: Stat)
    requires Globbed(name) && FitsInt64(stat)
    ensures ReadLine(Rendered(name, stat)) == if ValidName(name) then Doc(name, stat) else Stray
  {
    hide Trim, Find, Decimal, ParseInt, ValidName;
    TrimRendered(name, stat);
    Spaceless(stat.mtime);
    Spaceless(stat.size);
    CutFields(Decimal(stat.mtime), Decimal(stat.size), name);
    ParseDecimal(stat.mtime);
    ParseDecimal(stat.size);
  }

  // ----- whole listings -----

  /** The lines from k on, each with its newline. */
  function Output(names: seq<string>, stats: map<string, Stat>, k: nat): string
    requires k <= |names| && forall name <- names :: name in stats
    decreases |names| - k
  {
    if k == |names| then "" else Rendered(names[k], stats[names[k]]) + "\n" + Output(names, stats, k + 1)
  }

  function Lines(names: seq<string>, stats: map<string, Stat>, k: nat): seq<string>
    requires k <= |names| && forall name <- names :: name in stats
    decreases |names| - k
  {
    if k == |names| then [""] else [Rendered(names[k], stats[names[k]])] + Lines(names, stats, k + 1)
  }

  lemma {:induction false} NoNewline(name: string, stat: Stat)
    requires Globbed(name)
    ensures forall k | 0 <= k < |Rendered(name, stat)| :: Rendered(name, stat)[k] != '\n'
  {
    hide Decimal;
    var line := Rendered(name, stat);
    assert forall c <- line :: c in Decimal(stat.mtime) || c in Decimal(stat.size) || c == ' ' || c in name;
    forall k | 0 <= k < |line| ensures line[k] != '\n' {
      assert line[k] in line;
    }
  }

  lemma {:induction false} FindAt(text: string, c: char, i: nat, j: nat)
    requires i <= j < |text| && text[j] == c && forall k | i <= k < j :: text[k] != c
    ensures Find(text, c, i) == j
    decreases j - i
  {
    if i < j {
      FindAt(text, c, i + 1, j);
    }
  }

  lemma {:induction false} SplitOne(text: string, i: nat, j: nat)
    requires i <= j < |text| && text[j] == '\n' && forall k | i <= k < j :: text[k] != '\n'
    ensures Split(text, i) == [text[i..j]] + Split(text, j + 1)
  {
    FindAt(text, '\n', i, j);
  }

  lemma {:induction false} LineStands(before: string, line: string, rest: string)
    ensures var text, i, j := before + (line + "\n" + rest), |before|, |before| + |line|;
            && j < |text| && text[j] == '\n' && text[i..j] == line
            && forall k | i <= k < j :: text[k] == line[k - i]
  {
  }

  lemma {:induction false} Regroup(before: string, line: string, rest: string)
    ensures before + (line + "\n" + rest) == (before + line + "\n") + rest
  {
  }

  lemma {:induction false} SplitOutput(before: string, names: seq<string>, stats: map<string, Stat>, k: nat)
    requires k <= |names| && (forall name <- names :: name in stats && Globbed(name))
    ensures Split(before + Output(names, stats, k), |before|) == Lines(names, stats, k)
    decreases |names| - k
  {
    hide Split, Rendered, Globbed;
    if k == |names| {
      SplitEnd(before);
      assert before + "" == before;
    } else {
      var line, rest := Rendered(names[k], stats[names[k]]), Output(names, stats, k + 1);
      NoNewline(names[k], stats[names[k]]);
      LineStands(before, line, rest);
      SplitOne(before + (line + "\n" + rest), |before|, |before| + |line|);
      Regroup(before, line, rest);
      SplitOutput(before + line + "\n", names, stats, k + 1);
    }
  }

  lemma {:induction false} SplitEnd(before: string)
    ensures Split(before, |before|) == [""]
  {
    assert before[|before|..] == "";
  }

  /** The valid names among the first n, each with its stat. */
  function Valid(names: seq<string>, stats: map<string, Stat>): map<string, Stat>
    requires forall name <- names :: name in stats
  {
    map name | name in stats && name in names && ValidName(name) :: stats[name]
  }

  lemma {:induction false} LinesAt(names: seq<string>, stats: map<string, Stat>, k: nat, j: nat)
    requires k <= j <= |names| && forall name <- names :: name in stats
    ensures |Lines(names, stats, k)| == |names| - k + 1
    ensures Lines(names, stats, k)[j - k] == if j == |names| then "" else Rendered(names[j], stats[names[j]])
    decreases |names| - k
  {
    hide Rendered;
    if k < |names| {
      LinesAt(names, stats, k + 1, if j == k then k + 1 else j);
    }
  }

  lemma {:induction false} ValidMore(names: seq<string>, stats: map<string, Stat>, n: nat)
    requires 0 < n <= |names| && forall name <- names :: name in stats
    ensures var was, name := Valid(names[..n - 1], stats), names[n - 1];
            Valid(names[..n], stats) == if ValidName(name) then was[name := stats[name]] else was
  {
    hide ValidName;
    assert names[..n] == names[..n - 1] + [names[n - 1]];
  }

  lemma {:induction false} DocumentsOfLines(names: seq<string>, stats: map<string, Stat>, n: nat)
    requires n <= |names|
    requires forall name <- names :: name in stats && Globbed(name) && FitsInt64(stats[name])
    ensures |Lines(names, stats, 0)| == |names| + 1
    ensures Documents(Lines(names, stats, 0), n) == Some(Valid(names[..n], stats))
  {
    hide ReadLine, Rendered, Globbed, ValidName, Lines;
    LinesAt(names, stats, 0, 0);
    if n > 0 {
      DocumentsOfLines(names, stats, n - 1);
      LinesAt(names, stats, 0, n - 1);
      RenderedReadsBack(names[n - 1], stats[names[n - 1]]);
      ValidMore(names, stats, n);
    } else {
      assert Valid(names[..0], stats) == map[];
    }
  }

  /** Whatever order the peer lists its documents in, and whatever strays lie between them, the listing
      parsed is the documents' names and stats. */
  lemma {:induction false} ListingReadsBack(names: seq<string>, stats: map<string, Stat>)
    requires forall name <- names :: name in stats && Globbed(name) && FitsInt64(stats[name])
    ensures var lines := Split(Output(names, stats, 0), 0);
            Documents(lines, |lines|) == Some(Valid(names, stats))
  {
    hide Split, Documents, Lines, Valid, Output, Globbed;
    SplitOutput("", names, stats, 0);
    assert "" + Output(names, stats, 0) == Output(names, stats, 0);
    DocumentsOfLines(names, stats, |names|);
    assert names[..|names|] == names;
    LinesAt(names, stats, 0, |names|);
    LastBlank(Lines(names, stats, 0));
  }

  lemma {:induction false} LastBlank(lines: seq<string>)
    requires lines != [] && lines[|lines| - 1] == ""
    ensures Documents(lines, |lines|) == Documents(lines, |lines| - 1)
  {
  }
}
