/** What a registry line says, told by its characters, and what that makes of finding and editing a release. */
module RegistryCharacters {
  import opened Registry
  import opened RegistryProperties
  import opened Wrappers

  // ----- characters -----

  /** White space as the patterns count it, by its codes. */
  predicate White(c: char) {
    var n := c as int;
    || 9 <= n <= 13 || 28 <= n <= 32 || 8192 <= n <= 8202
    || n in {133, 160, 5760, 8232, 8233, 8239, 8287, 12288}
  }

  predicate KeyLetter(c: char) {
    65 <= c as int <= 90 || 97 <= c as int <= 122 || c as int == 95
  }

  lemma {:induction false} CharacterExact(c: char)
    ensures (IsSpace(c) <==> White(c)) && (IsKeyChar(c) <==> KeyLetter(c))
    ensures !(White(c) && KeyLetter(c)) && !White('=') && !KeyLetter('=') && !White('"') && !White('[')
  {
  }

  predicate Blank(s: string) {
    forall k | 0 <= k < |s| :: White(s[k])
  }

  predicate Word(s: string) {
    s != "" && forall k | 0 <= k < |s| :: KeyLetter(s[k])
  }

  // ----- field lines -----

  predicate SetsAs(line: string, w0: string, key: string, w1: string, rest: string) {
    line == w0 + (key + (w1 + ("=" + rest))) && Blank(w0) && Word(key) && Blank(w1)
  }

  /** White space, the key, white space, an equals sign, and anything. */
  ghost predicate SetsKey(line: string, key: string) {
    exists w0, w1, rest :: SetsAs(line, w0, key, w1, rest)
  }

  lemma {:induction false} FieldParts(line: string, w0: string, key: string, w1: string, rest: string)
    requires SetsAs(line, w0, key, w1, rest)
    ensures var j, k := |w0| + |key|, |w0| + |key| + |w1|;
            && k < |line| && line[|w0|..j] == key && line[k] == '=' && line[k + 1..] == rest
            && (forall n | 0 <= n < |w0| || j <= n < k :: White(line[n]))
            && (forall n | |w0| <= n < j :: KeyLetter(line[n]))
  {
    var j, k := |w0| + |key|, |w0| + |key| + |w1|;
    assert forall n | |w0| <= n < j :: line[n] == key[n - |w0|];
    assert forall n | j <= n < k :: line[n] == w1[n - j];
  }

  lemma {:induction false} SpaceEnds(s: string, i: nat, j: nat)
    requires i <= j < |s| && !White(s[j]) && forall k | i <= k < j :: White(s[k])
    ensures SkipSpace(s, i) == j
  {
    hide White, IsSpace;
    forall k | i <= k <= j ensures IsSpace(s[k]) <==> White(s[k]) {
      CharacterExact(s[k]);
    }
    SkipSpaceAt(s, i, j);
  }

  lemma {:induction false} KeyEnds(s: string, i: nat, j: nat)
    requires i <= j < |s| && !KeyLetter(s[j]) && forall k | i <= k < j :: KeyLetter(s[k])
    ensures KeyEnd(s, i) == j
  {
    hide KeyLetter, IsKeyChar;
    forall k | i <= k <= j ensures IsKeyChar(s[k]) <==> KeyLetter(s[k]) {
      CharacterExact(s[k]);
    }
    KeyEndAt(s, i, j);
  }

  lemma {:induction false} SetReads(line: string, w0: string, key: string, w1: string, rest: string)
    requires SetsAs(line, w0, key, w1, rest)
    ensures FieldKey(line) == Some(key) && Equals(line) == |w0| + |key| + |w1|
  {
    hide White, KeyLetter, SkipSpace, KeyEnd, IsSpace, IsKeyChar;
    var i, j, k := |w0|, |w0| + |key|, |w0| + |key| + |w1|;
    FieldParts(line, w0, key, w1, rest);
    CharacterExact(line[i]);
    CharacterExact(line[j]);
    CharacterExact(line[k]);
    SpaceEnds(line, 0, i);
    KeyEnds(line, i, j);
    SpaceEnds(line, j, k);
  }

  lemma {:induction false} SpacesAreBlank(s: string, i: nat, j: nat)
    requires i <= j <= |s| && forall k | i <= k < j :: IsSpace(s[k])
    ensures Blank(s[i..j])
  {
    hide White, IsSpace;
    forall k | 0 <= k < j - i ensures White(s[i..j][k]) {
      CharacterExact(s[i + k]);
    }
  }

  lemma {:induction false} LettersAreWord(s: string, i: nat, j: nat)
    requires i < j <= |s| && forall k | i <= k < j :: IsKeyChar(s[k])
    ensures Word(s[i..j])
  {
    hide KeyLetter, IsKeyChar;
    forall k | 0 <= k < j - i ensures KeyLetter(s[i..j][k]) {
      CharacterExact(s[i + k]);
    }
  }

  lemma {:induction false} KeyParts(line: string, key: string)
    requires FieldKey(line) == Some(key)
    ensures var i := SkipSpace(line, 0);
            var j, k := KeyEnd(line, i), Equals(line);
            && i < j <= k < |line| && line[k] == '=' && key == line[i..j]
            && (forall n | 0 <= n < i || j <= n < k :: IsSpace(line[n]))
            && (forall n | i <= n < j :: IsKeyChar(line[n]))
  {
    hide SkipSpace, KeyEnd, IsSpace, IsKeyChar;
  }

  lemma {:induction false} ReadSets(line: string, key: string)
    requires FieldKey(line) == Some(key)
    ensures var i := SkipSpace(line, 0);
            var j, k := KeyEnd(line, i), Equals(line);
            i < j <= k < |line| && SetsAs(line, line[..i], key, line[j..k], line[k + 1..])
  {
    hide FieldKey, SkipSpace, KeyEnd, Equals, IsSpace, IsKeyChar, Blank, Word;
    KeyParts(line, key);
    var i := SkipSpace(line, 0);
    var j, k := KeyEnd(line, i), Equals(line);
    SpacesAreBlank(line, 0, i);
    SpacesAreBlank(line, j, k);
    LettersAreWord(line, i, j);
    assert line[0..i] == line[..i];
    FivePieces(line, i, j, k);
  }

  lemma {:induction false} FivePieces(s: string, i: nat, j: nat, k: nat)
    requires i <= j <= k < |s| && s[k] == '='
    ensures s == s[..i] + (s[i..j] + (s[j..k] + ("=" + s[k + 1..])))
  {
  }

  /** The key a line is read to set is the one its characters spell. */
  lemma {:induction false} FieldKeyExact(line: string, key: string)
    ensures FieldKey(line) == Some(key) <==> SetsKey(line, key)
  {
    hide FieldKey, SetsAs;
    if FieldKey(line) == Some(key) {
      ReadSets(line, key);
    }
    if w0, w1, rest :| SetsAs(line, w0, key, w1, rest) {
      SetReads(line, w0, key, w1, rest);
    }
  }

  // ----- quoted values -----

  predicate CarriesAs(line: string, w0: string, key: string, w1: string, w2: string, v: string, rest: string) {
    SetsAs(line, w0, key, w1, w2 + ("\"" + (v + ("\"" + rest)))) && Blank(w2) && '"' !in v
  }

  /** White space, the key, white space, an equals sign, white space, the value in quotes, and anything. */
  ghost predicate Carries(line: string, key: string, v: string) {
    exists w0, w1, w2, rest :: CarriesAs(line, w0, key, w1, w2, v, rest)
  }

  lemma {:induction false} QuoteEndAt(s: string, i: nat, j: nat)
    requires i <= j < |s| && s[j] == '"' && forall k | i <= k < j :: s[k] != '"'
    ensures QuoteEnd(s, i) == j
    decreases j - i
  {
    if i < j {
      QuoteEndAt(s, i + 1, j);
    }
  }

  lemma {:induction false} QuoteEndExact(s: string, i: nat)
    requires i <= |s|
    ensures (forall k | i <= k < QuoteEnd(s, i) :: s[k] != '"') && (QuoteEnd(s, i) < |s| ==> s[QuoteEnd(s, i)] == '"')
    decreases |s| - i
  {
    if i < |s| && s[i] != '"' {
      QuoteEndExact(s, i + 1);
    }
  }

  lemma {:induction false} ValueParts(line: string, k: nat, w2: string, v: string, rest: string)
    requires k < |line| && line[k + 1..] == w2 + ("\"" + (v + ("\"" + rest))) && Blank(w2) && '"' !in v
    ensures var m := k + 1 + |w2|;
            && m + 1 + |v| < |line| && line[m] == '"' && line[m + 1..m + 1 + |v|] == v && line[m + 1 + |v|] == '"'
            && (forall n | k < n < m :: White(line[n]))
            && (forall n | m < n < m + 1 + |v| :: line[n] != '"')
  {
    var m, tail := k + 1 + |w2|, line[k + 1..];
    assert forall n | k < n < |line| :: line[n] == tail[n - k - 1];
    assert forall n | m < n < m + 1 + |v| :: line[n] == v[n - m - 1];
  }

  lemma {:induction false} CarriedReads(line: string, w0: string, key: string, w1: string, w2: string, v: string,
                                        rest: string)
    requires CarriesAs(line, w0, key, w1, w2, v, rest)
    ensures Quoted(line, key) == Some(v)
  {
    hide White, SkipSpace, QuoteEnd, FieldKey, Equals, SetsAs;
    var tail := w2 + ("\"" + (v + ("\"" + rest)));
    SetReads(line, w0, key, w1, tail);
    var k := Equals(line);
    assert k < |line| && line[k + 1..] == tail by {
      FieldParts(line, w0, key, w1, tail);
    }
    ValueParts(line, k, w2, v, rest);
    var m := k + 1 + |w2|;
    CharacterExact(line[m]);
    SpaceEnds(line, k + 1, m);
    QuoteEndAt(line, m + 1, m + 1 + |v|);
  }

  /** Where the value stands that is read. */
  lemma {:induction false} ReadParts(line: string, key: string, v: string)
    requires Quoted(line, key) == Some(v)
    ensures FieldKey(line) == Some(key) && Equals(line) < |line|
    ensures var k := Equals(line);
            var m := SkipSpace(line, k + 1);
            var e := QuoteEnd(line, m + 1);
            m < |line| && line[m] == '"' && e < |line| && line[m + 1..e] == v
  {
    hide QuoteEnd, FieldKey, Equals, SkipSpace;
  }

  lemma {:induction false} QuoteFree(s: string, i: nat)
    requires i <= |s|
    ensures '"' !in s[i..QuoteEnd(s, i)] && (QuoteEnd(s, i) < |s| ==> s[QuoteEnd(s, i)] == '"')
  {
    hide QuoteEnd;
    QuoteEndExact(s, i);
    assert forall k | 0 <= k < |s[i..QuoteEnd(s, i)]| :: s[i..QuoteEnd(s, i)][k] == s[i + k];
  }

  lemma {:induction false} ValuePieces(s: string, k: nat, m: nat, e: nat)
    requires k < m < e < |s| && s[m] == '"' && s[e] == '"'
    ensures s[k + 1..] == s[k + 1..m] + ("\"" + (s[m + 1..e] + ("\"" + s[e + 1..])))
  {
    assert s[e..] == "\"" + s[e + 1..];
    assert s[m + 1..] == s[m + 1..e] + s[e..];
    assert s[m..] == "\"" + s[m + 1..];
    assert s[k + 1..] == s[k + 1..m] + s[m..];
  }

  lemma {:induction false} ReadCarries(line: string, key: string, v: string)
    requires Quoted(line, key) == Some(v)
    ensures Carries(line, key, v)
  {
    hide Quoted, QuoteEnd, FieldKey, Equals, SetsAs, IsSpace, Blank, SkipSpace, KeyEnd;
    ReadParts(line, key, v);
    ReadSets(line, key);
    var k := Equals(line);
    var m := SkipSpace(line, k + 1);
    var e := QuoteEnd(line, m + 1);
    QuoteFree(line, m + 1);
    SpacesAreBlank(line, k + 1, m);
    ValuePieces(line, k, m, e);
    var i := SkipSpace(line, 0);
    assert CarriesAs(line, line[..i], key, line[KeyEnd(line, i)..k], line[k + 1..m], v, line[e + 1..]);
  }

  /** The value read from a line is the one it carries in quotes; a line of another form has none. */
  lemma {:induction false} QuotedExact(line: string, key: string, v: string)
    ensures Quoted(line, key) == Some(v) <==> Carries(line, key, v)
  {
    hide Quoted, CarriesAs;
    if Quoted(line, key) == Some(v) {
      ReadCarries(line, key, v);
    }
    if w0, w1, w2, rest :| CarriesAs(line, w0, key, w1, w2, v, rest) {
      CarriedReads(line, w0, key, w1, w2, v, rest);
    }
  }

  // ----- headers -----

  /** A pack's header begins the line; a release's may be indented; nothing but white space follows either. */
  ghost predicate HeadLine(kind: Kind, line: string) {
    if kind.Pack? then exists w: string :: line == "[[pack]]" + w && Blank(w)
    else exists w0: string, w1: string :: HeadsRelease(line, w0, w1)
  }

  predicate HeadsRelease(line: string, w0: string, w1: string) {
    line == w0 + ("[[pack.release]]" + w1) && Blank(w0) && Blank(w1)
  }

  lemma {:induction false} SpaceToEnd(s: string, i: nat)
    requires i <= |s|
    ensures SkipSpace(s, i) == |s| <==> Blank(s[i..])
    decreases |s| - i
  {
    hide White, IsSpace;
    if i < |s| {
      CharacterExact(s[i]);
      SpaceToEnd(s, i + 1);
      assert s[i..] == [s[i]] + s[i + 1..];
    }
  }

  lemma {:induction false} PackHeaderExact(line: string)
    ensures IsPackHeader(line) <==> HeadLine(Pack, line)
  {
    hide White, SkipSpace, Blank;
    if |line| >= 8 {
      SpaceToEnd(line, 8);
    }
    if IsPackHeader(line) {
      assert line == "[[pack]]" + line[8..];
    }
    if w: string :| line == "[[pack]]" + w && Blank(w) {
      assert line[..8] == "[[pack]]" && line[8..] == w;
    }
  }

  lemma {:induction false} ReleaseHeaderExact(line: string)
    ensures IsReleaseHeader(line) <==> HeadLine(Release, line)
  {
    hide White, IsSpace;
    var i := SkipSpace(line, 0);
    if IsReleaseHeader(line) {
      SpaceToEnd(line, i + 16);
      forall k | 0 <= k < i ensures White(line[..i][k]) {
        CharacterExact(line[k]);
      }
      assert line == line[..i] + (line[i..i + 16] + line[i + 16..]);
      assert HeadsRelease(line, line[..i], line[i + 16..]);
    }
    if w0: string, w1: string :| HeadsRelease(line, w0, w1) {
      ReleaseReads(line, w0, w1);
    }
  }

  lemma {:induction false} ReleaseReads(line: string, w0: string, w1: string)
    requires HeadsRelease(line, w0, w1)
    ensures IsReleaseHeader(line)
  {
    hide White, SkipSpace;
    var n := |w0|;
    assert line[n..n + 16] == "[[pack.release]]" && line[n + 16..] == w1;
    assert line[n] == line[n..n + 16][0] == '[';
    CharacterExact(line[n]);
    SpaceEnds(line, 0, n);
    SpaceToEnd(line, n + 16);
  }

  lemma {:induction false} HeaderExact(kind: Kind, line: string)
    ensures IsHeader(kind, line) <==> HeadLine(kind, line)
  {
    hide IsPackHeader, IsReleaseHeader, HeadLine;
    if kind.Pack? {
      PackHeaderExact(line);
    } else {
      ReleaseHeaderExact(line);
    }
  }

  // ----- finding -----

  /** A header line of the kind and all that follows before the next or the end. */
  ghost predicate Section(lines: seq<string>, kind: Kind, lo: nat, hi: nat, b: Block) {
    && lo <= b.start < b.end <= hi <= |lines|
    && HeadLine(kind, lines[b.start])
    && (forall k | b.start < k < b.end :: !HeadLine(kind, lines[k]))
    && (b.end < hi ==> HeadLine(kind, lines[b.end]))
  }

  /** The first line between lo and hi that carries any value of the key carries this one. */
  ghost predicate FirstCarried(lines: seq<string>, lo: nat, hi: nat, key: string, v: string) {
    && lo <= hi <= |lines|
    && exists k | lo <= k < hi :: Carries(lines[k], key, v) && forall j, w | lo <= j < k :: !Carries(lines[j], key, w)
  }

  /** The first section of the kind whose key has the value. */
  ghost predicate FirstSection(lines: seq<string>, kind: Kind, lo: nat, hi: nat, key: string, v: string, b: Block) {
    && Section(lines, kind, lo, hi, b) && FirstCarried(lines, b.start, b.end, key, v)
    && forall c | Section(lines, kind, lo, hi, c) && FirstCarried(lines, c.start, c.end, key, v) :: b.start <= c.start
  }

  lemma {:induction false} BlockExact(lines: seq<string>, kind: Kind, lo: nat, hi: nat, b: Block)
    ensures IsBlock(lines, kind, lo, hi, b) <==> Section(lines, kind, lo, hi, b)
  {
    hide IsHeader, HeadLine;
    forall k | 0 <= k < |lines| ensures IsHeader(kind, lines[k]) <==> HeadLine(kind, lines[k]) {
      HeaderExact(kind, lines[k]);
    }
  }

  lemma {:induction false} ValueExact(lines: seq<string>, lo: nat, hi: nat, key: string, v: string)
    requires lo <= hi <= |lines|
    ensures FieldValue(lines, lo, hi, key) == Some(v) <==> FirstCarried(lines, lo, hi, key, v)
    decreases hi - lo
  {
    hide Quoted, Carries;
    if lo < hi {
      ValueExact(lines, lo + 1, hi, key, v);
      forall w ensures Quoted(lines[lo], key) == Some(w) <==> Carries(lines[lo], key, w) {
        QuotedExact(lines[lo], key, w);
      }
      if Quoted(lines[lo], key).Some? {
        assert Carries(lines[lo], key, Quoted(lines[lo], key).value);
      }
    }
  }

  lemma {:induction false} SameStart(lines: seq<string>, kind: Kind, lo: nat, hi: nat, b: Block, c: Block)
    requires Section(lines, kind, lo, hi, b) && Section(lines, kind, lo, hi, c) && b.start == c.start
    ensures b == c
  {
    hide HeadLine;
  }

  /** The search finds just the first section whose key has the value. */
  lemma {:induction false} SearchExact(lines: seq<string>, kind: Kind, lo: nat, hi: nat, key: string, v: string,
                                      b: Block)
    requires lo <= hi <= |lines|
    ensures Search(lines, kind, lo, hi, key, v) == Some(b) <==> FirstSection(lines, kind, lo, hi, key, v, b)
  {
    hide Search, Section, FirstCarried, FieldValue, IsBlock;
    var found := Search(lines, kind, lo, hi, key, v);
    SearchFinds(lines, kind, lo, hi, key, v);
    if found.Some? {
      BlockExact(lines, kind, lo, hi, found.value);
      SearchBounds(lines, kind, lo, hi, key, v);
      ValueExact(lines, found.value.start, found.value.end, key, v);
    }
    forall c | Section(lines, kind, lo, hi, c) && FirstCarried(lines, c.start, c.end, key, v)
      ensures found.Some? && found.value.start <= c.start
    {
      BlockExact(lines, kind, lo, hi, c);
      BlockBounds(lines, kind, lo, hi, c);
      ValueExact(lines, c.start, c.end, key, v);
      SearchFindsFirst(lines, kind, lo, hi, key, v, c);
    }
    if FirstSection(lines, kind, lo, hi, key, v, b) {
      SameStart(lines, kind, lo, hi, b, found.value);
    }
  }

  /** The release found is the first of that version in the first pack of that name, told by the lines'
      characters; and it is found wherever there is one. */
  lemma {:induction false} FindExact(lines: seq<string>, pack: string, version: string, b: Block)
    ensures Find(lines, pack, version) == Some(b) <==>
              exists p :: FirstSection(lines, Pack, 0, |lines|, "name", pack, p)
                          && FirstSection(lines, Release, p.start, p.end, "version", version, b)
  {
    hide Search, FirstSection;
    SearchBounds(lines, Pack, 0, |lines|, "name", pack);
    forall p ensures FindPack(lines, pack) == Some(p) <==> FirstSection(lines, Pack, 0, |lines|, "name", pack, p) {
      SearchExact(lines, Pack, 0, |lines|, "name", pack, p);
    }
    if FindPack(lines, pack).Some? {
      var p := FindPack(lines, pack).value;
      SearchExact(lines, Release, p.start, p.end, "version", version, b);
    }
  }

  // ----- editing -----

  /** A written line, indented by two spaces, sets its key to the value and to nothing more; a value in quotes
      is read back. */
  lemma {:induction false} MadeExact(key: string, value: string, v: string)
    requires Word(key)
    ensures SetsAs(Made(key, value), "  ", key, " ", " " + value + "\n")
    ensures value == "\"" + v + "\"" && '"' !in v ==> Carries(Made(key, value), key, v)
  {
    var line := Made(key, value);
    assert line == "  " + (key + (" " + ("=" + (" " + value + "\n"))));
    if value == "\"" + v + "\"" && '"' !in v {
      assert " " + value + "\n" == " " + ("\"" + (v + ("\"" + "\n")));
      assert CarriesAs(line, "  ", key, " ", " ", v, "\n");
    }
  }

  ghost predicate SomeSets(lines: seq<string>, key: string) {
    exists k | 0 <= k < |lines| :: SetsKey(lines[k], key)
  }

  /** Where the new line goes: over the first line that sets the key, or else right behind the last description,
      or else to the end. */
  ghost predicate Place(lines: seq<string>, key: string, k: nat) {
    && k <= |lines|
    && if SomeSets(lines, key) then
         k < |lines| && SetsKey(lines[k], key) && forall j | 0 <= j < k :: !SetsKey(lines[j], key)
       else if SomeSets(lines, "description") then
         && k > 0 && SetsKey(lines[k - 1], "description")
         && forall j | k <= j < |lines| :: !SetsKey(lines[j], "description")
       else k == |lines|
  }

  lemma {:induction false} AfterDescriptionExact(lines: seq<string>, n: nat)
    requires n <= |lines|
    ensures var k := AfterDescription(lines, n, |lines|);
            && (forall j | k <= j < n :: !SetsKey(lines[j], "description"))
            && if exists j | 0 <= j < n :: SetsKey(lines[j], "description") then
                 0 < k <= n && SetsKey(lines[k - 1], "description")
               else k == |lines|
  {
    hide FieldKey, SetsKey;
    if n > 0 {
      AfterDescriptionExact(lines, n - 1);
      FieldKeyExact(lines[n - 1], "description");
    }
  }

  /** An upsert writes one line at its place and leaves every other as it is. */
  lemma {:induction false} UpsertExact(lines: seq<string>, key: string, value: string)
    ensures exists k: nat :: Place(lines, key, k) &&
              Upserted(lines, key, value) ==
                if SomeSets(lines, key) then lines[k := Made(key, value)]
                else lines[..k] + [Made(key, value)] + lines[k..]
  {
    hide FieldKey, SetsKey, Made;
    forall j | 0 <= j < |lines| ensures FieldKey(lines[j]) == Some(key) <==> SetsKey(lines[j], key) {
      FieldKeyExact(lines[j], key);
    }
    AfterDescriptionExact(lines, |lines|);
    var k := FieldIndex(lines, 0, |lines|, key);
    assert Place(lines, key, if k < |lines| then k else AfterDescription(lines, |lines|, |lines|));
  }

  lemma {:induction false} NewLine(lines: seq<string>, key: string, value: string) returns (k: nat)
    requires !SomeSets(lines, key)
    ensures k <= |lines| && Place(lines, key, k)
    ensures Upserted(lines, key, value) == lines[..k] + [Made(key, value)] + lines[k..]
  {
    hide SetsKey, Upserted, Made;
    UpsertExact(lines, key, value);
    k :| Place(lines, key, k) && Upserted(lines, key, value) == lines[..k] + [Made(key, value)] + lines[k..];
  }

  lemma {:induction false} OnePlace(lines: seq<string>, key: string, j: nat, k: nat)
    requires Place(lines, key, j) && Place(lines, key, k) && !SomeSets(lines, key)
    ensures j == k
  {
    hide SetsKey;
  }

  /** A new line that sets neither the other field nor the description takes its place, and leaves the other's
      place where it was, or behind it at the end. */
  lemma {:induction false} PlaceBesides(lines: seq<string>, key: string, line: string, other: string, k: nat)
    requires Place(lines, key, k) && !SomeSets(lines, key) && !SomeSets(lines, other) && key != "description"
    requires !SetsKey(line, other) && !SetsKey(line, "description")
    ensures var e := lines[..k] + [line] + lines[k..];
            !SomeSets(e, other) && Place(e, other, if SomeSets(lines, "description") then k else |e|)
  {
    hide SetsKey;
    var e := lines[..k] + [line] + lines[k..];
    assert forall j | 0 <= j < |e| :: e[j] == if j < k then lines[j] else if j == k then line else lines[j - 1];
    if SomeSets(lines, "description") {
      assert e[k - 1] == lines[k - 1];
    }
  }

  lemma {:induction false} WordsSet(key: string, value: string, other: string)
    requires Word(key) && other != key
    ensures !SetsKey(Made(key, value), other)
  {
    hide FieldKey, SetsKey, SetsAs;
    MadeExact(key, value, "");
    SetReads(Made(key, value), "  ", key, " ", " " + value + "\n");
    FieldKeyExact(Made(key, value), other);
  }

  lemma {:induction false} TwoLines(lines: seq<string>, k: nat, at: nat, first: string, second: string)
    requires k <= |lines| && at <= |lines| + 1
    ensures var once := lines[..k] + [first] + lines[k..];
            && at <= |once|
            && (at == k ==> once[..at] + [second] + once[at..] == lines[..k] + [second, first] + lines[k..])
            && (at == |once| && k == |lines| ==> once[..at] + [second] + once[at..] == lines + [first, second])
  {
  }

  /** A release that sets neither field gets both right behind its last description, the mark before the reason;
      without a description they come last, the reason first. */
  lemma {:induction false} FreshWithdrawal(release: seq<string>, reason: string)
    requires !SomeSets(release, "withdrawn") && !SomeSets(release, "withdrawn_reason")
    ensures var mark, why := Made("withdrawn", "true"), Made("withdrawn_reason", reason);
            exists k: nat | k <= |release| && Place(release, "withdrawn", k) ::
              WithdrawnLines(release, reason) ==
                if SomeSets(release, "description") then release[..k] + [mark, why] + release[k..]
                else release + [why, mark]
  {
    hide SetsKey, Upserted, Made, Place, SomeSets;
    var mark, why := Made("withdrawn", "true"), Made("withdrawn_reason", reason);
    var k := NewLine(release, "withdrawn_reason", reason);
    var once := release[..k] + [why] + release[k..];
    WordsSet("withdrawn_reason", reason, "withdrawn");
    WordsSet("withdrawn_reason", reason, "description");
    PlaceBesides(release, "withdrawn_reason", why, "withdrawn", k);
    var at := NewLine(once, "withdrawn", "true");
    OnePlace(once, "withdrawn", at, if SomeSets(release, "description") then k else |once|);
    SamePlace(release, "withdrawn_reason", "withdrawn", k);
    TwoLines(release, k, at, why, mark);
    if !SomeSets(release, "description") {
      LastPlace(release, "withdrawn_reason", k);
    }
  }

  lemma {:induction false} SamePlace(lines: seq<string>, key: string, other: string, k: nat)
    requires Place(lines, key, k) && !SomeSets(lines, key) && !SomeSets(lines, other)
    ensures Place(lines, other, k)
  {
    hide SetsKey;
  }

  lemma {:induction false} LastPlace(lines: seq<string>, key: string, k: nat)
    requires Place(lines, key, k) && !SomeSets(lines, key) && !SomeSets(lines, "description")
    ensures k == |lines|
  {
    hide SetsKey;
  }
}
