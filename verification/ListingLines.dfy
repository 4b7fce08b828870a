/** What a line of a listing says, told by its characters: which lines are blank, which are broken, which name
    a document, and what a listing of many lines comes to. */
module ListingLines {
  import opened Listing
  import opened Wrappers

  // ----- names -----

  /** A letter or digit of the ASCII alphabet, by its code. */
  predicate LetterOrDigit(c: char) {
    48 <= c as int <= 57 || 65 <= c as int <= 90 || 97 <= c as int <= 122
  }

  /** The naming contract: a stem that begins with a letter or digit and goes on with those, dots, dashes and
      underscores, then ".md", at most 255 characters in all. */
  ghost predicate Contract(name: string) {
    exists stem: string ::
      && name == stem + ".md" && 0 < |stem| <= 252 && LetterOrDigit(stem[0])
      && forall k | 0 <= k < |stem| :: LetterOrDigit(stem[k]) || stem[k] == '.' || stem[k] == '_' || stem[k] == '-'
  }

  lemma {:induction false} NameExact(name: string)
    ensures ValidName(name) <==> Contract(name)
  {
    if ValidName(name) {
      var stem := name[..|name| - 3];
      assert name == stem + name[|name| - 3..];
      assert name[|name| - 3] == name[|name| - 3..][0] == '.';
      assert forall k | 0 <= k < |stem| :: stem[k] == name[k];
    }
  }

  // ----- numbers -----

  function Zeros(z: nat): (s: string)
    ensures |s| == z && forall c <- s :: c == '0'
  {
    if z == 0 then "" else Zeros(z - 1) + "0"
  }

  /** A sign or none, zeros or none, and the number's digits, within 64 bits. */
  ghost predicate Numeral(s: string, n: int) {
    MIN_INT64 <= n <= MAX_INT64 && exists sign: string, z: nat :: Spells(s, sign, z, n)
  }

  predicate Spells(s: string, sign: string, z: nat, n: int) {
    && s == sign + (Zeros(z) + Digits(if n < 0 then -n else n))
    && (sign == "-" || (sign == "+" && n >= 0) || (sign == "" && n >= 0))
    && (sign == "-" ==> n <= 0)
  }

  lemma {:induction false} ValueLast(s: string, c: char)
    requires (forall x <- s :: IsDigit(x)) && IsDigit(c)
    ensures Value(s + [c]) == 10 * Value(s) + (c as int - '0' as int)
  {
    assert (s + [c])[..|s|] == s;
  }

  lemma {:induction false} ValueOfZeros(z: nat)
    ensures Value(Zeros(z)) == 0
  {
    if z > 0 {
      ValueOfZeros(z - 1);
      ValueLast(Zeros(z - 1), '0');
    }
  }

  /** Leading zeros do not count. */
  lemma {:induction false} ValueOfPadded(z: nat, n: nat)
    ensures forall c <- Zeros(z) + Digits(n) :: IsDigit(c)
    ensures Value(Zeros(z) + Digits(n)) == n
  {
    if n < 10 {
      ValueOfZeros(z);
      ValueLast(Zeros(z), ('0' as int + n) as char);
    } else {
      ValueOfPadded(z, n / 10);
      var c := ('0' as int + n % 10) as char;
      assert Zeros(z) + Digits(n) == (Zeros(z) + Digits(n / 10)) + [c];
      ValueLast(Zeros(z) + Digits(n / 10), c);
    }
  }

  lemma {:induction false} PaddedOfValue(s: string) returns (z: nat)
    requires s != "" && forall c <- s :: IsDigit(c)
    ensures s == Zeros(z) + Digits(Value(s))
  {
    var front, c := s[..|s| - 1], s[|s| - 1];
    assert s == front + [c] && IsDigit(c);
    ValueLast(front, c);
    assert [c] == [('0' as int + (c as int - '0' as int)) as char];
    if front == "" {
      z := 0;
      assert s == Zeros(0) + Digits(Value(s));
    } else {
      z := PaddedOfValue(front);
      if Value(front) == 0 {
        assert Digits(0) == "0";
        assert front == Zeros(z + 1);
        z := z + 1;
      } else {
        assert Digits(Value(s)) == Digits(Value(front)) + [c];
      }
    }
  }

  function Unsigned(s: string): string {
    if s != "" && (s[0] == '+' || s[0] == '-') then s[1..] else s
  }

  lemma {:induction false} ParsedParts(s: string, n: int)
    requires ParseInt(s) == Some(n)
    ensures var digits := Unsigned(s);
            && s != "" && digits != "" && (forall c <- digits :: IsDigit(c)) && MIN_INT64 <= n <= MAX_INT64
            && n == (if s[0] == '-' then 0 - Value(digits) else Value(digits))
            && (digits == s ==> s[0] != '-' && s[0] != '+')
  {
    hide Value;
  }

  lemma {:induction false} ParsedSpells(s: string, n: int)
    requires ParseInt(s) == Some(n)
    ensures Numeral(s, n)
  {
    hide ParseInt, Digits, Value, Zeros, Unsigned, Spells;
    ParsedParts(s, n);
    var digits := Unsigned(s);
    var sign := SignOf(s);
    var z := PaddedOfValue(digits);
    SignSpells(s, sign, z, n, Value(digits));
  }

  /** The sign in front of the digits. */
  lemma {:induction false} SignOf(s: string) returns (sign: string)
    ensures s == sign + Unsigned(s)
    ensures if s != "" && (s[0] == '+' || s[0] == '-') then sign == [s[0]] else sign == ""
  {
    sign := s[..|s| - |Unsigned(s)|];
  }

  lemma {:induction false} SignSpells(s: string, sign: string, z: nat, n: int, m: nat)
    requires s != "" && s == sign + (Zeros(z) + Digits(m)) && n == (if s[0] == '-' then 0 - m else m)
    requires if s[0] == '+' || s[0] == '-' then sign == [s[0]] else sign == ""
    ensures Spells(s, sign, z, n)
  {
    hide Digits, Zeros;
  }

  /** What is read as a number, and as which. */
  lemma {:induction false} NumberExact(s: string, n: int)
    ensures ParseInt(s) == Some(n) <==> Numeral(s, n)
  {
    hide ParseInt, Spells;
    if ParseInt(s) == Some(n) {
      ParsedSpells(s, n);
    }
    if Numeral(s, n) {
      var sign, z :| Spells(s, sign, z, n);
      NumeralParses(s, sign, z, n);
    }
  }

  lemma {:induction false} SignedParses(sign: string, digits: string, n: int)
    requires sign == "" || sign == "+" || sign == "-"
    requires digits != "" && (forall c <- digits :: IsDigit(c)) && MIN_INT64 <= n <= MAX_INT64
    requires n == if sign == "-" then 0 - Value(digits) else Value(digits)
    ensures ParseInt(sign + digits) == Some(n)
  {
    hide Value;
    var s := sign + digits;
    assert IsDigit(digits[0]);
    assert s[|sign|..] == digits;
    if sign == "" {
      assert s == digits;
    } else {
      assert s[0] == sign[0];
    }
  }

  lemma {:induction false} NumeralParses(s: string, sign: string, z: nat, n: int)
    requires Spells(s, sign, z, n) && MIN_INT64 <= n <= MAX_INT64
    ensures ParseInt(s) == Some(n)
  {
    hide ParseInt, Value, Digits, Zeros, IsDigit;
    var m := if n < 0 then -n else n;
    ValueOfPadded(z, m);
    SignedParses(sign, Zeros(z) + Digits(m), n);
  }

  // ----- lines -----

  /** The characters Unicode counts as white space, by their codes. */
  predicate White(c: char) {
    var n := c as int;
    9 <= n <= 13 || n in {32, 133, 160, 5760, 8232, 8233, 8239, 8287, 12288} || 8192 <= n <= 8202
  }

  lemma {:induction false} SpaceExact(c: char)
    ensures IsSpace(c) <==> White(c)
  {
  }

  /** t is what is left of s between its outer white space. */
  ghost predicate Trimmed(s: string, t: string) {
    && (t != "" ==> !White(t[0]) && !White(t[|t| - 1]))
    && exists i, j :: Between(s, t, i, j)
  }

  predicate Between(s: string, t: string, i: nat, j: nat) {
    i <= j <= |s| && t == s[i..j] && forall k | 0 <= k < |s| && (k < i || j <= k) :: White(s[k])
  }

  lemma {:induction false} SpaceInFront(s: string, t: string, i: nat, j: nat)
    requires s != "" && White(s[0]) && Between(s[1..], t, i, j)
    ensures Between(s, t, i + 1, j + 1)
  {
    hide White;
    var rest := s[1..];
    assert t == rest[i..j] == s[i + 1..j + 1];
    forall k | 0 <= k < |s| && (k < i + 1 || j + 1 <= k) ensures White(s[k]) {
      assert k > 0 ==> s[k] == rest[k - 1];
    }
  }

  lemma {:induction false} SpaceBehind(s: string, t: string, i: nat, j: nat)
    requires s != "" && White(s[|s| - 1]) && Between(s[..|s| - 1], t, i, j)
    ensures Between(s, t, i, j)
  {
    hide White;
    var front := s[..|s| - 1];
    assert t == front[i..j] == s[i..j];
    forall k | 0 <= k < |s| && (k < i || j <= k) ensures White(s[k]) {
      assert k < |s| - 1 ==> s[k] == front[k];
    }
  }

  lemma {:induction false} TrimAt(s: string) returns (i: nat, j: nat)
    ensures Between(s, Trim(s), i, j)
  {
    hide IsSpace, White;
    if s != "" {
      SpaceExact(s[0]);
      SpaceExact(s[|s| - 1]);
    }
    if s == "" {
      i, j := 0, 0;
    } else if IsSpace(s[0]) {
      hide Between;
      i, j := TrimAt(s[1..]);
      SpaceInFront(s, Trim(s), i, j);
      i, j := i + 1, j + 1;
    } else if IsSpace(s[|s| - 1]) {
      hide Between;
      i, j := TrimAt(s[..|s| - 1]);
      SpaceBehind(s, Trim(s), i, j);
    } else {
      i, j := 0, |s|;
    }
  }

  lemma {:induction false} TrimExact(s: string)
    ensures Trimmed(s, Trim(s))
  {
    hide IsSpace, White, Trim, Between;
    var i, j := TrimAt(s);
    if Trim(s) != "" {
      SpaceExact(Trim(s)[0]);
      SpaceExact(Trim(s)[|Trim(s)| - 1]);
    }
  }

  /** Two fields without spaces, and a rest behind them. */
  predicate Fields(t: string, m: string, z: string, name: string) {
    t == m + " " + z + " " + name && ' ' !in m && ' ' !in z
  }

  /** The line's two numbers and its name. */
  ghost predicate Tells(t: string, mtime: int, size: int, name: string) {
    exists m: string, z: string :: Fields(t, m, z, name) && Numeral(m, mtime) && Numeral(z, size)
  }

  lemma {:induction false} FieldsFound(t: string, m: string, z: string, name: string)
    requires Fields(t, m, z, name)
    ensures Find(t, ' ', 0) == |m| && Find(t, ' ', |m| + 1) == |m| + 1 + |z| < |t|
    ensures t[..|m|] == m && t[|m| + 1..|m| + 1 + |z|] == z && t[|m| + 1 + |z| + 1..] == name
  {
    CutFields(m, z, name);
  }

  lemma {:induction false} FieldsCut(t: string)
    ensures var a := Find(t, ' ', 0);
            a < |t| ==>
              var b := Find(t, ' ', a + 1);
              if b < |t| then Fields(t, t[..a], t[a + 1..b], t[b + 1..])
              else forall m, z, name :: !Fields(t, m, z, name)
    ensures Find(t, ' ', 0) == |t| ==> forall m, z, name :: !Fields(t, m, z, name)
  {
    hide Find;
    var a := Find(t, ' ', 0);
    if a < |t| {
      var b := Find(t, ' ', a + 1);
      if b < |t| {
        assert t == t[..a] + " " + t[a + 1..b] + " " + t[b + 1..];
      }
    }
    forall m, z, name | Fields(t, m, z, name)
      ensures a == |m| && a < |t| && Find(t, ' ', a + 1) < |t|
    {
      FieldsFound(t, m, z, name);
    }
  }

  /** After trimming, a line is blank, or it tells two numbers and a name, or it is broken; a name outside the
      contract makes it a stray. */
  lemma {:induction false} LineExact(raw: string)
    ensures var t := Trim(raw);
            && (ReadLine(raw).Blank? <==> t == "")
            && (ReadLine(raw).Broken? <==>
                t != "" && forall mtime, size, name :: !Tells(t, mtime, size, name))
            && forall mtime, size, name ::
                 (ReadLine(raw) == Doc(name, Stat(mtime, size)) <==> Tells(t, mtime, size, name) && Contract(name))
  {
    hide Trim, Find, ParseInt, ValidName, Numeral, Contract, Fields;
    var t := Trim(raw);
    var a := Find(t, ' ', 0);
    FieldsCut(t);
    if t == "" {
      assert Find(t, ' ', 0) == |t|;
    }
    forall mtime, size, name | Tells(t, mtime, size, name)
      ensures t != "" && !ReadLine(raw).Broken? && (ReadLine(raw) == Doc(name, Stat(mtime, size)) <==> Contract(name))
    {
      TellingReads(raw, mtime, size, name);
    }
    if !ReadLine(raw).Broken? && t != "" {
      ReadTells(raw);
    }
  }

  lemma {:induction false} TellingReads(raw: string, mtime: int, size: int, name: string)
    requires Tells(Trim(raw), mtime, size, name)
    ensures Trim(raw) != ""
    ensures ReadLine(raw) == if Contract(name) then Doc(name, Stat(mtime, size)) else Stray
  {
    hide Trim, Find, ParseInt, ValidName, Numeral, Contract;
    var m, z :| Fields(Trim(raw), m, z, name) && Numeral(m, mtime) && Numeral(z, size);
    FieldsFound(Trim(raw), m, z, name);
    NumberExact(m, mtime);
    NumberExact(z, size);
    NameExact(name);
  }

  lemma {:induction false} ReadTells(raw: string)
    requires Trim(raw) != "" && !ReadLine(raw).Broken?
    ensures exists mtime, size, name ::
              Tells(Trim(raw), mtime, size, name)
              && (ReadLine(raw).Doc? ==> ReadLine(raw) == Doc(name, Stat(mtime, size)) && Contract(name))
  {
    hide Trim, Find, ParseInt, ValidName, Numeral, Contract, Fields;
    var t := Trim(raw);
    FieldsCut(t);
    var a := Find(t, ' ', 0);
    var b := Find(t, ' ', a + 1);
    var m, z, name := t[..a], t[a + 1..b], t[b + 1..];
    var mtime, size := ParseInt(m).value, ParseInt(z).value;
    NumberExact(m, mtime);
    NumberExact(z, size);
    NameExact(name);
    assert Tells(t, mtime, size, name);
  }

  // ----- many lines -----

  /** Line k is the last of the first n that names this document. */
  ghost predicate LastOf(lines: seq<string>, n: nat, k: nat, name: string, stat: Stat)
    requires n <= |lines|
  {
    && k < n && ReadLine(lines[k]) == Doc(name, stat)
    && forall j | k < j < n :: ReadLine(lines[j]).Doc? ==> ReadLine(lines[j]).name != name
  }

  /** The listing is the documents its lines name, each with the stat of its last line. */
  lemma {:induction false} DocumentsExact(lines: seq<string>, n: nat, name: string, stat: Stat)
    requires n <= |lines| && Documents(lines, n).Some?
    ensures var docs := Documents(lines, n).value;
            (name in docs && docs[name] == stat) <==> exists k :: LastOf(lines, n, k, name, stat)
  {
    hide ReadLine;
    if n > 0 {
      DocumentsExact(lines, n - 1, name, stat);
      var line := ReadLine(lines[n - 1]);
      if line.Doc? && line.name == name {
        if line.stat == stat {
          assert LastOf(lines, n, n - 1, name, stat);
        }
      } else {
        var m := n - 1;
        if k :| LastOf(lines, m, k, name, stat) {
          assert LastOf(lines, n, k, name, stat);
        }
        if k :| LastOf(lines, n, k, name, stat) {
          assert LastOf(lines, m, k, name, stat);
        }
      }
    }
  }

  function Glued(lines: seq<string>, k: nat): string
    requires k < |lines|
    decreases |lines| - k
  {
    if k + 1 == |lines| then lines[k] else lines[k] + "\n" + Glued(lines, k + 1)
  }

  lemma {:induction false} GluedTail(line: string, rest: seq<string>, k: nat)
    requires k < |rest|
    ensures Glued([line] + rest, k + 1) == Glued(rest, k)
    decreases |rest| - k
  {
    if k + 1 < |rest| {
      GluedTail(line, rest, k + 1);
    }
  }

  /** Cutting a text into lines loses nothing, and no line holds a newline. */
  lemma {:induction false} SplitExact(text: string, i: nat)
    requires i <= |text|
    ensures var lines := Split(text, i);
            && lines != [] && Glued(lines, 0) == text[i..]
            && forall k | 0 <= k < |lines| :: '\n' !in lines[k]
    decreases |text| - i
  {
    hide Find;
    var e := Find(text, '\n', i);
    if e < |text| {
      SplitExact(text, e + 1);
      GluedTail(text[i..e], Split(text, e + 1), 0);
      assert text[i..] == text[i..e] + "\n" + text[e + 1..];
    }
  }
}
