/** Withdrawing a release on the registry's text: cut into lines, edited, joined again. */
module RegistryText {
  import opened Registry
  import opened RegistryProperties
  import opened Sequences
  import opened Wrappers

  // ----- text and lines -----

  /** Where a text is cut into lines; carriage returns are gone once it is read as text. */
  predicate IsBreak(c: char) {
    c in "\n\U{0B}\U{0C}\U{1C}\U{1D}\U{1E}\U{85}\U{2028}\U{2029}"
  }

  function LineStop(text: string, i: nat): (j: nat)
    requires i <= |text|
    ensures i <= j <= |text| && (i < |text| ==> i < j)
    ensures forall k | i <= k < j - 1 :: !IsBreak(text[k])
    ensures i < |text| ==> j == |text| || IsBreak(text[j - 1])
    decreases |text| - i
  {
    if i == |text| then i else if IsBreak(text[i]) then i + 1 else LineStop(text, i + 1)
  }

  /** The lines from position i on, each with its end. */
  function SplitLines(text: string, i: nat): seq<string>
    requires i <= |text|
    decreases |text| - i
  {
    if i == |text| then [] else [text[i..LineStop(text, i)]] + SplitLines(text, LineStop(text, i))
  }

  function Joined(lines: seq<string>, k: nat): string
    requires k <= |lines|
    decreases |lines| - k
  {
    if k == |lines| then "" else lines[k] + Joined(lines, k + 1)
  }

  /** One whole line: an end and no other. */
  predicate Whole(line: string) {
    line != "" && IsBreak(line[|line| - 1]) && forall k | 0 <= k < |line| - 1 :: !IsBreak(line[k])
  }

  ghost predicate AllWhole(lines: seq<string>) {
    forall k | 0 <= k < |lines| :: Whole(lines[k])
  }

  predicate Terminated(text: string) {
    text == "" || IsBreak(text[|text| - 1])
  }

  /** The line boundaries of a string, by their codes. */
  lemma {:induction false} BreakExact(c: char)
    ensures IsBreak(c) <==> 10 <= c as int <= 12 || 28 <= c as int <= 30 || c as int in {133, 8232, 8233}
  {
  }

  /** Cutting a text into lines loses nothing. */
  lemma {:induction false} JoinedSplit(text: string, i: nat)
    requires i <= |text|
    ensures Joined(SplitLines(text, i), 0) == text[i..]
    decreases |text| - i
  {
    hide LineStop, IsBreak;
    if i < |text| {
      var j := LineStop(text, i);
      JoinedSplit(text, j);
      JoinedShift([text[i..j]] + SplitLines(text, j), SplitLines(text, j), 0, 1);
      assert text[i..] == text[i..j] + text[j..];
    }
  }

  lemma {:induction false} JoinedShift(lines: seq<string>, rest: seq<string>, k: nat, n: nat)
    requires k <= |rest| && n + |rest| - k == |lines|
    requires forall m | k <= m < |rest| :: rest[m] == lines[m - k + n]
    ensures Joined(lines, n) == Joined(rest, k)
    decreases |rest| - k
  {
    if k < |rest| {
      assert rest[k] == lines[n];
      JoinedShift(lines, rest, k + 1, n + 1);
    }
  }

  lemma {:induction false} LinesAreWhole(text: string, i: nat)
    requires i <= |text| && Terminated(text)
    ensures AllWhole(SplitLines(text, i))
    decreases |text| - i
  {
    hide IsBreak;
    if i < |text| {
      LinesAreWhole(text, LineStop(text, i));
    }
  }

  lemma {:induction false} StopAt(text: string, i: nat, j: nat)
    requires i < j <= |text| && IsBreak(text[j - 1]) && forall k | i <= k < j - 1 :: !IsBreak(text[k])
    ensures LineStop(text, i) == j
    decreases j - i
  {
    hide IsBreak;
    if i + 1 < j {
      StopAt(text, i + 1, j);
    }
  }

  lemma {:induction false} WholeStands(before: string, line: string, rest: string)
    requires Whole(line)
    ensures var text, i, j := before + (line + rest), |before|, |before| + |line|;
            j <= |text| && LineStop(text, i) == j && text[i..j] == line
  {
    hide IsBreak;
    var text, i, j := before + (line + rest), |before|, |before| + |line|;
    assert forall k | i <= k < j :: text[k] == line[k - i];
    StopAt(text, i, j);
  }

  lemma {:induction false} SplitStep(text: string, i: nat, j: nat)
    requires i < |text| && j == LineStop(text, i)
    ensures SplitLines(text, i) == [text[i..j]] + SplitLines(text, j)
  {
  }

  lemma {:induction false} SplitEnd(text: string)
    ensures SplitLines(text, |text|) == []
  {
  }

  lemma {:induction false} Tail(lines: seq<string>, k: nat)
    requires k < |lines|
    ensures lines[k..] == [lines[k]] + lines[k + 1..]
  {
  }

  lemma {:induction false} SplitJoined(before: string, lines: seq<string>, k: nat)
    requires k <= |lines| && AllWhole(lines)
    ensures SplitLines(before + Joined(lines, k), |before|) == lines[k..]
    decreases |lines| - k
  {
    hide Whole, SplitLines, LineStop;
    if k == |lines| {
      assert before + "" == before;
      SplitEnd(before);
    } else {
      var rest := Joined(lines, k + 1);
      WholeStands(before, lines[k], rest);
      NotEmpty(before, lines[k], rest);
      SplitStep(before + (lines[k] + rest), |before|, |before| + |lines[k]|);
      Regroup(before, lines[k], rest);
      SplitJoined(before + lines[k], lines, k + 1);
      Tail(lines, k);
    }
  }

  lemma {:induction false} NotEmpty(before: string, line: string, rest: string)
    requires Whole(line)
    ensures |before| < |before + (line + rest)|
  {
  }

  // ----- withdrawing on text -----

  function WithdrawnText(text: string, pack: string, version: string, reason: string): Option<string> {
    var lines := SplitLines(text, 0);
    var b := Find(lines, pack, version);
    if b.None? then None else Some(Joined(Withdrawn(lines, b.value, reason), 0))
  }

  method WithdrawInText(text: string, pack: string, version: string, reason: string) returns (r: Result<string, string>)
    ensures var t := WithdrawnText(text, pack, version, reason);
            if t.Some? then r == Ok(t.value) else r.Err?
  {
    var edited := Withdraw(SplitLines(text, 0), pack, version, reason);
    return if edited.Ok? then Ok(Joined(edited.value, 0)) else Err(edited.error);
  }

  lemma {:induction false} MadeIsWhole(key: string, value: string)
    requires (forall c <- key :: !IsBreak(c)) && forall c <- value :: !IsBreak(c)
    ensures Whole(Made(key, value))
  {
    var line := Made(key, value);
    forall k | 0 <= k < |line| - 1 ensures !IsBreak(line[k]) {
      assert line[k] in "  " || line[k] in key || line[k] in " = " || line[k] in value;
    }
  }

  lemma {:induction false} UpsertedIsWhole(lines: seq<string>, key: string, value: string)
    requires AllWhole(lines) && Whole(Made(key, value))
    ensures AllWhole(Upserted(lines, key, value))
  {
    hide Whole, Made, FieldIndex;
  }

  lemma {:induction false} WithdrawnIsWhole(lines: seq<string>, b: Block, reason: string)
    requires b.start <= b.end <= |lines| && AllWhole(lines) && forall c <- reason :: !IsBreak(c)
    ensures AllWhole(Withdrawn(lines, b, reason))
  {
    hide Whole, Upserted, Made;
    MadeIsWhole("withdrawn_reason", reason);
    MadeIsWhole("withdrawn", "true");
    var release := lines[b.start..b.end];
    UpsertedIsWhole(release, "withdrawn_reason", reason);
    UpsertedIsWhole(Upserted(release, "withdrawn_reason", reason), "withdrawn", "true");
  }

  /** The edited text is cut into just the edited lines, so what holds of the lines holds of the text. */
  lemma {:induction false} EditedTextLines(text: string, pack: string, version: string, reason: string)
    requires Terminated(text) && (forall c <- reason :: !IsBreak(c))
    ensures var lines, t := SplitLines(text, 0), WithdrawnText(text, pack, version, reason);
            && (t.Some? <==> Find(lines, pack, version).Some?)
            && (t.Some? ==> SplitLines(t.value, 0) == Withdrawn(lines, Find(lines, pack, version).value, reason))
  {
    hide SplitLines, Find, Withdrawn, Joined;
    var lines := SplitLines(text, 0);
    if Find(lines, pack, version).Some? {
      LinesAreWhole(text, 0);
      var edited := Withdrawn(lines, Find(lines, pack, version).value, reason);
      WithdrawnIsWhole(lines, Find(lines, pack, version).value, reason);
      SplitJoined("", edited, 0);
      assert "" + Joined(edited, 0) == Joined(edited, 0) && edited[0..] == edited;
    }
  }

  // ----- a second time -----

  /** The same release is found again, in its place. */
  lemma {:induction false} FoundAgain(lines: seq<string>, pack: string, version: string, reason: string)
    ensures Find(lines, pack, version).Some? ==>
              var b := Find(lines, pack, version).value;
              Find(Withdrawn(lines, b, reason), pack, version)
              == Some(Block(b.start, b.start + Grown(lines, b, reason)))
  {
    hide IsHeader, Find, Withdrawn, Grown, SameField, Spliced;
    if Find(lines, pack, version).Some? {
      var b := Find(lines, pack, version).value;
      WithdrawalSplices(lines, pack, version, reason);
      SameFind(lines, Withdrawn(lines, b, reason), b, Grown(lines, b, reason), pack, version);
    }
  }

  lemma {:induction false} WithdrawnAgain(lines: seq<string>, pack: string, version: string, reason: string)
    ensures Find(lines, pack, version).Some? ==>
              var b := Find(lines, pack, version).value;
              var now, c := Withdrawn(lines, b, reason), Block(b.start, b.start + Grown(lines, b, reason));
              c.end <= |now| && Withdrawn(now, c, reason) == now
  {
    hide IsHeader, Find, WithdrawnLines, OneRelease;
    if Find(lines, pack, version).Some? {
      FoundIsOneRelease(lines, pack, version);
      var b := Find(lines, pack, version).value;
      var edited := WithdrawnLines(lines[b.start..b.end], reason);
      WithdrawnTwice(lines[b.start..b.end], reason);
      Refill(lines[..b.start], edited, lines[b.end..]);
    }
  }

  lemma {:induction false} Refill(a: seq<string>, edited: seq<string>, c: seq<string>)
    ensures var now := a + edited + c;
            now[|a|..|a| + |edited|] == edited && now[..|a|] + edited + now[|a| + |edited|..] == now
  {
  }

  /** Withdrawing twice for one reason is withdrawing once, to the letter. */
  lemma {:induction false} WithdrawIsIdempotent(text: string, pack: string, version: string, reason: string)
    requires Terminated(text) && (forall c <- reason :: !IsBreak(c))
    ensures var once := WithdrawnText(text, pack, version, reason);
            once.Some? ==> WithdrawnText(once.value, pack, version, reason) == once
  {
    hide SplitLines, Find, Withdrawn, Joined, Grown;
    EditedTextLines(text, pack, version, reason);
    FoundAgain(SplitLines(text, 0), pack, version, reason);
    WithdrawnAgain(SplitLines(text, 0), pack, version, reason);
  }
}
