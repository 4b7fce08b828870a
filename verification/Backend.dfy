/** The remote board backend: quoting for the remote shell, and the stat listing it sends back. */
module Backend {
  import opened Sequences
  import opened Wrappers

  // ----- quoting -----

  function Escape(c: char): string {
    if c == '\'' then "'\\''" else [c]
  }

  /** s with every single quote closed, escaped and reopened. */
  function Escaped(s: string): string {
    if s == "" then "" else Escaped(s[..|s| - 1]) + Escape(s[|s| - 1])
  }

  function ShellQuote(s: string): string {
    "'" + Escaped(s) + "'"
  }

  /** Characters that end a word where they are not quoted: blanks, newline and operators. */
  predicate Delimits(c: char) {
    c in " \t\n;&|<>()"
  }

  /** Characters that start an expansion or another kind of quoting where they are not quoted. */
  predicate Special(c: char) {
    c in "\"$`*?[#~="
  }

  datatype Word = Word(text: string, stop: nat)

  /** The word that starts at position i of a shell command, after quote removal, and where it ends
      (sections 2.2.1, 2.2.2 and 2.3 of the POSIX.1-2017 Shell Command Language): a backslash keeps the
      character after it, single quotes keep everything between them. None where the text is cut short or
      uses what lies outside those sections. */
  function ReadWord(t: string, i: nat, quoted: bool, text: string): Option<Word>
    requires i <= |t|
    decreases |t| - i
  {
    if i == |t| then (if quoted then None else Some(Word(text, i)))
    else if quoted then
      if t[i] == '\'' then ReadWord(t, i + 1, false, text) else ReadWord(t, i + 1, true, text + [t[i]])
    else if Delimits(t[i]) then Some(Word(text, i))
    else if t[i] == '\'' then ReadWord(t, i + 1, true, text)
    else if t[i] == '\\' then
      if i + 1 == |t| then None
      else if t[i + 1] == '\n' then ReadWord(t, i + 2, false, text)
      else ReadWord(t, i + 2, false, text + [t[i + 1]])
    else if Special(t[i]) then None
    else ReadWord(t, i + 1, false, text + [t[i]])
  }

  lemma {:induction false} EscapedAppend(s: string, c: char)
    ensures Escaped(s + [c]) == Escaped(s) + Escape(c)
  {
    assert (s + [c])[..|s|] == s;
  }

  /** Reading past one escaped character inside quotes. */
  lemma {:induction false} ReadEscape(t: string, i: nat, c: char, text: string)
    requires i + |Escape(c)| <= |t| && t[i..i + |Escape(c)|] == Escape(c)
    ensures ReadWord(t, i, true, text) == ReadWord(t, i + |Escape(c)|, true, text + [c])
  {
    var e := t[i..i + |Escape(c)|];
    assert t[i] == e[0];
    if c == '\'' {
      assert t[i + 1] == e[1] && t[i + 2] == e[2] && t[i + 3] == e[3];
      assert t[i] == '\'' && t[i + 1] == '\\' && t[i + 2] == '\'' && t[i + 3] == '\'';
      assert ReadWord(t, i, true, text) == ReadWord(t, i + 1, false, text);
      assert ReadWord(t, i + 1, false, text) == ReadWord(t, i + 3, false, text + [c]);
    }
  }

  lemma {:induction false} ReadEscaped(t: string, i: nat, s: string)
    requires i + |Escaped(s)| <= |t| && t[i..i + |Escaped(s)|] == Escaped(s)
    ensures ReadWord(t, i, true, "") == ReadWord(t, i + |Escaped(s)|, true, s)
  {
    hide ReadWord, Escape;
    if s != "" {
      hide Escaped;
      var front, c := s[..|s| - 1], s[|s| - 1];
      assert s == front + [c];
      EscapedAppend(front, c);
      SplitSlice(t, i, Escaped(front), Escape(c));
      ReadEscaped(t, i, front);
      ReadEscape(t, i + |Escaped(front)|, c, front);
    }
  }

  /** Anywhere in a command, before its end or a delimiter, a quoted string is one word: itself. */
  lemma {:induction false} QuotedReadsBack(before: string, s: string, rest: string)
    requires rest == "" || rest[0] in " \t\n;&|<>()"
    ensures ReadWord(before + ShellQuote(s) + rest, |before|, false, "") == Some(Word(s, |before + ShellQuote(s)|))
  {
    var t, i := before + ShellQuote(s) + rest, |before|;
    var n := |Escaped(s)|;
    assert t[i] == '\'';
    assert t[i + 1..i + 1 + n] == Escaped(s);
    assert ReadWord(t, i, false, "") == ReadWord(t, i + 1, true, "");
    ReadEscaped(t, i + 1, s);
    assert t[i + 1 + n] == '\'';
    assert ReadWord(t, i + 1 + n, true, s) == ReadWord(t, i + 2 + n, false, s);
    assert rest != "" ==> t[i + 2 + n] == rest[0];
  }
}
