/** The content manifest of a pack: one "path permission digest" line a file, sorted and joined. */
module Manifest {
  import opened Listing
  import opened Wrappers

  // ----- one file -----

  /** A tracked file: its git mode, its path and the digest of its content in hexadecimal. */
  datatype File = File(mode: string, path: string, digest: string)

  datatype Entry = Entry(path: string, perm: string, digest: string)

  predicate StartsWith(s: string, prefix: string) {
    |prefix| <= |s| && s[..|prefix|] == prefix
  }

  /** A path relative to its pack directory; one outside it, or the directory itself, is an error. */
  function RelativePath(path: string, pack: string): (r: Result<string, string>)
    ensures r.Ok? <==> pack == "" || (StartsWith(path, pack + "/") && |path| > |pack| + 1)
    ensures r.Ok? ==> path == if pack == "" then r.value else pack + "/" + r.value
  {
    if pack == "" then Ok(path)
    else if !StartsWith(path, pack + "/") then Err("outside its directory")
    else if |path| == |pack| + 1 then Err("empty relative path")
    else
      assert path == path[..|pack| + 1] + path[|pack| + 1..];
      Ok(path[|pack| + 1..])
  }

  function ManifestPerm(mode: string): Option<string> {
    if mode == "100644" then Some("0644")
    else if mode == "100755" then Some("0755")
    else if mode == "120000" then Some("0777")
    else None
  }

  function EntryOf(f: File, pack: string): Option<Entry> {
    var rel, perm := RelativePath(f.path, pack), ManifestPerm(f.mode);
    if rel.Err? || perm.None? then None else Some(Entry(rel.value, perm.value, f.digest))
  }

  /** A file is accepted under three git modes and inside its pack directory. */
  predicate Accepted(f: File, pack: string) {
    && (f.mode == "100644" || f.mode == "100755" || f.mode == "120000")
    && (pack == "" || (StartsWith(f.path, pack + "/") && |f.path| > |pack| + 1))
  }

  /** The file with its path taken from its pack directory on. */
  function Relative(f: File, pack: string): File
    requires Accepted(f, pack)
  {
    f.(path := f.path[if pack == "" then 0 else |pack| + 1..])
  }

  /** A file's permission is its mode's last three digits, all of them for a link. */
  lemma {:induction false} EntryExact(f: File, pack: string)
    ensures EntryOf(f, pack).Some? <==> Accepted(f, pack)
    ensures Accepted(f, pack) ==>
              var r := Relative(f, pack);
              && f.path == (if pack == "" then "" else pack + "/") + r.path
              && EntryOf(f, pack)
                 == Some(Entry(r.path, if r.mode == "120000" then "0777" else "0" + r.mode[3..], r.digest))
  {
    assert "0" + "100644"[3..] == "0644" && "0" + "100755"[3..] == "0755";
    if pack == "" {
      assert "" + f.path[0..] == f.path;
    }
  }

  function Line(e: Entry): string {
    e.path + " " + e.perm + " " + e.digest
  }

  /** A permission as ManifestPerm gives it, a SHA-256 digest, and a path on one line. */
  predicate WellFormed(e: Entry) {
    |e.perm| == 4 && |e.digest| == 64 && '\n' !in e.path && '\n' !in e.perm && '\n' !in e.digest
  }

  /** Whatever spaces the path holds, the line tells its three parts. */
  lemma {:induction false} LineInjective(a: Entry, b: Entry)
    requires WellFormed(a) && WellFormed(b) && Line(a) == Line(b)
    ensures a == b
  {
    var n := |a.path|;
    assert |b.path| == n;
    assert Line(a)[..n] == a.path && Line(b)[..n] == b.path;
    assert Line(a)[n + 1..n + 5] == a.perm && Line(b)[n + 1..n + 5] == b.perm;
    assert Line(a)[n + 6..] == a.digest && Line(b)[n + 6..] == b.digest;
  }

  // ----- sorting -----

  /** Order by code points, as strings are compared. */
  predicate Leq(a: string, b: string) {
    a == "" || (b != "" && (a[0] < b[0] || (a[0] == b[0] && Leq(a[1..], b[1..]))))
  }

  lemma {:induction false} LeqTotal(a: string, b: string)
    ensures Leq(a, b) || Leq(b, a)
    ensures Leq(a, b) && Leq(b, a) ==> a == b
  {
    if a != "" && b != "" {
      LeqTotal(a[1..], b[1..]);
      assert a == [a[0]] + a[1..] && b == [b[0]] + b[1..];
    }
  }

  lemma {:induction false} LeqTransitive(a: string, b: string, c: string)
    requires Leq(a, b) && Leq(b, c)
    ensures Leq(a, c)
  {
    if a != "" && a[0] == b[0] == c[0] {
      LeqTransitive(a[1..], b[1..], c[1..]);
    }
  }

  predicate Ordered(s: seq<string>) {
    forall j, k | 0 <= j < k < |s| :: Leq(s[j], s[k])
  }

  function Inserted(s: seq<string>, x: string): (r: seq<string>)
    ensures multiset(r) == multiset(s) + multiset{x}
  {
    if s == [] then [x]
    else if Leq(x, s[0]) then [x] + s
    else
      assert s == [s[0]] + s[1..];
      [s[0]] + Inserted(s[1..], x)
  }

  function Sorted(s: seq<string>): (r: seq<string>)
    ensures multiset(r) == multiset(s)
  {
    if s == [] then []
    else
      assert s == s[..|s| - 1] + [s[|s| - 1]];
      Inserted(Sorted(s[..|s| - 1]), s[|s| - 1])
  }

  lemma {:induction false} InsertedOrdered(s: seq<string>, x: string)
    requires Ordered(s)
    ensures Ordered(Inserted(s, x))
  {
    if s != [] {
      if Leq(x, s[0]) {
        forall k | 0 <= k < |s| ensures Leq(x, s[k]) {
          LeqTotal(s[k], s[k]);
          LeqTransitive(x, s[0], s[k]);
        }
      } else {
        LeqTotal(x, s[0]);
        InsertedOrdered(s[1..], x);
        var rest := Inserted(s[1..], x);
        forall k | 0 <= k < |rest| ensures Leq(s[0], rest[k]) {
          assert rest[k] in multiset(rest);
          assert rest[k] == x || rest[k] in s[1..];
        }
      }
    }
  }

  lemma {:induction false} SortedOrdered(s: seq<string>)
    ensures Ordered(Sorted(s))
  {
    if s != [] {
      SortedOrdered(s[..|s| - 1]);
      InsertedOrdered(Sorted(s[..|s| - 1]), s[|s| - 1]);
    }
  }

  lemma {:induction false} LeastFirst(a: seq<string>, x: string)
    requires Ordered(a) && x in a
    ensures Leq(a[0], x)
  {
    hide Leq;
    LeqTotal(x, x);
  }

  lemma {:induction false} SameHead(a: seq<string>, b: seq<string>)
    requires Ordered(a) && Ordered(b) && multiset(a) == multiset(b) && a != [] && b != []
    ensures a[0] == b[0]
  {
    hide Leq, Ordered;
    assert a[0] in multiset(b) && b[0] in multiset(a);
    LeastFirst(a, b[0]);
    LeastFirst(b, a[0]);
    LeqTotal(a[0], b[0]);
  }

  lemma {:induction false} SameTail(a: seq<string>, b: seq<string>)
    requires a != [] && b != [] && a[0] == b[0] && multiset(a) == multiset(b)
    ensures multiset(a[1..]) == multiset(b[1..])
  {
    assert a == [a[0]] + a[1..] && b == [b[0]] + b[1..];
    assert multiset(a[1..]) == multiset(a) - multiset{a[0]};
    assert multiset(b[1..]) == multiset(b) - multiset{b[0]};
  }

  /** Two orderings of the same lines are one. */
  lemma {:induction false} OrderedUnique(a: seq<string>, b: seq<string>)
    requires Ordered(a) && Ordered(b) && multiset(a) == multiset(b)
    ensures a == b
  {
    hide Leq;
    assert |a| == |multiset(a)| == |multiset(b)| == |b|;
    if a != [] {
      SameHead(a, b);
      SameTail(a, b);
      OrderedUnique(a[1..], b[1..]);
      assert a == [a[0]] + a[1..] && b == [b[0]] + b[1..];
    }
  }

  // ----- the manifest -----

  function Lines(es: seq<Entry>): (lines: seq<string>)
    ensures |lines| == |es| && forall k | 0 <= k < |es| :: lines[k] == Line(es[k])
  {
    seq(|es|, k requires 0 <= k < |es| => Line(es[k]))
  }

  function Join(lines: seq<string>, k: nat): string
    requires k < |lines|
    decreases |lines| - k
  {
    if k + 1 == |lines| then lines[k] else lines[k] + ("\n" + Join(lines, k + 1))
  }

  /** The entries of the first n files; None once one of them is refused. */
  function Entries(files: seq<File>, pack: string, n: nat): (es: Option<seq<Entry>>)
    requires n <= |files|
    ensures es.Some? ==> |es.value| == n
  {
    if n == 0 then Some([])
    else
      var before, e := Entries(files, pack, n - 1), EntryOf(files[n - 1], pack);
      if before.None? || e.None? then None else Some(before.value + [e.value])
  }

  function Text(es: seq<Entry>): string
    requires es != []
  {
    Join(Sorted(Lines(es)), 0)
  }

  /** The text that is hashed; an error for a file outside its directory, an unknown mode, or no file at all. */
  method ManifestText(files: seq<File>, pack: string) returns (r: Result<string, string>)
    ensures var es := Entries(files, pack, |files|);
            if es.Some? && es.value != [] then r == Ok(Text(es.value)) else r.Err?
    ensures r.Ok? <==> files != [] && forall f <- files :: Accepted(f, pack)
  {
    hide Line, RelativePath, ManifestPerm, Accepted;
    EntriesExact(files, pack, |files|);
    var lines: seq<string> := [];
    ghost var es: seq<Entry> := [];
    for i := 0 to |files|
      invariant Entries(files, pack, i) == Some(es) && lines == Lines(es)
    {
      var rel := RelativePath(files[i].path, pack);
      var perm := ManifestPerm(files[i].mode);
      if rel.Err? || perm.None? {
        Refused(files, pack, i + 1, |files|);
        return Err(files[i].path);
      }
      var e := Entry(rel.value, perm.value, files[i].digest);
      lines := lines + [Line(e)];
      es := es + [e];
    }
    if lines == [] {
      return Err("no tracked files");
    }
    return Ok(Join(Sorted(lines), 0));
  }

  lemma {:induction false} EntryAccepted(f: File, pack: string)
    ensures EntryOf(f, pack).Some? <==> Accepted(f, pack)
  {
    EntryExact(f, pack);
  }

  /** The entries are there exactly if every file is accepted, and are the files' own. */
  lemma {:induction false} EntriesExact(files: seq<File>, pack: string, n: nat)
    requires n <= |files|
    ensures Entries(files, pack, n).Some? <==> forall k | 0 <= k < n :: Accepted(files[k], pack)
    ensures Entries(files, pack, n).Some? ==>
              forall k | 0 <= k < n :: EntryOf(files[k], pack) == Some(Entries(files, pack, n).value[k])
  {
    hide Accepted, EntryOf;
    if n > 0 {
      EntriesExact(files, pack, n - 1);
      EntryAccepted(files[n - 1], pack);
    }
  }

  lemma {:induction false} Refused(files: seq<File>, pack: string, m: nat, n: nat)
    requires m <= n <= |files| && Entries(files, pack, m).None?
    ensures Entries(files, pack, n).None?
  {
    if m < n {
      Refused(files, pack, m, n - 1);
    }
  }

  // ----- what the text tells -----

  ghost predicate OneLineEach(lines: seq<string>) {
    forall k | 0 <= k < |lines| :: '\n' !in lines[k]
  }

  lemma {:induction false} SplitJoin(before: string, lines: seq<string>, k: nat)
    requires k < |lines| && OneLineEach(lines)
    ensures Split(before + Join(lines, k), |before|) == lines[k..]
    decreases |lines| - k
  {
    hide Split;
    if k + 1 == |lines| {
      LastLine(before, lines[k]);
      assert lines[k..] == [lines[k]];
    } else {
      var rest := Join(lines, k + 1);
      assert lines[k] + ("\n" + rest) == lines[k] + "\n" + rest;
      LineStands(before, lines[k], rest);
      SplitOne(before + (lines[k] + "\n" + rest), |before|, |before| + |lines[k]|);
      Regroup(before, lines[k], rest);
      SplitJoin(before + lines[k] + "\n", lines, k + 1);
      assert lines[k..] == [lines[k]] + lines[k + 1..];
    }
  }

  lemma {:induction false} LastLine(before: string, line: string)
    requires '\n' !in line
    ensures Split(before + line, |before|) == [line]
  {
    var text := before + line;
    assert text[|before|..] == line;
    assert forall k | |before| <= k < |text| :: text[k] == line[k - |before|];
  }

  lemma {:induction false} SameText(a: seq<string>, b: seq<string>)
    requires a != [] && b != [] && OneLineEach(a) && OneLineEach(b) && Join(a, 0) == Join(b, 0)
    ensures a == b
  {
    hide Split, Join;
    SplitJoin("", a, 0);
    SplitJoin("", b, 0);
    assert a[0..] == a && b[0..] == b;
  }

  lemma {:induction false} LineCount(es: seq<Entry>, e: Entry)
    requires WellFormed(e) && forall x <- es :: WellFormed(x)
    ensures multiset(Lines(es))[Line(e)] == multiset(es)[e]
  {
    hide WellFormed, Line;
    if es != [] {
      var n := |es| - 1;
      LineCount(es[..n], e);
      assert es == es[..n] + [es[n]];
      assert Lines(es) == Lines(es[..n]) + [Line(es[n])];
      if Line(es[n]) == Line(e) {
        LineInjective(es[n], e);
      }
    }
  }

  lemma {:induction false} LinesWithin(a: seq<Entry>, b: seq<Entry>)
    requires (forall e <- a :: WellFormed(e)) && (forall e <- b :: WellFormed(e)) && multiset(a) == multiset(b)
    ensures multiset(Lines(a)) <= multiset(Lines(b))
  {
    hide WellFormed, Line;
    forall line: string ensures multiset(Lines(a))[line] <= multiset(Lines(b))[line] {
      if line in Lines(a) {
        var k :| 0 <= k < |a| && Lines(a)[k] == line;
        LineCount(a, a[k]);
        LineCount(b, a[k]);
      }
    }
  }

  lemma {:induction false} SameEntries(a: seq<Entry>, b: seq<Entry>)
    requires (forall e <- a :: WellFormed(e)) && (forall e <- b :: WellFormed(e))
    requires multiset(Lines(a)) == multiset(Lines(b))
    ensures multiset(a) == multiset(b)
  {
    hide WellFormed, Line;
    forall e: Entry ensures multiset(a)[e] == multiset(b)[e] {
      if e in a || e in b {
        LineCount(a, e);
        LineCount(b, e);
      }
    }
  }

  lemma {:induction false} OneLines(es: seq<Entry>)
    requires forall e <- es :: WellFormed(e)
    ensures OneLineEach(Sorted(Lines(es))) && |Sorted(Lines(es))| == |es|
  {
    var lines := Sorted(Lines(es));
    assert |lines| == |multiset(lines)| == |multiset(Lines(es))|;
    forall k | 0 <= k < |lines| ensures '\n' !in lines[k] {
      assert lines[k] in multiset(Lines(es));
      var j :| 0 <= j < |es| && Lines(es)[j] == lines[k];
      assert es[j] in es;
    }
  }

  /** Two listings, in whatever order, have the same text exactly when they hold the same paths,
      permissions and digests, each as often. */
  lemma {:induction false} SameTextExact(a: seq<Entry>, b: seq<Entry>)
    requires a != [] && b != [] && (forall e <- a :: WellFormed(e)) && (forall e <- b :: WellFormed(e))
    ensures Text(a) == Text(b) <==> multiset(a) == multiset(b)
  {
    hide WellFormed, Join, Sorted, Ordered, Line;
    SortedOrdered(Lines(a));
    SortedOrdered(Lines(b));
    OneLines(a);
    OneLines(b);
    if Text(a) == Text(b) {
      SameText(Sorted(Lines(a)), Sorted(Lines(b)));
      SameEntries(a, b);
    }
    if multiset(a) == multiset(b) {
      LinesWithin(a, b);
      LinesWithin(b, a);
      OrderedUnique(Sorted(Lines(a)), Sorted(Lines(b)));
    }
  }

  predicate OnOneLine(f: File) {
    '\n' !in f.path && |f.digest| == 64 && '\n' !in f.digest
  }

  lemma {:induction false} EntriesWellFormed(files: seq<File>, pack: string, n: nat)
    requires n <= |files| && (forall f <- files :: OnOneLine(f)) && Entries(files, pack, n).Some?
    ensures forall e <- Entries(files, pack, n).value :: WellFormed(e)
  {
    if n > 0 {
      EntriesWellFormed(files, pack, n - 1);
      assert OnOneLine(files[n - 1]);
    }
  }

  // ----- from files to text -----

  function Relatives(files: seq<File>, pack: string): (rs: seq<File>)
    requires forall f <- files :: Accepted(f, pack)
    ensures |rs| == |files|
  {
    seq(|files|, k requires 0 <= k < |files| => Relative(files[k], pack))
  }

  /** The entry of a file whose path is relative already. */
  function Tracked(f: File): Entry {
    Entry(f.path, if f.mode == "120000" then "0777" else if |f.mode| >= 3 then "0" + f.mode[3..] else "", f.digest)
  }

  predicate KnownMode(f: File) {
    f.mode == "100644" || f.mode == "100755" || f.mode == "120000"
  }

  lemma {:induction false} TrackedInjective(a: File, b: File)
    requires KnownMode(a) && KnownMode(b) && Tracked(a) == Tracked(b)
    ensures a == b
  {
    assert "100644"[3..] == "644" && "100755"[3..] == "755";
    assert ("0" + "644")[1] == '6' && ("0" + "755")[1] == '7' && ("0" + "755")[2] == '5' && "0777"[2] == '7';
  }

  function AllTracked(rs: seq<File>): (es: seq<Entry>)
    ensures |es| == |rs|
  {
    seq(|rs|, k requires 0 <= k < |rs| => Tracked(rs[k]))
  }

  lemma {:induction false} TrackedCount(rs: seq<File>, f: File)
    requires KnownMode(f) && forall r <- rs :: KnownMode(r)
    ensures multiset(AllTracked(rs))[Tracked(f)] == multiset(rs)[f]
  {
    hide Tracked, KnownMode;
    if rs != [] {
      var n := |rs| - 1;
      TrackedCount(rs[..n], f);
      assert rs == rs[..n] + [rs[n]];
      assert AllTracked(rs) == AllTracked(rs[..n]) + [Tracked(rs[n])];
      if Tracked(rs[n]) == Tracked(f) {
        TrackedInjective(rs[n], f);
      }
    }
  }

  lemma {:induction false} TrackedWithin(a: seq<File>, b: seq<File>)
    requires (forall r <- a :: KnownMode(r)) && (forall r <- b :: KnownMode(r)) && multiset(a) == multiset(b)
    ensures multiset(AllTracked(a)) <= multiset(AllTracked(b))
  {
    hide Tracked, KnownMode;
    forall e: Entry ensures multiset(AllTracked(a))[e] <= multiset(AllTracked(b))[e] {
      if e in AllTracked(a) {
        var k :| 0 <= k < |a| && AllTracked(a)[k] == e;
        TrackedCount(a, a[k]);
        TrackedCount(b, a[k]);
      }
    }
  }

  lemma {:induction false} SameTracked(a: seq<File>, b: seq<File>)
    requires (forall r <- a :: KnownMode(r)) && (forall r <- b :: KnownMode(r))
    ensures multiset(AllTracked(a)) == multiset(AllTracked(b)) <==> multiset(a) == multiset(b)
  {
    hide Tracked, KnownMode;
    if multiset(a) == multiset(b) {
      TrackedWithin(a, b);
      TrackedWithin(b, a);
    }
    if multiset(AllTracked(a)) == multiset(AllTracked(b)) {
      forall f: File ensures multiset(a)[f] == multiset(b)[f] {
        if f in a || f in b {
          TrackedCount(a, f);
          TrackedCount(b, f);
        }
      }
    }
  }

  lemma {:induction false} EntriesAreTracked(files: seq<File>, pack: string)
    requires forall f <- files :: Accepted(f, pack)
    ensures Entries(files, pack, |files|) == Some(AllTracked(Relatives(files, pack)))
    ensures forall r <- Relatives(files, pack) :: KnownMode(r)
  {
    hide EntryOf, Entries, Accepted, Relative, Tracked, KnownMode;
    EntriesExact(files, pack, |files|);
    forall k | 0 <= k < |files| ensures EntryOf(files[k], pack) == Some(Tracked(Relatives(files, pack)[k])) {
      assert files[k] in files;
      EntryIsTracked(files[k], pack);
    }
    assert forall k | 0 <= k < |files| ::
        Entries(files, pack, |files|).value[k] == AllTracked(Relatives(files, pack))[k];
    assert Entries(files, pack, |files|).value == AllTracked(Relatives(files, pack));
    forall r | r in Relatives(files, pack) ensures KnownMode(r) {
      var k :| 0 <= k < |files| && Relatives(files, pack)[k] == r;
      assert files[k] in files;
      EntryIsTracked(files[k], pack);
    }
  }

  lemma {:induction false} EntryIsTracked(f: File, pack: string)
    requires Accepted(f, pack)
    ensures KnownMode(Relative(f, pack)) && EntryOf(f, pack) == Some(Tracked(Relative(f, pack)))
  {
    hide EntryOf;
    EntryExact(f, pack);
  }

  /** For accepted files whose paths hold no newline, in whatever order and under whatever pack directories,
      two manifests are the same text exactly if they hold the same relative paths, git modes and digests,
      each as often. */
  lemma {:induction false} ManifestExact(files: seq<File>, pack: string, files': seq<File>, pack': string)
    requires files != [] && (forall f <- files :: Accepted(f, pack) && OnOneLine(f))
    requires files' != [] && (forall f <- files' :: Accepted(f, pack') && OnOneLine(f))
    ensures Entries(files, pack, |files|).Some? && Entries(files', pack', |files'|).Some?
    ensures var a, b := Entries(files, pack, |files|).value, Entries(files', pack', |files'|).value;
            && a != [] && b != []
            && (Text(a) == Text(b) <==> multiset(Relatives(files, pack)) == multiset(Relatives(files', pack')))
  {
    hide Entries, Text, Accepted, OnOneLine, Tracked, KnownMode, Relative;
    EntriesAreTracked(files, pack);
    EntriesAreTracked(files', pack');
    EntriesWellFormed(files, pack, |files|);
    EntriesWellFormed(files', pack', |files'|);
    SameTextExact(Entries(files, pack, |files|).value, Entries(files', pack', |files'|).value);
    SameTracked(Relatives(files, pack), Relatives(files', pack'));
  }

  // ----- the lines of the text -----

  /** Not after, character by character: a prefix, or less where they first differ. */
  ghost predicate NotAfter(a: string, b: string) {
    a <= b || exists k | 0 <= k < |a| && k < |b| :: a[..k] == b[..k] && a[k] < b[k]
  }

  lemma {:induction false} LeqExact(a: string, b: string)
    ensures Leq(a, b) <==> NotAfter(a, b)
  {
    if a != "" && b != "" {
      LeqExact(a[1..], b[1..]);
      if a[0] == b[0] {
        SameFirst(a, b);
      } else {
        OtherFirst(a, b);
      }
    }
  }

  lemma {:induction false} OtherFirst(a: string, b: string)
    requires a != "" && b != "" && a[0] != b[0]
    ensures NotAfter(a, b) <==> a[0] < b[0]
  {
    assert a[..0] == b[..0];
    forall k | 0 < k < |a| && k < |b| ensures a[..k] != b[..k] {
      assert a[..k][0] != b[..k][0];
    }
  }

  lemma {:induction false} SameFirst(a: string, b: string)
    requires a != "" && b != "" && a[0] == b[0]
    ensures NotAfter(a, b) <==> NotAfter(a[1..], b[1..])
  {
    var x, y := a[1..], b[1..];
    assert a == [a[0]] + x && b == [b[0]] + y;
    if k :| 0 <= k < |x| && k < |y| && x[..k] == y[..k] && x[k] < y[k] {
      assert a[..k + 1] == [a[0]] + x[..k] && b[..k + 1] == [b[0]] + y[..k];
      assert a[k + 1] < b[k + 1];
    }
    if k :| 0 <= k < |a| && k < |b| && a[..k] == b[..k] && a[k] < b[k] {
      assert k > 0;
      assert x[..k - 1] == a[..k][1..] && y[..k - 1] == b[..k][1..];
      assert x[k - 1] < y[k - 1];
    }
  }

  /** The line a file has in its manifest. */
  ghost predicate IsLineOf(line: string, f: File, pack: string) {
    exists rel :: LineWith(line, f, pack, rel)
  }

  ghost predicate LineWith(line: string, f: File, pack: string, rel: string) {
    && f.path == (if pack == "" then "" else pack + "/") + rel
    && |f.mode| == 6
    && line == rel + " " + (if f.mode == "120000" then "0777" else "0" + f.mode[3..]) + " " + f.digest
  }

  /** The manifest's lines are the files' lines, in ascending order. */
  lemma {:induction false} ManifestLines(files: seq<File>, pack: string)
    requires files != [] && (forall f <- files :: Accepted(f, pack) && OnOneLine(f))
    ensures Entries(files, pack, |files|).Some? && Entries(files, pack, |files|).value != []
    ensures var lines := Split(Text(Entries(files, pack, |files|).value), 0);
            && (exists own: seq<string> ::
                  && |own| == |files| && multiset(own) == multiset(lines)
                  && forall k | 0 <= k < |files| :: IsLineOf(own[k], files[k], pack))
            && forall j, k | 0 <= j < k < |lines| :: NotAfter(lines[j], lines[k])
  {
    EntriesAreTracked(files, pack);
    var es := Entries(files, pack, |files|).value;
    var own, sorted := Lines(es), Sorted(Lines(es));
    EntriesWellFormed(files, pack, |files|);
    EntriesExact(files, pack, |files|);
    OneLines(es);
    SortedOrdered(own);
    hide Split, Join, Sorted, Entries, Accepted, Leq, NotAfter, OnOneLine, EntryOf, WellFormed;
    SplitJoin("", sorted, 0);
    assert "" + Join(sorted, 0) == Join(sorted, 0) && sorted[0..] == sorted;
    forall k | 0 <= k < |files| ensures IsLineOf(own[k], files[k], pack) {
      assert files[k] in files;
      EntryLine(files[k], pack, es[k]);
    }
    forall j, k | 0 <= j < k < |sorted| ensures NotAfter(sorted[j], sorted[k]) {
      LeqExact(sorted[j], sorted[k]);
    }
  }

  lemma {:induction false} EntryLine(f: File, pack: string, e: Entry)
    requires Accepted(f, pack) && EntryOf(f, pack) == Some(e)
    ensures IsLineOf(Line(e), f, pack)
  {
    hide EntryOf;
    EntryExact(f, pack);
    assert LineWith(Line(e), f, pack, Relative(f, pack).path);
  }
}
