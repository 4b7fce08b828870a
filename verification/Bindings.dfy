/** Import bindings for packs: a bare TOML key from each pack name, and a fresh one where that is taken. */
module Bindings {
  import opened Finite
  import opened Listing
  import opened Wrappers

  predicate IsBare(c: char) {
    'A' <= c <= 'Z' || 'a' <= c <= 'z' || '0' <= c <= '9' || c == '_' || c == '-'
  }

  /** A key TOML reads without quotes. */
  predicate BareKey(s: string) {
    s != "" && forall c <- s :: IsBare(c)
  }

  // ----- one name -----

  function BadEnd(s: string, i: nat): (j: nat)
    requires i <= |s|
    ensures i <= j <= |s| && (forall k | i <= k < j :: !IsBare(s[k])) && (i < |s| && !IsBare(s[i]) ==> i < j)
    decreases |s| - i
  {
    if i < |s| && !IsBare(s[i]) then BadEnd(s, i + 1) else i
  }

  /** Every run of other characters becomes one dash. */
  function Dashed(s: string): (r: string)
    ensures forall c <- r :: IsBare(c)
  {
    if s == "" then ""
    else if IsBare(s[0]) then [s[0]] + Dashed(s[1..])
    else "-" + Dashed(s[BadEnd(s, 0)..])
  }

  function Strip(s: string): (r: string)
    ensures r != "" ==> r[0] != '-' && r[|r| - 1] != '-'
    ensures forall c <- r :: c in s
  {
    if s == "" then ""
    else if s[0] == '-' then Strip(s[1..])
    else if s[|s| - 1] == '-' then Strip(s[..|s| - 1])
    else s
  }

  /** None where the source refuses the name. */
  function ImportBinding(name: string): (r: Option<string>)
    ensures r.Some? ==> BareKey(r.value) && r.value[0] != '-' && r.value[|r.value| - 1] != '-'
  {
    var binding := Strip(Dashed(name));
    if binding == "" then None else Some(binding)
  }

  predicate Telling(c: char) {
    IsBare(c) && c != '-'
  }

  lemma {:induction false} DashedTells(s: string)
    ensures (exists c <- Dashed(s) :: Telling(c)) <==> exists c <- s :: Telling(c)
  {
    if s != "" {
      if IsBare(s[0]) {
        DashedTells(s[1..]);
        assert s == [s[0]] + s[1..];
      } else {
        var e := BadEnd(s, 0);
        DashedTells(s[e..]);
        assert s == s[..e] + s[e..];
        assert forall c <- s[..e] :: !IsBare(c);
      }
    }
  }

  lemma {:induction false} StripTells(s: string)
    requires forall c <- s :: IsBare(c)
    ensures Strip(s) != "" <==> exists c <- s :: Telling(c)
  {
    if s != "" {
      if s[0] == '-' {
        assert s == [s[0]] + s[1..];
        StripTells(s[1..]);
      } else {
        assert s[0] in s && Telling(s[0]);
        StripEnd(s);
      }
    }
  }

  lemma {:induction false} StripEnd(s: string)
    requires s != "" && s[0] != '-'
    ensures Strip(s) != ""
  {
    if s[|s| - 1] == '-' {
      StripEnd(s[..|s| - 1]);
    }
  }

  /** A name has a binding exactly when it holds a letter, a digit or an underscore. */
  lemma {:induction false} ConvertibleExact(name: string)
    ensures ImportBinding(name).Some? <==> exists c <- name :: Telling(c)
  {
    DashedTells(name);
    StripTells(Dashed(name));
  }

  // ----- a name's binding, character by character -----

  /** Letters, digits, the underscore and the dash, by their codes. */
  predicate Plain(c: char) {
    48 <= c as int <= 57 || 65 <= c as int <= 90 || 97 <= c as int <= 122 || c as int == 95 || c as int == 45
  }

  lemma {:induction false} DashedKeeps(a: string, b: string)
    requires forall k | 0 <= k < |a| :: Plain(a[k])
    ensures Dashed(a + b) == a + Dashed(b)
  {
    if a != "" {
      DashedKeeps(a[1..], b);
      assert (a + b)[1..] == a[1..] + b;
    } else {
      assert a + b == b;
    }
  }

  lemma {:induction false} RunEnds(run: string, b: string, i: nat)
    requires i <= |run| && (forall k | 0 <= k < |run| :: !Plain(run[k])) && (b != "" ==> Plain(b[0]))
    ensures BadEnd(run + b, i) == |run|
    decreases |run| - i
  {
    if i < |run| {
      RunEnds(run, b, i + 1);
    }
  }

  /** Plain characters stand as they are, and every run of others gives way to one dash. */
  lemma {:induction false} DashedExact(plain: string, run: string, rest: string)
    requires (forall k | 0 <= k < |plain| :: Plain(plain[k])) && (forall k | 0 <= k < |run| :: !Plain(run[k]))
    requires run != "" && (rest != "" ==> Plain(rest[0]))
    ensures Dashed(plain + run + rest) == plain + "-" + Dashed(rest) && Dashed(plain) == plain
  {
    assert plain + run + rest == plain + (run + rest) && plain + "" == plain;
    DashedKeeps(plain, run + rest);
    DashedKeeps(plain, "");
    RunEnds(run, rest, 0);
    assert (run + rest)[0] == run[0] && (run + rest)[|run|..] == rest;
    assert Dashed(run + rest) == "-" + Dashed(rest);
  }

  /** t stands in s from i up to j, and all around it are dashes. */
  predicate AmidDashes(s: string, t: string, i: nat, j: nat) {
    i <= j <= |s| && t == s[i..j] && forall k | 0 <= k < |s| && (k < i || j <= k) :: s[k] == '-'
  }

  lemma {:induction false} StripAt(s: string) returns (i: nat, j: nat)
    ensures AmidDashes(s, Strip(s), i, j)
  {
    if s == "" {
      i, j := 0, 0;
    } else if s[0] == '-' {
      i, j := StripAt(s[1..]);
      i, j := i + 1, j + 1;
      assert forall k | 0 < k < |s| :: s[k] == s[1..][k - 1];
    } else if s[|s| - 1] == '-' {
      i, j := StripAt(s[..|s| - 1]);
      assert forall k | 0 <= k < |s| - 1 :: s[k] == s[..|s| - 1][k];
    } else {
      i, j := 0, |s|;
    }
  }

  /** A binding is the dashed name without the dashes around it. */
  lemma {:induction false} BindingExact(name: string)
    ensures exists i, j, binding: string ::
              && AmidDashes(Dashed(name), binding, i, j)
              && (binding != "" ==> binding[0] != '-' && binding[|binding| - 1] != '-')
              && ImportBinding(name) == if binding == "" then None else Some(binding)
  {
    hide Dashed, Strip, AmidDashes;
    var i, j := StripAt(Dashed(name));
    assert AmidDashes(Dashed(name), Strip(Dashed(name)), i, j);
  }

  // ----- fresh names -----

  /** The k-th name tried for a base: the base itself, then with suffix 2, 3 and so on. */
  function Candidate(base: string, k: nat): string
    requires k > 0
  {
    if k == 1 then base else base + "-" + Digits(k)
  }

  lemma {:induction false} CandidatesDiffer(base: string, j: nat, k: nat)
    requires 0 < j && 0 < k && Candidate(base, j) == Candidate(base, k)
    ensures j == k
  {
    var a, b := Candidate(base, j), Candidate(base, k);
    if j > 1 && k > 1 {
      assert a[|base| + 1..] == Digits(j) && b[|base| + 1..] == Digits(k);
      ValueOfDigits(j);
      ValueOfDigits(k);
    }
  }

  /** The names tried before the k-th. */
  function Tried(base: string, k: nat): (s: set<string>)
    requires k > 0
  {
    if k == 1 then {} else Tried(base, k - 1) + {Candidate(base, k - 1)}
  }

  lemma {:induction false} NotYetTried(base: string, k: nat, j: nat)
    requires 0 < k <= j
    ensures Candidate(base, j) !in Tried(base, k)
  {
    if k > 1 {
      NotYetTried(base, k - 1, j);
      if Candidate(base, j) == Candidate(base, k - 1) {
        CandidatesDiffer(base, j, k - 1);
      }
    }
  }

  /** A candidate that is taken leaves fewer taken names to run into. */
  lemma {:induction false} FewerLeft(base: string, used: set<string>, k: nat)
    requires 0 < k && Candidate(base, k) in used
    ensures |used - Tried(base, k + 1)| < |used - Tried(base, k)|
  {
    hide Candidate, Tried;
    NotYetTried(base, k, k);
    TriedMore(base, k);
    assert used - Tried(base, k + 1) == (used - Tried(base, k)) - {Candidate(base, k)};
  }

  lemma {:induction false} TriedMore(base: string, k: nat)
    requires k > 0
    ensures Tried(base, k + 1) == Tried(base, k) + {Candidate(base, k)}
  {
  }

  /** The first free candidate from the k-th on; there is one within as many tries as names are taken. */
  function FirstFree(base: string, used: set<string>, k: nat): (r: nat)
    requires k > 0
    ensures k <= r <= k + |used - Tried(base, k)| && Candidate(base, r) !in used
    ensures forall j | k <= j < r :: Candidate(base, j) in used
    decreases |used - Tried(base, k)|
  {
    if Candidate(base, k) !in used then k
    else
      FewerLeft(base, used, k);
      FirstFree(base, used, k + 1)
  }

  // ----- all names -----

  predicate Convertible(names: seq<string>, n: nat)
    requires n <= |names|
  {
    forall k | 0 <= k < n :: ImportBinding(names[k]).Some?
  }

  /** A convertible name's first candidate that is not taken. */
  function Fresh(name: string, taken: set<string>): string
    requires ImportBinding(name).Some?
  {
    Candidate(ImportBinding(name).value, FirstFree(ImportBinding(name).value, taken, 1))
  }

  /** The bindings of the first n names, each the first candidate not taken by those before. */
  function Chosen(names: seq<string>, n: nat): (chosen: seq<string>)
    requires n <= |names| && Convertible(names, n)
    ensures |chosen| == n
  {
    if n == 0 then []
    else
      var before := Chosen(names, n - 1);
      before + [Fresh(names[n - 1], Elements(before))]
  }

  /** Which name got which binding; a repeated name its last. */
  function Table(names: seq<string>, n: nat): map<string, string>
    requires n <= |names| && Convertible(names, n)
  {
    if n == 0 then map[] else Table(names, n - 1)[names[n - 1] := Chosen(names, n)[n - 1]]
  }

  /** The inner loop: tries the base, then suffixes from 2 on. */
  method FreshBinding(name: string, used: set<string>) returns (binding: Option<string>)
    ensures ImportBinding(name).None? ==> binding.None?
    ensures ImportBinding(name).Some? ==> binding == Some(Fresh(name, used))
    ensures ImportBinding(name).Some? ==> exists r :: FirstFreeIs(ImportBinding(name).value, used, binding.value, r)
  {
    hide ImportBinding, BareKey;
    if ImportBinding(name).Some? {
      FreshExact(name, used);
    }
    var base := ImportBinding(name);
    if base.None? {
      return None;
    }
    var candidate := base.value;
    var suffix := 2;
    while candidate in used
      invariant suffix >= 2 && candidate == Candidate(base.value, suffix - 1)
      invariant FirstFree(base.value, used, suffix - 1) == FirstFree(base.value, used, 1)
      decreases |used - Tried(base.value, suffix - 1)|
    {
      FewerLeft(base.value, used, suffix - 1);
      candidate := base.value + "-" + Digits(suffix);
      suffix := suffix + 1;
    }
    return Some(candidate);
  }

  method UniqueBindings(names: seq<string>) returns (r: Result<map<string, string>, string>)
    ensures r.Ok? <==> Convertible(names, |names|)
    ensures r.Ok? ==> r == Ok(Table(names, |names|))
  {
    hide Fresh, ImportBinding, Elements, BareKey;
    var bindings: map<string, string> := map[];
    var used: set<string> := {};
    var i := 0;
    while i < |names|
      invariant i <= |names| && Convertible(names, i)
      invariant bindings == Table(names, i) && used == Elements(Chosen(names, i))
    {
      var binding := FreshBinding(names[i], used);
      if binding.None? {
        return Err(names[i]);
      }
      ElementsAppend(Chosen(names, i), binding.value);
      bindings := bindings[names[i] := binding.value];
      used := used + {binding.value};
      i := i + 1;
    }
    return Ok(bindings);
  }

  // ----- what the bindings are -----

  lemma {:induction false} ChosenPrefix(names: seq<string>, k: nat, n: nat)
    requires k <= n <= |names| && Convertible(names, n)
    ensures Chosen(names, n)[..k] == Chosen(names, k)
  {
    hide Fresh, ImportBinding, Elements, BareKey;
    if k < n {
      ChosenPrefix(names, k, n - 1);
      assert Chosen(names, n)[..k] == Chosen(names, n - 1)[..k];
    } else {
      assert Chosen(names, n)[..n] == Chosen(names, n);
    }
  }

  /** Each binding is fresh for the ones before it. */
  lemma {:induction false} ChosenAt(names: seq<string>, k: nat, n: nat)
    requires k < n <= |names| && Convertible(names, n)
    ensures Chosen(names, n)[k] == Fresh(names[k], Elements(Chosen(names, k)))
  {
    hide Fresh, ImportBinding, Elements, BareKey;
    ChosenPrefix(names, k + 1, n);
    assert Chosen(names, n)[k] == Chosen(names, n)[..k + 1][k];
  }

  /** A fresh binding is a bare key, not taken, and the base or the least free suffix. */
  lemma {:induction false} FreshExact(name: string, taken: set<string>)
    requires ImportBinding(name).Some?
    ensures Fresh(name, taken) !in taken && BareKey(Fresh(name, taken))
    ensures exists r :: FirstFreeIs(ImportBinding(name).value, taken, Fresh(name, taken), r)
  {
    var base := ImportBinding(name).value;
    hide ImportBinding, BareKey;
    var r := FirstFree(base, taken, 1);
    CandidateIsBare(base, r);
    assert taken - Tried(base, 1) == taken;
    if r > 1 {
      assert Candidate(base, 1) in taken;
      forall j | 2 <= j < r ensures base + "-" + Digits(j) in taken {
        assert Candidate(base, j) in taken;
      }
    }
    assert FirstFreeIs(base, taken, Fresh(name, taken), r);
  }

  /** The binding is the base, or where that is taken the base with the first suffix, from 2 on, that leads to
      a name not taken; r is the suffix, 1 for none. */
  ghost predicate FirstFreeIs(base: string, taken: set<string>, binding: string, r: nat) {
    && 0 < r <= |taken| + 1 && binding !in taken
    && (r == 1 ==> binding == base)
    && (r > 1 ==> base in taken && binding == base + "-" + Digits(r)
                  && forall j | 2 <= j < r :: base + "-" + Digits(j) in taken)
  }

  /** No binding is given twice. */
  lemma {:induction false} ChosenDiffer(names: seq<string>, n: nat)
    requires n <= |names| && Convertible(names, n)
    ensures NoRepeats(Chosen(names, n))
  {
    hide Fresh, ImportBinding, Elements, BareKey;
    forall j, k | 0 <= j < k < n ensures Chosen(names, n)[j] != Chosen(names, n)[k] {
      ChosenAt(names, k, n);
      FreshExact(names[k], Elements(Chosen(names, k)));
      ChosenPrefix(names, k, n);
      assert Chosen(names, n)[j] == Chosen(names, k)[j];
    }
  }

  /** The last place of a name among the first n. */
  function LastPlace(names: seq<string>, n: nat, name: string): (k: nat)
    requires n <= |names| && name in names[..n]
    ensures k < n && names[k] == name && forall j | k < j < n :: names[j] != name
  {
    if names[n - 1] == name then n - 1
    else
      assert names[..n] == names[..n - 1] + [names[n - 1]];
      LastPlace(names, n - 1, name)
  }

  lemma {:induction false} TableAt(names: seq<string>, n: nat, name: string)
    requires n <= |names| && Convertible(names, n) && name in names[..n]
    ensures name in Table(names, n) && Table(names, n)[name] == Chosen(names, n)[LastPlace(names, n, name)]
  {
    hide Fresh, ImportBinding, Elements, BareKey;
    if names[n - 1] != name {
      assert names[..n] == names[..n - 1] + [names[n - 1]];
      TableAt(names, n - 1, name);
    }
  }

  lemma {:induction false} CandidateIsBare(base: string, k: nat)
    requires k > 0 && BareKey(base)
    ensures BareKey(Candidate(base, k))
  {
    if k > 1 {
      forall c | c in Candidate(base, k) ensures IsBare(c) {
        assert c in base || c in "-" || c in Digits(k);
      }
    }
  }

  /** Every name has a binding; distinct names have distinct ones. */
  lemma {:induction false} DistinctNamesDistinctBindings(names: seq<string>, a: string, b: string)
    requires Convertible(names, |names|) && a in names && b in names
    ensures var t := Table(names, |names|);
            a in t && b in t && (t[a] == t[b] <==> a == b)
  {
    hide Chosen, Table, ImportBinding;
    assert names[..|names|] == names;
    TableAt(names, |names|, a);
    TableAt(names, |names|, b);
    ChosenDiffer(names, |names|);
  }

  /** A binding is a bare key: the name's own, or that with the least suffix the bindings given before it
      leave free, which is no larger than one more than their number. */
  lemma {:induction false} BindingIsFirstFree(names: seq<string>, name: string)
    requires Convertible(names, |names|) && name in names
    ensures var taken := Elements(Chosen(names, LastPlace(names, |names|, name)));
            var t := Table(names, |names|);
            && name in t && BareKey(t[name]) && t[name] !in taken
            && exists r :: FirstFreeIs(ImportBinding(name).value, taken, t[name], r)
  {
    hide Chosen, Table, ImportBinding, BareKey, Fresh, Elements, FirstFreeIs;
    assert names[..|names|] == names;
    TableAt(names, |names|, name);
    var k := LastPlace(names, |names|, name);
    ChosenAt(names, k, |names|);
    FreshExact(name, Elements(Chosen(names, k)));
  }
}
