/** Cleaning a file's path: doubled slashes and "." components are shifted out of the buffer in
    place. */
module CleanPath {
  import opened LogFile

  const SLASH := '/'

  // ---------------------------------------------------------------------------
  // Paths as components
  // ---------------------------------------------------------------------------

  /** The pieces between slashes, empty ones included. */
  function Components(s: string): (cs: seq<string>)
    ensures cs != []
  {
    if s == "" then [""]
    else
      var rest := Components(s[1..]);
      if s[0] == SLASH then [""] + rest else [[s[0]] + rest[0]] + rest[1..]
  }

  function Join(cs: seq<string>): string
    requires cs != []
  {
    if |cs| == 1 then cs[0] else cs[0] + [SLASH] + Join(cs[1..])
  }

  /** The components that name something. */
  function Names(cs: seq<string>): seq<string> {
    if cs == [] then []
    else
      var last := cs[|cs| - 1];
      Names(cs[..|cs| - 1]) + (if last == "" || last == "." then [] else [last])
  }

  function Last(s: string): string {
    var cs := Components(s);
    cs[|cs| - 1]
  }

  lemma {:induction false} JoinComponents(s: string)
    ensures Join(Components(s)) == s
  {
    if s != "" {
      JoinComponents(s[1..]);
    }
  }

  lemma {:induction false} ComponentsSplit(a: string, b: string)
    ensures Components(a + [SLASH] + b) == Components(a) + Components(b)
  {
    var s := a + [SLASH] + b;
    if a == "" {
      assert s[1..] == b;
    } else {
      assert s[1..] == a[1..] + [SLASH] + b;
      ComponentsSplit(a[1..], b);
    }
  }

  lemma {:induction false} NamesConcat(cs: seq<string>, ds: seq<string>)
    ensures Names(cs + ds) == Names(cs) + Names(ds)
  {
    if ds == [] {
      assert cs + ds == cs;
    } else {
      NamesConcat(cs, ds[..|ds| - 1]);
      assert (cs + ds)[..|cs + ds| - 1] == cs + ds[..|ds| - 1];
    }
  }

  /** A component that names nothing can go, unless it is the last. */
  lemma WithoutOne(a: string, c: string, b: string)
    requires c == "" || c == "."
    ensures var s, t := a + [SLASH] + c + [SLASH] + b, a + [SLASH] + b;
            Names(Components(s)) == Names(Components(t)) && Last(s) == Last(t)
  {
    var s, t := a + [SLASH] + c + [SLASH] + b, a + [SLASH] + b;
    ComponentsSplit(a, b);
    ComponentsSplit(a + [SLASH] + c, b);
    ComponentsSplit(a, c);
    assert Components(c) == [c];
    assert Components(s) == Components(a) + [c] + Components(b);
    NamesConcat(Components(a) + [c], Components(b));
    NamesConcat(Components(a), [c]);
    assert [c][..0] == [];
    assert Names([c]) == [];
    NamesConcat(Components(a), Components(b));
  }

  // ---------------------------------------------------------------------------
  // Clean paths
  // ---------------------------------------------------------------------------

  predicate OccursAt(s: string, pat: string, i: nat) {
    i + |pat| <= |s| && s[i..i + |pat|] == pat
  }

  predicate Contains(s: string, pat: string) {
    exists i: nat :: i <= |s| && OccursAt(s, pat, i)
  }

  const DOUBLE := "//"
  const DOT := "/./"

  predicate Clean(s: string) {
    !Contains(s, DOUBLE) && !Contains(s, DOT)
  }

  /** In letters: nowhere two slashes in a row, and nowhere a single dot between two. */
  lemma CleanInLetters(s: string)
    ensures Clean(s) <==>
              && (forall i :: 0 <= i < |s| - 1 ==> s[i] != '/' || s[i + 1] != '/')
              && (forall i :: 0 <= i < |s| - 2 ==> s[i] != '/' || s[i + 1] != '.' || s[i + 2] != '/')
  {
    if Clean(s) {
      forall i | 0 <= i < |s| - 1 ensures s[i] != '/' || s[i + 1] != '/' {
        DoubleAt(s, i);
        assert !OccursAt(s, DOUBLE, i);
      }
      forall i | 0 <= i < |s| - 2 ensures s[i] != '/' || s[i + 1] != '.' || s[i + 2] != '/' {
        DotAt(s, i);
        assert !OccursAt(s, DOT, i);
      }
    } else {
      var i: nat :| i <= |s| && (OccursAt(s, DOUBLE, i) || OccursAt(s, DOT, i));
      DoubleAt(s, i);
      DotAt(s, i);
    }
  }

  predicate IsAbsolute(s: string) {
    s != "" && s[0] == SLASH
  }

  /** What a cleaned path has to do with the one it was made from. */
  predicate SamePath(s: string, t: string) {
    Names(Components(s)) == Names(Components(t)) && Last(s) == Last(t) && (IsAbsolute(s) <==> IsAbsolute(t))
  }

  /** A shift takes one component out of the buffer. */
  lemma ShiftDrops(s: string, pat: string, i: nat)
    requires (pat == DOUBLE || pat == DOT) && OccursAt(s, pat, i)
    ensures SamePath(s[..i] + s[i + |pat| - 1..], s)
  {
    var c := pat[1..|pat| - 1];
    var a, b := s[..i], s[i + |pat|..];
    assert pat == [SLASH] + c + [SLASH];
    assert s == a + pat + b;
    assert s == a + [SLASH] + c + [SLASH] + b;
    assert s[i + |pat| - 1..] == [SLASH] + b;
    assert s[..i] + s[i + |pat| - 1..] == a + [SLASH] + b;
    assert i == 0 ==> s[0] == pat[0];
    WithoutOne(a, c, b);
  }

  lemma DoubleAt(t: string, k: nat)
    ensures OccursAt(t, DOUBLE, k) <==> k + 1 < |t| && t[k] == t[k + 1] == SLASH
  {
    if k + 1 < |t| {
      assert t[k..k + 2] == [t[k], t[k + 1]];
    }
  }

  lemma DotAt(t: string, k: nat)
    ensures OccursAt(t, DOT, k) <==> k + 2 < |t| && t[k] == t[k + 2] == SLASH && t[k + 1] == '.'
  {
    if k + 2 < |t| {
      assert t[k..k + 3] == [t[k], t[k + 1], t[k + 2]];
    }
  }

  /** Taking out "/." leaves no doubled slash where there was none. */
  lemma NoNewDouble(s: string, i: nat)
    requires OccursAt(s, DOT, i) && !Contains(s, DOUBLE)
    ensures !Contains(s[..i] + s[i + 2..], DOUBLE)
  {
    var t := s[..i] + s[i + 2..];
    assert s[i + 2] == s[i..i + 3][2] == SLASH && s[i] == s[i..i + 3][0] == SLASH;
    forall k: nat | k <= |t| ensures !OccursAt(t, DOUBLE, k) {
      var j := if k < i then k else k + 2;
      DoubleAt(t, k);
      DoubleAt(s, j);
      assert !OccursAt(s, DOUBLE, j);
    }
  }

  // ---------------------------------------------------------------------------
  // The buffer
  // ---------------------------------------------------------------------------

  /** The first occurrence of a string, if there is one. */
  method StrStr(s: string, pat: string) returns (r: Option<nat>)
    requires pat != ""
    ensures r.Some? ==> OccursAt(s, pat, r.value) && forall j: nat :: j < r.value ==> !OccursAt(s, pat, j)
    ensures r.None? ==> !Contains(s, pat)
  {
    var i: nat := 0;
    while i + |pat| <= |s|
      invariant forall j: nat :: j < i ==> !OccursAt(s, pat, j)
    {
      if s[i..i + |pat|] == pat {
        return Some(i);
      }
      i := i + 1;
    }
    r := None;
  }

  /** Shifts what follows position i + d of an n-character string down to i. */
  method ShiftDown(buf: array<char>, n: nat, i: nat, d: nat)
    requires i + d <= n <= buf.Length
    modifies buf
    ensures buf[..n - d] == old(buf[..i] + buf[i + d..n])
  {
    ghost var was := buf[..];
    for k := i to n - d
      invariant forall j :: 0 <= j < i ==> buf[j] == was[j]
      invariant forall j :: i <= j < k ==> buf[j] == was[j + d]
      invariant forall j :: k <= j < buf.Length ==> buf[j] == was[j]
    {
      buf[k] := buf[k + d];
    }
    ghost var kept := was[..i] + was[i + d..n];
    assert kept == old(buf[..i] + buf[i + d..n]);
    forall j | 0 <= j < n - d ensures buf[..n - d][j] == kept[j] {
    }
  }

  /** Takes every doubled slash out. */
  method FilterDoubles(buf: array<char>, n: nat) returns (n': nat)
    requires n <= buf.Length
    modifies buf
    ensures n' <= n && !Contains(buf[..n'], DOUBLE) && SamePath(buf[..n'], old(buf[..n]))
  {
    n' := n;
    var filter := StrStr(buf[..n'], DOUBLE);
    while filter.Some?
      invariant n' <= n && SamePath(buf[..n'], old(buf[..n]))
      invariant filter.Some? ==> OccursAt(buf[..n'], DOUBLE, filter.value)
      invariant filter.None? ==> !Contains(buf[..n'], DOUBLE)
      decreases n', filter.Some?
    {
      n' := Drop(buf, n', DOUBLE, filter.value);
      filter := StrStr(buf[..n'], DOUBLE);
    }
  }

  /** Takes every "." component out that has another after it. */
  method FilterDots(buf: array<char>, n: nat) returns (n': nat)
    requires n <= buf.Length && !Contains(buf[..n], DOUBLE)
    modifies buf
    ensures n' <= n && Clean(buf[..n']) && SamePath(buf[..n'], old(buf[..n]))
  {
    n' := n;
    var filter := StrStr(buf[..n'], DOT);
    while filter.Some?
      invariant n' <= n && !Contains(buf[..n'], DOUBLE) && SamePath(buf[..n'], old(buf[..n]))
      invariant filter.Some? ==> OccursAt(buf[..n'], DOT, filter.value)
      invariant filter.None? ==> !Contains(buf[..n'], DOT)
      decreases n', filter.Some?
    {
      NoNewDouble(buf[..n'], filter.value);
      n' := Drop(buf, n', DOT, filter.value);
      filter := StrStr(buf[..n'], DOT);
    }
  }

  method Drop(buf: array<char>, n: nat, pat: string, i: nat) returns (n': nat)
    requires n <= buf.Length && (pat == DOUBLE || pat == DOT) && OccursAt(buf[..n], pat, i)
    modifies buf
    ensures n' == n + 1 - |pat|
    ensures buf[..n'] == old(buf[..n])[..i] + old(buf[..n])[i + |pat| - 1..]
    ensures SamePath(buf[..n'], old(buf[..n]))
  {
    ghost var s := buf[..n];
    ShiftDrops(s, pat, i);
    ShiftDown(buf, n, i, |pat| - 1);
    n' := n + 1 - |pat|;
    assert s[..i] == old(buf[..i]) && s[i + |pat| - 1..] == old(buf[i + |pat| - 1..n]);
  }

  // ---------------------------------------------------------------------------
  // Clean paths are canonical
  // ---------------------------------------------------------------------------

  /** The components a clean absolute path must have: its names, and its last component if that
      names nothing. */
  function Canonical(names: seq<string>, last: string): seq<string> {
    [""] + names + (if last == "" || last == "." then [last] else [])
  }

  lemma NotDoubled(s: string, i: nat)
    requires Clean(s) && 0 < i < |s| && s[i - 1] == SLASH
    ensures s[i] != SLASH
  {
    assert !OccursAt(s, DOUBLE, i - 1);
    assert s[i - 1..i - 1 + |DOUBLE|] == [s[i - 1], s[i]];
  }

  lemma NotDotted(s: string, i: nat)
    requires Clean(s) && 0 < i && i + 1 < |s| && s[i - 1] == SLASH
    ensures s[i] != '.' || s[i + 1] != SLASH
  {
    assert !OccursAt(s, DOT, i - 1);
    assert s[i - 1..i - 1 + |DOT|] == [s[i - 1], s[i], s[i + 1]];
  }

  lemma {:induction false} InnerComponents(s: string)
    requires IsAbsolute(s) && Clean(s)
    ensures forall i :: 0 < i < |Components(s)| - 1 ==> Components(s)[i] != "" && Components(s)[i] != "."
    ensures Components(s)[0] == "" && |Components(s)| > 1
  {
    assert s[1..] == s[1..];
    InnerOf(s, s[1..], 1);
  }

  /** Components of a tail of a clean path. */
  lemma {:induction false} InnerOf(s: string, t: string, i: nat)
    requires Clean(s) && 0 < i <= |s| && t == s[i..] && s[i - 1] == SLASH
    ensures forall k :: 0 <= k < |Components(t)| - 1 ==> Components(t)[k] != "" && Components(t)[k] != "."
    decreases |t|
  {
    var j := 0;
    while j < |t| && t[j] != SLASH
      invariant 0 <= j <= |t| && forall m :: 0 <= m < j ==> t[m] != SLASH
    {
      j := j + 1;
    }
    if j < |t| {
      var c, rest := t[..j], t[j + 1..];
      assert t == c + [SLASH] + rest;
      ComponentsSplit(c, rest);
      OneComponent(c);
      InnerOf(s, rest, i + j + 1);
      assert forall m :: 0 <= m < |t| ==> t[m] == s[i + m];
      assert c == "" ==> t[0] == SLASH;
      assert c == "." ==> |t| > 1 && t[0] == '.' && t[1] == SLASH;
      NotDoubled(s, i);
      if i + 1 < |s| {
        NotDotted(s, i);
      }
    } else {
      OneComponent(t);
    }
  }

  lemma {:induction false} OneComponent(c: string)
    requires forall m :: 0 <= m < |c| ==> c[m] != SLASH
    ensures Components(c) == [c]
  {
    if c != "" {
      OneComponent(c[1..]);
      assert [c[0]] + c[1..] == c;
    }
  }

  lemma {:induction false} NamesOfInner(cs: seq<string>)
    requires forall i :: 0 <= i < |cs| ==> cs[i] != "" && cs[i] != "."
    ensures Names(cs) == cs
  {
    if cs != [] {
      NamesOfInner(cs[..|cs| - 1]);
      assert cs == cs[..|cs| - 1] + [cs[|cs| - 1]];
    }
  }

  lemma CleanIsCanonical(s: string)
    requires IsAbsolute(s) && Clean(s)
    ensures Components(s) == Canonical(Names(Components(s)), Last(s))
  {
    InnerComponents(s);
    var cs := Components(s);
    var n := |cs| - 1;
    var inner := cs[1..n];
    NamesOfInner(inner);
    assert cs[..n] == [""] + inner && cs == cs[..n] + [cs[n]];
    NamesConcat([""], inner);
    assert [""][..0] == [];
    assert Names([""]) == [];
  }

  /** A clean absolute path is the only one with its names and its last component. */
  lemma CleanIsUnique(s: string, t: string)
    requires IsAbsolute(s) && Clean(s) && IsAbsolute(t) && Clean(t) && SamePath(s, t)
    ensures s == t
  {
    CleanIsCanonical(s);
    CleanIsCanonical(t);
    JoinComponents(s);
    JoinComponents(t);
  }

  // ---------------------------------------------------------------------------
  // The whole cleaning
  // ---------------------------------------------------------------------------

  /** The path a file is recorded by: none for an absent, an empty or a reserved one, or a relative
      one without a working directory. */
  function Absolute(path: Option<string>, cwd: Option<string>): Option<string> {
    if path.None? || path.value == "" || path.value[0] == '<' then None
    else if path.value[0] == SLASH then path
    else if cwd.Some? then Some(cwd.value + [SLASH] + path.value)
    else None
  }

  /** The cleaned path has no doubled slash and no inner ".", the names and the last component of
      the path it was made from; and a path that is clean already stays as it is. */
  method CleanFilePath(path: Option<string>, cwd: Option<string>) returns (r: Option<string>)
    ensures r.Some? <==> Absolute(path, cwd).Some?
    ensures r.None? <==>
              path.None? || path.value == "" || path.value[0] == '<' || (path.value[0] != '/' && cwd.None?)
    ensures r.Some? ==> SamePath(r.value, if path.value[0] == '/' then path.value else cwd.value + "/" + path.value)
    ensures r.Some? ==> Clean(r.value) && SamePath(r.value, Absolute(path, cwd).value)
    ensures r.Some? && IsAbsolute(Absolute(path, cwd).value) && Clean(Absolute(path, cwd).value) ==>
      r == Absolute(path, cwd)
  {
    if path.None? || |path.value| < 1 || path.value[0] == '<' { return None; }
    var s := path.value;
    if path.value[0] != SLASH {
      if cwd.None? { return None; }
      s := cwd.value + [SLASH] + path.value;
    }
    var buf := new char[|s|](i requires 0 <= i < |s| => s[i]);
    assert buf[..|s|] == s;
    var n := FilterDoubles(buf, |s|);
    n := FilterDots(buf, n);
    r := Some(buf[..n]);
    if IsAbsolute(s) && Clean(s) {
      CleanIsUnique(r.value, s);
    }
  }
}
