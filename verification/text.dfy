/** String primitives with the semantics of the Python string methods and
    regular expressions the cleaning code relies on. */
module Text {

  // ---------------------------------------------------------------------------
  // Character classes

  /** The characters Python's `str.isspace` accepts; `str.strip()` removes them
      and the regular-expression class `\s` matches them. */
  predicate IsSpace(c: char) {
    || c == ' '
    || ('\t' <= c <= '\r')
    || ('\U{1C}' <= c <= '\U{1F}')
    || c == '\U{85}' || c == '\U{A0}' || c == '\U{1680}'
    || ('\U{2000}' <= c <= '\U{200A}')
    || c == '\U{2028}' || c == '\U{2029}' || c == '\U{202F}' || c == '\U{205F}' || c == '\U{3000}'
  }

  predicate NotSpace(c: char) { !IsSpace(c) }

  /** The regular-expression class `\d`, restricted to ASCII digits. */
  predicate IsDigit(c: char) { '0' <= c <= '9' }

  /** The class `[A-Z0-9]`. */
  predicate IsUpperAlnum(c: char) { ('A' <= c <= 'Z') || IsDigit(c) }

  /** The class `[A-Z0-9-]`. */
  predicate IsKeyChar(c: char) { IsUpperAlnum(c) || c == '-' }

  predicate IsDigits(s: string) { forall c :: c in s ==> IsDigit(c) }

  /** Lower-case letters whose upper-case form lies 32 code points below:
      ASCII `a`..`z` and the Latin-1 letters `à`..`þ` except `÷`. */
  predicate IsCasedLower(c: char) {
    ('a' <= c <= 'z') || ('\U{E0}' <= c <= '\U{FE}' && c != '\U{F7}')
  }

  function UpperChar(c: char): char {
    if IsCasedLower(c) then (c as int - 32) as char else c
  }

  /** Python's `str.upper()` on the letters `IsCasedLower` covers. */
  function Upper(s: string): string {
    seq(|s|, i requires 0 <= i < |s| => UpperChar(s[i]))
  }

  /** Upper-casing is the identity on a string without lower-case letters. */
  lemma UpperNoop(s: string)
    requires forall c :: c in s ==> !IsCasedLower(c)
    ensures Upper(s) == s
  {
    assert forall i :: 0 <= i < |s| ==> Upper(s)[i] == s[i] by {
      forall i | 0 <= i < |s| ensures Upper(s)[i] == s[i] {
        assert s[i] in s;
      }
    }
  }

  lemma UpperHasNoLower(s: string)
    ensures forall c :: c in Upper(s) ==> !IsCasedLower(c)
  {
    forall c | c in Upper(s) ensures !IsCasedLower(c) {
      var i :| 0 <= i < |Upper(s)| && Upper(s)[i] == c;
    }
  }

  // ---------------------------------------------------------------------------
  // Filtering and trimming

  /** The characters of `s` satisfying `keep`, in order: `re.sub` with a
      negated character class and an empty replacement. */
  function Filter(s: string, keep: char -> bool): (r: string)
    ensures forall c :: c in r ==> keep(c)
    ensures |r| <= |s|
  {
    if s == [] then [] else (if keep(s[0]) then [s[0]] else []) + Filter(s[1..], keep)
  }

  lemma {:induction false} FilterAppend(a: string, b: string, keep: char -> bool)
    ensures Filter(a + b, keep) == Filter(a, keep) + Filter(b, keep)
  {
    if a == [] {
      assert a + b == b;
    } else {
      assert (a + b)[0] == a[0];
      assert (a + b)[1..] == a[1..] + b;
      FilterAppend(a[1..], b, keep);
    }
  }

  lemma {:induction false} FilterNoop(s: string, keep: char -> bool)
    requires forall c :: c in s ==> keep(c)
    ensures Filter(s, keep) == s
  {
    if s != [] {
      assert s[0] in s;
      FilterNoop(s[1..], keep);
    }
  }

  lemma {:induction false} FilterNone(s: string, keep: char -> bool)
    requires forall c :: c in s ==> !keep(c)
    ensures Filter(s, keep) == []
  {
    if s != [] {
      assert s[0] in s;
      FilterNone(s[1..], keep);
    }
  }

  lemma {:induction false} FilterSubset(s: string, keep: char -> bool, c: char)
    requires c in Filter(s, keep)
    ensures c in s
  {
    if s != [] {
      if keep(s[0]) && c == s[0] {
      } else {
        assert c in Filter(s[1..], keep);
        FilterSubset(s[1..], keep, c);
      }
    }
  }

  lemma {:induction false} FilterContains(s: string, keep: char -> bool, c: char)
    requires c in s && keep(c)
    ensures c in Filter(s, keep)
  {
    if s[0] != c {
      FilterContains(s[1..], keep, c);
    }
  }

  function TrimStart(s: string, drop: char -> bool): string {
    if s != [] && drop(s[0]) then TrimStart(s[1..], drop) else s
  }

  function TrimEnd(s: string, drop: char -> bool): string {
    if s != [] && drop(s[|s| - 1]) then TrimEnd(s[..|s| - 1], drop) else s
  }

  lemma {:induction false} TrimStartShape(s: string, drop: char -> bool)
    ensures var r := TrimStart(s, drop); r == [] || !drop(r[0])
    ensures |TrimStart(s, drop)| <= |s|
    ensures TrimStart(s, drop) == s[|s| - |TrimStart(s, drop)|..]
    ensures forall c :: c in s[..|s| - |TrimStart(s, drop)|] ==> drop(c)
  {
    if s != [] && drop(s[0]) {
      TrimStartShape(s[1..], drop);
      var n := |s| - |TrimStart(s, drop)|;
      assert s[..n] == [s[0]] + s[1..][..n - 1];
    }
  }

  lemma {:induction false} TrimEndShape(s: string, drop: char -> bool)
    ensures var r := TrimEnd(s, drop); r == [] || !drop(r[|r| - 1])
    ensures |TrimEnd(s, drop)| <= |s|
    ensures TrimEnd(s, drop) == s[..|TrimEnd(s, drop)|]
    ensures forall c :: c in s[|TrimEnd(s, drop)|..] ==> drop(c)
  {
    if s != [] && drop(s[|s| - 1]) {
      var t := s[..|s| - 1];
      TrimEndShape(t, drop);
      var n := |TrimEnd(s, drop)|;
      assert s[n..] == t[n..] + [s[|s| - 1]];
    }
  }

  /** `str.strip` with a character class: drops `drop`-characters at both ends. */
  function Trim(s: string, drop: char -> bool): (r: string)
    ensures r == [] || (!drop(r[0]) && !drop(r[|r| - 1]))
    ensures |r| <= |s|
  {
    var a := TrimStart(s, drop);
    TrimStartShape(s, drop);
    TrimEndShape(a, drop);
    var r := TrimEnd(a, drop);
    assert r != [] ==> r[0] == a[0];
    r
  }

  /** Trimming leaves a string whose ends are already kept unchanged. */
  lemma TrimNoop(s: string, drop: char -> bool)
    requires s == [] || (!drop(s[0]) && !drop(s[|s| - 1]))
    ensures Trim(s, drop) == s
  {
  }

  lemma TrimIdempotent(s: string, drop: char -> bool)
    ensures Trim(Trim(s, drop), drop) == Trim(s, drop)
  {
    TrimNoop(Trim(s, drop), drop);
  }

  lemma {:induction false} FilterIgnoresTrimStart(s: string, drop: char -> bool, keep: char -> bool)
    requires forall c :: drop(c) ==> !keep(c)
    ensures Filter(TrimStart(s, drop), keep) == Filter(s, keep)
  {
    if s != [] && drop(s[0]) {
      FilterIgnoresTrimStart(s[1..], drop, keep);
    }
  }

  lemma {:induction false} FilterIgnoresTrimEnd(s: string, drop: char -> bool, keep: char -> bool)
    requires forall c :: drop(c) ==> !keep(c)
    ensures Filter(TrimEnd(s, drop), keep) == Filter(s, keep)
  {
    if s != [] && drop(s[|s| - 1]) {
      var t := s[..|s| - 1];
      assert s == t + [s[|s| - 1]];
      FilterAppend(t, [s[|s| - 1]], keep);
      FilterIgnoresTrimEnd(t, drop, keep);
    }
  }

  /** Filtering out every trimmed character makes the trimming irrelevant. */
  lemma FilterIgnoresTrim(s: string, drop: char -> bool, keep: char -> bool)
    requires forall c :: drop(c) ==> !keep(c)
    ensures Filter(Trim(s, drop), keep) == Filter(s, keep)
  {
    FilterIgnoresTrimStart(s, drop, keep);
    FilterIgnoresTrimEnd(TrimStart(s, drop), drop, keep);
  }

  /** Trimming only removes characters. */
  lemma TrimSubset(s: string, drop: char -> bool, x: char)
    requires x in Trim(s, drop)
    ensures x in s
  {
    var a := TrimStart(s, drop);
    TrimStartShape(s, drop);
    TrimEndShape(a, drop);
    var r := TrimEnd(a, drop);
    var k :| 0 <= k < |r| && r[k] == x;
    assert a[k] == x;
    assert s[|s| - |a| + k] == x;
  }

  /** Trimming keeps every character it does not drop. */
  lemma TrimKeeps(s: string, drop: char -> bool, x: char)
    requires x in s && !drop(x)
    ensures x in Trim(s, drop)
  {
    var keep := (c: char) => !drop(c);
    FilterIgnoresTrim(s, drop, keep);
    FilterContains(s, keep, x);
    FilterSubset(Trim(s, drop), keep, x);
  }

  /** Python's `str.strip()`. */
  function Strip(s: string): string {
    Trim(s, IsSpace)
  }

  /** Python's `str.replace(pat, '')`: every non-overlapping occurrence of
      `pat`, scanning left to right, is deleted. */
  function RemoveAll(s: string, pat: string): string
    requires pat != []
    decreases |s|
  {
    if |s| < |pat| then s
    else if s[..|pat|] == pat then RemoveAll(s[|pat|..], pat)
    else [s[0]] + RemoveAll(s[1..], pat)
  }

  /** A prefix in which no occurrence of `pat` starts passes through
      `RemoveAll` unchanged. */
  lemma {:induction false} RemoveAllSkip(a: string, b: string, pat: string)
    requires pat != []
    requires forall k :: 0 <= k < |a| ==> !StartsWith((a + b)[k..], pat)
    ensures RemoveAll(a + b, pat) == a + RemoveAll(b, pat)
  {
    if a == [] {
      assert a + b == b;
    } else {
      var s := a + b;
      assert s[0..] == s;
      if |s| >= |pat| {
        assert s[1..] == a[1..] + b;
        forall k | 0 <= k < |a| - 1 ensures !StartsWith((a[1..] + b)[k..], pat) {
          assert (a[1..] + b)[k..] == s[k + 1..];
        }
        RemoveAllSkip(a[1..], b, pat);
        assert [a[0]] + (a[1..] + RemoveAll(b, pat)) == a + RemoveAll(b, pat);
      }
    }
  }

  /** `re.sub(r'(c+)', c, s)`: every run of `c` shrinks to one `c`. */
  function CollapseRuns(s: string, c: char): (r: string)
    ensures forall k :: 0 <= k < |r| - 1 ==> !(r[k] == c && r[k + 1] == c)
    ensures r == [] <==> s == []
    ensures r != [] ==> r[0] == s[0] && r[|r| - 1] == s[|s| - 1]
  {
    if |s| <= 1 then s
    else if s[0] == c && s[1] == c then CollapseRuns(s[1..], c)
    else [s[0]] + CollapseRuns(s[1..], c)
  }

  lemma {:induction false} CollapseRunsSubset(s: string, c: char, x: char)
    requires x in CollapseRuns(s, c)
    ensures x in s
  {
    if |s| > 1 {
      if s[0] == c && s[1] == c {
        CollapseRunsSubset(s[1..], c, x);
      } else if x != s[0] {
        assert x in CollapseRuns(s[1..], c);
        CollapseRunsSubset(s[1..], c, x);
      }
    }
  }

  /** Collapsing runs of a character the filter drops changes nothing the
      filter keeps. */
  lemma {:induction false} CollapseRunsKeepsOthers(s: string, c: char, keep: char -> bool)
    requires !keep(c)
    ensures Filter(CollapseRuns(s, c), keep) == Filter(s, keep)
  {
    if |s| > 1 {
      CollapseRunsKeepsOthers(s[1..], c, keep);
      if !(s[0] == c && s[1] == c) {
        var r := [s[0]] + CollapseRuns(s[1..], c);
        assert r[0] == s[0] && r[1..] == CollapseRuns(s[1..], c);
      }
    }
  }

  // ---------------------------------------------------------------------------
  // Prefixes, suffixes, slices

  predicate StartsWith(s: string, p: string) {
    |p| <= |s| && s[..|p|] == p
  }

  predicate EndsWith(s: string, p: string) {
    |p| <= |s| && s[|s| - |p|..] == p
  }

  /** Python's `s[-k:]`: the last `k` characters, or all of `s` if shorter. */
  function Last(s: string, k: nat): string {
    if |s| <= k then s else s[|s| - k..]
  }

  /** Python's `s[:k]`. */
  function Take(s: string, k: nat): string {
    if |s| <= k then s else s[..k]
  }

  // ---------------------------------------------------------------------------
  // Splitting and joining

  /** Python's `s.split(sep)` for a one-character separator. */
  function Split(s: string, sep: char): (parts: seq<string>)
    ensures |parts| >= 1
    ensures forall k :: 0 <= k < |parts| ==> sep !in parts[k]
  {
    if s == [] then [[]]
    else
      var rest := Split(s[1..], sep);
      if s[0] == sep then [[]] + rest
      else [[s[0]] + rest[0]] + rest[1..]
  }

  /** Python's `sep.join(parts)`. */
  function Join(parts: seq<string>, sep: char): string {
    if |parts| == 0 then []
    else if |parts| == 1 then parts[0]
    else parts[0] + [sep] + Join(parts[1..], sep)
  }

  lemma {:induction false} SplitNoSeparator(a: string, sep: char)
    requires sep !in a
    ensures Split(a, sep) == [a]
  {
    if a != [] {
      assert a[0] in a;
      SplitNoSeparator(a[1..], sep);
      assert [a[0]] + a[1..] == a;
    }
  }

  lemma {:induction false} SplitAtSeparator(a: string, sep: char, t: string)
    requires sep !in a
    ensures Split(a + [sep] + t, sep) == [a] + Split(t, sep)
  {
    if a == [] {
      assert a + [sep] + t == [sep] + t;
      assert ([sep] + t)[1..] == t;
    } else {
      assert (a + [sep] + t)[1..] == a[1..] + [sep] + t;
      SplitAtSeparator(a[1..], sep, t);
      assert [a[0]] + a[1..] == a;
    }
  }

  /** Splitting a joined list gives the list back when no part holds the separator. */
  lemma {:induction false} SplitJoin(parts: seq<string>, sep: char)
    requires |parts| >= 1
    requires forall k :: 0 <= k < |parts| ==> sep !in parts[k]
    ensures Split(Join(parts, sep), sep) == parts
  {
    if |parts| == 1 {
      SplitNoSeparator(parts[0], sep);
    } else {
      SplitJoin(parts[1..], sep);
      SplitAtSeparator(parts[0], sep, Join(parts[1..], sep));
      assert [parts[0]] + parts[1..] == parts;
    }
  }

  /** Joining the parts of a split gives the string back. */
  lemma {:induction false} JoinSplit(s: string, sep: char)
    ensures Join(Split(s, sep), sep) == s
  {
    if s != [] {
      var rest := Split(s[1..], sep);
      JoinSplit(s[1..], sep);
      if s[0] == sep {
        assert Split(s, sep) == [[]] + rest;
        assert ([[]] + rest)[1..] == rest;
        assert s == [sep] + s[1..];
      } else {
        var parts := Split(s, sep);
        assert parts == [[s[0]] + rest[0]] + rest[1..];
        if |rest| == 1 {
          assert s == [s[0]] + rest[0];
        } else {
          assert parts[1..] == rest[1..];
          assert Join(rest, sep) == rest[0] + [sep] + Join(rest[1..], sep);
          assert s == [s[0]] + s[1..];
        }
      }
    }
  }

  /** A split yields two or more parts exactly when the separator occurs. */
  lemma {:induction false} SplitHasSeparator(s: string, sep: char)
    ensures |Split(s, sep)| >= 2 <==> sep in s
  {
    if s != [] {
      SplitHasSeparator(s[1..], sep);
      assert sep in s <==> s[0] == sep || sep in s[1..] by {
        assert s == [s[0]] + s[1..];
      }
    }
  }

  /** The non-empty parts of a list. */
  function NonEmpty(parts: seq<string>): (r: seq<string>)
    ensures forall k :: 0 <= k < |r| ==> r[k] != []
  {
    if parts == [] then []
    else if parts[0] == [] then NonEmpty(parts[1..])
    else [parts[0]] + NonEmpty(parts[1..])
  }

  lemma {:induction false} NonEmptyAppend(a: seq<string>, b: seq<string>)
    ensures NonEmpty(a + b) == NonEmpty(a) + NonEmpty(b)
  {
    if a == [] {
      assert a + b == b;
    } else {
      assert (a + b)[0] == a[0] && (a + b)[1..] == a[1..] + b;
      NonEmptyAppend(a[1..], b);
      if a[0] != [] {
        assert [a[0]] + (NonEmpty(a[1..]) + NonEmpty(b)) == ([a[0]] + NonEmpty(a[1..])) + NonEmpty(b);
      }
    }
  }

  /** The pieces of a text between separators, empty pieces left out:
      `[p for p in s.split(sep) if p]`. */
  function Pieces(s: string, sep: char): seq<string> {
    NonEmpty(Split(s, sep))
  }

  /** Splitting at a separator splits the list of parts there. */
  lemma {:induction false} SplitConcat(a: string, sep: char, b: string)
    ensures Split(a + [sep] + b, sep) == Split(a, sep) + Split(b, sep)
  {
    if a == [] {
      assert a + [sep] + b == [sep] + b;
      assert ([sep] + b)[1..] == b;
    } else {
      assert (a + [sep] + b)[1..] == a[1..] + [sep] + b;
      SplitConcat(a[1..], sep, b);
    }
  }

  /** The pieces of a text are those before and after any one separator. */
  lemma PiecesAtSeparator(a: string, sep: char, b: string)
    ensures Pieces(a + [sep] + b, sep) == Pieces(a, sep) + Pieces(b, sep)
  {
    SplitConcat(a, sep, b);
    NonEmptyAppend(Split(a, sep), Split(b, sep));
  }

  lemma PiecesOfPlain(a: string, sep: char)
    requires sep !in a
    ensures Pieces(a, sep) == if a == [] then [] else [a]
  {
    SplitNoSeparator(a, sep);
    assert [a][1..] == [];
    assert NonEmpty([]) == [];
    assert NonEmpty([a]) == (if a == [] then [] else [a] + NonEmpty([]));
  }

  /** A run of separators, however long, separates the same pieces. */
  lemma {:induction false} PiecesIgnoreRuns(a: string, u: string, sep: char)
    ensures Pieces(a + CollapseRuns(u, sep), sep) == Pieces(a + u, sep)
    decreases |u|
  {
    if |u| > 1 {
      if u[0] == sep && u[1] == sep {
        var w := u[2..];
        assert u == [sep] + ([sep] + w) && u[1..] == [sep] + w;
        assert a + u == a + [sep] + ([sep] + w);
        assert a + u[1..] == a + [sep] + w;
        assert [] + [sep] + w == [sep] + w;
        PiecesAtSeparator(a, sep, [sep] + w);
        PiecesAtSeparator([], sep, w);
        PiecesAtSeparator(a, sep, w);
        PiecesOfPlain([], sep);
        PiecesIgnoreRuns(a, u[1..], sep);
      } else {
        assert a + CollapseRuns(u, sep) == (a + [u[0]]) + CollapseRuns(u[1..], sep);
        assert a + u == (a + [u[0]]) + u[1..];
        PiecesIgnoreRuns(a + [u[0]], u[1..], sep);
      }
    }
  }

  /** Separators at either end separate no piece. */
  lemma {:induction false} PiecesIgnoreTrimStart(s: string, sep: char, drop: char -> bool)
    requires forall c :: drop(c) <==> c == sep
    ensures Pieces(TrimStart(s, drop), sep) == Pieces(s, sep)
  {
    if s != [] && drop(s[0]) {
      assert s == [] + [sep] + s[1..];
      PiecesAtSeparator([], sep, s[1..]);
      PiecesOfPlain([], sep);
      PiecesIgnoreTrimStart(s[1..], sep, drop);
    }
  }

  lemma {:induction false} PiecesIgnoreTrimEnd(s: string, sep: char, drop: char -> bool)
    requires forall c :: drop(c) <==> c == sep
    ensures Pieces(TrimEnd(s, drop), sep) == Pieces(s, sep)
  {
    if s != [] && drop(s[|s| - 1]) {
      var t := s[..|s| - 1];
      assert s == t + [sep] + [];
      PiecesAtSeparator(t, sep, []);
      PiecesOfPlain([], sep);
      PiecesIgnoreTrimEnd(t, sep, drop);
    }
  }

  /** Stripping separators at both ends keeps the pieces. */
  lemma PiecesIgnoreTrim(s: string, sep: char, drop: char -> bool)
    requires forall c :: drop(c) <==> c == sep
    ensures Pieces(Trim(s, drop), sep) == Pieces(s, sep)
  {
    var a := TrimStart(s, drop);
    assert Trim(s, drop) == TrimEnd(a, drop);
    PiecesIgnoreTrimEnd(a, sep, drop);
    PiecesIgnoreTrimStart(s, sep, drop);
  }

  /** Collapsing the runs of the separator keeps the pieces. */
  lemma PiecesIgnoreCollapse(s: string, sep: char)
    ensures Pieces(CollapseRuns(s, sep), sep) == Pieces(s, sep)
  {
    PiecesIgnoreRuns([], s, sep);
    assert [] + CollapseRuns(s, sep) == CollapseRuns(s, sep) && [] + s == s;
  }

  /** No separator at either end and none doubled. */
  predicate IsTidy(s: string, sep: char) {
    (s == [] || (s[0] != sep && s[|s| - 1] != sep))
    && forall k :: 0 <= k < |s| - 1 ==> !(s[k] == sep && s[k + 1] == sep)
  }

  /** Trimming keeps a contiguous slice. */
  lemma TrimIsSlice(s: string, drop: char -> bool)
    ensures var lo := |s| - |TrimStart(s, drop)|;
      0 <= lo && lo + |Trim(s, drop)| <= |s| && Trim(s, drop) == s[lo..lo + |Trim(s, drop)|]
  {
    var a := TrimStart(s, drop);
    TrimStartIsSuffix(s, drop);
    TrimEndIsPrefix(a, drop);
    var r := TrimEnd(a, drop);
    var lo := |s| - |a|;
    assert Trim(s, drop) == r;
    assert r == s[lo..lo + |r|];
  }

  lemma {:induction false} TrimStartIsSuffix(s: string, drop: char -> bool)
    ensures |TrimStart(s, drop)| <= |s| && TrimStart(s, drop) == s[|s| - |TrimStart(s, drop)|..]
  {
    if s != [] && drop(s[0]) {
      TrimStartIsSuffix(s[1..], drop);
    }
  }

  lemma {:induction false} TrimEndIsPrefix(s: string, drop: char -> bool)
    ensures |TrimEnd(s, drop)| <= |s| && TrimEnd(s, drop) == s[..|TrimEnd(s, drop)|]
  {
    if s != [] && drop(s[|s| - 1]) {
      TrimEndIsPrefix(s[..|s| - 1], drop);
    }
  }

  /** A text with no doubled separator: trimming the separator from both
      ends leaves it tidy. */
  lemma TidyOfTrimmed(w: string, sep: char, drop: char -> bool)
    requires forall c :: drop(c) <==> c == sep
    requires forall k :: 0 <= k < |w| - 1 ==> !(w[k] == sep && w[k + 1] == sep)
    ensures IsTidy(Trim(w, drop), sep)
  {
    var r := Trim(w, drop);
    TrimIsSlice(w, drop);
    var lo := |w| - |TrimStart(w, drop)|;
    assert forall k :: 0 <= k < |r| ==> r[k] == w[lo + k];
  }

  /** A tidy text is the join of its pieces. */
  lemma {:induction false} JoinPiecesOfTidy(s: string, sep: char)
    requires IsTidy(s, sep)
    ensures Join(Pieces(s, sep), sep) == s
    decreases |s|
  {
    if sep !in s {
      PiecesOfPlain(s, sep);
    } else {
      var k0 :| 0 <= k0 < |s| && s[k0] == sep;
      FirstSeparator(s, sep, k0);
      var k :| 0 < k < |s| - 1 && s[k] == sep && sep !in s[..k];
      var a, b := s[..k], s[k + 1..];
      assert s == a + [sep] + b;
      TidyAfter(s, sep, k);
      JoinPiecesOfTidy(b, sep);
      JoinAtFirstSeparator(a, sep, b);
    }
  }

  /** A non-empty first piece followed by a text that is the join of its
      own pieces. */
  lemma JoinAtFirstSeparator(a: string, sep: char, b: string)
    requires a != [] && sep !in a && b != [] && Join(Pieces(b, sep), sep) == b
    ensures Join(Pieces(a + [sep] + b, sep), sep) == a + [sep] + b
  {
    PiecesAtSeparator(a, sep, b);
    PiecesOfPlain(a, sep);
    assert Pieces(b, sep) != [];
    assert Pieces(a + [sep] + b, sep) == [a] + Pieces(b, sep);
    assert ([a] + Pieces(b, sep))[1..] == Pieces(b, sep);
  }

  /** What follows an inner separator of a tidy text is tidy and not empty. */
  lemma TidyAfter(s: string, sep: char, k: nat)
    requires IsTidy(s, sep) && 0 < k < |s| - 1 && s[k] == sep
    ensures s[k + 1..] != [] && IsTidy(s[k + 1..], sep)
  {
    var b := s[k + 1..];
    assert b[0] == s[k + 1] && b[|b| - 1] == s[|s| - 1];
    assert forall m :: 0 <= m < |b| ==> b[m] == s[k + 1 + m];
  }

  /** The first separator of a tidy text that holds one. */
  lemma FirstSeparator(s: string, sep: char, k0: nat)
    requires IsTidy(s, sep) && k0 < |s| && s[k0] == sep
    ensures exists k :: 0 < k < |s| - 1 && s[k] == sep && sep !in s[..k]
  {
    var k := k0;
    while sep in s[..k]
      invariant 0 <= k < |s| && s[k] == sep
      decreases k
    {
      var j :| 0 <= j < k && s[..k][j] == sep;
      k := j;
    }
  }

  // ---------------------------------------------------------------------------
  // Decimal numbers

  function DigitChar(d: nat): char
    requires d < 10
  {
    ('0' as int + d) as char
  }

  function DigitValue(c: char): nat
    requires IsDigit(c)
  {
    c as int - '0' as int
  }

  /** Python's `str(n)` for a natural number. */
  function NatToString(n: nat): (s: string)
    ensures |s| >= 1 && IsDigits(s)
  {
    if n < 10 then [DigitChar(n)] else NatToString(n / 10) + [DigitChar(n % 10)]
  }

  /** The value of a string of decimal digits (Python's `int(s)` for such strings). */
  function ParseDigits(s: string): nat
    requires IsDigits(s)
  {
    if s == [] then 0 else ParseDigits(s[..|s| - 1]) * 10 + DigitValue(s[|s| - 1])
  }

  lemma {:induction false} ParseNatToString(n: nat)
    ensures ParseDigits(NatToString(n)) == n
  {
    if n >= 10 {
      ParseNatToString(n / 10);
      var s := NatToString(n / 10) + [DigitChar(n % 10)];
      assert s[..|s| - 1] == NatToString(n / 10);
    }
  }

  function Zeros(k: nat): (z: string)
    ensures |z| == k && IsDigits(z)
  {
    if k == 0 then [] else Zeros(k - 1) + ['0']
  }

  lemma {:induction false} ParseZeros(k: nat)
    ensures ParseDigits(Zeros(k)) == 0
  {
    if k > 0 {
      ParseZeros(k - 1);
      assert Zeros(k)[..k - 1] == Zeros(k - 1);
    }
  }

  /** Leading zeros do not change the value of a digit string. */
  lemma {:induction false} ParseLeadingZeros(k: nat, s: string)
    requires IsDigits(s)
    ensures IsDigits(Zeros(k) + s)
    ensures ParseDigits(Zeros(k) + s) == ParseDigits(s)
  {
    if s == [] {
      assert Zeros(k) + s == Zeros(k);
      ParseZeros(k);
    } else {
      var t := Zeros(k) + s;
      assert t[..|t| - 1] == Zeros(k) + s[..|s| - 1];
      assert t[|t| - 1] == s[|s| - 1];
      ParseLeadingZeros(k, s[..|s| - 1]);
    }
  }

  /** Python's `str.zfill(width)` on a digit string: left-padded with `'0'`. */
  function ZFill(s: string, width: nat): string {
    if |s| >= width then s else Zeros(width - |s|) + s
  }

  /** Zero-padding is a number's decimal text padded with zeros; it parses back
      to the number and is at least `width` long. */
  lemma ZFillRoundTrip(n: nat, width: nat)
    ensures IsDigits(ZFill(NatToString(n), width))
    ensures |ZFill(NatToString(n), width)| >= width
    ensures ParseDigits(ZFill(NatToString(n), width)) == n
  {
    var s := NatToString(n);
    ParseNatToString(n);
    if |s| < width {
      ParseLeadingZeros(width - |s|, s);
    }
  }
}
