/** The Python string operations the application relies on: `strip`, `lower`,
    the `in` substring test, `split`, `join` and `replace`. */
module Text {
  import opened Wrappers

  /** Python's `str.isspace` for one character: the ASCII whitespace and
      separator controls plus the Unicode space and separator characters. */
  predicate IsSpace(c: char) {
    || c == ' '
    || ('\t' <= c <= '\r')
    || ('\U{1C}' <= c <= '\U{1F}')
    || c == '\U{85}'
    || c == '\U{A0}'
    || c == '\U{1680}'
    || ('\U{2000}' <= c <= '\U{200A}')
    || c == '\U{2028}'
    || c == '\U{2029}'
    || c == '\U{202F}'
    || c == '\U{205F}'
    || c == '\U{3000}'
  }

  /** Every character is whitespace (this includes the empty string). */
  predicate IsBlank(s: string) {
    forall i :: 0 <= i < |s| ==> IsSpace(s[i])
  }

  /** The first position at or after `i` that does not hold whitespace
      (`|s|` when there is none). */
  function SkipSpaces(s: string, i: nat): (j: nat)
    requires i <= |s|
    ensures i <= j <= |s|
    decreases |s| - i
  {
    if i < |s| && IsSpace(s[i]) then SkipSpaces(s, i + 1) else i
  }

  /** One past the last position before `j` that does not hold whitespace
      (0 when there is none). */
  function SkipSpacesBack(s: string, j: nat): (k: nat)
    requires j <= |s|
    ensures k <= j
  {
    if j > 0 && IsSpace(s[j - 1]) then SkipSpacesBack(s, j - 1) else j
  }

  lemma {:induction false} SkipSpacesSpec(s: string, i: nat)
    requires i <= |s|
    ensures forall k :: i <= k < SkipSpaces(s, i) ==> IsSpace(s[k])
    ensures SkipSpaces(s, i) == |s| || !IsSpace(s[SkipSpaces(s, i)])
    decreases |s| - i
  {
    if i < |s| && IsSpace(s[i]) {
      SkipSpacesSpec(s, i + 1);
    }
  }

  lemma {:induction false} SkipSpacesBackSpec(s: string, j: nat)
    requires j <= |s|
    ensures forall k :: SkipSpacesBack(s, j) <= k < j ==> IsSpace(s[k])
    ensures SkipSpacesBack(s, j) == 0 || !IsSpace(s[SkipSpacesBack(s, j) - 1])
  {
    if j > 0 && IsSpace(s[j - 1]) {
      SkipSpacesBackSpec(s, j - 1);
    }
  }

  /** Python's `str.strip()` with no argument: drop leading and trailing
      whitespace. */
  function Strip(s: string): (r: string)
    ensures |r| <= |s|
  {
    var lo := SkipSpaces(s, 0);
    var hi := SkipSpacesBack(s, |s|);
    if lo < hi then s[lo..hi] else []
  }

  /** `strip` gives the empty string exactly for blank input, and otherwise
      a slice of the input that starts and ends with non-whitespace, with
      only whitespace cut on either side. */
  lemma StripSpec(s: string)
    ensures Strip(s) == [] <==> IsBlank(s)
    ensures Strip(s) != [] ==> !IsSpace(Strip(s)[0]) && !IsSpace(Strip(s)[|Strip(s)| - 1])
    ensures exists lo, hi ::
      && 0 <= lo <= hi <= |s| && Strip(s) == s[lo..hi]
      && (forall k :: 0 <= k < lo ==> IsSpace(s[k]))
      && (forall k :: hi <= k < |s| ==> IsSpace(s[k]))
  {
    var lo := SkipSpaces(s, 0);
    var hi := SkipSpacesBack(s, |s|);
    SkipSpacesSpec(s, 0);
    SkipSpacesBackSpec(s, |s|);
    if lo < hi {
      assert !IsSpace(s[lo]) && !IsSpace(s[hi - 1]);
      assert Strip(s) == s[lo..hi];
    } else {
      if lo < |s| {
        assert false;
      }
      assert IsBlank(s);
      assert Strip(s) == s[0..0];
    }
  }

  /** An already stripped string is left alone by `strip`. */
  lemma StripStripped(s: string)
    requires s == [] || (!IsSpace(s[0]) && !IsSpace(s[|s| - 1]))
    ensures Strip(s) == s
  {
    if s != [] {
      assert SkipSpaces(s, 0) == 0;
      assert SkipSpacesBack(s, |s|) == |s|;
      assert s[0..|s|] == s;
    }
  }

  /** `strip` is idempotent. */
  lemma StripIdempotent(s: string)
    ensures Strip(Strip(s)) == Strip(s)
  {
    StripSpec(s);
    StripStripped(Strip(s));
  }

  /** Python's `str.lower()` restricted to ASCII letters. */
  function LowerChar(c: char): char {
    if 'A' <= c <= 'Z' then (c as int + 32) as char else c
  }

  function Lower(s: string): (r: string)
    ensures |r| == |s|
  {
    if |s| == 0 then [] else Lower(s[..|s| - 1]) + [LowerChar(s[|s| - 1])]
  }

  /** `lower` works character by character. */
  lemma {:induction false} LowerAt(s: string, i: nat)
    requires i < |s|
    ensures Lower(s)[i] == LowerChar(s[i])
  {
    if i < |s| - 1 {
      LowerAt(s[..|s| - 1], i);
    }
  }

  lemma LowerAll(s: string)
    ensures forall i :: 0 <= i < |s| ==> Lower(s)[i] == LowerChar(s[i])
  {
    forall i | 0 <= i < |s| ensures Lower(s)[i] == LowerChar(s[i]) {
      LowerAt(s, i);
    }
  }

  lemma LowerCharIdempotent(c: char)
    ensures LowerChar(LowerChar(c)) == LowerChar(c)
  {
  }

  /** A string without upper-case letters is its own lower-case form. */
  lemma LowerNoUpper(s: string)
    requires forall i :: 0 <= i < |s| ==> !('A' <= s[i] <= 'Z')
    ensures Lower(s) == s
  {
    LowerAll(s);
  }

  /** Lower-casing twice is lower-casing once. */
  lemma {:induction false} LowerIdempotent(s: string)
    ensures Lower(Lower(s)) == Lower(s)
  {
    if |s| > 0 {
      var n := |s| - 1;
      var l := Lower(s);
      assert l[..n] == Lower(s[..n]);
      LowerIdempotent(s[..n]);
      LowerCharIdempotent(s[n]);
    }
  }

  /** Lower-casing neither creates nor removes whitespace. */
  lemma LowerKeepsSpaces(s: string)
    ensures forall i :: 0 <= i < |s| ==> (IsSpace(Lower(s)[i]) <==> IsSpace(s[i]))
  {
    LowerAll(s);
  }

  lemma {:induction false} SkipSpacesLower(s: string, i: nat)
    requires i <= |s|
    ensures SkipSpaces(Lower(s), i) == SkipSpaces(s, i)
    decreases |s| - i
  {
    LowerKeepsSpaces(s);
    if i < |s| && IsSpace(s[i]) {
      SkipSpacesLower(s, i + 1);
    }
  }

  lemma {:induction false} SkipSpacesBackLower(s: string, j: nat)
    requires j <= |s|
    ensures SkipSpacesBack(Lower(s), j) == SkipSpacesBack(s, j)
  {
    LowerKeepsSpaces(s);
    if j > 0 && IsSpace(s[j - 1]) {
      SkipSpacesBackLower(s, j - 1);
    }
  }

  /** Lower-casing a slice is slicing the lower-cased string. */
  lemma LowerSlice(s: string, lo: nat, hi: nat)
    requires lo <= hi <= |s|
    ensures Lower(s[lo..hi]) == Lower(s)[lo..hi]
  {
    var t := s[lo..hi];
    var a, b := Lower(t), Lower(s)[lo..hi];
    assert |a| == |b|;
    forall i | 0 <= i < |t| ensures a[i] == b[i] {
      LowerCharAt(s, lo, hi, i);
    }
  }

  lemma LowerCharAt(s: string, lo: nat, hi: nat, i: nat)
    requires lo <= hi <= |s| && i < hi - lo
    ensures Lower(s[lo..hi])[i] == Lower(s)[lo..hi][i]
  {
    var t := s[lo..hi];
    var l := Lower(s);
    LowerAt(t, i);
    LowerAt(s, lo + i);
    assert t[i] == s[lo + i];
    assert l[lo..hi][i] == l[lo + i];
  }

  /** `strip` and `lower` commute, so `s.strip().lower()` may be read in
      either order. */
  lemma StripLowerCommute(s: string)
    ensures Strip(Lower(s)) == Lower(Strip(s))
  {
    SkipSpacesLower(s, 0);
    SkipSpacesBackLower(s, |s|);
    var lo := SkipSpaces(s, 0);
    var hi := SkipSpacesBack(s, |s|);
    if lo < hi {
      LowerSlice(s, lo, hi);
    }
  }

  /** Python's `str.upper()` on one character, restricted to ASCII letters. */
  function UpperChar(c: char): char {
    if 'a' <= c <= 'z' then (c as int - 32) as char else c
  }

  /** Python's `s.capitalize()`: the first character upper-cased and the
      rest lower-cased. */
  function Capitalize(s: string): (r: string)
    ensures |r| == |s|
  {
    if |s| == 0 then "" else [UpperChar(s[0])] + Lower(s[1..])
  }

  /** The key normalisation used for provider names, aliases, tags and
      designer handles: `s.strip().lower()`. */
  function Normalize(s: string): string {
    Lower(Strip(s))
  }

  /** A string that normalisation leaves unchanged. */
  predicate IsNormal(s: string) {
    Normalize(s) == s
  }

  lemma NormalizeIsNormal(s: string)
    ensures IsNormal(Normalize(s))
    ensures Normalize(s) == [] <==> IsBlank(s)
  {
    var t := Strip(s);
    var u := Lower(t);
    StripSpec(s);
    LowerKeepsSpaces(t);
    StripStripped(u);
    LowerIdempotent(t);
  }

  /** A list comprehension normalising every element. */
  function NormalizeEach(xs: seq<string>): (ys: seq<string>)
    ensures |ys| == |xs|
  {
    seq(|xs|, i requires 0 <= i < |xs| => Normalize(xs[i]))
  }

  /** A normal string is its own lower-case form. */
  lemma NormalIsLower(s: string)
    requires IsNormal(s)
    ensures Lower(s) == s
  {
    LowerIdempotent(Strip(s));
  }

  // ----- substrings -----

  predicate OccursAt(s: string, p: string, i: int) {
    0 <= i && i + |p| <= |s| && s[i..i + |p|] == p
  }

  /** Python's `p in s`. */
  predicate Contains(s: string, p: string) {
    exists i | 0 <= i <= |s| - |p| :: OccursAt(s, p, i)
  }

  lemma OccursInTail(s: string, p: string)
    requires |s| > 0
    ensures forall j :: 1 <= j ==> (OccursAt(s, p, j) <==> OccursAt(s[1..], p, j - 1))
    ensures forall j :: 0 <= j ==> (OccursAt(s[1..], p, j) <==> OccursAt(s, p, j + 1))
  {
    forall j | 0 <= j
      ensures OccursAt(s[1..], p, j) <==> OccursAt(s, p, j + 1)
    {
      if j + 1 + |p| <= |s| {
        assert s[1..][j..j + |p|] == s[j + 1..j + 1 + |p|];
      }
    }
  }

  /** An occurrence inside a slice is an occurrence in the whole string. */
  lemma OccursInSlice(s: string, p: string, a: nat, b: nat, j: int)
    requires a <= b <= |s| && OccursAt(s[a..b], p, j)
    ensures OccursAt(s, p, a + j)
  {
    forall m | 0 <= m < |p| ensures s[a + j..a + j + |p|][m] == p[m] {
      assert s[a..b][j..j + |p|][m] == p[m];
    }
  }

  /** Python's `s.find(p, k)`: the first position from `k` on where `p`
      occurs (see `FindFromSpec`). */
  function FindFrom(s: string, p: string, k: nat): (r: Option<nat>)
    requires k <= |s|
    ensures r.Some? ==> k <= r.value && r.value + |p| <= |s|
    decreases |s| - k
  {
    if k + |p| > |s| then None
    else if s[k..k + |p|] == p then Some(k)
    else FindFrom(s, p, k + 1)
  }

  /** `find` answers the first occurrence from `k` on, and fails only when
      there is none. */
  lemma {:induction false} FindFromSpec(s: string, p: string, k: nat)
    requires k <= |s|
    ensures FindFrom(s, p, k).Some? ==> OccursAt(s, p, FindFrom(s, p, k).value)
    ensures FindFrom(s, p, k).Some? ==> forall j :: k <= j < FindFrom(s, p, k).value ==> !OccursAt(s, p, j)
    ensures FindFrom(s, p, k).None? ==> forall j :: k <= j ==> !OccursAt(s, p, j)
    decreases |s| - k
  {
    if k + |p| <= |s| && s[k..k + |p|] != p {
      FindFromSpec(s, p, k + 1);
    }
  }

  /** `find` fails exactly when the pattern does not occur. */
  lemma FindContains(s: string, p: string)
    ensures FindFrom(s, p, 0).None? <==> !Contains(s, p)
  {
    FindFromSpec(s, p, 0);
    if FindFrom(s, p, 0).Some? {
      assert OccursAt(s, p, FindFrom(s, p, 0).value);
    }
  }

  /** The pieces of `s.split(sep)` from position `k` on, for a non-empty
      separator: the text up to the first separator at or after `k`, then
      the pieces after it. */
  function SplitFrom(s: string, sep: string, k: nat): (r: seq<string>)
    requires |sep| > 0 && k <= |s|
    ensures |r| >= 1
    decreases |s| - k
  {
    match FindFrom(s, sep, k)
    case None => [s[k..]]
    case Some(i) => [s[k..i]] + SplitFrom(s, sep, i + |sep|)
  }

  /** Python's `s.split(sep)` for a non-empty separator. */
  function Split(s: string, sep: string): (r: seq<string>)
    requires |sep| > 0
    ensures |r| >= 1
  {
    SplitFrom(s, sep, 0)
  }

  /** No piece of a split holds the separator. */
  lemma {:induction false} SplitPiecesClean(s: string, sep: string, k: nat)
    requires |sep| > 0 && k <= |s|
    ensures forall m :: 0 <= m < |SplitFrom(s, sep, k)| ==> !Contains(SplitFrom(s, sep, k)[m], sep)
    decreases |s| - k
  {
    var r := SplitFrom(s, sep, k);
    FindFromSpec(s, sep, k);
    match FindFrom(s, sep, k)
    case None =>
      if Contains(s[k..], sep) {
        assert s[k..] == s[k..|s|];
        var j :| 0 <= j <= |s[k..|s|]| - |sep| && OccursAt(s[k..|s|], sep, j);
        OccursInSlice(s, sep, k, |s|, j);
      }
    case Some(i) =>
      SplitPiecesClean(s, sep, i + |sep|);
      if Contains(s[k..i], sep) {
        var j :| 0 <= j <= |s[k..i]| - |sep| && OccursAt(s[k..i], sep, j);
        OccursInSlice(s, sep, k, i, j);
      }
      forall m | 1 <= m < |r| ensures r[m] == SplitFrom(s, sep, i + |sep|)[m - 1] {
      }
  }

  /** Python's `sep.join(parts)`. */
  function Join(parts: seq<string>, sep: string): string {
    if |parts| == 0 then ""
    else if |parts| == 1 then parts[0]
    else parts[0] + sep + Join(parts[1..], sep)
  }

  /** Joining the pieces of a split with the same separator gives back the
      original text. */
  lemma {:induction false} JoinSplit(s: string, sep: string, k: nat)
    requires |sep| > 0 && k <= |s|
    ensures Join(SplitFrom(s, sep, k), sep) == s[k..]
    decreases |s| - k
  {
    match FindFrom(s, sep, k)
    case None =>
    case Some(i) =>
      var rest := SplitFrom(s, sep, i + |sep|);
      FindFromSpec(s, sep, k);
      JoinSplit(s, sep, i + |sep|);
      assert ([s[k..i]] + rest)[1..] == rest;
      assert s[i..i + |sep|] == sep;
      assert s[k..] == s[k..i] + s[i..i + |sep|] + s[i + |sep|..];
  }

  /** Where the text after the last separator that `split` finds from
      position `k` on begins; `k` itself when there is none. */
  function LastStart(s: string, sep: string, k: nat): (r: nat)
    requires |sep| > 0 && k <= |s|
    ensures k <= r <= |s|
    decreases |s| - k
  {
    match FindFrom(s, sep, k)
    case None => k
    case Some(i) => LastStart(s, sep, i + |sep|)
  }

  /** The last piece of `s.split(sep)`: the text after the last separator. */
  function LastPiece(s: string, sep: string): string
    requires |sep| > 0
  {
    s[LastStart(s, sep, 0)..]
  }

  /** `LastPiece` is the last element of the split. */
  lemma {:induction false} SplitLastPiece(s: string, sep: string, k: nat)
    requires |sep| > 0 && k <= |s|
    ensures SplitFrom(s, sep, k)[|SplitFrom(s, sep, k)| - 1] == s[LastStart(s, sep, k)..]
    decreases |s| - k
  {
    match FindFrom(s, sep, k)
    case None =>
    case Some(i) =>
      SplitLastPiece(s, sep, i + |sep|);
  }

  /** The last piece starts where the last separator ends, and no separator
      occurs from there on; it starts at `k` exactly when no separator is
      found. */
  lemma {:induction false} LastStartSpec(s: string, sep: string, k: nat)
    requires |sep| > 0 && k <= |s|
    ensures forall j :: LastStart(s, sep, k) <= j ==> !OccursAt(s, sep, j)
    ensures LastStart(s, sep, k) == k <==> FindFrom(s, sep, k).None?
    ensures LastStart(s, sep, k) > k ==> OccursAt(s, sep, LastStart(s, sep, k) - |sep|)
    decreases |s| - k
  {
    FindFromSpec(s, sep, k);
    match FindFrom(s, sep, k)
    case None =>
      assert LastStart(s, sep, k) == k;
    case Some(i) =>
      var n := i + |sep|;
      LastStartSpec(s, sep, n);
      assert LastStart(s, sep, k) == LastStart(s, sep, n);
      if LastStart(s, sep, n) == n {
        assert OccursAt(s, sep, i);
      }
  }

  /** Python's `s.replace(pat, rep)`: every leftmost non-overlapping
      occurrence of `pat` becomes `rep`. */
  function Replace(s: string, pat: string, rep: string): string
    requires |pat| > 0
    decreases |s|
  {
    if |pat| <= |s| && s[..|pat|] == pat then rep + Replace(s[|pat|..], pat, rep)
    else if |s| == 0 then s
    else [s[0]] + Replace(s[1..], pat, rep)
  }

  /** A string without the pattern is left unchanged. */
  lemma {:induction false} ReplaceAbsent(s: string, pat: string, rep: string)
    requires |pat| > 0 && !Contains(s, pat)
    ensures Replace(s, pat, rep) == s
    decreases |s|
  {
    assert !OccursAt(s, pat, 0);
    if |s| > 0 {
      OccursInTail(s, pat);
      ReplaceAbsent(s[1..], pat, rep);
    }
  }

  /** A pattern appended to a string in which it does not start earlier is
      replaced as a whole, after the string's own replacements. */
  lemma {:induction false} ReplaceAppend(s: string, pat: string, rep: string)
    requires |pat| > 0
    requires forall i :: 0 <= i < |s| ==> !OccursAt(s + pat, pat, i)
    ensures Replace(s + pat, pat, rep) == Replace(s, pat, rep) + rep
    decreases |s|
  {
    var t := s + pat;
    if |s| == 0 {
      assert t == pat && t[..|pat|] == pat && t[|pat|..] == [];
    } else {
      assert !OccursAt(t, pat, 0);
      assert t[1..] == s[1..] + pat;
      OccursInTail(t, pat);
      ReplaceAppend(s[1..], pat, rep);
      if |pat| <= |s| {
        assert t[..|pat|] == s[..|pat|];
      }
    }
  }

  /** Joining a list with a head: the head, the separator, then the rest. */
  lemma JoinCons(a: string, rest: seq<string>, sep: string)
    requires |rest| > 0
    ensures Join([a] + rest, sep) == a + sep + Join(rest, sep)
  {
    assert ([a] + rest)[1..] == rest;
  }

  /** `replace` rewrites exactly the separators `split` finds: the text from
      `k` on, with every leftmost non-overlapping `pat` replaced by `rep`, is
      the pieces of the split from `k` joined by `rep`. */
  lemma {:induction false} ReplaceFrom(s: string, pat: string, rep: string, k: nat)
    requires |pat| > 0 && k <= |s|
    ensures Replace(s[k..], pat, rep) == Join(SplitFrom(s, pat, k), rep)
    decreases |s| - k
  {
    match FindFrom(s, pat, k)
    case None =>
      ReplaceNoneFrom(s, pat, rep, k);
    case Some(i) =>
      if i == k {
        ReplaceFrom(s, pat, rep, k + |pat|);
        ReplaceMatchAt(s, pat, rep, k);
      } else {
        ReplaceFrom(s, pat, rep, k + 1);
        ReplaceSkipAt(s, pat, rep, k, i);
      }
  }

  /** No separator from `k` on: both sides are the rest of the text. */
  lemma ReplaceNoneFrom(s: string, pat: string, rep: string, k: nat)
    requires |pat| > 0 && k <= |s| && FindFrom(s, pat, k).None?
    ensures Replace(s[k..], pat, rep) == Join(SplitFrom(s, pat, k), rep)
  {
    FindFromSpec(s, pat, k);
    if Contains(s[k..], pat) {
      assert s[k..] == s[k..|s|];
      var j :| 0 <= j <= |s[k..|s|]| - |pat| && OccursAt(s[k..|s|], pat, j);
      OccursInSlice(s, pat, k, |s|, j);
    }
    ReplaceAbsent(s[k..], pat, rep);
  }

  /** One step of the split: the piece up to the separator found, then the
      pieces after it. */
  lemma SplitFromStep(s: string, sep: string, k: nat, i: nat)
    requires |sep| > 0 && k <= |s| && FindFrom(s, sep, k) == Some(i)
    ensures SplitFrom(s, sep, k) == [s[k..i]] + SplitFrom(s, sep, i + |sep|)
  {
  }

  /** `replace` on a string that starts with the pattern. */
  lemma ReplaceHead(t: string, pat: string, rep: string)
    requires 0 < |pat| <= |t| && t[..|pat|] == pat
    ensures Replace(t, pat, rep) == rep + Replace(t[|pat|..], pat, rep)
  {
  }

  /** `replace` on a non-empty string that does not start with the pattern. */
  lemma ReplaceCopy(t: string, pat: string, rep: string)
    requires 0 < |pat| && 0 < |t| && !(|pat| <= |t| && t[..|pat|] == pat)
    ensures Replace(t, pat, rep) == [t[0]] + Replace(t[1..], pat, rep)
  {
  }

  /** A separator at `k`: `replace` writes `rep` and goes on after it, and
      the split has an empty piece there. */
  lemma ReplaceMatchAt(s: string, pat: string, rep: string, k: nat)
    requires |pat| > 0 && k + |pat| <= |s| && FindFrom(s, pat, k) == Some(k)
    requires Replace(s[k + |pat|..], pat, rep) == Join(SplitFrom(s, pat, k + |pat|), rep)
    ensures Replace(s[k..], pat, rep) == Join(SplitFrom(s, pat, k), rep)
  {
    var t := s[k..];
    var rest := SplitFrom(s, pat, k + |pat|);
    assert t[..|pat|] == pat && t[|pat|..] == s[k + |pat|..] by {
      assert s[k..k + |pat|] == pat;
      assert t[..|pat|] == s[k..k + |pat|];
    }
    ReplaceHead(t, pat, rep);
    SplitFromStep(s, pat, k, k);
    JoinCons(s[k..k], rest, rep);
    assert s[k..k] + rep == rep;
  }

  /** No separator at `k` but one at `i` later: `replace` copies `s[k]`,
      and the first piece of the split grows by that character. */
  lemma ReplaceSkipAt(s: string, pat: string, rep: string, k: nat, i: nat)
    requires |pat| > 0 && k < i && i + |pat| <= |s| && FindFrom(s, pat, k) == Some(i)
    requires Replace(s[k + 1..], pat, rep) == Join(SplitFrom(s, pat, k + 1), rep)
    ensures Replace(s[k..], pat, rep) == Join(SplitFrom(s, pat, k), rep)
  {
    var t := s[k..];
    var rest := SplitFrom(s, pat, i + |pat|);
    assert FindFrom(s, pat, k + 1) == Some(i) && t[..|pat|] != pat && t[1..] == s[k + 1..] by {
      assert s[k..k + |pat|] != pat;
      assert t[..|pat|] == s[k..k + |pat|];
    }
    var c, a, j := s[k], s[k + 1..i], Join(rest, rep);
    assert s[k..i] == [c] + a by {
      SliceCons(s, k, i);
    }
    ReplaceCopy(t, pat, rep);
    SplitFromStep(s, pat, k + 1, i);
    SplitFromStep(s, pat, k, i);
    JoinCons(a, rest, rep);
    JoinCons([c] + a, rest, rep);
    ConcatAssoc([c], a, rep, j);
  }

  lemma ConcatAssoc(x: string, a: string, b: string, c: string)
    ensures x + (a + b + c) == (x + a) + b + c
  {
  }

  lemma SliceCons(s: string, k: nat, i: nat)
    requires k < i <= |s|
    ensures s[k..i] == [s[k]] + s[k + 1..i]
  {
  }
}
