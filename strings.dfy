/** The parts of Rust's `str` API that the matchers and parsers use, on
    strings modelled as sequences of Unicode scalar values. */
module Strings {
  import opened Prelude

  /** `char::is_whitespace`: the Unicode White_Space property. */
  predicate IsWhitespace(c: char) {
    var n := c as int;
    (9 <= n <= 13) || n == 32 || n == 0x85 || n == 0xA0 || n == 0x1680
    || (0x2000 <= n <= 0x200A) || n == 0x2028 || n == 0x2029 || n == 0x202F
    || n == 0x205F || n == 0x3000
  }

  predicate NoWhitespace(s: string) {
    forall i :: 0 <= i < |s| ==> !IsWhitespace(s[i])
  }

  predicate IsAsciiDigit(c: char) {
    '0' <= c <= '9'
  }

  function DigitValue(c: char): (n: int)
    requires IsAsciiDigit(c)
    ensures 0 <= n < 10
  {
    c as int - '0' as int
  }

  /** The numeral a run of digits denotes (`str::parse` on digits). */
  function DigitsValue(s: string): (n: nat)
    requires forall i :: 0 <= i < |s| ==> IsAsciiDigit(s[i])
  {
    if |s| == 0 then 0 else 10 * DigitsValue(s[..|s| - 1]) + DigitValue(s[|s| - 1])
  }

  // ---------------------------------------------------------------------
  // Searching
  // ---------------------------------------------------------------------

  /** `pat` occurs in `s` starting at position `p`. */
  predicate OccursAt(s: string, pat: string, p: nat) {
    p + |pat| <= |s| && s[p..p + |pat|] == pat
  }

  /** The first occurrence of `pat` in `s` at or after `i`. */
  function FindFrom(s: string, pat: string, i: nat): (r: Option<nat>)
    ensures r.Some? ==> i <= r.value && OccursAt(s, pat, r.value)
    ensures r.Some? ==> forall p :: i <= p < r.value ==> !OccursAt(s, pat, p)
    ensures r.None? ==> forall p :: i <= p ==> !OccursAt(s, pat, p)
    decreases |s| - i
  {
    if i + |pat| > |s| then None
    else if OccursAt(s, pat, i) then Some(i)
    else FindFrom(s, pat, i + 1)
  }

  /** `str::find`: the index of the first occurrence of `pat`, if any. */
  function Find(s: string, pat: string): (r: Option<nat>)
    ensures r.Some? ==> OccursAt(s, pat, r.value)
    ensures r.Some? ==> forall p :: 0 <= p < r.value ==> !OccursAt(s, pat, p)
    ensures r.None? ==> forall p :: 0 <= p ==> !OccursAt(s, pat, p)
  {
    FindFrom(s, pat, 0)
  }

  /** `str::contains`. */
  predicate Contains(s: string, pat: string) {
    Find(s, pat).Some?
  }

  /** `str::starts_with`. */
  predicate StartsWith(s: string, pre: string) {
    |pre| <= |s| && s[..|pre|] == pre
  }

  lemma ContainsAt(s: string, pat: string, p: nat)
    requires OccursAt(s, pat, p)
    ensures Contains(s, pat)
  {
  }

  /** Every string contains the empty pattern, at position 0. */
  lemma ContainsEmpty(s: string)
    ensures Find(s, "") == Some(0)
  {
    assert OccursAt(s, "", 0);
  }

  /** A string contains itself, at position 0. */
  lemma ContainsSelf(s: string)
    ensures Find(s, s) == Some(0)
  {
    assert OccursAt(s, s, 0);
  }

  /** An occurrence with none before it is the one `find` reports. */
  lemma FindIsFirst(s: string, pat: string, p: nat)
    requires OccursAt(s, pat, p)
    requires forall q :: 0 <= q < p ==> !OccursAt(s, pat, q)
    ensures Find(s, pat) == Some(p)
  {
  }

  /** `find` reports the occurrence right after a prefix that does not hold
      the pattern's first character. */
  lemma FindAfter(a: string, pat: string, b: string)
    requires |pat| > 0 && pat[0] !in a
    ensures Find(a + pat + b, pat) == Some(|a|)
  {
    var s := a + pat + b;
    assert s[|a|..|a| + |pat|] == pat;
    forall q | 0 <= q < |a|
      ensures !OccursAt(s, pat, q)
    {
      assert s[q] == a[q];
      if q + |pat| <= |s| {
        assert s[q..q + |pat|][0] == s[q];
      }
    }
    FindIsFirst(s, pat, |a|);
  }

  /** A string without one of the pattern's characters does not contain
      it. */
  lemma FindAbsent(s: string, pat: string, k: nat)
    requires k < |pat| && pat[k] !in s
    ensures Find(s, pat) == None
  {
    forall q | 0 <= q
      ensures !OccursAt(s, pat, q)
    {
      if q + |pat| <= |s| {
        assert s[q..q + |pat|][k] == s[q + k];
      }
    }
  }

  /** An occurrence is the first one when the pattern's `k`-th character
      does not appear where an earlier occurrence would put it. */
  lemma FindFirstByChar(s: string, pat: string, k: nat, p: nat)
    requires k < |pat| && OccursAt(s, pat, p)
    requires forall x :: k <= x < p + k ==> s[x] != pat[k]
    ensures Find(s, pat) == Some(p)
  {
    forall q | 0 <= q < p
      ensures !OccursAt(s, pat, q)
    {
      DiffersAt(s, pat, q, k);
    }
    FindIsFirst(s, pat, p);
  }

  /** An occurrence right after `a` is the first one when the pattern's
      `k`-th character is neither in `a` from position `k` on nor earlier
      in the pattern. */
  lemma FindAfterChar(a: string, pat: string, b: string, k: nat)
    requires k < |pat| && k <= |a| && pat[k] !in a[k..] && pat[k] !in pat[..k]
    ensures Find(a + pat + b, pat) == Some(|a|)
  {
    var s := a + pat + b;
    assert s[|a|..|a| + |pat|] == pat;
    forall x | k <= x < |a| + k
      ensures s[x] != pat[k]
    {
      if x < |a| {
        assert s[x] == a[k..][x - k];
      } else {
        assert s[x] == pat[..k][x - |a|];
      }
    }
    FindFirstByChar(s, pat, k, |a|);
  }

  /** `find` reports the occurrence right after a prefix that does not
      contain the pattern, when the pattern's last character appears
      nowhere else in it (so no occurrence can straddle the join). */
  lemma FindAfterAbsent(a: string, pat: string, b: string)
    requires |pat| > 0 && pat[|pat| - 1] !in pat[..|pat| - 1]
    requires !Contains(a, pat)
    ensures Find(a + pat + b, pat) == Some(|a|)
  {
    var s := a + pat + b;
    var n := |pat|;
    assert s[|a|..|a| + n] == pat;
    forall q | 0 <= q < |a|
      ensures !OccursAt(s, pat, q)
    {
      if q + n <= |a| {
        assert !OccursAt(a, pat, q);
        assert a[q..q + n] == s[q..q + n];
      } else {
        var x := q + n - 1;
        assert s[x] == pat[..n - 1][x - |a|];
        DiffersAt(s, pat, q, n - 1);
      }
    }
    FindIsFirst(s, pat, |a|);
  }

  /** A string does not contain a pattern whose `k`-th character it lacks
      from position `k` on. */
  lemma AbsentByChar(s: string, pat: string, k: nat)
    requires k < |pat| && k <= |s| && pat[k] !in s[k..]
    ensures !Contains(s, pat)
  {
    forall q | 0 <= q
      ensures !OccursAt(s, pat, q)
    {
      if q + |pat| <= |s| {
        assert s[k..][q] == s[q + k];
        DiffersAt(s, pat, q, k);
      }
    }
  }

  /** The first occurrence of `pat` in `s` is the first occurrence in any
      extension of `s`. */
  lemma FindInPrefix(s: string, t: string, pat: string)
    requires Find(s, pat).Some?
    ensures Find(s + t, pat) == Find(s, pat)
  {
    var p := Find(s, pat).value;
    assert (s + t)[p..p + |pat|] == s[p..p + |pat|];
    forall q | 0 <= q < p
      ensures !OccursAt(s + t, pat, q)
    {
      assert !OccursAt(s, pat, q);
      if q + |pat| <= |s| {
        assert (s + t)[q..q + |pat|] == s[q..q + |pat|];
      }
    }
    FindIsFirst(s + t, pat, p);
  }

  /** Two strings with the same occurrences of `pat` give the same `find`. */
  lemma FindSameOccurrences(s: string, t: string, pat: string)
    requires forall p :: OccursAt(s, pat, p) <==> OccursAt(t, pat, p)
    ensures Find(s, pat) == Find(t, pat)
  {
  }

  /** An occurrence inside a slice is an occurrence in the whole string. */
  lemma OccursInSlice(s: string, i: nat, j: nat, pat: string, k: nat)
    requires i <= j <= |s| && OccursAt(s[i..j], pat, k)
    ensures OccursAt(s, pat, i + k)
  {
    forall x | 0 <= x < |pat|
      ensures s[i + k..i + k + |pat|][x] == pat[x]
    {
      assert s[i..j][k..k + |pat|][x] == pat[x];
      assert s[i..j][k + x] == s[i + k + x];
    }
    assert s[i + k..i + k + |pat|] == pat;
  }

  /** Two strings that agree on a range have the same slice there. */
  lemma SameSlice(s1: string, s2: string, i: nat, j: nat)
    requires i <= j <= |s1| && j <= |s2|
    requires forall x :: i <= x < j ==> s1[x] == s2[x]
    ensures s1[i..j] == s2[i..j]
  {
    forall x | 0 <= x < j - i
      ensures s1[i..j][x] == s2[i..j][x]
    {
      assert s1[i + x] == s2[i + x];
    }
  }

  /** The middle part of a three-part concatenation. */
  lemma SliceMiddle(a: string, b: string, c: string)
    ensures (a + b + c)[|a|..|a| + |b|] == b
  {
    var s := a + b + c;
    forall x | 0 <= x < |b|
      ensures s[|a|..|a| + |b|][x] == b[x]
    {
      assert s[|a| + x] == b[x];
    }
  }

  /** One mismatching character rules out an occurrence. */
  lemma DiffersAt(s: string, pat: string, q: nat, i: nat)
    requires i < |pat| && q + i < |s| && s[q + i] != pat[i]
    ensures !OccursAt(s, pat, q)
  {
    if q + |pat| <= |s| {
      assert s[q..q + |pat|][i] == s[q + i];
    }
  }

  /** Behind a prefix that starts no occurrence, the first occurrence in
      `u + rest` is the first one in `u`, shifted by the prefix. */
  lemma FindShifted(pre: string, u: string, rest: string, pat: string)
    requires Find(u, pat).Some?
    requires forall q :: 0 <= q < |pre| ==> !OccursAt(pre + u + rest, pat, q)
    ensures Find(pre + u + rest, pat) == Some(|pre| + Find(u, pat).value)
  {
    FindInPrefix(u, rest, pat);
    AppendAssoc(pre, u, rest);
    FindBehind(pre, u + rest, pat);
  }

  /** Behind a prefix that starts no occurrence, the first occurrence in
      `pre + v` is the first one in `v`, shifted by the prefix. */
  lemma FindBehind(pre: string, v: string, pat: string)
    requires Find(v, pat).Some?
    requires forall q :: 0 <= q < |pre| ==> !OccursAt(pre + v, pat, q)
    ensures Find(pre + v, pat) == Some(|pre| + Find(v, pat).value)
  {
    var s := pre + v;
    var k := Find(v, pat).value;
    assert s[|pre| + k..|pre| + k + |pat|] == v[k..k + |pat|];
    forall q | |pre| <= q < |pre| + k
      ensures !OccursAt(s, pat, q)
    {
      assert !OccursAt(v, pat, q - |pre|);
      if q + |pat| <= |s| {
        assert s[q..q + |pat|] == v[q - |pre|..q - |pre| + |pat|];
      }
    }
    FindIsFirst(s, pat, |pre| + k);
  }

  // ---------------------------------------------------------------------
  // Joining and splitting
  // ---------------------------------------------------------------------

  /** `[String]::join(sep)`. */
  function Join(parts: seq<string>, sep: string): string {
    if |parts| == 0 then ""
    else if |parts| == 1 then parts[0]
    else parts[0] + sep + Join(parts[1..], sep)
  }

  /** `str::split(sep)` for a non-empty separator: the pieces between the
      leftmost non-overlapping occurrences of `sep`. */
  function Split(s: string, sep: string): (r: seq<string>)
    requires |sep| > 0
    ensures |r| >= 1
    decreases |s|
  {
    match Find(s, sep)
    case None => [s]
    case Some(p) => [s[..p]] + Split(s[p + |sep|..], sep)
  }

  /** No piece of a split contains the separator. */
  lemma {:induction false} SplitPiecesHaveNoSeparator(s: string, sep: string)
    requires |sep| > 0
    ensures forall i :: 0 <= i < |Split(s, sep)| ==> !Contains(Split(s, sep)[i], sep)
    decreases |s|
  {
    match Find(s, sep)
    case None =>
    case Some(p) =>
      FirstPieceHasNoSeparator(s, sep, p);
      SplitPiecesHaveNoSeparator(s[p + |sep|..], sep);
  }

  lemma FirstPieceHasNoSeparator(s: string, sep: string, p: nat)
    requires |sep| > 0 && Find(s, sep) == Some(p)
    ensures !Contains(s[..p], sep)
  {
    forall q | 0 <= q
      ensures !OccursAt(s[..p], sep, q)
    {
      if q + |sep| <= p {
        assert !OccursAt(s, sep, q);
        assert s[..p][q..q + |sep|] == s[q..q + |sep|];
      }
    }
  }

  /** Splitting at an occurrence preceded by text without the separator's
      first character. */
  lemma SplitAfter(a: string, sep: string, b: string)
    requires |sep| > 0 && sep[0] !in a
    ensures Split(a + sep + b, sep) == [a] + Split(b, sep)
  {
    var s := a + sep + b;
    FindAfter(a, sep, b);
    assert s[..|a|] == a;
    assert s[|a| + |sep|..] == b;
  }

  /** A string without the separator's first character splits into itself. */
  lemma SplitAbsent(s: string, sep: string)
    requires |sep| > 0 && sep[0] !in s
    ensures Split(s, sep) == [s]
  {
    FindAbsent(s, sep, 0);
  }

  /** Splitting and re-joining on the same separator gives the string back. */
  lemma {:induction false} JoinSplit(s: string, sep: string)
    requires |sep| > 0
    ensures Join(Split(s, sep), sep) == s
    decreases |s|
  {
    var f := Find(s, sep);
    if f.Some? {
      var p := f.value;
      var head, tail := s[..p], s[p + |sep|..];
      assert s[p..p + |sep|] == sep;
      assert s == head + sep + tail;
      var rest := Split(tail, sep);
      assert Split(s, sep) == [head] + rest;
      JoinSplit(tail, sep);
      JoinCons(head, rest, sep);
    }
  }

  /** Joining pieces that do not hold the separator's first character and
      splitting again gives the pieces back. */
  lemma {:induction false} SplitJoin(ps: seq<string>, sep: string)
    requires |sep| > 0 && |ps| > 0
    requires forall i :: 0 <= i < |ps| ==> sep[0] !in ps[i]
    ensures Split(Join(ps, sep), sep) == ps
    decreases |ps|
  {
    if |ps| == 1 {
      SplitAbsent(ps[0], sep);
    } else {
      var rest := ps[1..];
      SplitAfter(ps[0], sep, Join(rest, sep));
      SplitJoin(rest, sep);
      assert ps == [ps[0]] + rest;
    }
  }

  /** A character in neither the pieces nor the separator is not in their
      join. */
  lemma {:induction false} JoinChars(ps: seq<string>, sep: string, c: char)
    requires c !in sep && forall i :: 0 <= i < |ps| ==> c !in ps[i]
    ensures c !in Join(ps, sep)
    decreases |ps|
  {
    if |ps| > 1 {
      JoinChars(ps[1..], sep, c);
    }
  }

  lemma JoinCons(head: string, rest: seq<string>, sep: string)
    requires |rest| > 0
    ensures Join([head] + rest, sep) == head + sep + Join(rest, sep)
  {
    assert ([head] + rest)[1..] == rest;
  }

  /** `str::replace(pat, rep)`: every leftmost non-overlapping occurrence of
      `pat` is replaced by `rep`. */
  function ReplaceAll(s: string, pat: string, rep: string): string
    requires |pat| > 0
    decreases |s|
  {
    match Find(s, pat)
    case None => s
    case Some(p) => s[..p] + rep + ReplaceAll(s[p + |pat|..], pat, rep)
  }

  /** `replace` is splitting on the pattern and joining with the
      replacement. */
  lemma {:induction false} ReplaceAllIsJoinOfSplit(s: string, pat: string, rep: string)
    requires |pat| > 0
    ensures ReplaceAll(s, pat, rep) == Join(Split(s, pat), rep)
    decreases |s|
  {
    if Find(s, pat).Some? {
      ReplaceAndSplitAt(s, pat, rep);
      var p := Find(s, pat).value;
      ReplaceAllIsJoinOfSplit(s[p + |pat|..], pat, rep);
      JoinCons(s[..p], Split(s[p + |pat|..], pat), rep);
    }
  }

  /** `replace` and `split` both cut at the first occurrence. */
  lemma ReplaceAndSplitAt(s: string, pat: string, rep: string)
    requires |pat| > 0 && Find(s, pat).Some?
    ensures var p := Find(s, pat).value;
      p + |pat| <= |s|
      && ReplaceAll(s, pat, rep) == s[..p] + rep + ReplaceAll(s[p + |pat|..], pat, rep)
      && Split(s, pat) == [s[..p]] + Split(s[p + |pat|..], pat)
  {
  }

  /** A string without the pattern is returned unchanged by `replace`. */
  lemma ReplaceAllAbsent(s: string, pat: string, rep: string)
    requires |pat| > 0 && !Contains(s, pat)
    ensures ReplaceAll(s, pat, rep) == s
  {
  }

  /** Replacing a pattern by itself changes nothing. */
  lemma ReplaceAllBySelf(s: string, pat: string)
    requires |pat| > 0
    ensures ReplaceAll(s, pat, pat) == s
  {
    ReplaceAllIsJoinOfSplit(s, pat, pat);
    JoinSplit(s, pat);
  }

  // ---------------------------------------------------------------------
  // Trimming
  // ---------------------------------------------------------------------

  /** `str::trim_start`. */
  function TrimStart(s: string): (r: string)
    ensures |r| <= |s| && r == s[|s| - |r|..]
    ensures |r| > 0 ==> !IsWhitespace(r[0])
    ensures forall i :: 0 <= i < |s| - |r| ==> IsWhitespace(s[i])
    decreases |s|
  {
    if |s| > 0 && IsWhitespace(s[0]) then TrimStart(s[1..]) else s
  }

  /** `str::trim_end`. */
  function TrimEnd(s: string): (r: string)
    ensures |r| <= |s| && r == s[..|r|]
    ensures |r| > 0 ==> !IsWhitespace(r[|r| - 1])
    ensures forall i :: |r| <= i < |s| ==> IsWhitespace(s[i])
    decreases |s|
  {
    if |s| > 0 && IsWhitespace(s[|s| - 1]) then TrimEnd(s[..|s| - 1]) else s
  }

  /** `str::trim`: both ends, with the `char::is_whitespace` definition. */
  function Trim(s: string): (r: string)
    ensures |r| <= |s| && IsTrimmed(r)
  {
    TrimEnd(TrimStart(s))
  }

  /** Neither end is whitespace. */
  predicate IsTrimmed(s: string) {
    |s| == 0 || (!IsWhitespace(s[0]) && !IsWhitespace(s[|s| - 1]))
  }

  /** A string is its own trim exactly when neither end is whitespace. */
  lemma TrimFixpoint(s: string)
    ensures Trim(s) == s <==> IsTrimmed(s)
  {
    if |s| > 0 && !IsWhitespace(s[0]) && !IsWhitespace(s[|s| - 1]) {
      assert TrimStart(s) == s;
      assert TrimEnd(s) == s;
    }
  }

  lemma TrimIdempotent(s: string)
    ensures Trim(Trim(s)) == Trim(s)
  {
    TrimFixpoint(Trim(s));
  }

  /** `str::trim_start_matches(pat)`: every leading repetition of `pat` is
      removed. An empty pattern removes nothing. */
  function TrimStartMatches(s: string, pat: string): (r: string)
    ensures |r| <= |s| && r == s[|s| - |r|..]
    ensures |pat| > 0 ==> !StartsWith(r, pat)
    decreases |s|
  {
    if |pat| > 0 && StartsWith(s, pat) then TrimStartMatches(s[|pat|..], pat) else s
  }

  /** `pat` written `k` times. */
  function Repeat(pat: string, k: nat): string {
    if k == 0 then "" else pat + Repeat(pat, k - 1)
  }

  /** Any number of leading copies of the pattern are dropped, and nothing
      more. */
  lemma {:induction false} TrimStartMatchesRepeat(pat: string, k: nat, t: string)
    requires |pat| > 0
    ensures TrimStartMatches(Repeat(pat, k) + t, pat) == TrimStartMatches(t, pat)
  {
    var s := Repeat(pat, k) + t;
    if k > 0 {
      var u := Repeat(pat, k - 1) + t;
      assert s == pat + u by {
        AppendAssoc(pat, Repeat(pat, k - 1), t);
      }
      TrimStartMatchesCons(pat, u);
      TrimStartMatchesRepeat(pat, k - 1, t);
      calc {
        TrimStartMatches(s, pat);
        TrimStartMatches(pat + u, pat);
        TrimStartMatches(u, pat);
        TrimStartMatches(t, pat);
      }
    } else {
      assert s == t;
    }
  }

  /** One leading copy of the pattern is dropped. */
  lemma TrimStartMatchesCons(pat: string, u: string)
    requires |pat| > 0
    ensures TrimStartMatches(pat + u, pat) == TrimStartMatches(u, pat)
  {
    var s := pat + u;
    assert s[..|pat|] == pat;
    assert s[|pat|..] == u;
  }

  // ---------------------------------------------------------------------
  // Whitespace splitting
  // ---------------------------------------------------------------------

  /** The length of the leading run of non-whitespace characters. */
  function WordLength(s: string): (n: nat)
    ensures n <= |s|
    ensures forall i :: 0 <= i < n ==> !IsWhitespace(s[i])
    ensures n < |s| ==> IsWhitespace(s[n])
  {
    if |s| == 0 || IsWhitespace(s[0]) then 0 else 1 + WordLength(s[1..])
  }

  /** `str::split_whitespace`: the maximal runs of non-whitespace. */
  function SplitWhitespace(s: string): (r: seq<string>)
    ensures forall i :: 0 <= i < |r| ==> |r[i]| > 0 && NoWhitespace(r[i])
    decreases |s|
  {
    if |s| == 0 then []
    else if IsWhitespace(s[0]) then SplitWhitespace(s[1..])
    else
      var n := WordLength(s);
      [s[..n]] + SplitWhitespace(s[n..])
  }

  /** No whitespace but single spaces, and each of those between two
      non-whitespace characters: no leading, trailing or doubled space. */
  predicate IsNormalised(s: string) {
    forall i :: 0 <= i < |s| && IsWhitespace(s[i]) ==>
      s[i] == ' ' && 0 < i < |s| - 1 && !IsWhitespace(s[i - 1]) && !IsWhitespace(s[i + 1])
  }

  /** `split_whitespace().collect::<Vec<_>>().join(" ")`. */
  function Normalise(s: string): string {
    Join(SplitWhitespace(s), " ")
  }

  /** Joining non-empty words without whitespace by single spaces yields a
      normalised string. */
  lemma {:induction false} JoinWordsNormalised(ws: seq<string>)
    requires forall i :: 0 <= i < |ws| ==> |ws[i]| > 0 && NoWhitespace(ws[i])
    ensures IsNormalised(Join(ws, " "))
    ensures |ws| > 0 ==> |Join(ws, " ")| > 0 && Join(ws, " ")[0] == ws[0][0]
  {
    if |ws| > 1 {
      JoinWordsNormalised(ws[1..]);
      assert Join(ws, " ") == ws[0] + " " + Join(ws[1..], " ");
      NormalisedCons(ws[0], Join(ws[1..], " "));
    } else if |ws| == 1 {
      assert Join(ws, " ") == ws[0];
    }
  }

  /** A word, a space and a normalised string that starts with a
      non-space make a normalised string. */
  lemma NormalisedCons(w: string, rest: string)
    requires |w| > 0 && NoWhitespace(w)
    requires IsNormalised(rest) && |rest| > 0 && !IsWhitespace(rest[0])
    ensures IsNormalised(w + " " + rest) && (w + " " + rest)[0] == w[0]
  {
    var s := w + " " + rest;
    forall i | 0 <= i < |s| && IsWhitespace(s[i])
      ensures s[i] == ' ' && 0 < i < |s| - 1 && !IsWhitespace(s[i - 1]) && !IsWhitespace(s[i + 1])
    {
      if i == |w| {
        assert s[i - 1] == w[|w| - 1] && s[i + 1] == rest[0];
      } else if i > |w| + 1 {
        var j := i - |w| - 1;
        assert s[i] == rest[j];
        assert s[i - 1] == rest[j - 1];
        assert s[i + 1] == rest[j + 1];
      }
    }
  }

  /** Whitespace normalisation: the result has no leading, trailing or
      doubled spaces and no other whitespace. */
  lemma NormaliseIsNormalised(s: string)
    ensures IsNormalised(Normalise(s))
  {
    JoinWordsNormalised(SplitWhitespace(s));
  }

  // ---------------------------------------------------------------------
  // Letter case
  // ---------------------------------------------------------------------

  /** `char::to_lowercase`, restricted to ASCII letters. */
  function LowerChar(c: char): char {
    if 'A' <= c <= 'Z' then (c as int + 32) as char else c
  }

  /** `str::to_lowercase`, character by character (ASCII letters only). */
  function ToLower(s: string): (r: string)
    ensures |r| == |s|
  {
    if |s| == 0 then "" else [LowerChar(s[0])] + ToLower(s[1..])
  }

  /** Lower-casing works character by character. */
  lemma {:induction false} ToLowerChars(s: string)
    ensures forall i :: 0 <= i < |s| ==> ToLower(s)[i] == LowerChar(s[i])
  {
    if |s| > 0 {
      ToLowerChars(s[1..]);
      assert forall i :: 1 <= i < |s| ==> ToLower(s)[i] == ToLower(s[1..])[i - 1];
    }
  }

  /** Lower-casing twice is lower-casing once. */
  lemma ToLowerIdempotent(s: string)
    ensures ToLower(ToLower(s)) == ToLower(s)
  {
    ToLowerChars(s);
    ToLowerChars(ToLower(s));
    assert forall i :: 0 <= i < |s| ==> LowerChar(LowerChar(s[i])) == LowerChar(s[i]);
  }
}
