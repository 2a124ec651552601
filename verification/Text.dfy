/** Byte strings and the searches and comparisons the parsers share.  A `char` stands for one byte. */
module Text {

  const CR: char := '\r'
  const LF: char := '\n'
  const CRLF: string := "\r\n"

  /** CPPHTTPLIB_HEADER_MAX_LENGTH */
  const HEADER_MAX_LENGTH := 8192

  function Concat(parts: seq<string>): string
  {
    if parts == [] then "" else parts[0] + Concat(parts[1..])
  }

  lemma {:induction false} ConcatSnoc(parts: seq<string>, s: string)
    ensures Concat(parts + [s]) == Concat(parts) + s
    decreases |parts|
  {
    if parts == [] {
      assert parts + [s] == [s] && [s][1..] == [] && s + "" == s && "" + s == s;
    } else {
      assert (parts + [s])[0] == parts[0] && (parts + [s])[1..] == parts[1..] + [s];
      ConcatSnoc(parts[1..], s);
      assert parts[0] + (Concat(parts[1..]) + s) == parts[0] + Concat(parts[1..]) + s;
    }
  }

  predicate OccursAt(s: string, pat: string, i: int)
  {
    0 <= i && i + |pat| <= |s| && s[i..i + |pat|] == pat
  }

  predicate StartsWith(s: string, pat: string)
  {
    OccursAt(s, pat, 0)
  }

  /** The first position from `i` on where `pat` occurs in `s`, or |s|. */
  function FindFrom(s: string, pat: string, i: nat): (r: nat)
    requires pat != "" && i <= |s|
    ensures i <= r <= |s|
    ensures r < |s| ==> OccursAt(s, pat, r)
    ensures forall k :: i <= k < r ==> !OccursAt(s, pat, k)
    decreases |s| - i
  {
    if i == |s| || OccursAt(s, pat, i) then i else FindFrom(s, pat, i + 1)
  }

  /** The first position where `pat` occurs in `s`, or |s| when it does not occur. */
  function Find(s: string, pat: string): (r: nat)
    requires pat != ""
    ensures r <= |s|
    ensures r < |s| ==> OccursAt(s, pat, r)
    ensures forall k :: 0 <= k < r ==> !OccursAt(s, pat, k)
  {
    FindFrom(s, pat, 0)
  }

  predicate Contains(s: string, pat: string)
    requires pat != ""
  {
    Find(s, pat) < |s|
  }

  lemma FindUnique(s: string, pat: string, r: nat)
    requires pat != "" && r <= |s|
    requires r < |s| ==> OccursAt(s, pat, r)
    requires forall k :: 0 <= k < r ==> !OccursAt(s, pat, k)
    ensures Find(s, pat) == r
  {
    var f := Find(s, pat);
    assert r < f ==> !OccursAt(s, pat, r);
  }

  lemma Mismatch(s: string, pat: string, i: nat, j: nat)
    requires j < |pat| && i + j < |s| && s[i + j] != pat[j]
    ensures !OccursAt(s, pat, i)
  {
    if i + |pat| <= |s| {
      assert s[i..i + |pat|][j] == s[i + j];
    }
  }

  lemma OccursAppend(a: string, b: string, pat: string, i: int)
    requires i + |pat| <= |a|
    ensures OccursAt(a, pat, i) <==> OccursAt(a + b, pat, i)
  {
    if 0 <= i {
      assert (a + b)[i..i + |pat|] == a[i..i + |pat|];
    }
  }

  lemma OccursDrop(s: string, pat: string, n: nat, i: int)
    requires n <= |s| && 0 <= i
    ensures OccursAt(s[n..], pat, i) <==> OccursAt(s, pat, n + i)
  {
    if i + |pat| <= |s| - n {
      assert s[n..][i..i + |pat|] == s[n + i..n + i + |pat|];
    }
  }

  lemma FindHit(s: string, pat: string)
    requires pat != "" && Find(s, pat) < |s|
    ensures OccursAt(s, pat, Find(s, pat))
  {
  }

  /** A hit stays the first hit when more bytes arrive. */
  lemma FindAppendHit(a: string, b: string, pat: string)
    requires pat != "" && Find(a, pat) < |a|
    ensures Find(a + b, pat) == Find(a, pat)
  {
    var f := Find(a, pat);
    OccursAppend(a, b, pat, f);
    forall k | 0 <= k < f ensures !OccursAt(a + b, pat, k) {
      OccursAppend(a, b, pat, k);
    }
    FindUnique(a + b, pat, f);
  }

  /** A miss in a prefix leaves only hits that need later bytes. */
  lemma FindAppendMiss(a: string, b: string, pat: string)
    requires pat != "" && Find(a, pat) == |a|
    ensures Find(a + b, pat) + |pat| > |a|
    ensures b == "" ==> Find(a + b, pat) == |a|
  {
    assert b == "" ==> a + b == a;
    var f := Find(a + b, pat);
    if f + |pat| <= |a| {
      OccursAppend(a, b, pat, f);
    }
  }

  /** Dropping bytes before the first hit shifts it. */
  lemma FindDrop(s: string, pat: string, n: nat)
    requires pat != "" && n <= Find(s, pat)
    ensures Find(s[n..], pat) == Find(s, pat) - n
  {
    var f := Find(s, pat);
    if f < |s| { OccursDrop(s, pat, n, f - n); }
    forall k | 0 <= k < f - n ensures !OccursAt(s[n..], pat, k) {
      OccursDrop(s, pat, n, k);
    }
    FindUnique(s[n..], pat, f - n);
  }

  /** A pattern whose first character does not recur in it is first found right after a prefix free of it. */
  lemma FindAfter(a: string, pat: string, b: string)
    requires pat != "" && !Contains(a, pat)
    requires forall k :: 0 < k < |pat| ==> pat[k] != pat[0]
    ensures Find(a + pat + b, pat) == |a|
  {
    var s := a + pat + b;
    assert s[|a|..|a| + |pat|] == pat;
    forall k | 0 <= k < |a| ensures !OccursAt(s, pat, k) {
      if k + |pat| <= |a| {
        assert s == a + (pat + b);
        OccursAppend(a, pat + b, pat, k);
      } else {
        Mismatch(s, pat, k, |a| - k);
      }
    }
    FindUnique(s, pat, |a|);
  }

  lemma NoFirstCharNoMatch(a: string, pat: string)
    requires pat != "" && pat[0] !in a
    ensures !Contains(a, pat)
  {
    forall k | 0 <= k < |a| ensures !OccursAt(a, pat, k) {
      Mismatch(a, pat, k, 0);
    }
    FindUnique(a, pat, |a|);
  }

  /** tolower in the "C" locale. */
  function Lower(c: char): char
  {
    if 'A' <= c <= 'Z' then (c as int + 32) as char else c
  }

  predicate EqualIgnoringCase(a: string, b: string)
  {
    |a| == |b| && forall i :: 0 <= i < |a| ==> Lower(a[i]) == Lower(b[i])
  }

  predicate StartsWithIgnoringCase(a: string, b: string)
  {
    |b| <= |a| && EqualIgnoringCase(a[..|b|], b)
  }

  predicate IsBlank(c: char)
  {
    c == ' ' || c == '\t'
  }

  /** isspace in the "C" locale. */
  predicate IsSpace(c: char)
  {
    c == ' ' || '\t' <= c <= '\r'
  }

  function TrimLeft(s: string): (r: string)
    ensures |r| <= |s|
  {
    if s != "" && IsBlank(s[0]) then TrimLeft(s[1..]) else s
  }

  function TrimRight(s: string): (r: string)
    ensures |r| <= |s|
  {
    if s != "" && IsBlank(s[|s| - 1]) then TrimRight(s[..|s| - 1]) else s
  }

  /** Blanks and tabs removed at both ends. */
  function Trim(s: string): string
  {
    TrimRight(TrimLeft(s))
  }

  predicate Trimmed(s: string)
  {
    s != "" ==> !IsBlank(s[0]) && !IsBlank(s[|s| - 1])
  }

  lemma TrimOfTrimmed(s: string)
    requires Trimmed(s)
    ensures Trim(s) == s && Trim(" " + s) == s
  {
    if s != "" {
      assert (" " + s)[1..] == s;
    } else {
      assert (" " + s)[1..] == "";
    }
  }

  /** The first place of `d`, or |s|. */
  function IndexOf(s: string, d: char): (i: nat)
    ensures i <= |s|
    ensures i < |s| ==> s[i] == d
    ensures forall k :: 0 <= k < i ==> s[k] != d
  {
    if s == "" || s[0] == d then 0 else 1 + IndexOf(s[1..], d)
  }

  lemma {:induction false} IndexOfIs(s: string, d: char, i: nat)
    requires i <= |s| && (forall k :: 0 <= k < i ==> s[k] != d) && (i < |s| ==> s[i] == d)
    ensures IndexOf(s, d) == i
    decreases i
  {
    if i > 0 { IndexOfIs(s[1..], d, i - 1); }
  }

  function SkipSpaces(s: string): string
  {
    if s != "" && IsSpace(s[0]) then SkipSpaces(s[1..]) else s
  }

  predicate AllSpace(s: string)
  {
    forall i :: 0 <= i < |s| ==> IsSpace(s[i])
  }

  lemma {:induction false} SkipSpacesIs(w: string, s: string)
    requires AllSpace(w) && (s != "" ==> !IsSpace(s[0]))
    ensures SkipSpaces(w + s) == s
    decreases |w|
  {
    if w == "" {
      assert w + s == s;
    } else {
      assert (w + s)[1..] == w[1..] + s;
      SkipSpacesIs(w[1..], s);
    }
  }

  const UPPER := "ABCDEFGHIJKLMNOPQRSTUVWXYZ"
  const LOWER := "abcdefghijklmnopqrstuvwxyz"
  const DIGITS := "0123456789"

  lemma UpperLetters(c: char)
    ensures c in UPPER <==> 'A' <= c <= 'Z'
  {
    if 'A' <= c <= 'Z' { assert UPPER[c as int - 'A' as int] == c; }
  }

  lemma LowerLetters(c: char)
    ensures c in LOWER <==> 'a' <= c <= 'z'
  {
    if 'a' <= c <= 'z' { assert LOWER[c as int - 'a' as int] == c; }
  }

  lemma Digits(c: char)
    ensures c in DIGITS <==> '0' <= c <= '9'
  {
    if '0' <= c <= '9' { assert DIGITS[c as int - '0' as int] == c; }
  }

  /** The letters and their lower case; every other character stays. */
  lemma LowerIs(c: char, i: nat)
    requires i < 26
    ensures Lower(UPPER[i]) == LOWER[i]
    ensures c !in UPPER ==> Lower(c) == c
  {
    UpperLetters(c);
  }

  /** The six characters that count as white space. */
  lemma SpaceIs(c: char)
    ensures IsSpace(c) <==> c in " \t\n\U{000B}\U{000C}\r"
    ensures IsBlank(c) <==> c in " \t"
  {
  }
}
