/**
  The Python `str` operations the career-path code relies on, over `seq<char>`:
  whitespace and case classes, `strip`, `lower`, `capitalize`, `find`, `split`,
  `join` and `replace`. Case mapping covers ASCII letters only.
*/
module Strings {
  import opened Wrappers

  /** The characters that Python's `str.isspace()` and the regular-expression class `\s` accept. */
  const Whitespace: set<char> := {
    ' ', '\t', '\n', '\r', '\U{B}', '\U{C}', '\U{1C}', '\U{1D}', '\U{1E}', '\U{1F}',
    '\U{85}', '\U{A0}', '\U{1680}', '\U{2000}', '\U{2001}', '\U{2002}', '\U{2003}',
    '\U{2004}', '\U{2005}', '\U{2006}', '\U{2007}', '\U{2008}', '\U{2009}', '\U{200A}',
    '\U{2028}', '\U{2029}', '\U{202F}', '\U{205F}', '\U{3000}'
  }

  predicate IsSpace(c: char) {
    c in Whitespace
  }

  predicate IsUpper(c: char) {
    'A' <= c <= 'Z'
  }

  predicate IsLower(c: char) {
    'a' <= c <= 'z'
  }

  /** The regular-expression class `[a-zA-Z]`. */
  predicate IsLetter(c: char) {
    IsUpper(c) || IsLower(c)
  }

  predicate IsDigit(c: char) {
    '0' <= c <= '9'
  }

  function LowerChar(c: char): (d: char)
    ensures !IsUpper(d)
    ensures IsLetter(d) <==> IsLetter(c)
    ensures IsSpace(d) <==> IsSpace(c)
    ensures !IsUpper(c) ==> d == c
  {
    if IsUpper(c) then (c as int + 32) as char else c
  }

  function UpperChar(c: char): (d: char)
    ensures !IsLower(d)
    ensures IsLetter(d) <==> IsLetter(c)
    ensures LowerChar(d) == LowerChar(c)
  {
    if IsLower(c) then (c as int - 32) as char else c
  }

  /** `str.lower()`. */
  function Lower(s: string): string {
    seq(|s|, i requires 0 <= i < |s| => LowerChar(s[i]))
  }

  predicate NoUpper(s: string) {
    forall i :: 0 <= i < |s| ==> !IsUpper(s[i])
  }

  lemma LowerIsLowercase(s: string)
    ensures NoUpper(Lower(s))
    ensures Lower(Lower(s)) == Lower(s)
  {
  }

  lemma LowerOfLowercase(s: string)
    requires NoUpper(s)
    ensures Lower(s) == s
  {
  }

  /** `str.capitalize()`: the first character upper-cased, the rest lower-cased. */
  function Capitalize(s: string): (r: string)
    ensures |r| == |s|
    ensures |s| > 0 ==> !IsLower(r[0]) && LowerChar(r[0]) == LowerChar(s[0])
    ensures forall i :: 1 <= i < |r| ==> r[i] == LowerChar(s[i])
  {
    if |s| == 0 then "" else [UpperChar(s[0])] + Lower(s[1..])
  }

  // ---------------------------------------------------------------------------
  // strip / lstrip / rstrip

  /** `s.lstrip(cs)`. */
  function TrimLeft(s: string, cs: set<char>): (r: string)
    ensures |r| <= |s| && r == s[|s| - |r|..]
    ensures forall i :: 0 <= i < |s| - |r| ==> s[i] in cs
    ensures r == [] || r[0] !in cs
    decreases |s|
  {
    if |s| > 0 && s[0] in cs then TrimLeft(s[1..], cs) else s
  }

  /** `s.rstrip(cs)`. */
  function TrimRight(s: string, cs: set<char>): (r: string)
    ensures |r| <= |s| && r == s[..|r|]
    ensures forall i :: |r| <= i < |s| ==> s[i] in cs
    ensures r == [] || r[|r| - 1] !in cs
    decreases |s|
  {
    if |s| > 0 && s[|s| - 1] in cs then TrimRight(s[..|s| - 1], cs) else s
  }

  /** `s.strip(cs)`. */
  function StripChars(s: string, cs: set<char>): string {
    TrimRight(TrimLeft(s, cs), cs)
  }

  /** `s.strip()`. */
  function Strip(s: string): string {
    StripChars(s, Whitespace)
  }

  predicate AllIn(s: string, cs: set<char>) {
    forall i :: 0 <= i < |s| ==> s[i] in cs
  }

  /** A string that neither starts nor ends with a character of `cs`. */
  predicate Trimmed(s: string, cs: set<char>) {
    s == [] || (s[0] !in cs && s[|s| - 1] !in cs)
  }

  lemma StripCharsIsTrimmedInfix(s: string, cs: set<char>)
    ensures Trimmed(StripChars(s, cs), cs)
    ensures exists a, b :: 0 <= a <= b <= |s| && StripChars(s, cs) == s[a..b]
  {
    var l := TrimLeft(s, cs);
    var r := TrimRight(l, cs);
    var a := |s| - |l|;
    assert r == s[a..a + |r|];
    if r != [] {
      assert r[0] == l[0];
    }
  }

  /** Stripping keeps only characters of the original. */
  lemma StripCharsChars(s: string, cs: set<char>)
    ensures forall c :: c in StripChars(s, cs) ==> c in s
  {
    var l := TrimLeft(s, cs);
    var r := TrimRight(l, cs);
    forall c | c in r
      ensures c in s
    {
      var i :| 0 <= i < |r| && r[i] == c;
      assert r[i] == l[i] == s[|s| - |l| + i];
    }
  }

  lemma {:induction false} TrimLeftOfTrimmed(s: string, cs: set<char>)
    requires s == [] || s[0] !in cs
    ensures TrimLeft(s, cs) == s
  {
  }

  lemma {:induction false} TrimRightOfTrimmed(s: string, cs: set<char>)
    requires s == [] || s[|s| - 1] !in cs
    ensures TrimRight(s, cs) == s
  {
  }

  lemma StripCharsOfTrimmed(s: string, cs: set<char>)
    requires Trimmed(s, cs)
    ensures StripChars(s, cs) == s
  {
    TrimLeftOfTrimmed(s, cs);
    TrimRightOfTrimmed(s, cs);
  }

  lemma StripCharsIdempotent(s: string, cs: set<char>)
    ensures StripChars(StripChars(s, cs), cs) == StripChars(s, cs)
  {
    StripCharsIsTrimmedInfix(s, cs);
    StripCharsOfTrimmed(StripChars(s, cs), cs);
  }

  lemma {:induction false} TrimLeftSkipsPrefix(w: string, x: string, cs: set<char>)
    requires AllIn(w, cs)
    ensures TrimLeft(w + x, cs) == TrimLeft(x, cs)
    decreases |w|
  {
    if |w| > 0 {
      assert w[0] in cs;
      assert (w + x)[0] == w[0] && (w + x)[1..] == w[1..] + x;
      TrimLeftSkipsPrefix(w[1..], x, cs);
    } else {
      assert w + x == x;
    }
  }

  lemma {:induction false} TrimRightSkipsSuffix(x: string, w: string, cs: set<char>)
    requires AllIn(w, cs)
    ensures TrimRight(x + w, cs) == TrimRight(x, cs)
    decreases |w|
  {
    if |w| > 0 {
      assert w[|w| - 1] in cs;
      assert (x + w)[|x + w| - 1] == w[|w| - 1];
      assert (x + w)[..|x + w| - 1] == x + w[..|w| - 1];
      TrimRightSkipsSuffix(x, w[..|w| - 1], cs);
    } else {
      assert x + w == x;
    }
  }

  lemma {:induction false} TrimLeftKeepsSuffix(x: string, w: string, cs: set<char>)
    ensures TrimLeft(x, cs) != [] ==> TrimLeft(x + w, cs) == TrimLeft(x, cs) + w
    ensures TrimLeft(x, cs) == [] && AllIn(w, cs) ==> TrimLeft(x + w, cs) == []
    decreases |x|
  {
    if |x| == 0 {
      assert x + w == w;
      if AllIn(w, cs) {
        TrimLeftSkipsPrefix(w, [], cs);
        assert w + [] == w;
      }
    } else {
      assert (x + w)[1..] == x[1..] + w;
      TrimLeftKeepsSuffix(x[1..], w, cs);
    }
  }

  /** A string made only of characters of `cs` strips to nothing. */
  lemma StripCharsAllIn(s: string, cs: set<char>)
    requires AllIn(s, cs)
    ensures StripChars(s, cs) == ""
  {
    TrimLeftSkipsPrefix(s, "", cs);
    assert s + "" == s;
  }

  /** Surrounding `x` with characters of `cs` does not change its stripped form. */
  lemma StripCharsIgnoresPadding(w1: string, x: string, w2: string, cs: set<char>)
    requires AllIn(w1, cs) && AllIn(w2, cs)
    ensures StripChars(w1 + x + w2, cs) == StripChars(x, cs)
  {
    assert w1 + x + w2 == w1 + (x + w2);
    TrimLeftSkipsPrefix(w1, x + w2, cs);
    TrimLeftKeepsSuffix(x, w2, cs);
    if TrimLeft(x, cs) != [] {
      TrimRightSkipsSuffix(TrimLeft(x, cs), w2, cs);
    }
  }

  lemma {:induction false} TrimLeftLower(s: string)
    ensures TrimLeft(Lower(s), Whitespace) == Lower(TrimLeft(s, Whitespace))
    decreases |s|
  {
    if |s| > 0 {
      assert Lower(s)[0] == LowerChar(s[0]);
      assert Lower(s)[1..] == Lower(s[1..]);
      TrimLeftLower(s[1..]);
    }
  }

  lemma {:induction false} TrimRightLower(s: string)
    ensures TrimRight(Lower(s), Whitespace) == Lower(TrimRight(s, Whitespace))
    decreases |s|
  {
    if |s| > 0 {
      assert Lower(s)[|s| - 1] == LowerChar(s[|s| - 1]);
      assert Lower(s)[..|s| - 1] == Lower(s[..|s| - 1]);
      TrimRightLower(s[..|s| - 1]);
    }
  }

  /** Stripping commutes with lower-casing, because lower-casing keeps whitespace. */
  lemma StripLowerCommute(s: string)
    ensures Strip(Lower(s)) == Lower(Strip(s))
  {
    TrimLeftLower(s);
    TrimRightLower(TrimLeft(s, Whitespace));
  }

  /** Length of the run of characters in `cs` that starts at position `p` of `s`. */
  function RunLength(s: string, p: nat, cs: set<char>): (n: nat)
    requires p <= |s|
    ensures p + n <= |s|
    ensures forall i :: p <= i < p + n ==> s[i] in cs
    ensures p + n == |s| || s[p + n] !in cs
    decreases |s| - p
  {
    if p < |s| && s[p] in cs then 1 + RunLength(s, p + 1, cs) else 0
  }

  /** A run depends only on the text from its start on. */
  lemma {:induction false} RunLengthSame(s: string, p: nat, t: string, q: nat, cs: set<char>)
    requires p <= |s| && q <= |t| && s[p..] == t[q..]
    ensures RunLength(s, p, cs) == RunLength(t, q, cs)
    decreases |s| - p
  {
    if p < |s| {
      assert s[p] == s[p..][0] == t[q..][0] == t[q];
      assert s[p + 1..] == s[p..][1..] == t[q..][1..] == t[q + 1..];
      RunLengthSame(s, p + 1, t, q + 1, cs);
    }
  }

  /** A run that stops at the end of `x` stops there in `x + y` when `y` does not continue it. */
  lemma {:induction false} RunLengthPrefix(x: string, y: string, p: nat, cs: set<char>)
    requires p <= |x| && (y == [] || y[0] !in cs)
    ensures RunLength(x + y, p, cs) == RunLength(x, p, cs)
    decreases |x| - p
  {
    if p < |x| {
      assert (x + y)[p] == x[p];
      if x[p] in cs {
        RunLengthPrefix(x, y, p + 1, cs);
      }
    } else if y != [] {
      assert (x + y)[p] == y[0];
    }
  }

  /** Length of the leading run of non-whitespace characters of `s`. */
  function WordLength(s: string): (n: nat)
    ensures n <= |s|
    ensures forall i :: 0 <= i < n ==> !IsSpace(s[i])
    ensures n == |s| || IsSpace(s[n])
    decreases |s|
  {
    if |s| > 0 && !IsSpace(s[0]) then 1 + WordLength(s[1..]) else 0
  }

  /** A non-empty string without whitespace. */
  predicate IsWord(w: string) {
    w != [] && forall i :: 0 <= i < |w| ==> !IsSpace(w[i])
  }

  /** `str.split()` with no argument: the maximal runs of non-whitespace characters. */
  function Words(s: string): (ws: seq<string>)
    ensures forall k :: 0 <= k < |ws| ==> IsWord(ws[k])
    ensures |ws| <= |s|
    decreases |s|
  {
    if |s| == 0 then []
    else if IsSpace(s[0]) then Words(s[1..])
    else
      var n := WordLength(s);
      [s[..n]] + Words(s[n..])
  }

  // ---------------------------------------------------------------------------
  // find / split / join / replace

  predicate OccursAt(s: string, pat: string, i: nat) {
    i + |pat| <= |s| && s[i..i + |pat|] == pat
  }

  /** `pat in s`. */
  predicate Contains(s: string, pat: string) {
    exists i :: 0 <= i <= |s| && OccursAt(s, pat, i)
  }

  lemma OccursAtChar(s: string, pat: string, i: nat, j: nat)
    requires OccursAt(s, pat, i) && i <= j < i + |pat|
    ensures s[j] == pat[j - i]
  {
    assert s[i..i + |pat|][j - i] == s[j];
  }

  /** `s.find(pat, from)`: the first occurrence at or after `from`. */
  function FindFrom(s: string, pat: string, from: nat): (r: Option<nat>)
    ensures r.Some? ==> from <= r.value && OccursAt(s, pat, r.value)
    ensures r.Some? ==> forall j :: from <= j < r.value ==> !OccursAt(s, pat, j)
    ensures r.None? ==> forall j :: from <= j ==> !OccursAt(s, pat, j)
    decreases |s| - from
  {
    if from + |pat| > |s| then None
    else if OccursAt(s, pat, from) then Some(from)
    else FindFrom(s, pat, from + 1)
  }

  function Find(s: string, pat: string): Option<nat> {
    FindFrom(s, pat, 0)
  }

  /** An occurrence with none before it is what `find` returns. */
  lemma FindIsFirstOccurrence(s: string, pat: string, i: nat)
    requires OccursAt(s, pat, i)
    requires forall j :: 0 <= j < i ==> !OccursAt(s, pat, j)
    ensures Find(s, pat) == Some(i)
  {
  }

  lemma NotFoundMeansAbsent(s: string, pat: string)
    ensures Find(s, pat).None? <==> !Contains(s, pat)
  {
    if Find(s, pat).Some? {
      assert OccursAt(s, pat, Find(s, pat).value);
    }
  }

  /** `sep.join(parts)`. */
  function Join(sep: string, parts: seq<string>): string
    decreases |parts|
  {
    if |parts| == 0 then ""
    else if |parts| == 1 then parts[0]
    else parts[0] + sep + Join(sep, parts[1..])
  }

  /** A joined list begins with its first part. */
  lemma JoinStartsWithFirst(sep: string, parts: seq<string>)
    requires |parts| > 0
    ensures parts[0] <= Join(sep, parts)
  {
  }

  /** Joining one more part appends the separator and that part. */
  lemma {:induction false} JoinSnoc(sep: string, parts: seq<string>, last: string)
    requires |parts| > 0
    ensures Join(sep, parts + [last]) == Join(sep, parts) + sep + last
    decreases |parts|
  {
    if |parts| == 1 {
      assert parts + [last] == [parts[0], last];
      assert [parts[0], last][1..] == [last];
    } else {
      assert (parts + [last])[1..] == parts[1..] + [last];
      JoinSnoc(sep, parts[1..], last);
    }
  }

  /** A character in neither the separator nor any part is not in the joined text. */
  lemma {:induction false} JoinAvoidsChar(sep: string, parts: seq<string>, c: char)
    requires c !in sep && forall k :: 0 <= k < |parts| ==> c !in parts[k]
    ensures c !in Join(sep, parts)
    decreases |parts|
  {
    if |parts| > 1 {
      assert forall k :: 0 <= k < |parts[1..]| ==> c !in parts[1..][k] by {
        forall k | 0 <= k < |parts[1..]|
          ensures c !in parts[1..][k]
        {
          assert parts[1..][k] == parts[k + 1];
        }
      }
      JoinAvoidsChar(sep, parts[1..], c);
      assert c !in parts[0];
    } else if |parts| == 1 {
      assert c !in parts[0];
    }
  }

  /** `s.split(sep)` for a non-empty separator; `join` undoes it. */
  function Split(s: string, sep: string): (parts: seq<string>)
    requires |sep| > 0
    ensures |parts| >= 1
    ensures Join(sep, parts) == s
    ensures |parts| == 1 <==> !Contains(s, sep)
    decreases |s|
  {
    match Find(s, sep)
    case None => [s]
    case Some(i) =>
      var rest := Split(s[i + |sep|..], sep);
      assert s == s[..i] + sep + s[i + |sep|..] by {
        assert s[i..i + |sep|] == sep;
      }
      [s[..i]] + rest
  }

  /** The first part `split` returns and the remainder after the first separator. */
  lemma SplitAtFirst(s: string, sep: string, i: nat)
    requires |sep| > 0
    requires Find(s, sep) == Some(i)
    ensures Split(s, sep)[0] == s[..i]
    ensures Split(s, sep)[1..] == Split(s[i + |sep|..], sep)
  {
  }

  lemma SplitWithoutSeparator(s: string, sep: string)
    requires |sep| > 0
    requires !Contains(s, sep)
    ensures Split(s, sep) == [s]
  {
    NotFoundMeansAbsent(s, sep);
  }

  /** The text before the first occurrence does not contain the pattern. */
  lemma BeforeFirstAvoids(s: string, pat: string, i: nat)
    requires |pat| > 0 && Find(s, pat) == Some(i)
    ensures !Contains(s[..i], pat)
  {
    forall j | 0 <= j <= i && OccursAt(s[..i], pat, j)
      ensures false
    {
      assert s[..i][j..j + |pat|] == s[j..j + |pat|];
      assert OccursAt(s, pat, j);
    }
  }

  /** No part that `split` returns contains the separator. */
  lemma {:induction false} SplitPartsAvoid(s: string, sep: string)
    requires |sep| > 0
    ensures forall k :: 0 <= k < |Split(s, sep)| ==> !Contains(Split(s, sep)[k], sep)
    decreases |s|
  {
    var parts := Split(s, sep);
    match Find(s, sep)
    case None =>
      NotFoundMeansAbsent(s, sep);
      assert parts == [s];
    case Some(i) =>
      var rest := Split(s[i + |sep|..], sep);
      assert parts[0] == s[..i] && parts[1..] == rest by {
        SplitAtFirst(s, sep, i);
      }
      BeforeFirstAvoids(s, sep, i);
      SplitPartsAvoid(s[i + |sep|..], sep);
      forall k | 0 <= k < |parts|
        ensures !Contains(parts[k], sep)
      {
        if k > 0 {
          assert parts[k] == rest[k - 1];
        }
      }
  }

  /** A one-character string occurs exactly where its character does. */
  lemma ContainsChar(s: string, c: char)
    ensures Contains(s, [c]) <==> c in s
  {
    if c in s {
      var i :| 0 <= i < |s| && s[i] == c;
      assert s[i..i + 1] == [c];
      assert OccursAt(s, [c], i);
    }
    if Contains(s, [c]) {
      var i :| 0 <= i <= |s| && OccursAt(s, [c], i);
      assert s[i..i + 1][0] == s[i];
    }
  }

  /** No proper prefix of `pat` is also a suffix of it, so two occurrences cannot overlap. */
  predicate Borderless(pat: string) {
    forall k :: 0 < k < |pat| ==> pat[..k] != pat[|pat| - k..]
  }

  /** The first occurrence of a borderless `sep` in `x + sep + y` is the one after `x`. */
  lemma FirstSeparatorAfter(x: string, sep: string, y: string)
    requires |sep| > 0 && Borderless(sep) && !Contains(x, sep)
    ensures Find(x + sep + y, sep) == Some(|x|)
  {
    var s := x + sep + y;
    assert s[|x|..|x| + |sep|] == sep;
    forall j | 0 <= j < |x|
      ensures !OccursAt(s, sep, j)
    {
      if j + |sep| <= |x| {
        assert s[j..j + |sep|] == x[j..j + |sep|];
        assert !OccursAt(x, sep, j);
      } else if j + |sep| <= |s| {
        var k := j + |sep| - |x|;
        var w := s[j..j + |sep|];
        assert w[|sep| - k..] == sep[..k];
        assert sep[..k] != sep[|sep| - k..];
      }
    }
    FindIsFirstOccurrence(s, sep, |x|);
  }

  /** `split` undoes `join` when the separator is borderless and occurs in no part. */
  lemma {:induction false} SplitJoin(sep: string, parts: seq<string>)
    requires |sep| > 0 && Borderless(sep) && |parts| > 0
    requires forall k :: 0 <= k < |parts| ==> !Contains(parts[k], sep)
    ensures Split(Join(sep, parts), sep) == parts
    decreases |parts|
  {
    if |parts| == 1 {
      SplitWithoutSeparator(parts[0], sep);
    } else {
      var rest := Join(sep, parts[1..]);
      FirstSeparatorAfter(parts[0], sep, rest);
      var s := parts[0] + sep + rest;
      assert s[|parts[0]| + |sep|..] == rest;
      SplitJoin(sep, parts[1..]);
    }
  }

  /** A pattern whose first character is absent from `a` occurs in `a + t` only inside `t`. */
  lemma NoMatchAcrossLeft(a: string, t: string, pat: string)
    requires |pat| > 0 && pat[0] !in a && !Contains(t, pat)
    ensures !Contains(a + t, pat)
  {
    var s := a + t;
    forall i | 0 <= i <= |s| && OccursAt(s, pat, i)
      ensures false
    {
      OccursAtChar(s, pat, i, i);
      if i >= |a| {
        assert s[i..i + |pat|] == t[i - |a|..i - |a| + |pat|];
        assert OccursAt(t, pat, i - |a|);
      }
    }
  }

  /** A pattern whose last character is absent from `w` occurs in `t + w` only inside `t`. */
  lemma NoMatchAcrossRight(t: string, w: string, pat: string)
    requires |pat| > 0 && pat[|pat| - 1] !in w && !Contains(t, pat)
    ensures !Contains(t + w, pat)
  {
    var s := t + w;
    forall i | 0 <= i <= |s| && OccursAt(s, pat, i)
      ensures false
    {
      var last := i + |pat| - 1;
      OccursAtChar(s, pat, i, last);
      if last < |t| {
        assert s[i..i + |pat|] == t[i..i + |pat|];
        assert OccursAt(t, pat, i);
      }
    }
  }

  /** `s.replace(target, repl)`: left-to-right, non-overlapping. */
  function ReplaceAll(s: string, target: string, repl: string): (r: string)
    requires |target| > 0
    ensures !Contains(s, target) ==> r == s
    decreases |s|
  {
    if OccursAt(s, target, 0) then repl + ReplaceAll(s[|target|..], target, repl)
    else if |s| == 0 then ""
    else
      var tail := ReplaceAll(s[1..], target, repl);
      assert !Contains(s, target) ==> !Contains(s[1..], target) by {
        forall j: nat | OccursAt(s[1..], target, j)
          ensures OccursAt(s, target, j + 1)
        {
          assert s[1..][j..j + |target|] == s[j + 1..j + 1 + |target|];
        }
      }
      [s[0]] + tail
  }

  /** Replacing a one-character string by text without that character removes it. */
  lemma {:induction false} ReplaceRemovesChar(s: string, c: char, repl: string)
    requires c !in repl
    ensures c !in ReplaceAll(s, [c], repl)
    decreases |s|
  {
    if |s| > 0 {
      ReplaceRemovesChar(s[1..], c, repl);
      OccursAtSingle(s, c);
    }
  }

  lemma OccursAtSingle(s: string, c: char)
    requires |s| > 0
    ensures OccursAt(s, [c], 0) <==> s[0] == c
  {
    assert s[0..1] == [s[0]];
  }

  lemma ReplaceAllHead(s: string, target: string, repl: string)
    requires |target| > 0 && |s| > 0
    ensures OccursAt(s, target, 0) ==> ReplaceAll(s, target, repl) == repl + ReplaceAll(s[|target|..], target, repl)
    ensures !OccursAt(s, target, 0) ==> ReplaceAll(s, target, repl) == [s[0]] + ReplaceAll(s[1..], target, repl)
  {
  }

  /** Concatenation is associative. */
  lemma Assoc(a: string, b: string, c: string)
    ensures (a + b) + c == a + (b + c)
  {
  }

  /** When `s` starts with `target`, replacement emits `repl` and continues after it. */
  lemma ReplaceAllAtMatch(x: string, target: string, repl: string)
    requires |target| > 0
    ensures ReplaceAll(target + x, target, repl) == repl + ReplaceAll(x, target, repl)
  {
    assert (target + x)[..|target|] == target;
    assert (target + x)[|target|..] == x;
  }

  /** When `s` starts with a character that cannot begin `target`, it is copied unchanged. */
  lemma ReplaceAllNoMatch(a: char, x: string, target: string, repl: string)
    requires |target| > 0 && a != target[0]
    ensures ReplaceAll([a] + x, target, repl) == [a] + ReplaceAll(x, target, repl)
  {
    var s := [a] + x;
    assert s[0] == a;
    assert !OccursAt(s, target, 0);
    assert s[1..] == x;
  }

  /**
    Encoding each `c` of `t` as `enc` and then replacing `enc` back by `c` recovers `t`,
    provided `t` never contains the first character of `enc`.
  */
  lemma {:induction false} ReplaceRoundTrip(t: string, c: char, enc: string, suffix: string)
    requires |enc| > 0 && enc[0] !in t
    ensures ReplaceAll(ReplaceAll(t, [c], enc) + suffix, enc, [c])
         == t + ReplaceAll(suffix, enc, [c])
    decreases |t|
  {
    if |t| == 0 {
      assert ReplaceAll(t, [c], enc) + suffix == suffix;
    } else {
      var rest := t[1..];
      assert t == [t[0]] + rest;
      assert enc[0] !in rest;
      ReplaceRoundTrip(rest, c, enc, suffix);
      var tail := ReplaceAll(rest, [c], enc);
      var back := ReplaceAll(suffix, enc, [c]);
      if t[0] == c {
        ReplaceAllAtMatch(rest, [c], enc);
        assert t == [c] + rest;
        assert ReplaceAll(t, [c], enc) == enc + tail;
        Assoc(enc, tail, suffix);
        ReplaceAllAtMatch(tail + suffix, enc, [c]);
        Assoc([c], rest, back);
      } else {
        ReplaceAllNoMatch(t[0], rest, [c], enc);
        assert ReplaceAll(t, [c], enc) == [t[0]] + tail;
        Assoc([t[0]], tail, suffix);
        ReplaceAllNoMatch(t[0], tail + suffix, enc, [c]);
        Assoc([t[0]], rest, back);
      }

    }
  }

  /** A text lacking some character of `pat` does not contain `pat`. */
  lemma CharMissing(s: string, pat: string, k: nat)
    requires k < |pat| && pat[k] !in s
    ensures !Contains(s, pat)
  {
    forall i | 0 <= i <= |s|
      ensures !OccursAt(s, pat, i)
    {
      if i + k < |s| {
        assert s[i + k] in s;
      }
    }
  }

  /** Strip removes a leading line break before an already stripped word. */
  lemma NewlineThenTrimmed(w: string)
    requires Trimmed(w, Whitespace)
    ensures Strip("\n" + w) == w
  {
    var t := "\n" + w;
    assert t[0] in Whitespace && t[1..] == w;
    assert TrimLeft(t, Whitespace) == TrimLeft(w, Whitespace);
    StripCharsOfTrimmed(w, Whitespace);
  }

  /** A word without whitespace is its own leading run. */
  lemma {:induction false} WordLengthOfWord(w: string)
    requires forall i :: 0 <= i < |w| ==> !IsSpace(w[i])
    ensures WordLength(w) == |w|
    decreases |w|
  {
    if |w| > 0 {
      WordLengthOfWord(w[1..]);
    }
  }

  /** A text without whitespace is one word. */
  lemma WordsOfWord(w: string)
    requires IsWord(w)
    ensures Words(w) == [w]
  {
    WordLengthOfWord(w);
    assert !IsSpace(w[0]);
    assert w[..|w|] == w && w[|w|..] == [];
    assert Words(w[|w|..]) == [];
  }
}
