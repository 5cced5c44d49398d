/**
  Skill extraction of the résumé parsers. The text of the skills section loses its bullet
  markers, is cut into lines, and every line is cut at delimiters (the basic parser also
  cuts at the word "and" between blanks). Every piece is cleaned and filtered, and the
  surviving pieces are de-duplicated in order of first appearance.
*/
module ResumeSkills {
  import opened Wrappers
  import opened Strings
  import Seqs
  import ResumeSections

  // ---------------------------------------------------------------------------
  // re.sub(r"^\s*[*•-]\s*", "", text, flags=re.MULTILINE)
  //
  // The scan is stated for any class `blanks` standing for `\s`, so that the lemmas about
  // it need not look inside the class; `StripMarkers` fixes it to `Whitespace`.

  /**
    Where the marker pattern ends when tried at `p`: blanks, one bullet, blanks. The
    leading `\s*` may run over line breaks; backtracking it cannot help, since a shorter
    run ends on a blank and a bullet is not blank.
  */
  function MarkerEnd(s: string, p: nat, blanks: set<char>): (e: Option<nat>)
    requires p <= |s|
    ensures e.Some? ==> p < e.value <= |s|
  {
    var a := p + RunLength(s, p, blanks);
    if a < |s| && s[a] in ResumeSections.Bullets then
      Some(a + 1 + RunLength(s, a + 1, blanks))
    else
      None
  }

  /** A marker consists of blanks and bullets only, with exactly one bullet outside the blanks. */
  lemma MarkerEndSpan(s: string, p: nat, blanks: set<char>)
    requires p <= |s| && MarkerEnd(s, p, blanks).Some?
    ensures forall i :: p <= i < MarkerEnd(s, p, blanks).value ==>
      s[i] in blanks || s[i] in ResumeSections.Bullets
    ensures |set i | p <= i < MarkerEnd(s, p, blanks).value && s[i] !in blanks| == 1
  {
    var a := p + RunLength(s, p, blanks);
    var e := MarkerEnd(s, p, blanks).value;
    assert (set i | p <= i < e && s[i] !in blanks) == {a};
  }

  /** There is no marker at `p` exactly when every bullet after `p` follows a non-blank. */
  lemma MarkerEndNone(s: string, p: nat, blanks: set<char>)
    requires p <= |s| && ResumeSections.Bullets !! blanks
    ensures MarkerEnd(s, p, blanks).None? <==> forall i :: p <= i < |s| && s[i] in ResumeSections.Bullets ==>
      exists j :: p <= j < i && s[j] !in blanks
  {
    var a := p + RunLength(s, p, blanks);
    if a < |s| && s[a] in ResumeSections.Bullets {
      assert forall j :: p <= j < a ==> s[j] in blanks;
    } else {
      forall i | p <= i < |s| && s[i] in ResumeSections.Bullets
        ensures exists j :: p <= j < i && s[j] !in blanks
      {
        assert a < i && s[a] !in blanks;
      }
    }
  }

  /** The scan of `re.sub` from `p`: a marker at the start of a line is dropped, any other character kept. */
  function RemoveMarkersFrom(s: string, p: nat, blanks: set<char>): (r: string)
    requires p <= |s|
    ensures |r| <= |s| - p
    decreases |s| - p
  {
    if p == |s| then []
    else if ResumeSections.LineStart(s, p) && MarkerEnd(s, p, blanks).Some? then
      RemoveMarkersFrom(s, MarkerEnd(s, p, blanks).value, blanks)
    else
      [s[p]] + RemoveMarkersFrom(s, p + 1, blanks)
  }

  /** The skills text without its bullet markers. */
  function StripMarkers(s: string): (r: string)
    ensures |r| <= |s|
  {
    RemoveMarkersFrom(s, 0, Whitespace)
  }

  /** A text in which no line starts with a marker. */
  predicate Unmarked(s: string, blanks: set<char>) {
    forall p :: 0 <= p < |s| && ResumeSections.LineStart(s, p) ==> MarkerEnd(s, p, blanks).None?
  }

  lemma {:induction false} RemoveNothingFrom(s: string, p: nat, blanks: set<char>)
    requires p <= |s| && Unmarked(s, blanks)
    ensures RemoveMarkersFrom(s, p, blanks) == s[p..]
    decreases |s| - p
  {
    if p < |s| {
      RemoveNothingFrom(s, p + 1, blanks);
      assert s[p..] == [s[p]] + s[p + 1..];
    }
  }

  /** A text without markers is left as it is. */
  lemma UnmarkedUnchanged(s: string)
    requires Unmarked(s, Whitespace)
    ensures StripMarkers(s) == s
  {
    RemoveNothingFrom(s, 0, Whitespace);
  }

  /** A single line is unmarked when it starts with neither a blank nor a bullet. */
  lemma OneLineUnmarked(s: string, blanks: set<char>)
    requires '\n' !in s
    requires s == [] || (s[0] !in blanks && s[0] !in ResumeSections.Bullets)
    ensures Unmarked(s, blanks)
  {
    forall p | 0 <= p < |s| && ResumeSections.LineStart(s, p)
      ensures MarkerEnd(s, p, blanks).None?
    {
    }
  }

  // ---------------------------------------------------------------------------
  // markers at line starts of a concatenation

  /** One step of the scan. */
  lemma RemoveMarkersStep(s: string, p: nat, blanks: set<char>)
    requires p < |s|
    ensures ResumeSections.LineStart(s, p) && MarkerEnd(s, p, blanks).Some? ==>
      RemoveMarkersFrom(s, p, blanks) == RemoveMarkersFrom(s, MarkerEnd(s, p, blanks).value, blanks)
    ensures !(ResumeSections.LineStart(s, p) && MarkerEnd(s, p, blanks).Some?) ==>
      RemoveMarkersFrom(s, p, blanks) == [s[p]] + RemoveMarkersFrom(s, p + 1, blanks)
  {
  }

  /** A marker is found alike in two texts that agree from the positions tried. */
  lemma MarkerEndSame(s: string, p: nat, t: string, q: nat, blanks: set<char>)
    requires p <= |s| && q <= |t| && s[p..] == t[q..]
    ensures MarkerEnd(s, p, blanks).Some? == MarkerEnd(t, q, blanks).Some?
    ensures MarkerEnd(s, p, blanks).Some? ==>
      MarkerEnd(s, p, blanks).value - p == MarkerEnd(t, q, blanks).value - q
  {
    RunLengthSame(s, p, t, q, blanks);
    var k := RunLength(s, p, blanks);
    if p + k < |s| {
      assert s[p + k] == s[p..][k] == t[q..][k] == t[q + k];
      assert s[p + k + 1..] == s[p..][k + 1..] == t[q..][k + 1..] == t[q + k + 1..];
      RunLengthSame(s, p + k + 1, t, q + k + 1, blanks);
    }
  }

  /** The scan from `p` depends only on the text from `p` on and on whether a line starts at `p`. */
  lemma {:induction false} RemoveMarkersSame(s: string, p: nat, t: string, q: nat, blanks: set<char>)
    requires p <= |s| && q <= |t| && s[p..] == t[q..]
    requires ResumeSections.LineStart(s, p) <==> ResumeSections.LineStart(t, q)
    ensures RemoveMarkersFrom(s, p, blanks) == RemoveMarkersFrom(t, q, blanks)
    decreases |s| - p
  {
    assert |s| - p == |t| - q;
    if p < |s| {
      var e, f := SameStep(s, p, t, q, blanks);
      RemoveMarkersSame(s, e, t, f, blanks);
    }
  }

  /**
    One step of the scan in two texts that agree from `p` and `q` on: both drop the same
    marker or both keep the same character, and they agree again where the step ends.
  */
  lemma SameStep(s: string, p: nat, t: string, q: nat, blanks: set<char>) returns (e: nat, f: nat)
    requires p < |s| && q <= |t| && s[p..] == t[q..]
    requires ResumeSections.LineStart(s, p) <==> ResumeSections.LineStart(t, q)
    ensures p < e <= |s| && f <= |t| && s[e..] == t[f..]
    ensures ResumeSections.LineStart(s, e) <==> ResumeSections.LineStart(t, f)
    ensures || (RemoveMarkersFrom(s, p, blanks) == RemoveMarkersFrom(s, e, blanks)
                && RemoveMarkersFrom(t, q, blanks) == RemoveMarkersFrom(t, f, blanks))
            || (RemoveMarkersFrom(s, p, blanks) == [s[p]] + RemoveMarkersFrom(s, e, blanks)
                && RemoveMarkersFrom(t, q, blanks) == [s[p]] + RemoveMarkersFrom(t, f, blanks))
  {
    assert s[p] == s[p..][0] == t[q..][0] == t[q];
    MarkerEndSame(s, p, t, q, blanks);
    RemoveMarkersStep(s, p, blanks);
    RemoveMarkersStep(t, q, blanks);
    if ResumeSections.LineStart(s, p) && MarkerEnd(s, p, blanks).Some? {
      e := MarkerEnd(s, p, blanks).value;
      f := MarkerEnd(t, q, blanks).value;
      AgreeFurther(s, p, t, q, e, f);
    } else {
      e, f := p + 1, q + 1;
      AgreeFurther(s, p, t, q, e, f);
    }
  }

  /** Texts that agree from `p` and `q` on agree from `e` and `f` on, as far past, and on line starts there. */
  lemma AgreeFurther(s: string, p: nat, t: string, q: nat, e: nat, f: nat)
    requires p <= |s| && q <= |t| && s[p..] == t[q..]
    requires p < e <= |s| && e - p == f - q
    ensures f <= |t| && s[e..] == t[f..]
    ensures ResumeSections.LineStart(s, e) <==> ResumeSections.LineStart(t, f)
  {
    var d := e - p;
    assert s[e..] == s[p..][d..];
    assert t[f..] == t[q..][d..];
    assert s[e - 1] == s[p..][d - 1];
    assert t[f - 1] == t[q..][d - 1];
  }

  /** After a line break the scan behaves as on the text that follows it. */
  lemma RemoveMarkersShift(a: string, b: string, q: nat, blanks: set<char>)
    requires q <= |b| && (a == [] || a[|a| - 1] == '\n')
    ensures RemoveMarkersFrom(a + b, |a| + q, blanks) == RemoveMarkersFrom(b, q, blanks)
  {
    var s := a + b;
    assert s[|a| + q..] == b[q..];
    if q > 0 {
      assert s[|a| + q - 1] == b[q - 1];
    }
    RemoveMarkersSame(s, |a| + q, b, q, blanks);
  }

  /** Position `i` lies inside a line: it is not the start of the text and follows no line break. */
  predicate MidLine(s: string, i: nat) {
    0 < i <= |s| && s[i - 1] != '\n'
  }

  /** Characters away from line starts are copied. */
  lemma {:induction false} RemoveMarkersCopies(s: string, p: nat, q: nat, blanks: set<char>)
    requires p <= q <= |s|
    requires forall i :: p <= i < q ==> MidLine(s, i)
    ensures RemoveMarkersFrom(s, p, blanks) == s[p..q] + RemoveMarkersFrom(s, q, blanks)
    decreases q - p
  {
    if p < q {
      assert MidLine(s, p);
      calc {
        RemoveMarkersFrom(s, p, blanks);
        [s[p]] + RemoveMarkersFrom(s, p + 1, blanks);
        { RemoveMarkersCopies(s, p + 1, q, blanks); }
        [s[p]] + (s[p + 1..q] + RemoveMarkersFrom(s, q, blanks));
        { assert s[p..q] == [s[p]] + s[p + 1..q]; }
        s[p..q] + RemoveMarkersFrom(s, q, blanks);
      }
    } else {
      assert s[p..q] == [];
    }
  }

  /** `"- " + x`, a bulleted list item. */
  function Bulleted(x: string): string {
    "- " + x
  }

  /** The bulleted form of every item. */
  function BulletedAll(xs: seq<string>): (bs: seq<string>)
    ensures |bs| == |xs|
    ensures forall k :: 0 <= k < |xs| ==> bs[k] == Bulleted(xs[k])
  {
    seq(|xs|, k requires 0 <= k < |xs| => Bulleted(xs[k]))
  }

  /** Items that survive as lines: non-empty, starting with a non-blank, without line breaks. */
  predicate ListItem(x: string, blanks: set<char>) {
    x != [] && x[0] !in blanks && '\n' !in x
  }

  /** Removing the markers of a bulleted list, one item per line, leaves the items. */
  lemma {:induction false} BulletedListUnmarked(xs: seq<string>, blanks: set<char>)
    requires ' ' in blanks && '-' !in blanks
    requires forall k :: 0 <= k < |xs| ==> ListItem(xs[k], blanks)
    ensures RemoveMarkersFrom(Join("\n", BulletedAll(xs)), 0, blanks) == Join("\n", xs)
    decreases |xs|
  {
    var bs := BulletedAll(xs);
    if |xs| > 0 {
      var x := xs[0];
      assert ListItem(x, blanks);
      if |xs| == 1 {
        assert Join("\n", bs) == Bulleted(x) + [];
        ItemCopied(x, [], blanks);
      } else {
        var rest := BulletedAll(xs[1..]);
        assert bs[1..] == rest;
        assert Join("\n", bs) == Bulleted(x) + ("\n" + Join("\n", rest));
        BulletedListUnmarked(xs[1..], blanks);
        ItemLineCopied(x, Join("\n", rest), blanks);
      }
    }
  }

  /** The marker of a bulleted line is dropped and its item copied up to the end of the line. */
  lemma ItemCopied(x: string, y: string, blanks: set<char>)
    requires ' ' in blanks && '-' !in blanks && ListItem(x, blanks)
    ensures RemoveMarkersFrom(Bulleted(x) + y, 0, blanks)
      == x + RemoveMarkersFrom(Bulleted(x) + y, |x| + 2, blanks)
  {
    var s := Bulleted(x) + y;
    assert s[0] == '-' && s[1] == ' ' && s[2] == x[0];
    assert MarkerEnd(s, 0, blanks) == Some(2);
    forall i | 2 <= i < |x| + 2
      ensures MidLine(s, i)
    {
      if i > 2 {
        assert s[i - 1] == x[i - 3];
        assert x[i - 3] in x;
      }
    }
    RemoveMarkersCopies(s, 2, |x| + 2, blanks);
    assert s[2..|x| + 2] == x;
  }

  /** A bulleted item line followed by more lines loses its marker and keeps its line break. */
  lemma ItemLineCopied(x: string, rest: string, blanks: set<char>)
    requires ' ' in blanks && '-' !in blanks && ListItem(x, blanks)
    ensures RemoveMarkersFrom(Bulleted(x) + ("\n" + rest), 0, blanks)
      == x + "\n" + RemoveMarkersFrom(rest, 0, blanks)
  {
    var a := Bulleted(x) + "\n";
    var s := a + rest;
    assert s == Bulleted(x) + ("\n" + rest);
    ItemCopied(x, "\n" + rest, blanks);
    var b := |x| + 2;
    assert |a| == b + 1 && s[b] == '\n';
    assert s[b - 1] == x[|x| - 1] && x[|x| - 1] in x;
    assert !ResumeSections.LineStart(s, b);
    RemoveMarkersStep(s, b, blanks);
    assert RemoveMarkersFrom(s, b, blanks) == "\n" + RemoveMarkersFrom(s, |a|, blanks);
    RemoveMarkersShift(a, rest, 0, blanks);
  }

  /** Removing the markers of a bulleted list, one item per line, leaves the items. */
  lemma BulletedListStripped(xs: seq<string>)
    requires forall k :: 0 <= k < |xs| ==> ListItem(xs[k], Whitespace)
    ensures StripMarkers(Join("\n", BulletedAll(xs))) == Join("\n", xs)
  {
    BulletedListUnmarked(xs, Whitespace);
  }

  // ---------------------------------------------------------------------------
  // re.split(r'[,;/]\s*|\s+and\s+', line, flags=re.IGNORECASE)   (basic parser)
  // re.split(r'[,;/]\s*', line)                                  (advanced parser)

  const Delimiters: set<char> := {',', ';', '/'}

  lemma DelimitersNotBlank()
    ensures Delimiters !! Whitespace
  {
    forall c | c in Delimiters
      ensures c !in Whitespace
    {
    }
  }

  /** The word "and" in any letter case at `q`. */
  predicate AndAt(s: string, q: nat) {
    q + 3 <= |s| && LowerChar(s[q]) == 'a' && LowerChar(s[q + 1]) == 'n' && LowerChar(s[q + 2]) == 'd'
  }

  /**
    Where `\s+and\s+` tried at a blank at `q` ends. Both blank runs are greedy; backtracking
    the first cannot help, since a shorter run ends on a blank and not on an "a".
  */
  function AndSeparatorAt(s: string, q: nat, blanks: set<char>): (e: Option<nat>)
    requires q <= |s|
    ensures e.Some? ==> q + 4 <= e.value <= |s|
  {
    var r := q + RunLength(s, q, blanks);
    if AndAt(s, r) && r + 3 < |s| && s[r + 3] in blanks then
      Some(r + 4 + RunLength(s, r + 4, blanks))
    else
      None
  }

  /**
    Where a match of the split pattern tried at `q` ends. A delimiter takes the blanks
    after it; the basic parser also matches blanks, "and", blanks.
  */
  function SeparatorAt(v: ResumeSections.Variant, s: string, q: nat, blanks: set<char>): (e: Option<nat>)
    requires q <= |s|
    ensures e.Some? ==> q < e.value <= |s|
    ensures q < |s| && s[q] in Delimiters ==> e.Some?
  {
    if q < |s| && s[q] in Delimiters then
      Some(q + 1 + RunLength(s, q + 1, blanks))
    else if v == ResumeSections.Advanced || q == |s| || s[q] !in blanks then
      None
    else
      AndSeparatorAt(s, q, blanks)
  }

  /** The leftmost match at or after `q`, as its start and end. */
  function FirstSeparator(v: ResumeSections.Variant, s: string, q: nat, blanks: set<char>): (m: Option<(nat, nat)>)
    requires q <= |s|
    ensures m.Some? ==> q <= m.value.0 <= |s| && SeparatorAt(v, s, m.value.0, blanks) == Some(m.value.1)
    ensures m.Some? ==> forall j :: q <= j < m.value.0 ==> SeparatorAt(v, s, j, blanks).None?
    ensures m.None? ==> forall j :: q <= j <= |s| ==> SeparatorAt(v, s, j, blanks).None?
    decreases |s| - q
  {
    if q == |s| then None
    else match SeparatorAt(v, s, q, blanks)
      case Some(e) => Some((q, e))
      case None => FirstSeparator(v, s, q + 1, blanks)
  }

  /** `re.split`: the text before the first match, then the split of the text after it. */
  function Pieces(v: ResumeSections.Variant, line: string, blanks: set<char>): (ps: seq<string>)
    ensures |ps| >= 1
    decreases |line|
  {
    match FirstSeparator(v, line, 0, blanks)
    case None => [line]
    case Some((q, e)) => [line[..q]] + Pieces(v, line[e..], blanks)
  }

  /** No piece holds a delimiter: every delimiter starts a match. */
  lemma {:induction false} PiecesAvoidDelimiters(v: ResumeSections.Variant, line: string, blanks: set<char>)
    ensures forall k, i :: 0 <= k < |Pieces(v, line, blanks)| && 0 <= i < |Pieces(v, line, blanks)[k]| ==>
      Pieces(v, line, blanks)[k][i] !in Delimiters
    decreases |line|
  {
    var ps := Pieces(v, line, blanks);
    match FirstSeparator(v, line, 0, blanks)
    case None =>
      assert ps == [line];
      forall i | 0 <= i < |line|
        ensures line[i] !in Delimiters
      {
        assert SeparatorAt(v, line, i, blanks).None?;
      }
    case Some((q, e)) =>
      var rest := Pieces(v, line[e..], blanks);
      assert ps == [line[..q]] + rest;
      PiecesAvoidDelimiters(v, line[e..], blanks);
      forall k, i | 0 <= k < |ps| && 0 <= i < |ps[k]|
        ensures ps[k][i] !in Delimiters
      {
        if k == 0 {
          assert ps[k][i] == line[i];
          assert SeparatorAt(v, line, i, blanks).None?;
        } else {
          assert ps[k] == rest[k - 1];
        }
      }
  }

  /** A piece that `re.split` leaves whole: no match inside and no blank to start with. */
  predicate Separated(v: ResumeSections.Variant, x: string, blanks: set<char>) {
    && (x == [] || x[0] !in blanks)
    && forall q :: 0 <= q < |x| ==> SeparatorAt(v, x, q, blanks).None?
  }

  /** A match inside `x` does not see a text after `x` that starts with a delimiter. */
  lemma SeparatorBeforeDelimiter(v: ResumeSections.Variant, x: string, y: string, q: nat, blanks: set<char>)
    requires q < |x| && y != [] && y[0] in Delimiters && Delimiters !! blanks
    ensures SeparatorAt(v, x + y, q, blanks) == SeparatorAt(v, x, q, blanks)
  {
    assert (x + y)[q] == x[q];
    assert y[0] !in blanks;
    if x[q] in Delimiters {
      RunLengthPrefix(x, y, q + 1, blanks);
    } else if v == ResumeSections.Basic && x[q] in blanks {
      AndBeforeDelimiter(x, y, q, blanks);
    }
  }

  lemma AndBeforeDelimiter(x: string, y: string, q: nat, blanks: set<char>)
    requires q < |x| && y != [] && y[0] in Delimiters && y[0] !in blanks
    ensures AndSeparatorAt(x + y, q, blanks) == AndSeparatorAt(x, q, blanks)
  {
    RunLengthPrefix(x, y, q, blanks);
    var r := q + RunLength(x, q, blanks);
    if r + 3 < |x| {
      AndWithin(x, y, q, r, blanks);
    } else {
      AndAcrossEnd(x, y, q, r, blanks);
    }
  }

  /** An "and" that ends inside `x` is seen alike in `x` and in `x + y`. */
  lemma AndWithin(x: string, y: string, q: nat, r: nat, blanks: set<char>)
    requires q <= |x| && y != [] && y[0] !in blanks
    requires r == q + RunLength(x, q, blanks) == q + RunLength(x + y, q, blanks) && r + 3 < |x|
    ensures AndSeparatorAt(x + y, q, blanks) == AndSeparatorAt(x, q, blanks)
  {
    AndInside(x, y, r, blanks);
  }

  /** An "and" that would reach `y`, which starts with a delimiter, matches in neither text. */
  lemma AndAcrossEnd(x: string, y: string, q: nat, r: nat, blanks: set<char>)
    requires q <= |x| && y != [] && y[0] in Delimiters && y[0] !in blanks
    requires r == q + RunLength(x, q, blanks) == q + RunLength(x + y, q, blanks) && |x| <= r + 3
    ensures AndSeparatorAt(x + y, q, blanks) == None && AndSeparatorAt(x, q, blanks) == None
  {
    var s := x + y;
    assert !(AndAt(s, r) && r + 3 < |s| && s[r + 3] in blanks) by {
      if r + 3 == |x| {
        assert s[r + 3] == y[0];
      } else if r + 3 <= |s| {
        assert s[|x|] == y[0];
      }
    }
  }

  lemma AndInside(x: string, y: string, r: nat, blanks: set<char>)
    requires r + 3 < |x| && y != [] && y[0] !in blanks
    ensures AndAt(x + y, r) == AndAt(x, r)
    ensures (x + y)[r + 3] == x[r + 3]
    ensures RunLength(x + y, r + 4, blanks) == RunLength(x, r + 4, blanks)
  {
    var s := x + y;
    assert s[r] == x[r] && s[r + 1] == x[r + 1] && s[r + 2] == x[r + 2];
    RunLengthPrefix(x, y, r + 4, blanks);
  }

  /** The leftmost match is the one at `m` when none starts between `q` and `m`. */
  lemma {:induction false} FirstSeparatorIs(v: ResumeSections.Variant, s: string, q: nat, m: nat, e: nat, blanks: set<char>)
    requires q <= m < |s|
    requires forall j :: q <= j < m ==> SeparatorAt(v, s, j, blanks).None?
    requires SeparatorAt(v, s, m, blanks) == Some(e)
    ensures FirstSeparator(v, s, q, blanks) == Some((m, e))
    decreases m - q
  {
    if q < m {
      assert SeparatorAt(v, s, q, blanks).None?;
      FirstSeparatorIs(v, s, q + 1, m, e, blanks);
    }
  }

  /** A separated text is one piece. */
  lemma SeparatedWhole(v: ResumeSections.Variant, x: string, blanks: set<char>)
    requires Separated(v, x, blanks)
    ensures Pieces(v, x, blanks) == [x]
  {
  }

  /** A list joined with `", "` starts with neither a blank nor, unless empty, anything but its first item. */
  lemma JoinStartsUnblank(xs: seq<string>, blanks: set<char>)
    requires ' ' !in Delimiters && Delimiters !! blanks
    requires forall k :: 0 <= k < |xs| ==> xs[k] == [] || xs[k][0] !in blanks
    ensures Join(", ", xs) == [] || Join(", ", xs)[0] !in blanks
  {
    if |xs| > 1 {
      assert Join(", ", xs) == xs[0] + ", " + Join(", ", xs[1..]);
      if xs[0] == [] {
        assert Join(", ", xs)[0] == ',';
      } else {
        assert Join(", ", xs)[0] == xs[0][0];
      }
    }
  }

  /** The first match in `x + ", " + rest` is the comma with its one blank. */
  lemma CommaAfterSeparated(v: ResumeSections.Variant, x: string, rest: string, blanks: set<char>)
    requires Separated(v, x, blanks) && ' ' in blanks && Delimiters !! blanks
    requires rest == [] || rest[0] !in blanks
    ensures FirstSeparator(v, x + (", " + rest), 0, blanks) == Some((|x|, |x| + 2))
  {
    var s := x + (", " + rest);
    forall j | 0 <= j < |x|
      ensures SeparatorAt(v, s, j, blanks).None?
    {
      SeparatorBeforeDelimiter(v, x, ", " + rest, j, blanks);
    }
    assert SeparatorAt(v, s, |x|, blanks) == Some(|x| + 2) by {
      assert s[|x|] == ',' && s[|x| + 1] == ' ';
      if rest != [] {
        assert s[|x| + 2] == rest[0];
      }
    }
    FirstSeparatorIs(v, s, 0, |x|, |x| + 2, blanks);
  }

  /** `re.split` undoes joining with `", "` when no item holds a match. */
  lemma {:induction false} PiecesOfJoin(v: ResumeSections.Variant, xs: seq<string>, blanks: set<char>)
    requires |xs| > 0 && ' ' in blanks && Delimiters !! blanks
    requires forall k :: 0 <= k < |xs| ==> Separated(v, xs[k], blanks)
    ensures Pieces(v, Join(", ", xs), blanks) == xs
    decreases |xs|
  {
    var x := xs[0];
    assert Separated(v, x, blanks);
    if |xs| == 1 {
      SeparatedWhole(v, x, blanks);
    } else {
      var rest := Join(", ", xs[1..]);
      var s := x + (", " + rest);
      assert Join(", ", xs) == s;
      assert rest == [] || rest[0] !in blanks by {
        assert forall k :: 0 <= k < |xs[1..]| ==> Separated(v, xs[1..][k], blanks);
        JoinStartsUnblank(xs[1..], blanks);
      }
      CommaAfterSeparated(v, x, rest, blanks);
      assert s[..|x|] == x && s[|x| + 2..] == rest;
      PiecesOfJoin(v, xs[1..], blanks);
    }
  }

  // ---------------------------------------------------------------------------
  // cleaning and filtering

  /** Fluff words the basic parser drops, compared in lower case. */
  const BasicFluff: set<string> := {"etc", "various", "other", "strong", "excellent", "proficient", "experience"}

  /** Stop words the advanced parser drops, compared in lower case. */
  const AdvancedStopWords: set<string> := {"and", "or", "the", "of", "in", "at", "with", "for"}

  /** `skill.strip().rstrip('.').strip()` in the basic parser, `skill.strip()` in the advanced one. */
  function Clean(v: ResumeSections.Variant, raw: string): string {
    match v
    case Basic => Strip(TrimRight(Strip(raw), {'.'}))
    case Advanced => Strip(raw)
  }

  /** A cleaned piece is stripped and keeps only characters of the raw piece. */
  lemma CleanShape(v: ResumeSections.Variant, raw: string)
    ensures Trimmed(Clean(v, raw), Whitespace)
    ensures forall c :: c in Clean(v, raw) ==> c in raw
  {
    if v == ResumeSections.Basic {
      StripTrimStripShape(raw, Whitespace, {'.'});
    } else {
      StripCharsChars(raw, Whitespace);
      StripCharsIsTrimmedInfix(raw, Whitespace);
    }
  }

  /** Stripping, trimming the right end and stripping again keeps a trimmed part of the input. */
  lemma StripTrimStripShape(raw: string, cs: set<char>, tail: set<char>)
    ensures Trimmed(StripChars(TrimRight(StripChars(raw, cs), tail), cs), cs)
    ensures forall c :: c in StripChars(TrimRight(StripChars(raw, cs), tail), cs) ==> c in raw
  {
    var once := StripChars(raw, cs);
    var cut := TrimRight(once, tail);
    StripCharsChars(raw, cs);
    StripCharsChars(cut, cs);
    StripCharsIsTrimmedInfix(cut, cs);
    forall c | c in cut
      ensures c in once
    {
      var i :| 0 <= i < |cut| && cut[i] == c;
      assert cut[i] == once[i];
    }
  }

  /** `re.search(r'[a-zA-Z]', skill)` */
  predicate HasLetter(s: string) {
    exists i :: 0 <= i < |s| && IsLetter(s[i])
  }

  /** `skill.isdigit()`, for decimal digits. */
  predicate IsDigits(s: string) {
    s != [] && forall i :: 0 <= i < |s| ==> IsDigit(s[i])
  }

  /** The filter a cleaned piece must pass to count as a skill. */
  predicate Keep(v: ResumeSections.Variant, c: string) {
    match v
    case Basic =>
      && c != [] && 1 < |c| < 35 && HasLetter(c) && !IsDigits(c)
      && Lower(c) !in BasicFluff && |Words(c)| <= 4
    case Advanced =>
      && c != [] && 2 <= |c| <= 50 && !IsDigits(c) && Lower(c) !in AdvancedStopWords
  }

  /** In the basic parser the digit test never rejects anything: a letter is not a digit. */
  lemma LetterIsNotDigits(c: string)
    requires HasLetter(c)
    ensures !IsDigits(c)
  {
    var i :| 0 <= i < |c| && IsLetter(c[i]);
    assert !IsDigit(c[i]);
  }

  /** Every raw piece cleaned, in order, keeping those that pass the filter. */
  function Processed(v: ResumeSections.Variant, raws: seq<string>): seq<string> {
    Seqs.FilterMap(raws, raw => Clean(v, raw), c => Keep(v, c))
  }

  /** A processed skill is exactly a kept cleaning of some raw piece. */
  lemma ProcessedMembers(v: ResumeSections.Variant, raws: seq<string>, x: string)
    ensures x in Processed(v, raws) <==>
      Keep(v, x) && exists i :: 0 <= i < |raws| && Clean(v, raws[i]) == x
  {
    Seqs.FilterMapMembers(raws, raw => Clean(v, raw), c => Keep(v, c), x);
  }

  /** Every processed skill passes the filter. */
  lemma ProcessedKept(v: ResumeSections.Variant, raws: seq<string>)
    ensures forall i :: 0 <= i < |Processed(v, raws)| ==> Keep(v, Processed(v, raws)[i])
  {
    forall i | 0 <= i < |Processed(v, raws)|
      ensures Keep(v, Processed(v, raws)[i])
    {
      ProcessedMembers(v, raws, Processed(v, raws)[i]);
    }
  }

  /** Pieces that are already clean and pass the filter come through unchanged. */
  lemma ProcessedOfClean(v: ResumeSections.Variant, raws: seq<string>)
    requires forall i :: 0 <= i < |raws| ==> Clean(v, raws[i]) == raws[i] && Keep(v, raws[i])
    ensures Processed(v, raws) == raws
  {
    Seqs.FilterMapFixed(raws, raw => Clean(v, raw), c => Keep(v, c));
  }

  // ---------------------------------------------------------------------------
  // extract_skills

  /** The pieces of every line, one line after the other. */
  function LinePieces(v: ResumeSections.Variant, lines: seq<string>): seq<string>
    decreases |lines|
  {
    if |lines| == 0 then [] else Pieces(v, lines[0], Whitespace) + LinePieces(v, lines[1..])
  }

  /** The raw pieces of a skills text: markers removed, split into lines, each line split. */
  function RawSkills(v: ResumeSections.Variant, text: string): seq<string> {
    LinePieces(v, Split(StripMarkers(text), "\n"))
  }

  /** `extract_skills(skills_text)` of either parser. */
  function ExtractSkills(v: ResumeSections.Variant, text: string): (skills: seq<string>)
    ensures Seqs.NoDuplicates(skills)
    ensures forall i :: 0 <= i < |skills| ==> Keep(v, skills[i])
  {
    if text == "" then []
    else
      var kept := Processed(v, RawSkills(v, text));
      ProcessedKept(v, RawSkills(v, text));
      Seqs.Dedupe(kept)
  }

  // ---------------------------------------------------------------------------
  // what the extracted skills are

  /** A skill is a kept cleaning of a raw piece of the text. */
  lemma SkillsMembers(v: ResumeSections.Variant, text: string, x: string)
    ensures x in ExtractSkills(v, text) <==>
      && text != ""
      && Keep(v, x)
      && exists i :: 0 <= i < |RawSkills(v, text)| && Clean(v, RawSkills(v, text)[i]) == x
  {
    if text != "" {
      ProcessedMembers(v, RawSkills(v, text), x);
    }
  }

  /** Skills come in the order in which they are first produced. */
  lemma SkillsInFirstOrder(v: ResumeSections.Variant, text: string)
    requires text != ""
    ensures var kept := Processed(v, RawSkills(v, text)); var skills := ExtractSkills(v, text);
      forall i, j :: 0 <= i < j < |skills| ==> Seqs.IndexOf(kept, skills[i]) < Seqs.IndexOf(kept, skills[j])
  {
    Seqs.DedupeOrder(Processed(v, RawSkills(v, text)));
  }

  /** No line break and no delimiter. */
  predicate Bare(x: string) {
    forall i :: 0 <= i < |x| ==> x[i] !in Delimiters && x[i] != '\n'
  }

  /** Every character of a piece comes from the line. */
  lemma {:induction false} PiecesChars(v: ResumeSections.Variant, line: string, blanks: set<char>)
    ensures forall k, c :: 0 <= k < |Pieces(v, line, blanks)| && c in Pieces(v, line, blanks)[k] ==> c in line
    decreases |line|
  {
    var ps := Pieces(v, line, blanks);
    match FirstSeparator(v, line, 0, blanks)
    case None =>
    case Some((q, e)) =>
      var rest := Pieces(v, line[e..], blanks);
      assert ps == [line[..q]] + rest;
      PiecesChars(v, line[e..], blanks);
      forall k, c | 0 <= k < |ps| && c in ps[k]
        ensures c in line
      {
        if k == 0 {
          var i :| 0 <= i < q && line[..q][i] == c;
          assert line[i] == c;
        } else {
          assert ps[k] == rest[k - 1];
          assert c in line[e..];
          var i :| 0 <= i < |line[e..]| && line[e..][i] == c;
          assert line[e + i] == c;
        }
      }
  }

  /** The pieces of lines without line breaks are bare. */
  lemma {:induction false} LinePiecesBare(v: ResumeSections.Variant, lines: seq<string>)
    requires forall k :: 0 <= k < |lines| ==> '\n' !in lines[k]
    ensures forall i :: 0 <= i < |LinePieces(v, lines)| ==> Bare(LinePieces(v, lines)[i])
    decreases |lines|
  {
    if |lines| > 0 {
      var ps := Pieces(v, lines[0], Whitespace);
      var rest := LinePieces(v, lines[1..]);
      LinePiecesBare(v, lines[1..]);
      PiecesChars(v, lines[0], Whitespace);
      PiecesAvoidDelimiters(v, lines[0], Whitespace);
      forall i | 0 <= i < |ps + rest|
        ensures Bare((ps + rest)[i])
      {
        if i < |ps| {
          assert (ps + rest)[i] == ps[i];
          forall j | 0 <= j < |ps[i]|
            ensures ps[i][j] != '\n'
          {
            assert ps[i][j] in ps[i];
          }
        } else {
          assert (ps + rest)[i] == rest[i - |ps|];
        }
      }
    }
  }

  /** Skills hold no line break and none of `,`, `;`, `/`. */
  lemma SkillsBare(v: ResumeSections.Variant, text: string)
    ensures forall i :: 0 <= i < |ExtractSkills(v, text)| ==> Bare(ExtractSkills(v, text)[i])
  {
    var lines := Split(StripMarkers(text), "\n");
    forall k | 0 <= k < |lines|
      ensures '\n' !in lines[k]
    {
      SplitPartsAvoid(StripMarkers(text), "\n");
      ContainsChar(lines[k], '\n');
    }
    LinePiecesBare(v, lines);
    var raws := RawSkills(v, text);
    forall i | 0 <= i < |ExtractSkills(v, text)|
      ensures Bare(ExtractSkills(v, text)[i])
    {
      var x := ExtractSkills(v, text)[i];
      SkillsMembers(v, text, x);
      var j :| 0 <= j < |raws| && Clean(v, raws[j]) == x;
      CleanShape(v, raws[j]);
      forall m | 0 <= m < |x|
        ensures x[m] !in Delimiters && x[m] != '\n'
      {
        assert x[m] in x;
        var n :| 0 <= n < |raws[j]| && raws[j][n] == x[m];
      }
    }
  }

  /** Skipping an empty text agrees with processing it: it yields no pieces that pass. */
  lemma EmptyTextHasNoSkills(v: ResumeSections.Variant)
    ensures Processed(v, RawSkills(v, "")) == []
  {
    assert StripMarkers("") == "";
    SplitWithoutSeparator("", "\n");
    SeparatedWhole(v, "", Whitespace);
    assert RawSkills(v, "") == [""];
    assert Clean(v, "") == "";
    ProcessedMembers(v, [""], "");
  }

  // ---------------------------------------------------------------------------
  // round trips

  /** A list of skills that the parser reads back as written. */
  predicate Readable(v: ResumeSections.Variant, xs: seq<string>) {
    && Seqs.NoDuplicates(xs)
    && forall k :: 0 <= k < |xs| ==>
      && Keep(v, xs[k]) && Clean(v, xs[k]) == xs[k]
      && Separated(v, xs[k], Whitespace) && '\n' !in xs[k]
  }

  /** Skills written one per line as a bulleted list are read back as written. */
  lemma SkillsOfBulletedList(v: ResumeSections.Variant, xs: seq<string>)
    requires Readable(v, xs)
    ensures ExtractSkills(v, Join("\n", BulletedAll(xs))) == xs
  {
    if |xs| > 0 {
      var text := Join("\n", BulletedAll(xs));
      assert text != "" by {
        JoinStartsWithFirst("\n", BulletedAll(xs));
      }
      forall k | 0 <= k < |xs|
        ensures ListItem(xs[k], Whitespace) && !Contains(xs[k], "\n")
      {
        ContainsChar(xs[k], '\n');
      }
      BulletedListStripped(xs);
      SplitJoin("\n", xs);
      assert RawSkills(v, text) == xs by {
        LinePiecesOfSeparated(v, xs);
      }
      ProcessedOfClean(v, xs);
      Seqs.DedupeOfDistinct(xs);
    }
  }

  /** Skills written on one line separated by `", "` are read back as written. */
  lemma SkillsOfCommaList(v: ResumeSections.Variant, xs: seq<string>)
    requires Readable(v, xs)
    requires |xs| > 0 ==> xs[0][0] !in ResumeSections.Bullets
    ensures ExtractSkills(v, Join(", ", xs)) == xs
  {
    if |xs| > 0 {
      RawSkillsOfCommaList(v, xs);
      SkillsOfRaw(v, Join(", ", xs), xs);
    }
  }

  /** A text whose raw pieces are distinct, clean and kept yields exactly those pieces. */
  lemma SkillsOfRaw(v: ResumeSections.Variant, text: string, xs: seq<string>)
    requires text != "" && RawSkills(v, text) == xs && Seqs.NoDuplicates(xs)
    requires forall k :: 0 <= k < |xs| ==> Clean(v, xs[k]) == xs[k] && Keep(v, xs[k])
    ensures ExtractSkills(v, text) == xs
  {
    ProcessedOfClean(v, xs);
    Seqs.DedupeOfDistinct(xs);
  }

  /** The raw pieces of a one-line list separated by `", "` are its items. */
  lemma RawSkillsOfCommaList(v: ResumeSections.Variant, xs: seq<string>)
    requires |xs| > 0 && xs[0] != [] && xs[0][0] !in ResumeSections.Bullets
    requires forall k :: 0 <= k < |xs| ==> Separated(v, xs[k], Whitespace) && '\n' !in xs[k]
    ensures Join(", ", xs) != "" && RawSkills(v, Join(", ", xs)) == xs
  {
    var text := Join(", ", xs);
    JoinStartsWithFirst(", ", xs);
    assert text[0] == xs[0][0];
    assert Separated(v, xs[0], Whitespace);
    JoinAvoidsChar(", ", xs, '\n');
    OneLineUnmarked(text, Whitespace);
    UnmarkedUnchanged(text);
    ContainsChar(text, '\n');
    SplitWithoutSeparator(text, "\n");
    DelimitersNotBlank();
    PiecesOfJoin(v, xs, Whitespace);
    assert LinePieces(v, [text]) == Pieces(v, text, Whitespace) + LinePieces(v, []);
  }

  /** Lines that are single pieces give their pieces in order. */
  lemma {:induction false} LinePiecesOfSeparated(v: ResumeSections.Variant, xs: seq<string>)
    requires forall k :: 0 <= k < |xs| ==> Separated(v, xs[k], Whitespace)
    ensures LinePieces(v, xs) == xs
    decreases |xs|
  {
    if |xs| > 0 {
      SeparatedWhole(v, xs[0], Whitespace);
      LinePiecesOfSeparated(v, xs[1..]);
    }
  }
}
