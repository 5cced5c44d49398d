/**
  Section splitting of the résumé parsers. A header is a known keyword at the start of a
  line, possibly after blanks and one bullet, followed by a colon or a line break; keywords
  match ignoring case. The text between one header and the next belongs to the earlier
  header, stripped; a header seen twice collects its pieces joined by line breaks. The two
  parser variants differ only in whether "competencies" is a keyword.
*/
module ResumeSections {
  import opened Wrappers
  import opened Strings

  /** The basic parser (`utils/resume_parser.py`) or the advanced one (`resume_parser_advanced.py`). */
  datatype Variant = Basic | Advanced

  const BasicKeywords: seq<string> := [
    "summary", "objective", "profile",
    "experience", "work experience", "professional experience", "employment history",
    "education", "academic background",
    "skills", "technical skills", "proficiencies", "competencies",
    "projects", "personal projects",
    "certifications", "licenses",
    "awards", "honors",
    "publications",
    "references"
  ]

  const AdvancedKeywords: seq<string> := [
    "summary", "objective", "profile",
    "experience", "work experience", "professional experience", "employment history",
    "education", "academic background",
    "skills", "technical skills", "proficiencies",
    "projects", "personal projects",
    "certifications", "licenses",
    "awards", "honors",
    "publications",
    "references"
  ]

  function Keywords(v: Variant): seq<string> {
    if v == Basic then BasicKeywords else AdvancedKeywords
  }

  /** The bullet class `[-*•]`. */
  const Bullets: set<char> := {'-', '*', '\U{2022}'}

  // ---------------------------------------------------------------------------
  // the header pattern  ^(?:\s*[-*•]?\s*)(KEYWORD)(?:\s*:|\s*\n)

  /** `^` under `re.MULTILINE`: the start of the text or of a line. */
  predicate LineStart(s: string, p: nat) {
    p == 0 || (0 < p <= |s| && s[p - 1] == '\n')
  }

  /**
    Where `(?:\s*[-*•]?\s*)` leaves the scan when it starts at `p`: blanks, at most one
    bullet, blanks. Every keyword starts with a letter, so backtracking inside this group
    never moves the position at which the keyword is tried.
  */
  function LeadEnd(s: string, p: nat): (k: nat)
    requires p <= |s|
    ensures p <= k <= |s|
  {
    var a := p + RunLength(s, p, Whitespace);
    if a < |s| && s[a] in Bullets then a + 1 + RunLength(s, a + 1, Whitespace) else a
  }

  /** The last position in `[lo, hi)` holding a line break, plus one. */
  function NewlineAfter(s: string, lo: nat, hi: nat): (r: Option<nat>)
    requires lo <= hi <= |s|
    ensures r.Some? ==> lo < r.value <= hi && s[r.value - 1] == '\n'
    ensures r.Some? ==> forall j :: r.value <= j < hi ==> s[j] != '\n'
    ensures r.None? ==> forall j :: lo <= j < hi ==> s[j] != '\n'
    decreases hi - lo
  {
    if hi == lo then None
    else if s[hi - 1] == '\n' then Some(hi)
    else NewlineAfter(s, lo, hi - 1)
  }

  /**
    `(?:\s*:|\s*\n)` at `e`: a colon after the blanks, or else the blanks up to their last
    line break (the greedy `\s*` gives back characters until a `\n` follows).
  */
  function HeaderEnd(s: string, e: nat): (r: Option<nat>)
    requires e <= |s|
    ensures r.Some? ==> e < r.value <= |s|
    ensures r.None? ==> forall j :: e <= j < e + RunLength(s, e, Whitespace) ==> s[j] != '\n'
  {
    var n := RunLength(s, e, Whitespace);
    if e + n < |s| && s[e + n] == ':' then Some(e + n + 1)
    else NewlineAfter(s, e, e + n)
  }

  /** One element of a keyword pattern. */
  datatype Token =
    | Letter(c: char)  // a lower-case letter, matched ignoring ASCII case
    | SlashS           // the text `\\s+`: a backslash and then one or more `s` or `S`
    | Blanks           // `\s+`: one or more whitespace characters

  /**
    The alternative built from a keyword, each space replaced by `space`. The parsers write
    the raw text `\\s+`, which the regular-expression syntax reads as a literal backslash
    followed by `s+` (`SlashS`); the evident intent is `\s+` (`Blanks`).
  */
  function Pattern(keyword: string, space: Token): (toks: seq<Token>)
    ensures |toks| == |keyword|
    ensures forall i :: 0 <= i < |keyword| ==> toks[i] == if keyword[i] == ' ' then space else Letter(keyword[i])
  {
    seq(|keyword|, i requires 0 <= i < |keyword| => if keyword[i] == ' ' then space else Letter(keyword[i]))
  }

  /** One alternative per keyword, in the keywords' order. */
  function Patterns(kws: seq<string>, space: Token): (pats: seq<seq<Token>>)
    ensures |pats| == |kws|
    ensures forall i :: 0 <= i < |kws| ==> pats[i] == Pattern(kws[i], space)
  {
    seq(|kws|, i requires 0 <= i < |kws| => Pattern(kws[i], space))
  }

  const SChars: set<char> := {'s', 'S'}

  /**
    Match `toks` from `i` and then the header end, backtracking as `re` does: the run of
    `s` after a backslash is tried longest first. The result is the end of the keyword and
    the end of the whole match.
  */
  function MatchTokens(s: string, i: nat, toks: seq<Token>): (r: Option<(nat, nat)>)
    requires i <= |s|
    ensures r.Some? ==> i + |toks| <= r.value.0 < r.value.1 <= |s|
    decreases |toks|, |s| - i + 1
  {
    if toks == [] then
      match HeaderEnd(s, i)
      case None => None
      case Some(e) => Some((i, e))
    else
      match toks[0]
      case Letter(c) =>
        if i < |s| && LowerChar(s[i]) == c then MatchTokens(s, i + 1, toks[1..]) else None
      case SlashS =>
        if i < |s| && s[i] == '\\' then TryRuns(s, i + 1, RunLength(s, i + 1, SChars), toks[1..])
        else None
      case Blanks =>
        if i < |s| && s[i] in Whitespace then TryRuns(s, i, RunLength(s, i, Whitespace), toks[1..])
        else None
  }

  /** Try the rest of the pattern after `m`, `m - 1`, ..., `1` characters of the `s` run. */
  function TryRuns(s: string, base: nat, m: nat, rest: seq<Token>): (r: Option<(nat, nat)>)
    requires base + m <= |s|
    ensures r.Some? ==> base + 1 + |rest| <= r.value.0 < r.value.1 <= |s|
    decreases |rest| + 1, m
  {
    if m == 0 then None
    else
      match MatchTokens(s, base + m, rest)
      case Some(r) => Some(r)
      case None => TryRuns(s, base, m - 1, rest)
  }

  /** The alternative that matched: its index in the keyword list, the keyword's end and the match's end. */
  datatype KeywordMatch = KeywordMatch(index: nat, keywordEnd: nat, end: nat)

  /** The first keyword, from index `j` on, whose pattern matches at `k`: `re` tries alternatives in order. */
  function FirstKeyword(s: string, k: nat, pats: seq<seq<Token>>, j: nat): (r: Option<KeywordMatch>)
    requires k <= |s|
    ensures r.Some? ==> j <= r.value.index < |pats|
    ensures r.Some? ==> MatchTokens(s, k, pats[r.value.index]) == Some((r.value.keywordEnd, r.value.end))
    ensures r.Some? ==> forall i :: j <= i < r.value.index ==> MatchTokens(s, k, pats[i]).None?
    ensures r.None? ==> forall i :: j <= i < |pats| ==> MatchTokens(s, k, pats[i]).None?
    decreases |pats| - j
  {
    if j >= |pats| then None
    else
      match MatchTokens(s, k, pats[j])
      case Some(m) => Some(KeywordMatch(j, m.0, m.1))
      case None => FirstKeyword(s, k, pats, j + 1)
  }

  /** A header match: where it starts and ends, and the keyword text lower-cased and stripped. */
  datatype Header = Header(start: nat, end: nat, title: string)

  /** The header the alternatives `pats` match at position `p`, if any. */
  function MatchAt(pats: seq<seq<Token>>, s: string, p: nat): (r: Option<Header>)
    requires p <= |s|
    ensures r.Some? ==> r.value.start == p < r.value.end <= |s| && NoUpper(r.value.title)
    ensures r.Some? ==> LineStart(s, p)
  {
    if !LineStart(s, p) then None
    else
      var k := LeadEnd(s, p);
      match FirstKeyword(s, k, pats, 0)
      case None => None
      case Some(m) =>
        StripKeepsNoUpper(Lower(s[k..m.keywordEnd]));
        Some(Header(p, m.end, Strip(Lower(s[k..m.keywordEnd]))))
  }

  /** For every position of the text, the header the pattern matches there, if any. */
  function MatchTable(pats: seq<seq<Token>>, s: string): (t: seq<Option<Header>>)
    ensures |t| == |s| + 1
    ensures forall p :: 0 <= p <= |s| ==> t[p] == MatchAt(pats, s, p)
  {
    seq(|s| + 1, p requires 0 <= p <= |s| => MatchAt(pats, s, p))
  }

  /** A table of matches: each match starts where it is stored and ends after it, within the text. */
  predicate ValidTable(t: seq<Option<Header>>) {
    forall p :: 0 <= p < |t| && t[p].Some? ==>
      t[p].value.start == p < t[p].value.end < |t| && NoUpper(t[p].value.title)
  }

  lemma MatchTableValid(pats: seq<seq<Token>>, s: string)
    ensures ValidTable(MatchTable(pats, s))
  {
  }

  /** Matches that start before `n`, in order and without overlap. */
  ghost predicate Ordered(hs: seq<Header>, n: nat) {
    && (forall i :: 0 <= i < |hs| ==> hs[i].start < hs[i].end <= n)
    && (forall i, k :: 0 <= i < k < |hs| && k == i + 1 ==> hs[i].end <= hs[k].start)
  }

  /**
    `finditer` over the table of matches from position `pos`: each search resumes where the
    last match ended.
  */
  function Headers(t: seq<Option<Header>>, pos: nat): (hs: seq<Header>)
    requires ValidTable(t) && pos < |t|
    ensures Ordered(hs, |t| - 1)
    ensures forall i :: 0 <= i < |hs| ==> pos <= hs[i].start && t[hs[i].start] == Some(hs[i])
    decreases |t| - pos
  {
    match t[pos]
    case Some(h) => [h] + Headers(t, h.end)
    case None => if pos == |t| - 1 then [] else Headers(t, pos + 1)
  }

  /** `regex_pattern.finditer(text)` for the header alternatives `pats`. */
  function FindHeaders(pats: seq<seq<Token>>, text: string): (hs: seq<Header>)
    ensures Ordered(hs, |text|)
    ensures forall i :: 0 <= i < |hs| ==> MatchAt(pats, text, hs[i].start) == Some(hs[i])
  {
    MatchTableValid(pats, text);
    Headers(MatchTable(pats, text), 0)
  }

  // ---------------------------------------------------------------------------
  // header names

  const CanonicalKeys: set<string> := {"Experience", "Skills", "Education", "Summary", "Projects"}

  /** A family of headers: a title containing one of the words gets the key. */
  datatype Family = Family(words: seq<string>, key: string)

  /** The families in the order the parsers test them; only the basic parser counts "competen". */
  function Families(v: Variant): seq<Family> {
    [ Family(["experience", "employment"], "Experience"),
      Family(if v == Basic then ["skill", "proficienc", "competen"] else ["skill", "proficienc"], "Skills"),
      Family(["education", "academic"], "Education"),
      Family(["summary", "profile", "objective"], "Summary"),
      Family(["project"], "Projects") ]
  }

  /** Some word of `words` occurs in `title`. */
  predicate Mentions(title: string, words: seq<string>) {
    words != [] && (Contains(title, words[0]) || Mentions(title, words[1..]))
  }

  /** The key of the first family the title mentions. */
  function FamilyKey(title: string, fams: seq<Family>): Option<string> {
    if fams == [] then None
    else if Mentions(title, fams[0].words) then Some(fams[0].key)
    else FamilyKey(title, fams[1..])
  }

  /** A title gets a family's key exactly when it mentions that family's words, and then the first such family's key. */
  lemma {:induction false} FamilyKeyFound(title: string, fams: seq<Family>)
    ensures FamilyKey(title, fams).Some? ==>
      exists i :: 0 <= i < |fams| && fams[i].key == FamilyKey(title, fams).value && Mentions(title, fams[i].words)
    ensures FamilyKey(title, fams).None? <==> forall i :: 0 <= i < |fams| ==> !Mentions(title, fams[i].words)
    decreases |fams|
  {
    if fams != [] {
      FamilyKeyFound(title, fams[1..]);
      assert forall i :: 1 <= i < |fams| ==> fams[i] == fams[1..][i - 1];
      if FamilyKey(title, fams).Some? && !Mentions(title, fams[0].words) {
        var i :| 0 <= i < |fams[1..]| && fams[1..][i].key == FamilyKey(title, fams).value && Mentions(title, fams[1..][i].words);
        assert fams[i + 1] == fams[1..][i];
      }
    }
  }

  /** The section key for a header title: its family's key, or else the title capitalised. */
  function Normalise(v: Variant, title: string): string {
    match FamilyKey(title, Families(v))
    case Some(k) => k
    case None => Capitalize(title)
  }

  /** A header's key is one of the fixed keys when its title names a family, and otherwise its title capitalised. */
  lemma NormaliseKey(v: Variant, title: string)
    ensures (exists i :: 0 <= i < |Families(v)| && Mentions(title, Families(v)[i].words))
      ==> Normalise(v, title) in CanonicalKeys
    ensures (forall i :: 0 <= i < |Families(v)| ==> !Mentions(title, Families(v)[i].words))
      ==> Normalise(v, title) == Capitalize(title)
  {
    FamilyKeyFound(title, Families(v));
  }

  /** The normalisation as a function value, for the loop below. */
  function KeyOf(v: Variant): string -> string {
    (title: string) => Normalise(v, title)
  }

  // ---------------------------------------------------------------------------
  // the accumulation loop

  /** Store `content` under `key`, after a line break when the key already holds text. */
  function AddContent(sections: map<string, string>, key: string, content: string): (r: map<string, string>)
    ensures r.Keys == sections.Keys + {key}
    ensures forall k :: k in sections && k != key ==> r[k] == sections[k]
  {
    if key in sections then sections[key := sections[key] + "\n" + content]
    else sections[key := content]
  }

  /** The loop's variables: the open section, where its text starts, and the sections so far. */
  datatype Scan = Scan(current: Option<string>, lastEnd: nat, sections: map<string, string>)

  /** One iteration: close the open section with the text before `h`, then open `h`'s. */
  function Step(keyOf: string -> string, text: string, st: Scan, h: Header): Scan
    requires h.start <= |text|
  {
    var sections :=
      if st.current.Some? && st.lastEnd < h.start then
        AddContent(st.sections, st.current.value, Strip(text[st.lastEnd..h.start]))
      else st.sections;
    Scan(Some(keyOf(h.title)), h.end, sections)
  }

  /** The loop's variables after the first `i` headers. */
  function ScanUpTo(keyOf: string -> string, text: string, hs: seq<Header>, i: nat): Scan
    requires Ordered(hs, |text|) && i <= |hs|
  {
    if i == 0 then Scan(None, 0, map[]) else Step(keyOf, text, ScanUpTo(keyOf, text, hs, i - 1), hs[i - 1])
  }

  /** After the loop: the open section takes the rest of the text. */
  function Finish(text: string, st: Scan): map<string, string>
    requires st.lastEnd <= |text|
  {
    if st.current.Some? && st.lastEnd < |text| then
      AddContent(st.sections, st.current.value, Strip(text[st.lastEnd..]))
    else st.sections
  }

  /**
    `extract_sections(text)` with every space of a keyword matched by `space`: `SlashS` as
    the parsers are written, `Blanks` as they are evidently meant.
  */
  function SplitSections(v: Variant, space: Token, text: string): map<string, string> {
    SectionsWith(v, Patterns(Keywords(v), space), text)
  }

  /** `extract_sections` as intended; with no section found, non-empty text is all experience. */
  function ExtractSections(v: Variant, text: string): map<string, string> {
    SplitSections(v, Blanks, text)
  }

  /** `extract_sections` as written, where no keyword of two words can match text without a backslash. */
  function ExtractSectionsAsWritten(v: Variant, text: string): map<string, string> {
    SplitSections(v, SlashS, text)
  }

  /** `extract_sections` with the header alternatives `pats`. */
  function SectionsWith(v: Variant, pats: seq<seq<Token>>, text: string): map<string, string> {
    var keyOf := KeyOf(v);
    var hs := FindHeaders(pats, text);
    ScanEndsInText(keyOf, text, hs);
    var found := Finish(text, ScanUpTo(keyOf, text, hs, |hs|));
    if found == map[] && text != "" then map["Experience" := text] else found
  }

  /** Only empty text yields no sections: the fallback catches every other text without one. */
  lemma SectionsEmptyIffTextEmpty(v: Variant, pats: seq<seq<Token>>, text: string)
    ensures SectionsWith(v, pats, text) == map[] <==> text == ""
  {
    var hs := FindHeaders(pats, text);
    var keyOf := KeyOf(v);
    if text == "" {
      assert ScanUpTo(keyOf, text, hs, 0) == Scan(None, 0, map[]);
    } else {
      ScanEndsInText(keyOf, text, hs);
      assert "Experience" in map["Experience" := text];
    }
  }

  lemma ScanEndsInText(keyOf: string -> string, text: string, hs: seq<Header>)
    requires Ordered(hs, |text|)
    ensures ScanUpTo(keyOf, text, hs, |hs|).lastEnd <= |text|
  {
  }

  /** `d.get(key, default)`. */
  function Get(sections: map<string, string>, key: string, default: string): string {
    if key in sections then sections[key] else default
  }

  // ---------------------------------------------------------------------------
  // a reference definition of the accumulation

  /** A section's piece: the key it is filed under and its text. */
  datatype Piece = Piece(key: string, content: string)

  /** Where the text of header `i` ends: at the next header, or at the end of the text. */
  function NextStart(text: string, hs: seq<Header>, i: nat): nat {
    if i + 1 < |hs| then hs[i + 1].start else |text|
  }

  /**
    Header `i`'s piece; there is none when the next header follows immediately. Its text is
    `clean` applied to the text between the headers: the parser strips it, and the lemmas
    that only look at keys leave the cleaning open.
  */
  function PieceOf(keyOf: string -> string, clean: string -> string, text: string, hs: seq<Header>, i: nat): seq<Piece>
    requires Ordered(hs, |text|) && i < |hs|
  {
    var e := hs[i].end;
    var n := NextStart(text, hs, i);
    if e < n then [Piece(keyOf(hs[i].title), clean(text[e..n]))] else []
  }

  /** The pieces of the first `j` headers, in text order. */
  function PiecesBefore(keyOf: string -> string, clean: string -> string, text: string, hs: seq<Header>, j: nat): seq<Piece>
    requires Ordered(hs, |text|) && j <= |hs|
  {
    if j == 0 then [] else PiecesBefore(keyOf, clean, text, hs, j - 1) + PieceOf(keyOf, clean, text, hs, j - 1)
  }

  /** The sections a list of pieces builds, adding them in order. */
  function Grouped(ps: seq<Piece>): map<string, string> {
    if ps == [] then map[]
    else
      var last := ps[|ps| - 1];
      AddContent(Grouped(ps[..|ps| - 1]), last.key, last.content)
  }

  /** The contents of the pieces under `key`, in order. */
  function ContentsFor(ps: seq<Piece>, key: string): (cs: seq<string>)
    ensures |cs| <= |ps|
  {
    if ps == [] then []
    else if ps[0].key == key then [ps[0].content] + ContentsFor(ps[1..], key)
    else ContentsFor(ps[1..], key)
  }

  lemma {:induction false} ContentsForSnoc(ps: seq<Piece>, p: Piece, key: string)
    ensures ContentsFor(ps + [p], key) == ContentsFor(ps, key) + (if p.key == key then [p.content] else [])
    decreases |ps|
  {
    if ps != [] {
      assert (ps + [p])[1..] == ps[1..] + [p];
      ContentsForSnoc(ps[1..], p, key);
    } else {
      assert ps + [p] == [p];
    }
  }

  /**
    A key holds a section exactly when some piece carries it, and its text is the join, with
    line breaks, of that key's pieces in text order.
  */
  lemma {:induction false} GroupedIsJoin(ps: seq<Piece>, key: string)
    ensures key in Grouped(ps) <==> ContentsFor(ps, key) != []
    ensures key in Grouped(ps) ==> Grouped(ps)[key] == Join("\n", ContentsFor(ps, key))
    decreases |ps|
  {
    if ps != [] {
      var init := ps[..|ps| - 1];
      var last := ps[|ps| - 1];
      assert ps == init + [last];
      GroupedIsJoin(init, key);
      ContentsForSnoc(init, last, key);
      assert Grouped(ps) == AddContent(Grouped(init), last.key, last.content);
      if last.key == key {
        if ContentsFor(init, key) != [] {
          JoinSnoc("\n", ContentsFor(init, key), last.content);
        } else {
          assert ContentsFor(ps, key) == [last.content];
        }
      } else {
        assert ContentsFor(ps, key) == ContentsFor(init, key);
      }
    }
  }

  /** After `i` headers the open section is header `i - 1`'s and the closed ones hold the earlier pieces. */
  lemma {:induction false} ScanUpToPieces(keyOf: string -> string, text: string, hs: seq<Header>, i: nat)
    requires Ordered(hs, |text|) && 0 < i <= |hs|
    ensures ScanUpTo(keyOf, text, hs, i)
      == Scan(Some(keyOf(hs[i - 1].title)), hs[i - 1].end, Grouped(PiecesBefore(keyOf, Strip, text, hs, i - 1)))
  {
    if i > 1 {
      var ps := PiecesBefore(keyOf, Strip, text, hs, i - 2);
      var h, next := hs[i - 2], hs[i - 1];
      var prev := ScanUpTo(keyOf, text, hs, i - 1);
      assert prev == Scan(Some(keyOf(h.title)), h.end, Grouped(ps)) by {
        ScanUpToPieces(keyOf, text, hs, i - 1);
      }
      assert ScanUpTo(keyOf, text, hs, i) == Step(keyOf, text, prev, next);
      assert NextStart(text, hs, i - 2) == next.start;
      assert PiecesBefore(keyOf, Strip, text, hs, i - 1) == ps + PieceOf(keyOf, Strip, text, hs, i - 2);
      if h.end < next.start {
        GroupedSnoc(ps, Piece(keyOf(h.title), Strip(text[h.end..next.start])));
      } else {
        assert ps + [] == ps;
      }
    }
  }

  /** `extract_sections` groups the pieces between headers, or falls back to one experience section. */
  lemma SectionsFromPieces(v: Variant, pats: seq<seq<Token>>, text: string)
    ensures var hs := FindHeaders(pats, text); var g := Grouped(PiecesBefore(KeyOf(v), Strip, text, hs, |hs|));
      SectionsWith(v, pats, text) == if g == map[] && text != "" then map["Experience" := text] else g
  {
    LoopIsGrouping(KeyOf(v), text, FindHeaders(pats, text));
  }

  /** The loop and its final step build exactly the grouping of all pieces. */
  lemma LoopIsGrouping(keyOf: string -> string, text: string, hs: seq<Header>)
    requires Ordered(hs, |text|)
    ensures ScanUpTo(keyOf, text, hs, |hs|).lastEnd <= |text|
    ensures Finish(text, ScanUpTo(keyOf, text, hs, |hs|)) == Grouped(PiecesBefore(keyOf, Strip, text, hs, |hs|))
  {
    if |hs| > 0 {
      var n := |hs|;
      ScanUpToPieces(keyOf, text, hs, n);
      PiecesBeforeStep(keyOf, Strip, text, hs, n);
      LastPiece(keyOf, text, hs);
      FinishIsLastPiece(text, keyOf(hs[n - 1].title), hs[n - 1].end, PiecesBefore(keyOf, Strip, text, hs, n - 1));
    }
  }

  /** Finishing with section `key` open from `end` groups one more piece, holding the rest of the text. */
  lemma FinishIsLastPiece(text: string, key: string, end: nat, ps: seq<Piece>)
    requires end <= |text|
    ensures Finish(text, Scan(Some(key), end, Grouped(ps)))
      == Grouped(ps + if end < |text| then [Piece(key, Strip(text[end..]))] else [])
  {
    if end < |text| {
      GroupedSnoc(ps, Piece(key, Strip(text[end..])));
    } else {
      assert ps + [] == ps;
    }
  }

  /** The last header's piece runs to the end of the text. */
  lemma LastPiece(keyOf: string -> string, text: string, hs: seq<Header>)
    requires Ordered(hs, |text|) && |hs| > 0
    ensures var h := hs[|hs| - 1];
      PieceOf(keyOf, Strip, text, hs, |hs| - 1) == if h.end < |text| then [Piece(keyOf(h.title), Strip(text[h.end..]))] else []
  {
    assert NextStart(text, hs, |hs| - 1) == |text|;
    assert text[hs[|hs| - 1].end..|text|] == text[hs[|hs| - 1].end..];
  }

  /** Grouping one more piece adds its content under its key. */
  lemma GroupedSnoc(ps: seq<Piece>, q: Piece)
    ensures Grouped(ps + [q]) == AddContent(Grouped(ps), q.key, q.content)
  {
    assert (ps + [q])[..|ps|] == ps;
  }

  /** Without any header match, non-empty text becomes the experience section. */
  lemma NoHeadersFallback(v: Variant, pats: seq<seq<Token>>, text: string)
    requires FindHeaders(pats, text) == [] && text != ""
    ensures SectionsWith(v, pats, text) == map["Experience" := text]
  {
  }

  // ---------------------------------------------------------------------------
  // section names

  lemma StripKeepsNoUpper(s: string)
    requires NoUpper(s)
    ensures NoUpper(Strip(s))
  {
    StripCharsIsTrimmedInfix(s, Whitespace);
  }

  /** No title written in lower case normalises to "Profile" or "Objective". */
  lemma NeverProfileOrObjective(v: Variant, title: string)
    requires NoUpper(title)
    ensures Normalise(v, title) != "Profile" && Normalise(v, title) != "Objective"
  {
    var key := Normalise(v, title);
    if key == "Profile" || key == "Objective" {
      var w := if key == "Profile" then "profile" else "objective";
      assert Capitalize(w) == key && NoUpper(w) by {
        SummaryNames();
      }
      assert Contains(title, w) by {
        NotFixedKeyContains(v, title, w);
      }
      assert Mentions(title, Families(v)[3].words) by {
        MentionsThree(title, "summary", "profile", "objective");
      }
      NormaliseKey(v, title);
    }
  }

  lemma SummaryNames()
    ensures Capitalize("profile") == "Profile" && NoUpper("profile")
    ensures Capitalize("objective") == "Objective" && NoUpper("objective")
  {
  }

  /** A lower-case title whose key is not a fixed one is the lower-case form of that key. */
  lemma NotFixedKeyContains(v: Variant, title: string, w: string)
    requires NoUpper(title) && NoUpper(w) && |w| > 0
    requires Normalise(v, title) == Capitalize(w) && Capitalize(w) !in CanonicalKeys
    ensures Contains(title, w)
  {
    NormaliseKey(v, title);
    CapitalizedLowercase(title, w);
  }

  /** A lower-case title that capitalises to `Capitalize(w)`, for `w` lower-case, is `w` itself and so contains it. */
  lemma CapitalizedLowercase(title: string, w: string)
    requires NoUpper(title) && NoUpper(w) && |w| > 0
    requires Capitalize(title) == Capitalize(w)
    ensures Contains(title, w)
  {
    assert LowerChar(title[0]) == LowerChar(w[0]);
    assert title[0] == w[0];
    forall i | 1 <= i < |w|
      ensures title[i] == w[i]
    {
      assert LowerChar(title[i]) == LowerChar(w[i]);
    }
    assert title == w;
    assert OccursAt(title, w, 0);
  }

  /** The two parsers name sections alike except for titles containing "competen". */
  lemma NormaliseVariants(title: string)
    ensures !Contains(title, "competen") ==> Normalise(Basic, title) == Normalise(Advanced, title)
    ensures Contains(title, "competen") && !Contains(title, "experience") && !Contains(title, "employment")
      ==> Normalise(Basic, title) == "Skills"
  {
    var basic, advanced := Families(Basic), Families(Advanced);
    MentionsThree(title, "skill", "proficienc", "competen");
    MentionsTwo(title, "skill", "proficienc");
    if !Contains(title, "competen") {
      FamilyKeySame(title, basic, advanced);
    }
    if Contains(title, "competen") && !Contains(title, "experience") && !Contains(title, "employment") {
      MentionsTwo(title, "experience", "employment");
      NormaliseFirstFamily(Basic, title, 1);
    }
  }

  lemma MentionsOne(title: string, a: string)
    ensures Mentions(title, [a]) <==> Contains(title, a)
  {
    assert [a][1..] == [];
  }

  lemma MentionsTwo(title: string, a: string, b: string)
    ensures Mentions(title, [a, b]) <==> Contains(title, a) || Contains(title, b)
  {
    assert [a, b][1..] == [b];
    MentionsOne(title, b);
  }

  lemma MentionsThree(title: string, a: string, b: string, c: string)
    ensures Mentions(title, [a, b, c]) <==> Contains(title, a) || Contains(title, b) || Contains(title, c)
  {
    assert [a, b, c][1..] == [b, c];
    MentionsTwo(title, b, c);
  }

  /** Families with the same keys that a title mentions alike give it the same key. */
  lemma {:induction false} FamilyKeySame(title: string, f1: seq<Family>, f2: seq<Family>)
    requires |f1| == |f2|
    requires forall i :: 0 <= i < |f1| ==> f1[i].key == f2[i].key
    requires forall i :: 0 <= i < |f1| ==> (Mentions(title, f1[i].words) <==> Mentions(title, f2[i].words))
    ensures FamilyKey(title, f1) == FamilyKey(title, f2)
    decreases |f1|
  {
    if f1 != [] {
      FamilyKeySame(title, f1[1..], f2[1..]);
    }
  }

  /** The chain of tests: the first family the title mentions gives the key. */
  lemma {:induction false} FamilyKeyFirst(title: string, fams: seq<Family>, i: nat)
    requires i < |fams| && Mentions(title, fams[i].words)
    requires forall j :: 0 <= j < i ==> !Mentions(title, fams[j].words)
    ensures FamilyKey(title, fams) == Some(fams[i].key)
    decreases i
  {
    if i > 0 {
      FamilyKeyFirst(title, fams[1..], i - 1);
    }
  }

  /** A title is keyed by the first family, in the parsers' order, one of whose words it contains. */
  lemma NormaliseFirstFamily(v: Variant, title: string, i: nat)
    requires i < |Families(v)| && Mentions(title, Families(v)[i].words)
    requires forall j :: 0 <= j < i ==> !Mentions(title, Families(v)[j].words)
    ensures Normalise(v, title) == Families(v)[i].key
  {
    FamilyKeyFirst(title, Families(v), i);
  }

  /** A title mentions a list of words exactly when it contains one of them. */
  lemma {:induction false} MentionsSome(title: string, words: seq<string>)
    ensures Mentions(title, words) <==> exists i :: 0 <= i < |words| && Contains(title, words[i])
    decreases |words|
  {
    if words != [] {
      MentionsSome(title, words[1..]);
      if exists i :: 0 <= i < |words| && Contains(title, words[i]) {
        var i :| 0 <= i < |words| && Contains(title, words[i]);
        if i > 0 {
          assert words[1..][i - 1] == words[i];
        }
      }
    }
  }

  /** Every piece is filed under the key of the header it follows. */
  lemma {:induction false} PieceHeader(keyOf: string -> string, clean: string -> string, text: string, hs: seq<Header>, j: nat, q: nat)
    returns (i: nat)
    requires Ordered(hs, |text|) && j <= |hs| && q < |PiecesBefore(keyOf, clean, text, hs, j)|
    ensures i < j && PiecesBefore(keyOf, clean, text, hs, j)[q].key == keyOf(hs[i].title)
    decreases j
  {
    assert j > 0;
    var inPrefix := PieceStep(keyOf, clean, text, hs, j, q);
    if inPrefix {
      i := PieceHeader(keyOf, clean, text, hs, j - 1, q);
    } else {
      i := j - 1;
    }
  }

  /** Piece `q` of the first `j` headers is one of the first `j - 1` headers' pieces, or header `j - 1`'s own. */
  lemma PieceStep(keyOf: string -> string, clean: string -> string, text: string, hs: seq<Header>, j: nat, q: nat)
    returns (inPrefix: bool)
    requires Ordered(hs, |text|) && 0 < j <= |hs| && q < |PiecesBefore(keyOf, clean, text, hs, j)|
    ensures inPrefix ==> q < |PiecesBefore(keyOf, clean, text, hs, j - 1)|
    ensures inPrefix ==> PiecesBefore(keyOf, clean, text, hs, j)[q].key == PiecesBefore(keyOf, clean, text, hs, j - 1)[q].key
    ensures !inPrefix ==> PiecesBefore(keyOf, clean, text, hs, j)[q].key == keyOf(hs[j - 1].title)
  {
    inPrefix := q < |PiecesBefore(keyOf, clean, text, hs, j - 1)|;
    if inPrefix {
      PieceInPrefix(keyOf, clean, text, hs, j, q);
    } else {
      PieceOfLastHeader(keyOf, clean, text, hs, j, q);
    }
  }

  /** A piece before header `j - 1`'s own piece is unchanged by adding it. */
  lemma PieceInPrefix(keyOf: string -> string, clean: string -> string, text: string, hs: seq<Header>, j: nat, q: nat)
    requires Ordered(hs, |text|) && 0 < j <= |hs| && q < |PiecesBefore(keyOf, clean, text, hs, j - 1)|
    ensures PiecesBefore(keyOf, clean, text, hs, j)[q] == PiecesBefore(keyOf, clean, text, hs, j - 1)[q]
  {
    PiecesBeforeStep(keyOf, clean, text, hs, j);
  }

  /** The pieces after those of the first `j - 1` headers are header `j - 1`'s, under its key. */
  lemma PieceOfLastHeader(keyOf: string -> string, clean: string -> string, text: string, hs: seq<Header>, j: nat, q: nat)
    requires Ordered(hs, |text|) && 0 < j <= |hs| && |PiecesBefore(keyOf, clean, text, hs, j - 1)| <= q < |PiecesBefore(keyOf, clean, text, hs, j)|
    ensures PiecesBefore(keyOf, clean, text, hs, j)[q].key == keyOf(hs[j - 1].title)
  {
    var ps := PiecesBefore(keyOf, clean, text, hs, j - 1);
    var p := PieceOf(keyOf, clean, text, hs, j - 1);
    PiecesBeforeStep(keyOf, clean, text, hs, j);
    PieceOfShape(keyOf, clean, text, hs, j - 1);
    assert p != [] && q == |ps|;
    assert (ps + p)[|ps|] == p[0];
  }

  lemma PieceOfShape(keyOf: string -> string, clean: string -> string, text: string, hs: seq<Header>, i: nat)
    requires Ordered(hs, |text|) && i < |hs|
    ensures |PieceOf(keyOf, clean, text, hs, i)| <= 1
    ensures PieceOf(keyOf, clean, text, hs, i) != [] ==> PieceOf(keyOf, clean, text, hs, i)[0].key == keyOf(hs[i].title)
  {
  }

  lemma PiecesBeforeStep(keyOf: string -> string, clean: string -> string, text: string, hs: seq<Header>, j: nat)
    requires Ordered(hs, |text|) && 0 < j <= |hs|
    ensures PiecesBefore(keyOf, clean, text, hs, j) == PiecesBefore(keyOf, clean, text, hs, j - 1) + PieceOf(keyOf, clean, text, hs, j - 1)
  {
  }

  lemma {:induction false} GroupedKeys(ps: seq<Piece>, key: string)
    ensures key in Grouped(ps) <==> exists q :: 0 <= q < |ps| && ps[q].key == key
    decreases |ps|
  {
    if ps != [] {
      var init := ps[..|ps| - 1];
      GroupedKeys(init, key);
      if key in Grouped(init) {
        var q :| 0 <= q < |init| && init[q].key == key;
        assert ps[q].key == key;
      }
      if exists q :: 0 <= q < |ps| && ps[q].key == key {
        var q :| 0 <= q < |ps| && ps[q].key == key;
        if q < |init| {
          assert init[q].key == key;
        }
      }
    }
  }

  /**
    `extract_sections` never produces the keys "Profile" or "Objective", so the basic parser's
    summary lookup, which tries them after "Summary", is the "Summary" section or "".
  */
  lemma SummaryIsSummarySection(v: Variant, pats: seq<seq<Token>>, text: string)
    ensures var sections := SectionsWith(v, pats, text);
      "Profile" !in sections && "Objective" !in sections
      && Get(sections, "Summary", Get(sections, "Profile", Get(sections, "Objective", "")))
        == Get(sections, "Summary", "")
  {
    var hs := FindHeaders(pats, text);
    var g := Grouped(PiecesBefore(KeyOf(v), Strip, text, hs, |hs|));
    assert "Profile" !in g && "Objective" !in g by {
      GroupedAvoids(v, pats, text);
    }
    var sections := SectionsWith(v, pats, text);
    assert sections == g || sections == map["Experience" := text] by {
      SectionsFromPieces(v, pats, text);
    }
  }

  lemma GroupedAvoids(v: Variant, pats: seq<seq<Token>>, text: string)
    ensures var hs := FindHeaders(pats, text); var g := Grouped(PiecesBefore(KeyOf(v), Strip, text, hs, |hs|));
      "Profile" !in g && "Objective" !in g
  {
    var hs := FindHeaders(pats, text);
    var keyOf := KeyOf(v);
    var ps := PiecesBefore(keyOf, Strip, text, hs, |hs|);
    HeaderTitlesLower(pats, text);
    forall q | 0 <= q < |ps|
      ensures ps[q].key != "Profile" && ps[q].key != "Objective"
    {
      var i := PieceHeader(keyOf, Strip, text, hs, |hs|, q);
      NeverProfileOrObjective(v, hs[i].title);
    }
    GroupedKeys(ps, "Profile");
    GroupedKeys(ps, "Objective");
  }

  /** Header titles are lower case. */
  lemma HeaderTitlesLower(pats: seq<seq<Token>>, text: string)
    ensures forall i :: 0 <= i < |FindHeaders(pats, text)| ==> NoUpper(FindHeaders(pats, text)[i].title)
  {
    var hs := FindHeaders(pats, text);
    forall i | 0 <= i < |hs|
      ensures NoUpper(hs[i].title)
    {
      assert MatchAt(pats, text, hs[i].start) == Some(hs[i]);
    }
  }

  // ---------------------------------------------------------------------------
  // what the pattern can match

  /** Without a backslash in the text, an alternative holding `\\s+` never matches. */
  lemma {:induction false} NoBackslashLettersOnly(s: string, i: nat, toks: seq<Token>)
    requires i <= |s| && '\\' !in s
    requires forall t :: 0 <= t < |toks| ==> !toks[t].Blanks?
    requires MatchTokens(s, i, toks).Some?
    ensures forall t :: 0 <= t < |toks| ==> toks[t].Letter?
    ensures MatchTokens(s, i, toks).value.0 == i + |toks|
    ensures forall t :: 0 <= t < |toks| ==> LowerChar(s[i + t]) == toks[t].c
    decreases |toks|
  {
    if toks != [] {
      assert toks[0].Letter? by {
        if toks[0] == SlashS {
          assert i < |s| ==> s[i] in s;
        }
      }
      NoBackslashLettersOnly(s, i + 1, toks[1..]);
      forall t | 1 <= t < |toks|
        ensures LowerChar(s[i + t]) == toks[t].c
      {
        assert toks[1..][t - 1] == toks[t];
      }
    }
  }

  /** Without a backslash in the text, a keyword's alternative as written matches only the keyword itself, and it has no space. */
  lemma MatchedKeyword(s: string, k: nat, kw: string)
    requires k <= |s| && '\\' !in s && MatchTokens(s, k, Pattern(kw, SlashS)).Some?
    ensures var e := MatchTokens(s, k, Pattern(kw, SlashS)).value.0; k <= e <= |s| && Lower(s[k..e]) == kw
    ensures ' ' !in kw
  {
    var toks := Pattern(kw, SlashS);
    NoBackslashLettersOnly(s, k, toks);
    var e := MatchTokens(s, k, toks).value.0;
    var lowered := Lower(s[k..e]);
    forall t | 0 <= t < |kw|
      ensures lowered[t] == kw[t] && kw[t] != ' '
    {
      assert toks[t].Letter?;
      assert toks[t] == Letter(kw[t]);
    }
  }

  /** As written, a keyword of several words never matches text that has no backslash. */
  lemma MultiWordKeywordUnmatched(s: string, k: nat, kw: string)
    requires k <= |s| && '\\' !in s && ' ' in kw
    ensures MatchTokens(s, k, Pattern(kw, SlashS)).None?
  {
    if MatchTokens(s, k, Pattern(kw, SlashS)).Some? {
      MatchedKeyword(s, k, kw);
    }
  }

  /** A keyword the patterns can be built from: lower-case letters at both ends. */
  predicate KeywordShape(kw: string) {
    |kw| > 0 && IsLower(kw[0]) && IsLower(kw[|kw| - 1])
  }

  /** As written, header titles are keywords, and with no backslash in the text only one-word keywords match. */
  lemma HeaderTitlesWithoutBackslash(kws: seq<string>, s: string, p: nat)
    requires forall i :: 0 <= i < |kws| ==> KeywordShape(kws[i])
    requires p <= |s| && '\\' !in s && MatchAt(Patterns(kws, SlashS), s, p).Some?
    ensures MatchAt(Patterns(kws, SlashS), s, p).value.title in kws
    ensures ' ' !in MatchAt(Patterns(kws, SlashS), s, p).value.title
  {
    var pats := Patterns(kws, SlashS);
    var k := LeadEnd(s, p);
    assert FirstKeyword(s, k, pats, 0).Some? && MatchAt(pats, s, p).value.title
      == Strip(Lower(s[k..FirstKeyword(s, k, pats, 0).value.keywordEnd])) by {
      MatchAtTitle(pats, s, p);
    }
    var m := FirstKeyword(s, k, pats, 0).value;
    var kw := kws[m.index];
    assert Lower(s[k..m.keywordEnd]) == kw && ' ' !in kw by {
      MatchedKeyword(s, k, kw);
    }
    assert Strip(kw) == kw by {
      ShapedKeywordStripped(kw);
    }
  }

  lemma ShapedKeywordStripped(kw: string)
    requires KeywordShape(kw)
    ensures Strip(kw) == kw
  {
    assert Trimmed(kw, Whitespace);
    StripCharsOfTrimmed(kw, Whitespace);
  }

  /** A match's title is the text its first matching alternative covers, lower-cased and stripped. */
  lemma MatchAtTitle(pats: seq<seq<Token>>, s: string, p: nat)
    requires p <= |s| && MatchAt(pats, s, p).Some?
    ensures var k := LeadEnd(s, p); var m := FirstKeyword(s, k, pats, 0);
      m.Some? && MatchAt(pats, s, p).value.title == Strip(Lower(s[k..m.value.keywordEnd]))
  {
  }

  /** Both keyword lists are well shaped. */
  lemma KeywordsShaped(v: Variant)
    ensures forall i :: 0 <= i < |Keywords(v)| ==> KeywordShape(Keywords(v)[i])
  {
  }

  /** Lower-case words separated by single spaces. */
  predicate SingleSpaced(kw: string) {
    forall t :: 0 <= t < |kw| ==> IsLower(kw[t]) || (kw[t] == ' ' && t + 1 < |kw| && IsLower(kw[t + 1]))
  }

  /** The text at `i` spells `kw`, ignoring case, and a colon follows. */
  predicate SpelledAt(s: string, i: nat, kw: string) {
    && i + |kw| < |s| && s[i + |kw|] == ':'
    && forall t :: 0 <= t < |kw| ==> LowerChar(s[i + t]) == kw[t]
  }

  /** With `\s+` for the spaces, a keyword matches its own spelling followed by a colon. */
  lemma {:induction false} SpelledKeywordMatches(s: string, i: nat, kw: string)
    requires SingleSpaced(kw) && SpelledAt(s, i, kw)
    ensures MatchTokens(s, i, Pattern(kw, Blanks)) == Some((i + |kw|, i + |kw| + 1))
    decreases |kw|
  {
    if kw == [] {
      ColonEnds(s, i);
    } else {
      SingleSpacedTail(kw);
      SpelledTail(s, i, kw);
      SpelledKeywordMatches(s, i + 1, kw[1..]);
      SpelledStep(s, i, kw);
    }
  }

  /** A colon right at `i` ends a header there. */
  lemma ColonEnds(s: string, i: nat)
    requires i < |s| && s[i] == ':'
    ensures MatchTokens(s, i, []) == Some((i, i + 1))
  {
    assert s[i] !in Whitespace;
  }

  /** The first character of a spelled keyword passes the match on to the rest of it. */
  lemma SpelledStep(s: string, i: nat, kw: string)
    requires SingleSpaced(kw) && SpelledAt(s, i, kw) && kw != []
    requires MatchTokens(s, i + 1, Pattern(kw[1..], Blanks)) == Some((i + |kw|, i + |kw| + 1))
    ensures MatchTokens(s, i, Pattern(kw, Blanks)) == Some((i + |kw|, i + |kw| + 1))
  {
    var toks := Pattern(kw, Blanks);
    assert toks[1..] == Pattern(kw[1..], Blanks);
    if kw[0] == ' ' {
      SingleBlank(s, i, kw);
      BlankStep(s, i, toks);
    } else {
      LetterStep(s, i, toks, kw[0]);
    }
  }

  /** A letter token that matches passes the match on to the next character. */
  lemma LetterStep(s: string, i: nat, toks: seq<Token>, c: char)
    requires i < |s| && toks != [] && toks[0] == Letter(c) && LowerChar(s[i]) == c
    ensures MatchTokens(s, i, toks) == MatchTokens(s, i + 1, toks[1..])
  {
  }

  /** A `\s+` token facing a single blank passes the match on to the next character. */
  lemma BlankStep(s: string, i: nat, toks: seq<Token>)
    requires i < |s| && toks != [] && toks[0] == Blanks
    requires s[i] in Whitespace && RunLength(s, i, Whitespace) == 1
    requires MatchTokens(s, i + 1, toks[1..]).Some?
    ensures MatchTokens(s, i, toks) == MatchTokens(s, i + 1, toks[1..])
  {
  }

  lemma SingleSpacedTail(kw: string)
    requires SingleSpaced(kw) && |kw| > 0
    ensures SingleSpaced(kw[1..])
  {
    forall t | 0 <= t < |kw[1..]|
      ensures IsLower(kw[1..][t]) || (kw[1..][t] == ' ' && t + 1 < |kw[1..]| && IsLower(kw[1..][t + 1]))
    {
      assert kw[1..][t] == kw[t + 1];
      var u := t + 1;
      assert IsLower(kw[u]) || (kw[u] == ' ' && u + 1 < |kw| && IsLower(kw[u + 1]));
      if t + 1 < |kw[1..]| {
        assert kw[1..][t + 1] == kw[u + 1];
      }
    }
  }

  lemma SpelledTail(s: string, i: nat, kw: string)
    requires SpelledAt(s, i, kw) && |kw| > 0
    ensures SpelledAt(s, i + 1, kw[1..])
  {
    forall t | 0 <= t < |kw[1..]|
      ensures LowerChar(s[i + 1 + t]) == kw[1..][t]
    {
      assert LowerChar(s[i + (t + 1)]) == kw[t + 1];
    }
  }

  /** A space of the keyword is matched by exactly one blank of the text, since a letter follows. */
  lemma SingleBlank(s: string, i: nat, kw: string)
    requires SingleSpaced(kw) && SpelledAt(s, i, kw) && |kw| > 0 && kw[0] == ' '
    ensures s[i] in Whitespace && RunLength(s, i, Whitespace) == 1
  {
    assert LowerChar(s[i]) == ' ';
    assert s[i] == ' ';
    assert LowerChar(s[i + 1]) == kw[1] && IsLower(kw[1]);
    assert s[i + 1] !in Whitespace;
  }

  /**
    With `\s+` for the spaces, every keyword written at the start of a line and followed by
    a colon is recognised as a header.
  */
  lemma KeywordHeaderRecognised(kws: seq<string>, j: nat, s: string, p: nat)
    requires j < |kws| && SingleSpaced(kws[j]) && |kws[j]| > 0 && IsLower(kws[j][0])
    requires p <= |s| && LineStart(s, p) && SpelledAt(s, p, kws[j])
    ensures MatchAt(Patterns(kws, Blanks), s, p).Some?
  {
    var pats := Patterns(kws, Blanks);
    SpelledNoLead(s, p, kws[j]);
    assert MatchTokens(s, p, pats[j]).Some? by {
      SpelledKeywordMatches(s, p, kws[j]);
    }
    SomeAlternativeFound(s, p, pats, j);
    MatchAtFound(pats, s, p);
  }

  /** A keyword starting with a letter leaves no blanks or bullet to skip before it. */
  lemma SpelledNoLead(s: string, p: nat, kw: string)
    requires |kw| > 0 && IsLower(kw[0]) && p <= |s| && SpelledAt(s, p, kw)
    ensures LeadEnd(s, p) == p
  {
    assert IsLower(LowerChar(s[p]));
    assert s[p] !in Whitespace && s[p] !in Bullets;
  }

  /** When some alternative matches, the search for the first one finds one. */
  lemma SomeAlternativeFound(s: string, k: nat, pats: seq<seq<Token>>, j: nat)
    requires k <= |s| && j < |pats| && MatchTokens(s, k, pats[j]).Some?
    ensures FirstKeyword(s, k, pats, 0).Some?
  {
  }

  /** At the start of a line, a match of some alternative after the lead is a header. */
  lemma MatchAtFound(pats: seq<seq<Token>>, s: string, p: nat)
    requires p <= |s| && LineStart(s, p) && FirstKeyword(s, LeadEnd(s, p), pats, 0).Some?
    ensures MatchAt(pats, s, p).Some?
  {
  }

  /** The text at `k` spells the keyword `kw`, ignoring case. */
  predicate KeywordAt(s: string, k: nat, kw: string) {
    k + |kw| <= |s| && Lower(s[k..k + |kw|]) == kw
  }

  /** No line of `text` begins, after its blanks and bullet, with a keyword of one word. */
  predicate NoOneWordHeaderLine(v: Variant, text: string) {
    forall p, j :: 0 <= p <= |text| && LineStart(text, p) && 0 <= j < |Keywords(v)| && ' ' !in Keywords(v)[j]
      ==> !KeywordAt(text, LeadEnd(text, p), Keywords(v)[j])
  }

  /**
    As written, a text without a backslash whose lines begin with no one-word keyword is found
    to have no header at all, whatever multi-word headers ("Work Experience:", "Technical
    Skills:", ...) it holds: it all becomes the experience section.
  */
  lemma AsWrittenMultiWordHeadersIgnored(v: Variant, text: string)
    requires text != "" && '\\' !in text && NoOneWordHeaderLine(v, text)
    ensures FindHeaders(Patterns(Keywords(v), SlashS), text) == []
    ensures ExtractSectionsAsWritten(v, text) == map["Experience" := text]
  {
    var pats := Patterns(Keywords(v), SlashS);
    var hs := FindHeaders(pats, text);
    if hs != [] {
      var p := hs[0].start;
      var j := AsWrittenHeaderKeyword(v, text, p);
      assert false;
    }
    NoHeadersFallback(v, pats, text);
  }

  /** As written, a header found in text without a backslash begins with a one-word keyword. */
  lemma AsWrittenHeaderKeyword(v: Variant, text: string, p: nat) returns (j: nat)
    requires p <= |text| && '\\' !in text && MatchAt(Patterns(Keywords(v), SlashS), text, p).Some?
    ensures LineStart(text, p) && j < |Keywords(v)| && ' ' !in Keywords(v)[j]
    ensures KeywordAt(text, LeadEnd(text, p), Keywords(v)[j])
  {
    j := AsWrittenMatchKeyword(Keywords(v), text, p);
  }

  /** As written, a match of keywords `kws` in text without a backslash spells a one-word keyword. */
  lemma AsWrittenMatchKeyword(kws: seq<string>, text: string, p: nat) returns (j: nat)
    requires p <= |text| && '\\' !in text && MatchAt(Patterns(kws, SlashS), text, p).Some?
    ensures LineStart(text, p) && j < |kws| && ' ' !in kws[j]
    ensures KeywordAt(text, LeadEnd(text, p), kws[j])
  {
    MatchAtKeyword(Patterns(kws, SlashS), text, p);
    j := AsWrittenFirstKeyword(kws, text, LeadEnd(text, p));
  }

  /** A header match is a line start where some alternative matches after the lead. */
  lemma MatchAtKeyword(pats: seq<seq<Token>>, s: string, p: nat)
    requires p <= |s| && MatchAt(pats, s, p).Some?
    ensures LineStart(s, p) && FirstKeyword(s, LeadEnd(s, p), pats, 0).Some?
  {
  }

  /** As written, the alternative that matches in text without a backslash spells a one-word keyword. */
  lemma AsWrittenFirstKeyword(kws: seq<string>, text: string, k: nat) returns (j: nat)
    requires k <= |text| && '\\' !in text && FirstKeyword(text, k, Patterns(kws, SlashS), 0).Some?
    ensures j < |kws| && ' ' !in kws[j] && KeywordAt(text, k, kws[j])
  {
    var pats := Patterns(kws, SlashS);
    var m := FirstKeyword(text, k, pats, 0).value;
    j := m.index;
    var kw := kws[j];
    assert MatchTokens(text, k, Pattern(kw, SlashS)) == Some((m.keywordEnd, m.end)) by {
      assert pats[j] == Pattern(kw, SlashS);
    }
    MatchedKeyword(text, k, kw);
    var e := m.keywordEnd;
    assert e == k + |kw| by {
      assert |Lower(text[k..e])| == e - k;
    }
  }

  // ---------------------------------------------------------------------------
  // a résumé whose only header has two words

  /** A résumé whose one header has two words. */
  const SampleResume: string := "Technical Skills:\nPython"

  lemma SampleLines(p: nat)
    requires p <= |SampleResume| && LineStart(SampleResume, p)
    ensures p == 0 || p == 18
  {
  }

  lemma SampleLeadEnd(p: nat)
    requires p == 0 || p == 18
    ensures LeadEnd(SampleResume, p) == p
  {
    assert SampleResume[p] !in Whitespace && SampleResume[p] !in Bullets;
  }

  /** Every keyword has two letters first; none but "technical skills" starts with `t`, and none with `py`. */
  lemma KeywordStarts(v: Variant, j: nat)
    requires j < |Keywords(v)|
    ensures var kw := Keywords(v)[j];
      |kw| >= 2 && kw[0] != ' ' && kw[1] != ' ' && (kw[0] == 't' <==> j == 10) && (kw[0] == 't' ==> ' ' in kw) && (kw[0] == 'p' ==> kw[1] != 'y')
  {
  }

  lemma KeywordAtFirstTwo(s: string, k: nat, kw: string)
    requires |kw| >= 2 && KeywordAt(s, k, kw)
    ensures LowerChar(s[k]) == kw[0] && LowerChar(s[k + 1]) == kw[1]
  {
    assert Lower(s[k..k + |kw|])[0] == kw[0];
    assert Lower(s[k..k + |kw|])[1] == kw[1];
  }

  lemma SampleNoOneWord(v: Variant)
    ensures NoOneWordHeaderLine(v, SampleResume)
  {
    forall p, j | 0 <= p <= |SampleResume| && LineStart(SampleResume, p) && 0 <= j < |Keywords(v)| && ' ' !in Keywords(v)[j]
      ensures !KeywordAt(SampleResume, LeadEnd(SampleResume, p), Keywords(v)[j])
    {
      SampleLines(p);
      var kw := Keywords(v)[j];
      KeywordStarts(v, j);
      SampleLeadEnd(p);
      if KeywordAt(SampleResume, p, kw) {
        KeywordAtFirstTwo(SampleResume, p, kw);
        assert false;
      }
    }
  }

  /** A pattern whose first letter differs from the text's does not match there. */
  lemma FirstLetterMismatch(s: string, i: nat, kw: string, space: Token)
    requires i < |s| && |kw| >= 2 && kw[0] != ' ' && kw[1] != ' '
    requires LowerChar(s[i]) != kw[0] || (i + 1 < |s| && LowerChar(s[i + 1]) != kw[1])
    ensures MatchTokens(s, i, Pattern(kw, space)).None?
  {
    var toks := Pattern(kw, space);
    assert toks[0] == Letter(kw[0]);
    assert toks[1..][0] == Letter(kw[1]);
  }

  const TechnicalSkills: string := "technical skills"

  /** With `\s+` for its space, "technical skills" matches the example's first line up to the colon. */
  lemma SampleSpelled()
    ensures MatchTokens(SampleResume, 0, Pattern(TechnicalSkills, Blanks)) == Some((16, 17))
    ensures Strip(Lower(SampleResume[0..16])) == TechnicalSkills
  {
    SampleSpelledAt();
    SpelledKeywordMatches(SampleResume, 0, TechnicalSkills);
    assert Lower(SampleResume[0..16]) == TechnicalSkills;
    ShapedKeywordStripped(TechnicalSkills);
  }

  lemma SampleSpelledAt()
    ensures SingleSpaced(TechnicalSkills) && SpelledAt(SampleResume, 0, TechnicalSkills)
  {
    forall t | 0 <= t < |TechnicalSkills|
      ensures IsLower(TechnicalSkills[t]) || (TechnicalSkills[t] == ' ' && t + 1 < |TechnicalSkills| && IsLower(TechnicalSkills[t + 1]))
    {
      if t != 9 {
        assert TechnicalSkills[t] in "abcdefghijklmnopqrstuvwxyz";
      }
    }
    forall t | 0 <= t < |TechnicalSkills|
      ensures LowerChar(SampleResume[t]) == TechnicalSkills[t]
    {
    }
  }

  /** "technical skills" is the first alternative that matches at the start of the example. */
  lemma SampleFirstKeyword(v: Variant)
    ensures FirstKeyword(SampleResume, 0, Patterns(Keywords(v), Blanks), 0) == Some(KeywordMatch(10, 16, 17))
  {
    var pats := Patterns(Keywords(v), Blanks);
    assert pats[10] == Pattern(TechnicalSkills, Blanks);
    SampleSpelled();
    SampleEarlierMisses(v);
    FirstAfterMisses(SampleResume, 0, pats, 10);
  }

  /** None of the ten alternatives before "technical skills" matches at the start of the example. */
  lemma SampleEarlierMisses(v: Variant)
    ensures forall j :: 0 <= j < 10 ==> MatchTokens(SampleResume, 0, Patterns(Keywords(v), Blanks)[j]).None?
  {
    var pats := Patterns(Keywords(v), Blanks);
    forall j | 0 <= j < 10
      ensures MatchTokens(SampleResume, 0, pats[j]).None?
    {
      KeywordStarts(v, j);
      FirstLetterMismatch(SampleResume, 0, Keywords(v)[j], Blanks);
    }
  }

  /** When alternative `t` matches and none before it does, `t` is the first keyword. */
  lemma FirstAfterMisses(s: string, k: nat, pats: seq<seq<Token>>, t: nat)
    requires k <= |s| && t < |pats| && MatchTokens(s, k, pats[t]).Some?
    requires forall i :: 0 <= i < t ==> MatchTokens(s, k, pats[i]).None?
    ensures var m := MatchTokens(s, k, pats[t]).value; FirstKeyword(s, k, pats, 0) == Some(KeywordMatch(t, m.0, m.1))
  {
  }

  lemma SampleHeaderAtStart(v: Variant)
    ensures MatchAt(Patterns(Keywords(v), Blanks), SampleResume, 0) == Some(Header(0, 17, TechnicalSkills))
  {
    SampleLeadEnd(0);
    SampleFirstKeyword(v);
    SampleSpelled();
  }

  lemma SampleNoLaterHeader(v: Variant, p: nat)
    requires 0 < p <= |SampleResume|
    ensures MatchAt(Patterns(Keywords(v), Blanks), SampleResume, p).None?
  {
    if LineStart(SampleResume, p) {
      SampleLines(p);
      SampleLeadEnd(p);
      SampleSecondLine();
      var kws := Keywords(v);
      forall j | 0 <= j < |kws|
        ensures MatchTokens(SampleResume, p, Pattern(kws[j], Blanks)).None?
      {
        KeywordStarts(v, j);
        FirstLetterMismatch(SampleResume, p, kws[j], Blanks);
      }
      NoKeywordAtLine(kws, SampleResume, p);
    }
  }

  lemma SampleSecondLine()
    ensures LowerChar(SampleResume[18]) == 'p' && LowerChar(SampleResume[19]) == 'y'
  {
  }

  /** A line where, after its lead, no keyword's pattern matches holds no header. */
  lemma NoKeywordAtLine(kws: seq<string>, s: string, p: nat)
    requires p <= |s|
    requires forall j :: 0 <= j < |kws| ==> MatchTokens(s, LeadEnd(s, p), Pattern(kws[j], Blanks)).None?
    ensures MatchAt(Patterns(kws, Blanks), s, p).None?
  {
    var pats := Patterns(kws, Blanks);
    forall j | 0 <= j < |pats|
      ensures MatchTokens(s, LeadEnd(s, p), pats[j]).None?
    {
      assert pats[j] == Pattern(kws[j], Blanks);
    }
  }

  /** `finditer` finds nothing from `pos` on when no position there holds a match. */
  lemma {:induction false} HeadersNone(t: seq<Option<Header>>, pos: nat)
    requires ValidTable(t) && pos < |t|
    requires forall q :: pos <= q < |t| ==> t[q].None?
    ensures Headers(t, pos) == []
    decreases |t| - pos
  {
    if pos < |t| - 1 {
      HeadersNone(t, pos + 1);
    }
  }

  /** With `\s+` for the spaces, the example's only header is "technical skills". */
  lemma SampleHeaders(v: Variant)
    ensures FindHeaders(Patterns(Keywords(v), Blanks), SampleResume) == [Header(0, 17, TechnicalSkills)]
  {
    var pats := Patterns(Keywords(v), Blanks);
    var t := MatchTable(pats, SampleResume);
    MatchTableValid(pats, SampleResume);
    SampleHeaderAtStart(v);
    forall q | 17 <= q < |t|
      ensures t[q].None?
    {
      SampleNoLaterHeader(v, q);
    }
    HeadersNone(t, 17);
  }

  /** "technical skills" names the skills family. */
  lemma TechnicalSkillsKey(v: Variant)
    ensures Normalise(v, TechnicalSkills) == "Skills"
  {
    assert OccursAt(TechnicalSkills, "skill", 10);
    assert Mentions(TechnicalSkills, Families(v)[1].words);
    CharMissing(TechnicalSkills, "experience", 1);
    CharMissing(TechnicalSkills, "employment", 1);
    assert !Mentions(TechnicalSkills, Families(v)[0].words);
    NormaliseFirstFamily(v, TechnicalSkills, 1);
  }

  lemma SampleTail()
    ensures Strip(SampleResume[17..]) == "Python"
  {
    var w := "Python";
    assert SampleResume[17..] == "\n" + w;
    NewlineThenTrimmed(w);
  }

  /** Split as intended, the example is one skills section holding "Python". */
  lemma SampleSections(v: Variant)
    ensures ExtractSections(v, SampleResume) == map["Skills" := "Python"]
  {
    var pats := Patterns(Keywords(v), Blanks);
    SamplePieces(v);
    SectionsFromPieces(v, pats, SampleResume);
    assert Grouped([Piece("Skills", "Python")]) == map["Skills" := "Python"] by {
      assert [Piece("Skills", "Python")][..0] == [];
    }
  }

  lemma SamplePieces(v: Variant)
    ensures var hs := FindHeaders(Patterns(Keywords(v), Blanks), SampleResume);
      PiecesBefore(KeyOf(v), Strip, SampleResume, hs, |hs|) == [Piece("Skills", "Python")]
  {
    var hs := FindHeaders(Patterns(Keywords(v), Blanks), SampleResume);
    SampleHeaders(v);
    LastPiece(KeyOf(v), SampleResume, hs);
    TechnicalSkillsKey(v);
    SampleTail();
    assert PiecesBefore(KeyOf(v), Strip, SampleResume, hs, 0) == [];
  }

  /** Split as written, the example has no header and is all experience. */
  lemma SampleSectionsAsWritten(v: Variant)
    ensures ExtractSectionsAsWritten(v, SampleResume) == map["Experience" := SampleResume]
  {
    SampleNoOneWord(v);
    assert '\\' !in SampleResume;
    AsWrittenMultiWordHeadersIgnored(v, SampleResume);
  }
}
