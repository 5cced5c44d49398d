/**
  The two résumé parsers' top-level functions: job-entry extraction and the assembly of the
  parsed résumé from the sections of its text. The text that the PDF reader produces is an
  input (`None` where the reader fails).
*/
module ResumeParser {
  import opened Wrappers
  import opened Strings
  import Seqs
  import ResumeSections
  import ResumeSkills

  /** One job of the experience section. */
  datatype JobEntry = JobEntry(title: string, companyDateInfo: string, description: string)

  /** The dictionary of parsed fields; `mostRecentJob` is `None` where Python holds `None`. */
  datatype Resume = Resume(
    mostRecentJob: Option<JobEntry>,
    allJobs: seq<JobEntry>,
    skills: seq<string>,
    summary: string,
    fullText: string)

  // ---------------------------------------------------------------------------
  // job entries of the basic parser

  /** The message of the error `re.compile` raises for the block pattern. */
  const LookBehindError: string := "look-behind requires fixed-width pattern"

  /** An element of a regular expression, as far as the width of its matches goes. */
  datatype RegexAtom =
    | Anchor                    // `^`: matches no character
    | CharClass(cs: set<char>)  // one character of a class
    | Repeat(cs: set<char>)     // `[...]*`: any number of characters of a class

  /** The number of characters every match of `atoms` spans, or `None` when matches vary in width. */
  function FixedWidth(atoms: seq<RegexAtom>): Option<nat> {
    if atoms == [] then Some(0)
    else
      match (atoms[0], FixedWidth(atoms[1..]))
      case (Repeat(_), _) => None
      case (_, None) => None
      case (a, Some(rest)) => Some((if a.CharClass? then 1 else 0) + rest)
  }

  /** `re.compile` of a look-behind: Python accepts only patterns of a fixed width. */
  function CompileLookBehind(atoms: seq<RegexAtom>): Result<(), string> {
    if FixedWidth(atoms).Some? then Success(()) else Failure(LookBehindError)
  }

  /** The look-behind `(?<!^\s*[-*•])` of the block pattern. */
  const BulletLookBehind: seq<RegexAtom> := [Anchor, Repeat(Whitespace), CharClass({'-', '*', '•'})]

  /** A look-behind has a fixed width exactly when it repeats nothing. */
  lemma {:induction false} FixedWidthIffNoRepeat(atoms: seq<RegexAtom>)
    ensures FixedWidth(atoms).Some? <==> forall i :: 0 <= i < |atoms| ==> !atoms[i].Repeat?
  {
    if atoms != [] {
      FixedWidthIffNoRepeat(atoms[1..]);
      assert forall i :: 1 <= i < |atoms| ==> atoms[i] == atoms[1..][i - 1];
    }
  }

  /** Compiling the block pattern's look-behind raises, since `\s*` has no fixed width. */
  lemma BulletLookBehindRaises()
    ensures CompileLookBehind(BulletLookBehind) == Failure(LookBehindError)
  {
    FixedWidthIffNoRepeat(BulletLookBehind);
    assert BulletLookBehind[1].Repeat?;
  }

  /**
    `extract_job_entries` of the basic parser. Empty text has no entries; for any other text
    the block pattern is compiled first, and compiling its look-behind raises before any line
    is looked at.
  */
  function BasicJobEntries(experience: string): (r: Result<seq<JobEntry>, string>)
    ensures r.Success? <==> experience == ""
    ensures r.Success? ==> r.value == []
    ensures r.Failure? ==> r.error == LookBehindError
  {
    if experience == "" then Success([])
    else
      var compiled := CompileLookBehind(BulletLookBehind);
      assert compiled.Failure? by {
        BulletLookBehindRaises();
      }
      Failure(compiled.error)
  }

  // ---------------------------------------------------------------------------
  // job entries of the advanced parser

  /** The company names the title filter searches for, case-insensitively. */
  const CompanyWords: seq<string> := ["inc", "llc", "ltd", "gmbh", "corp", "solution"]

  /**
    `re.search(r"(?i)(inc\.?|llc|ltd\.?|gmbh|corp\.?|solution)", t)`: an optional dot after a
    word never changes whether the search succeeds.
  */
  predicate NamesCompany(t: string) {
    exists i :: 0 <= i < |CompanyWords| && Contains(Lower(t), CompanyWords[i])
  }

  /** `re.search(r"\d{2,}", s)`: two digits in a row. */
  predicate TwoDigits(s: string) {
    exists i :: 0 <= i < |s| - 1 && IsDigit(s[i]) && IsDigit(s[i + 1])
  }

  /**
    The title test of the advanced `extract_job_entries`, as written: a candidate must both
    hold no comma and split at commas into more than three parts.
  */
  predicate TitleAccepted(t: string) {
    && 3 < |t| < 70
    && !NamesCompany(t)
    && ',' !in t
    && |Split(t, ",")| > 3
    && !TwoDigits(ReplaceAll(ReplaceAll(t, "3D", ""), "2D", ""))
  }

  /** No title passes: without a comma the split has a single part. */
  lemma TitleNeverAccepted(t: string)
    ensures !TitleAccepted(t)
  {
    if ',' !in t {
      ContainsChar(t, ',');
      SplitWithoutSeparator(t, ",");
    }
  }

  /**
    The entries built from the title candidates `titles[i..]` (the first groups of the
    title-line matches); `entry(i)` is what the block after candidate `i` yields, `None` where
    the sub-heading check skips it.
  */
  function AdvancedEntriesFrom(titles: seq<string>, entry: nat -> Option<JobEntry>, i: nat): seq<JobEntry>
    decreases |titles| - i
  {
    if i >= |titles| then []
    else
      var rest := AdvancedEntriesFrom(titles, entry, i + 1);
      if !TitleAccepted(Strip(titles[i])) then rest
      else
        match entry(i)
        case None => rest
        case Some(e) => [e] + rest
  }

  /** `extract_job_entries` of the advanced parser: it never finds a job. */
  function AdvancedJobEntries(experience: string, titles: seq<string>, entry: nat -> Option<JobEntry>): (r: seq<JobEntry>)
    ensures r == []
  {
    if experience == "" then []
    else
      NoEntriesFrom(titles, entry, 0);
      AdvancedEntriesFrom(titles, entry, 0)
  }

  lemma {:induction false} NoEntriesFrom(titles: seq<string>, entry: nat -> Option<JobEntry>, i: nat)
    ensures AdvancedEntriesFrom(titles, entry, i) == []
    decreases |titles| - i
  {
    if i < |titles| {
      TitleNeverAccepted(Strip(titles[i]));
      NoEntriesFrom(titles, entry, i + 1);
    }
  }

  // ---------------------------------------------------------------------------
  // skills spotted in a job description (basic parser)

  /** `re.split(r'[.\n]', s)` with the class `cs`: the pieces between single separators. */
  function SplitAtAny(s: string, cs: set<char>): (parts: seq<string>)
    ensures |parts| >= 1
    decreases |s|
  {
    if s == [] then [""]
    else
      var rest := SplitAtAny(s[1..], cs);
      if s[0] in cs then [""] + rest
      else [[s[0]] + rest[0]] + rest[1..]
  }

  predicate NoneIn(s: string, cs: set<char>) {
    forall i :: 0 <= i < |s| ==> s[i] !in cs
  }

  /** No piece holds a separator. */
  lemma {:induction false} SplitAtAnyAvoids(s: string, cs: set<char>)
    ensures forall k :: 0 <= k < |SplitAtAny(s, cs)| ==> NoneIn(SplitAtAny(s, cs)[k], cs)
    decreases |s|
  {
    if s != [] {
      SplitAtAnyAvoids(s[1..], cs);
    }
  }

  lemma {:induction false} SplitAtAnyWhole(x: string, cs: set<char>)
    requires NoneIn(x, cs)
    ensures SplitAtAny(x, cs) == [x]
    decreases |x|
  {
    if x != [] {
      SplitAtAnyWhole(x[1..], cs);
      assert [x[0]] + x[1..] == x;
    }
  }

  lemma {:induction false} SplitAtAnyFirst(x: string, c: char, t: string, cs: set<char>)
    requires NoneIn(x, cs) && c in cs
    ensures SplitAtAny(x + [c] + t, cs) == [x] + SplitAtAny(t, cs)
    decreases |x|
  {
    var s := x + [c] + t;
    if x == [] {
      assert s[0] == c && s[1..] == t;
    } else {
      assert s[0] == x[0] && s[1..] == x[1..] + [c] + t;
      SplitAtAnyFirst(x[1..], c, t, cs);
      assert [x[0]] + x[1..] == x;
    }
  }

  /** Splitting text joined with one of the separators gives back the pieces. */
  lemma {:induction false} SplitAtAnyJoin(c: char, xs: seq<string>, cs: set<char>)
    requires |xs| > 0 && c in cs
    requires forall k :: 0 <= k < |xs| ==> NoneIn(xs[k], cs)
    ensures SplitAtAny(Join([c], xs), cs) == xs
    decreases |xs|
  {
    if |xs| == 1 {
      SplitAtAnyWhole(xs[0], cs);
    } else {
      var t := Join([c], xs[1..]);
      assert Join([c], xs) == xs[0] + [c] + t;
      SplitAtAnyFirst(xs[0], c, t, cs);
      SplitAtAnyJoin(c, xs[1..], cs);
      assert [xs[0]] + xs[1..] == xs;
    }
  }

  /**
    `str.istitle()` read from position `i`, where `prevCased` says whether the character before
    was a letter and `cased` whether any letter was seen.
  */
  predicate TitleFrom(w: string, i: nat, prevCased: bool, cased: bool)
    decreases |w| - i
  {
    if i >= |w| then cased
    else if IsUpper(w[i]) then !prevCased && TitleFrom(w, i + 1, true, true)
    else if IsLower(w[i]) then prevCased && TitleFrom(w, i + 1, true, true)
    else TitleFrom(w, i + 1, false, cased)
  }

  /**
    `str.istitle()`: some letter, every upper-case letter follows a non-letter and every
    lower-case letter follows a letter.
  */
  predicate IsTitle(w: string) {
    TitleFrom(w, 0, false, false)
  }

  predicate Letters(w: string) {
    forall i :: 0 <= i < |w| ==> IsLetter(w[i])
  }

  /** From position `i` on, a word of letters only continues in lower case. */
  lemma {:induction false} TitleFromLetters(w: string, i: nat)
    requires Letters(w) && 0 < i <= |w|
    ensures TitleFrom(w, i, true, true) <==> forall j :: i <= j < |w| ==> IsLower(w[j])
    decreases |w| - i
  {
    if i < |w| {
      TitleFromLetters(w, i + 1);
    }
  }

  /** A word of letters is a title exactly when it is one capital followed by small letters. */
  lemma TitleOfLetters(w: string)
    requires Letters(w)
    ensures IsTitle(w) <==> |w| > 0 && IsUpper(w[0]) && forall j :: 1 <= j < |w| ==> IsLower(w[j])
  {
    if |w| > 0 {
      TitleFromLetters(w, 1);
    }
  }

  const SentenceEnds: set<char> := {'.', '\n'}
  const Punctuation: set<char> := {',', '.', ';', ':'}
  const CommonWords: seq<string> := ["the", "and", "for", "with"]

  /** A word worth keeping: title case, longer than two characters and not a common word. */
  predicate Spottable(w: string) {
    IsTitle(w) && |w| > 2 && Lower(w) !in CommonWords
  }

  /** The spottable words of `ws`, each stripped of `,.;:`. */
  function SpotWords(ws: seq<string>): seq<string>
    decreases |ws|
  {
    if ws == [] then []
    else (if Spottable(ws[0]) then [StripChars(ws[0], Punctuation)] else []) + SpotWords(ws[1..])
  }

  /** The spotted words of one sentence, skipping its first word. */
  function SentenceSkills(sentence: string): seq<string> {
    var ws := Words(sentence);
    if ws == [] then [] else SpotWords(ws[1..])
  }

  function SpotSentences(sentences: seq<string>): seq<string>
    decreases |sentences|
  {
    if sentences == [] then [] else SentenceSkills(sentences[0]) + SpotSentences(sentences[1..])
  }

  /** The words the basic parser spots in a job description, in order and with repeats. */
  function DescriptionSkills(description: string): seq<string> {
    SpotSentences(SplitAtAny(description, SentenceEnds))
  }

  /** Word `i` of sentence `j` is spottable, and stripped it is `c`. */
  predicate SpottedAt(sentences: seq<string>, j: int, i: int, c: string) {
    && 0 <= j < |sentences|
    && 0 < i < |Words(sentences[j])|
    && Spottable(Words(sentences[j])[i])
    && StripChars(Words(sentences[j])[i], Punctuation) == c
  }

  /** `c` is a spotted word of some sentence. */
  predicate SpottedIn(sentences: seq<string>, c: string) {
    exists j, i :: 0 <= j < |sentences| && 0 <= i < |Words(sentences[j])| && SpottedAt(sentences, j, i, c)
  }

  lemma {:induction false} SpotWordsMembers(ws: seq<string>, c: string)
    ensures c in SpotWords(ws) <==>
      exists i :: 0 <= i < |ws| && Spottable(ws[i]) && StripChars(ws[i], Punctuation) == c
    decreases |ws|
  {
    if ws != [] {
      SpotWordsMembers(ws[1..], c);
      if c in SpotWords(ws[1..]) {
        var i :| 0 <= i < |ws[1..]| && Spottable(ws[1..][i]) && StripChars(ws[1..][i], Punctuation) == c;
        assert ws[i + 1] == ws[1..][i];
      }
      if exists i :: 0 <= i < |ws| && Spottable(ws[i]) && StripChars(ws[i], Punctuation) == c {
        var i :| 0 <= i < |ws| && Spottable(ws[i]) && StripChars(ws[i], Punctuation) == c;
        if i > 0 {
          assert ws[1..][i - 1] == ws[i];
        }
      }
    }
  }

  lemma SentenceSkillsMembers(sentence: string, c: string)
    ensures c in SentenceSkills(sentence) <==>
      exists i :: 0 < i < |Words(sentence)| && Spottable(Words(sentence)[i])
        && StripChars(Words(sentence)[i], Punctuation) == c
  {
    var ws := Words(sentence);
    if ws != [] {
      SpotWordsMembers(ws[1..], c);
      if c in SentenceSkills(sentence) {
        var i :| 0 <= i < |ws[1..]| && Spottable(ws[1..][i]) && StripChars(ws[1..][i], Punctuation) == c;
        assert ws[i + 1] == ws[1..][i];
      }
      if exists i :: 0 < i < |ws| && Spottable(ws[i]) && StripChars(ws[i], Punctuation) == c {
        var i :| 0 < i < |ws| && Spottable(ws[i]) && StripChars(ws[i], Punctuation) == c;
        assert ws[1..][i - 1] == ws[i];
      }
    }
  }

  /** A spotted word is a spottable word, not first in its sentence, stripped of punctuation. */
  lemma {:induction false} SpotSentencesMembers(sentences: seq<string>, c: string)
    ensures c in SpotSentences(sentences) <==> SpottedIn(sentences, c)
    decreases |sentences|
  {
    if sentences != [] {
      var first := SentenceSkills(sentences[0]);
      var rest := sentences[1..];
      SpotSentencesMembers(rest, c);
      SentenceSkillsMembers(sentences[0], c);
      assert SpotSentences(sentences) == first + SpotSentences(rest);
      if c in SpotSentences(sentences) {
        if c in first {
          var i :| 0 < i < |Words(sentences[0])| && Spottable(Words(sentences[0])[i])
            && StripChars(Words(sentences[0])[i], Punctuation) == c;
          assert SpottedAt(sentences, 0, i, c);
        } else {
          assert SpottedIn(rest, c);
          var j, i :| 0 <= j < |rest| && 0 <= i < |Words(rest[j])| && SpottedAt(rest, j, i, c);
          assert rest[j] == sentences[j + 1];
          assert SpottedAt(sentences, j + 1, i, c);
        }
      }
      if SpottedIn(sentences, c) {
        var j, i :| 0 <= j < |sentences| && 0 <= i < |Words(sentences[j])| && SpottedAt(sentences, j, i, c);
        if j == 0 {
          assert c in first;
        } else {
          assert rest[j - 1] == sentences[j];
          assert SpottedAt(rest, j - 1, i, c);
          assert c in SpotSentences(rest);
        }
      }
    }
  }

  // ---------------------------------------------------------------------------
  // parse_resume_data (basic parser)

  /** The first job, taken as the most recent: the entries are in reverse chronological order. */
  function MostRecent(jobs: seq<JobEntry>): Option<JobEntry> {
    if jobs != [] then Some(jobs[0]) else None
  }

  const ReadError: string := "Could not read text from PDF."

  /** What `parse_resume_data` returns: the parsed fields, or a dictionary holding only an error. */
  datatype Response = Parsed(resume: Resume) | Error(message: string)

  /** The ten unique description words the fallback adds to an empty skill list. */
  function FallbackSkills(recent: JobEntry): (r: seq<string>)
    ensures |r| <= 10 && Seqs.NoDuplicates(r)
  {
    var spotted := Seqs.Dedupe(DescriptionSkills(recent.description));
    var r := Seqs.Take(spotted, 10);
    assert Seqs.NoDuplicates(r) by {
      forall i, j | 0 <= i < j < |r|
        ensures r[i] != r[j]
      {
        assert r[i] == spotted[i] && r[j] == spotted[j];
      }
    }
    r
  }

  /**
    The final skill list: with no skill found and a most recent job whose description is not
    empty, the spotted words are added; the list is de-duplicated at the end.
  */
  function FinalSkills(found: seq<string>, recent: Option<JobEntry>): (r: seq<string>)
    ensures Seqs.NoDuplicates(r)
  {
    var extended :=
      if found == [] && recent.Some? && recent.value.description != "" then
        var spotted := DescriptionSkills(recent.value.description);
        if spotted != [] then found + FallbackSkills(recent.value) else found
      else found;
    Seqs.Dedupe(extended)
  }

  /**
    `parse_resume_data` after `pdf_to_text`, with every space of a section keyword matched by
    `space` and the job-entry extractor as a parameter: `jobEntries` fails where it raises.
  */
  function ParseResumeDataWith(text: Option<string>, space: ResumeSections.Token,
                               jobEntries: string -> Result<seq<JobEntry>, string>)
    : (r: Result<Response, string>)
  {
    if text.None? || text.value == "" then Success(Error(ReadError))
    else
      var t := text.value;
      var sections := ResumeSections.SplitSections(ResumeSections.Basic, space, t);
      var summary := ResumeSections.Get(sections, "Summary",
        ResumeSections.Get(sections, "Profile", ResumeSections.Get(sections, "Objective", "")));
      var entries := if "Experience" in sections then jobEntries(sections["Experience"]) else Success([]);
      match entries
      case Failure(e) => Failure(e)
      case Success(jobs) =>
        var recent := MostRecent(jobs);
        var found := if "Skills" in sections then ResumeSkills.ExtractSkills(ResumeSections.Basic, sections["Skills"]) else [];
        Success(Parsed(Resume(recent, jobs, FinalSkills(found, recent), summary, t)))
  }

  /** `parse_resume_data` as written: keyword spaces match a backslash and `s`, and the basic extractor. */
  function ParseResumeData(text: Option<string>): Result<Response, string> {
    ParseResumeDataWith(text, ResumeSections.SlashS, BasicJobEntries)
  }

  /** `parse_resume_data` with keyword spaces matching blanks, as evidently intended. */
  function ParseResumeDataCorrected(text: Option<string>): Result<Response, string> {
    ParseResumeDataWith(text, ResumeSections.Blanks, BasicJobEntries)
  }

  /** The error dictionary comes back exactly when there is no text. */
  lemma ReadErrorIffNoText(text: Option<string>, space: ResumeSections.Token,
                           jobEntries: string -> Result<seq<JobEntry>, string>)
    ensures ParseResumeDataWith(text, space, jobEntries) == Success(Error(ReadError)) <==> text.None? || text.value == ""
  {
  }

  /** The job entries, when they do not raise, are all the jobs, and the first is the most recent. */
  lemma MostRecentIsFirst(t: string, space: ResumeSections.Token, jobEntries: string -> Result<seq<JobEntry>, string>)
    requires t != ""
    ensures var sections := ResumeSections.SplitSections(ResumeSections.Basic, space, t);
      var entries := if "Experience" in sections then jobEntries(sections["Experience"]) else Success([]);
      match ParseResumeDataWith(Some(t), space, jobEntries)
      case Failure(e) => entries == Failure(e)
      case Success(response) =>
        && entries.Success?
        && response.Parsed?
        && response.resume.allJobs == entries.value
        && (response.resume.mostRecentJob.Some? <==> entries.value != [])
        && (entries.value != [] ==> response.resume.mostRecentJob == Some(entries.value[0]))
        && response.resume.fullText == t
  {
  }

  /**
    With the basic extractor, parsing raises exactly when the experience section is not empty:
    the summary and skills are never reached then.
  */
  lemma BasicParseRaises(t: string, space: ResumeSections.Token)
    requires t != ""
    ensures var sections := ResumeSections.SplitSections(ResumeSections.Basic, space, t);
      var fails := ParseResumeDataWith(Some(t), space, BasicJobEntries).Failure?;
      fails <==> "Experience" in sections && sections["Experience"] != ""
  {
  }

  /** A text in which no header is found becomes one experience section, so parsing it raises. */
  lemma HeaderlessResumeRaises(t: string, space: ResumeSections.Token)
    requires t != ""
    requires ResumeSections.FindHeaders(ResumeSections.Patterns(ResumeSections.Keywords(ResumeSections.Basic), space), t) == []
    ensures ParseResumeDataWith(Some(t), space, BasicJobEntries) == Failure(LookBehindError)
  {
    ResumeSections.NoHeadersFallback(ResumeSections.Basic,
      ResumeSections.Patterns(ResumeSections.Keywords(ResumeSections.Basic), space), t);
  }

  /**
    As written, a résumé without a backslash whose lines begin with no one-word keyword has no
    header, whatever multi-word headers it holds, so parsing it raises.
  */
  lemma MultiWordHeadersRaise(t: string)
    requires t != "" && '\\' !in t && ResumeSections.NoOneWordHeaderLine(ResumeSections.Basic, t)
    ensures ParseResumeData(Some(t)) == Failure(LookBehindError)
  {
    ResumeSections.AsWrittenMultiWordHeadersIgnored(ResumeSections.Basic, t);
    HeaderlessResumeRaises(t, ResumeSections.SlashS);
  }

  /**
    When the basic parser succeeds on a text, it found no job, its summary is the "Summary"
    section or "", and its skills are those of the skills section, so the fallback never runs.
  */
  lemma BasicParsed(t: string, space: ResumeSections.Token)
    requires t != "" && ParseResumeDataWith(Some(t), space, BasicJobEntries).Success?
    ensures var sections := ResumeSections.SplitSections(ResumeSections.Basic, space, t);
      var response := ParseResumeDataWith(Some(t), space, BasicJobEntries).value;
      && response.Parsed?
      && response.resume.mostRecentJob == None
      && response.resume.allJobs == []
      && response.resume.summary == ResumeSections.Get(sections, "Summary", "")
      && response.resume.skills ==
        (if "Skills" in sections then ResumeSkills.ExtractSkills(ResumeSections.Basic, sections["Skills"]) else [])
  {
    var sections := ResumeSections.SplitSections(ResumeSections.Basic, space, t);
    ResumeSections.SummaryIsSummarySection(ResumeSections.Basic,
      ResumeSections.Patterns(ResumeSections.Keywords(ResumeSections.Basic), space), t);
    var found := if "Skills" in sections then ResumeSkills.ExtractSkills(ResumeSections.Basic, sections["Skills"]) else [];
    Seqs.DedupeOfDistinct(found);
  }

  /** Skills found in the skills section are kept as they are: the fallback needs an empty list. */
  lemma FoundSkillsKept(found: seq<string>, recent: Option<JobEntry>)
    requires found != [] && Seqs.NoDuplicates(found)
    ensures FinalSkills(found, recent) == found
  {
    Seqs.DedupeOfDistinct(found);
  }

  /**
    With no skill found and a most recent job with a description, the skills are the first ten
    unique words spotted in that description.
  */
  lemma FallbackTaken(recent: JobEntry)
    requires recent.description != ""
    ensures FinalSkills([], Some(recent)) == FallbackSkills(recent)
  {
    var f := FallbackSkills(recent);
    Seqs.DedupeOfDistinct(f);
    assert [] + f == f;
    if DescriptionSkills(recent.description) == [] {
      assert Seqs.Dedupe(DescriptionSkills(recent.description)) == [];
    }
  }

  /** Without a most recent job, or with an empty description, nothing is added. */
  lemma FallbackNeedsDescription(recent: Option<JobEntry>)
    requires recent.None? || recent.value.description == ""
    ensures FinalSkills([], recent) == []
  {
  }

  /**
    Every fallback skill is a spotted word of the description; when there are at most ten
    distinct ones, every spotted word is a fallback skill.
  */
  lemma FallbackSkillsMembers(recent: JobEntry, c: string)
    ensures c in FallbackSkills(recent) ==> SpottedIn(SplitAtAny(recent.description, SentenceEnds), c)
    ensures |Seqs.Dedupe(DescriptionSkills(recent.description))| <= 10 ==>
      (c in FallbackSkills(recent) <==> SpottedIn(SplitAtAny(recent.description, SentenceEnds), c))
  {
    var sentences := SplitAtAny(recent.description, SentenceEnds);
    var spotted := SpotSentences(sentences);
    assert FallbackSkills(recent) == Seqs.Take(Seqs.Dedupe(spotted), 10);
    Seqs.TakeDedupeMembers(spotted, 10, c);
    SpotSentencesMembers(sentences, c);
  }

  // ---------------------------------------------------------------------------
  // parse_resume (advanced parser)

  /**
    `parse_resume` after `pdf_to_text`, with every space of a section keyword matched by
    `space`. `titles(x)` are the first groups of the title-line matches in the experience text
    `x`, and `entry(x)(i)` what the block after match `i` yields.
  */
  function ParseResumeWith(text: Option<string>, space: ResumeSections.Token,
                           titles: string -> seq<string>, entry: string -> nat -> Option<JobEntry>)
    : (r: Option<Resume>)
  {
    if text.None? || text.value == "" then None
    else
      var t := text.value;
      var sections := ResumeSections.SplitSections(ResumeSections.Advanced, space, t);
      var jobs :=
        if "Experience" in sections then
          var x := sections["Experience"];
          AdvancedJobEntries(x, titles(x), entry(x))
        else [];
      var recent := MostRecent(jobs);
      var skills := if "Skills" in sections then ResumeSkills.ExtractSkills(ResumeSections.Advanced, sections["Skills"]) else [];
      Some(Resume(recent, jobs, skills, ResumeSections.Get(sections, "Summary", ""), t))
  }

  /** `parse_resume` as written: keyword spaces match a backslash and `s`. */
  function ParseResume(text: Option<string>, titles: string -> seq<string>, entry: string -> nat -> Option<JobEntry>)
    : Option<Resume>
  {
    ParseResumeWith(text, ResumeSections.SlashS, titles, entry)
  }

  /** `parse_resume` with keyword spaces matching blanks, as evidently intended. */
  function ParseResumeCorrected(text: Option<string>, titles: string -> seq<string>, entry: string -> nat -> Option<JobEntry>)
    : Option<Resume>
  {
    ParseResumeWith(text, ResumeSections.Blanks, titles, entry)
  }

  /**
    `parse_resume` gives `None` exactly for a missing or empty text. Otherwise it never finds a
    job, its summary is the "Summary" section or "", and its skills are those of the skills
    section, or none.
  */
  lemma AdvancedParsed(text: Option<string>, space: ResumeSections.Token,
                       titles: string -> seq<string>, entry: string -> nat -> Option<JobEntry>)
    ensures ParseResumeWith(text, space, titles, entry).None? <==> text.None? || text.value == ""
    ensures ParseResumeWith(text, space, titles, entry).Some? ==>
      var t := text.value;
      var sections := ResumeSections.SplitSections(ResumeSections.Advanced, space, t);
      var r := ParseResumeWith(text, space, titles, entry).value;
      && r.mostRecentJob == None
      && r.allJobs == []
      && r.summary == ResumeSections.Get(sections, "Summary", "")
      && r.skills ==
        (if "Skills" in sections then ResumeSkills.ExtractSkills(ResumeSections.Advanced, sections["Skills"]) else [])
      && r.fullText == t
  {
  }

  // ---------------------------------------------------------------------------
  // the parsers as written and as intended, on a résumé with a two-word header

  /** A skill written as one plain word. */
  const Python: string := "Python"

  lemma PythonPlain()
    ensures forall i :: 0 <= i < |Python| ==> Python[i] !in Whitespace && Python[i] !in ResumeSkills.Delimiters && IsLetter(Python[i]) && !IsSpace(Python[i])
  {
  }

  lemma PythonSeparated(v: ResumeSections.Variant)
    ensures ResumeSkills.Separated(v, Python, Whitespace)
  {
    PythonPlain();
  }

  lemma PythonClean(v: ResumeSections.Variant)
    ensures ResumeSkills.Clean(v, Python) == Python
  {
    PythonPlain();
    assert Trimmed(Python, Whitespace) && Trimmed(Python, {'.'});
    StripCharsOfTrimmed(Python, Whitespace);
    TrimRightOfTrimmed(Python, {'.'});
  }

  lemma PythonKept(v: ResumeSections.Variant)
    ensures ResumeSkills.Keep(v, Python)
  {
    PythonPlain();
    assert IsLetter(Python[0]) && !IsDigit(Python[0]);
    WordsOfWord(Python);
    assert Lower(Python) == "python";
  }

  lemma PythonReadable(v: ResumeSections.Variant)
    ensures ResumeSkills.Readable(v, [Python])
  {
    PythonSeparated(v);
    PythonClean(v);
    PythonKept(v);
    PythonPlain();
  }

  /** A skills section holding one plain word is read back as that word. */
  lemma OneWordSkills(v: ResumeSections.Variant)
    ensures ResumeSkills.ExtractSkills(v, Python) == [Python]
  {
    PythonReadable(v);
    PlainSkill(v, Python);
  }

  lemma PlainSkill(v: ResumeSections.Variant, w: string)
    requires ResumeSkills.Readable(v, [w]) && w != [] && w[0] !in ResumeSections.Bullets
    ensures ResumeSkills.ExtractSkills(v, w) == [w]
  {
    assert Join(", ", [w]) == w;
    ResumeSkills.SkillsOfCommaList(v, [w]);
  }

  /** A text split into a single skills section parses to those skills and nothing else. */
  lemma SkillsOnlyParsed(t: string, space: ResumeSections.Token, x: string)
    requires t != "" && ResumeSections.SplitSections(ResumeSections.Basic, space, t) == map["Skills" := x]
    ensures ParseResumeDataWith(Some(t), space, BasicJobEntries)
      == Success(Parsed(Resume(None, [], FinalSkills(ResumeSkills.ExtractSkills(ResumeSections.Basic, x), None), "", t)))
  {
    var sections := ResumeSections.SplitSections(ResumeSections.Basic, space, t);
    assert "Experience" !in sections && "Summary" !in sections;
    assert "Profile" !in sections && "Objective" !in sections;
    assert "Skills" in sections && sections["Skills"] == x;
    assert MostRecent([]) == None;
  }

  /**
    On "Technical Skills:\nPython" the basic parser as written raises and the advanced one
    finds no skill, since the header is not recognised; with blanks for the keyword spaces both
    read the skill "Python".
  */
  lemma SampleResumeParsed(titles: string -> seq<string>, entry: string -> nat -> Option<JobEntry>)
    ensures ParseResumeData(Some(ResumeSections.SampleResume)) == Failure(LookBehindError)
    ensures ParseResumeDataCorrected(Some(ResumeSections.SampleResume))
      == Success(Parsed(Resume(None, [], [Python], "", ResumeSections.SampleResume)))
    ensures ParseResume(Some(ResumeSections.SampleResume), titles, entry)
      == Some(Resume(None, [], [], "", ResumeSections.SampleResume))
    ensures ParseResumeCorrected(Some(ResumeSections.SampleResume), titles, entry)
      == Some(Resume(None, [], [Python], "", ResumeSections.SampleResume))
  {
    SampleBasicAsWritten();
    SampleBasicCorrected();
    SampleAdvancedAsWritten(titles, entry);
    SampleAdvancedCorrected(titles, entry);
  }

  lemma SampleBasicAsWritten()
    ensures ParseResumeData(Some(ResumeSections.SampleResume)) == Failure(LookBehindError)
  {
    ResumeSections.SampleSectionsAsWritten(ResumeSections.Basic);
  }

  lemma SampleBasicCorrected()
    ensures ParseResumeDataCorrected(Some(ResumeSections.SampleResume))
      == Success(Parsed(Resume(None, [], [Python], "", ResumeSections.SampleResume)))
  {
    ResumeSections.SampleSections(ResumeSections.Basic);
    SkillsOnlyParsed(ResumeSections.SampleResume, ResumeSections.Blanks, Python);
    OneWordSkills(ResumeSections.Basic);
    FoundSkillsKept([Python], None);
  }

  lemma SampleAdvancedAsWritten(titles: string -> seq<string>, entry: string -> nat -> Option<JobEntry>)
    ensures ParseResume(Some(ResumeSections.SampleResume), titles, entry)
      == Some(Resume(None, [], [], "", ResumeSections.SampleResume))
  {
    ResumeSections.SampleSectionsAsWritten(ResumeSections.Advanced);
    ExperienceOnlyAdvanced(ResumeSections.SampleResume, ResumeSections.SlashS, titles, entry);
  }

  lemma SampleAdvancedCorrected(titles: string -> seq<string>, entry: string -> nat -> Option<JobEntry>)
    ensures ParseResumeCorrected(Some(ResumeSections.SampleResume), titles, entry)
      == Some(Resume(None, [], [Python], "", ResumeSections.SampleResume))
  {
    ResumeSections.SampleSections(ResumeSections.Advanced);
    SkillsOnlyAdvanced(ResumeSections.SampleResume, ResumeSections.Blanks, Python, titles, entry);
    OneWordSkills(ResumeSections.Advanced);
  }

  /** A text split into one experience section parses to nothing but the text. */
  lemma ExperienceOnlyAdvanced(t: string, space: ResumeSections.Token,
                               titles: string -> seq<string>, entry: string -> nat -> Option<JobEntry>)
    requires t != "" && ResumeSections.SplitSections(ResumeSections.Advanced, space, t) == map["Experience" := t]
    ensures ParseResumeWith(Some(t), space, titles, entry) == Some(Resume(None, [], [], "", t))
  {
  }

  /** A text split into one skills section parses to those skills and nothing else. */
  lemma SkillsOnlyAdvanced(t: string, space: ResumeSections.Token, x: string,
                           titles: string -> seq<string>, entry: string -> nat -> Option<JobEntry>)
    requires t != "" && ResumeSections.SplitSections(ResumeSections.Advanced, space, t) == map["Skills" := x]
    ensures ParseResumeWith(Some(t), space, titles, entry)
      == Some(Resume(None, [], ResumeSkills.ExtractSkills(ResumeSections.Advanced, x), "", t))
  {
  }
}
