/**
  The résumé page's suggestions: the search hits are turned into job labels, and the query
  texts are composed from a parsed résumé. The encoder and the vector index are outside the
  model; their search result is an input.
*/
module Suggestions {
  import opened Wrappers
  import opened Strings
  import Seqs
  import JobLabels
  import ResumeParser

  // ---------------------------------------------------------------------------
  // generate_suggestions_from_text

  /** One suggestion: the decoded label of a stored job and the similarity of the hit. */
  datatype Suggestion = Suggestion(title: string, description: string, confidence: real)

  /** The first row of what the index search returns: scores and stored-job positions, by rank. */
  datatype Hits = Hits(distances: seq<real>, indices: seq<int>)

  /** The search returns a score for every position it returns. */
  predicate WellShaped(h: Hits) {
    |h.distances| == |h.indices|
  }

  /** Hit `i` names a stored job; padding such as `-1` does not. */
  predicate InRange(data: seq<string>, h: Hits, i: nat)
    requires i < |h.indices|
  {
    0 <= h.indices[i] < |data|
  }

  /** How a stored job's text is shown: `extract_job_title_and_description`. */
  type Decoder = string -> JobLabels.JobLabel

  /** The suggestion hit `i` gives, its stored job decoded by `decode`. */
  function SuggestionAt(data: seq<string>, h: Hits, i: nat, decode: Decoder): Suggestion
    requires WellShaped(h) && i < |h.indices| && InRange(data, h, i)
  {
    var decoded := decode(data[h.indices[i]]);
    Suggestion(decoded.title, decoded.description, h.distances[i])
  }

  /** The suggestions of the hits from rank `i` on. */
  function Collect(data: seq<string>, h: Hits, i: nat, decode: Decoder): seq<Suggestion>
    requires WellShaped(h) && i <= |h.indices|
    decreases |h.indices| - i
  {
    if i == |h.indices| then []
    else if InRange(data, h, i) then [SuggestionAt(data, h, i, decode)] + Collect(data, h, i + 1, decode)
    else Collect(data, h, i + 1, decode)
  }

  /**
    `generate_suggestions_from_text`: no suggestion for an empty query, a missing model, index
    or job list, or a failed search; otherwise one per hit that names a stored job.
  */
  function GenerateSuggestions(
    modelLoaded: bool, indexLoaded: bool, data: Option<seq<string>>, query: string,
    search: Result<Hits, string>): (r: seq<Suggestion>)
    requires search.Success? ==> WellShaped(search.value)
    ensures query == "" || !modelLoaded || !indexLoaded || data.None? || search.Failure? ==> r == []
    ensures search.Success? ==> |r| <= |search.value.indices|
  {
    if query == "" || !modelLoaded || !indexLoaded || data.None? then []
    else
      match search
      case Failure(_) => []
      case Success(h) =>
        CollectAtMost(data.value, h, 0, JobLabels.ExtractJobTitleAndDescription);
        Collect(data.value, h, 0, JobLabels.ExtractJobTitleAndDescription)
  }

  lemma {:induction false} CollectAtMost(data: seq<string>, h: Hits, i: nat, decode: Decoder)
    requires WellShaped(h) && i <= |h.indices|
    ensures |Collect(data, h, i, decode)| <= |h.indices| - i
    decreases |h.indices| - i
  {
    if i < |h.indices| {
      CollectAtMost(data, h, i + 1, decode);
    }
  }

  /** The ranks from `i` on whose hit names a stored job, in rank order. */
  function RanksFrom(data: seq<string>, h: Hits, i: nat): (ps: seq<nat>)
    requires i <= |h.indices|
    decreases |h.indices| - i
  {
    if i == |h.indices| then []
    else if InRange(data, h, i) then [i] + RanksFrom(data, h, i + 1)
    else RanksFrom(data, h, i + 1)
  }

  /** The ranks of the kept hits: increasing, in range, and every rank in range among them. */
  lemma RanksFromShape(data: seq<string>, h: Hits, i: nat)
    requires i <= |h.indices|
    ensures var ps := RanksFrom(data, h, i);
      && (forall k :: 0 <= k < |ps| ==> i <= ps[k] < |h.indices| && InRange(data, h, ps[k]))
      && (forall k, l :: 0 <= k < l < |ps| ==> ps[k] < ps[l])
      && (forall j :: i <= j < |h.indices| && InRange(data, h, j) ==> j in ps)
  {
    RanksFromBounds(data, h, i);
    RanksFromIncreasing(data, h, i);
    RanksFromComplete(data, h, i);
  }

  lemma {:induction false} RanksFromBounds(data: seq<string>, h: Hits, i: nat)
    requires i <= |h.indices|
    ensures forall k :: 0 <= k < |RanksFrom(data, h, i)| ==>
      i <= RanksFrom(data, h, i)[k] < |h.indices| && InRange(data, h, RanksFrom(data, h, i)[k])
    decreases |h.indices| - i
  {
    if i < |h.indices| {
      RanksFromBounds(data, h, i + 1);
      var rest := RanksFrom(data, h, i + 1);
      if InRange(data, h, i) {
        var ps := [i] + rest;
        assert RanksFrom(data, h, i) == ps;
        forall k | 0 <= k < |ps|
          ensures i <= ps[k] < |h.indices| && InRange(data, h, ps[k])
        {
          if k > 0 {
            assert ps[k] == rest[k - 1];
          }
        }
      }
    }
  }

  lemma {:induction false} RanksFromIncreasing(data: seq<string>, h: Hits, i: nat)
    requires i <= |h.indices|
    ensures forall k, l :: 0 <= k < l < |RanksFrom(data, h, i)| ==>
      RanksFrom(data, h, i)[k] < RanksFrom(data, h, i)[l]
    decreases |h.indices| - i
  {
    if i < |h.indices| {
      RanksFromIncreasing(data, h, i + 1);
      RanksFromBounds(data, h, i + 1);
      var rest := RanksFrom(data, h, i + 1);
      if InRange(data, h, i) {
        var ps := [i] + rest;
        assert RanksFrom(data, h, i) == ps;
        forall k, l | 0 <= k < l < |ps|
          ensures ps[k] < ps[l]
        {
          assert ps[l] == rest[l - 1];
          if k > 0 {
            assert ps[k] == rest[k - 1];
          }
        }
      }
    }
  }

  lemma {:induction false} RanksFromComplete(data: seq<string>, h: Hits, i: nat)
    requires i <= |h.indices|
    ensures forall j :: i <= j < |h.indices| && InRange(data, h, j) ==> j in RanksFrom(data, h, i)
    decreases |h.indices| - i
  {
    if i < |h.indices| {
      RanksFromComplete(data, h, i + 1);
      var rest := RanksFrom(data, h, i + 1);
      if InRange(data, h, i) {
        assert RanksFrom(data, h, i) == [i] + rest;
      }
    }
  }

  /** The `k`-th kept suggestion is the one of the `k`-th kept rank. */
  lemma {:induction false} CollectAtRanks(data: seq<string>, h: Hits, i: nat, decode: Decoder)
    requires WellShaped(h) && i <= |h.indices|
    ensures var ps := RanksFrom(data, h, i); var r := Collect(data, h, i, decode);
      && |r| == |ps|
      && (forall k :: 0 <= k < |ps| ==> ps[k] < |h.indices| && InRange(data, h, ps[k]))
      && (forall k :: 0 <= k < |ps| ==> r[k] == SuggestionAt(data, h, ps[k], decode))
    decreases |h.indices| - i
  {
    if i < |h.indices| {
      CollectAtRanks(data, h, i + 1, decode);
      var rest := RanksFrom(data, h, i + 1);
      var more := Collect(data, h, i + 1, decode);
      if InRange(data, h, i) {
        var ps := [i] + rest;
        var r := [SuggestionAt(data, h, i, decode)] + more;
        assert RanksFrom(data, h, i) == ps;
        assert Collect(data, h, i, decode) == r;
        forall k | 0 <= k < |ps|
          ensures ps[k] < |h.indices| && InRange(data, h, ps[k])
        {
          if k > 0 {
            assert ps[k] == rest[k - 1];
          }
        }
        forall k | 0 <= k < |ps|
          ensures r[k] == SuggestionAt(data, h, ps[k], decode)
        {
          if k > 0 {
            assert ps[k] == rest[k - 1] && r[k] == more[k - 1];
          }
        }
      } else {
        assert RanksFrom(data, h, i) == rest;
        assert Collect(data, h, i, decode) == more;
      }
    }
  }

  /**
    The suggestions follow the search ranking: the `k`-th comes from the `k`-th hit that names a
    stored job, with that hit's label and its own score; no hit in range is skipped.
  */
  lemma SuggestionsInRankOrder(
    modelLoaded: bool, indexLoaded: bool, data: seq<string>, query: string, h: Hits)
    requires WellShaped(h) && query != "" && modelLoaded && indexLoaded
    ensures var r := GenerateSuggestions(modelLoaded, indexLoaded, Some(data), query, Success(h));
      var ps := RanksFrom(data, h, 0);
      && |r| == |ps|
      && (forall k :: 0 <= k < |ps| ==> ps[k] < |h.indices| && InRange(data, h, ps[k]))
      && (forall k :: 0 <= k < |ps| ==> r[k] == SuggestionAt(data, h, ps[k], JobLabels.ExtractJobTitleAndDescription))
      && (forall k, l :: 0 <= k < l < |ps| ==> ps[k] < ps[l])
      && (forall j :: 0 <= j < |h.indices| && InRange(data, h, j) ==> j in ps)
  {
    assert GenerateSuggestions(modelLoaded, indexLoaded, Some(data), query, Success(h))
      == Collect(data, h, 0, JobLabels.ExtractJobTitleAndDescription);
    CollectAtRanks(data, h, 0, JobLabels.ExtractJobTitleAndDescription);
    RanksFromShape(data, h, 0);
  }

  /** Every suggestion is the decoded label of a stored job with the score of its hit. */
  lemma SuggestionsComeFromData(
    modelLoaded: bool, indexLoaded: bool, data: seq<string>, query: string, h: Hits, k: nat)
    requires WellShaped(h)
    requires k < |GenerateSuggestions(modelLoaded, indexLoaded, Some(data), query, Success(h))|
    ensures var s := GenerateSuggestions(modelLoaded, indexLoaded, Some(data), query, Success(h))[k];
      exists i :: 0 <= i < |h.indices| && 0 <= h.indices[i] < |data|
        && s.confidence == h.distances[i]
        && JobLabels.ExtractJobTitleAndDescription(data[h.indices[i]])
          == JobLabels.JobLabel(s.title, s.description)
  {
    SuggestionsInRankOrder(modelLoaded, indexLoaded, data, query, h);
    var ps := RanksFrom(data, h, 0);
    var i := ps[k];
    assert 0 <= i < |h.indices| && 0 <= h.indices[i] < |data|;
  }

  /** With every hit in range the kept ranks are all ranks from `i` on. */
  lemma {:induction false} RanksAreAll(data: seq<string>, h: Hits, i: nat)
    requires i <= |h.indices|
    requires forall j :: 0 <= j < |h.indices| ==> 0 <= h.indices[j] < |data|
    ensures |RanksFrom(data, h, i)| == |h.indices| - i
    ensures forall k :: 0 <= k < |RanksFrom(data, h, i)| ==> RanksFrom(data, h, i)[k] == i + k
    decreases |h.indices| - i
  {
    if i < |h.indices| {
      RanksAreAll(data, h, i + 1);
      var rest := RanksFrom(data, h, i + 1);
      assert InRange(data, h, i);
      assert RanksFrom(data, h, i) == [i] + rest;
    }
  }

  /** With every hit in range, there is one suggestion per hit, in the order of the hits. */
  lemma AllHitsInRange(data: seq<string>, query: string, h: Hits)
    requires WellShaped(h) && query != ""
    requires forall i :: 0 <= i < |h.indices| ==> 0 <= h.indices[i] < |data|
    ensures var r := GenerateSuggestions(true, true, Some(data), query, Success(h));
      && |r| == |h.indices|
      && forall k :: 0 <= k < |r| ==>
        && k < |h.indices| && InRange(data, h, k)
        && r[k] == SuggestionAt(data, h, k, JobLabels.ExtractJobTitleAndDescription)
  {
    SuggestionsInRankOrder(true, true, data, query, h);
    RanksAreAll(data, h, 0);
  }

  /** Without any hit in range the kept ranks are none. */
  lemma {:induction false} NoRanks(data: seq<string>, h: Hits, i: nat)
    requires i <= |h.indices|
    requires forall j :: 0 <= j < |h.indices| ==> h.indices[j] < 0 || h.indices[j] >= |data|
    ensures RanksFrom(data, h, i) == []
    decreases |h.indices| - i
  {
    if i < |h.indices| {
      NoRanks(data, h, i + 1);
    }
  }

  /** Hits that name no stored job, as the `-1` padding of a short result, give nothing. */
  lemma PaddingOnly(data: seq<string>, query: string, h: Hits)
    requires WellShaped(h)
    requires forall i :: 0 <= i < |h.indices| ==> h.indices[i] < 0 || h.indices[i] >= |data|
    ensures GenerateSuggestions(true, true, Some(data), query, Success(h)) == []
  {
    if query != "" {
      SuggestionsInRankOrder(true, true, data, query, h);
      NoRanks(data, h, 0);
    }
  }

  // ---------------------------------------------------------------------------
  // query texts

  /**
    A description cut to 300 characters, marked with "..." when cut. The descriptions it leaves
    as they are are the short ones and those that already look cut: 303 characters ending in "...".
  */
  function Snippet(description: string): (r: string)
    ensures |r| <= 303
    ensures |description| <= 300 ==> r == description
    ensures |description| > 300 ==> |r| == 303 && r[..300] == description[..300] && r[300..] == "..."
    ensures r == description <==>
      |description| <= 300 || (|description| == 303 && description[300..] == "...")
  {
    if |description| > 300 then description[..300] + "..." else description
  }

  /** Cutting a snippet again changes nothing. */
  lemma SnippetIdempotent(description: string)
    ensures Snippet(Snippet(description)) == Snippet(description)
  {
  }

  const ConventionalSkillCount: nat := 15
  const PivotSkillCount: nat := 20
  const SummaryPrefix: string := "Professional profile summary: "

  /** The job part of the conventional query: title, then the description snippet. */
  function JobText(job: ResumeParser.JobEntry): string {
    var text := "Current role: " + job.title + ". ";
    var snippet := if job.description != "" then Snippet(job.description) else "";
    if snippet != "" then text + "Responsibilities and experience include: " + snippet + ". " else text
  }

  /**
    The conventional query: the most recent job and up to fifteen skills; without skills the job
    text is replaced by the first 500 characters of the summary.
  */
  function ConventionalQuery(data: ResumeParser.Resume): (q: string) {
    var jobText := if data.mostRecentJob.Some? then JobText(data.mostRecentJob.value) else "";
    if data.skills != [] then
      jobText + "Key skills include: " + Join(", ", Seqs.Take(data.skills, ConventionalSkillCount)) + "."
    else
      SummaryPrefix + Seqs.Take(data.summary, 500) + ". "
  }

  /** Without skills the query depends on the summary alone: the job is discarded. */
  lemma ConventionalIgnoresJobWithoutSkills(a: ResumeParser.Resume, b: ResumeParser.Resume)
    requires a.skills == [] && b.skills == [] && a.summary == b.summary
    ensures ConventionalQuery(a) == ConventionalQuery(b)
    ensures ConventionalQuery(a) == SummaryPrefix + Seqs.Take(a.summary, 500) + ". "
  {
  }

  /**
    With skills the query starts with the job text, when there is a job, and lists the first
    fifteen skills; the summary plays no part.
  */
  lemma ConventionalWithSkills(data: ResumeParser.Resume)
    requires data.skills != []
    ensures var q := ConventionalQuery(data);
      var jobText := if data.mostRecentJob.Some? then JobText(data.mostRecentJob.value) else "";
      var tail := "Key skills include: " + Join(", ", Seqs.Take(data.skills, ConventionalSkillCount)) + ".";
      |jobText| <= |q| && q[..|jobText|] == jobText && q[|jobText|..] == tail
    ensures ConventionalQuery(data) == ConventionalQuery(data.(summary := ""))
  {
    var jobText := if data.mostRecentJob.Some? then JobText(data.mostRecentJob.value) else "";
    var tail := "Key skills include: " + Join(", ", Seqs.Take(data.skills, ConventionalSkillCount)) + ".";
    assert ConventionalQuery(data) == jobText + tail;
  }

  const AspirationsFallback: string :=
    "Open to exploring challenging new career directions and pivot opportunities that build upon existing experience."

  /** The background part of the pivot query: skills, else the job description, else the summary. */
  function PivotBackground(data: ResumeParser.Resume): string {
    if data.skills != [] then
      "Seeking a new role leveraging skills such as: " + Join(", ", Seqs.Take(data.skills, PivotSkillCount)) + ". "
    else if data.mostRecentJob.Some? && data.mostRecentJob.value.description != "" then
      "Experienced in tasks such as: " + Snippet(data.mostRecentJob.value.description) + ". "
    else if data.summary != "" then
      "Professional summary includes: " + Seqs.Take(data.summary, 300) + ". "
    else ""
  }

  /** The aspirations part of the pivot query: the stripped aspirations, or a fixed sentence. */
  function AspirationsText(aspirations: string): string {
    var a := Strip(aspirations);
    if a != "" then "Future career aspirations and interests include: " + a + "." else AspirationsFallback
  }

  /** The pivot query: the background, then the aspirations. */
  function PivotQuery(data: ResumeParser.Resume, aspirations: string): (q: string)
    ensures |q| > 0
  {
    PivotBackground(data) + AspirationsText(aspirations)
  }

  /**
    The pivot query always ends with the aspirations part, and its background follows the
    priority skills, job description, summary: a source of lower priority is used only when
    every source above it is empty.
  */
  lemma PivotPriority(data: ResumeParser.Resume, aspirations: string)
    ensures var q := PivotQuery(data, aspirations); var a := AspirationsText(aspirations);
      |a| <= |q| && q[|q| - |a|..] == a
    ensures data.skills != [] ==>
      PivotBackground(data) == PivotBackground(data.(mostRecentJob := None, summary := ""))
    ensures data.skills == [] && data.mostRecentJob.Some? && data.mostRecentJob.value.description != "" ==>
      PivotBackground(data) == PivotBackground(data.(summary := ""))
    ensures data.skills == [] && (data.mostRecentJob.None? || data.mostRecentJob.value.description == "") ==>
      PivotBackground(data) == PivotBackground(data.(mostRecentJob := None))
  {
    var q := PivotQuery(data, aspirations);
    assert q == PivotBackground(data) + AspirationsText(aspirations);
  }

  /** Aspirations that are only whitespace count as none. */
  lemma BlankAspirations(aspirations: string)
    requires AllIn(aspirations, Whitespace)
    ensures AspirationsText(aspirations) == AspirationsFallback
  {
    StripCharsAllIn(aspirations, Whitespace);
  }
}
