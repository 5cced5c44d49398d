/**
  The internship and salary page: the fixed table of salary estimates with its default, and
  the two search links built for a job title.
*/
module Internships {
  import opened Strings

  /** The salary estimates, one per job title offered for selection. */
  const SalaryEstimates: map<string, string> := map[
    "Data Analyst" := "€40,000 - €50,000 / year",
    "Data Scientist" := "€45,000 - €60,000 / year",
    "UX Designer" := "€38,000 - €48,000 / year",
    "Marketing Manager" := "€42,000 - €55,000 / year",
    "Product Manager" := "€50,000 - €70,000 / year",
    "Software Engineer" := "€45,000 - €65,000 / year"
  ]

  /** `list(SALARY_ESTIMATES.keys())`: the titles in the order they were written. */
  const Titles: seq<string> := [
    "Data Analyst", "Data Scientist", "UX Designer",
    "Marketing Manager", "Product Manager", "Software Engineer"
  ]

  const NoData: string := "No data available."

  /** `SALARY_ESTIMATES.get(job_title, "No data available.")` */
  function SalaryFor(title: string): (r: string)
    ensures r == NoData || r in SalaryEstimates.Values
  {
    if title in SalaryEstimates then SalaryEstimates[title] else NoData
  }

  /** The titles offered are exactly the keys of the table, each once. */
  lemma TitlesAreKeys()
    ensures forall t :: t in Titles <==> t in SalaryEstimates
    ensures forall i, j :: 0 <= i < j < |Titles| ==> Titles[i] != Titles[j]
  {
  }

  /** The default shows exactly for a title outside the table: no estimate reads like it. */
  lemma SalaryDefault(title: string)
    ensures SalaryFor(title) == NoData <==> title !in Titles
  {
    TitlesAreKeys();
    if title in SalaryEstimates {
      assert SalaryEstimates[title][0] == '€';
    }
  }

  /** Every title the page offers has an estimate, so the default is never shown there. */
  lemma OfferedTitlesHaveEstimates(i: nat)
    requires i < |Titles|
    ensures SalaryFor(Titles[i]) == SalaryEstimates[Titles[i]] && SalaryFor(Titles[i]) != NoData
  {
    SalaryDefault(Titles[i]);
  }

  // ---------------------------------------------------------------------------
  // search links

  const GooglePrefix: string := "https://www.google.com/search?q="
  const LinkedInPrefix: string := "https://www.linkedin.com/jobs/search/?keywords="

  /**
    A title made into a query: every space becomes `enc`, then `enc` and the fixed
    word follow. A query built this way has no space left in it.
  */
  function EncodedQuery(title: string, enc: string, word: string): (q: string)
    requires ' ' !in enc && ' ' !in word
    ensures ' ' !in q
  {
    ReplaceRemovesChar(title, ' ', enc);
    ReplaceAll(title, " ", enc) + (enc + word)
  }

  /** The query of the Google link: spaces as `+`, then `+Internships`. */
  function GoogleQuery(title: string): string
  {
    EncodedQuery(title, "+", "Internships")
  }

  /** The keywords of the LinkedIn link: spaces as `%20`, then `%20Internship`. */
  function LinkedInKeywords(title: string): string
  {
    EncodedQuery(title, "%20", "Internship")
  }

  /** `internship_search_links(job_title)`: the Google link, then the LinkedIn link. */
  function InternshipSearchLinks(title: string): (r: (string, string))
    ensures ' ' !in r.0 && ' ' !in r.1
    ensures |r.0| > |GooglePrefix| && r.0[..|GooglePrefix|] == GooglePrefix
    ensures |r.1| > |LinkedInPrefix| && r.1[..|LinkedInPrefix|] == LinkedInPrefix
  {
    var google := GoogleQuery(title);
    var linkedIn := LinkedInKeywords(title);
    assert ' ' !in GooglePrefix && ' ' !in LinkedInPrefix;
    (GooglePrefix + google, LinkedInPrefix + linkedIn)
  }

  /**
    Decoding the Google query, `+` back to a space, gives the title followed by
    " Internships", as long as the title has no `+` of its own.
  */
  lemma GoogleQueryDecodes(title: string)
    requires '+' !in title
    ensures ReplaceAll(GoogleQuery(title), "+", " ") == title + (" " + "Internships")
  {
    assert '+' !in "Internships";
    EncodedThenSuffix(title, ' ', "+", "Internships");
  }

  /**
    Decoding the LinkedIn keywords, `%20` back to a space, gives the title followed by
    " Internship", as long as the title has no `%` of its own.
  */
  lemma LinkedInKeywordsDecode(title: string)
    requires '%' !in title
    ensures ReplaceAll(LinkedInKeywords(title), "%20", " ") == title + (" " + "Internship")
  {
    assert '%' !in "Internship";
    EncodedThenSuffix(title, ' ', "%20", "Internship");
  }

  /** An encoded title followed by the encoding and a plain word decodes to title, `c`, word. */
  lemma EncodedThenSuffix(title: string, c: char, enc: string, word: string)
    requires |enc| > 0 && enc[0] !in title && enc[0] !in word
    ensures ReplaceAll(ReplaceAll(title, [c], enc) + (enc + word), enc, [c]) == title + ([c] + word)
  {
    ReplaceRoundTrip(title, c, enc, enc + word);
    ReplaceAllAtMatch(word, enc, [c]);
    CharMissing(word, enc, 0);
  }
}
