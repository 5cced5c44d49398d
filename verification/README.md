# futurePathsTests core, modelled in Dafny

This project models the text-handling core of futurePathsTests, a career-path recommender
built on sentence embeddings. It covers:

- **Training pairs** (`training_pairs.dfy`, `subspans.dfy`). The Karrierewege, Decorte and
  Decorte-ESCO builders of `src/utils.py`:
  - the ESCO title and URI replacement;
  - the `subspans` generator;
  - the `doc_1` and `doc_2` documents of each (sub)history;
  - the `max_len` truncation;
  - the `KeyError`, `IndexError` and `AttributeError` paths.

  A missing cell is Python's `None` in the rows of the Hugging Face datasets, and pandas' `nan`
  in the occupation table read from CSV. An f-string prints them as "None" and "nan".
- **Evaluation** (`evaluation.dfy`): mean reciprocal rank and recall at k.
- **Job labels** (`job_labels.dfy`). `extract_job_title_and_description` splits a stored job
  text back into a title and a description.
- **Résumé parsing** (`resume_sections.dfy`, `resume_skills.dfy`, `resume_parser.dfy`), for
  both parsers:
  - section splitting, with the header regular expression modelled character by character;
  - bullet removal and splitting of the skills section;
  - the skill filters;
  - job-entry extraction;
  - `parse_resume_data` and `parse_resume`, including the basic parser's fallback that
    spots skills in a job description (modelled, although it can never run; see below).
- **Suggestions** (`suggestions.dfy`). `generate_suggestions_from_text` turns the hits of an
  index search into labelled suggestions. Also modelled: the conventional and pivot query
  texts.
- **Linear transformation** (`linear_transformation.dfy`):
  - the `max_frobenius_norm` bound, and the fact that it bounds a matrix's deviation from
    the identity;
  - the pair selection of `train_linear_transformation`.
- **Internships page** (`internships.dfy`): the salary table and the two search links.

`wrappers.dfy`, `strings.dfy` and `seqs.dfy` hold shared definitions:

- `Result` and `Option`;
- Python's `str.strip`, `split`, `join`, `replace`, `lower` and `capitalize`, on ASCII;
- de-duplication that keeps the first occurrence (`dict.fromkeys`).

Three behaviours of the code as written are modelled as they are, because they decide what
the parsers return:

- The header pattern is built with `r'\\s+'` for each space of a keyword. That puts a literal
  backslash into the pattern, so a keyword of two words ("technical skills", "work
  experience") never matches ordinary text. `ParseResumeData` and `ParseResume` split
  sections this way (`ExtractSectionsAsWritten`). `ParseResumeDataCorrected` and
  `ParseResumeCorrected` use `\s+`, a run of blanks (`ExtractSections`). The lemmas about
  the parsers take the splitter as a parameter and hold for both. A résumé whose only
  headers have two words has no header as written. It is filed entirely under Experience,
  so the basic parser raises and the advanced parser finds no skills.
- The basic `extract_job_entries` compiles a pattern whose look-behind `(?<!^\s*[-*•])` has no
  fixed width. `re.compile` therefore raises for every non-empty experience section. As a
  result, `parse_resume_data` raises whenever a résumé has a non-empty Experience section.
  That includes the section fallback, which files a résumé with no header entirely under
  Experience. When the basic parser does return fields, it has found no job, so the most
  recent job is `None` and the skill fallback, which needs that job's description, never
  runs (`BasicParsed`), for keyword spaces as written and as corrected alike.
  `FallbackTaken` states what the fallback would add if it were reached.
- The advanced `extract_job_entries` accepts a title only when it has no comma and also
  splits at commas into more than three parts. No title passes, so the advanced parser never
  finds a job.

## Model

| member | source | states |
|---|---|---|
| Evaluation.ReciprocalRank | src/evaluation.py:14-20 | a prediction's reciprocal rank lies in [0, 1]; it is 0 exactly when the true id is not predicted and 1 exactly when it is predicted first |
| Evaluation.RankIsFirstOccurrence | src/evaluation.py:16-18 | the rank is one over one plus the position of the first occurrence of the true id |
| Evaluation.Mrr | src/evaluation.py:3-21 | the mean reciprocal rank of a non-empty list of predictions lies in [0, 1] |
| Evaluation.RAtK | src/evaluation.py:24-39 | recall at k of a non-empty list lies in [0, 1], for any k, negative k sliced as Python does |
| Evaluation.MrrIsOne | src/evaluation.py:13-21 | the MRR is 1 exactly when every prediction list puts the true id first |
| Evaluation.MrrIsZero | src/evaluation.py:13-21 | the MRR is 0 exactly when no prediction list contains its true id |
| Evaluation.RAtKMonotone | src/evaluation.py:35-39 | for 0 <= k1 <= k2, recall at k1 is at most recall at k2 |
| Evaluation.RAtOneAtMostMrr | src/evaluation.py:3-39 | recall at 1 never exceeds the MRR |
| Evaluation.MrrAtMostRAtK | src/evaluation.py:3-39 | when no prediction list is longer than k, the MRR never exceeds recall at k |
| Evaluation.MrrPermutation | src/evaluation.py:13-21 | the MRR does not depend on the order of the predictions |
| Evaluation.RAtKPermutation | src/evaluation.py:35-39 | recall at k does not depend on the order of the predictions |
| Spans.Row | src/utils.py:64-65 | the inner loop yields fitting windows of one length, by increasing start |
| Spans.Rows | src/utils.py:63-65 | the nested loops yield fitting windows of length at least the start length, ordered by length and then start |
| Spans.Windows | src/utils.py:53-65 | every window yielded has length at least 2 and fits in the list, strictly ordered by length then start |
| Spans.SubspansComplete | src/utils.py:53-65 | a list of n elements has n(n-1)/2 subspans, each of at least two elements, and every contiguous slice of two or more elements is one of them |
| Spans.RowsComplete | src/utils.py:63-65 | every fitting window at least as long as the start length is yielded |
| Spans.WindowsExactlyOnce | src/utils.py:53-65 | every window of length at least 2 that fits is yielded, and none twice |
| Spans.WindowsCount | src/utils.py:63-65 | a list of n elements has n(n-1)/2 subspans |
| Spans.SubspanElements | src/utils.py:65 | element i of a subspan is element start+i of the list |
| Spans.SubspanIndexes | src/utils.py:113-115 | the subspans of `range(n)` give, position by position, the list indexes of the list's subspans |
| Spans.SubspansAlign | src/utils.py:113-132 | the last index of the k-th index subspan picks the last element of the k-th subspan, so indexing the full column with it reads the span's last experience |
| TrainingPairs.ReplacementsAreFinal | src/utils.py:22-32 | every replacement title is lower case and stripped, and is itself no key of the table |
| TrainingPairs.ReplaceTitle | src/utils.py:34-37 | the processed title is lower case, stripped and no key; it differs from `strip().lower()` of the input only when that is a key, and is then the table's value |
| TrainingPairs.ReplaceTitleFixes | src/utils.py:34-37 | a title already lower case, stripped and not a key is left unchanged |
| TrainingPairs.UpperCaseKeysUnreachable | src/utils.py:22-36 | the keys "ICT security engineer" and "ICT security manager" are never looked up, since lookups use lower-cased titles |
| TrainingPairs.ReplaceEscoTitles | src/utils.py:11-50 | a missing title stays missing and a present one is replaced as above; the URI changes only from the retired concept to its successor |
| TrainingPairs.ReplaceEscoTitlesIdempotent | src/utils.py:11-50 | replacing titles and URIs a second time changes nothing |
| TrainingPairs.HistoryDocSplits | src/utils.py:135-140 | splitting `doc_1` at `<SEP>` gives back the entries of the covered experiences when no entry contains `<SEP>` |
| TrainingPairs.HistoryDocEmpty | src/utils.py:125-140 | with `minus_last`, a single-experience span gives an empty `doc_1` |
| TrainingPairs.IndexSpans | src/utils.py:112-120 | each index list walked is within range and non-empty for a non-empty history |
| TrainingPairs.SpansAlign | src/utils.py:112-120 | the k-th column subspan equals the column read at the k-th index subspan |
| TrainingPairs.KarrierewegePairs | src/utils.py:111-144 | a group's pairs fail exactly when the group is empty (indexing `[-1]`), and otherwise number one per index subspan |
| TrainingPairs.KarrierewegeOnePair | src/utils.py:117-144 | without subspans, one pair: the whole history and the ESCO entry of the last experience |
| TrainingPairs.KarrierewegePairCount | src/utils.py:112-144 | with subspans and n > 1 experiences, n(n-1)/2 pairs |
| TrainingPairs.KarrierewegeDoc2IsLastOfSpan | src/utils.py:123-144 | pair k joins subspan k's entries as `doc_1` and describes subspan k's last experience as `doc_2` |
| TrainingPairs.EscoExperience | src/utils.py:278-282 | an ESCO entry is described by URI, else by title, and raises `KeyError` exactly when neither is a key |
| TrainingPairs.StripTitles | src/utils.py:287 | stripping the ESCO titles succeeds exactly when none is missing, and strips each |
| TrainingPairs.KeptSpans | src/utils.py:289-307 | the spans kept are within range, non-empty, and number the spans minus those dropped before the first kept one |
| TrainingPairs.Slots | src/utils.py:289-309 | the zipped columns at slot k are the columns read at the k-th kept index subspan |
| TrainingPairs.DecortePairs | src/utils.py:244-338 | a Decorte history that succeeds gives one pair per kept span |
| TrainingPairs.DecorteEmptyHistory | src/utils.py:319-322 | an empty history raises `IndexError` |
| TrainingPairs.DecorteMissingTitle | src/utils.py:287 | a history with a missing ESCO title raises |
| TrainingPairs.DecorteAtMostMaxLen | src/utils.py:296-301 | with `max_len >= 1`, at most `max_len` pairs per history |
| TrainingPairs.DecorteZeroMaxLenKeepsAll | src/utils.py:296-301 | `max_len == 0` keeps every span, since `xs[-0:]` is the whole list |
| TrainingPairs.DecorteSubspanCount | src/utils.py:289-301 | when `max_len` is at least n(n-1)/2, all n(n-1)/2 subspans are kept |
| TrainingPairs.DecortePairShape | src/utils.py:309-336 | pair k's `doc_1` joins the free-text entries of the k-th kept span; its `doc_2` is the ESCO entry of that span's last experience, by stripped title and URI |
| TrainingPairs.DecorteOnePair | src/utils.py:302-307 | without subspans, one pair whose `doc_1` covers the whole history |
| TrainingPairs.EscoEntries | src/utils.py:428-432 | describing a list of ESCO columns succeeds exactly when each has its URI or title as key, entry by entry |
| TrainingPairs.DecorteEscoPairsAsWritten | src/utils.py:456-484 | as written, one pair per kept span when it succeeds |
| TrainingPairs.DecorteEscoAsWrittenReadsPrefix | src/utils.py:469-474 | as written, `doc_1` of every pair joins the entries of the first experiences of the whole history, whatever the span |
| TrainingPairs.DecorteEscoFinding | src/utils.py:469-474 | for three known experiences titled "a", "b", the span [1, 2] gets a different `doc_1` as written than corrected |
| TrainingPairs.DecorteEscoPairs | src/utils.py:456-484 | corrected: one pair per kept span when it succeeds |
| TrainingPairs.DecorteEscoPairIsSubspan | src/utils.py:469-481 | corrected: `doc_1` joins the ESCO entries of the span's own covered experiences and `doc_2` is its last one |
| TrainingPairs.DecorteEscoSucceeds | src/utils.py:428-432 | when every URI is a key, both versions succeed for a non-empty history |
| TrainingPairs.Dataset | src/utils.py:244-247 | a split succeeds exactly when every history's pairs do |
| TrainingPairs.DatasetMembers | src/utils.py:244-338 | a split's pairs are exactly the pairs of its histories |
| TrainingPairs.DatasetAtMost | src/utils.py:244-338 | histories of at most m pairs give at most m pairs per history |
| TrainingPairs.KarrierewegeGroup | src/utils.py:88-144 | a group fails exactly when it has no rows |
| TrainingPairs.KarrierewegeDataset | src/utils.py:81-181 | a split succeeds exactly when no group is empty |
| TrainingPairs.DecorteDataset | src/utils.py:244-338 | a split succeeds exactly when every history's pairs do |
| TrainingPairs.DecorteEscoDataset | src/utils.py:394-486 | a split succeeds exactly when every history's corrected pairs do |
| TrainingPairs.DecorteDatasetAtMost | src/utils.py:296-301 | with `max_len >= 1`, a split has at most `max_len` pairs per history |
| TrainingPairs.KarrierewegeDatasetOnePerGroup | src/utils.py:117-144 | without subspans, a split has exactly one pair per group |
| JobLabels.ExtractJobTitleAndDescription | src/career_pivot_page.py:16-23 | the title is the text before the first "description:", without "esco role:", stripped and capitalised; the description is the text up to the next marker, stripped, or the fixed sentence when there is no marker |
| JobLabels.FirstPartUpToMarker | src/career_pivot_page.py:20-21 | the first part of the split is the text before the first marker |
| JobLabels.NoMarkerNoDescription | src/career_pivot_page.py:22 | without the marker, the description is "No description available." |
| JobLabels.CapitalisedMarkerDoesNotSplit | src/career_pivot_page.py:20 | "Description:" does not split: the match is case-sensitive |
| JobLabels.SecondMarkerEndsDescription | src/career_pivot_page.py:20-22 | a second marker ends the description |
| JobLabels.LabelTextRoundTrip | src/career_pivot_page.py:16-23 | an "esco role: t \n description: d" text decodes to t capitalised and d, both stripped, when neither holds a marker |
| JobLabels.LabelRoundTrip | src/career_pivot_page.py:16-23 | an ESCO entry as the training builders format it decodes to its title and description |
| ResumeSections.MatchAt | utils/resume_parser.py:38-41 | a header match starts at a line start and ends after it, and its title has no upper-case letter |
| ResumeSections.FirstKeyword | utils/resume_parser.py:41 | the alternation takes the first keyword whose pattern matches, none earlier matching |
| ResumeSections.FindHeaders | utils/resume_parser.py:46-49 | the headers found are ordered and do not overlap, each a match at its start |
| ResumeSections.HeaderTitlesLower | utils/resume_parser.py:49 | every header title is lower case |
| ResumeSections.FamilyKeyFound | utils/resume_parser.py:51-64 | a title gets a family's key exactly when it mentions that family's words |
| ResumeSections.NormaliseKey | utils/resume_parser.py:51-64 | a header's key is a fixed key when its title names a family, and otherwise its title capitalised |
| ResumeSections.NormaliseFirstFamily | utils/resume_parser.py:51-64 | the first family the title mentions decides the key |
| ResumeSections.NormaliseVariants | src/utils/resume_parser_advanced.py:62-73 | the two parsers normalise alike unless the title holds "competen", which the basic one files under Skills |
| ResumeSections.NeverProfileOrObjective | utils/resume_parser.py:51-64 | no header is filed under "Profile" or "Objective" |
| ResumeSections.AddContent | utils/resume_parser.py:66-74 | adding a piece touches only its own key |
| ResumeSections.GroupedIsJoin | utils/resume_parser.py:66-81 | a key is present exactly when some piece has it, and holds its pieces joined by line breaks |
| ResumeSections.LoopIsGrouping | utils/resume_parser.py:66-81 | the accumulation loop and its last step group the pieces between headers by key |
| ResumeSections.LastPiece | utils/resume_parser.py:76-81 | the text after the last header, stripped, is its last piece unless nothing follows the header |
| ResumeSections.SectionsFromPieces | utils/resume_parser.py:66-86 | the sections are the grouped pieces, or the whole text under Experience when none is found |
| ResumeSections.SectionsEmptyIffTextEmpty | utils/resume_parser.py:83-86 | there are no sections exactly when the text is empty |
| ResumeSections.NoHeadersFallback | utils/resume_parser.py:83-86 | a non-empty text without headers is filed entirely under Experience |
| ResumeSections.SummaryIsSummarySection | utils/resume_parser.py:204 | the chained lookup of Summary, Profile and Objective is just the Summary section |
| ResumeSections.MatchedKeyword | utils/resume_parser.py:40 | as written, a match in text without a backslash spells a keyword that has no space |
| ResumeSections.MultiWordKeywordUnmatched | utils/resume_parser.py:40 | as written, a keyword with a space never matches text without a backslash |
| ResumeSections.HeaderTitlesWithoutBackslash | utils/resume_parser.py:38-49 | as written, on text without a backslash every header title is a one-word keyword |
| ResumeSections.SpelledKeywordMatches | utils/resume_parser.py:40 | corrected: a keyword spelled out and followed by a colon matches its pattern |
| ResumeSections.KeywordHeaderRecognised | utils/resume_parser.py:38-46 | corrected: any keyword spelled at a line start and followed by a colon is a header |
| ResumeSections.AsWrittenMultiWordHeadersIgnored | utils/resume_parser.py:38-86 | as written, a non-empty text without a backslash whose lines start with no one-word keyword has no header and is all Experience |
| ResumeSections.SampleSectionsAsWritten | utils/resume_parser.py:38-86 | as written, "Technical Skills:\nPython" is one Experience section holding the whole text |
| ResumeSections.SampleSections | utils/resume_parser.py:38-86 | corrected, "Technical Skills:\nPython" is one Skills section holding "Python" |
| ResumeSkills.MarkerEndSpan | utils/resume_parser.py:169 | a removed marker is blanks with exactly one bullet |
| ResumeSkills.MarkerEndNone | utils/resume_parser.py:169 | there is no marker exactly when every bullet comes after a character that is not a blank |
| ResumeSkills.UnmarkedUnchanged | utils/resume_parser.py:169 | text with no marker at a line start is unchanged by bullet removal |
| ResumeSkills.BulletedListStripped | utils/resume_parser.py:169 | removing the markers of a "- " list, one item per line, gives back the items |
| ResumeSkills.SeparatorAt | utils/resume_parser.py:173 | a separator match is non-empty and always exists at a delimiter `,;/` |
| ResumeSkills.FirstSeparator | utils/resume_parser.py:173 | the split finds the leftmost separator match |
| ResumeSkills.PiecesAvoidDelimiters | utils/resume_parser.py:173 | no piece of a split line holds `,`, `;` or `/` |
| ResumeSkills.PiecesChars | utils/resume_parser.py:173 | every character of a piece comes from the line |
| ResumeSkills.PiecesOfJoin | utils/resume_parser.py:173 | splitting items joined by ", " gives the items back when no item holds a separator |
| ResumeSkills.CleanShape | utils/resume_parser.py:179 | a cleaned piece is stripped and holds only characters of the raw piece |
| ResumeSkills.LetterIsNotDigits | utils/resume_parser.py:181-182 | in the basic filter the digit test is implied by the letter test |
| ResumeSkills.ProcessedMembers | utils/resume_parser.py:178-184 | a processed skill is exactly a kept cleaning of some raw piece |
| ResumeSkills.ProcessedOfClean | utils/resume_parser.py:178-184 | pieces that are clean and kept pass through unchanged |
| ResumeSkills.ExtractSkills | utils/resume_parser.py:165-186 | the skills are unique and each passes the filter |
| ResumeSkills.SkillsMembers | utils/resume_parser.py:165-186 | a string is a skill exactly when the text is non-empty and it is a kept cleaning of some raw piece |
| ResumeSkills.SkillsInFirstOrder | utils/resume_parser.py:186 | the skills keep the order of their first occurrence |
| ResumeSkills.SkillsBare | utils/resume_parser.py:171-174 | no skill holds a delimiter or a line break |
| ResumeSkills.EmptyTextHasNoSkills | utils/resume_parser.py:166-174 | processing empty text gives no skill even without the early return |
| ResumeSkills.SkillsOfBulletedList | utils/resume_parser.py:165-186 | unique, clean, kept skills written as a bulleted list are read back as written |
| ResumeSkills.SkillsOfCommaList | src/utils/resume_parser_advanced.py:191-214 | the same skills written on one line separated by ", " are read back as written |
| ResumeParser.FixedWidthIffNoRepeat | utils/resume_parser.py:106-107 | a look-behind built from anchors, character classes and starred classes has a fixed width exactly when it stars nothing; only then does `re.compile` accept it |
| ResumeParser.BulletLookBehindRaises | utils/resume_parser.py:106-107 | compiling the look-behind `(?<!^\s*[-*•])` raises the fixed-width error, because `\s*` has no fixed width |
| ResumeParser.BasicJobEntries | utils/resume_parser.py:91-111 | the basic extractor succeeds (with no entries) exactly on empty text; any other text reaches the compile step and fails with the look-behind error |
| ResumeParser.TitleNeverAccepted | src/utils/resume_parser_advanced.py:141-145 | no title candidate passes the advanced title filter |
| ResumeParser.AdvancedJobEntries | src/utils/resume_parser_advanced.py:101-188 | the advanced extractor returns no entries |
| ResumeParser.SplitAtAnyAvoids | utils/resume_parser.py:221 | no sentence holds `.` or a line break |
| ResumeParser.SplitAtAnyJoin | utils/resume_parser.py:221 | splitting pieces joined by one separator gives back the pieces |
| ResumeParser.TitleOfLetters | utils/resume_parser.py:226 | a word of letters is title case exactly when it starts upper case and continues lower case |
| ResumeParser.SpotSentencesMembers | utils/resume_parser.py:221-227 | a word is spotted exactly when it is title case, not first in its sentence, longer than two and not common, stripped of `,.;:` |
| ResumeParser.FallbackSkills | utils/resume_parser.py:228-229 | the fallback adds at most ten unique words |
| ResumeParser.FallbackSkillsMembers | utils/resume_parser.py:220-229 | every fallback word is spotted in the description, and with ten or fewer unique spotted words, every spotted word is used |
| ResumeParser.FinalSkills | utils/resume_parser.py:218-231 | the final skill list has no duplicates |
| ResumeParser.FoundSkillsKept | utils/resume_parser.py:218-231 | unique skills that were found are kept as they are |
| ResumeParser.FallbackTaken | utils/resume_parser.py:218-229 | with no skill and a described recent job, the fallback words are the skills |
| ResumeParser.FallbackNeedsDescription | utils/resume_parser.py:218 | with no skill and no described recent job, there are no skills |
| ResumeParser.ReadErrorIffNoText | utils/resume_parser.py:194-196 | for either splitter, the error dictionary comes back exactly when no text was read |
| ResumeParser.MostRecentIsFirst | utils/resume_parser.py:198-212 | for either splitter, all jobs are the Experience entries, the most recent is the first of them, and the full text is kept; a raising extractor raises |
| ResumeParser.BasicParseRaises | utils/resume_parser.py:208-209 | for either splitter, the basic parse raises exactly when the Experience section it finds is non-empty |
| ResumeParser.HeaderlessResumeRaises | utils/resume_parser.py:208-209 | for either splitter, a non-empty résumé in which that splitter finds no header raises |
| ResumeParser.MultiWordHeadersRaise | utils/resume_parser.py:38-49 | as written, a non-empty résumé without a backslash whose lines start with no one-word keyword raises, whatever two-word headers it holds |
| ResumeParser.BasicParsed | utils/resume_parser.py:198-215 | for either splitter, a basic parse that succeeds has no job, the Summary section and the extracted skills |
| ResumeParser.SampleResumeParsed | utils/resume_parser.py:38-49 | "Technical Skills:\nPython": as written the basic parse raises and the advanced one finds no skill; corrected, both find the skill "Python" |
| ResumeParser.AdvancedParsed | src/utils/resume_parser_advanced.py:217-252 | for either splitter, the advanced parse gives nothing exactly when no text was read, and otherwise no job, the Summary section, the skills section's skills and the full text |
| Suggestions.GenerateSuggestions | src/resume_upload_and_predict_page.py:12-50 | no suggestion without a query, model, index or job list, or when the search fails; otherwise at most one per hit |
| Suggestions.CollectAtRanks | src/resume_upload_and_predict_page.py:30-49 | the suggestions are those of the in-range hits, in rank order |
| Suggestions.SuggestionsInRankOrder | src/resume_upload_and_predict_page.py:31-49 | suggestion k is the decoded job of the k-th in-range hit; ranks increase, and every in-range hit is used |
| Suggestions.SuggestionsComeFromData | src/resume_upload_and_predict_page.py:41-49 | every suggestion decodes a stored job named by a hit, with that hit's score |
| Suggestions.AllHitsInRange | src/resume_upload_and_predict_page.py:31-49 | when every hit is in range, suggestion k comes from hit k |
| Suggestions.PaddingOnly | src/resume_upload_and_predict_page.py:33-36 | hits that are all out of range give no suggestion |
| Suggestions.Snippet | src/resume_upload_and_predict_page.py:131 | a snippet is at most 303 characters; descriptions up to 300 characters are kept whole, longer ones keep the first 300 and get "..."; a description is left unchanged exactly when it is short or already 303 characters ending in "..." |
| Suggestions.SnippetIdempotent | src/resume_upload_and_predict_page.py:131 | cutting a snippet again changes nothing |
| Suggestions.ConventionalIgnoresJobWithoutSkills | src/resume_upload_and_predict_page.py:136-138 | without skills the conventional query is the summary sentence alone, the job text discarded |
| Suggestions.ConventionalWithSkills | src/resume_upload_and_predict_page.py:125-135 | with skills the conventional query is the job text followed by the skills sentence, and ignores the summary |
| Suggestions.PivotPriority | src/resume_upload_and_predict_page.py:173-187 | the pivot query ends with the aspirations text; skills take priority over the job description, which takes priority over the summary |
| Suggestions.BlankAspirations | src/resume_upload_and_predict_page.py:184-187 | blank aspirations give the fixed sentence |
| LinearTransformation.MaxFrobeniusNormSquared | src/linear_transformation.py:9-34 | the bound (squared) is never negative |
| LinearTransformation.BoundSymmetric | src/linear_transformation.py:25-26 | swapping the minimum and maximum does not change the bound |
| LinearTransformation.BoundPositive | src/linear_transformation.py:25-33 | the bound is positive for n >= 2; for n = 1 it is zero exactly when both ends are 1; it is zero for n = 0 |
| LinearTransformation.FrobeniusWithinBound | src/linear_transformation.py:86-89 | an n x n matrix with entries in [min, max] deviates from the identity by at most the bound, so the normalised norm is at most 1 |
| LinearTransformation.SelectPairs | src/linear_transformation.py:54-68 | the pairs selected are never empty: unpacking no pairs raises |
| LinearTransformation.SelectFails | src/linear_transformation.py:54-68 | selection raises exactly when there are no pairs, or when only different pairs are wanted and none differ |
| LinearTransformation.DifferentMembers | src/linear_transformation.py:62-68 | a pair is kept exactly when it is given and its two texts differ |
| LinearTransformation.DifferentInOrder | src/linear_transformation.py:62-68 | filtering keeps the pairs' order |
| LinearTransformation.DifferentIdempotent | src/linear_transformation.py:62-68 | filtering twice is filtering once |
| Internships.SalaryFor | src/internships_salary_page.py:31 | the salary shown is one of the estimates or the default text |
| Internships.TitlesAreKeys | src/internships_salary_page.py:24-27 | the titles offered are exactly the table's keys, each once |
| Internships.SalaryDefault | src/internships_salary_page.py:31 | the default shows exactly for a title outside the table |
| Internships.OfferedTitlesHaveEstimates | src/internships_salary_page.py:24-31 | every offered title shows its own estimate, never the default |
| Internships.EncodedQuery | src/internships_salary_page.py:15-16 | a query built from a title (spaces replaced, the site's word appended) has no space |
| Internships.InternshipSearchLinks | src/internships_salary_page.py:14-17 | both links start with their site's prefix and have no space |
| Internships.GoogleQueryDecodes | src/internships_salary_page.py:15 | turning `+` back into spaces gives the title and " Internships", for titles without `+` |
| Internships.LinkedInKeywordsDecode | src/internships_salary_page.py:16 | turning `%20` back into spaces gives the title and " Internship", for titles without `%` |

## Left out

- Reading the PDF (`pdf_to_text`) is not modelled. Its text is an input, `None` where reading fails.
- The sentence encoder, the FAISS index and `load_predictor` are not modelled. The search
  result is an input, and `top_n` is left to the index.
- NumPy least squares, the MSE and the RMSE are not modelled; they are floating point.
- Square roots are not modelled. The Frobenius norm and its bound are compared squared,
  which orders them the same way.
- Reals are exact in the model. Float rounding in the metrics and the norm is not modelled.
- Case handling (`lower`, `capitalize`, `istitle`, `isdigit`, `IGNORECASE`) covers ASCII
  only. Non-ASCII letters are treated as neither upper nor lower case.
- ResumeParser.AdvancedJobEntries: the title-line regex and the block heuristics after the
  title filter (`resume_parser_advanced.py` 147-186) are parameters, not modelled. The title
  filter rejects every candidate, so they never affect the result.
- The heuristics of the basic `extract_job_entries` after the pattern compilation (lines
  113-162) are not modelled. The compilation raises first for any non-empty text.
- ResumeParser.FixedWidth: the width of a look-behind is modelled only for anchors, single
  character classes and starred classes, the elements of the block pattern's look-behind.
  Groups, alternation and counted repeats of Python's `re` are left out.
- Loading the datasets, pandas grouping and sorting by experience order, and the ESCO
  occupations table's construction are not modelled. The histories and the occupation
  dictionary are inputs.
- Karrierewege language variants are modelled only as a free-text column and an ESCO column.
  Column selection by language is not modelled, and the German variants are not modelled
  separately.
- The Streamlit pages are not modelled: widgets, messages, warnings and the display
  truncations at 20 skills and 1000 characters.
- The f-strings at `resume_parser.py` 40 and `resume_parser_advanced.py` 47 contain a
  backslash inside an expression. They need Python 3.12 or later; the model assumes that
  version.
- Evaluation.Mrr: the model requires a non-empty prediction list. The source divides by zero
  and raises for an empty one.
- Evaluation.RAtK: the model requires a non-empty prediction list. The source divides by
  zero and raises for an empty one.
- The ESCO title loop over 16 columns (`utils.py` 217-220) is modelled for one column.
  `ReplaceEscoTitlesIdempotent` covers repetition.
- `verbose` printing is not modelled. The dataset-level functions return one split; the
  three splits are built the same way.

## Findings

| source | as written | input that shows it | evidently intended | confidence | as-written member | corrected member |
|---|---|---|---|---|---|---|
| src/utils.py:469-474 | `doc_1` of the Decorte-ESCO builder indexes the whole history's ESCO titles and URIs with `range(len(span) - discount)`, so every subspan's `doc_1` describes the first experiences of the history | three known experiences titled "a", "b", "c" with subspans on: the span [1, 2] gets a `doc_1` starting with "esco role: a" instead of "esco role: b" | `doc_1` describes the subspan's own experiences, as `doc_2` and the free-text builder do | not executed | TrainingPairs.DecorteEscoPairsAsWritten, TrainingPairs.DecorteEscoFinding | TrainingPairs.DecorteEscoPairs, TrainingPairs.DecorteEscoPairIsSubspan |
| utils/resume_parser.py:40 | the raw string `r'\\s+'` puts a literal backslash into the pattern, so a space in a keyword matches a backslash followed by `s` characters | the résumé "Technical Skills:\nPython" has no header as written, so it is all Experience: the basic parser raises and the advanced one finds no skill, where `\s+` would file "Python" under Skills | each space in a keyword matches a run of blanks (`\s+`) | not executed | ResumeSections.MultiWordKeywordUnmatched, ResumeSections.AsWrittenMultiWordHeadersIgnored, ResumeParser.SampleResumeParsed | ResumeSections.KeywordHeaderRecognised, ResumeSections.SampleSections, ResumeParser.SampleResumeParsed |
