/**
  Construction of `(doc_1, doc_2)` training pairs from career histories, as done by the
  three dataset loaders of `src/utils.py`. A history is given as an already ordered
  sequence of experiences; loading, grouping and sorting are not modelled.
  `doc_1` joins the free-text experiences of a (sub)history with the separator token and
  `doc_2` describes the last experience of that (sub)history in ESCO terms.
*/
module TrainingPairs {
  import opened Wrappers
  import opened Strings
  import opened Seqs
  import opened Spans

  /** The separator placed between experiences in `doc_1`. */
  const SepToken: string := "<SEP>"

  /**
    A dataset cell. A missing value is Python's `None` in the rows of the Hugging Face
    datasets, and pandas' float `nan` in the occupation table read from CSV.
  */
  datatype Cell = PyNone | NaN | Text(s: string)

  /** The text an f-string shows for a cell: `None` and `nan` print as those words. */
  function Format(c: Cell): string {
    match c
    case PyNone => "None"
    case NaN => "nan"
    case Text(s) => s
  }

  /** The Python exceptions the builders can raise. */
  datatype Error = IndexError | KeyError | AttributeError

  /** One training pair. */
  datatype Pair = Pair(doc1: string, doc2: string)

  // ---------------------------------------------------------------------------
  // replace_esco_titles

  /** The title replacement table; its keys are compared after `strip().lower()`. */
  const TitleReplacements: map<string, string> := map[
    "ICT security engineer" := "cyber incident responder",
    "ict security engineer" := "cyber incident responder",
    "care at home worker" := "care home worker",
    "residential care home worker" := "care home worker",
    "ICT security manager" := "cybersecurity risk manager",
    "ict security manager" := "cybersecurity risk manager",
    "care at hmoe worker" := "care home worker",
    "handyman" := "handyperson",
    "corporate banking manager" := "corporate banking adviser"
  ]

  const RetiredUri: string := "http://data.europa.eu/esco/occupation/81309031-dad2-4a7a-bde6-7f6e518f89ff"
  const CurrentUri: string := "http://data.europa.eu/esco/occupation/f4525ed8-54eb-4a3b-90db-55cc01b0d9fd"

  /** A title in the form `strip().lower()` produces. */
  predicate Normalised(t: string) {
    NoUpper(t) && Trimmed(t, Whitespace)
  }

  /** The replacement values, which all differ from every key. */
  const ReplacementValues: set<string> := {
    "cyber incident responder", "care home worker", "cybersecurity risk manager",
    "handyperson", "corporate banking adviser"
  }

  lemma ReplacementValuesAreNotKeys()
    ensures forall k :: k in TitleReplacements ==> TitleReplacements[k] in ReplacementValues
    ensures forall v :: v in ReplacementValues ==> v !in TitleReplacements
  {
    assert "corporate banking adviser"[18] != "corporate banking manager"[18];
  }

  /** Lower-case ASCII words separated by single spaces. */
  predicate PlainLowercase(v: string) {
    && |v| > 0 && v[0] != ' ' && v[|v| - 1] != ' '
    && forall i :: 0 <= i < |v| ==> 'a' <= v[i] <= 'z' || v[i] == ' '
  }

  lemma PlainLowercaseIsNormalised(v: string)
    requires PlainLowercase(v)
    ensures Normalised(v)
  {
  }

  lemma ReplacementValuesAreNormalised()
    ensures forall v :: v in ReplacementValues ==> Normalised(v)
  {
    assert PlainLowercase("cyber incident responder");
    assert PlainLowercase("care home worker");
    assert PlainLowercase("cybersecurity risk manager");
    assert PlainLowercase("handyperson");
    assert PlainLowercase("corporate banking adviser");
    forall v | v in ReplacementValues
      ensures Normalised(v)
    {
      PlainLowercaseIsNormalised(v);
    }
  }

  /** Every replacement is already normalised and is not itself replaced again. */
  lemma ReplacementsAreFinal()
    ensures forall k :: k in TitleReplacements ==>
      Normalised(TitleReplacements[k]) && TitleReplacements[k] !in TitleReplacements
  {
    ReplacementValuesAreNotKeys();
    ReplacementValuesAreNormalised();
  }

  lemma LowerKeepsTrimmed(s: string)
    requires Trimmed(s, Whitespace)
    ensures Trimmed(Lower(s), Whitespace)
  {
  }

  /** The title normalisation applied to a non-missing ESCO title. */
  function ReplaceTitle(t: string): (r: string)
    ensures Normalised(r) && r !in TitleReplacements
    ensures r != Lower(Strip(t)) ==>
      Lower(Strip(t)) in TitleReplacements && r == TitleReplacements[Lower(Strip(t))]
  {
    var p := Lower(Strip(t));
    LowerIsLowercase(Strip(t));
    StripCharsIsTrimmedInfix(t, Whitespace);
    LowerKeepsTrimmed(Strip(t));
    ReplacementsAreFinal();
    if p in TitleReplacements then TitleReplacements[p] else p
  }

  /** An already normalised title that is not a key stays as it is. */
  lemma ReplaceTitleFixes(t: string)
    requires Normalised(t) && t !in TitleReplacements
    ensures ReplaceTitle(t) == t
  {
    StripCharsOfTrimmed(t, Whitespace);
    LowerOfLowercase(t);
  }

  /** The two upper-case keys of the table can never match a lowered title. */
  lemma UpperCaseKeysUnreachable(t: string)
    ensures Lower(Strip(t)) != "ICT security engineer"
    ensures Lower(Strip(t)) != "ICT security manager"
  {
    LowerIsLowercase(Strip(t));
    assert IsUpper("ICT security engineer"[0]);
    assert IsUpper("ICT security manager"[0]);
  }

  /** The ESCO columns of one experience that `replace_esco_titles` rewrites. */
  datatype EscoColumns = EscoColumns(title: Cell, uri: Cell)

  /** `replace_esco_titles(example, i)` restricted to column pair `i`. */
  function ReplaceEscoTitles(e: EscoColumns): (r: EscoColumns)
    ensures !e.title.Text? ==> r.title == e.title
    ensures r.title.Text? ==> Normalised(r.title.s) && r.title.s !in TitleReplacements
    ensures e.title.Text? ==> r.title == Text(ReplaceTitle(e.title.s))
    ensures r.uri != e.uri ==> e.uri == Text(RetiredUri) && r.uri == Text(CurrentUri)
  {
    var title := if e.title.Text? then Text(ReplaceTitle(e.title.s)) else e.title;
    var uri := if e.uri == Text(RetiredUri) then Text(CurrentUri) else e.uri;
    EscoColumns(title, uri)
  }

  /** Applying the replacement twice is the same as applying it once. */
  lemma ReplaceEscoTitlesIdempotent(e: EscoColumns)
    ensures ReplaceEscoTitles(ReplaceEscoTitles(e)) == ReplaceEscoTitles(e)
  {
    var r := ReplaceEscoTitles(e);
    if r.title.Text? {
      ReplaceTitleFixes(r.title.s);
    }
  }

  // ---------------------------------------------------------------------------
  // experience texts

  /** A job as a pair of cells. */
  datatype Job = Job(title: Cell, description: Cell)

  /** `f"role: {title} \n description: {description}"` */
  function FreeTextEntry(j: Job): string {
    "role: " + Format(j.title) + " \n description: " + Format(j.description)
  }

  /** `f"esco role: {title} \n description: {description}"` */
  function EscoEntry(title: Cell, description: Cell): string {
    "esco role: " + Format(title) + " \n description: " + Format(description)
  }

  /** The free-text entries of a list of jobs, in order. */
  function Entries(jobs: seq<Job>): (es: seq<string>)
    ensures |es| == |jobs|
    ensures forall i :: 0 <= i < |jobs| ==> es[i] == FreeTextEntry(jobs[i])
  {
    seq(|jobs|, i requires 0 <= i < |jobs| => FreeTextEntry(jobs[i]))
  }

  /** `range(len(span) - span_discount)`: how many experiences `doc_1` covers. */
  function Covered(spanLength: nat, minusLast: bool): (c: nat)
    ensures c <= spanLength
    ensures minusLast ==> c == if spanLength == 0 then 0 else spanLength - 1
    ensures !minusLast ==> c == spanLength
  {
    if minusLast && spanLength > 0 then spanLength - 1
    else if minusLast then 0
    else spanLength
  }

  /** `doc_1`: the separator-joined free-text entries of the covered experiences. */
  function HistoryDoc(span: seq<Job>, minusLast: bool): string {
    Join(SepToken, Entries(span[..Covered(|span|, minusLast)]))
  }

  /** `<SEP>` has no proper prefix that is also a suffix. */
  lemma SepTokenBorderless()
    ensures |SepToken| > 0 && Borderless(SepToken)
  {
    forall k | 0 < k < |SepToken|
      ensures SepToken[..k] != SepToken[|SepToken| - k..]
    {
      assert SepToken[..k][0] == '<';
      assert SepToken[|SepToken| - k..][0] != '<';
    }
  }

  /**
    Splitting `doc_1` at the separator recovers the covered experiences, provided none of
    their texts contains the separator.
  */
  lemma HistoryDocSplits(span: seq<Job>, minusLast: bool)
    requires Covered(|span|, minusLast) > 0
    requires forall i :: 0 <= i < |span| ==> !Contains(FreeTextEntry(span[i]), SepToken)
    ensures Split(HistoryDoc(span, minusLast), SepToken) == Entries(span[..Covered(|span|, minusLast)])
  {
    SepTokenBorderless();
    var es := Entries(span[..Covered(|span|, minusLast)]);
    assert forall k :: 0 <= k < |es| ==> es[k] == FreeTextEntry(span[k]);
    SplitJoin(SepToken, es);
  }

  /** With `minus_last`, a one-experience (sub)history gives an empty `doc_1`. */
  lemma HistoryDocEmpty(span: seq<Job>)
    requires |span| == 1
    ensures HistoryDoc(span, true) == ""
  {
  }

  // ---------------------------------------------------------------------------
  // the subspans a history is cut into

  /** Every index in `ix` is a position of a list of length `n`. */
  predicate Below(ix: seq<nat>, n: nat) {
    forall i :: 0 <= i < |ix| ==> ix[i] < n
  }

  /**
    The index lists the loop walks: all subspans of `range(n)` when enabled and `n > 1`,
    otherwise the whole `range(n)`.
  */
  function IndexSpans(n: nat, allSubspans: bool): (spans: seq<seq<nat>>)
    ensures forall k :: 0 <= k < |spans| ==> Below(spans[k], n) && (n > 0 ==> |spans[k]| > 0)
  {
    if allSubspans && n > 1 then Subspans(Range(n)) else [Range(n)]
  }

  /** The job lists the loop walks in parallel with `IndexSpans`. */
  function JobSpans<T>(jobs: seq<T>, allSubspans: bool): (spans: seq<seq<T>>)
    ensures |spans| == |IndexSpans(|jobs|, allSubspans)|
  {
    if allSubspans && |jobs| > 1 then Subspans(jobs) else [jobs]
  }

  /** `[xs[i] for i in idx]` */
  function Pick<T>(xs: seq<T>, idx: seq<nat>): (ys: seq<T>)
    requires Below(idx, |xs|)
    ensures |ys| == |idx|
    ensures forall i :: 0 <= i < |idx| ==> ys[i] == xs[idx[i]]
  {
    seq(|idx|, i requires 0 <= i < |idx| => xs[idx[i]])
  }

  /**
    The loaders cut every column into subspans separately and zip the results; each
    column's `k`-th subspan is that column read at the `k`-th subspan of `range(n)`.
  */
  lemma SpansAlign<T>(jobs: seq<T>, allSubspans: bool, k: nat)
    requires k < |JobSpans(jobs, allSubspans)|
    ensures JobSpans(jobs, allSubspans)[k] == Pick(jobs, IndexSpans(|jobs|, allSubspans)[k])
  {
    if allSubspans && |jobs| > 1 {
      var span := Subspans(jobs)[k];
      var ix := Subspans(Range(|jobs|))[k];
      SubspanIndexes(jobs, k);
      assert Below(ix, |jobs|);
      assert span == Pick(jobs, ix);
    } else {
      PickRange(jobs);
    }
  }

  /** Reading a list at all its positions gives the list back. */
  lemma PickRange<T>(xs: seq<T>)
    ensures Pick(xs, Range(|xs|)) == xs
  {
  }

  // ---------------------------------------------------------------------------
  // Karrierewege

  /**
    Pairs from one Karrierewege history. `free` holds the columns `doc_1` is built from
    and `esco` those of `doc_2`: both are the ESCO columns for language `en`, and the
    generated free-text and ESCO columns for `en_free`.
  */
  function KarrierewegePairs(free: seq<Job>, esco: seq<Job>, minusLast: bool, allSubspans: bool)
    : (r: Result<seq<Pair>, Error>)
    requires |free| == |esco|
    ensures r.Failure? <==> |free| == 0
    ensures r.Success? ==> |r.value| == |IndexSpans(|free|, allSubspans)|
  {
    var spans := JobSpans(free, allSubspans);
    var idxs := IndexSpans(|free|, allSubspans);
    if |free| == 0 then Failure(IndexError)
    else
      Success(seq(|spans|, k requires 0 <= k < |spans| => KarrierewegeStep(esco, minusLast, spans[k], idxs[k])))
  }

  /** The Karrierewege loop body for one subspan and its indexes. */
  function KarrierewegeStep(esco: seq<Job>, minusLast: bool, span: seq<Job>, idx: seq<nat>): Pair
    requires |idx| > 0 && idx[|idx| - 1] < |esco|
  {
    var last := esco[idx[|idx| - 1]];
    Pair(HistoryDoc(span, minusLast), EscoEntry(last.title, last.description))
  }

  /** With the subspan flag off, or at most one experience, a history gives one pair. */
  lemma KarrierewegeOnePair(free: seq<Job>, esco: seq<Job>, minusLast: bool, allSubspans: bool)
    requires |free| == |esco| > 0 && (!allSubspans || |free| <= 1)
    ensures KarrierewegePairs(free, esco, minusLast, allSubspans)
         == Success([Pair(HistoryDoc(free, minusLast),
                          EscoEntry(esco[|esco| - 1].title, esco[|esco| - 1].description))])
  {
    var r := KarrierewegePairs(free, esco, minusLast, allSubspans);
    assert JobSpans(free, allSubspans) == [free];
    assert IndexSpans(|free|, allSubspans) == [Range(|free|)];
    assert Range(|free|)[|free| - 1] == |free| - 1;
    assert r.value[0] == KarrierewegeStep(esco, minusLast, free, Range(|free|));
    assert r.value == [r.value[0]];
  }

  /** With the subspan flag on, a history of `n > 1` experiences gives `n * (n - 1) / 2` pairs. */
  lemma KarrierewegePairCount(free: seq<Job>, esco: seq<Job>, minusLast: bool)
    requires |free| == |esco| > 1
    ensures var r := KarrierewegePairs(free, esco, minusLast, true);
      r.Success? && 2 * |r.value| == |free| * (|free| - 1)
  {
    WindowsCount(|free|);
  }

  /**
    For language `en` both column sets coincide, and each pair's `doc_2` describes the
    last experience of the subspan its `doc_1` was built from.
  */
  lemma KarrierewegeDoc2IsLastOfSpan(jobs: seq<Job>, minusLast: bool, allSubspans: bool, k: nat)
    requires |jobs| > 0
    requires k < |JobSpans(jobs, allSubspans)|
    ensures var r := KarrierewegePairs(jobs, jobs, minusLast, allSubspans);
      var span := JobSpans(jobs, allSubspans)[k];
      r.Success? && k < |r.value| && |span| > 0
      && r.value[k] == Pair(HistoryDoc(span, minusLast),
                            EscoEntry(span[|span| - 1].title, span[|span| - 1].description))
  {
    SpansAlign(jobs, allSubspans, k);
  }

  // ---------------------------------------------------------------------------
  // Decorte

  /** One experience of a Decorte working history, after `replace_esco_titles`. */
  datatype Experience = Experience(title: Cell, description: Cell, escoUri: Cell, escoTitle: Cell)

  /**
    The occupation descriptions keyed by concept URI, preferred label and alternative
    labels, as loaded from the ESCO occupation table.
  */
  type Occupations = map<string, Cell>

  /** Whether a cell is a key of the table; a missing value never is. */
  predicate HasKey(occ: Occupations, key: Cell) {
    key.Text? && key.s in occ
  }

  /** `ESCO_experience`: describe by URI, else by title, else raise `KeyError`. */
  function EscoExperience(occ: Occupations, title: Cell, uri: Cell): (r: Result<string, Error>)
    ensures r.Success? <==> HasKey(occ, uri) || HasKey(occ, title)
    ensures HasKey(occ, uri) ==> r == Success(EscoEntry(title, occ[uri.s]))
    ensures !HasKey(occ, uri) && HasKey(occ, title) ==> r == Success(EscoEntry(title, occ[title.s]))
    ensures r.Failure? ==> r.error == KeyError
  {
    if HasKey(occ, uri) then Success(EscoEntry(title, occ[uri.s]))
    else if HasKey(occ, title) then Success(EscoEntry(title, occ[title.s]))
    else Failure(KeyError)
  }

  /** Python indexing `xs[i]`, negative positions counting from the end. */
  function At<T>(xs: seq<T>, i: int): (r: Result<T, Error>)
    ensures r.Success? <==> -|xs| <= i < |xs|
    ensures 0 <= i < |xs| ==> r == Success(xs[i])
    ensures -|xs| <= i < 0 ==> r == Success(xs[|xs| + i])
    ensures r.Failure? ==> r.error == IndexError
  {
    if 0 <= i < |xs| then Success(xs[i])
    else if -|xs| <= i < 0 then Success(xs[|xs| + i])
    else Failure(IndexError)
  }

  /** `[t.strip() for t in ESCO_titles]`; a missing title has no `strip` and raises. */
  function StripTitles(es: seq<Experience>): (r: Result<seq<Cell>, Error>)
    ensures r.Success? <==> forall i :: 0 <= i < |es| ==> es[i].escoTitle.Text?
    ensures r.Success? ==> |r.value| == |es|
    ensures r.Success? ==> forall i :: 0 <= i < |es| ==> r.value[i] == Text(Strip(es[i].escoTitle.s))
  {
    MapResult(es, (e: Experience) =>
      if e.escoTitle.Text? then Success(Text(Strip(e.escoTitle.s))) else Failure(AttributeError))
  }

  /** One iteration of the zipped loop: a job subspan, its ESCO columns and its indexes. */
  datatype Slot = Slot(jobs: seq<Job>, esco: seq<EscoColumns>, indexes: seq<nat>)

  /** The free-text jobs of a history. */
  function JobsOf(es: seq<Experience>): (jobs: seq<Job>)
    ensures |jobs| == |es|
    ensures forall i :: 0 <= i < |es| ==> jobs[i] == Job(es[i].title, es[i].description)
  {
    seq(|es|, i requires 0 <= i < |es| => Job(es[i].title, es[i].description))
  }

  /** The ESCO columns of a history, with the titles given separately. */
  function EscoOf(es: seq<Experience>, titles: seq<Cell>): (cols: seq<EscoColumns>)
    requires |titles| == |es|
    ensures |cols| == |es|
    ensures forall i :: 0 <= i < |es| ==> cols[i] == EscoColumns(titles[i], es[i].escoUri)
  {
    seq(|es|, i requires 0 <= i < |es| => EscoColumns(titles[i], es[i].escoUri))
  }

  /** Whether the loaders cut the subspan lists down to the last `max_len`. */
  predicate Truncates(n: nat, allSubspans: bool, maxLen: int) {
    allSubspans && n > 1 && |Windows(n)| > maxLen
  }

  /**
    The first subspan the Decorte loop keeps: `spans[-max_len:]` starts there when there
    are more than `max_len` subspans, and nothing is dropped otherwise.
  */
  function FirstKept(n: nat, allSubspans: bool, maxLen: int): (start: nat)
    ensures start <= |IndexSpans(n, allSubspans)|
  {
    if Truncates(n, allSubspans, maxLen) then SliceIndex(|IndexSpans(n, allSubspans)|, -maxLen) else 0
  }

  /** The index subspans the Decorte loop keeps: `spans[-max_len:]` when it truncates. */
  function KeptSpans(n: nat, allSubspans: bool, maxLen: int): (kept: seq<seq<nat>>)
    ensures forall k :: 0 <= k < |kept| ==> Below(kept[k], n) && (n > 0 ==> |kept[k]| > 0)
    ensures |kept| == |IndexSpans(n, allSubspans)| - FirstKept(n, allSubspans, maxLen)
  {
    IndexSpans(n, allSubspans)[FirstKept(n, allSubspans, maxLen)..]
  }

  /** How many iterations the Decorte loop makes for a history of `n` experiences. */
  function SlotCount(n: nat, allSubspans: bool, maxLen: int): nat {
    |KeptSpans(n, allSubspans, maxLen)|
  }

  /**
    The zipped lists the Decorte loop walks, after keeping only the last `max_len`
    subspans when there are more. Each column's subspan is written as the column read at
    the index subspan, which `SpansAlign` shows equal to slicing the column itself.
  */
  function Slots(es: seq<Experience>, titles: seq<Cell>, allSubspans: bool, maxLen: int): (slots: seq<Slot>)
    requires |titles| == |es|
    ensures |slots| == SlotCount(|es|, allSubspans, maxLen)
    ensures forall k :: 0 <= k < |slots| ==> slots[k].indexes == KeptSpans(|es|, allSubspans, maxLen)[k]
    ensures forall k :: 0 <= k < |slots| ==> SlotOf(es, titles, slots[k])
  {
    var kept := KeptSpans(|es|, allSubspans, maxLen);
    seq(|kept|, k requires 0 <= k < |kept| => SlotAt(es, titles, kept[k]))
  }

  /** The columns of a history read at the indexes `ix`. */
  function SlotAt(es: seq<Experience>, titles: seq<Cell>, ix: seq<nat>): (slot: Slot)
    requires |titles| == |es|
    requires Below(ix, |es|)
    ensures slot.indexes == ix && SlotOf(es, titles, slot)
  {
    Slot(Pick(JobsOf(es), ix), Pick(EscoOf(es, titles), ix), ix)
  }

  /** A slot reads the history at its indexes. */
  predicate SlotOf(es: seq<Experience>, titles: seq<Cell>, slot: Slot)
    requires |titles| == |es|
  {
    && Below(slot.indexes, |es|)
    && |slot.jobs| == |slot.esco| == |slot.indexes|
    && (forall i :: 0 <= i < |slot.indexes| ==>
          slot.jobs[i] == Job(es[slot.indexes[i]].title, es[slot.indexes[i]].description))
    && (forall i :: 0 <= i < |slot.indexes| ==>
          slot.esco[i] == EscoColumns(titles[slot.indexes[i]], es[slot.indexes[i]].escoUri))
  }

  /** The Decorte loop body: `doc_2` from the ESCO columns, `doc_1` from the free text. */
  function DecorteStep(occ: Occupations, titles: seq<Cell>, uris: seq<Cell>, minusLast: bool, slot: Slot)
    : Result<Pair, Error>
  {
    var last :- At(slot.indexes, -1);
    var title :- At(titles, last);
    var uri :- At(uris, last);
    var doc2 :- EscoExperience(occ, title, uri);
    Success(Pair(HistoryDoc(slot.jobs, minusLast), doc2))
  }

  /** The URIs of a history. */
  function UrisOf(es: seq<Experience>): (uris: seq<Cell>)
    ensures |uris| == |es|
    ensures forall i :: 0 <= i < |es| ==> uris[i] == es[i].escoUri
  {
    seq(|es|, i requires 0 <= i < |es| => es[i].escoUri)
  }

  /** Pairs from one Decorte history (`load_prepare_decorte`). */
  function DecortePairs(occ: Occupations, es: seq<Experience>, minusLast: bool, allSubspans: bool, maxLen: int)
    : (r: Result<seq<Pair>, Error>)
    ensures r.Success? ==> |r.value| == SlotCount(|es|, allSubspans, maxLen)
  {
    var titles :- StripTitles(es);
    var uris := UrisOf(es);
    MapResult(Slots(es, titles, allSubspans, maxLen), (slot: Slot) => DecorteStep(occ, titles, uris, minusLast, slot))
  }

  /** An empty history fails at `_experience_indexes[-1]`. */
  lemma DecorteEmptyHistory(occ: Occupations, minusLast: bool, allSubspans: bool, maxLen: int)
    ensures DecortePairs(occ, [], minusLast, allSubspans, maxLen) == Failure(IndexError)
  {
    var slots := Slots([], [], allSubspans, maxLen);
    assert IndexSpans(0, allSubspans) == [Range(0)];
    assert |slots| == 1 && slots[0].indexes == [];
  }

  /** A missing ESCO title anywhere in the history makes the `strip` comprehension raise. */
  lemma DecorteMissingTitle(occ: Occupations, es: seq<Experience>, minusLast: bool, allSubspans: bool, maxLen: int, i: nat)
    requires i < |es| && !es[i].escoTitle.Text?
    ensures DecortePairs(occ, es, minusLast, allSubspans, maxLen).Failure?
  {
  }

  /** For `max_len >= 1` at most `max_len` pairs are kept per history. */
  lemma DecorteAtMostMaxLen(n: nat, allSubspans: bool, maxLen: int)
    requires maxLen >= 1
    ensures SlotCount(n, allSubspans, maxLen) <= maxLen
  {
  }

  /** With `max_len == 0` nothing is dropped, because `spans[-0:]` is the whole list. */
  lemma DecorteZeroMaxLenKeepsAll(n: nat, allSubspans: bool)
    ensures SlotCount(n, allSubspans, 0) == |IndexSpans(n, allSubspans)|
  {
  }

  /** When no truncation happens every subspan of length two or more gives a pair. */
  lemma DecorteSubspanCount(n: nat, maxLen: int)
    requires n > 1 && 2 * maxLen >= n * (n - 1)
    ensures 2 * SlotCount(n, true, maxLen) == n * (n - 1)
  {
    WindowsCount(n);
  }

  /** What one step of the Decorte loop produces for a non-empty slot. */
  lemma DecorteStepValue(occ: Occupations, titles: seq<Cell>, uris: seq<Cell>, minusLast: bool, slot: Slot)
    requires |slot.indexes| > 0 && slot.indexes[|slot.indexes| - 1] < |titles| == |uris|
    ensures var last := slot.indexes[|slot.indexes| - 1];
      var d := EscoExperience(occ, titles[last], uris[last]);
      DecorteStep(occ, titles, uris, minusLast, slot)
        == if d.Success? then Success(Pair(HistoryDoc(slot.jobs, minusLast), d.value)) else Failure(d.error)
  {
  }

  /**
    Each Decorte pair: `doc_1` joins the covered free-text experiences of its subspan and
    `doc_2` is the ESCO description of the subspan's last experience, with its title stripped.
  */
  lemma DecortePairShape(occ: Occupations, es: seq<Experience>, minusLast: bool, allSubspans: bool, maxLen: int, k: nat)
    requires DecortePairs(occ, es, minusLast, allSubspans, maxLen).Success?
    requires k < SlotCount(|es|, allSubspans, maxLen)
    ensures var r := DecortePairs(occ, es, minusLast, allSubspans, maxLen).value;
      var slot := KeptSpans(|es|, allSubspans, maxLen)[k];
      var last := es[slot[|slot| - 1]];
      && |slot| > 0
      && r[k].doc1 == HistoryDoc(Pick(JobsOf(es), slot), minusLast)
      && Success(r[k].doc2) == EscoExperience(occ, Text(Strip(last.escoTitle.s)), last.escoUri)
  {
    var titles := StripTitles(es).value;
    var uris := UrisOf(es);
    var slots := Slots(es, titles, allSubspans, maxLen);
    var f := (slot: Slot) => DecorteStep(occ, titles, uris, minusLast, slot);
    var r := MapResult(slots, f);
    assert DecortePairs(occ, es, minusLast, allSubspans, maxLen) == r;
    assert r.value[k] == f(slots[k]).value;
    var slot := slots[k];
    assert |es| > 0;
    assert |slot.indexes| > 0;
    DecorteStepValue(occ, titles, uris, minusLast, slot);
    assert slot.jobs == Pick(JobsOf(es), slot.indexes);
  }

  /** With the subspan flag off, or at most one experience, a history gives one pair. */
  lemma DecorteOnePair(occ: Occupations, es: seq<Experience>, minusLast: bool, allSubspans: bool, maxLen: int)
    requires !allSubspans || |es| <= 1
    requires DecortePairs(occ, es, minusLast, allSubspans, maxLen).Success?
    ensures var r := DecortePairs(occ, es, minusLast, allSubspans, maxLen).value;
      |r| == 1 && r[0].doc1 == HistoryDoc(JobsOf(es), minusLast)
  {
    var n := |es|;
    assert !Truncates(n, allSubspans, maxLen);
    assert IndexSpans(n, allSubspans) == [Range(n)];
    assert KeptSpans(n, allSubspans, maxLen) == [Range(n)];
    DecortePairShape(occ, es, minusLast, allSubspans, maxLen, 0);
    PickRange(JobsOf(es));
  }

  // ---------------------------------------------------------------------------
  // Decorte, ESCO variant

  /** The ESCO descriptions of some experiences, in order; the first unknown one raises. */
  function EscoEntries(occ: Occupations, cols: seq<EscoColumns>): (r: Result<seq<string>, Error>)
    ensures r.Success? <==> forall i :: 0 <= i < |cols| ==> HasKey(occ, cols[i].uri) || HasKey(occ, cols[i].title)
    ensures r.Success? ==> |r.value| == |cols|
    ensures r.Success? ==>
      forall i :: 0 <= i < |cols| ==> Success(r.value[i]) == EscoExperience(occ, cols[i].title, cols[i].uri)
  {
    MapResult(cols, (c: EscoColumns) => EscoExperience(occ, c.title, c.uri))
  }

  /** The ESCO titles of a history, unstripped as in the ESCO variant. */
  function RawTitles(es: seq<Experience>): (titles: seq<Cell>)
    ensures |titles| == |es|
    ensures forall i :: 0 <= i < |es| ==> titles[i] == es[i].escoTitle
  {
    seq(|es|, i requires 0 <= i < |es| => es[i].escoTitle)
  }

  /**
    The ESCO-variant loop body as written: `doc_1` reads the whole-history columns at
    positions `0 .. len(subspan) - span_discount`, not the subspan's own columns.
  */
  function DecorteEscoStepAsWritten(occ: Occupations, cols: seq<EscoColumns>, minusLast: bool, slot: Slot)
    : Result<Pair, Error>
  {
    var entries :- EscoEntries(occ, Take(cols, Covered(|slot.jobs|, minusLast)));
    var last :- At(slot.indexes, -1);
    var col :- At(cols, last);
    var doc2 :- EscoExperience(occ, col.title, col.uri);
    Success(Pair(Join(SepToken, entries), doc2))
  }

  /** `load_prepare_decorte_esco` for one history, as written. */
  function DecorteEscoPairsAsWritten(occ: Occupations, es: seq<Experience>, minusLast: bool, allSubspans: bool, maxLen: int)
    : (r: Result<seq<Pair>, Error>)
    ensures r.Success? ==> |r.value| == SlotCount(|es|, allSubspans, maxLen)
  {
    var cols := EscoOf(es, RawTitles(es));
    MapResult(Slots(es, RawTitles(es), allSubspans, maxLen),
              (slot: Slot) => DecorteEscoStepAsWritten(occ, cols, minusLast, slot))
  }

  /** The ESCO-variant loop body with `doc_1` read from the subspan's own ESCO columns. */
  function DecorteEscoStep(occ: Occupations, cols: seq<EscoColumns>, minusLast: bool, slot: Slot)
    : Result<Pair, Error>
  {
    var entries :- EscoEntries(occ, Take(slot.esco, Covered(|slot.jobs|, minusLast)));
    var last :- At(slot.indexes, -1);
    var col :- At(cols, last);
    var doc2 :- EscoExperience(occ, col.title, col.uri);
    Success(Pair(Join(SepToken, entries), doc2))
  }

  /** `load_prepare_decorte_esco` for one history, with `doc_1` built from the subspan. */
  function DecorteEscoPairs(occ: Occupations, es: seq<Experience>, minusLast: bool, allSubspans: bool, maxLen: int)
    : (r: Result<seq<Pair>, Error>)
    ensures r.Success? ==> |r.value| == SlotCount(|es|, allSubspans, maxLen)
  {
    var cols := EscoOf(es, RawTitles(es));
    MapResult(Slots(es, RawTitles(es), allSubspans, maxLen),
              (slot: Slot) => DecorteEscoStep(occ, cols, minusLast, slot))
  }

  /** What one corrected ESCO step produces: a prefix of the slot's descriptions, and its last one. */
  lemma DecorteEscoStepValue(occ: Occupations, cols: seq<EscoColumns>, minusLast: bool, slot: Slot)
    requires |slot.jobs| == |slot.esco| == |slot.indexes| > 0 && Below(slot.indexes, |cols|)
    requires slot.esco[|slot.esco| - 1] == cols[slot.indexes[|slot.indexes| - 1]]
    requires DecorteEscoStep(occ, cols, minusLast, slot).Success?
    ensures var p := DecorteEscoStep(occ, cols, minusLast, slot).value;
      var all := EscoEntries(occ, slot.esco);
      && all.Success?
      && p.doc1 == Join(SepToken, all.value[..Covered(|slot.esco|, minusLast)])
      && p.doc2 == all.value[|slot.esco| - 1]
  {
    var n := |slot.esco|;
    var c := Covered(n, minusLast);
    var prefix := Take(slot.esco, c);
    assert prefix == slot.esco[..c];
    var front := EscoEntries(occ, prefix);
    assert front.Success?;
    var col := slot.esco[n - 1];
    assert EscoExperience(occ, col.title, col.uri).Success?;
    forall i | 0 <= i < n
      ensures HasKey(occ, slot.esco[i].uri) || HasKey(occ, slot.esco[i].title)
    {
      if i < c {
        assert prefix[i] == slot.esco[i];
      }
    }
    var all := EscoEntries(occ, slot.esco);
    assert all.Success?;
    forall i | 0 <= i < c
      ensures front.value[i] == all.value[i]
    {
      assert Success(front.value[i]) == EscoExperience(occ, prefix[i].title, prefix[i].uri);
    }
    assert front.value == all.value[..c];
  }

  /** The `k`-th corrected ESCO pair is the corrected step on the `k`-th slot. */
  lemma DecorteEscoAt(occ: Occupations, es: seq<Experience>, minusLast: bool, allSubspans: bool, maxLen: int, k: nat)
    requires DecorteEscoPairs(occ, es, minusLast, allSubspans, maxLen).Success?
    requires k < SlotCount(|es|, allSubspans, maxLen)
    ensures var step := DecorteEscoStep(occ, EscoOf(es, RawTitles(es)), minusLast, Slots(es, RawTitles(es), allSubspans, maxLen)[k]);
      step.Success? && DecorteEscoPairs(occ, es, minusLast, allSubspans, maxLen).value[k] == step.value
  {
    var titles := RawTitles(es);
    var cols := EscoOf(es, titles);
    var slots := Slots(es, titles, allSubspans, maxLen);
    var f := (slot: Slot) => DecorteEscoStep(occ, cols, minusLast, slot);
    assert DecorteEscoPairs(occ, es, minusLast, allSubspans, maxLen) == MapResult(slots, f);
  }

  /** The `k`-th ESCO pair as written is the as-written step on the `k`-th slot. */
  lemma DecorteEscoAsWrittenAt(occ: Occupations, es: seq<Experience>, minusLast: bool, allSubspans: bool, maxLen: int, k: nat)
    requires DecorteEscoPairsAsWritten(occ, es, minusLast, allSubspans, maxLen).Success?
    requires k < SlotCount(|es|, allSubspans, maxLen)
    ensures var step := DecorteEscoStepAsWritten(occ, EscoOf(es, RawTitles(es)), minusLast, Slots(es, RawTitles(es), allSubspans, maxLen)[k]);
      step.Success? && DecorteEscoPairsAsWritten(occ, es, minusLast, allSubspans, maxLen).value[k] == step.value
  {
    var titles := RawTitles(es);
    var cols := EscoOf(es, titles);
    var slots := Slots(es, titles, allSubspans, maxLen);
    var f := (slot: Slot) => DecorteEscoStepAsWritten(occ, cols, minusLast, slot);
    assert DecorteEscoPairsAsWritten(occ, es, minusLast, allSubspans, maxLen) == MapResult(slots, f);
  }

  /**
    With the correction, and `minus_last`, `doc_1` lists the ESCO descriptions of the
    subspan's experiences before its last one, and `doc_2` describes that last one.
  */
  lemma DecorteEscoPairIsSubspan(occ: Occupations, es: seq<Experience>, minusLast: bool, allSubspans: bool, maxLen: int, k: nat)
    requires DecorteEscoPairs(occ, es, minusLast, allSubspans, maxLen).Success?
    requires k < SlotCount(|es|, allSubspans, maxLen)
    ensures var r := DecorteEscoPairs(occ, es, minusLast, allSubspans, maxLen).value;
      var ix := KeptSpans(|es|, allSubspans, maxLen)[k];
      var all := EscoEntries(occ, Pick(EscoOf(es, RawTitles(es)), ix));
      && |ix| > 0 && all.Success?
      && r[k].doc1 == Join(SepToken, all.value[..Covered(|ix|, minusLast)])
      && r[k].doc2 == all.value[|ix| - 1]
  {
    var titles := RawTitles(es);
    var cols := EscoOf(es, titles);
    var slot := Slots(es, titles, allSubspans, maxLen)[k];
    DecorteEscoAt(occ, es, minusLast, allSubspans, maxLen, k);
    assert |es| > 0;
    assert slot.esco == Pick(cols, slot.indexes);
    DecorteEscoStepValue(occ, cols, minusLast, slot);
  }

  /**
    As written, `doc_1` of every ESCO-variant pair describes the first experiences of the
    whole history, however late its subspan starts.
  */
  lemma DecorteEscoAsWrittenReadsPrefix(occ: Occupations, es: seq<Experience>, minusLast: bool, allSubspans: bool, maxLen: int, k: nat)
    requires DecorteEscoPairsAsWritten(occ, es, minusLast, allSubspans, maxLen).Success?
    requires k < SlotCount(|es|, allSubspans, maxLen)
    ensures var r := DecorteEscoPairsAsWritten(occ, es, minusLast, allSubspans, maxLen).value;
      var ix := KeptSpans(|es|, allSubspans, maxLen)[k];
      var front := EscoEntries(occ, Take(EscoOf(es, RawTitles(es)), Covered(|ix|, minusLast)));
      && front.Success?
      && r[k].doc1 == Join(SepToken, front.value)
  {
    var titles := RawTitles(es);
    var slot := Slots(es, titles, allSubspans, maxLen)[k];
    DecorteEscoAsWrittenAt(occ, es, minusLast, allSubspans, maxLen, k);
    DecorteEscoStepAsWrittenValue(occ, EscoOf(es, titles), minusLast, slot);
    assert SlotOf(es, titles, slot);
  }

  /** What one as-written ESCO step produces: `doc_1` joins a prefix of the whole history. */
  lemma DecorteEscoStepAsWrittenValue(occ: Occupations, cols: seq<EscoColumns>, minusLast: bool, slot: Slot)
    requires DecorteEscoStepAsWritten(occ, cols, minusLast, slot).Success?
    ensures var front := EscoEntries(occ, Take(cols, Covered(|slot.jobs|, minusLast)));
      && front.Success?
      && DecorteEscoStepAsWritten(occ, cols, minusLast, slot).value.doc1 == Join(SepToken, front.value)
  {
  }

  /** Columns whose URIs are all known describe without error, and so do their prefixes. */
  lemma EscoEntriesKnown(occ: Occupations, cols: seq<EscoColumns>, c: int)
    requires forall i :: 0 <= i < |cols| ==> HasKey(occ, cols[i].uri)
    ensures EscoEntries(occ, Take(cols, c)).Success?
  {
    var prefix := Take(cols, c);
    assert forall i :: 0 <= i < |prefix| ==> HasKey(occ, prefix[i].uri);
  }

  /** Both ESCO steps succeed on a non-empty slot whose columns all have known URIs. */
  lemma EscoStepsKnown(occ: Occupations, cols: seq<EscoColumns>, minusLast: bool, slot: Slot)
    requires forall i :: 0 <= i < |cols| ==> HasKey(occ, cols[i].uri)
    requires |slot.indexes| > 0 && Below(slot.indexes, |cols|)
    requires forall i :: 0 <= i < |slot.esco| ==> HasKey(occ, slot.esco[i].uri)
    ensures DecorteEscoStepAsWritten(occ, cols, minusLast, slot).Success?
    ensures DecorteEscoStep(occ, cols, minusLast, slot).Success?
  {
    EscoEntriesKnown(occ, cols, Covered(|slot.jobs|, minusLast));
    EscoEntriesKnown(occ, slot.esco, Covered(|slot.jobs|, minusLast));
    var last := slot.indexes[|slot.indexes| - 1];
    assert HasKey(occ, cols[last].uri);
  }

  /** A slot of a history whose ESCO URIs are all known has only known URIs. */
  lemma SlotKnown(occ: Occupations, es: seq<Experience>, titles: seq<Cell>, slot: Slot)
    requires |titles| == |es| && SlotOf(es, titles, slot)
    requires forall i :: 0 <= i < |es| ==> HasKey(occ, es[i].escoUri)
    ensures forall i :: 0 <= i < |EscoOf(es, titles)| ==> HasKey(occ, EscoOf(es, titles)[i].uri)
    ensures forall i :: 0 <= i < |slot.esco| ==> HasKey(occ, slot.esco[i].uri)
  {
  }

  /** When a history is non-empty and all its ESCO URIs are known, both ESCO builders succeed. */
  lemma DecorteEscoSucceeds(occ: Occupations, es: seq<Experience>, minusLast: bool, allSubspans: bool, maxLen: int)
    requires |es| > 0
    requires forall i :: 0 <= i < |es| ==> HasKey(occ, es[i].escoUri)
    ensures DecorteEscoPairsAsWritten(occ, es, minusLast, allSubspans, maxLen).Success?
    ensures DecorteEscoPairs(occ, es, minusLast, allSubspans, maxLen).Success?
  {
    var titles := RawTitles(es);
    var cols := EscoOf(es, titles);
    var slots := Slots(es, titles, allSubspans, maxLen);
    forall k | 0 <= k < |slots|
      ensures DecorteEscoStepAsWritten(occ, cols, minusLast, slots[k]).Success?
      ensures DecorteEscoStep(occ, cols, minusLast, slots[k]).Success?
    {
      var slot := slots[k];
      SlotKnown(occ, es, titles, slot);
      EscoStepsKnown(occ, cols, minusLast, slot);
    }
  }

  /**
    When a step covers anything and every URI is known, `doc_1` begins, as written, with
    the description of the history's first experience and, corrected, with that of the
    slot's first experience.
  */
  lemma EscoStepFirstEntries(occ: Occupations, cols: seq<EscoColumns>, minusLast: bool, slot: Slot)
    requires forall i :: 0 <= i < |cols| ==> HasKey(occ, cols[i].uri)
    requires |slot.indexes| > 0 && Below(slot.indexes, |cols|)
    requires forall i :: 0 <= i < |slot.esco| ==> HasKey(occ, slot.esco[i].uri)
    requires |slot.esco| == |slot.jobs| && Covered(|slot.jobs|, minusLast) > 0
    ensures DecorteEscoStepAsWritten(occ, cols, minusLast, slot).Success?
    ensures DecorteEscoStep(occ, cols, minusLast, slot).Success?
    ensures EscoEntry(cols[0].title, occ[cols[0].uri.s]) <= DecorteEscoStepAsWritten(occ, cols, minusLast, slot).value.doc1
    ensures EscoEntry(slot.esco[0].title, occ[slot.esco[0].uri.s]) <= DecorteEscoStep(occ, cols, minusLast, slot).value.doc1
  {
    EscoStepsKnown(occ, cols, minusLast, slot);
    var c := Covered(|slot.jobs|, minusLast);
    var front := EscoEntries(occ, Take(cols, c));
    assert Success(front.value[0]) == EscoExperience(occ, Take(cols, c)[0].title, Take(cols, c)[0].uri);
    JoinStartsWithFirst(SepToken, front.value);
    var own := EscoEntries(occ, Take(slot.esco, c));
    assert Success(own.value[0]) == EscoExperience(occ, Take(slot.esco, c)[0].title, Take(slot.esco, c)[0].uri);
    JoinStartsWithFirst(SepToken, own.value);
  }

  /** Character 11 of an ESCO entry is the first character of its title. */
  lemma EscoEntryTitleAt(title: string, description: Cell)
    requires |title| > 0
    ensures |EscoEntry(Text(title), description)| > 11 && EscoEntry(Text(title), description)[11] == title[0]
  {
  }

  /** Strings that begin with prefixes differing at position `i` differ. */
  lemma PrefixesDiffer(a: string, b: string, x: string, y: string, i: nat)
    requires a <= x && b <= y && i < |a| && i < |b| && a[i] != b[i]
    ensures x != y
  {
    assert x[i] == a[i] && y[i] == b[i];
  }

  /** Among the subspans of a three-experience history is the one of experiences 1 and 2. */
  lemma LateSubspan(n: nat) returns (k: nat)
    requires n == 3
    ensures k < SlotCount(n, true, 16) && KeptSpans(n, true, 16)[k] == [1, 2]
  {
    WindowsExactlyOnce(n, Window(1, 2));
    k :| 0 <= k < |Windows(n)| && Windows(n)[k] == Window(1, 2);
    WindowsCount(n);
    assert !Truncates(n, true, 16);
    SubspanElements(Range(n), k);
  }

  /**
    In a history of three experiences with known URIs whose first two ESCO titles
    start differently, the subspan of experiences 1 and 2 gets, as written, a `doc_1`
    that differs from the corrected one: it describes experiences 0 and 1, not 1 and 2.
  */
  lemma DecorteEscoFinding(es: seq<Experience>, occ: Occupations) returns (k: nat)
    requires |es| == 3 && forall i :: 0 <= i < |es| ==> HasKey(occ, es[i].escoUri)
    requires es[0].escoTitle == Text("a") && es[1].escoTitle == Text("b")
    ensures k < SlotCount(|es|, true, 16) && KeptSpans(|es|, true, 16)[k] == [1, 2]
    ensures DecorteEscoPairsAsWritten(occ, es, false, true, 16).Success?
    ensures DecorteEscoPairs(occ, es, false, true, 16).Success?
    ensures DecorteEscoPairsAsWritten(occ, es, false, true, 16).value[k].doc1
      != DecorteEscoPairs(occ, es, false, true, 16).value[k].doc1
  {
    k := LateSubspan(|es|);
    var titles := RawTitles(es);
    var cols := EscoOf(es, titles);
    var slot := Slots(es, titles, true, 16)[k];
    DecorteEscoSucceeds(occ, es, false, true, 16);
    DecorteEscoAt(occ, es, false, true, 16, k);
    DecorteEscoAsWrittenAt(occ, es, false, true, 16, k);
    assert SlotOf(es, titles, slot) && slot.esco[0] == cols[1];
    SlotKnown(occ, es, titles, slot);
    EscoStepFirstEntries(occ, cols, false, slot);
    EscoEntryTitleAt("a", occ[es[0].escoUri.s]);
    EscoEntryTitleAt("b", occ[es[1].escoUri.s]);
    PrefixesDiffer(EscoEntry(cols[0].title, occ[cols[0].uri.s]), EscoEntry(cols[1].title, occ[cols[1].uri.s]),
      DecorteEscoStepAsWritten(occ, cols, false, slot).value.doc1,
      DecorteEscoStep(occ, cols, false, slot).value.doc1, 11);
  }

  // ---------------------------------------------------------------------------
  // whole splits: `create_pairs_from_dataset`

  /**
    The pairs of a whole split: every history's pairs in turn, the first history whose
    pairs raise stopping the split with that error.
  */
  function Dataset<H>(hs: seq<H>, build: H -> Result<seq<Pair>, Error>): (r: Result<seq<Pair>, Error>)
    ensures r.Success? <==> forall i :: 0 <= i < |hs| ==> build(hs[i]).Success?
  {
    var perHistory :- MapResult(hs, build);
    Success(Concat(perHistory))
  }

  /** A pair of a split comes from one of its histories, and every history's pairs are in it. */
  lemma DatasetMembers<H>(hs: seq<H>, build: H -> Result<seq<Pair>, Error>, p: Pair)
    requires Dataset(hs, build).Success?
    ensures p in Dataset(hs, build).value <==>
      exists i :: 0 <= i < |hs| && build(hs[i]).Success? && p in build(hs[i]).value
  {
    var per := MapResult(hs, build).value;
    ConcatMembers(per, p);
    if exists i :: 0 <= i < |hs| && build(hs[i]).Success? && p in build(hs[i]).value {
      var i :| 0 <= i < |hs| && build(hs[i]).Success? && p in build(hs[i]).value;
      assert p in per[i];
    }
  }

  /** Histories of at most `m` pairs each give a split of at most `m` pairs per history. */
  lemma DatasetAtMost<H>(hs: seq<H>, build: H -> Result<seq<Pair>, Error>, m: nat)
    requires Dataset(hs, build).Success?
    requires forall i :: 0 <= i < |hs| ==> |build(hs[i]).value| <= m
    ensures |Dataset(hs, build).value| <= m * |hs|
  {
    var per := MapResult(hs, build).value;
    ConcatAtMost(per, m);
  }

  /** One row of a Karrierewege group: the columns `doc_1` and `doc_2` are built from. */
  datatype Row = Row(free: Job, esco: Job)

  /** Pairs from one Karrierewege group, its rows sorted by experience order. */
  function KarrierewegeGroup(minusLast: bool, allSubspans: bool, rows: seq<Row>): (r: Result<seq<Pair>, Error>)
    ensures r.Failure? <==> |rows| == 0
  {
    KarrierewegePairs(seq(|rows|, i requires 0 <= i < |rows| => rows[i].free),
                      seq(|rows|, i requires 0 <= i < |rows| => rows[i].esco), minusLast, allSubspans)
  }

  /** `load_prepare_karrierewege`'s pairs for one split, group by group. */
  function KarrierewegeDataset(groups: seq<seq<Row>>, minusLast: bool, allSubspans: bool): (r: Result<seq<Pair>, Error>)
    ensures r.Success? <==> forall i :: 0 <= i < |groups| ==> |groups[i]| > 0
  {
    Dataset(groups, (rows: seq<Row>) => KarrierewegeGroup(minusLast, allSubspans, rows))
  }

  /** `load_prepare_decorte`'s pairs for one split, history by history. */
  function DecorteDataset(occ: Occupations, hs: seq<seq<Experience>>, minusLast: bool, allSubspans: bool, maxLen: int)
    : (r: Result<seq<Pair>, Error>)
    ensures r.Success? <==> forall i :: 0 <= i < |hs| ==> DecortePairs(occ, hs[i], minusLast, allSubspans, maxLen).Success?
  {
    Dataset(hs, (es: seq<Experience>) => DecortePairs(occ, es, minusLast, allSubspans, maxLen))
  }

  /** `load_prepare_decorte_esco`'s pairs for one split, with the corrected `doc_1`. */
  function DecorteEscoDataset(occ: Occupations, hs: seq<seq<Experience>>, minusLast: bool, allSubspans: bool, maxLen: int)
    : (r: Result<seq<Pair>, Error>)
    ensures r.Success? <==> forall i :: 0 <= i < |hs| ==> DecorteEscoPairs(occ, hs[i], minusLast, allSubspans, maxLen).Success?
  {
    Dataset(hs, (es: seq<Experience>) => DecorteEscoPairs(occ, es, minusLast, allSubspans, maxLen))
  }

  /** With `max_len >= 1` a Decorte split holds at most `max_len` pairs per history. */
  lemma DecorteDatasetAtMost(occ: Occupations, hs: seq<seq<Experience>>, minusLast: bool, allSubspans: bool, maxLen: nat)
    requires maxLen >= 1
    requires DecorteDataset(occ, hs, minusLast, allSubspans, maxLen).Success?
    ensures |DecorteDataset(occ, hs, minusLast, allSubspans, maxLen).value| <= maxLen * |hs|
  {
    var build := (es: seq<Experience>) => DecortePairs(occ, es, minusLast, allSubspans, maxLen);
    forall i | 0 <= i < |hs|
      ensures |build(hs[i]).value| <= maxLen
    {
      DecorteAtMostMaxLen(|hs[i]|, allSubspans, maxLen);
    }
    DatasetAtMost(hs, build, maxLen);
  }

  /** Without the subspan flag a Karrierewege split holds exactly one pair per group. */
  lemma KarrierewegeDatasetOnePerGroup(groups: seq<seq<Row>>, minusLast: bool)
    requires KarrierewegeDataset(groups, minusLast, false).Success?
    ensures |KarrierewegeDataset(groups, minusLast, false).value| == |groups|
  {
    var build := (rows: seq<Row>) => KarrierewegeGroup(minusLast, false, rows);
    var per := MapResult(groups, build).value;
    forall i | 0 <= i < |groups|
      ensures |per[i]| == 1
    {
      assert |IndexSpans(|groups[i]|, false)| == 1;
    }
    ConcatOfSingletons(per);
  }
}
