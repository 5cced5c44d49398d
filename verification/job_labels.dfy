/**
  Decoding of the job labels stored in the index: the text `"esco role: T \n description: D"`
  that the training-pair builders write as `doc_2` is split back into a title and a
  description for display.
*/
module JobLabels {
  import opened Wrappers
  import opened Strings
  import TrainingPairs

  const DescriptionMarker: string := "description:"
  const RoleMarker: string := "esco role:"
  const NoDescription: string := "No description available."

  /** The `(title, description)` tuple shown for a suggested job. */
  datatype JobLabel = JobLabel(title: string, description: string)

  /** The text up to the first occurrence of `DescriptionMarker` in `s`, or all of `s`. */
  function UpToMarker(s: string): string {
    match Find(s, DescriptionMarker)
    case None => s
    case Some(j) => s[..j]
  }

  /**
    `extract_job_title_and_description`: split at `"description:"`; the title is the first
    part without `"esco role:"`, stripped and capitalised; the description is the second
    part stripped, or a fixed sentence when there is no marker.
  */
  function ExtractJobTitleAndDescription(raw: string): (r: JobLabel)
    ensures Find(raw, DescriptionMarker).None? ==>
      r == JobLabel(Capitalize(Strip(ReplaceAll(raw, RoleMarker, ""))), NoDescription)
    ensures Find(raw, DescriptionMarker).Some? ==>
      var i := Find(raw, DescriptionMarker).value;
      && r.title == Capitalize(Strip(ReplaceAll(raw[..i], RoleMarker, "")))
      && r.description == Strip(UpToMarker(raw[i + |DescriptionMarker|..]))
  {
    var parts := Split(raw, DescriptionMarker);
    match Find(raw, DescriptionMarker)
    case None =>
      SplitWithoutSeparator(raw, DescriptionMarker);
      NotFoundMeansAbsent(raw, DescriptionMarker);
      JobLabel(Capitalize(Strip(ReplaceAll(parts[0], RoleMarker, ""))), NoDescription)
    case Some(i) =>
      SplitAtFirst(raw, DescriptionMarker, i);
      var rest := raw[i + |DescriptionMarker|..];
      assert parts[1] == Split(rest, DescriptionMarker)[0];
      FirstPartUpToMarker(rest);
      JobLabel(Capitalize(Strip(ReplaceAll(parts[0], RoleMarker, ""))), Strip(parts[1]))
  }

  /** The first part `split` returns ends before the first marker. */
  lemma FirstPartUpToMarker(s: string)
    ensures Split(s, DescriptionMarker)[0] == UpToMarker(s)
  {
    match Find(s, DescriptionMarker)
    case None =>
      NotFoundMeansAbsent(s, DescriptionMarker);
      SplitWithoutSeparator(s, DescriptionMarker);
    case Some(j) =>
      SplitAtFirst(s, DescriptionMarker, j);
  }

  /** Without the lower-case marker there is no description: matching is case-sensitive. */
  lemma NoMarkerNoDescription(raw: string)
    requires !Contains(raw, DescriptionMarker)
    ensures ExtractJobTitleAndDescription(raw).description == NoDescription
  {
    NotFoundMeansAbsent(raw, DescriptionMarker);
  }

  /** A capitalised marker, as in `"Description: x"`, does not split the text. */
  lemma CapitalisedMarkerDoesNotSplit(x: string)
    requires 'd' !in x
    ensures ExtractJobTitleAndDescription("Description: " + x).description == NoDescription
  {
    assert 'd' !in "Description: " + x;
    NoMatchAcrossLeft("Description: " + x, "", DescriptionMarker);
    assert "Description: " + x + "" == "Description: " + x;
    NoMarkerNoDescription("Description: " + x);
  }

  /** With a second marker only the text between the first two becomes the description. */
  lemma SecondMarkerEndsDescription(a: string, b: string, c: string)
    requires !Contains(a, DescriptionMarker) && !Contains(b, DescriptionMarker)
    ensures ExtractJobTitleAndDescription(a + DescriptionMarker + b + DescriptionMarker + c).description
      == Strip(b)
  {
    DescriptionMarkerBorderless();
    var rest := b + DescriptionMarker + c;
    var s := a + DescriptionMarker + rest;
    assert s == a + DescriptionMarker + b + DescriptionMarker + c;
    assert Find(s, DescriptionMarker) == Some(|a|) by {
      FirstSeparatorAfter(a, DescriptionMarker, rest);
    }
    assert s[|a| + |DescriptionMarker|..] == rest;
    assert UpToMarker(rest) == b by {
      FirstSeparatorAfter(b, DescriptionMarker, c);
      assert rest[..|b|] == b;
    }
  }

  // ---------------------------------------------------------------------------
  // round trip with the label format of the training pairs

  /** A marker followed by padded text loses the marker, then the padding. */
  lemma StripAfterMarker(m: string, w1: string, t: string, w2: string)
    requires |m| > 0 && !Contains(t, m) && m[0] !in w1 && m[|m| - 1] !in w2
    requires AllIn(w1, Whitespace) && AllIn(w2, Whitespace)
    ensures Strip(ReplaceAll(m + (w1 + t + w2), m, "")) == Strip(t)
  {
    var x := w1 + t + w2;
    assert !Contains(x, m) by {
      NoMatchAcrossLeft(w1, t, m);
      NoMatchAcrossRight(w1 + t, w2, m);
    }
    assert ReplaceAll(m + x, m, "") == x by {
      ReplaceAllAtMatch(x, m, "");
    }
    StripCharsIgnoresPadding(w1, t, w2, Whitespace);
  }

  /** The title part of a label loses its role marker and padding. */
  lemma LabelTitle(t: string)
    requires !Contains(t, RoleMarker)
    ensures Strip(ReplaceAll("esco role: " + t + " \n ", RoleMarker, "")) == Strip(t)
  {
    assert "esco role: " + t + " \n " == RoleMarker + (" " + t + " \n ");
    StripAfterMarker(RoleMarker, " ", t, " \n ");
  }

  /** The description part of a label loses its padding. */
  lemma LabelDescription(d: string)
    requires !Contains(d, DescriptionMarker)
    ensures Strip(UpToMarker(" " + d)) == Strip(d)
  {
    NoMatchAcrossLeft(" ", d, DescriptionMarker);
    NotFoundMeansAbsent(" " + d, DescriptionMarker);
    StripCharsIgnoresPadding(" ", d, "", Whitespace);
    assert " " + d + "" == " " + d;
  }

  /** Decoding `"esco role: T \n description: D"` recovers `T` and `D` up to padding and case. */
  lemma LabelTextRoundTrip(t: string, d: string)
    requires !Contains(t, DescriptionMarker) && !Contains(t, RoleMarker) && !Contains(d, DescriptionMarker)
    ensures ExtractJobTitleAndDescription("esco role: " + t + " \n description: " + d)
      == JobLabel(Capitalize(Strip(t)), Strip(d))
  {
    var head := "esco role: " + t + " \n ";
    var tail := " " + d;
    NoMatchAcrossLeft("esco role: ", t, DescriptionMarker);
    NoMatchAcrossRight("esco role: " + t, " \n ", DescriptionMarker);
    DescriptionMarkerBorderless();
    FirstSeparatorAfter(head, DescriptionMarker, tail);
    var s := head + DescriptionMarker + tail;
    assert s == "esco role: " + t + " \n description: " + d;
    assert s[..|head|] == head;
    assert s[|head| + |DescriptionMarker|..] == tail;
    LabelTitle(t);
    LabelDescription(d);
  }

  /**
    Decoding a label built as the builders' `doc_2` gives back its title, stripped and
    capitalised, and its description, stripped, when neither holds a marker.
  */
  lemma LabelRoundTrip(title: TrainingPairs.Cell, description: TrainingPairs.Cell)
    requires var t := TrainingPairs.Format(title);
      !Contains(t, DescriptionMarker) && !Contains(t, RoleMarker)
    requires !Contains(TrainingPairs.Format(description), DescriptionMarker)
    ensures ExtractJobTitleAndDescription(TrainingPairs.EscoEntry(title, description))
      == JobLabel(Capitalize(Strip(TrainingPairs.Format(title))), Strip(TrainingPairs.Format(description)))
  {
    LabelTextRoundTrip(TrainingPairs.Format(title), TrainingPairs.Format(description));
  }

  lemma DescriptionMarkerBorderless()
    ensures Borderless(DescriptionMarker)
  {
    forall k | 0 < k < |DescriptionMarker|
      ensures DescriptionMarker[..k] != DescriptionMarker[|DescriptionMarker| - k..]
    {
      assert DescriptionMarker[..k][0] == 'd';
      assert DescriptionMarker[|DescriptionMarker| - k..][0] != 'd';
    }
  }
}
