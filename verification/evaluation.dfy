/**
 * The request flow of the page (test.py:87-159) without its rendering:
 * validate the submission, read the match out of the model's reply and
 * pick the feedback to show.
 */
module Evaluation {
  import opened Wrappers
  import opened Chars
  import opened KeywordGap
  import opened ResponseParser
  import opened Number
  import opened Tokenizer

  const PdfType: string := "application/pdf"
  const DocxType: string := "application/vnd.openxmlformats-officedocument.wordprocessingml.document"
  const GoodMatchThreshold: real := 70.0

  /** An uploaded resume: its declared type and the lower-cased text its extractor yields. */
  datatype Upload = Upload(mimeType: string, extractedText: string)

  /** One run of the page: the uploads, whether Submit was pressed, and the job description as typed. */
  datatype Submission = Submission(uploads: seq<Upload>, submitPressed: bool, jobDescription: string)

  /** What the page shows for one run. */
  datatype Outcome =
    | NoAction                                     // nothing uploaded or Submit not pressed
    | TooManyFiles                                 // "Please upload only one file at a time."
    | MissingJobDescription                        // "Please provide the Job Description"
    | ResponseFormatError                          // the reply lacks the marker (IndexError)
    | PercentageParseError                         // the value is not a number (ValueError)
    | PoorMatchWithKeywords(keywords: seq<string>) // sentinel: poor match plus the local keyword gap
    | GoodMatch(shown: string, percent: real)      // at least 70
    | PoorMatch(shown: string, percent: real)      // below 70
  {
    /** One of the outcomes decided before any text is extracted or the model is asked. */
    predicate IsValidationResult() {
      NoAction? || TooManyFiles? || MissingJobDescription?
    }
  }

  /** A submission that gets past the checks of test.py:99-104. */
  predicate PassesValidation(submission: Submission) {
    && submission.submitPressed
    && |submission.uploads| == 1
    && !IsBlank(submission.jobDescription)
  }

  /** The resume text of test.py:96 and 110-113: empty unless the type is PDF or DOCX. */
  function ResumeText(upload: Upload): (text: string)
    ensures upload.mimeType == PdfType || upload.mimeType == DocxType ==> text == upload.extractedText
    ensures upload.mimeType != PdfType && upload.mimeType != DocxType ==> text == []
  {
    if upload.mimeType == PdfType || upload.mimeType == DocxType then upload.extractedText else ""
  }

  /**
   * A file of any other type yields no resume text, so every word of the
   * job description is reported missing.
   */
  lemma OtherTypeMissesEveryWord(job: string, upload: Upload)
    requires upload.mimeType != PdfType && upload.mimeType != DocxType
    ensures forall t :: t in MissingKeywords(job, ResumeText(upload)) <==> t in Tokenize(job)
  {
    assert Tokenize(ResumeText(upload)) == [];
  }

  /** `job_description.lower().strip()` is empty exactly when the typed text is blank. */
  lemma BlankAfterLowering(jobDescription: string)
    ensures Strip(Lower(jobDescription)) == [] <==> IsBlank(jobDescription)
  {
    StripEmptyIffBlank(Lower(jobDescription));
    LowerKeepsBlank(jobDescription);
  }

  /**
   * The feedback for a submission that passed validation (test.py:122-159):
   * the sentinel lists the keyword gap, a number of 70 or more is a good
   * match, a smaller one a poor match; a missing marker or a value that is
   * not a number ends the run with an error.
   */
  function Verdict(job: string, resumeText: string, reply: string): (o: Outcome)
    ensures !o.IsValidationResult()
    ensures o == ResponseFormatError <==> ExtractField(reply).None?
    ensures o.PoorMatchWithKeywords? <==> ExtractField(reply) == Some(SentinelText)
    ensures o.PoorMatchWithKeywords? ==> o.keywords == MissingKeywords(job, resumeText)
    ensures o.GoodMatch? || o.PoorMatch? ==>
      && ParseMatchField(reply) == Numeric(o.shown, RStripPercent(o.shown))
      && ParseNumber(RStripPercent(o.shown)) == Some(o.percent)
    ensures o == PercentageParseError <==>
      ParseMatchField(reply).Numeric? && ParseNumber(ParseMatchField(reply).number).None?
    ensures ParseMatchField(reply).Numeric? && ParseNumber(ParseMatchField(reply).number).Some? ==>
      (o.GoodMatch? <==> ParseNumber(ParseMatchField(reply).number).value >= GoodMatchThreshold)
    ensures o.GoodMatch? ==> o.percent >= GoodMatchThreshold
    ensures o.PoorMatch? ==> o.percent < GoodMatchThreshold
  {
    match ParseMatchField(reply)
    case MissingMarker => ResponseFormatError
    case Sentinel => PoorMatchWithKeywords(MissingKeywords(job, resumeText))
    case Numeric(shown, number) =>
      match ParseNumber(number)
      case None => PercentageParseError
      case Some(percent) =>
        if percent >= GoodMatchThreshold then GoodMatch(shown, percent) else PoorMatch(shown, percent)
  }

  /**
   * One run of the page, given the reply the model gives to the prompt built
   * from this submission (test.py:99-159). The file count is checked before
   * the job description, and only a submission that passes both reaches the
   * reply.
   */
  function Evaluate(submission: Submission, reply: string): (o: Outcome)
    ensures o == NoAction <==> |submission.uploads| == 0 || !submission.submitPressed
    ensures o == TooManyFiles <==> submission.submitPressed && |submission.uploads| > 1
    ensures o == MissingJobDescription <==>
      submission.submitPressed && |submission.uploads| == 1 && IsBlank(submission.jobDescription)
    ensures !o.IsValidationResult() <==> PassesValidation(submission)
    ensures PassesValidation(submission) ==>
      o == Verdict(Lower(submission.jobDescription), ResumeText(submission.uploads[0]), reply)
  {
    BlankAfterLowering(submission.jobDescription);
    var job := Lower(submission.jobDescription);
    if |submission.uploads| == 0 || !submission.submitPressed then NoAction
    else if |submission.uploads| > 1 then TooManyFiles
    else if Strip(job) == [] then MissingJobDescription
    else Verdict(job, ResumeText(submission.uploads[0]), reply)
  }

  /**
   * The validation outcomes depend only on the file count, the Submit button
   * and the job description: neither the uploaded files nor the model's
   * reply are looked at.
   */
  lemma ValidationConsultsNothingElse(submission: Submission, reply: string, other: Submission, otherReply: string)
    requires Evaluate(submission, reply).IsValidationResult()
    requires |other.uploads| == |submission.uploads|
    requires other.submitPressed == submission.submitPressed
    requires other.jobDescription == submission.jobDescription
    ensures Evaluate(other, otherReply) == Evaluate(submission, reply)
  {
  }

  /** The value `<n>%` in a reply laid out as the prompt asks is read as the digits of `n`. */
  lemma FormattedPercentField(prefix: string, n: nat, suffix: string)
    requires FirstOccurrence(prefix + Marker, Marker, |prefix|)
    ensures var shown := NatToDigits(n) + "%";
      ParseMatchField(prefix + Marker + shown + Quote + suffix) == Numeric(shown, NatToDigits(n))
  {
    var digits := NatToDigits(n);
    var shown := digits + "%";
    assert '"' !in shown by {
      forall k | 0 <= k < |digits| ensures shown[k] != '"' {
        assert IsDigit(digits[k]);
      }
    }
    ExtractFieldOfFormattedReply(prefix, shown, suffix);
    assert shown != SentinelText by {
      assert IsDigit(shown[0]);
    }
    RStripPercentUnique(shown, digits);
  }

  /**
   * A reply laid out as the prompt asks, with a whole percentage `n` followed
   * by `%`, is shown as a good match exactly when `n >= 70`.
   */
  lemma FormattedPercentVerdict(submission: Submission, prefix: string, n: nat, suffix: string)
    requires PassesValidation(submission)
    requires FirstOccurrence(prefix + Marker, Marker, |prefix|)
    ensures var shown := NatToDigits(n) + "%";
      Evaluate(submission, prefix + Marker + shown + Quote + suffix) ==
        if n >= 70 then GoodMatch(shown, n as real) else PoorMatch(shown, n as real)
  {
    FormattedPercentField(prefix, n, suffix);
    ParseNumberOfDigits(n);
  }

  /**
   * A reply whose value is the sentinel `N/A` is a poor match listed with
   * the job-description words the resume lacks.
   */
  lemma SentinelReplyListsKeywords(submission: Submission, prefix: string, suffix: string)
    requires PassesValidation(submission)
    requires FirstOccurrence(prefix + Marker, Marker, |prefix|)
    ensures Evaluate(submission, prefix + Marker + SentinelText + Quote + suffix) ==
      PoorMatchWithKeywords(MissingKeywords(Lower(submission.jobDescription), ResumeText(submission.uploads[0])))
  {
    ExtractFieldOfFormattedReply(prefix, SentinelText, suffix);
  }

  lemma EightyTwoDigits()
    ensures NatToDigits(82) == "82"
  {
    assert NatToDigits(8) == "8";
  }

  /** A reply that reports 82% selects the good-match branch with the value 82. */
  lemma EightyTwoPercentIsGoodMatch(submission: Submission, prefix: string, suffix: string)
    requires PassesValidation(submission)
    requires FirstOccurrence(prefix + Marker, Marker, |prefix|)
    ensures Evaluate(submission, prefix + Marker + "82%" + Quote + suffix) == GoodMatch("82%", 82.0)
  {
    EightyTwoDigits();
    var shown := NatToDigits(82) + "%";
    assert shown == "82%";
    FormattedPercentVerdict(submission, prefix, 82, suffix);
    assert Evaluate(submission, prefix + Marker + shown + Quote + suffix) == GoodMatch(shown, 82 as real);
  }

  /** Exactly 70% is already a good match: the threshold is inclusive. */
  lemma SeventyPercentIsGoodMatch(submission: Submission, prefix: string, suffix: string)
    requires PassesValidation(submission)
    requires FirstOccurrence(prefix + Marker, Marker, |prefix|)
    ensures Evaluate(submission, prefix + Marker + "70%" + Quote + suffix) == GoodMatch("70%", 70.0)
  {
    assert NatToDigits(70) == "70" by {
      assert NatToDigits(7) == "7";
    }
    var shown := NatToDigits(70) + "%";
    assert shown == "70%";
    FormattedPercentVerdict(submission, prefix, 70, suffix);
    assert Evaluate(submission, prefix + Marker + shown + Quote + suffix) == GoodMatch(shown, 70 as real);
  }

  /**
   * `N/A%` is not the sentinel: it loses its `%` and then fails to read as a
   * number, which ends the run with the parse error.
   */
  lemma SentinelWithPercentFails(submission: Submission, reply: string)
    requires PassesValidation(submission)
    requires ExtractField(reply) == Some("N/A%")
    ensures Evaluate(submission, reply) == PercentageParseError
  {
    SentinelWithPercentIsNumeric(reply);
    NotApplicableIsNotANumber("N/A");
  }
}
