/**
 * The request handler's use of the core: extract the resume text, then
 * score it against the job's keywords. Looking the job up, storing the
 * submission and answering the request are not part of this model.
 */
module Pipeline {
  import opened Extraction
  import Screening

  /** What the handler stores for a submission: the normalised text and the scorer's result. */
  datatype Submission = Submission(resumeText: string, score: nat, keywordsMatched: seq<string>)

  /**
   * Lines 26-27 of the upload handler: an extraction failure stops the
   * submission with the extractor's error; otherwise the normalised text is
   * scored against the job's keyword list.
   */
  method ScreenUpload(buffer: seq<byte>, mimetype: string, keywords: Screening.KeywordsArg,
                      pdfParse: Parser, extractRawText: Parser)
    returns (r: Result<Submission>)
    ensures var text := ExtractText(buffer, mimetype, pdfParse, extractRawText);
      && (text.Err? ==> r == Err(text.message) && FailurePrefix <= r.message)
      && (text.Ok? ==>
            && r.Ok?
            && r.value.resumeText == text.value
            && IsNormalized(r.value.resumeText)
            && Screening.ScreeningResult(r.value.score, r.value.keywordsMatched) == Screening.Expected(text.value, keywords)
            && r.value.score <= Screening.Full)
  {
    var extracted := ExtractText(buffer, mimetype, pdfParse, extractRawText);
    if extracted.Err? {
      return Err(extracted.message);
    }
    var resumeText := extracted.value;
    var result := Screening.Screen(resumeText, keywords);
    if keywords.Array? && keywords.entries != [] {
      Screening.ExpectedScore(resumeText, keywords.entries);
    }
    r := Ok(Submission(resumeText, result.score, result.keywordsMatched));
  }
}
