/**
 * `get_missing_keywords` (test.py:63-67): the words of the job description
 * that the resume lacks, as a sorted list of distinct words.
 */
module KeywordGap {
  import opened Chars
  import opened Tokenizer
  import opened StringOrder

  /** `set(words)`. */
  function WordSet(words: seq<string>): set<string> {
    set w | w in words
  }

  /**
   * `sorted(list(set(job words) - set(resume words)))`: exactly the job
   * tokens that are not resume tokens, each once, in increasing order.
   */
  function MissingKeywords(jobDescription: string, resumeText: string): (r: seq<string>)
    ensures StrictlyIncreasing(r)
    ensures forall t :: t in r <==> t in Tokenize(jobDescription) && t !in Tokenize(resumeText)
  {
    var jobWords := WordSet(Tokenize(jobDescription));
    var resumeWords := WordSet(Tokenize(resumeText));
    SortedList(jobWords - resumeWords)
  }

  /** Every reported keyword is a non-empty run of word characters. */
  lemma MissingKeywordsAreWords(jobDescription: string, resumeText: string)
    ensures forall t :: t in MissingKeywords(jobDescription, resumeText) ==>
      t != [] && forall c :: c in t ==> IsWordChar(c)
  {
  }

  /**
   * The gap is empty exactly when the resume has every word of the job
   * description.
   */
  lemma MissingKeywordsEmptyIff(jobDescription: string, resumeText: string)
    ensures MissingKeywords(jobDescription, resumeText) == [] <==>
      forall t :: t in Tokenize(jobDescription) ==> t in Tokenize(resumeText)
  {
    var r := MissingKeywords(jobDescription, resumeText);
    if r != [] {
      assert r[0] in r;
    }
  }

  /** A text measured against itself has no missing keywords. */
  lemma MissingKeywordsSelf(text: string)
    ensures MissingKeywords(text, text) == []
  {
    MissingKeywordsEmptyIff(text, text);
  }

  /**
   * Any sorted, duplicate-free listing of the same words is the result:
   * the order in which Python enumerates the set does not show.
   */
  lemma MissingKeywordsCanonical(jobDescription: string, resumeText: string, listing: seq<string>)
    requires StrictlyIncreasing(listing)
    requires forall t :: t in listing <==> t in Tokenize(jobDescription) && t !in Tokenize(resumeText)
    ensures MissingKeywords(jobDescription, resumeText) == listing
  {
    SortedListingUnique(MissingKeywords(jobDescription, resumeText), listing);
  }
}
