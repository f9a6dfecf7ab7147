# Resume scanner: a verified model of its local text logic

The resume scanner is a small web page. A user pastes a job description
and uploads one resume (PDF or DOCX). The page sends both to a language
model and reads a match percentage out of the model's reply. Then it shows
a good-match or poor-match verdict. When the model answers with the
sentinel `N/A`, the page also lists the job-description words that the
resume lacks.

This project models the parts of `test.py` that are plain string logic and
proves what they guarantee:

- **Tokenizer** (`tokenize_text`). It deletes every character that is
  neither a word character nor white space, then splits on runs of white
  space. The proofs cover:
  - the shape of each token;
  - that order is kept: the tokens, concatenated, are exactly the input's
    word characters;
  - a round trip: joining tokens with spaces and tokenizing gives them back.
- **Keyword gap** (`get_missing_keywords`). It returns the sorted set
  difference of job tokens minus resume tokens. Python's string order
  (`StringOrder.Less`) is proved to be a strict total order. The proofs
  cover:
  - the result is strictly increasing;
  - it holds exactly the job tokens that are not resume tokens;
  - it is the only such listing, so the order in which Python enumerates a
    set cannot show;
  - it is empty exactly when the resume covers the job description, and
    always empty for `x` against `x`.
- **Response parser**. This is the inline `split` chain at line 122, plus
  the sentinel test and `rstrip('%')` at lines 125 and 143. The contract of
  `str.split(sep)` has three parts: joining the pieces with the separator
  gives the input back, no piece holds the separator, and each separator is
  the first occurrence after the piece before it. `SplitOnUnique` proves
  that only one list of pieces meets all three, so the split is Python's
  leftmost, non-overlapping one. The extraction is proved
  to be "the text after the first `"Job Description Match":"` up to the next
  `"`, or to the end". It gives `None` exactly when the marker is absent,
  which is where Python raises `IndexError`. A reply laid out as the prompt
  asks gives back its value.
- **Number reading**. This is `float(...)` restricted to decimal literals,
  with an exact `real` value. Any amount of white space may surround the
  literal, except the information separators U+001C to U+001F. `str.isspace()`
  counts those as white space, but `float` does not strip them, so a text
  holding one never reads. The literal is an optional sign, whole digits and an optional
  point with fraction digits. The proofs cover both directions: every such
  literal reads as its exact value, and nothing else reads at all.
- **Orchestration** (lines 99-104 and 122-159). `Evaluation.Evaluate` maps
  a submission and the model's reply to one outcome: `NoAction`,
  `TooManyFiles`, `MissingJobDescription`, `ResponseFormatError`,
  `PercentageParseError`, `PoorMatchWithKeywords`, `GoodMatch` or
  `PoorMatch`. The proofs cover:
  - the file count is checked before the job description;
  - the validation outcomes depend on neither the contents of the uploaded
    files nor the reply, so nothing is extracted and no model is asked;
  - the threshold `>= 70` is inclusive;
  - `N/A%` is not the sentinel and ends in the parse error.

The model's reply is a parameter of `Evaluate`: it stands for whatever the
external service returns for the prompt. An upload is its declared MIME
type together with the text its extractor would yield. `ResumeText`
follows lines 96 and 110-113: a type other than PDF or DOCX leaves the
resume text empty.

Two behaviours of `test.py` are easy to misread, and the model follows the
code in both:

- Zero uploaded files is not a validation error. `if uploaded_files and
  submit_button` (test.py:99) simply does nothing, so the outcome is
  `NoAction`.
- `rstrip('%')` (test.py:143) removes every trailing `%`, not just one.

## Model

| member | source | states |
|---|---|---|
| `Chars.LowerChar` | test.py:87 | an ASCII capital becomes the lower-case letter at the same place in the alphabet, every other character is unchanged, and the result is no capital and keeps its white-space and word-character class |
| `Chars.Lower` | test.py:87 | lower-casing keeps the length and lowers each character in place, each capital to its own lower-case letter |
| `Chars.Strip` | test.py:103 | `str.strip()` yields the slice of the input that starts after the leading white space; what it cuts off on both sides is blank, and a non-empty result starts and ends with a non-space |
| `Chars.StripPadded` | test.py:103 | blank padding around a text with non-space ends is exactly what `strip()` removes, so the result is unique |
| `Chars.StripPadding` | test.py:103 | every text is its stripped form with blank padding on either side |
| `Chars.StripEmptyIffBlank` | test.py:103 | `s.strip()` is empty exactly when every character of `s` is white space |
| `Chars.LowerKeepsBlank` | test.py:87 | lower-casing makes a text blank exactly when it was blank already |
| `Tokenizer.RemovePunctuation` | test.py:58 | every character of the result is a word or white-space character of the input, and every such character of the input appears in it |
| `Tokenizer.RemovePunctuationAppend` | test.py:58 | the substitution works character by character: on two texts joined together it gives the two results joined |
| `Tokenizer.RemovePunctuationChar` | test.py:58 | one character is kept exactly when it is a word or white-space character, and is otherwise deleted |
| `Tokenizer.Split` | test.py:59 | every piece of `str.split()` is non-empty, free of white space, and made of characters of the input |
| `Tokenizer.SplitBlank` | test.py:59 | a text of white space alone has no pieces |
| `Tokenizer.SplitWord` | test.py:59 | a non-empty text without white space is one piece |
| `Tokenizer.SplitGap` | test.py:59 | any non-empty run of white space, whatever characters it holds, separates the pieces before it from those after it |
| `Tokenizer.SplitConcat` | test.py:59 | concatenating the pieces gives the input with its white space removed, in order |
| `Tokenizer.Tokenize` | test.py:57-60 | every token is non-empty and consists only of word characters |
| `Tokenizer.TokenizeConcat` | test.py:58-59 | the tokens, concatenated, are the input's word characters in their original order: nothing else kept, nothing reordered |
| `Tokenizer.SplitJoin` | test.py:59 | splitting undoes joining with single spaces, for non-empty words without white space |
| `Tokenizer.TokenizeJoin` | test.py:57-60 | tokenizing undoes joining with single spaces, for non-empty tokens of word characters |
| `Tokenizer.TokenizeIdempotent` | test.py:57-60 | re-tokenizing the space-joined tokens gives the same tokens |
| `StringOrder.LessIrreflexive` | test.py:67 | no string sorts before itself |
| `StringOrder.LessTransitive` | test.py:67 | Python's string order is transitive |
| `StringOrder.LessTotal` | test.py:67 | any two different strings are ordered one way or the other |
| `StringOrder.SortedList` | test.py:67 | `sorted(list(s))` is strictly increasing, holds exactly the elements of `s`, and has `\|s\|` entries |
| `StringOrder.SortedListingUnique` | test.py:66-67 | two strictly increasing listings of the same elements are equal |
| `KeywordGap.MissingKeywords` | test.py:63-67 | the result is strictly increasing (sorted, no duplicates) and holds exactly the job tokens that are not resume tokens |
| `KeywordGap.MissingKeywordsAreWords` | test.py:63-67 | every missing keyword is a non-empty run of word characters |
| `KeywordGap.MissingKeywordsEmptyIff` | test.py:63-67 | the gap is empty exactly when every job token is a resume token |
| `KeywordGap.MissingKeywordsSelf` | test.py:63-67 | a text measured against itself has no missing keywords |
| `KeywordGap.MissingKeywordsCanonical` | test.py:66-67 | any sorted, duplicate-free listing of the difference is the result, whatever order the set is enumerated in |
| `ResponseParser.Find` | test.py:122 | the search returns the first index where the pattern occurs, or nothing when it occurs nowhere |
| `ResponseParser.SplitOn` | test.py:122 | `str.split(sep)` yields at least one piece, joining the pieces with `sep` gives the input back, no piece holds `sep`, and each separator is the first occurrence of `sep` after its piece |
| `ResponseParser.SplitOnUnique` | test.py:122 | only one list of pieces has those properties, so they fix the leftmost split even for a separator that overlaps itself |
| `ResponseParser.ExtractField` | test.py:122 | no value exactly when the marker is absent (the `IndexError`); otherwise the text after the first marker up to the next `"`, or to the end |
| `ResponseParser.ExtractFieldOfFormattedReply` | test.py:122 | a reply laid out as the prompt asks gives back the value written after the marker |
| `ResponseParser.RStripPercent` | test.py:143 | the result is a prefix of the value, everything cut off is `%`, and the result does not end in `%` |
| `ResponseParser.RStripPercentUnique` | test.py:143 | only one prefix meets those three conditions |
| `ResponseParser.ParseMatchField` | test.py:122-143 | missing marker, sentinel only for the exact value `N/A`, otherwise the value together with its `%`-stripped text |
| `ResponseParser.SentinelWithPercentIsNumeric` | test.py:125 | the value `N/A%` is not the sentinel and is handed on as `N/A` |
| `Number.DigitsRoundTrip` | test.py:143 | reading back the decimal digits written for `n` gives `n` |
| `Number.ParseUnsigned` | test.py:143 | an unsigned decimal literal reads as a non-negative value and is never empty |
| `Number.UnsignedOfLiteral` | test.py:143 | digits with an optional point and fraction digits read as the whole part plus the fraction |
| `Number.UnsignedOnlyLiterals` | test.py:143 | whatever reads as unsigned is digits with an optional point and fraction digits, with at least one digit |
| `Number.ParseNumber` | test.py:143 | a literal that reads is non-blank, and a negative value comes only from a leading `-` |
| `Number.ParseNumberOfLiteral` | test.py:143 | a literal with an optional sign, digits and an optional point with fraction digits, padded by any white space `float` strips (not U+001C to U+001F), reads as its exact signed value |
| `Number.ParseNumberOnlyLiterals` | test.py:143 | whatever reads is such a padded literal, and its value is that literal's value |
| `Number.ParseNumberOfDigitString` | test.py:143 | a string of decimal digits reads as the number it denotes |
| `Number.ParseNumberOfDigits` | test.py:143 | a natural number written in digits reads as exactly that number |
| `Number.WordStartIsNotANumber` | test.py:143 | a literal whose first non-space character is a letter or `_`, other than the `i`, `I`, `n` or `N` that begin `inf` and `nan`, fails to read |
| `Number.InfoSeparatorIsNotANumber` | test.py:143 | a text holding any of U+001C to U+001F fails to read, as `float('\x1c82')` raises |
| `Number.NotApplicableIsNotANumber` | test.py:143 | `float('N/A')` fails |
| `Evaluation.ResumeText` | test.py:96-113 | a PDF or DOCX upload gives its extracted text; any other type leaves the resume text empty |
| `Evaluation.OtherTypeMissesEveryWord` | test.py:96-113 | with a file of another type, exactly the job-description words are reported missing |
| `Evaluation.BlankAfterLowering` | test.py:103 | the lower-cased description strips to empty exactly when the typed description is blank |
| `Evaluation.Verdict` | test.py:122-159 | a missing marker gives the format error; only the sentinel gives the poor match with the keyword gap of the lowered job text and the resume; the parse error comes exactly when the `%`-stripped value does not read as a number; a value that reads gives a good match exactly when it is at least 70, and a poor match otherwise |
| `Evaluation.Evaluate` | test.py:99-104 | no files or no Submit means no action; more than one file gives the one-file error even for a blank description; one file with a blank description gives its own error; otherwise the verdict on the reply |
| `Evaluation.ValidationConsultsNothingElse` | test.py:99-104 | a validation outcome stays the same whatever the uploaded files hold and whatever the model replies |
| `Evaluation.FormattedPercentField` | test.py:122-143 | the value `<n>%` in a reply laid out as the prompt asks is read as the digits of `n` |
| `Evaluation.FormattedPercentVerdict` | test.py:122-159 | for such a reply the page shows a good match exactly when `n >= 70`, with the value `n` |
| `Evaluation.SentinelReplyListsKeywords` | test.py:125-129 | an `N/A` reply is a poor match listed with the missing keywords of the lowered job description against the resume text |
| `Evaluation.EightyTwoPercentIsGoodMatch` | test.py:156-157 | a reply reporting 82% is a good match with the value 82 |
| `Evaluation.SeventyPercentIsGoodMatch` | test.py:156 | exactly 70% is a good match: the threshold is inclusive |
| `Evaluation.SentinelWithPercentFails` | test.py:143 | a reply whose value is `N/A%` ends in the percentage parse error |

## Left out

- Rendering with Streamlit is not modelled: the title, text area, uploader, button, messages, sub-headers, improvement tips, the raw-reply block and the comma-joined keyword list (test.py:32, 84-93, 102-164). The outcome datatype names what would be shown.
- Reading `style.css` (test.py:29-32) is file I/O.
- The Gemini client is an external network service: its configuration, generation parameters, safety settings and credential loading (test.py:9-27, 35-42). Its reply is the `reply` parameter of `Evaluate`.
- PDF and DOCX text extraction (test.py:45-54) wraps PyPDF2 and docx2txt, whose behaviour is not visible here. An upload carries the text its extractor would yield, assumed already lower-cased.
- The prompt template and its formatting (test.py:70-81, 116) are plain interpolation into a fixed string.
- The progress bar `st.progress(match_percentage / 100)` (test.py:153) is Streamlit and floating point. It would also reject values outside 0 to 1, for example a reply of `150%`.
- Python's Unicode `\w` is approximated by ASCII letters, digits and `_`. A non-ASCII letter is therefore deleted as punctuation by the model, while Python keeps it.
- `Chars.Lower`: lower-cases ASCII capitals only, where `str.lower()` also lowers other Unicode letters.
- `Number.ParseNumber`: accepts only an optional sign, digits and one optional decimal point, all surrounded by optional white space. Python's `float` also accepts exponents, `inf`, `nan`, underscores between digits and non-ASCII digits, which the model reports as a parse error.
- `Number.ParseNumberOnlyLiterals`: holds of the model's grammar. Python's `float` reads more spellings, listed in the line above.
- `Number.ParseNumber`: the value is exact, while Python's `float` rounds to binary double precision. A value such as `69.99999999999999999` rounds to 70.0 in Python and is a good match there, but a poor match here.
- `Evaluation.Evaluate`: an exception raised by the extractors or by the model client is not modelled; the reply is taken as given. Each run of the page is evaluated on its own, as the page keeps no state between runs.
