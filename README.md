# Russian name declension, modelled in Dafny

This project models the declension engine of the `RussianInflections`
library. The engine is `InflectStringUTF16(in, sexType, grammaticalCase)`.
It takes a person's full name ("Иван Петров", "Анна-Мария Сидорова") and
returns the name in one grammatical case, or in all six cases on six lines.

The model covers these parts of the source:

- **Rule lines.** The `Rule` constructor parses one line of a rule file.
- **Sex recognition.** When the caller gives no sex, the engine looks each
  hyphen part of each word up in the male and female first-name lists. If
  that finds nothing, it tries the female-only surname endings. If that
  also finds nothing, the sex is male.
- **Declension.** Each word is split on hyphens and its parts are
  lower-cased. A word is classified as a first name when every part is in
  the name list. The engine finds the first rule, in list order, whose
  ending the part ends with. It cuts that ending off, appends the case
  ending and title-cases the result. The six accumulators `Ans[0..5]`
  (only `Ans[0]` for a single case) are then assembled into the answer.
- **The request reader of the test driver.** It recognises the sex marker
  (`м`/`ж`) and the case marker (`и р д в т п`). It splits each line of a
  request file into tokens and rebuilds the phrase, sex and case it passes
  to the engine.

Module layout:

| file | module | contents |
|---|---|---|
| `types.dfy` | `Types` | `sex`, `grammatical_case`, `maxWords`, `Option`, `Result` |
| `casing.dfy` | `Casing` | `toLower`, and `toTitle` with the word-start rule |
| `splitting.dfy` | `Splitting` | `RegexMatcher::split` for `\s+` and `-`, and the ten-slot word array |
| `rules.dfy` | `Rules` | `Rule` parsing, `endsWith`, `lastIndexOf`, `truncate`, first-match rule lookup |
| `sex_resolution.dfy` | `SexResolution` | the two sex-recognition passes, as loops and as a specification |
| `declension.dfy` | `Declension` | the word loop over the `Ans` array, with a specification function for each loop |
| `declension_properties.dfy` | `DeclensionProperties` | what each line of the answer is: word forms, title case, spacing |
| `requests.dfy` | `Requests` | `WhatSexIsIt`, `WhatGrammaticalCaseIsIt`, and the request line loop of `UTF8` |

The engine keeps its rule lists and name lists in global state, filled from
files by `Service::Init`. Here they are an explicit parameter, `Config`.
Each imperative loop of the source is a Dafny method with a `while` or
`for` loop. The method's `ensures` ties its result, or the new contents of
the `Ans` array, to a specification function. Lemmas about those
specification functions state what the engine promises.

## Model

| member | source | states |
|---|---|---|
| Rules.ParsedRule | inflections.cpp:50-70 | A rule line is accepted exactly when it splits into eight fields. Field 0 is the match ending. Field 1 is ignored. Fields 2..7 are the six case endings, nominative first. The rule's sex is the one the caller gives. |
| Rules.ParseRule | inflections.cpp:50-70 | The constructor's split, field-count check and six map assignments give exactly `ParsedRule`. A wrong field count is the `InvalidRuleFormat` error. |
| Rules.RuleLineRoundTrip | inflections.cpp:50-70 | Writing a six-ending rule as a line and parsing it back gives the same rule, whatever the sex field says. |
| Rules.SplitRuleLine | inflections.cpp:53-60 | The fields of a rule line are the match ending, the sex field and the six endings. |
| Rules.CaseEnding | inflections.cpp:232-241 | For a rule with the six case endings, `caseEndings[c]` is the ending stored for case `c`. For "all", a key the map lacks, it is the empty text `operator[]` inserts. |
| Rules.EndsWithSuffix | inflections.cpp:222 | `endsWith(e)` holds exactly when the token is some text followed by `e`. |
| Rules.LastIndexOf | inflections.cpp:226 | `lastIndexOf` gives the start of the last occurrence, or -1 when there is none. The empty text gives -1. |
| Rules.Truncate | inflections.cpp:226 | `truncate(n)` keeps the first `n` characters for a shorter `n`. It changes nothing for a negative or longer `n`. |
| Rules.TruncateAtEnding | inflections.cpp:222-226 | Truncating a token at the last occurrence of an ending it ends with removes exactly that ending. An empty ending removes nothing. |
| Rules.FirstMatch | inflections.cpp:220-245 | The index found is of a rule whose ending the token ends with, and no earlier rule matches. No index is found exactly when no rule matches. |
| Rules.FindRule | inflections.cpp:220-245 | The rule scan that breaks at the first match returns `FirstMatch`. |
| Rules.EarlierRuleWins | inflections.cpp:220-224 | Lookup is first match, not longest match: an earlier matching rule shadows every later one. |
| Rules.CatchAllMatches | inflections.cpp:220-222 | A rule with an empty ending matches every token. |
| Rules.ShortEndingListedFirstWins | inflections.cpp:220-245 | With "а" listed before "ова", "петрова" takes the "а" rule. |
| Casing.Lower | inflections.cpp:149 | Lower-casing keeps letters letters and non-letters unchanged. A letter becomes lower-case, and a small letter is left as it is. |
| Casing.Upper | inflections.cpp:232-237 | Upper-casing keeps letters letters and non-letters unchanged. A letter becomes upper-case, a capital is left as it is, and a small letter's capital lower-cases back to that small letter. |
| Casing.CasePartners | inflections.cpp:149 | A capital is the upper case of its own lower case, and a small letter the lower case of its own upper case, so the two mappings pair capitals and small letters one to one. |
| Casing.UpperLowerStable | inflections.cpp:149 | Each character mapping is idempotent. |
| Casing.ToLower | inflections.cpp:149 | `toLower` keeps the length and maps each character through `Lower`. |
| Casing.ToTitle | inflections.cpp:249 | `toTitle` keeps the length. |
| Casing.TitleIdempotent | inflections.cpp:232-237 | Title-casing twice is title-casing once. |
| Casing.TitleFromAppend | inflections.cpp:232-237 | Title-casing a concatenation is title-casing the pieces. The second piece starts a word when the first ends at a word boundary. |
| Casing.TitleAppend | inflections.cpp:232-237 | After a word boundary, `toTitle(a + b)` is `toTitle(a) + toTitle(b)`. |
| Casing.TitleAppendNonLetters | inflections.cpp:259-267 | Appending hyphens or spaces does not change how the rest is title-cased. |
| Casing.RetitleAfterOpen | inflections.cpp:232-241 | Re-title-casing a whole accumulator that is title-cased and ends at a word boundary changes only the appended text. |
| Casing.TitledAppendNonLetters | inflections.cpp:201-210 | A title-cased accumulator stays title-cased when a space or hyphen is appended. |
| Splitting.FirstDelimiter | inflections.cpp:139 | The first delimiter position: no delimiter before it, and a delimiter at it unless it is the end. |
| Splitting.DelimiterEnd | inflections.cpp:139 | A `\s+` match is a maximal run of white space. A `-` match is one character. |
| Splitting.Split | inflections.cpp:139 | `split` returns at most `capacity` fields, and none exactly for the empty input. No field but the last holds a delimiter, and the last holds none either unless it took the unsplit remainder at full capacity. |
| Splitting.Fields | inflections.cpp:146 | A non-empty text gives between one and `capacity` fields. No field but the last holds a delimiter, and the last holds none unless the capacity was reached. |
| Splitting.Slots | inflections.cpp:137-139 | The ten-slot `words` array holds the fields, then empty strings. |
| Splitting.SplitWords | inflections.cpp:139 | The space split gives at most `maxWords` fields. No field holds white space, except the last when all ten slots are used. |
| Splitting.SplitHyphens | inflections.cpp:146 | The hyphen split gives at most `maxWords` parts. No part holds a hyphen, except the last when all ten slots are used. |
| Splitting.HyphenSplitRoundTrip | inflections.cpp:146 | Joining the hyphen parts with "-" gives the word back, even when the capacity is reached. |
| Splitting.FieldsJoinHyphen | inflections.cpp:192 | The same round trip, for the fields of a non-empty word. |
| Splitting.SplitWordsOfJoin | inflections.cpp:139 | Tokens without white space, joined by single spaces, split back into the same tokens. |
| Splitting.SplitCons | inflections.cpp:139 | A token followed by a space and more text splits into that token, then the split of the rest. |
| Splitting.SplitNoDelimiter | inflections.cpp:146 | A non-empty text without a delimiter is one field. |
| Splitting.SingleHyphenPiece | inflections.cpp:192 | A word that splits into one hyphen part is that part. |
| Splitting.FieldsNonEmpty | inflections.cpp:139 | A text that neither starts nor ends with white space has no empty field. |
| Splitting.FirstFieldNonEmpty | inflections.cpp:139 | A text that does not start with white space has a non-empty first field. |
| Splitting.JoinAsTerminated | inflectionsTest.cpp:67-68 | Joining parts is terminating all but the last with the separator, then appending the last. |
| Splitting.JoinWithSnoc | inflections.cpp:284-288 | Joining one more part adds the separator and that part. |
| SexResolution.LowerAllAt | inflections.cpp:149 | Entry `j` of the lower-cased parts is part `j` lower-cased. |
| SexResolution.LowerPartsAt | inflections.cpp:146-149 | Part `j` of a word, as the passes see it, is hyphen part `j` lower-cased. |
| SexResolution.ResolvedSex | inflections.cpp:141-181 | The resolved sex is never unknown, and a given sex is kept. |
| SexResolution.NameListInWord | inflections.cpp:145-160 | The inner loop stops at the first part in the male list (male) or the female list (female). Otherwise the result is unknown. |
| SexResolution.NameListPass | inflections.cpp:143-161 | The outer loop over the filled words gives the name-list sex of all their parts, in order. |
| SexResolution.FemaleEndingInWord | inflections.cpp:164-177 | The result is female exactly when some part of the word ends with a female-only surname ending. |
| SexResolution.FemaleEndingPass | inflections.cpp:162-178 | The result is female exactly when some part of a filled word ends with a female-only surname ending. |
| SexResolution.ResolveSex | inflections.cpp:141-181 | The recognition code computes `ResolvedSex` over the filled words, and the result is never unknown. |
| SexResolution.ResolvedSexPolicy | inflections.cpp:141-181 | A given sex is kept. Otherwise the first listed part decides, with the male list asked first. Failing that, a female-only ending gives female. Failing that, the sex is male. |
| SexResolution.NameListSexOfFirstListed | inflections.cpp:147-159 | The first part found in either list decides the name-list sex. |
| SexResolution.NameListSexUnknown | inflections.cpp:143-161 | The name lists decide nothing exactly when no part is in either list. |
| SexResolution.NameListSexAppend | inflections.cpp:143-161 | Over two runs of parts, the first run decides if it can, else the second. |
| SexResolution.AllPartsAppend | inflections.cpp:143-146 | The parts of two runs of words are the parts of the first run, then those of the second. |
| SexResolution.HasFemaleOnlyEndingAppend | inflections.cpp:162-178 | A female-only ending occurs in two runs of parts exactly when it occurs in one of them. |
| Declension.AppendEach | inflections.cpp:205-206 | Every accumulator gets `x` appended, and the count is kept. |
| Declension.AppendEndingTitled | inflections.cpp:232-241 | Accumulator `k` gets the ending of its own case, then is title-cased as a whole. |
| Declension.LinesUpToStep | inflections.cpp:189 | One more word slot is one more word step. |
| Declension.AppendToEach | inflections.cpp:230-231 | The `Ans[k].append` loop appends to the written accumulators only. |
| Declension.AppendEndingAndTitle | inflections.cpp:232-237 | The six `append(...).toTitle` statements, or the single one at line 241, give `AppendEndingTitled`. Other accumulators are untouched. |
| Declension.LowerAndClassify | inflections.cpp:191-199 | The parts are the lower-cased hyphen parts. The word is a first name exactly when every part is in the name list. |
| Declension.DeclinedStep | inflections.cpp:220-257 | Declining one part keeps the number of accumulators. |
| Declension.PieceStep | inflections.cpp:214-280 | One part of a word keeps the number of accumulators. |
| Declension.WordStep | inflections.cpp:189-282 | One word slot keeps the number of accumulators. |
| Declension.PiecesUpTo | inflections.cpp:214-281 | The parts of a word keep the number of accumulators. |
| Declension.LinesUpTo | inflections.cpp:187-282 | The word slots keep the number of accumulators: six in "all" mode, else one. |
| Declension.CaseLines | inflections.cpp:187-282 | The engine as written leaves six accumulators in "all" mode, else one. |
| Declension.FilledCaseLines | inflections.cpp:187-282 | The bounded word loop leaves six accumulators in "all" mode, else one. |
| Declension.DeclinePart | inflections.cpp:214-280 | One pass of the part loop is `PieceStep`. A declined part takes its first matching rule, or is title-cased when no rule matches. A hyphen follows every part but the last. A non-last part of a first name is only title-cased. |
| Declension.DeclinePartAt | inflections.cpp:214-281 | Part `j` takes the accumulators of the first `j` parts to those of the first `j + 1`. |
| Declension.DeclineWord | inflections.cpp:189-282 | One word slot is `WordStep`: a space when `Ans[0]` is non-empty, then each part. |
| Declension.NewAnswers | inflections.cpp:187 | The six accumulators start empty. |
| Declension.DeclineSlot | inflections.cpp:189-282 | Word slot `i` takes the accumulators of the first `i` slots to those of the first `i + 1`. |
| Declension.DeclineSlots | inflections.cpp:187-282 | The word loop leaves the accumulators of all the slots it visits. |
| Declension.AssembleAnswer | inflections.cpp:284-291 | In "all" mode the answer is the six lines joined by line breaks. Otherwise it is `Ans[0]`. |
| Declension.InflectStringUtf16 | inflections.cpp:130-293 | The engine as written, over all ten slots of `words`, returns `Inflect`. |
| Declension.InflectPhrase | inflections.cpp:130-293 | The engine with its word loop bounded by `wordsNum` returns `InflectFilled`. |
| DeclensionProperties.Forms | inflections.cpp:214-281 | Every part of a surname is declined. Only the last part of a first name is. |
| DeclensionProperties.MatchedStepForm | inflections.cpp:222-237 | Truncating at the matched ending, appending the case ending and title-casing the whole line adds exactly the title-cased stem plus ending. The line stays title-cased. |
| DeclensionProperties.DeclinedStepForm | inflections.cpp:220-257 | A declined part adds exactly its declined form to each line, and the line stays title-cased. |
| DeclensionProperties.PieceStepForm | inflections.cpp:214-280 | One part adds exactly its form, and a hyphen unless it is the last part. |
| DeclensionProperties.PiecesUpToForm | inflections.cpp:214-281 | After all parts, a line has gained the part forms joined by hyphens, and is title-cased. |
| DeclensionProperties.WordStepForm | inflections.cpp:189-282 | A word slot adds a space when `Ans[0]` is non-empty, then the word's form, and keeps the line title-cased. |
| DeclensionProperties.WordFormsAt | inflections.cpp:189-282 | Entry `i` of the word forms is the form of word `i`. |
| DeclensionProperties.TraceLines | inflections.cpp:189-210 | Along the word loop, line `k` is its forms, each after a space once line 0 is non-empty, and stays title-cased. |
| DeclensionProperties.LinesUpToLine | inflections.cpp:189-282 | After `i` slots, line `k` is the spaced join of the word forms of its case, and is title-cased. |
| DeclensionProperties.WordsAligned | inflections.cpp:189-257 | Under rules that never strip a part to nothing, an empty word has empty forms in every case, and a non-empty word a non-empty form on line 0. |
| DeclensionProperties.LeadFormOfFields | inflections.cpp:139-257 | For an input that starts with a word, the first field has a non-empty form on line 0. |
| DeclensionProperties.PhraseWithEmptyWord | inflections.cpp:201-210 | An empty last word adds only its separating space to a phrase. |
| DeclensionProperties.WordFormNonEmpty | inflections.cpp:214-257 | Under rules that never strip a part to nothing, a non-empty word has a non-empty form. |
| DeclensionProperties.SpacedJoinFilled | inflections.cpp:201-210 | When the first form of line 0 is non-empty, a line is its forms joined by single spaces. An empty form leaves its space behind. |
| DeclensionProperties.SpacedJoinTrailing | inflections.cpp:201-210 | Each empty form after the filled ones leaves one space behind. |
| DeclensionProperties.LinesOfSlots | inflections.cpp:189-282 | Over the ten slots, each line is the phrase of its case followed by one space per empty slot. |
| DeclensionProperties.LinesOfFields | inflections.cpp:189-282 | Over the filled slots only, each line is the word forms of its case joined by single spaces. |
| DeclensionProperties.TrailingSpacesAsWritten | inflections.cpp:189-210 | As written, every line of the answer ends with one space per word slot the input leaves empty. |
| DeclensionProperties.FilledLinesArePhrases | inflections.cpp:139-292 | With the loop bounded by `wordsNum`, every line is the word forms of its case joined by single spaces. |
| Requests.SexMarker | inflectionsTest.cpp:13-22 | `WhatSexIsIt` is male exactly for "м" or "М", and female exactly for "ж" or "Ж". |
| Requests.SexMarkerRoundTrip | inflectionsTest.cpp:13-22 | The marker written for a sex reads back as that sex, and is not a case marker. |
| Requests.CaseMarker | inflectionsTest.cpp:24-40 | `WhatGrammaticalCaseIsIt` gives a case exactly for that case's letter, in lower or upper case. |
| Requests.CaseMarkerRoundTrip | inflectionsTest.cpp:24-40 | A case letter reads back as its case in either letter case, and is not a sex marker. |
| Requests.RequestOf | inflectionsTest.cpp:64-76 | The sex comes from the second-to-last token when that is a sex marker, else from the last token. The case is read from the last token. The phrase starts with every token but the last two, each followed by a space. When the last token is a sex marker, the second-to-last is added. When only the second-to-last is one, nothing is added, so the last token is dropped even if it is not a case letter. When no sex is found, both are added, so a case letter stays in the phrase. The phrase is empty or ends with a space. |
| Requests.LineKindOf | inflectionsTest.cpp:57-65 | A line is skipped exactly when it is empty or starts with '#'. It cannot be read exactly when it has fewer than two tokens. |
| Requests.ParseRequest | inflectionsTest.cpp:57-76 | The line loop body up to the engine call computes `LineKindOf`, rebuilding the phrase token by token. |
| Requests.RequestLineTokens | inflectionsTest.cpp:62 | A request line written from plain tokens and markers splits back into those tokens and markers. |
| Requests.RequestOfMarked | inflectionsTest.cpp:64-76 | Tokens, a sex marker and one more token read back as the terminated tokens, that sex and the case of the last token. The last token never reaches the phrase, whether or not it is a case letter. |
| Requests.RequestOfCaseOnly | inflectionsTest.cpp:64-76 | Tokens and a case letter, with no sex marker, read back with the sex unknown and that case, and the case letter kept as the last word of the phrase. |
| Requests.RequestOfSexOnly | inflectionsTest.cpp:70-74 | Tokens and a sex marker read back as the tokens, that sex and all cases. |
| Requests.RequestOfBare | inflectionsTest.cpp:75-76 | Tokens alone keep both last tokens in the phrase, with an unknown sex and all cases. |
| Requests.RequestRoundTrip | inflectionsTest.cpp:57-76 | For the three line shapes, writing a request and reading it back gives the tokens, each followed by a space, the sex and the case. |
| Requests.FullLine | inflectionsTest.cpp:57-76 | A line "tokens, sex marker, case letter" reads back as the terminated tokens, that sex and that case. |
| Requests.FullTokens | inflectionsTest.cpp:64-76 | The tokens of such a line give that request. |
| Requests.SexOnlyLine | inflectionsTest.cpp:57-76 | A line "tokens, sex marker" reads back as the terminated tokens, that sex and all cases. |
| Requests.BareLine | inflectionsTest.cpp:57-76 | A line of tokens alone reads back as the terminated tokens, an unknown sex and all cases. |
| Requests.CaseOnlyRoundTrip | inflectionsTest.cpp:57-76 | A line "tokens, case letter" reads back with the sex unknown, that case, and the case letter still in the phrase after the tokens. |
| Requests.LineQuery | inflectionsTest.cpp:57-65 | A line written from plain tokens, with at least two tokens in all, is the request of its tokens. |
| Requests.QueryLine | inflectionsTest.cpp:57-65 | A non-skipped line with at least two tokens is a request. |
| Requests.Respond | inflectionsTest.cpp:57-80 | A line is skipped exactly when it is empty or a comment. An answer ends with two line breaks. |
| Requests.RespondToLine | inflectionsTest.cpp:57-80 | One pass of the line loop calls the engine as written and returns `Respond`. |
| Requests.TrailingSpaceField | inflectionsTest.cpp:67-76 | A phrase ending in a space splits into its tokens plus one empty field. |
| Requests.PhraseFields | inflectionsTest.cpp:67-76 | The phrase the reader passes to the engine splits, inside the engine, into its tokens and one trailing empty field. |
| Requests.PhraseAnswerLines | inflectionsTest.cpp:67-79 | For the phrase the reader builds from plain tokens, each line of the engine's answer is the forms of those tokens joined by single spaces, then one space per word slot they leave empty. |

## Left out

- `Service::Init` (inflections.cpp:78-128) is left out: file reading, BOM skipping, comment lines in rule and name files, and logging. The rule and name lists are the `Config` parameter. The name sets are taken to hold lower-cased names.
- `InflectStringUTF8` (inflections.cpp:295-300) and the UTF-8 conversions of the test driver are left out. Strings are sequences of characters, and no encoding is modelled.
- The test driver's file streams, BOM skipping, `getline` and `endl` output are left out. `Requests.Respond` returns the text one line produces.
- A request line with fewer than two tokens makes the driver read `words[-1]`, which is undefined behaviour. It is modelled as the `Unreadable` outcome.
- `InflateInvalidRuleException` is the `Err(InvalidRuleFormat)` result. `InflateInvalidRequestException` is never thrown by the source.
- `Service::GetAppropriateRule` is declared in inflections.h and never defined, so it is not part of this model.
- ICU `toLower` and `toTitle` are modelled only for Basic Latin and Cyrillic (U+0400..U+045F). Other characters are not letters here and are left unchanged. The `ru_RU` locale has no special mappings in these ranges.
- Casing.ToTitle: ICU's default word-break iterator is approximated. A word starts at position 0 or after a character that is not a letter. This differs from UAX #29 around digits and apostrophes.
- The ICU `UErrorCode` status is never checked by the source and is not modelled.
- DeclensionProperties.LinesOfSlots: proved only for inputs that do not start with white space (`StartsWithWord`), which includes every phrase the request reader builds. It also needs rule lists whose rules never strip a part to nothing (`NoVanishingForms`). Otherwise an empty form can make the leading space of a line differ between lines.
- DeclensionProperties.LinesOfFields: holds under the same two hypotheses as `LinesOfSlots`.
- DeclensionProperties.TrailingSpacesAsWritten: holds under the same two hypotheses as `LinesOfSlots`.
- DeclensionProperties.FilledLinesArePhrases: holds under the same two hypotheses as `LinesOfSlots`.
- Casing.ToTitle: its own contract states only the length. Its properties are the `Title*` lemmas.
- Splitting.Split: its own contract states the field count and that the fields hold no delimiter. That the fields and their delimiters make up the input is stated by the round trips `HyphenSplitRoundTrip`, `SplitWordsOfJoin` and `SplitCons`.
- Casing.Lower: that a capital is the upper case of its own lower case is stated by `Casing.CasePartners`, not by `Lower` itself, because `Lower` and `Upper` cannot each name the other in their contracts.
- Declension.DeclinedStep: its own contract states only the number of accumulators. What each accumulator gains is stated by `DeclensionProperties.DeclinedStepForm`.
- Declension.PieceStep: its own contract states only the number of accumulators. What each accumulator gains is stated by `DeclensionProperties.PieceStepForm`.
- Declension.WordStep: its own contract states only the number of accumulators. What each accumulator gains is stated by `DeclensionProperties.WordStepForm`.
- Declension.PiecesUpTo: its own contract states only the number of accumulators. What each accumulator gains is stated by `DeclensionProperties.PiecesUpToForm`.
- Declension.LinesUpTo: its own contract states only the number of accumulators. What each line holds is stated by `DeclensionProperties.LinesUpToLine`.
- Declension.CaseLines: its own contract states only the number of lines. What each line holds is stated by `DeclensionProperties.TrailingSpacesAsWritten`.
- Declension.FilledCaseLines: its own contract states only the number of lines. What each line holds is stated by `DeclensionProperties.FilledLinesArePhrases`.
- The sex and case marker literals in inflectionsTest.cpp:15-37 are narrow-string literals in the Windows-1251 code page, which `UnicodeString` converts with the default code page. The model takes that code page to be Windows-1251, so they are the Cyrillic letters м, ж, и, р, д, в, т and п. With any other default code page no token would match a marker.

## Findings

| source | as written | input that shows it | evidently intended | confidence | as-written member | corrected member |
|---|---|---|---|---|---|---|
| inflections.cpp:189-210 | The word loop `for (auto word : words)` visits all ten slots of `words`, including those the split left empty. Each empty slot after a non-empty `Ans[0]` appends a space to every line. | `Иван Петров` with all cases: each of the six lines ends with eight spaces. | Loop over the `wordsNum` filled slots, so each line is the word forms joined by single spaces. | not executed | DeclensionProperties.TrailingSpacesAsWritten | DeclensionProperties.FilledLinesArePhrases |

`Declension.InflectStringUtf16` models the engine as written, and the test driver (`Requests.RespondToLine`) calls it, as the source does.
`Declension.InflectPhrase` is the corrected engine.
