# Flashcard extraction, modelled in Dafny

This project models the flashcard-extraction pipeline of `flashcard_generation.py`.

The pipeline works on the text of a document:
- It cuts the text into sections at blank lines (`preprocess_text`).
- It condenses each section with a summarization service, using length bounds computed from the word count. If the service fails, the section itself is used (`summarize_text`).
- It cleans the summary: it drops repeated and blank sentences and capitalises the first letter of each sentence (`clean_summary`).
- It picks key terms from a linguistic analysis of the condensed text (`extract_key_terms`).
- It builds one card per section (`extract_flashcards`):
  - **Term mode** applies when there is a key term. The prompt is the condensed text with the first key term blanked out, and the answer is that term.
  - **Fallback mode** applies otherwise. The answer is the first two sentences of the section. The prompt is a generated question about them, or `"What is …?"` when generation fails (`generate_question`).
- `refine_word_text` turns the paragraphs of a word-processor document into the text the pipeline reads.

The project has four files:
- `text.dfy` (module `Text`): the Python string operations the pipeline relies on. These are `split` with a separator, `join`, `strip`, `str.split()` word counting, `replace(old, new, 1)`, and `upper`, `isupper` and `istitle`.
- `ordered.dfy` (module `Ordered`): `list(dict.fromkeys(xs))`, which removes repeats and keeps each element where it first appears.
- `flashcard_generation.dfy` (module `FlashcardGeneration`): the pipeline itself.
  - `clean_summary` and `extract_flashcards` are methods with loops. Each is proved equal to a specification function (`CleanedSummary`, `CardFor`).
  - The other operations are functions.
  - The three language services are function-valued inputs, bundled in `Services`. The summarizer and the question generator answer `None` when they fail. The linguistic analysis is total, because the source calls it outside any `try`.
- `flashcard_properties.dfy` (module `FlashcardProperties`): lemmas about the pipeline. They cover segmentation, summary cleaning, key terms, both card modes, and scenarios worked through on concrete shapes of input.

## Behaviour worth knowing

The model follows the code in each of these cases, where a reader might expect otherwise:
- **Summary bounds.** Rounded products would be the natural reading of "nine tenths" and "seven tenths" of a length. The code truncates with `int()`.
  - `int(max_length * 0.7)` is a floating-point product. For a maximum of 90, 170 or 180 it gives one less than exact arithmetic. For example, 100 words give the bounds (90, 62), not (90, 63). See `SevenTenths`, `SummaryBoundsClamp` and `HundredWordBounds`.
  - The `max(30, …)` never takes effect, because the maximum is at least 50.
- **Cleaning is not idempotent.** One might expect cleaning twice to equal cleaning once, with no sentence repeated in the output. The code checks for repeats *before* capitalising.
  - `"a. A"` cleans to `"A. A"`, which still holds two equal sentences.
  - Cleaning that again gives `"A"` (`CleanSummaryNotIdempotent`).
  - What does hold: the kept fragments are distinct before capitalisation, they stay in order of first appearance, and, in the ASCII model, the output is never longer than the input.
- **The fallback answer loses the sentence separators.** For the section `"The number 42 is interesting. It is even."` one might expect that same text as the answer. The code joins the pieces of `section.split(". ")` with one space, so the `". "` between the two sentences becomes `" "`. The answer is `"The number 42 is interesting It is even."` (`TwoSentenceFallbackScenario`).
- **An empty summary is kept.** One might expect an empty summary to fall back to the section. It does not: only an exception falls back. An empty `summary_text` cleans to `""`, and that becomes the condensed text (`EmptySummaryKept`).
- **Empty terms.** Key terms are not guaranteed to be non-empty. The code does not filter out an entity with empty text, so the model does not claim that key terms are non-empty.

## Model

| member | source | states |
|---|---|---|
| Text.IsSpace | flashcard_generation.py:31 | definition: the characters Python's `str.isspace` accepts, which `strip()` and `split()` treat as whitespace |
| Text.StripStart | flashcard_generation.py:31 | definition: the text without its leading whitespace; `StripStartSpec` states it |
| Text.StripEnd | flashcard_generation.py:31 | definition: the text without its trailing whitespace; `StripEndSpec` states it |
| Text.Strip | flashcard_generation.py:31 | definition of `strip()`; its properties are `StripSpec` |
| Text.StripSpec | flashcard_generation.py:31 | `strip()` leaves no whitespace at either end, is empty exactly for an all-whitespace text, leaves a stripped text unchanged and never lengthens |
| Text.Split | flashcard_generation.py:31 | definition of `s.split(sep)` for a non-empty separator, matching from the left without overlap; its properties are `SplitJoin`, `SplitPiecesAbsent`, `JoinSplit` and `SplitHead` |
| Text.Join | flashcard_generation.py:100 | definition of `sep.join(parts)`; its properties are `SplitJoin`, `JoinSplit`, `JoinAllSpace` and `JoinLength` |
| Text.SplitJoin | flashcard_generation.py:31 | joining the pieces of `s.split(sep)` with `sep` gives back `s` |
| Text.SplitPiecesAbsent | flashcard_generation.py:35 | no piece of `s.split(sep)` contains `sep` |
| Text.JoinSplit | flashcard_generation.py:100 | splitting `sep.join(parts)` gives back `parts` when no part contains `sep` and no occurrence straddles a part's end |
| Text.JoinAllSpace | flashcard_generation.py:100 | a join with a whitespace separator is all whitespace exactly when every part is |
| Text.WordCount | flashcard_generation.py:51 | definition of `len(s.split())` as the number of maximal non-whitespace runs; its property is `WordCountZero` |
| Text.WordCountZero | flashcard_generation.py:51 | `len(text.split())` is 0 exactly when the text is all whitespace |
| Text.ReplaceFirst | flashcard_generation.py:89 | definition of `s.replace(pat, rep, 1)`, an empty `pat` matching at the front; its properties are `ReplaceFirstAt`, `ReplaceFirstAbsent` and `BlankRestores` |
| Text.ReplaceFirstAt | flashcard_generation.py:89 | `replace(term, rep, 1)` on a text containing `term` swaps exactly the leftmost occurrence of `term` for `rep` |
| Text.ReplaceFirstAbsent | flashcard_generation.py:89 | `replace(term, rep, 1)` leaves a text without `term` unchanged |
| Text.IsUpper | flashcard_generation.py:43 | definition of `c.isupper()` over ASCII letters; `Capitalize`, `IsTitle` and `CapitalizeKeepsAbsent` use it |
| Text.ToUpper | flashcard_generation.py:44 | `upper()` of a character is never lower-case, shifts a lower-case letter to its capital and leaves every other character alone |
| Text.Capitalize | flashcard_generation.py:43-44 | definition of the capitalisation step of `clean_summary`; its properties are `CapitalizeSpec` and `CapitalizeKeepsAbsent` |
| Text.CapitalizeSpec | flashcard_generation.py:43-44 | capitalising keeps the length, upper-cases the first character and keeps the rest |
| Text.CapitalizeKeepsAbsent | flashcard_generation.py:43-44 | capitalising creates no occurrence of a pattern that does not start with an upper-case letter |
| Ordered.Unique | flashcard_generation.py:75 | definition of `list(dict.fromkeys(xs))`, filled one element at a time from the front; its properties are `UniqueSpec`, `UniqueFirstAppearance` and `UniqueOfDistinct` |
| Ordered.UniqueSpec | flashcard_generation.py:75 | `list(dict.fromkeys(xs))` has no repeats, holds exactly the elements of `xs` and is no longer than `xs` |
| Ordered.UniqueFirstAppearance | flashcard_generation.py:75 | the kept elements come in the order of their first appearances in `xs` |
| Ordered.UniqueOfDistinct | flashcard_generation.py:75 | a list without repeats is unchanged |
| FlashcardGeneration.NonBlank | flashcard_generation.py:31 | definition of the comprehension `[p.strip() for p in ps if p.strip()]`; its properties are `NonBlankOrder`, `NonBlankEmpty` and `NonBlankMembers` |
| FlashcardGeneration.Sections | flashcard_generation.py:30-32 | definition of `preprocess_text`; its properties are `SectionsShape`, `SectionsInDocumentOrder` and `SectionsEmptyIffBlank` |
| FlashcardGeneration.WordDocumentText | flashcard_generation.py:98-100 | definition of `refine_word_text` over the paragraph texts; its property is `WordDocumentRoundTrip` |
| FlashcardGeneration.KeptSentences | flashcard_generation.py:35-45 | definition of the fragments `clean_summary` keeps, before capitalising; its properties are `KeptSentencesShape`, `KeptSentencesMembers`, `KeptSentencesOrder`, `KeptSentencesDiffering` and `KeptSentencesRepeated` |
| FlashcardGeneration.CapitalizeAll | flashcard_generation.py:43-45 | definition of the capitalisation applied to each kept sentence; `CapitalizeAllSnoc` ties it to the loop, and `CleanedSummarySentences` states what it does to each sentence |
| FlashcardGeneration.CleanedSummary | flashcard_generation.py:34-47 | definition of what `clean_summary` returns; the loop `CleanSummary` is proved to compute it, and its properties are `CleanedSummarySentences`, `CleanedSummaryNoLonger` and `CleanSummaryNotIdempotent` |
| FlashcardGeneration.KeptStep | flashcard_generation.py:39-45 | one more fragment is kept exactly when, stripped, it is non-empty and not seen before, and it goes at the end |
| FlashcardGeneration.CleanSummary | flashcard_generation.py:34-47 | the loop with its seen-set computes the cleaned summary: the kept fragments, capitalised, joined by `". "` |
| FlashcardGeneration.Max | flashcard_generation.py:52-53 | definition of the built-in `max` on two integers; `SummaryBoundsClamp` states the clamp it gives |
| FlashcardGeneration.Min | flashcard_generation.py:52 | definition of the built-in `min` on two integers; `SummaryBoundsClamp` states the clamp it gives |
| FlashcardGeneration.SummaryBounds | flashcard_generation.py:51-53 | definition of the summarizer's length bounds from the word count; its properties are `SummaryBoundsClamp` and `HundredWordBounds` |
| FlashcardGeneration.SevenTenths | flashcard_generation.py:53 | definition of `int(m * 0.7)` under binary floating point; `SummaryBoundsClamp` states where it differs from exact truncation |
| FlashcardGeneration.SummaryRequest | flashcard_generation.py:51-55 | definition of the request `summarize_text` sends: the section with its bounds; `SummarizeText` is stated in terms of it |
| FlashcardGeneration.Summarized | flashcard_generation.py:49-59 | definition of what `summarize_text` returns; `SummarizeText` is proved to compute it, and `OpeningEntityScenario` uses its failure case |
| FlashcardGeneration.SummaryBoundsClamp | flashcard_generation.py:51-53 | the maximum is 9/10 of the word count clamped to [50, 200]; the minimum lies in [35, maximum) and is 7/10 of the maximum truncated, one less for 90, 170 and 180 |
| FlashcardGeneration.HundredWordBounds | flashcard_generation.py:51-53 | a 100-word section is summarized with bounds (90, 62) |
| FlashcardGeneration.SummarizeText | flashcard_generation.py:49-59 | with the service's summary the result is that summary cleaned; when the service fails it is the text unchanged |
| FlashcardGeneration.QuestionRequest | flashcard_generation.py:63 | definition of the request `generate_question` sends: `"question: "` and the text, bounds 200 and 50 |
| FlashcardGeneration.GenerateQuestion | flashcard_generation.py:61-66 | definition of `generate_question`; its property is `GenerateQuestionFallback` |
| FlashcardGeneration.GenerateQuestionFallback | flashcard_generation.py:61-66 | the question is the service's answer, or when the service fails the text framed by `"What is "` and `"?"` |
| FlashcardGeneration.NamedEntityTerms | flashcard_generation.py:69 | definition of the entity comprehension; its properties are `NamedEntityTermsMembers` and `NamedEntityTermsEmpty` |
| FlashcardGeneration.NamedEntityTermsMembers | flashcard_generation.py:69 | an entity text is a candidate exactly when some entity with that text has a label outside CARDINAL, QUANTITY, DATE and TIME |
| FlashcardGeneration.NamedEntityTermsEmpty | flashcard_generation.py:69-71 | there is no entity candidate exactly when every entity has an excluded label |
| FlashcardGeneration.NounChunkTerms | flashcard_generation.py:72 | definition of the noun-chunk comprehension; its properties are `NounChunkTermsMembers` and `NounChunkTermsEmpty` |
| Text.IsTitle | flashcard_generation.py:72 | definition of `istitle()` over ASCII case: title casing and at least one cased character; `NounChunkTermsMembers` uses it |
| FlashcardGeneration.NounChunkTermsMembers | flashcard_generation.py:72 | a noun chunk is a candidate exactly when it has more than one word or is title-cased |
| FlashcardGeneration.NounChunkTermsEmpty | flashcard_generation.py:72 | there is no chunk candidate exactly when every chunk is one word or fewer and not title-cased |
| FlashcardGeneration.Candidates | flashcard_generation.py:69-73 | definition of the candidates before repeats are removed: entity texts, or noun chunks when there are none; `KeyTermsFromEntities` and `KeyTermsFromChunks` state both cases |
| FlashcardGeneration.KeyTerms | flashcard_generation.py:68-76 | definition of `extract_key_terms`; its properties are `KeyTermsOrder`, `KeyTermsFromEntities`, `KeyTermsFromChunks` and `KeyTermsEmpty` |
| FlashcardGeneration.FallbackContext | flashcard_generation.py:92 | definition of `" ".join(section.split(". ")[:2])`; its properties are `FallbackContextOneSentence`, `FallbackContextTwoSentences` and `FallbackContextDropsRest` |
| FlashcardGeneration.CardFor | flashcard_generation.py:83-94 | definition of the card made of one section; `MakeCard` and `ExtractFlashcards` are proved to build it, and its two modes are stated by `TermModeCard` and `FallbackModeCard` |
| FlashcardGeneration.MakeCard | flashcard_generation.py:83-94 | one pass of the loop builds the card `CardFor` describes |
| FlashcardGeneration.ExtractFlashcards | flashcard_generation.py:78-96 | exactly one card per section, card `k` built from section `k` |
| FlashcardProperties.NonBlankOrder | flashcard_generation.py:31 | the filtered comprehension keeps the stripped non-blank parts at increasing positions and drops only blank parts |
| FlashcardProperties.NonBlankEmpty | flashcard_generation.py:31 | the comprehension keeps nothing exactly when every part is blank |
| FlashcardProperties.NonBlankMembers | flashcard_generation.py:31 | a text is kept exactly when it is a non-empty stripped part |
| FlashcardProperties.SectionsShape | flashcard_generation.py:30-32 | every section is non-empty, stripped and free of blank-line breaks |
| FlashcardProperties.SectionsInDocumentOrder | flashcard_generation.py:30-32 | the text is its paragraphs joined by blank lines; the sections are the non-blank paragraphs, stripped, in document order |
| FlashcardProperties.SectionsEmptyIffBlank | flashcard_generation.py:30-32 | a text yields no sections exactly when it is all whitespace |
| FlashcardProperties.WordDocumentRoundTrip | flashcard_generation.py:98-100 | segmenting the text of a word-processor document gives back its stripped non-blank paragraphs, when none holds a blank line |
| FlashcardProperties.KeptSentencesShape | flashcard_generation.py:39-45 | the kept fragments are distinct, non-empty, stripped and free of `". "` |
| FlashcardProperties.KeptSentencesMembers | flashcard_generation.py:35-41 | a text is kept exactly when it is a non-blank stripped fragment of the summary |
| FlashcardProperties.KeptSentencesOrder | flashcard_generation.py:39-45 | the kept fragments are in the order of their first appearance |
| FlashcardProperties.CleanedSummarySentences | flashcard_generation.py:34-47 | splitting the cleaned summary by `". "` gives the kept fragments in order, only their first characters upper-cased; nothing kept gives `""` |
| FlashcardProperties.CleanedSummaryNoLonger | flashcard_generation.py:34-47 | in the ASCII model, the cleaned summary is never longer than the summary |
| FlashcardProperties.EmptySummaryKept | flashcard_generation.py:55-57 | an empty summary from the service is a success: the condensed text is `""`, not the section |
| FlashcardProperties.KeptSentencesDiffering | flashcard_generation.py:41 | from `"a. A"` both fragments are kept, since they differ before capitalising |
| FlashcardProperties.KeptSentencesRepeated | flashcard_generation.py:41 | from `"A. A"` one fragment is kept |
| FlashcardProperties.CleanSummaryNotIdempotent | flashcard_generation.py:39-47 | `"a. A"` cleans to `"A. A"`, and cleaning that again gives `"A"` |
| FlashcardProperties.KeyTermsOrder | flashcard_generation.py:75 | the key terms are distinct, are exactly the candidates, and are ranked by first appearance |
| FlashcardProperties.KeyTermsFromEntities | flashcard_generation.py:69-75 | with a qualifying entity, the key terms are exactly the texts of the entities with non-excluded labels, repeats removed |
| FlashcardProperties.KeyTermsFromChunks | flashcard_generation.py:71-75 | with no qualifying entity, the key terms are exactly the qualifying noun chunks, repeats removed |
| FlashcardProperties.KeyTermsEmpty | flashcard_generation.py:68-76 | there are no key terms exactly when no entity and no noun chunk qualifies |
| FlashcardProperties.TermModeCard | flashcard_generation.py:87-90 | in term mode the answer is the first key term, and the prompt is the condensed text with that term's leftmost occurrence blanked, or the text unchanged when the term does not occur |
| FlashcardProperties.BlankRestores | flashcard_generation.py:89 | putting the term back in place of the blank undoes the replacement, for a text without `'_'` |
| FlashcardProperties.FillBlankRestores | flashcard_generation.py:87-90 | filling a term-mode card's blank with its answer gives back the condensed text, when that has no `'_'` |
| FlashcardProperties.FallbackModeCard | flashcard_generation.py:91-94 | in fallback mode the answer is the first two sentences of the original section, and the prompt is the generated question or `"What is {context}?"` |
| FlashcardProperties.FallbackContextOneSentence | flashcard_generation.py:92 | a section without `". "` is its own fallback context |
| FlashcardProperties.FallbackContextTwoSentences | flashcard_generation.py:92 | two sentences are joined by one space, the `". "` dropped |
| FlashcardProperties.FallbackContextDropsRest | flashcard_generation.py:92 | everything after the second `". "` is left out of the context |
| FlashcardProperties.TwoSentenceFallbackScenario | flashcard_generation.py:91-94 | a two-sentence section with only a cardinal entity and no noun chunks gets a fallback card whose answer is both sentences joined by a space |
| FlashcardProperties.OpeningEntityScenario | flashcard_generation.py:82-90 | a section opening with its one non-excluded entity, with a failing summarizer, gets a card whose answer is the entity and whose prompt is the section with the entity blanked |

## Left out

- `Services.analyze` is total. The source calls `nlp` (flashcard_generation.py:84) outside any `try`, so an exception there ends `extract_flashcards` without a deck; that run is not modelled. `ExtractFlashcards` describes the runs in which every analysis returns.
- Loading the language models and handling missing libraries (flashcard_generation.py:9-28). These only end the program.
- The summarizer, the question generator and the linguistic analysis (`nlp`) are not modelled. They are inputs to the model.
  - A summarizer or question-generator call that raises is the answer `None` (flashcard_generation.py:50-59, 62-66). This includes a response whose indexing raises inside the same `try`, such as an empty list or a missing key. An empty summary text is not a failure.
  - With sampling off, each service is treated as a function of its request.
- `int(input_length * 0.9)` is modelled with exact arithmetic. It agrees with the floating-point product for every word count up to two million. For larger counts both values exceed 200, and the clamp makes them equal.
- Case mapping (`upper`, `isupper`, `istitle`) covers ASCII letters only. Other characters count as uncased.
- CleanedSummaryNoLonger: holds for the ASCII mapping only. Python's `upper()` can turn one character into several (`'ß'` becomes `'SS'`), so the real `clean_summary` can lengthen a text.
- Whitespace is the set Python's `str.isspace` recognises, taken as plain characters. There is no Unicode normalisation.
- `refine_pdf_text` (flashcard_generation.py:102-107) is not part of this model. It relies on a regular expression with look-behind assertions.
- Reading files and extracting PDF text (flashcard_generation.py:109-125) are I/O. They are not part of this model.
- The Tk user interface (flashcard_generation.py:127-214) is not part of this model.
