/**
 * The text-to-flashcard pipeline of `flashcard_generation.py`: paragraph
 * segmentation, summary cleaning, the summarizer's length bounds and failure
 * policy, the question fallback, key-term selection, and the per-section
 * orchestration that yields one (prompt, answer) card per section.
 *
 * The three language services (summarizer, question generator, linguistic
 * analysis) are not modelled; they are inputs, bundled in `Services`.
 */
module FlashcardGeneration {
  import opened Text
  import opened Ordered

  datatype Option<T> = None | Some(value: T)

  /** A call to a text-to-text generation service: the input and the output length bounds. */
  datatype Request = Request(input: string, maxLength: nat, minLength: nat)

  /** A named-entity span as the linguistic analysis reports it: its text and its label (`ent.label_`). */
  datatype Entity = Entity(text: string, category: string)

  /** What the linguistic analysis reports for a text: entity spans and noun-phrase spans, in order. */
  datatype Analysis = Analysis(ents: seq<Entity>, nounChunks: seq<string>)

  /**
   * The external services. The summarizer and the question generator answer
   * `None` when they fail (raise inside their `try`); sampling is always
   * disabled, so each is a function of its request. The linguistic analysis
   * is not guarded by a `try` in the source, and is modelled as total.
   */
  datatype Services = Services(
    summarize: Request -> Option<string>,
    analyze: string -> Analysis,
    generate: Request -> Option<string>)

  datatype Flashcard = Flashcard(prompt: string, answer: string)

  const ParagraphBreak: string := "\n\n"
  const SentenceBreak: string := ". "
  const Blank: string := "______"
  const ExcludedLabels: seq<string> := ["CARDINAL", "QUANTITY", "DATE", "TIME"]

  // ---------------------------------------------------------------- segmentation

  /** `[p.strip() for p in ps if p.strip()]`: the stripped parts that are not blank, in order. */
  function NonBlank(ps: seq<string>): seq<string> {
    if ps == [] then []
    else (if Strip(ps[0]) == [] then [] else [Strip(ps[0])]) + NonBlank(ps[1..])
  }

  /** `preprocess_text`: the document's blank-line-separated paragraphs, stripped, blank ones dropped. */
  function Sections(text: string): seq<string> {
    NonBlank(Split(text, ParagraphBreak))
  }

  /** `refine_word_text`: the stripped non-blank paragraphs joined by blank lines. */
  function WordDocumentText(paragraphs: seq<string>): string {
    Join(NonBlank(paragraphs), ParagraphBreak)
  }

  // ---------------------------------------------------------------- summary cleaning

  /**
   * The stripped fragments `clean_summary` keeps, before capitalisation: the
   * non-blank pieces between `". "` separators, repeats dropped, first one kept.
   */
  function KeptSentences(summary: string): seq<string> {
    Unique(NonBlank(Split(summary, SentenceBreak)))
  }

  function CapitalizeAll(xs: seq<string>): seq<string> {
    seq(|xs|, k requires 0 <= k < |xs| => Capitalize(xs[k]))
  }

  lemma {:induction false} CapitalizeAllSnoc(xs: seq<string>, x: string)
    ensures CapitalizeAll(xs + [x]) == CapitalizeAll(xs) + [Capitalize(x)]
  {
    var l, r := CapitalizeAll(xs + [x]), CapitalizeAll(xs) + [Capitalize(x)];
    assert |l| == |r|;
    forall k | 0 <= k < |l| ensures l[k] == r[k] {
      if k < |xs| { assert (xs + [x])[k] == xs[k]; }
    }
  }

  /** What `clean_summary` returns: the kept fragments, capitalised, joined by `". "`. */
  function CleanedSummary(summary: string): string {
    Join(CapitalizeAll(KeptSentences(summary)), SentenceBreak)
  }

  lemma {:induction false} NonBlankAppend(a: seq<string>, b: seq<string>)
    ensures NonBlank(a + b) == NonBlank(a) + NonBlank(b)
  {
    if a != [] {
      assert (a + b)[1..] == a[1..] + b;
      NonBlankAppend(a[1..], b);
    } else {
      assert a + b == b;
    }
  }

  /** One more fragment: it is kept exactly when it is non-blank once stripped and not seen before. */
  lemma {:induction false} KeptStep(fragments: seq<string>, i: nat)
    requires i < |fragments|
    ensures var kept := Unique(NonBlank(fragments[..i])); var s := Strip(fragments[i]);
      Unique(NonBlank(fragments[..i + 1])) == if s != [] && s !in kept then kept + [s] else kept
  {
    var before := NonBlank(fragments[..i]);
    assert fragments[..i + 1] == fragments[..i] + [fragments[i]];
    NonBlankAppend(fragments[..i], [fragments[i]]);
    var s := Strip(fragments[i]);
    if s != [] {
      assert NonBlank(fragments[..i + 1]) == before + [s];
      assert (before + [s])[..|before|] == before;
    } else {
      assert NonBlank(fragments[..i + 1]) == before;
    }
  }

  /** `clean_summary`: one pass over the fragments with a list of kept ones and a set of seen ones. */
  method CleanSummary(summary: string) returns (cleaned: string)
    ensures cleaned == CleanedSummary(summary)
  {
    var sentences := Split(summary, SentenceBreak);
    var uniqueSentences: seq<string> := [];
    var seenSentences: set<string> := {};
    ghost var kept: seq<string> := [];
    for i := 0 to |sentences|
      invariant kept == Unique(NonBlank(sentences[..i]))
      invariant uniqueSentences == CapitalizeAll(kept)
      invariant forall x :: x in seenSentences <==> x in kept
    {
      KeptStep(sentences, i);
      var sentence := Strip(sentences[i]);
      if sentence != [] && sentence !in seenSentences {
        seenSentences := seenSentences + {sentence};
        CapitalizeAllSnoc(kept, sentence);
        kept := kept + [sentence];
        if !IsUpper(sentence[0]) {
          sentence := [ToUpper(sentence[0])] + sentence[1..];
        }
        uniqueSentences := uniqueSentences + [sentence];
      }
    }
    assert sentences[..|sentences|] == sentences;
    cleaned := Join(uniqueSentences, SentenceBreak);
  }

  // ---------------------------------------------------------------- summarizing

  datatype Bounds = Bounds(maxLength: nat, minLength: nat)

  /**
   * The summarizer's length bounds for a section of `words` words:
   * `max(50, min(200, int(words * 0.9)))` and `max(30, int(max_length * 0.7))`.
   * The first product truncates like exact arithmetic; the second is
   * `SevenTenths`.
   */
  function SummaryBounds(words: nat): Bounds {
    var maxLength := Max(50, Min(200, words * 9 / 10));
    var minLength := Max(30, SevenTenths(maxLength));
    Bounds(maxLength, minLength)
  }

  /**
   * `int(m * 0.7)` in binary floating point, for `m` in [50, 200]: 0.7 is
   * stored slightly below seven tenths, so for 90, 170 and 180 (and no other
   * value in that range) the product falls just short of a whole number and
   * truncates one lower than exact arithmetic would.
   */
  function SevenTenths(m: nat): nat {
    if m == 90 || m == 170 || m == 180 then m * 7 / 10 - 1 else m * 7 / 10
  }

  /**
   * The bounds are clamped: the maximum lies in [50, 200] and is nine tenths
   * of the word count (truncated) when that lies in range. The minimum is
   * never raised to 30 (seven tenths of 50 is already 35), stays below the
   * maximum, and is seven tenths of it truncated, except that it is one less
   * for a maximum of 90, 170 or 180.
   */
  lemma {:induction false} SummaryBoundsClamp(words: nat)
    ensures var b := SummaryBounds(words);
      50 <= b.maxLength <= 200 && 35 <= b.minLength < b.maxLength
    ensures var b := SummaryBounds(words); var scaled := words * 9 / 10;
      (scaled < 50 ==> b.maxLength == 50) &&
      (50 <= scaled <= 200 ==> b.maxLength == scaled) &&
      (200 < scaled ==> b.maxLength == 200)
    ensures var b := SummaryBounds(words); var exact := b.maxLength * 7 / 10;
      exact - 1 <= b.minLength <= exact &&
      (b.minLength == exact <==> b.maxLength != 90 && b.maxLength != 170 && b.maxLength != 180)
  {
  }

  /** A section of 100 words: a maximum of 90 and, through the floating-point product, a minimum of 62. */
  lemma {:induction false} HundredWordBounds()
    ensures SummaryBounds(100) == Bounds(90, 62)
  {
  }

  function Max(a: int, b: int): int { if a < b then b else a }
  function Min(a: int, b: int): int { if a < b then a else b }

  /** The request `summarize_text` sends: the section and the bounds from its word count. */
  function SummaryRequest(text: string): Request {
    var b := SummaryBounds(WordCount(text));
    Request(text, b.maxLength, b.minLength)
  }

  /** What `summarize_text` returns: the cleaned service output, or the text itself when the service fails. */
  function Summarized(text: string, summarize: Request -> Option<string>): string {
    match summarize(SummaryRequest(text))
    case None => text
    case Some(summary) => CleanedSummary(summary)
  }

  /** `summarize_text`. */
  method SummarizeText(text: string, summarize: Request -> Option<string>) returns (summary: string)
    ensures summarize(SummaryRequest(text)) == None ==> summary == text
    ensures summarize(SummaryRequest(text)).Some? ==>
      summary == CleanedSummary(summarize(SummaryRequest(text)).value)
    ensures summary == Summarized(text, summarize)
  {
    var bounds := SummaryBounds(WordCount(text));
    var response := summarize(Request(text, bounds.maxLength, bounds.minLength));
    match response {
      case None =>
        summary := text;
      case Some(output) =>
        summary := CleanSummary(output);
    }
  }

  // ---------------------------------------------------------------- question fallback

  /** The request `generate_question` sends. */
  function QuestionRequest(text: string): Request {
    Request("question: " + text, 200, 50)
  }

  /** `generate_question`: the service's question, or the template `"What is {text}?"` when it fails. */
  function GenerateQuestion(text: string, generate: Request -> Option<string>): string {
    match generate(QuestionRequest(text))
    case Some(question) => question
    case None => "What is " + text + "?"
  }

  /**
   * The question is the service's answer when it has one; otherwise it is the
   * text framed by `"What is "` and `'?'`.
   */
  lemma {:induction false} GenerateQuestionFallback(text: string, generate: Request -> Option<string>)
    ensures var q := GenerateQuestion(text, generate);
      (generate(QuestionRequest(text)).Some? ==> q == generate(QuestionRequest(text)).value) &&
      (generate(QuestionRequest(text)) == None ==>
        |q| == |text| + 9 && q[..8] == "What is " && q[8..|q| - 1] == text && q[|q| - 1] == '?')
  {
  }

  // ---------------------------------------------------------------- key terms

  /** The texts of the entities whose label is not one of `ExcludedLabels`, in order. */
  function NamedEntityTerms(ents: seq<Entity>): seq<string> {
    if ents == [] then []
    else
      var e := ents[0];
      (if e.category !in ExcludedLabels then [e.text] else []) + NamedEntityTerms(ents[1..])
  }

  /** A text is a candidate term exactly when some entity with a non-excluded label has that text. */
  lemma {:induction false} NamedEntityTermsMembers(ents: seq<Entity>)
    ensures forall x :: x in NamedEntityTerms(ents) <==>
      exists e :: e in ents && e.category !in ExcludedLabels && e.text == x
  {
    if ents != [] {
      NamedEntityTermsMembers(ents[1..]);
      assert forall f :: f in ents <==> f == ents[0] || f in ents[1..];
    }
  }

  /** The noun chunks of more than one word, or title-cased, in order. */
  function NounChunkTerms(chunks: seq<string>): seq<string> {
    if chunks == [] then []
    else
      var c := chunks[0];
      (if WordCount(c) > 1 || IsTitle(c) then [c] else []) + NounChunkTerms(chunks[1..])
  }

  /** No entity text is a candidate exactly when every entity has an excluded label. */
  lemma {:induction false} NamedEntityTermsEmpty(ents: seq<Entity>)
    ensures NamedEntityTerms(ents) == [] <==> forall e :: e in ents ==> e.category in ExcludedLabels
  {
    if ents != [] {
      NamedEntityTermsEmpty(ents[1..]);
      assert forall f :: f in ents <==> f == ents[0] || f in ents[1..];
    }
  }

  /** A noun chunk is a candidate term exactly when it has more than one word or is title-cased. */
  lemma {:induction false} NounChunkTermsMembers(chunks: seq<string>)
    ensures forall x :: x in NounChunkTerms(chunks) <==> x in chunks && (WordCount(x) > 1 || IsTitle(x))
  {
    if chunks != [] {
      NounChunkTermsMembers(chunks[1..]);
      assert forall x :: x in chunks <==> x == chunks[0] || x in chunks[1..];
    }
  }

  /** No noun chunk is a candidate exactly when none has more than one word or is title-cased. */
  lemma {:induction false} NounChunkTermsEmpty(chunks: seq<string>)
    ensures NounChunkTerms(chunks) == [] <==> forall c :: c in chunks ==> WordCount(c) <= 1 && !IsTitle(c)
  {
    NounChunkTermsMembers(chunks);
    var terms := NounChunkTerms(chunks);
    if terms != [] {
      assert terms[0] in terms;
    }
  }

  /**
   * The candidate terms before repeats are removed: the qualifying entity
   * texts, or, when there are none, the qualifying noun chunks.
   */
  function Candidates(doc: Analysis): seq<string> {
    var entities := NamedEntityTerms(doc.ents);
    if entities != [] then entities else NounChunkTerms(doc.nounChunks)
  }

  /** `extract_key_terms`: the candidates with repeats removed, first appearance kept. */
  function KeyTerms(doc: Analysis): seq<string> {
    Unique(Candidates(doc))
  }

  // ---------------------------------------------------------------- flashcards

  /** `" ".join(section.split(". ")[:2])`: the first two sentences, joined by one space. */
  function FallbackContext(section: string): string {
    var pieces := Split(section, SentenceBreak);
    Join(if |pieces| <= 2 then pieces else pieces[..2], " ")
  }

  /** The card `extract_flashcards` makes of one section. */
  function CardFor(section: string, services: Services): Flashcard {
    var summarized := Summarized(section, services.summarize);
    var keyTerms := KeyTerms(services.analyze(summarized));
    if keyTerms != [] then
      Flashcard(ReplaceFirst(summarized, keyTerms[0], Blank), keyTerms[0])
    else
      var context := FallbackContext(section);
      Flashcard(GenerateQuestion(context, services.generate), context)
  }

  /**
   * The body of `extract_flashcards`' loop, step by step as the source writes
   * it (summarize, analyse, pick a mode); its contract is that the card it
   * builds is the one `CardFor` specifies.
   */
  method MakeCard(section: string, services: Services) returns (card: Flashcard)
    ensures card == CardFor(section, services)
  {
    var summarized := SummarizeText(section, services.summarize);
    var keyTerms := KeyTerms(services.analyze(summarized));
    if keyTerms != [] {
      var term := keyTerms[0];
      var definition := ReplaceFirst(summarized, term, Blank);
      card := Flashcard(definition, term);
    } else {
      var combinedText := FallbackContext(section);
      var question := GenerateQuestion(combinedText, services.generate);
      card := Flashcard(question, combinedText);
    }
  }

  /** `extract_flashcards`: exactly one card per section, in section order; none for a blank document. */
  method ExtractFlashcards(text: string, services: Services) returns (flashcards: seq<Flashcard>)
    ensures |flashcards| == |Sections(text)|
    ensures forall k :: 0 <= k < |flashcards| ==> flashcards[k] == CardFor(Sections(text)[k], services)
  {
    var sections := Sections(text);
    flashcards := [];
    for i := 0 to |sections|
      invariant |flashcards| == i
      invariant forall k :: 0 <= k < i ==> flashcards[k] == CardFor(sections[k], services)
    {
      var card := MakeCard(sections[i], services);
      flashcards := flashcards + [card];
    }
  }
}
