/**
 * What the pipeline of `flashcard_generation.py` guarantees, stated over the
 * specification functions of `FlashcardGeneration` (which the loops of
 * `CleanSummary` and `ExtractFlashcards` are proved to compute).
 */
module FlashcardProperties {
  import opened Text
  import opened Ordered
  import opened FlashcardGeneration

  // ---------------------------------------------------------------- stripping and filtering

  /** Every part `NonBlank` keeps is non-empty and stripped. */
  lemma {:induction false} NonBlankElements(ps: seq<string>)
    ensures forall k :: 0 <= k < |NonBlank(ps)| ==> NonBlank(ps)[k] != [] && Stripped(NonBlank(ps)[k])
  {
    if ps != [] {
      NonBlankElements(ps[1..]);
      StripSpec(ps[0]);
    }
  }

  /** The positions of the parts that `NonBlank` keeps. */
  function KeptPositions(ps: seq<string>): (idx: seq<nat>)
    decreases |ps|
  {
    if ps == [] then []
    else
      var init := ps[..|ps| - 1];
      KeptPositions(init) + (if Strip(ps[|ps| - 1]) == [] then [] else [|init|])
  }

  /** One more part: `NonBlank` keeps it exactly when it is not blank, at the end. */
  lemma {:induction false} NonBlankSnoc(ps: seq<string>)
    requires ps != []
    ensures var s := Strip(ps[|ps| - 1]);
      NonBlank(ps) == NonBlank(ps[..|ps| - 1]) + (if s == [] then [] else [s])
  {
    var init, last := ps[..|ps| - 1], ps[|ps| - 1];
    assert NonBlank(ps) == NonBlank(init) + NonBlank([last]) by {
      assert ps == init + [last];
      NonBlankAppend(init, [last]);
    }
    assert NonBlank([last]) == (if Strip(last) == [] then [] else [Strip(last)]) by {
      assert [last][1..] == [];
    }
  }

  /** Each kept part is the stripped part at its position. */
  lemma {:induction false} KeptPositionsAt(ps: seq<string>)
    ensures |KeptPositions(ps)| == |NonBlank(ps)|
    ensures forall k :: 0 <= k < |KeptPositions(ps)| ==>
      KeptPositions(ps)[k] < |ps| && NonBlank(ps)[k] == Strip(ps[KeptPositions(ps)[k]])
    decreases |ps|
  {
    if ps != [] {
      var init := ps[..|ps| - 1];
      KeptPositionsAt(init);
      NonBlankSnoc(ps);
      var before := KeptPositions(init);
      var idx := KeptPositions(ps);
      forall k | 0 <= k < |idx| ensures idx[k] < |ps| && NonBlank(ps)[k] == Strip(ps[idx[k]]) {
        if k < |before| {
          assert ps[idx[k]] == init[before[k]];
        }
      }
    }
  }

  /** The positions strictly increase. */
  lemma {:induction false} KeptPositionsIncrease(ps: seq<string>)
    ensures forall k, l :: 0 <= k < l < |KeptPositions(ps)| ==> KeptPositions(ps)[k] < KeptPositions(ps)[l]
    decreases |ps|
  {
    if ps != [] {
      var init := ps[..|ps| - 1];
      KeptPositionsIncrease(init);
      KeptPositionsAt(init);
    }
  }

  /** A part whose position is not kept is blank. */
  lemma {:induction false} KeptPositionsCover(ps: seq<string>)
    ensures forall j :: 0 <= j < |ps| && j !in KeptPositions(ps) ==> AllSpace(ps[j])
    decreases |ps|
  {
    if ps != [] {
      var init := ps[..|ps| - 1];
      KeptPositionsCover(init);
      StripSpec(ps[|ps| - 1]);
      forall j | 0 <= j < |init| && j !in KeptPositions(ps) ensures AllSpace(ps[j]) {
        assert ps[j] == init[j];
      }
    }
  }

  /**
   * `NonBlank` is a filter in order: the kept parts are the stripped parts at
   * strictly increasing positions `idx`, and every part not picked is blank.
   */
  lemma {:induction false} NonBlankOrder(ps: seq<string>) returns (idx: seq<nat>)
    ensures |idx| == |NonBlank(ps)|
    ensures forall k :: 0 <= k < |idx| ==> idx[k] < |ps| && NonBlank(ps)[k] == Strip(ps[idx[k]])
    ensures forall k, l :: 0 <= k < l < |idx| ==> idx[k] < idx[l]
    ensures forall j :: 0 <= j < |ps| && j !in idx ==> AllSpace(ps[j])
  {
    idx := KeptPositions(ps);
    KeptPositionsAt(ps);
    KeptPositionsIncrease(ps);
    KeptPositionsCover(ps);
  }

  /** `NonBlank` keeps nothing exactly when every part is blank. */
  lemma {:induction false} NonBlankEmpty(ps: seq<string>)
    ensures NonBlank(ps) == [] <==> forall k :: 0 <= k < |ps| ==> AllSpace(ps[k])
  {
    if ps != [] {
      NonBlankEmpty(ps[1..]);
      StripSpec(ps[0]);
      assert forall k :: 0 < k < |ps| ==> ps[k] == ps[1..][k - 1];
    }
  }

  /** Non-empty stripped parts pass through `NonBlank` unchanged. */
  lemma {:induction false} NonBlankOfStripped(ps: seq<string>)
    requires forall k :: 0 <= k < |ps| ==> ps[k] != [] && Stripped(ps[k])
    ensures NonBlank(ps) == ps
  {
    if ps != [] {
      StripSpec(ps[0]);
      NonBlankOfStripped(ps[1..]);
    }
  }

  /** A string `NonBlank` keeps is the stripped form of some part. */
  lemma {:induction false} NonBlankMember(ps: seq<string>, x: string) returns (j: nat)
    requires x in NonBlank(ps)
    ensures j < |ps| && x == Strip(ps[j])
  {
    var idx := NonBlankOrder(ps);
    var k :| 0 <= k < |NonBlank(ps)| && NonBlank(ps)[k] == x;
    j := idx[k];
  }

  // ---------------------------------------------------------------- preprocess_text

  /** Every section is non-empty, has no whitespace at either end and holds no blank-line break. */
  lemma {:induction false} SectionsShape(text: string)
    ensures forall k :: 0 <= k < |Sections(text)| ==>
      Sections(text)[k] != [] && Stripped(Sections(text)[k]) && !Contains(Sections(text)[k], ParagraphBreak)
  {
    var paragraphs := Split(text, ParagraphBreak);
    NonBlankElements(paragraphs);
    SplitPiecesAbsent(text, ParagraphBreak);
    var idx := NonBlankOrder(paragraphs);
    forall k | 0 <= k < |Sections(text)| ensures !Contains(Sections(text)[k], ParagraphBreak) {
      StripKeepsAbsent(paragraphs[idx[k]], ParagraphBreak);
    }
  }

  /**
   * The sections come in document order: the text is its blank-line-separated
   * paragraphs, section `k` is paragraph `idx[k]` stripped, the positions
   * increase, and the paragraphs left out are blank.
   */
  lemma {:induction false} SectionsInDocumentOrder(text: string) returns (paragraphs: seq<string>, idx: seq<nat>)
    ensures Join(paragraphs, ParagraphBreak) == text
    ensures forall j :: 0 <= j < |paragraphs| ==> !Contains(paragraphs[j], ParagraphBreak)
    ensures |idx| == |Sections(text)|
    ensures forall k :: 0 <= k < |idx| ==> idx[k] < |paragraphs| && Sections(text)[k] == Strip(paragraphs[idx[k]])
    ensures forall k, l :: 0 <= k < l < |idx| ==> idx[k] < idx[l]
    ensures forall j :: 0 <= j < |paragraphs| && j !in idx ==> AllSpace(paragraphs[j])
  {
    paragraphs := Split(text, ParagraphBreak);
    SplitJoin(text, ParagraphBreak);
    SplitPiecesAbsent(text, ParagraphBreak);
    idx := NonBlankOrder(paragraphs);
  }

  /** A text has no sections exactly when it is blank. */
  lemma {:induction false} SectionsEmptyIffBlank(text: string)
    ensures Sections(text) == [] <==> AllSpace(text)
  {
    var paragraphs := Split(text, ParagraphBreak);
    SplitJoin(text, ParagraphBreak);
    NonBlankEmpty(paragraphs);
    JoinAllSpace(paragraphs, ParagraphBreak);
  }

  // ---------------------------------------------------------------- refine_word_text

  /**
   * A stripped non-empty part followed by the first character of the break
   * cannot hold a blank-line break.
   */
  lemma {:induction false} NoBreakAcrossEnd(p: string, sep: string)
    requires |sep| == 2 && IsSpace(sep[0])
    requires p != [] && Stripped(p) && !Contains(p, sep)
    ensures !Contains(p + sep[..1], sep)
  {
    if Contains(p + [sep[0]], sep) {
      ContainsSnoc(p, sep[0], sep);
    }
    assert p + sep[..1] == p + [sep[0]];
  }

  /**
   * `preprocess_text` undoes `refine_word_text`: when no kept paragraph holds
   * a blank-line break, segmenting the joined document gives back exactly
   * the stripped non-blank paragraphs, in order.
   */
  lemma {:induction false} WordDocumentRoundTrip(paragraphs: seq<string>)
    requires forall k :: 0 <= k < |NonBlank(paragraphs)| ==> !Contains(NonBlank(paragraphs)[k], ParagraphBreak)
    ensures Sections(WordDocumentText(paragraphs)) == NonBlank(paragraphs)
  {
    var kept := NonBlank(paragraphs);
    NonBlankElements(paragraphs);
    if kept == [] {
      assert Split([], ParagraphBreak) == [[]];
      StripSpec([]);
      assert NonBlank([[]]) == [] by {
        var one: seq<string> := [[]];
        assert one[1..] == [];
      }
    } else {
      forall k | 0 <= k < |kept| - 1
        ensures !Contains(kept[k] + ParagraphBreak[..1], ParagraphBreak)
      {
        NoBreakAcrossEnd(kept[k], ParagraphBreak);
      }
      JoinSplit(kept, ParagraphBreak);
      NonBlankOfStripped(kept);
    }
  }

  // ---------------------------------------------------------------- clean_summary

  /** A string `NonBlank` keeps is exactly a non-empty stripped part. */
  lemma {:induction false} NonBlankMembers(ps: seq<string>)
    ensures forall x :: x in NonBlank(ps) <==> x != [] && exists j :: 0 <= j < |ps| && x == Strip(ps[j])
  {
    var idx := NonBlankOrder(ps);
    NonBlankElements(ps);
    forall x | x != [] && (exists j :: 0 <= j < |ps| && x == Strip(ps[j])) ensures x in NonBlank(ps) {
      var j :| 0 <= j < |ps| && x == Strip(ps[j]);
      StripSpec(ps[j]);
      var k :| 0 <= k < |idx| && idx[k] == j;
      assert NonBlank(ps)[k] == x;
    }
  }

  /**
   * The kept fragments are distinct, and none is blank, padded or holds a
   * `". "`.
   */
  lemma {:induction false} KeptSentencesShape(summary: string)
    ensures var kept := KeptSentences(summary);
      Distinct(kept) &&
      forall k :: 0 <= k < |kept| ==>
        kept[k] != [] && Stripped(kept[k]) && !Contains(kept[k], SentenceBreak)
  {
    var pieces := Split(summary, SentenceBreak);
    var fragments := NonBlank(pieces);
    var kept := KeptSentences(summary);
    assert kept == Unique(fragments);
    UniqueSpec(fragments);
    forall k | 0 <= k < |kept| ensures kept[k] != [] && Stripped(kept[k]) && !Contains(kept[k], SentenceBreak) {
      assert kept[k] in fragments;
      NonBlankElements(pieces);
      var j := NonBlankMember(pieces, kept[k]);
      StripSpec(pieces[j]);
      SplitPiecesAbsent(summary, SentenceBreak);
      StripKeepsAbsent(pieces[j], SentenceBreak);
    }
  }

  /**
   * A text is kept exactly when it is one of the non-blank stripped pieces of
   * the summary (`NonBlankMembers` says which texts those are).
   */
  lemma {:induction false} KeptSentencesMembers(summary: string)
    ensures forall x :: x in KeptSentences(summary) <==> x in NonBlank(Split(summary, SentenceBreak))
  {
    UniqueSpec(NonBlank(Split(summary, SentenceBreak)));
  }

  /** The kept fragments come in the order of their first appearance. */
  lemma {:induction false} KeptSentencesOrder(summary: string)
    ensures forall x :: x in KeptSentences(summary) ==> x in NonBlank(Split(summary, SentenceBreak))
    ensures var fragments := NonBlank(Split(summary, SentenceBreak)); var kept := KeptSentences(summary);
      forall i, j :: 0 <= i < j < |kept| ==> FirstIndex(fragments, kept[i]) < FirstIndex(fragments, kept[j])
  {
    UniqueFirstAppearance(NonBlank(Split(summary, SentenceBreak)));
  }

  /** A kept fragment, capitalised, does not run into the separator that follows it. */
  lemma {:induction false} CapitalizedFragment(x: string)
    requires x != [] && Stripped(x) && !Contains(x, SentenceBreak)
    ensures !Contains(Capitalize(x), SentenceBreak)
    ensures !Contains(Capitalize(x) + SentenceBreak[..1], SentenceBreak)
  {
    CapitalizeKeepsAbsent(x, SentenceBreak);
    var c := Capitalize(x);
    if Contains(c + ['.'], SentenceBreak) {
      ContainsSnoc(c, '.', SentenceBreak);
    }
    assert SentenceBreak[..1] == ['.'];
  }

  /**
   * The sentences of the cleaned summary, split again by `". "`, are the kept
   * fragments in order, each with only its first character possibly
   * upper-cased; when nothing is kept the result is empty.
   */
  lemma {:induction false} CleanedSummarySentences(summary: string)
    ensures KeptSentences(summary) == [] ==> CleanedSummary(summary) == []
    ensures var kept := KeptSentences(summary); var out := Split(CleanedSummary(summary), SentenceBreak);
      kept != [] ==>
        |out| == |kept| &&
        forall k :: 0 <= k < |kept| ==>
          0 < |out[k]| == |kept[k]| && out[k][0] == ToUpper(kept[k][0]) && out[k][1..] == kept[k][1..]
  {
    var kept := KeptSentences(summary);
    var parts := CapitalizeAll(kept);
    if kept != [] {
      assert forall k :: 0 <= k < |kept| ==>
        kept[k] != [] && Stripped(kept[k]) && !Contains(kept[k], SentenceBreak) by {
        KeptSentencesShape(summary);
      }
      forall k | 0 <= k < |parts|
        ensures !Contains(parts[k], SentenceBreak) && !Contains(parts[k] + SentenceBreak[..1], SentenceBreak)
        ensures 0 < |parts[k]| == |kept[k]| && parts[k][0] == ToUpper(kept[k][0]) && parts[k][1..] == kept[k][1..]
      {
        CapitalizedFragment(kept[k]);
        CapitalizeSpec(kept[k]);
      }
      JoinSplit(parts, SentenceBreak);
    }
  }

  /** Stripping and dropping parts can only lighten them. */
  lemma {:induction false} WeightNonBlank(ps: seq<string>, w: nat)
    ensures Weight(NonBlank(ps), w) <= Weight(ps, w)
  {
    if ps != [] {
      WeightNonBlank(ps[1..], w);
      StripSpec(ps[0]);
      var s := Strip(ps[0]);
      WeightAppend(if s == [] then [] else [s], NonBlank(ps[1..]), w);
    }
  }

  /** Removing repeats can only lighten a list. */
  lemma {:induction false} WeightUnique(xs: seq<string>, w: nat)
    ensures Weight(Unique(xs), w) <= Weight(xs, w)
    decreases |xs|
  {
    if xs != [] {
      var init := xs[..|xs| - 1];
      var last := xs[|xs| - 1];
      WeightUnique(init, w);
      assert xs == init + [last];
      WeightAppend(init, [last], w);
      WeightAppend(Unique(init), [last], w);
    }
  }

  /** Capitalising keeps every length. */
  lemma {:induction false} WeightCapitalizeAll(xs: seq<string>, w: nat)
    ensures Weight(CapitalizeAll(xs), w) == Weight(xs, w)
  {
    if xs != [] {
      assert CapitalizeAll(xs)[1..] == CapitalizeAll(xs[1..]);
      WeightCapitalizeAll(xs[1..], w);
    }
  }

  /** Under the ASCII case mapping, `clean_summary` never lengthens its input. */
  lemma {:induction false} CleanedSummaryNoLonger(summary: string)
    ensures |CleanedSummary(summary)| <= |summary|
  {
    var pieces := Split(summary, SentenceBreak);
    var kept := KeptSentences(summary);
    if kept != [] {
      SplitJoin(summary, SentenceBreak);
      JoinLength(pieces, SentenceBreak);
      WeightNonBlank(pieces, 2);
      WeightUnique(NonBlank(pieces), 2);
      WeightCapitalizeAll(kept, 2);
      JoinLength(CapitalizeAll(kept), SentenceBreak);
    }
  }

  /**
   * An empty summary is a success, not a failure: it cleans to the empty
   * text, and that, not the section, becomes the condensed text.
   */
  lemma {:induction false} EmptySummaryKept(text: string, summarize: Request -> Option<string>)
    requires summarize(SummaryRequest(text)) == Some([])
    ensures Summarized(text, summarize) == []
  {
    var pieces := Split([], SentenceBreak);
    assert pieces == [[]];
    assert NonBlank(pieces) == [] by {
      assert Strip(pieces[0]) == [];
      assert pieces[1..] == [];
    }
  }

  /** The fragments kept from `"a. A"`: both, since they differ before capitalising. */
  lemma {:induction false} KeptSentencesDiffering()
    ensures KeptSentences("a. A") == ["a", "A"]
  {
    assert Split("a. A", SentenceBreak) == ["a", "A"] by {
      SplitTwo("a", "A");
      assert "a" + SentenceBreak + "A" == "a. A";
    }
    assert NonBlank(["a", "A"]) == ["a", "A"] by {
      NonBlankOfStripped(["a", "A"]);
    }
    assert Unique(["a", "A"]) == ["a", "A"] by {
      UniqueOfDistinct(["a", "A"]);
    }
  }

  /** The fragments kept from `"A. A"`: one, the second being a repeat. */
  lemma {:induction false} KeptSentencesRepeated()
    ensures KeptSentences("A. A") == ["A"]
  {
    assert Split("A. A", SentenceBreak) == ["A", "A"] by {
      SplitTwo("A", "A");
      assert "A" + SentenceBreak + "A" == "A. A";
    }
    assert NonBlank(["A", "A"]) == ["A", "A"] by {
      NonBlankOfStripped(["A", "A"]);
    }
    assert Unique(["A", "A"]) == ["A"] by {
      assert ["A", "A"][..1] == ["A"];
      assert Unique(["A"]) == ["A"] by {
        UniqueOfDistinct(["A"]);
      }
    }
  }

  /**
   * Repeats are found before capitalising, so the cleaned text can still hold
   * two equal sentences, and cleaning it again changes it.
   */
  lemma {:induction false} CleanSummaryNotIdempotent()
    ensures CleanedSummary("a. A") == "A. A"
    ensures CleanedSummary(CleanedSummary("a. A")) == "A"
  {
    var capitalized := CapitalizeAll(["a", "A"]);
    assert capitalized == ["A", "A"] by {
      assert Capitalize("a") == "A" by {
        assert ToUpper('a') == 'A';
      }
    }
    assert CleanedSummary("a. A") == "A. A" by {
      KeptSentencesDiffering();
      assert Join(["A", "A"], SentenceBreak) == "A" + SentenceBreak + Join(["A"], SentenceBreak);
    }
    assert CleanedSummary("A. A") == "A" by {
      KeptSentencesRepeated();
      assert CapitalizeAll(["A"]) == ["A"];
    }
  }

  /** Two sentences without `'.'` split apart at the `". "` between them. */
  lemma {:induction false} SplitTwo(a: string, b: string)
    requires '.' !in a && '.' !in b
    ensures Split(a + SentenceBreak + b, SentenceBreak) == [a, b]
  {
    NoBreakWithoutDot(a);
    NoBreakWithoutDot(b);
    SplitAfterSentence(a, b);
    SplitWithoutSep(b, SentenceBreak);
  }

  // ---------------------------------------------------------------- extract_key_terms

  /** The key terms are distinct and ranked by first appearance among the candidates. */
  lemma {:induction false} KeyTermsOrder(doc: Analysis)
    ensures Distinct(KeyTerms(doc))
    ensures forall x :: x in KeyTerms(doc) <==> x in Candidates(doc)
    ensures forall i, j :: 0 <= i < j < |KeyTerms(doc)| ==>
      FirstIndex(Candidates(doc), KeyTerms(doc)[i]) < FirstIndex(Candidates(doc), KeyTerms(doc)[j])
  {
    UniqueSpec(Candidates(doc));
    UniqueFirstAppearance(Candidates(doc));
  }

  /**
   * When some entity has a label outside the excluded ones, the key terms are
   * the texts of exactly those entities, repeats removed; an excluded label
   * never contributes a term.
   */
  lemma {:induction false} KeyTermsFromEntities(doc: Analysis)
    requires exists e :: e in doc.ents && e.category !in ExcludedLabels
    ensures KeyTerms(doc) == Unique(NamedEntityTerms(doc.ents))
    ensures forall x :: x in KeyTerms(doc) <==>
      exists e :: e in doc.ents && e.category !in ExcludedLabels && e.text == x
  {
    NamedEntityTermsMembers(doc.ents);
    var e :| e in doc.ents && e.category !in ExcludedLabels;
    assert e.text in NamedEntityTerms(doc.ents);
    UniqueSpec(NamedEntityTerms(doc.ents));
  }

  /**
   * When every entity has an excluded label, the key terms are the noun chunks
   * of more than one word or title-cased, repeats removed.
   */
  lemma {:induction false} KeyTermsFromChunks(doc: Analysis)
    requires forall e :: e in doc.ents ==> e.category in ExcludedLabels
    ensures KeyTerms(doc) == Unique(NounChunkTerms(doc.nounChunks))
    ensures forall x :: x in KeyTerms(doc) <==>
      x in doc.nounChunks && (WordCount(x) > 1 || IsTitle(x))
  {
    NamedEntityTermsEmpty(doc.ents);
    NounChunkTermsMembers(doc.nounChunks);
    UniqueSpec(NounChunkTerms(doc.nounChunks));
  }

  /** There are no key terms exactly when no entity and no noun chunk qualifies. */
  lemma {:induction false} KeyTermsEmpty(doc: Analysis)
    ensures KeyTerms(doc) == [] <==>
      (forall e :: e in doc.ents ==> e.category in ExcludedLabels) &&
      (forall c :: c in doc.nounChunks ==> WordCount(c) <= 1 && !IsTitle(c))
  {
    NamedEntityTermsEmpty(doc.ents);
    NounChunkTermsEmpty(doc.nounChunks);
    var candidates := Candidates(doc);
    UniqueSpec(candidates);
    if candidates != [] {
      assert candidates[0] in KeyTerms(doc);
    }
  }

  /**
   * Term mode: the answer is the first key term, and the prompt is the
   * summarized text with the term's leftmost occurrence `i` replaced by the
   * blank, or the summarized text unchanged when the term does not occur.
   */
  lemma {:induction false} TermModeCard(section: string, services: Services) returns (i: nat)
    requires KeyTerms(services.analyze(Summarized(section, services.summarize))) != []
    ensures var summarized := Summarized(section, services.summarize);
      var term := KeyTerms(services.analyze(summarized))[0];
      var card := CardFor(section, services);
      card.answer == term &&
      (!Contains(summarized, term) ==> card.prompt == summarized) &&
      (Contains(summarized, term) ==>
        OccursAt(summarized, term, i) &&
        (forall j :: 0 <= j < i ==> !OccursAt(summarized, term, j)) &&
        card.prompt == summarized[..i] + Blank + summarized[i + |term|..])
  {
    var summarized := Summarized(section, services.summarize);
    var term := KeyTerms(services.analyze(summarized))[0];
    i := 0;
    if Contains(summarized, term) {
      i := ReplaceFirstAt(summarized, term, Blank);
    } else {
      ReplaceFirstAbsent(summarized, term, Blank);
    }
  }

  /**
   * Putting `term` back in place of the blank undoes the replacement, for a
   * text without `'_'`.
   */
  lemma {:induction false} BlankRestores(s: string, term: string)
    requires '_' !in s
    ensures ReplaceFirst(ReplaceFirst(s, term, Blank), Blank, term) == s
  {
    if Contains(s, term) {
      var i := ReplaceFirstAt(s, term, Blank);
      var pre, post := s[..i], s[i + |term|..];
      assert '_' !in pre;
      assert ReplaceFirst(s, term, Blank) == pre + (Blank + post);
      ReplaceFirstAfter(pre, Blank + post, Blank, term);
      assert ReplaceFirst(Blank + post, Blank, term) == term + post by {
        assert (Blank + post)[..|Blank|] == Blank;
        assert (Blank + post)[|Blank|..] == post;
      }
      assert s == pre + (term + post) by {
        assert s[i..i + |term|] == term;
      }
    } else {
      ReplaceFirstAbsent(s, term, Blank);
      if Contains(s, Blank) {
        ContainsHead(s, Blank);
        assert false;
      }
      ReplaceFirstAbsent(s, Blank, term);
    }
  }

  /**
   * A term-mode card can be filled back in: putting the answer in place of the
   * blank gives the summarized text again, provided that text has no `'_'`.
   */
  lemma {:induction false} FillBlankRestores(section: string, services: Services)
    requires KeyTerms(services.analyze(Summarized(section, services.summarize))) != []
    requires '_' !in Summarized(section, services.summarize)
    ensures var card := CardFor(section, services);
      ReplaceFirst(card.prompt, Blank, card.answer) == Summarized(section, services.summarize)
  {
    var summarized := Summarized(section, services.summarize);
    BlankRestores(summarized, KeyTerms(services.analyze(summarized))[0]);
  }

  /**
   * Fallback mode: the answer is the fallback context of the original section,
   * and the prompt is the generated question, or `"What is {context}?"` when
   * the question service fails.
   */
  lemma {:induction false} FallbackModeCard(section: string, services: Services)
    requires KeyTerms(services.analyze(Summarized(section, services.summarize))) == []
    ensures var context := FallbackContext(section);
      var card := CardFor(section, services);
      card.answer == context &&
      (services.generate(QuestionRequest(context)).Some? ==>
        card.prompt == services.generate(QuestionRequest(context)).value) &&
      (services.generate(QuestionRequest(context)) == None ==>
        card.prompt == "What is " + context + "?")
  {
  }

  /** A section without a `". "` is its own fallback context. */
  lemma {:induction false} FallbackContextOneSentence(section: string)
    requires !Contains(section, SentenceBreak)
    ensures FallbackContext(section) == section
  {
    SplitWithoutSep(section, SentenceBreak);
  }

  /** A text without `'.'` holds no `". "`, not even with a `'.'` added at its end. */
  lemma {:induction false} NoBreakWithoutDot(a: string)
    requires '.' !in a
    ensures !Contains(a, SentenceBreak) && !Contains(a + ".", SentenceBreak)
  {
    if Contains(a, SentenceBreak) {
      ContainsHead(a, SentenceBreak);
    }
    if Contains(a + ".", SentenceBreak) {
      ContainsSnoc(a, '.', SentenceBreak);
      ContainsHead(a, SentenceBreak);
    }
  }

  /** Two sentences: the context joins them with a single space, the `". "` dropped. */
  lemma {:induction false} FallbackContextTwoSentences(a: string, b: string)
    requires !Contains(a + ".", SentenceBreak) && !Contains(b, SentenceBreak)
    ensures FallbackContext(a + SentenceBreak + b) == a + " " + b
  {
    SplitAfterSentence(a, b);
    SplitWithoutSep(b, SentenceBreak);
    assert Split(a + SentenceBreak + b, SentenceBreak) == [a, b];
    assert Join([a, b], " ") == a + " " + Join([b], " ");
  }

  /** More sentences: everything after the second `". "` is left out. */
  lemma {:induction false} FallbackContextDropsRest(a: string, b: string, rest: string)
    requires !Contains(a + ".", SentenceBreak) && !Contains(b + ".", SentenceBreak)
    ensures FallbackContext(a + SentenceBreak + b + SentenceBreak + rest) == a + " " + b
  {
    SplitFirstTwo(a, b, rest);
    var pieces := Split(a + SentenceBreak + b + SentenceBreak + rest, SentenceBreak);
    assert pieces[..2] == [a, b];
    assert Join([a, b], " ") == a + " " + Join([b], " ");
  }

  /** A sentence that does not run into a `". "` is cut off at the `". "` after it. */
  lemma {:induction false} SplitAfterSentence(p: string, rest: string)
    requires !Contains(p + ".", SentenceBreak)
    ensures Split(p + SentenceBreak + rest, SentenceBreak) == [p] + Split(rest, SentenceBreak)
  {
    assert p + SentenceBreak[..1] == p + ".";
    SplitAfter(p, SentenceBreak, rest);
  }

  /** The first two pieces of a text that starts with two sentences are those sentences. */
  lemma {:induction false} SplitFirstTwo(a: string, b: string, rest: string)
    requires !Contains(a + ".", SentenceBreak) && !Contains(b + ".", SentenceBreak)
    ensures Split(a + SentenceBreak + b + SentenceBreak + rest, SentenceBreak) == [a, b] + Split(rest, SentenceBreak)
  {
    var tail := b + SentenceBreak + rest;
    assert a + SentenceBreak + b + SentenceBreak + rest == a + SentenceBreak + tail;
    SplitAfterSentence(a, tail);
    SplitAfterSentence(b, rest);
    assert [a] + ([b] + Split(rest, SentenceBreak)) == [a, b] + Split(rest, SentenceBreak);
  }

  // ---------------------------------------------------------------- scenarios

  /**
   * A section of two sentences, such as `"The number 42 is interesting. It is
   * even."`, whose analysis finds only excluded entities (a cardinal number)
   * and no noun chunks: fallback mode, and the answer joins the two sentences
   * with one space, the `". "` between them dropped.
   */
  lemma {:induction false} TwoSentenceFallbackScenario(section: string, first: string, second: string, services: Services)
    requires '.' !in first && '.' !in second && section == first + ". " + second + "."
    requires var doc := services.analyze(Summarized(section, services.summarize));
      (forall e :: e in doc.ents ==> e.category in ExcludedLabels) && doc.nounChunks == []
    ensures var card := CardFor(section, services);
      card.answer == first + " " + second + "." &&
      (services.generate(QuestionRequest(card.answer)) == None ==> card.prompt == "What is " + card.answer + "?")
  {
    assert FallbackContext(section) == first + " " + second + "." by {
      NoBreakWithoutDot(first);
      NoBreakWithoutDot(second);
      assert section == first + SentenceBreak + (second + ".");
      FallbackContextTwoSentences(first, second + ".");
    }
    assert KeyTerms(services.analyze(Summarized(section, services.summarize))) == [] by {
      KeyTermsEmpty(services.analyze(Summarized(section, services.summarize)));
    }
    FallbackModeCard(section, services);
  }

  /**
   * A section that opens with the one entity the analysis finds, such as
   * `"Paris"` in `"Paris is the capital of France. ..."`, with a label that is
   * not excluded, and a failing summarizer: term mode, the answer is the
   * entity and the prompt is the section with its opening blanked out.
   */
  lemma {:induction false} OpeningEntityScenario(term: string, rest: string, category: string, services: Services)
    requires category !in ExcludedLabels
    requires services.summarize(SummaryRequest(term + rest)) == None
    requires services.analyze(term + rest).ents == [Entity(term, category)]
    ensures CardFor(term + rest, services) == Flashcard(Blank + rest, term)
  {
    var section := term + rest;
    var doc := services.analyze(section);
    assert KeyTerms(doc) == [term] by {
      assert NamedEntityTerms(doc.ents) == [term];
      UniqueOfDistinct([term]);
    }
    assert section[..|term|] == term && section[|term|..] == rest;
  }
}
