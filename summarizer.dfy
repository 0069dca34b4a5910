/**
 * The summaries of qa_chain.py: `extract_study_focus` classifies a title,
 * `generate_extractive_summary` picks the two best sentences of an
 * abstract, `generate_fallback_summary` quotes the first long one, and
 * `generate_article_summaries` attaches a summary to every retrieved
 * context. The transformer summariser is an optional function of the
 * abstract and the title.
 */
module Summarizer {
  import opened Wrappers
  import opened Text
  import opened Sorting
  import opened SummaryText
  import opened Embedder

  // ---------------------------------------------------------------------
  // Study focus

  const ReviewWords: seq<string> := ["review", "systematic review", "meta-analysis"]
  const TrialWords: seq<string> := ["trial", "study", "clinical"]
  const GuidelineWords: seq<string> := ["guideline", "recommendation"]
  const TreatmentWords: seq<string> := ["treatment", "therapy", "management"]

  const ReviewFocus: string := "This systematic review examines"
  const TrialFocus: string := "This clinical study investigates"
  const GuidelineFocus: string := "These guidelines address"
  const TreatmentFocus: string := "This research focuses on treatment approaches for"
  const DefaultFocus: string := "This study explores"

  const FocusPhrases: seq<string> := [ReviewFocus, TrialFocus, GuidelineFocus, TreatmentFocus, DefaultFocus]

  /** `any(word in s for word in words)`. */
  predicate Mentions(s: string, words: seq<string>) {
    exists w :: w in words && Contains(s, w)
  }

  /** `extract_study_focus`: the first word group the lowercased title mentions decides. */
  function StudyFocus(title: string): string {
    var t := Lower(title);
    if Mentions(t, ReviewWords) then ReviewFocus
    else if Mentions(t, TrialWords) then TrialFocus
    else if Mentions(t, GuidelineWords) then GuidelineFocus
    else if Mentions(t, TreatmentWords) then TreatmentFocus
    else DefaultFocus
  }

  /**
   * The focus is one of the five phrases, chosen by the first group in the
   * order review, trial, guideline, treatment that the lowercased title
   * mentions, and "This study explores" when it mentions none.
   */
  lemma StudyFocusPriority(title: string)
    ensures StudyFocus(title) in FocusPhrases
    ensures var t := Lower(title);
      && (StudyFocus(title) == ReviewFocus <==> Mentions(t, ReviewWords))
      && (StudyFocus(title) == TrialFocus <==> !Mentions(t, ReviewWords) && Mentions(t, TrialWords))
      && (StudyFocus(title) == GuidelineFocus <==>
            !Mentions(t, ReviewWords) && !Mentions(t, TrialWords) && Mentions(t, GuidelineWords))
      && (StudyFocus(title) == TreatmentFocus <==>
            !Mentions(t, ReviewWords) && !Mentions(t, TrialWords) && !Mentions(t, GuidelineWords)
            && Mentions(t, TreatmentWords))
      && (StudyFocus(title) == DefaultFocus <==>
            !Mentions(t, ReviewWords) && !Mentions(t, TrialWords) && !Mentions(t, GuidelineWords)
            && !Mentions(t, TreatmentWords))
  {
    FocusPhrasesDistinct();
  }

  lemma FocusPhrasesDistinct()
    ensures |ReviewFocus| == 31 && |TrialFocus| == 32 && |GuidelineFocus| == 24
    ensures |TreatmentFocus| == 49 && |DefaultFocus| == 19
  {
  }

  /** Every focus phrase starts with a capital "T" and ends with a letter, so it is never empty. */
  lemma FocusPhraseEdges(focus: string)
    requires focus in FocusPhrases
    ensures focus != [] && focus[0] == 'T' && !IsSpace(focus[|focus| - 1])
  {
    FocusPhrasesDistinct();
    assert ReviewFocus[0] == 'T' && ReviewFocus[30] == 's';
    assert TrialFocus[0] == 'T' && TrialFocus[31] == 's';
    assert GuidelineFocus[0] == 'T' && GuidelineFocus[23] == 's';
    assert TreatmentFocus[0] == 'T' && TreatmentFocus[48] == 'r';
    assert DefaultFocus[0] == 'T' && DefaultFocus[18] == 's';
  }

  /** A non-empty phrase starting with "T" and ending in a character that is not whitespace. */
  predicate FocusShaped(focus: string) {
    focus != [] && focus[0] == 'T' && !IsSpace(focus[|focus| - 1])
  }

  /** Whatever the title, the focus is a non-empty phrase without outer whitespace. */
  lemma StudyFocusShaped(title: string)
    ensures FocusShaped(StudyFocus(title))
  {
    FocusPhraseEdges(StudyFocus(title));
  }

  // ---------------------------------------------------------------------
  // Candidate sentences

  /** `[s.strip() for s in fragments if len(s.strip()) > minLen]`. */
  function LongStripped(fragments: seq<string>, minLen: nat): seq<string> {
    if fragments == [] then []
    else
      var f := Strip(fragments[0]);
      (if |f| > minLen then [f] else []) + LongStripped(fragments[1..], minLen)
  }

  /** The sentences the extractive summariser considers. */
  function Candidates(abstractText: string): seq<string> {
    LongStripped(Fragments(abstractText), 20)
  }

  /** The kept sentences are exactly the stripped fragments longer than `minLen`. */
  lemma {:induction false} LongStrippedMembers(fragments: seq<string>, minLen: nat)
    ensures forall c :: c in LongStripped(fragments, minLen) <==>
      exists k :: 0 <= k < |fragments| && c == Strip(fragments[k]) && |c| > minLen
  {
    if fragments != [] {
      var tail := fragments[1..];
      LongStrippedMembers(tail, minLen);
      forall c
        ensures c in LongStripped(fragments, minLen) <==>
          exists k :: 0 <= k < |fragments| && c == Strip(fragments[k]) && |c| > minLen
      {
        if c in LongStripped(tail, minLen) {
          var k :| 0 <= k < |tail| && c == Strip(tail[k]) && |c| > minLen;
          assert tail[k] == fragments[k + 1];
        }
        if exists k :: 0 <= k < |fragments| && c == Strip(fragments[k]) && |c| > minLen {
          var k :| 0 <= k < |fragments| && c == Strip(fragments[k]) && |c| > minLen;
          if k > 0 {
            assert fragments[k] == tail[k - 1];
          }
        }
      }
    }
  }

  /** Each kept sentence is longer than `minLen`, has no outer whitespace, and no terminator when no fragment has one. */
  lemma {:induction false} LongStrippedProps(fragments: seq<string>, minLen: nat)
    ensures forall c :: c in LongStripped(fragments, minLen) ==> |c| > minLen && NoEdgeSpace(c)
    ensures (forall f :: f in fragments ==> NoTerminator(f)) ==>
      forall c :: c in LongStripped(fragments, minLen) ==> NoTerminator(c)
  {
    if fragments != [] {
      var tail := fragments[1..];
      LongStrippedProps(tail, minLen);
      StripIsTrimmed(fragments[0]);
      if forall f :: f in fragments ==> NoTerminator(f) {
        assert fragments[0] in fragments;
        StripNoTerminator(fragments[0]);
        assert forall f :: f in tail ==> f in fragments;
      }
    }
  }

  /** Nothing is kept exactly when every stripped fragment is at most `minLen` long. */
  lemma {:induction false} LongStrippedEmpty(fragments: seq<string>, minLen: nat)
    ensures LongStripped(fragments, minLen) == [] <==>
      forall k :: 0 <= k < |fragments| ==> |Strip(fragments[k])| <= minLen
  {
    if fragments != [] {
      var tail := fragments[1..];
      LongStrippedEmpty(tail, minLen);
      assert forall k :: 0 < k < |fragments| ==> fragments[k] == tail[k - 1];
    }
  }

  /** Candidates are long, stripped, free of terminators and come from the abstract's fragments. */
  lemma CandidatesShape(abstractText: string)
    ensures forall c :: c in Candidates(abstractText) ==> |c| > 20 && NoEdgeSpace(c) && NoTerminator(c)
    ensures forall c :: c in Candidates(abstractText) <==>
      exists k :: 0 <= k < |Fragments(abstractText)| && c == Strip(Fragments(abstractText)[k]) && |c| > 20
  {
    LongStrippedMembers(Fragments(abstractText), 20);
    LongStrippedProps(Fragments(abstractText), 20);
  }

  // ---------------------------------------------------------------------
  // Sentence scores

  const ImportantKeywords: seq<string> := [
    "objective", "aim", "purpose", "goal",
    "method", "approach", "design",
    "result", "finding", "outcome", "conclusion",
    "significant", "effective", "treatment", "therapy",
    "recommendation", "guideline", "protocol"
  ]

  /** Two points for each keyword occurring in the (lowercased) sentence. */
  function KeywordPoints(lowered: string, keywords: seq<string>): int {
    if keywords == [] then 0
    else
      KeywordPoints(lowered, keywords[..|keywords| - 1])
        + (if Contains(lowered, keywords[|keywords| - 1]) then 2 else 0)
  }

  /** Keyword points, one for a digit, one for more than 100 characters. */
  function SentenceScore(sentence: string, keywords: seq<string>): int {
    KeywordPoints(Lower(sentence), keywords)
      + (if HasDigit(sentence) then 1 else 0)
      + (if |sentence| > 100 then 1 else 0)
  }

  datatype ScoredSentence = ScoredSentence(text: string, score: int)

  function SentenceKey(x: ScoredSentence): int {
    x.score
  }

  /** Each sentence with its score, in order. */
  function ScoredSentences(sentences: seq<string>, keywords: seq<string>): seq<ScoredSentence> {
    if sentences == [] then []
    else
      var n := |sentences| - 1;
      ScoredSentences(sentences[..n], keywords) + [ScoredSentence(sentences[n], SentenceScore(sentences[n], keywords))]
  }

  /**
   * Keyword points are even, at most two per keyword, and zero exactly when
   * no keyword occurs.
   */
  lemma {:induction false} KeywordPointsShape(lowered: string, keywords: seq<string>)
    ensures 0 <= KeywordPoints(lowered, keywords) <= 2 * |keywords|
    ensures KeywordPoints(lowered, keywords) % 2 == 0
    ensures KeywordPoints(lowered, keywords) == 0 <==> forall k :: k in keywords ==> !Contains(lowered, k)
  {
    if keywords != [] {
      var n := |keywords| - 1;
      KeywordPointsShape(lowered, keywords[..n]);
      assert keywords == keywords[..n] + [keywords[n]];
    }
  }

  /** A sentence scores between 0 and two per keyword plus two, one point of which is a digit's. */
  lemma SentenceScoreBounds(sentence: string, keywords: seq<string>)
    ensures 0 <= SentenceScore(sentence, keywords) <= 2 * |keywords| + 2
    ensures SentenceScore(sentence, keywords) % 2 == 1 <==> (HasDigit(sentence) != (|sentence| > 100))
  {
    KeywordPointsShape(Lower(sentence), keywords);
  }

  lemma {:induction false} ScoredSentencesShape(sentences: seq<string>, keywords: seq<string>)
    ensures |ScoredSentences(sentences, keywords)| == |sentences|
    ensures forall i :: 0 <= i < |sentences| ==>
      ScoredSentences(sentences, keywords)[i] == ScoredSentence(sentences[i], SentenceScore(sentences[i], keywords))
  {
    if sentences != [] {
      var n := |sentences| - 1;
      ScoredSentencesShape(sentences[..n], keywords);
      assert forall i :: 0 <= i < n ==> sentences[..n][i] == sentences[i];
    }
  }

  // ---------------------------------------------------------------------
  // Selection and assembly

  /** `scored.sort(key=score, reverse=True)` then `[:2]`. */
  function TopSentences(scored: seq<ScoredSentence>): seq<ScoredSentence> {
    Take(SortDesc(scored, SentenceKey), 2)
  }

  function Texts(xs: seq<ScoredSentence>): (r: seq<string>)
    ensures |r| == |xs| && forall i :: 0 <= i < |xs| ==> r[i] == xs[i].text
  {
    if xs == [] then [] else [xs[0].text] + Texts(xs[1..])
  }

  /** `'. '.join(top)`, with a full stop appended unless it already ends with one. */
  function Body(top: seq<string>): string {
    var b := Join(". ", top);
    if b != [] && b[|b| - 1] == '.' then b else b + "."
  }

  /** The focus prefix, when there is one, separated by a space. */
  function Draft(focus: string, body: string): string {
    if focus != "" then focus + " " + body else body
  }

  /** The extractive summary of non-empty candidates, before the choice of focus is known. */
  function SummaryFrom(sentences: seq<string>, focus: string, keywords: seq<string>): string {
    CleanSummaryText(Draft(focus, Body(Texts(TopSentences(ScoredSentences(sentences, keywords))))))
  }

  function NoCandidateSummary(title: string): string {
    "This study focuses on " + Lower(title) + "."
  }

  /** `generate_extractive_summary` for a given keyword list. */
  function ExtractiveSummaryWith(abstractText: string, title: string, keywords: seq<string>): string {
    var sentences := Candidates(abstractText);
    if sentences == [] then NoCandidateSummary(title)
    else SummaryFrom(sentences, StudyFocus(title), keywords)
  }

  function ExtractiveSummary(abstractText: string, title: string): string {
    ExtractiveSummaryWith(abstractText, title, ImportantKeywords)
  }

  /** The keyword loop of `generate_extractive_summary` for one sentence, with the digit and length points. */
  method ScoreSentence(sentence: string, keywords: seq<string>) returns (score: int)
    ensures score == SentenceScore(sentence, keywords)
  {
    score := 0;
    var sentenceLower := Lower(sentence);
    for k := 0 to |keywords|
      invariant score == KeywordPoints(sentenceLower, keywords[..k])
    {
      assert keywords[..k + 1][..k] == keywords[..k];
      if Contains(sentenceLower, keywords[k]) {
        score := score + 2;
      }
    }
    assert keywords[..|keywords|] == keywords;
    if HasDigit(sentence) {
      score := score + 1;
    }
    if |sentence| > 100 {
      score := score + 1;
    }
  }

  /** The scoring loop of `generate_extractive_summary`. */
  method ScoreSentences(sentences: seq<string>, keywords: seq<string>) returns (scored: seq<ScoredSentence>)
    ensures scored == ScoredSentences(sentences, keywords)
  {
    scored := [];
    for i := 0 to |sentences|
      invariant scored == ScoredSentences(sentences[..i], keywords)
    {
      assert sentences[..i + 1][..i] == sentences[..i];
      var score := ScoreSentence(sentences[i], keywords);
      scored := scored + [ScoredSentence(sentences[i], score)];
    }
    assert sentences[..|sentences|] == sentences;
  }

  /** Scoring, selection and assembly of `generate_extractive_summary`. */
  method SummarizeCandidates(sentences: seq<string>, focus: string, keywords: seq<string>) returns (summary: string)
    ensures summary == SummaryFrom(sentences, focus, keywords)
  {
    var scored := ScoreSentences(sentences, keywords);
    var ranked := SortDesc(scored, SentenceKey);
    var top := Texts(Take(ranked, 2));
    var body := Join(". ", top);
    if !(body != [] && body[|body| - 1] == '.') {
      body := body + ".";
    }
    if focus != "" {
      body := focus + " " + body;
    }
    summary := CleanSummaryText(body);
  }

  method GenerateExtractiveSummary(abstractText: string, title: string) returns (summary: string)
    ensures summary == ExtractiveSummary(abstractText, title)
  {
    var sentences := Candidates(abstractText);
    if sentences == [] {
      return "This study focuses on " + Lower(title) + ".";
    }
    var focus := StudyFocus(title);
    summary := SummarizeCandidates(sentences, focus, ImportantKeywords);
  }

  // ---------------------------------------------------------------------
  // Properties of the extractive summary

  lemma WithKeyAll<T>(s: seq<T>, key: T -> int, v: int)
    requires forall i :: 0 <= i < |s| ==> key(s[i]) == v
    ensures WithKey(s, key, v) == s
  {
    if s != [] {
      WithKeyAll(s[1..], key, v);
      assert [s[0]] + s[1..] == s;
    }
  }

  /**
   * At most two sentences are chosen, two when there are that many: the
   * first ones of the stable descending sort of the scored sentences, which
   * is a permutation of them, so every sentence left out scores no more
   * than each chosen one.
   */
  lemma TopSentencesShape(scored: seq<ScoredSentence>)
    ensures var ranked := SortDesc(scored, SentenceKey);
      var top := TopSentences(scored);
      && |top| == (if |scored| < 2 then |scored| else 2)
      && top == ranked[..|top|]
      && multiset(ranked) == multiset(scored)
      && SortedDesc(top, SentenceKey)
      && (forall i, j :: 0 <= i < |top| <= j < |ranked| ==> ranked[j].score <= top[i].score)
  {
    var ranked := SortDesc(scored, SentenceKey);
    SortDescCorrect(scored, SentenceKey);
    var top := TopSentences(scored);
    forall i, j | 0 <= i < |top| <= j < |ranked|
      ensures ranked[j].score <= top[i].score
    {
      assert top[i] == ranked[i];
      assert SentenceKey(ranked[i]) >= SentenceKey(ranked[j]);
    }
    forall i, j | 0 <= i < j < |top|
      ensures SentenceKey(top[i]) >= SentenceKey(top[j])
    {
      assert top[i] == ranked[i] && top[j] == ranked[j];
    }
  }

  /** Every chosen sentence is one of the scored ones. */
  lemma TopSentencesFrom(scored: seq<ScoredSentence>)
    ensures forall x :: x in TopSentences(scored) ==> x in scored
  {
    var ranked := SortDesc(scored, SentenceKey);
    var top := TopSentences(scored);
    forall x | x in top
      ensures x in scored
    {
      assert x in ranked;
      assert x in multiset(ranked);
    }
  }

  /** With all scores equal the sort keeps the input order, so the first two sentences are chosen. */
  lemma TopSentencesTie(scored: seq<ScoredSentence>, v: int)
    requires forall i :: 0 <= i < |scored| ==> scored[i].score == v
    ensures TopSentences(scored) == Take(scored, 2)
  {
    var ranked := SortDesc(scored, SentenceKey);
    SortDescCorrect(scored, SentenceKey);
    assert forall i :: 0 <= i < |ranked| ==> SentenceKey(ranked[i]) == v by {
      forall i | 0 <= i < |ranked|
        ensures SentenceKey(ranked[i]) == v
      {
        assert ranked[i] in multiset(scored);
      }
    }
    WithKeyAll(scored, SentenceKey, v);
    WithKeyAll(ranked, SentenceKey, v);
  }

  /** Joining sentences without terminators never ends with ".", so the full stop is always appended. */
  lemma BodyAppendsStop(top: seq<string>)
    requires top != [] && forall i :: 0 <= i < |top| ==> top[i] != [] && NoTerminator(top[i])
    ensures Body(top) == Join(". ", top) + "."
    ensures NoEdgeSpace(Join(". ", top)) ==> NoEdgeSpace(Body(top))
  {
    JoinEnds(". ", top);
    var last := top[|top| - 1];
    assert !IsTerminator(last[|last| - 1]);
  }

  /** The chosen sentences, as `generate_extractive_summary` joins them. */
  function ChosenTexts(sentences: seq<string>, keywords: seq<string>): seq<string> {
    Texts(TopSentences(ScoredSentences(sentences, keywords)))
  }

  /** The chosen texts are one or two of the candidates. */
  lemma ChosenTextsShape(sentences: seq<string>, keywords: seq<string>)
    requires sentences != []
    ensures var top := ChosenTexts(sentences, keywords);
      0 < |top| <= 2 && forall t :: t in top ==> t in sentences
  {
    var scored := ScoredSentences(sentences, keywords);
    ScoredSentencesShape(sentences, keywords);
    var top := TopSentences(scored);
    assert |top| == (if |scored| < 2 then |scored| else 2);
    TopSentencesFrom(scored);
    forall t | t in Texts(top)
      ensures t in sentences
    {
      var i :| 0 <= i < |top| && Texts(top)[i] == t;
      assert top[i] in scored;
      var j :| 0 <= j < |scored| && scored[j] == top[i];
      assert sentences[j] == t;
    }
  }

  /**
   * For candidates without outer whitespace or terminators and a focus
   * phrase, the draft has no outer whitespace, so the corrected cleaning and
   * the written one give the same summary: one that ends with ".", "!" or
   * "?", has no outer whitespace, no double whitespace, and no space in
   * front of a full stop or a comma.
   */
  lemma SummaryFromShape(sentences: seq<string>, focus: string, keywords: seq<string>)
    requires sentences != []
    requires forall c :: c in sentences ==> c != [] && NoEdgeSpace(c) && NoTerminator(c)
    requires FocusShaped(focus)
    ensures var draft := Draft(focus, Body(ChosenTexts(sentences, keywords)));
      SummaryFrom(sentences, focus, keywords) == CleanSummaryTextAsWritten(draft)
    ensures var r := SummaryFrom(sentences, focus, keywords);
      && r != [] && IsTerminator(r[|r| - 1])
      && NoEdgeSpace(r) && NoDoubleSpace(r)
      && NoSpaceBefore(r, '.') && NoSpaceBefore(r, ',')
  {
    var top := ChosenTexts(sentences, keywords);
    ChosenTextsShape(sentences, keywords);
    assert forall i :: 0 <= i < |top| ==> top[i] != [] && NoTerminator(top[i]) by {
      forall i | 0 <= i < |top|
        ensures top[i] != [] && NoTerminator(top[i])
      {
        assert top[i] in top;
      }
    }
    BodyAppendsStop(top);
    var body := Body(top);
    var draft := focus + " " + body;
    assert draft == Draft(focus, body);
    assert draft[0] == 'T' && draft[|draft| - 1] == '.';
    CleanAgrees(draft);
    CleanSummaryTextShape(draft);
    assert !Blank(draft) by {
      assert !IsSpace(draft[0]);
    }
  }

  /**
   * With a candidate sentence the summary is the cleaned draft built from
   * the chosen sentences behind the study focus; it ends with ".", "!" or
   * "?" and has no outer or double whitespace.
   */
  lemma ExtractiveSummaryShape(abstractText: string, title: string, keywords: seq<string>)
    requires Candidates(abstractText) != []
    ensures var r := ExtractiveSummaryWith(abstractText, title, keywords);
      && r == CleanSummaryTextAsWritten(Draft(StudyFocus(title), Body(ChosenTexts(Candidates(abstractText), keywords))))
      && r != [] && IsTerminator(r[|r| - 1]) && NoEdgeSpace(r) && NoDoubleSpace(r)
  {
    ExtractiveSummaryUnfold(abstractText, title, keywords);
    StudyFocusShaped(title);
    CandidatesSummary(abstractText, StudyFocus(title), keywords);
  }

  lemma ExtractiveSummaryUnfold(abstractText: string, title: string, keywords: seq<string>)
    requires Candidates(abstractText) != []
    ensures ExtractiveSummaryWith(abstractText, title, keywords) == SummaryFrom(Candidates(abstractText), StudyFocus(title), keywords)
  {
  }

  /**
   * The extractive summary is never empty: without a candidate it is
   * "This study focuses on <lowercased title>.".
   */
  lemma ExtractiveSummaryNonEmpty(abstractText: string, title: string, keywords: seq<string>)
    ensures ExtractiveSummaryWith(abstractText, title, keywords) != []
    ensures Candidates(abstractText) == [] ==>
      ExtractiveSummaryWith(abstractText, title, keywords) == NoCandidateSummary(title)
  {
    if Candidates(abstractText) != [] {
      ExtractiveSummaryShape(abstractText, title, keywords);
    }
  }

  /** The summary built from the candidates of an abstract behind a focus phrase. */
  lemma CandidatesSummary(abstractText: string, focus: string, keywords: seq<string>)
    requires Candidates(abstractText) != [] && FocusShaped(focus)
    ensures var r := SummaryFrom(Candidates(abstractText), focus, keywords);
      && r == CleanSummaryTextAsWritten(Draft(focus, Body(ChosenTexts(Candidates(abstractText), keywords))))
      && r != [] && IsTerminator(r[|r| - 1]) && NoEdgeSpace(r) && NoDoubleSpace(r)
  {
    LongStrippedProps(Fragments(abstractText), 20);
    SummaryFromShape(Candidates(abstractText), focus, keywords);
  }

  // ---------------------------------------------------------------------
  // Fallback summary

  /** The first fragment whose stripped form is longer than `minLen`, stripped. */
  function FirstLong(fragments: seq<string>, minLen: nat): Option<string> {
    if fragments == [] then None
    else if |Strip(fragments[0])| > minLen then Some(Strip(fragments[0]))
    else FirstLong(fragments[1..], minLen)
  }

  function FallbackSummary(text: string, title: string): string {
    match FirstLong(Fragments(text), 30)
    case Some(first) => "This article discusses " + Lower(title) + ". " + first + "."
    case None => "This article provides information about " + Lower(title) + "."
  }

  method GenerateFallbackSummary(text: string, title: string) returns (summary: string)
    ensures summary == FallbackSummary(text, title)
  {
    var sentences := Fragments(text);
    var firstSentence := "";
    var i := 0;
    while i < |sentences|
      invariant 0 <= i <= |sentences|
      invariant firstSentence == ""
      invariant FirstLong(sentences, 30) == FirstLong(sentences[i..], 30)
    {
      assert sentences[i..][1..] == sentences[i + 1..];
      if |Strip(sentences[i])| > 30 {
        firstSentence := Strip(sentences[i]);
        break;
      }
      i := i + 1;
    }
    if firstSentence != "" {
      summary := "This article discusses " + Lower(title) + ". " + firstSentence + ".";
    } else {
      summary := "This article provides information about " + Lower(title) + ".";
    }
  }

  /** No fragment is chosen exactly when every stripped fragment is at most `minLen` long. */
  lemma {:induction false} FirstLongNone(fragments: seq<string>, minLen: nat)
    ensures FirstLong(fragments, minLen).None? <==>
      forall k :: 0 <= k < |fragments| ==> |Strip(fragments[k])| <= minLen
  {
    if fragments != [] {
      var tail := fragments[1..];
      FirstLongNone(tail, minLen);
      assert forall k :: 0 <= k < |tail| ==> tail[k] == fragments[k + 1];
    }
  }

  /** The chosen fragment is the first whose stripped form is longer than `minLen`, stripped. */
  lemma {:induction false} FirstLongFirst(fragments: seq<string>, minLen: nat)
    ensures FirstLong(fragments, minLen).Some? ==>
      exists k :: 0 <= k < |fragments|
        && FirstLong(fragments, minLen).value == Strip(fragments[k])
        && |Strip(fragments[k])| > minLen
        && forall j :: 0 <= j < k ==> |Strip(fragments[j])| <= minLen
  {
    if fragments != [] && |Strip(fragments[0])| <= minLen {
      var tail := fragments[1..];
      FirstLongFirst(tail, minLen);
      if FirstLong(tail, minLen).Some? {
        var k :| 0 <= k < |tail| && FirstLong(tail, minLen).value == Strip(tail[k])
          && |Strip(tail[k])| > minLen && forall j :: 0 <= j < k ==> |Strip(tail[j])| <= minLen;
        assert tail[k] == fragments[k + 1];
        assert forall j :: 0 < j < k + 1 ==> fragments[j] == tail[j - 1];
      }
    }
  }

  /** The chosen fragment is also the first sentence the same length filter keeps. */
  lemma {:induction false} FirstLongAgrees(fragments: seq<string>, minLen: nat)
    ensures FirstLong(fragments, minLen).Some? ==>
      LongStripped(fragments, minLen) != [] && LongStripped(fragments, minLen)[0] == FirstLong(fragments, minLen).value
  {
    if fragments != [] && |Strip(fragments[0])| <= minLen {
      FirstLongAgrees(fragments[1..], minLen);
    }
  }

  /**
   * With a long fragment the fallback is "This article discusses <title>.
   * <fragment>." for the first one; without, it is "This article provides
   * information about <title>.".
   */
  lemma FallbackSummaryShape(text: string, title: string)
    ensures var first := FirstLong(Fragments(text), 30);
      && (first.None? ==> FallbackSummary(text, title) == "This article provides information about " + Lower(title) + ".")
      && (first.Some? ==> FallbackSummary(text, title) == "This article discusses " + Lower(title) + ". " + first.value + ".")
    ensures forall k :: 0 <= k < |Fragments(text)| && |Strip(Fragments(text)[k])| > 30 ==>
      FirstLong(Fragments(text), 30).Some?
  {
    FirstLongNone(Fragments(text), 30);
  }

  // ---------------------------------------------------------------------
  // Summaries for the retrieved contexts

  /** A retrieved context and the summary attached to it, if any. */
  datatype Context = Context(result: SearchResult, summary: Option<string>)

  /**
   * The summary of one context: the transformer's when there is one, else
   * the extractive one over the keyword list (`ImportantKeywords` in the
   * source).
   */
  function SummaryFor(r: SearchResult, summariser: Option<(string, string) -> string>, keywords: seq<string>): string {
    match summariser
    case Some(summarise) => summarise(r.text, r.metadata.title)
    case None => ExtractiveSummaryWith(r.text, r.metadata.title, keywords)
  }

  /** Every context copied with its summary set. */
  function Summarised(contexts: seq<Context>, summariser: Option<(string, string) -> string>, keywords: seq<string>): seq<Context> {
    if contexts == [] then []
    else
      var n := |contexts| - 1;
      Summarised(contexts[..n], summariser, keywords)
        + [Context(contexts[n].result, Some(SummaryFor(contexts[n].result, summariser, keywords)))]
  }

  /** The loop of `generate_article_summaries`: a copy of each context with its summary added. */
  method GenerateArticleSummaries(contexts: seq<Context>, summariser: Option<(string, string) -> string>)
    returns (enhanced: seq<Context>)
    ensures enhanced == Summarised(contexts, summariser, ImportantKeywords)
  {
    enhanced := [];
    for i := 0 to |contexts|
      invariant enhanced == Summarised(contexts[..i], summariser, ImportantKeywords)
    {
      assert contexts[..i + 1][..i] == contexts[..i];
      var ctx := contexts[i];
      var title := ctx.result.metadata.title;
      var abstractText := ctx.result.text;
      var summary;
      if summariser.Some? {
        summary := summariser.value(abstractText, title);
      } else {
        summary := GenerateExtractiveSummary(abstractText, title);
      }
      enhanced := enhanced + [Context(ctx.result, Some(summary))];
    }
    assert contexts[..|contexts|] == contexts;
  }

  /** One context out per context in, in the same order, each unchanged but for its summary. */
  lemma {:induction false} SummarisedShape(contexts: seq<Context>, summariser: Option<(string, string) -> string>, keywords: seq<string>)
    ensures |Summarised(contexts, summariser, keywords)| == |contexts|
    ensures forall i :: 0 <= i < |contexts| ==>
      && Summarised(contexts, summariser, keywords)[i].result == contexts[i].result
      && Summarised(contexts, summariser, keywords)[i].summary == Some(SummaryFor(contexts[i].result, summariser, keywords))
  {
    if contexts != [] {
      var n := |contexts| - 1;
      var init := contexts[..n];
      SummarisedShape(init, summariser, keywords);
      var before := Summarised(init, summariser, keywords);
      var r := Summarised(contexts, summariser, keywords);
      var last := Context(contexts[n].result, Some(SummaryFor(contexts[n].result, summariser, keywords)));
      assert r == before + [last];
      forall i | 0 <= i < |contexts|
        ensures r[i].result == contexts[i].result
        ensures r[i].summary == Some(SummaryFor(contexts[i].result, summariser, keywords))
      {
        if i < n {
          assert r[i] == before[i] && init[i] == contexts[i];
        } else {
          assert r[i] == last;
        }
      }
    }
  }

  /** Without a summariser every attached summary is the extractive one, which is never empty. */
  lemma {:induction false} SummariesNonEmpty(contexts: seq<Context>, keywords: seq<string>)
    ensures forall c :: c in Summarised(contexts, None, keywords) ==> c.summary.Some? && c.summary.value != []
  {
    if contexts != [] {
      var n := |contexts| - 1;
      SummariesNonEmpty(contexts[..n], keywords);
      SummaryForNonEmpty(contexts[n].result, keywords);
    }
  }

  lemma SummaryForNonEmpty(r: SearchResult, keywords: seq<string>)
    ensures SummaryFor(r, None, keywords) != []
  {
    ExtractiveSummaryNonEmpty(r.text, r.metadata.title, keywords);
  }
}
