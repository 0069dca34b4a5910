/**
 * The re-ranker of retriever.py: `calculate_relevance_score` scores one
 * article against the question, and `score_articles_by_relevance` scores
 * every fetched article and sorts them best first. Scores are in
 * half-points (see `Articles.ScoredArticle`).
 */
module RelevanceScorer {
  import opened Text
  import opened Sorting
  import opened Articles
  import opened QueryNormalizer

  /** The placeholder abstract as it looks after lowercasing. */
  const NoAbstractLower: string := "no abstract available"

  lemma NoAbstractLowered()
    ensures Lower(NoAbstract) == NoAbstractLower
  {
    forall i | 0 <= i < |NoAbstract|
      ensures Lower(NoAbstract)[i] == NoAbstractLower[i]
    {
    }
  }

  /** The distinct whitespace-separated words of `s`. */
  function WordSet(s: string): set<string> {
    set w | w in Split(s)
  }

  /** Whole-question match: 10 points in the title, otherwise 5 in the abstract. */
  function PhraseBonus(query: string, title: string, abstractText: string): int {
    if Contains(title, query) then 20 else if Contains(abstractText, query) then 10 else 0
  }

  /** One medical term: 3 points in the title, otherwise 1.5 in the abstract. */
  function TermBonus(term: string, title: string, abstractText: string): int {
    if Contains(title, term) then 6 else if Contains(abstractText, term) then 3 else 0
  }

  function TermsBonus(terms: seq<string>, title: string, abstractText: string): int {
    if terms == [] then 0
    else TermsBonus(terms[..|terms| - 1], title, abstractText) + TermBonus(terms[|terms| - 1], title, abstractText)
  }

  /** One point for an abstract that is present and not the placeholder. */
  function CompletenessBonus(abstractText: string): int {
    if abstractText != "" && abstractText != NoAbstractLower then 2 else 0
  }

  /**
   * The score of `calculate_relevance_score`, doubled: phrase bonus, term
   * bonuses, 2 points per question word among the title's words, 0.5 per
   * question word among the abstract's words, the completeness bonus and the
   * constant 0.5 recency bonus.
   */
  function RelevanceScore(a: Article, queryWords: set<string>, terms: seq<string>, fullQuery: string): int {
    var title := Lower(a.title);
    var abstractText := Lower(a.abstractText);
    PhraseBonus(fullQuery, title, abstractText)
      + TermsBonus(terms, title, abstractText)
      + 4 * |queryWords * WordSet(title)|
      + |queryWords * WordSet(abstractText)|
      + CompletenessBonus(abstractText)
      + 1
  }

  method CalculateRelevanceScore(a: Article, queryWords: set<string>, terms: seq<string>, fullQuery: string)
    returns (score: int)
    ensures score == RelevanceScore(a, queryWords, terms, fullQuery)
  {
    var title := Lower(a.title);
    var abstractText := Lower(a.abstractText);
    score := 0;
    if Contains(title, fullQuery) {
      score := score + 20;
    } else if Contains(abstractText, fullQuery) {
      score := score + 10;
    }
    var termPoints := AddTermBonuses(terms, title, abstractText);
    score := score + termPoints;
    score := score + 4 * |queryWords * WordSet(title)|;
    score := score + |queryWords * WordSet(abstractText)|;
    if abstractText != "" && abstractText != NoAbstractLower {
      score := score + 2;
    }
    score := score + 1;
  }

  /** The term loop of `calculate_relevance_score`: the points the terms earn. */
  method AddTermBonuses(terms: seq<string>, title: string, abstractText: string) returns (points: int)
    ensures points == TermsBonus(terms, title, abstractText)
  {
    points := 0;
    for i := 0 to |terms|
      invariant points == TermsBonus(terms[..i], title, abstractText)
    {
      assert terms[..i + 1][..i] == terms[..i];
      if Contains(title, terms[i]) {
        points := points + 6;
      } else if Contains(abstractText, terms[i]) {
        points := points + 3;
      }
    }
    assert terms[..|terms|] == terms;
  }

  // ---------------------------------------------------------------------
  // Properties of the score

  lemma {:induction false} SubsetCard(s: set<string>, t: set<string>)
    requires s <= t
    ensures |s| <= |t|
    decreases t
  {
    if s != {} {
      var x :| x in s;
      SubsetCard(s - {x}, t - {x});
    }
  }

  lemma {:induction false} TermsBonusBounds(terms: seq<string>, title: string, abstractText: string)
    ensures 0 <= TermsBonus(terms, title, abstractText) <= 6 * |terms|
  {
    if terms != [] {
      TermsBonusBounds(terms[..|terms| - 1], title, abstractText);
    }
  }

  /**
   * Every article scores at least the 0.5 recency bonus, and at most the sum
   * of all bonuses: 10 + 3 per term + 2.5 per question word + 1 + 0.5.
   */
  lemma ScoreBounds(a: Article, queryWords: set<string>, terms: seq<string>, fullQuery: string)
    ensures 1 <= RelevanceScore(a, queryWords, terms, fullQuery)
    ensures RelevanceScore(a, queryWords, terms, fullQuery) <= 20 + 6 * |terms| + 5 * |queryWords| + 3
  {
    TermsBonusBounds(terms, Lower(a.title), Lower(a.abstractText));
    SubsetCard(queryWords * WordSet(Lower(a.title)), queryWords);
    SubsetCard(queryWords * WordSet(Lower(a.abstractText)), queryWords);
  }

  /** An article whose title is the question itself gets the full phrase bonus. */
  lemma TitleIsQuery(a: Article, queryWords: set<string>, terms: seq<string>, fullQuery: string)
    requires Lower(a.title) == fullQuery
    ensures RelevanceScore(a, queryWords, terms, fullQuery) >= 21
  {
    ContainsSelf(fullQuery);
    TermsBonusBounds(terms, Lower(a.title), Lower(a.abstractText));
  }

  /** The placeholder abstract earns no completeness bonus. */
  lemma PlaceholderAbstract(a: Article)
    requires a.abstractText == NoAbstract
    ensures CompletenessBonus(Lower(a.abstractText)) == 0
  {
    NoAbstractLowered();
  }

  lemma {:induction false} TermsBonusAppend(s: seq<string>, t: seq<string>, title: string, abstractText: string)
    ensures TermsBonus(s + t, title, abstractText) == TermsBonus(s, title, abstractText) + TermsBonus(t, title, abstractText)
    decreases |t|
  {
    if t == [] {
      assert s + t == s;
    } else {
      var init := t[..|t| - 1];
      assert (s + t)[..|s + t| - 1] == s + init;
      TermsBonusAppend(s, init, title, abstractText);
    }
  }

  /**
   * The terms come from a set, whose order Python leaves unspecified; the
   * score does not depend on it: any rearrangement of the terms gives the
   * same bonus.
   */
  lemma {:induction false} TermsBonusOrderFree(s: seq<string>, t: seq<string>, title: string, abstractText: string)
    requires multiset(s) == multiset(t)
    ensures TermsBonus(s, title, abstractText) == TermsBonus(t, title, abstractText)
    decreases |s|
  {
    if s != [] {
      var x := s[|s| - 1];
      var init := s[..|s| - 1];
      assert s == init + [x];
      assert x in multiset(t);
      var k :| 0 <= k < |t| && t[k] == x;
      var rest := t[..k] + t[k + 1..];
      assert t == t[..k] + [x] + t[k + 1..];
      assert multiset(t) == multiset(t[..k]) + multiset([x]) + multiset(t[k + 1..]);
      assert multiset(s) == multiset(init) + multiset([x]);
      assert multiset(rest) == multiset(t[..k]) + multiset(t[k + 1..]);
      assert multiset(init) == multiset(s) - multiset{x};
      assert multiset(rest) == multiset(t) - multiset{x};
      TermsBonusOrderFree(init, rest, title, abstractText);
      TermsBonusAppend(t[..k] + [x], t[k + 1..], title, abstractText);
      TermsBonusAppend(t[..k], [x], title, abstractText);
      TermsBonusAppend(t[..k], t[k + 1..], title, abstractText);
      TermsBonusAppend(init, [x], title, abstractText);
    }
  }

  // ---------------------------------------------------------------------
  // Ranking

  /** Each article paired with its score, in input order. */
  function ScoreAll(articles: seq<Article>, queryWords: set<string>, terms: seq<string>, fullQuery: string)
    : seq<ScoredArticle>
  {
    seq(|articles|, i requires 0 <= i < |articles| =>
      ScoredArticle(articles[i], RelevanceScore(articles[i], queryWords, terms, fullQuery)))
  }

  /** The score of an article against a question as the re-ranker computes it. */
  function QueryScore(a: Article, query: string): int {
    var queryLower := Lower(query);
    RelevanceScore(a, WordSet(queryLower), MedicalTerms(queryLower), queryLower)
  }

  /** All articles with their scores against the question, in input order. */
  function Scored(articles: seq<Article>, query: string): seq<ScoredArticle> {
    var queryLower := Lower(query);
    ScoreAll(articles, WordSet(queryLower), MedicalTerms(queryLower), queryLower)
  }

  /** The articles with scores, best first, ties in input order. */
  function RankByRelevance(articles: seq<Article>, query: string): seq<ScoredArticle> {
    SortDesc(Scored(articles, query), ScoreOf)
  }

  method ScoreArticlesByRelevance(articles: seq<Article>, originalQuery: string)
    returns (ranked: seq<ScoredArticle>)
    ensures ranked == RankByRelevance(articles, originalQuery)
  {
    var queryLower := Lower(originalQuery);
    var queryWords := WordSet(queryLower);
    var terms := ExtractMedicalTerms(queryLower);
    var scored := ScoreEach(articles, queryWords, terms, queryLower);
    ranked := SortDesc(scored, ScoreOf);
  }

  /** The scoring loop of `score_articles_by_relevance`: each article with its score, in input order. */
  method ScoreEach(articles: seq<Article>, queryWords: set<string>, terms: seq<string>, fullQuery: string)
    returns (scored: seq<ScoredArticle>)
    ensures scored == ScoreAll(articles, queryWords, terms, fullQuery)
  {
    scored := [];
    for i := 0 to |articles|
      invariant |scored| == i
      invariant forall k :: 0 <= k < i ==> scored[k] == ScoreAll(articles, queryWords, terms, fullQuery)[k]
    {
      var score := CalculateRelevanceScore(articles[i], queryWords, terms, fullQuery);
      scored := scored + [ScoredArticle(articles[i], score)];
    }
  }

  /**
   * The re-ranking keeps every article exactly once, attaches to each its
   * own score, orders them by non-increasing score, and leaves articles with
   * equal scores in the order they were fetched.
   */
  lemma RankByRelevanceCorrect(articles: seq<Article>, query: string)
    ensures var r := RankByRelevance(articles, query);
      && |r| == |articles|
      && SortedDesc(r, ScoreOf)
      && multiset(r) == multiset(Scored(articles, query))
      && (forall x :: x in r ==> x.article in articles && x.score == QueryScore(x.article, query))
      && (forall i :: 0 <= i < |articles| ==> ScoredArticle(articles[i], QueryScore(articles[i], query)) in r)
      && (forall v :: WithKey(r, ScoreOf, v) == WithKey(Scored(articles, query), ScoreOf, v))
  {
    var queryLower := Lower(query);
    var queryWords, terms := WordSet(queryLower), MedicalTerms(queryLower);
    assert Scored(articles, query) == ScoreAll(articles, queryWords, terms, queryLower);
    assert forall a :: QueryScore(a, query) == RelevanceScore(a, queryWords, terms, queryLower);
    RankCorrect(articles, queryWords, terms, queryLower);
  }

  /** `RankByRelevanceCorrect` for any question words, terms and lowered question. */
  lemma RankCorrect(articles: seq<Article>, queryWords: set<string>, terms: seq<string>, fullQuery: string)
    ensures var s := ScoreAll(articles, queryWords, terms, fullQuery);
      var r := SortDesc(s, ScoreOf);
      && |r| == |articles|
      && SortedDesc(r, ScoreOf)
      && multiset(r) == multiset(s)
      && (forall x :: x in r ==> x.article in articles && x.score == RelevanceScore(x.article, queryWords, terms, fullQuery))
      && (forall i :: 0 <= i < |articles| ==>
            ScoredArticle(articles[i], RelevanceScore(articles[i], queryWords, terms, fullQuery)) in r)
      && (forall v :: WithKey(r, ScoreOf, v) == WithKey(s, ScoreOf, v))
  {
    var s := ScoreAll(articles, queryWords, terms, fullQuery);
    var r := SortDesc(s, ScoreOf);
    SortDescCorrect(s, ScoreOf);
    forall x | x in r
      ensures x.article in articles && x.score == RelevanceScore(x.article, queryWords, terms, fullQuery)
    {
      assert x in multiset(s);
      var k :| 0 <= k < |s| && s[k] == x;
    }
    forall i | 0 <= i < |articles|
      ensures ScoredArticle(articles[i], RelevanceScore(articles[i], queryWords, terms, fullQuery)) in r
    {
      assert s[i] in multiset(r);
    }
  }
}
