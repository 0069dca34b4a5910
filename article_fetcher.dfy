/**
 * `get_pubmed_articles` (retriever.py): search with the cleaned question
 * sorted by relevance, top up with a search sorted by publication date when
 * the first one came back short, drop top-up articles already found, re-rank
 * everything against the original question and keep the best
 * `max_results`. The search service is a function from the request to the
 * articles it returns.
 */
module ArticleFetcher {
  import opened Text
  import opened Sorting
  import opened Articles
  import opened QueryNormalizer
  import opened RelevanceScorer

  datatype SortKey = Relevance | PubDate

  /** One request to the search service: term, maximum count, sort order. */
  datatype SearchCall = SearchCall(term: string, retmax: nat, sort: SortKey)

  /** Three times the wanted count, at most 15. */
  function InitialFetch(maxResults: nat): nat {
    if 3 * maxResults < 15 then 3 * maxResults else 15
  }

  function PmidsOf(articles: seq<Article>): set<string> {
    set a | a in articles :: a.pmid
  }

  /** The articles whose pmid is not in `known`, in order. */
  function DropKnown(recent: seq<Article>, known: set<string>): seq<Article> {
    if recent == [] then []
    else
      var a := recent[|recent| - 1];
      DropKnown(recent[..|recent| - 1], known) + (if a.pmid in known then [] else [a])
  }

  /** The primary results followed by the top-up articles with a new pmid. */
  function Merge(primary: seq<Article>, recent: seq<Article>): seq<Article> {
    primary + DropKnown(recent, PmidsOf(primary))
  }

  /** The first request: the cleaned question, sorted by relevance. */
  function PrimaryCall(term: string, maxResults: nat): SearchCall {
    SearchCall(term, InitialFetch(maxResults), Relevance)
  }

  /** The top-up request, for the shortfall `InitialFetch - found`, sorted by date. */
  function RecentCall(term: string, maxResults: nat, found: nat): SearchCall
    requires found < InitialFetch(maxResults)
  {
    SearchCall(term, InitialFetch(maxResults) - found, PubDate)
  }

  /**
   * Everything collected before re-ranking, for the search term `term`
   * (the cleaned question).
   */
  function Collected(term: string, maxResults: nat, search: SearchCall -> seq<Article>): seq<Article> {
    var primary := search(PrimaryCall(term, maxResults));
    if |primary| < InitialFetch(maxResults) then
      Merge(primary, search(RecentCall(term, maxResults, |primary|)))
    else primary
  }

  /** The requests made, in order. */
  function Calls(term: string, maxResults: nat, search: SearchCall -> seq<Article>): seq<SearchCall> {
    var found := |search(PrimaryCall(term, maxResults))|;
    if found < InitialFetch(maxResults) then [PrimaryCall(term, maxResults), RecentCall(term, maxResults, found)]
    else [PrimaryCall(term, maxResults)]
  }

  /**
   * The articles returned: none when nothing was found, else the best
   * `maxResults` of the re-ranking against the original question `query`.
   */
  function TopArticles(term: string, query: string, maxResults: nat, search: SearchCall -> seq<Article>)
    : seq<ScoredArticle>
  {
    var all := Collected(term, maxResults, search);
    if all == [] then [] else Take(RankByRelevance(all, query), maxResults)
  }

  /**
   * The searches use the cleaned question; the re-ranking uses the question
   * as asked.
   */
  method GetPubmedArticles(query: string, maxResults: nat, search: SearchCall -> seq<Article>)
    returns (top: seq<ScoredArticle>, calls: seq<SearchCall>)
    ensures top == TopArticles(CleanQuery(query), query, maxResults, search)
    ensures calls == Calls(CleanQuery(query), maxResults, search)
  {
    var cleanedQuery := CleanMedicalQuery(query);
    var allArticles;
    allArticles, calls := CollectArticles(cleanedQuery, maxResults, search);
    if allArticles == [] {
      return [], calls;
    }
    var scored := ScoreArticlesByRelevance(allArticles, query);
    top := Take(scored, maxResults);
  }

  /** The two searches and the merge of their results, for the search term `term`. */
  method CollectArticles(term: string, maxResults: nat, search: SearchCall -> seq<Article>)
    returns (allArticles: seq<Article>, calls: seq<SearchCall>)
    ensures allArticles == Collected(term, maxResults, search)
    ensures calls == Calls(term, maxResults, search)
  {
    var initialFetch := if maxResults * 3 < 15 then maxResults * 3 else 15;
    assert initialFetch == InitialFetch(maxResults);
    allArticles := [];
    var primaryCall := SearchCall(term, initialFetch, Relevance);
    calls := [primaryCall];
    var primary := search(primaryCall);
    if primary != [] {
      allArticles := allArticles + primary;
    }
    assert allArticles == primary;
    if |allArticles| < initialFetch {
      var recentCall := SearchCall(term, initialFetch - |allArticles|, PubDate);
      calls := calls + [recentCall];
      var recent := search(recentCall);
      if recent != [] {
        var existingPmids := set a | a in allArticles :: a.pmid;
        allArticles := allArticles + DropKnown(recent, existingPmids);
      } else {
        assert DropKnown(recent, PmidsOf(primary)) == [];
      }
    }
  }

  // ---------------------------------------------------------------------
  // Properties of the funnel

  /** The initial fetch is three times the wanted count, capped at 15. */
  lemma InitialFetchBounds(maxResults: nat)
    ensures InitialFetch(maxResults) <= 15 && InitialFetch(maxResults) <= 3 * maxResults
    ensures maxResults <= 5 ==> InitialFetch(maxResults) == 3 * maxResults
    ensures maxResults >= 5 ==> InitialFetch(maxResults) == 15
  {
  }

  /** The top-up keeps exactly the articles with a new pmid. */
  lemma {:induction false} DropKnownExact(recent: seq<Article>, known: set<string>)
    ensures forall a :: a in DropKnown(recent, known) <==> a in recent && a.pmid !in known
    ensures |DropKnown(recent, known)| <= |recent|
  {
    if recent != [] {
      var init := recent[..|recent| - 1];
      DropKnownExact(init, known);
      assert recent == init + [recent[|recent| - 1]];
    }
  }

  predicate DistinctPmids(articles: seq<Article>) {
    forall i, j :: 0 <= i < j < |articles| ==> articles[i].pmid != articles[j].pmid
  }

  lemma {:induction false} DropKnownDistinct(recent: seq<Article>, known: set<string>)
    requires DistinctPmids(recent)
    ensures DistinctPmids(DropKnown(recent, known))
  {
    if recent != [] {
      var init := recent[..|recent| - 1];
      var last := recent[|recent| - 1];
      assert DistinctPmids(init) by {
        forall i, j | 0 <= i < j < |init|
          ensures init[i].pmid != init[j].pmid
        {
          assert init[i] == recent[i] && init[j] == recent[j];
        }
      }
      DropKnownDistinct(init, known);
      DropKnownExact(init, known);
      var d := DropKnown(init, known);
      forall i | 0 <= i < |d|
        ensures d[i].pmid != last.pmid
      {
        assert d[i] in d;
        var k :| 0 <= k < |init| && init[k] == d[i];
        assert recent[k] == d[i];
      }
    }
  }

  /**
   * The merge keeps the primary results first, unchanged, and adds exactly
   * the top-up articles whose pmid is not among them.
   */
  lemma MergeShape(primary: seq<Article>, recent: seq<Article>)
    ensures var all := Merge(primary, recent);
      && |primary| <= |all| <= |primary| + |recent|
      && all[..|primary|] == primary
      && (forall i :: |primary| <= i < |all| ==> all[i].pmid !in PmidsOf(primary))
      && (forall a :: a in all[|primary|..] <==> a in recent && a.pmid !in PmidsOf(primary))
  {
    var all := Merge(primary, recent);
    var extra := DropKnown(recent, PmidsOf(primary));
    DropKnownExact(recent, PmidsOf(primary));
    assert all[|primary|..] == extra;
    forall i | |primary| <= i < |all|
      ensures all[i].pmid !in PmidsOf(primary)
    {
      assert all[i] == extra[i - |primary|];
      assert extra[i - |primary|] in extra;
    }
  }

  /** Merging two lists with distinct pmids gives a list with distinct pmids. */
  lemma MergeDistinct(primary: seq<Article>, recent: seq<Article>)
    requires DistinctPmids(primary) && DistinctPmids(recent)
    ensures DistinctPmids(Merge(primary, recent))
  {
    var all := Merge(primary, recent);
    var extra := DropKnown(recent, PmidsOf(primary));
    DropKnownDistinct(recent, PmidsOf(primary));
    DropKnownExact(recent, PmidsOf(primary));
    forall i, j | 0 <= i < j < |all|
      ensures all[i].pmid != all[j].pmid
    {
      if j >= |primary| {
        assert all[j] == extra[j - |primary|];
        assert extra[j - |primary|] in extra;
        if i < |primary| {
          assert all[i] == primary[i];
          assert primary[i].pmid in PmidsOf(primary);
        } else {
          assert all[i] == extra[i - |primary|];
        }
      } else {
        assert all[i] == primary[i] && all[j] == primary[j];
      }
    }
  }

  /**
   * The primary results come first, unchanged. The top-up search counts only
   * when the primary one fell short, and then it adds exactly its articles
   * with a pmid the primary results do not have.
   */
  lemma CollectedShape(term: string, maxResults: nat, search: SearchCall -> seq<Article>)
    ensures var primary := search(PrimaryCall(term, maxResults));
      var all := Collected(term, maxResults, search);
      && all[..|primary|] == primary
      && (|primary| >= InitialFetch(maxResults) ==> all == primary)
      && (|primary| < InitialFetch(maxResults) ==>
            var recent := search(RecentCall(term, maxResults, |primary|));
            && |all| <= |primary| + |recent|
            && (forall a :: a in all[|primary|..] <==> a in recent && a.pmid !in PmidsOf(primary)))
  {
    var primary := search(PrimaryCall(term, maxResults));
    if |primary| < InitialFetch(maxResults) {
      MergeShape(primary, search(RecentCall(term, maxResults, |primary|)));
    }
  }

  /** When each search returns distinct pmids, the collected articles do too. */
  lemma CollectedDistinct(term: string, maxResults: nat, search: SearchCall -> seq<Article>)
    requires DistinctPmids(search(PrimaryCall(term, maxResults)))
    requires InitialFetch(maxResults) > |search(PrimaryCall(term, maxResults))| ==>
      DistinctPmids(search(RecentCall(term, maxResults, |search(PrimaryCall(term, maxResults))|)))
    ensures DistinctPmids(Collected(term, maxResults, search))
  {
    var primary := search(PrimaryCall(term, maxResults));
    if |primary| < InitialFetch(maxResults) {
      MergeDistinct(primary, search(RecentCall(term, maxResults, |primary|)));
    }
  }

  /**
   * The requests: always the relevance search for the cleaned question with
   * the initial fetch size; then, only if that gave fewer articles, a
   * publication-date search for the shortfall alone.
   */
  lemma CallsShape(term: string, maxResults: nat, search: SearchCall -> seq<Article>)
    ensures var calls := Calls(term, maxResults, search);
      var found := |search(PrimaryCall(term, maxResults))|;
      && calls[0] == SearchCall(term, InitialFetch(maxResults), Relevance)
      && (|calls| == 2 <==> found < InitialFetch(maxResults))
      && |calls| <= 2
      && (|calls| == 2 ==>
            calls[1].term == term && calls[1].sort == PubDate
            && calls[1].retmax + found == InitialFetch(maxResults)
            && calls[1].retmax > 0)
  {
  }

  /** The best `maxResults` of the re-ranking of `all`, as the funnel returns them. */
  lemma {:induction false} TakeRankedShape(all: seq<Article>, query: string, maxResults: nat)
    requires all != []
    ensures var top := Take(RankByRelevance(all, query), maxResults);
      && |top| == (if maxResults < |all| then maxResults else |all|)
      && top == RankByRelevance(all, query)[..|top|]
      && SortedDesc(top, ScoreOf)
      && (forall x :: x in top ==> x.article in all && x.score == QueryScore(x.article, query))
  {
    var ranked := RankByRelevance(all, query);
    RankByRelevanceCorrect(all, query);
    var top := Take(ranked, maxResults);
    forall i, j | 0 <= i < j < |top|
      ensures ScoreOf(top[i]) >= ScoreOf(top[j])
    {
      assert top[i] == ranked[i] && top[j] == ranked[j];
    }
    forall x | x in top
      ensures x.article in all && x.score == QueryScore(x.article, query)
    {
      var k :| 0 <= k < |top| && top[k] == x;
      assert ranked[k] == x;
    }
  }

  /**
   * Nothing found gives no articles; otherwise the result is the first
   * `min(maxResults, found)` articles of the re-ranking, best first, each
   * with its own score.
   */
  lemma TopArticlesShape(term: string, query: string, maxResults: nat, search: SearchCall -> seq<Article>)
    ensures var all := Collected(term, maxResults, search);
      var top := TopArticles(term, query, maxResults, search);
      && (all == [] ==> top == [])
      && |top| == (if maxResults < |all| then maxResults else |all|)
      && top == RankByRelevance(all, query)[..|top|]
      && SortedDesc(top, ScoreOf)
      && (forall x :: x in top ==> x.article in all && x.score == QueryScore(x.article, query))
  {
    var all := Collected(term, maxResults, search);
    if all != [] {
      TakeRankedShape(all, query, maxResults);
    }
  }
}
