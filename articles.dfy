/**
 * The article record every stage passes along: the dictionary with keys
 * `title`, `abstract`, `url` and `pmid` that the PubMed parser builds, and
 * the same record with the `relevance_score` the re-ranker adds.
 */
module Articles {
  import opened Text

  datatype Article = Article(title: string, abstractText: string, url: string, pmid: string)

  /**
   * An article with its relevance score. Every weight in the source's
   * scoring formula is a multiple of one half, so the score is kept exactly
   * as an integer number of half-points: `score` is twice the source's
   * floating-point `relevance_score`.
   */
  datatype ScoredArticle = ScoredArticle(article: Article, score: int)

  function ScoreOf(s: ScoredArticle): int {
    s.score
  }

  /** The title used when a record has none. */
  const NoTitle: string := "No title available"

  /** The abstract used when a record has none, or only empty sections. */
  const NoAbstract: string := "No abstract available"

  /** An article's web address is this prefix followed by its PubMed id. */
  const PubmedUrlBase: string := "https://pubmed.ncbi.nlm.nih.gov/"

  /** The placeholders carry no surrounding whitespace. */
  lemma PlaceholdersStripped()
    ensures Strip(NoTitle) == NoTitle
    ensures Strip(NoAbstract) == NoAbstract
  {
    assert NoEdgeSpace(NoTitle);
    StripNoEdge(NoTitle);
    assert NoEdgeSpace(NoAbstract);
    StripNoEdge(NoAbstract);
  }
}
