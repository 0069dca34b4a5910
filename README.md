# MedQuery retrieval and summary core, in Dafny

This project models the deterministic core of MedQuery, a medical
literature assistant. A clinical question goes through a three-stage
funnel:

- **Retrieval** (`retriever.py`). The question is turned into a PubMed
  search term (`clean_medical_query`). One or two searches are run and their
  results merged without repeating a PubMed id (`get_pubmed_articles`).
  The searches retry on rate limiting with exponential back-off
  (`make_request_with_retry`). Each fetched record becomes an article with a
  title, an abstract built from its labelled sections, a PubMed id and a web
  address (`parse_pubmed_xml`). Every article is scored against the question
  with a weighted lexical formula (`calculate_relevance_score`,
  `extract_medical_terms`). The articles are stably sorted best first
  (`score_articles_by_relevance`) and the best `max_results` are kept.
- **Indexing** (`embedder.py`). The articles become two parallel lists, the
  texts to embed and the metadata to show (`create_faiss_index`). The
  nearest-neighbour answer, a list of (distance, position) pairs, becomes
  ranked results with similarity `1 / (1 + d)` (`search_similar_documents`).
- **Answer text** (`qa_chain.py`). Each retrieved context gets a summary
  (`generate_article_summaries`). Without a transformer the summary is
  extractive: the two best-scoring sentences behind a study-focus phrase
  (`generate_extractive_summary`, `extract_study_focus`), cleaned by
  `clean_summary_text`. `generate_fallback_summary` is the simple
  fallback. The answer formatters append numbered citation blocks
  (`format_answer_with_summaries`, `generate_fallback_answer_with_summaries`).

Each loop of the source is a method with loop invariants. Each method is
proved equal to a specification function. The lemmas state what the
source promises about those functions.

Modules, one per file:

| file | module | models |
|---|---|---|
| wrappers.dfy | Wrappers | `Option` |
| text.dfy | Text | the Python string operations used: `lower`, `upper`, `in`, `replace`, `strip`, `split`, `join`, `re.sub(r'\s+', ' ')`, `re.split(r'[.!?]+')`, `re.search(r'\d+')`, `str(int)` |
| sorting.dfy | Sorting | `list.sort(key=..., reverse=True)`, a stable descending sort |
| articles.dfy | Articles | the article record and its scored copy |
| query_normalizer.dfy | QueryNormalizer | `clean_medical_query`, `extract_medical_terms` |
| relevance_scorer.dfy | RelevanceScorer | `calculate_relevance_score`, `score_articles_by_relevance` |
| article_fetcher.dfy | ArticleFetcher | `get_pubmed_articles` |
| http_retry.dfy | HttpRetry | `make_request_with_retry` |
| record_parser.dfy | RecordParser | the record assembly of `parse_pubmed_xml` |
| embedder.dfy | Embedder | `create_faiss_index`, `search_similar_documents` |
| summary_text.dfy | SummaryText | `clean_summary_text` |
| summarizer.dfy | Summarizer | `extract_study_focus`, `generate_extractive_summary`, `generate_fallback_summary`, `generate_article_summaries` |
| answers.dfy | Answers | `format_answer_with_summaries`, `generate_fallback_answer_with_summaries` |

Representation choices:

- **Scores.** Every weight of the relevance formula is a multiple of 0.5.
  Scores are therefore exact integers counting half-points: the model's
  score is twice the source's `relevance_score`.
- **Similarity.** It is computed over `real`, an idealisation of the
  floating-point value.
- **Character classes.** Lower- and upper-casing, `isupper`, `\s` and `\d`
  are their ASCII versions. Whitespace is the ASCII range Python's
  `str.isspace` accepts: 9 to 13 and 28 to 32.
- **Outside services.** The search service, the HTTP server, the parsed XML
  tree, the transformer summariser and the vector index are inputs: a
  function, a list or an optional function.

`clean_medical_query` decides whether to drop stopwords from the word
count *before* filtering (`len(words) <= 3` keeps them all), not from the
count the result would have.

The operations follow the code as written, including the two slips listed
under "## Findings" that change results. `CleanQuery` (and so every search
`GetPubmedArticles` runs) removes the lead phrases in the listed order.
`SearchResults` keeps the index's -1 filler and reads it as the last
document. The corrected versions, `CleanQueryIntended` and `Shaped`, appear
only in the lemmas that compare them with the code. One operation uses a
corrected definition: the extractive summariser cleans its draft with
`CleanSummaryText`, which strips first. `Summarizer.SummaryFromShape`
proves this equal to `clean_summary_text` as written on every draft the
summariser builds, so the summaries are the source's.

## Model

| member | source | states |
|---|---|---|
| QueryNormalizer.CleanMedicalQuery | retriever.py:258-289 | the search term is `CleanQuery` of the question: lowercased and stripped, lead phrases removed in the listed order, stopwords dropped only above three words, with the six-word fallback |
| QueryNormalizer.RemoveLeadPhrases | retriever.py:273-275 | the replace loop removes every occurrence of each phrase in turn, in list order |
| QueryNormalizer.SearchTermShape | retriever.py:279-289 | with at least two surviving words the term is exactly those words, stopwords gone only if there were more than three before filtering; otherwise it is the fallback, of at most six words; either way its words joined by single spaces |
| QueryNormalizer.KeptWordsShape | retriever.py:278-282 | up to three words are all kept; above three, no stopword survives; joining and re-splitting gives back the kept words |
| QueryNormalizer.FallbackShape | retriever.py:285-287 | the fallback has at most six words, joined by single spaces |
| QueryNormalizer.FallbackMayStayShort | retriever.py:285-289 | the fallback does not guarantee two words: a one-word lowercase question of under six letters comes back unchanged, as one word |
| QueryNormalizer.LongestFirstRemovesEach | retriever.py:274-275 | when the phrases are removed longest first, each phrase taken alone is removed entirely |
| QueryNormalizer.LeadPhrasesRemoved | retriever.py:265-275 | in the longest-first order (`LeadPhrases`, used only by `CleanQueryIntended`) every lead phrase, asked alone, is removed entirely |
| QueryNormalizer.LeadPhrasesReordered | retriever.py:265-271 | the longest-first list (`LeadPhrases`, used only by `CleanQueryIntended`) holds exactly the seventeen distinct phrases of the source's list |
| QueryNormalizer.AsWrittenLeavesFragment | retriever.py:265-275 | in the listed order, any question "how does" + t with no "h" in t loses only "how do", keeping "es" + t |
| QueryNormalizer.IntendedRemovesHowDoes | retriever.py:265-275 | longest first, the same question loses "how does" whole, leaving t |
| QueryNormalizer.HowDoesQuestionAsWritten | retriever.py:258-289 | as written, "how does metformin work" is searched as "es metformin work" |
| QueryNormalizer.HowDoesQuestionIntended | retriever.py:258-289 | longest first, the same question is searched as "metformin work" |
| QueryNormalizer.ExtractMedicalTerms | retriever.py:179-213 | the terms are the dictionary phrases found in the query, then the dictionary words among its tokens, without duplicates |
| QueryNormalizer.FindPhrases | retriever.py:195-198 | the phrases loop collects, in list order, the phrases occurring in the query |
| QueryNormalizer.FindWords | retriever.py:208-211 | the words loop collects, in list order, the words that are whitespace tokens of the query |
| QueryNormalizer.Dedup | retriever.py:213 | the result has no duplicates and has the same members as its input |
| QueryNormalizer.MedicalTermsExact | retriever.py:184-213 | no duplicates, and a term is reported exactly when it is a dictionary phrase occurring in the query or a dictionary word that is one of its tokens |
| RelevanceScorer.CalculateRelevanceScore | retriever.py:135-177 | the accumulated score is `RelevanceScore`: phrase bonus 10 or else 5, per-term 3 or else 1.5, 2 per shared title word, 0.5 per shared abstract word, 1 for a real abstract, 0.5 always |
| RelevanceScorer.AddTermBonuses | retriever.py:151-155 | the term loop adds 3 for a term in the title, else 1.5 for one in the abstract, per term |
| RelevanceScorer.ScoreBounds | retriever.py:142-177 | every score is at least 0.5 and at most 10 + 3 per term + 2.5 per query word + 1.5 |
| RelevanceScorer.TitleIsQuery | retriever.py:145-146 | an article whose lowercased title is the query gets the full 10-point phrase bonus, so scores at least 10.5 |
| RelevanceScorer.PlaceholderAbstract | retriever.py:169-171 | the placeholder abstract "No abstract available" earns no completeness bonus |
| RelevanceScorer.TermsBonusOrderFree | retriever.py:151-155 | the term bonus does not depend on the order of the terms, which come from a set |
| RelevanceScorer.ScoreArticlesByRelevance | retriever.py:110-133 | the result is the scored articles stably sorted best first (`RankByRelevance`) |
| RelevanceScorer.ScoreEach | retriever.py:124-128 | the loop pairs each article, in input order, with its own score |
| RelevanceScorer.RankByRelevanceCorrect | retriever.py:116-133 | same length, non-increasing scores, a permutation of the scored copies, each article kept with its own score, equal scores in input order |
| RelevanceScorer.RankCorrect | retriever.py:124-133 | the same for any query words, terms and lowered query |
| Sorting.SortDescCorrect | retriever.py:131 | the sort is non-increasing in the key, a permutation, and stable for every key value |
| Sorting.SortDescSorted | retriever.py:131 | the sorted list is non-increasing in the key |
| Sorting.SortDescStable | retriever.py:131 | the elements with any one key keep their input order |
| ArticleFetcher.GetPubmedArticles | retriever.py:7-57 | the articles are `TopArticles` of the cleaned question and the calls are `Calls`: searches use the cleaned question, re-ranking the question as asked |
| ArticleFetcher.CollectArticles | retriever.py:20-39 | the collected articles and the requests made are `Collected` and `Calls` |
| ArticleFetcher.InitialFetchBounds | retriever.py:18 | the first fetch size is `min(3 * max_results, 15)` |
| ArticleFetcher.DropKnownExact | retriever.py:36-37 | the top-up keeps exactly the articles whose pmid is not already known, never more than it had |
| ArticleFetcher.MergeShape | retriever.py:24-38 | the primary results come first unchanged; what follows is exactly the top-up articles with a new pmid |
| ArticleFetcher.MergeDistinct | retriever.py:35-38 | merging two lists with distinct pmids gives distinct pmids |
| ArticleFetcher.CollectedShape | retriever.py:23-39 | the top-up counts only when the primary search fell short, and then adds exactly its articles with a new pmid |
| ArticleFetcher.CollectedDistinct | retriever.py:35-38 | when each search returns distinct pmids, so does the collection |
| ArticleFetcher.CallsShape | retriever.py:24-33 | always one relevance search of the initial size; a second, publication-date search only after a shortfall, asking for the shortfall alone |
| ArticleFetcher.TakeRankedShape | retriever.py:47-51 | the kept articles are the first `min(max_results, n)` of the re-ranking, best first, each with its own score |
| ArticleFetcher.TopArticlesShape | retriever.py:41-57 | nothing found gives nothing; otherwise a prefix of the re-ranking of length `min(max_results, n)` |
| HttpRetry.MakeRequestWithRetry | retriever.py:215-256 | the result and the waits slept are those of `Retry` over the scripted outcomes |
| HttpRetry.RetryFromShape | retriever.py:219-256 | a run from a given attempt uses at least one more attempt, no more than allowed, retries only retryable outcomes, and stops at a decisive one or the last allowed one |
| HttpRetry.RetryShape | retriever.py:219-256 | at most `max_retries` attempts, none only when zero are allowed; every retried attempt was a 429 or an error mentioning 429 |
| HttpRetry.RetryFromResult | retriever.py:228-254 | a run's result is decided by its last attempt alone |
| HttpRetry.RetryResult | retriever.py:228-254 | a body comes back only from a successful last attempt whose body decodes when JSON is asked for; a final 429, another error or bad JSON gives None |
| HttpRetry.ExhaustedRetries | retriever.py:228-233 | when every attempt is rate-limited, all attempts are used and the result is None |
| HttpRetry.DecisiveFirstAttempt | retriever.py:235-254 | a first outcome that is not retryable ends the run after one attempt with no wait |
| HttpRetry.BackoffsSchedule | retriever.py:221-224 | one wait per attempt after the first, the k-th of 2^k seconds |
| HttpRetry.DefaultBackoffs | retriever.py:215-224 | with the default three attempts the waits are 2 and 4 seconds |
| RecordParser.ParsePubmedXml | retriever.py:291-359 | the articles are `ParsedArticles`: one per record, none for a document that fails to parse |
| RecordParser.AssembleAbstract | retriever.py:312-340 | the section loop and the fallbacks give `AbstractOf` the record |
| RecordParser.BuildArticle | retriever.py:304-349 | one record gives `ArticleOf` it: title, abstract, address and pmid |
| RecordParser.AbstractPartsShape | retriever.py:316-327 | at most one non-empty part per section, one for each section with text, none when no section has text |
| RecordParser.LabelledSection | retriever.py:324-325 | a labelled section with text contributes "Label: text" |
| RecordParser.AbstractShape | retriever.py:329-340 | the abstract is never empty and has no outer whitespace; with no usable section and no Abstract element it is "No abstract available" |
| RecordParser.ArticleFields | retriever.py:304-349 | the address is the PubMed prefix followed by the pmid; the pmid is the record's, else the searched id at that position, else "Unknown"; a missing title is "No title available" |
| RecordParser.AssembleAllShape | retriever.py:302-349 | one article per record, the k-th built from the k-th record |
| RecordParser.ParsedArticlesShape | retriever.py:297-359 | a document that fails to parse gives no articles; otherwise one per record, in order, each with a non-empty abstract |
| Embedder.CreateFaissIndex | embedder.py:19-86 | the index and the lists are `IndexOf` the documents |
| Embedder.MapDocsShape | embedder.py:39-54 | one entry per document, the i-th derived from the i-th document |
| Embedder.IndexShape | embedder.py:29-82 | an index exists exactly when there are documents and encoding succeeded, else both lists are empty; the lists run parallel to the documents and each text starts with its stored title |
| Embedder.TitleStartsText | embedder.py:43-47 | each indexed text starts with the stored title |
| Embedder.IndexTextShape | embedder.py:40-54 | "title. abstract" exactly when the stripped abstract is non-empty and not the placeholder, else the title alone; url and pmid default to "" |
| Embedder.ArticleIndexText | embedder.py:40-54 | an article from the retriever is indexed under its own title, with its abstract unless it has the placeholder |
| Embedder.SearchSimilarDocuments | embedder.py:88-132 | the results are `SearchResults`: none without an index or metadata; otherwise every neighbour with `idx < len(metadatas)` is read with Python indexing, a -1 filler as the last document; none when a read fails |
| Embedder.ShapedFailureSticks | embedder.py:117-132 | under either test, once a lookup has failed, later neighbours cannot undo it |
| Embedder.ShapedMembers | embedder.py:118-126 | under the test as written or the corrected one: one result per neighbour that passes it and can be read, none for others, carrying its neighbour's rank, similarity and the text and metadata Python indexing reads at its position |
| Embedder.ShapedRanks | embedder.py:118-126 | under either test, at most one result per neighbour, ranks strictly rising and within 1 to k |
| Embedder.ShapedExact | embedder.py:118-126 | both of the above together |
| Embedder.ShapedAllValid | embedder.py:118-126 | under either test, with every position valid, the k-th result has rank k + 1 and the k-th neighbour's text and metadata |
| Embedder.SearchResultsShape | embedder.py:103-128 | no results without an index or metadata; never more results than neighbours; each result's text and metadata come from the lists and its rank from 1 to k; with every position valid, one result per neighbour in order |
| Embedder.SimilarityRange | embedder.py:122 | the similarity lies in (0, 1] and is 1 exactly at distance 0 |
| Embedder.SimilarityDecreasing | embedder.py:122 | the similarity strictly falls as the distance grows |
| Embedder.SentinelRepeatsLastDocument | embedder.py:118-126 | as written, a -1 filler neighbour repeats the last document as an extra result; the corrected shaping drops it |
| Embedder.AsWrittenAgrees | embedder.py:119 | without negative positions the written guard and the corrected one give the same results |
| SummaryText.NormalizedShape | qa_chain.py:247-252 | after normalising: no double whitespace, no space before "." or ",", empty or blank exactly when the input was |
| SummaryText.CapitalizedShape | qa_chain.py:254-256 | only the first character changes, it is no small letter, and it is whitespace exactly when it was |
| SummaryText.CapitalizedKeeps | qa_chain.py:254-256 | capitalising keeps the absence of double, outer and before-punctuation spaces |
| SummaryText.TerminatedShape | qa_chain.py:258-260 | a non-empty text ends with ".", "!" or "?", keeps its first character, and is unchanged if it already ended so |
| SummaryText.TerminatedKeeps | qa_chain.py:258-260 | terminating keeps the absence of double, outer and before-punctuation spaces |
| SummaryText.CleanAsWrittenShape | qa_chain.py:243-262 | as written: empty exactly for empty input; otherwise ends with ".", "!" or "?"; no outer or double whitespace |
| SummaryText.BlankBecomesStop | qa_chain.py:243-262 | as written a blank non-empty text becomes "."; with the strip first it becomes "" |
| SummaryText.CleanSummaryTextShape | qa_chain.py:243-262 | strip first: empty exactly for blank input; otherwise starts with no small letter and ends with ".", "!" or "?"; no outer or double whitespace, no space before "." or "," |
| SummaryText.NormalizedNoEdge | qa_chain.py:247-252 | normalising a text without outer whitespace leaves none |
| SummaryText.CleanAgrees | qa_chain.py:243-262 | on a text without outer whitespace the written order and the strip-first order agree |
| SummaryText.LeadingSpaceStaysLower | qa_chain.py:254-262 | as written " a" becomes "a.", its first letter left small |
| SummaryText.TrailingSpaceBeforeStop | qa_chain.py:258-262 | as written "a " becomes "A .", a space before the stop |
| Summarizer.StudyFocusPriority | qa_chain.py:208-223 | the focus is one of the five phrases, chosen by the first word group the lowercased title mentions in the order review, trial, guideline, treatment, else "This study explores" |
| Summarizer.StudyFocusShaped | qa_chain.py:212-223 | the focus is never empty and has no outer whitespace |
| Summarizer.LongStrippedMembers | qa_chain.py:152-153 | a sentence is kept exactly when it is a stripped fragment longer than the bound |
| Summarizer.LongStrippedProps | qa_chain.py:152-153 | kept sentences are longer than the bound, with no outer whitespace, and without terminators when no fragment has one |
| Summarizer.LongStrippedEmpty | qa_chain.py:153-155 | nothing is kept exactly when every stripped fragment is short |
| Summarizer.CandidatesShape | qa_chain.py:152-153 | candidates are the stripped `[.!?]+` fragments longer than 20 characters, with no outer whitespace and no terminator |
| Summarizer.KeywordPointsShape | qa_chain.py:174-177 | keyword points are even, at most two per keyword, zero exactly when no keyword occurs |
| Summarizer.SentenceScoreBounds | qa_chain.py:170-185 | a sentence scores between 0 and 2 per keyword + 2; the score is odd exactly when one of "has a digit" and "over 100 characters" holds |
| Summarizer.ScoredSentencesShape | qa_chain.py:170-187 | one scored sentence per candidate, in order, each with its own score |
| Summarizer.ScoreSentence | qa_chain.py:171-185 | the loop's score is `SentenceScore`: 2 per keyword, 1 for a digit, 1 over 100 characters |
| Summarizer.ScoreSentences | qa_chain.py:159-187 | the scoring loop gives `ScoredSentences` |
| Summarizer.SummarizeCandidates | qa_chain.py:158-202 | scoring, sorting, joining and cleaning give `SummaryFrom` the candidates |
| Summarizer.GenerateExtractiveSummary | qa_chain.py:146-202 | the summary is `ExtractiveSummary` of the abstract and title |
| Summarizer.TopSentencesShape | qa_chain.py:189-191 | two sentences are chosen, or all if fewer: the first of a stable descending sort that permutes the scored sentences; none left out scores more than one chosen |
| Summarizer.TopSentencesFrom | qa_chain.py:189-191 | every chosen sentence is one of the scored ones |
| Summarizer.TopSentencesTie | qa_chain.py:189-191 | with all scores equal the first two sentences are chosen |
| Summarizer.BodyAppendsStop | qa_chain.py:193-195 | sentences without terminators always get the full stop appended |
| Summarizer.ChosenTextsShape | qa_chain.py:189-191 | one or two of the candidates are chosen |
| Summarizer.SummaryFromShape | qa_chain.py:193-202 | the cleaned text equals the as-written cleaning of the draft; it ends with ".", "!" or "?" and has no outer, double or before-punctuation space |
| Summarizer.CandidatesSummary | qa_chain.py:193-202 | the same for the candidates of an abstract behind any non-empty focus phrase |
| Summarizer.ExtractiveSummaryShape | qa_chain.py:146-202 | with candidates, the summary is `clean_summary_text` of focus + " " + the joined top sentences, ends with ".", "!" or "?" and has no outer or double whitespace |
| Summarizer.ExtractiveSummaryNonEmpty | qa_chain.py:155-202 | the extractive summary is never empty; without a candidate sentence it is exactly "This study focuses on <lowercased title>." |
| Summarizer.GenerateFallbackSummary | qa_chain.py:225-241 | the loop with `break` gives `FallbackSummary` |
| Summarizer.FirstLongNone | qa_chain.py:233-241 | no fragment is chosen exactly when every stripped fragment has at most 30 characters |
| Summarizer.FirstLongFirst | qa_chain.py:233-236 | the chosen fragment is the first, stripped, of more than 30 characters |
| Summarizer.FirstLongAgrees | qa_chain.py:230-236 | the chosen fragment is also the first the length filter keeps |
| Summarizer.FallbackSummaryShape | qa_chain.py:238-241 | "This article discusses {title}. {sentence}." for a long fragment, else "This article provides information about {title}." |
| Summarizer.GenerateArticleSummaries | qa_chain.py:74-110 | the result is `Summarised` the contexts: a copy of each with its summary added |
| Summarizer.SummarisedShape | qa_chain.py:83-100 | same length and order; each context unchanged but for its summary, the transformer's or else the extractive one |
| Summarizer.SummariesNonEmpty | qa_chain.py:92-100 | without a transformer every attached summary is present and non-empty |
| Summarizer.SummaryForNonEmpty | qa_chain.py:94-95 | the extractive summary of a context is never empty |
| Answers.FormatAnswerWithSummaries | qa_chain.py:322-336 | the answer, then the summaries heading, then the citation blocks numbered 1 to n |
| Answers.AppendCitationBlocks | qa_chain.py:327-334 | the loop appends exactly the numbered citation blocks, in order |
| Answers.AppendEvidenceLines | qa_chain.py:351-353 | the loop appends exactly the numbered summary lines, in order |
| Answers.GenerateFallbackAnswerWithSummaries | qa_chain.py:338-368 | the answer is `FallbackAnswer` of the question and the summarised contexts |
| Answers.WriteFallbackAnswer | qa_chain.py:346-368 | the quoted question, the evidence heading and lines, the sources heading and blocks, then the disclaimer |
| Answers.NumberedIsConcat | qa_chain.py:327-334 | the numbered text is the pieces for elements 1 to n concatenated in order, nothing between them |
| Answers.NumberedAt | qa_chain.py:327-334 | piece i + 1 sits between the pieces before it and after it |
| Answers.CitationBlockCarries | qa_chain.py:332-334 | a block starts with its number and title and contains the summary and the URL |
| Answers.FormattedAnswerShape | qa_chain.py:322-336 | the formatted answer starts with the answer unchanged and contains the block of every context, numbered by its position |
| Answers.FallbackAnswerShape | qa_chain.py:346-368 | the fallback answer opens with the quoted question, contains every context's summary line and citation block, and ends with the disclaimer |
| Answers.EvidenceLineCarries | qa_chain.py:352-353 | each summary line contains its context's summary |

## Left out

- `app.py` (the web interface) and the commented-out earlier versions in
  `retriever.py` and `qa_chain.py`: not live code of the core.
- `search_pubmed_articles` (URL and parameter building, reading the id list
  from the JSON answer, the half-second pause): the search service is a
  function from the request (term, count, sort order) to the articles.
- Network access and sleeping in `make_request_with_retry`. The server is a
  function from the attempt number to its outcome. The sleeps are returned
  as a list of wait durations. Printing is left out everywhere.
- HttpRetry.MakeRequestWithRetry: a JSON decoding failure is modelled as
  giving None at once. Recent versions of `requests` raise it as a
  `RequestException` too, and then a message containing "429" would be
  retried. The model assumes the message does not contain "429".
- RecordParser.PmidOf: a PMID element without text makes the source's
  `pmid` None and its url end in "/None". A record's pmid is either a
  string or missing, so this case is not represented.
- XML parsing in `parse_pubmed_xml`. A record carries what the code reads
  from the tree: optional pmid and title texts, the sections (label,
  direct text, inner text) and the Abstract element's text. The per-record
  `except Exception: continue` path cannot arise in the model.
- Model loading and inference: `get_qa_pipeline`,
  `get_summarizer_pipeline`, `get_embedding_model`, `generate_ai_summary`,
  and `generate_answer` with its text generator. The transformer
  summariser is an optional function of the abstract and the title.
- The exception handlers of `generate_article_summaries` and
  `generate_extractive_summary` that fall back to
  `generate_fallback_summary`. The modelled operations cannot fail, so that
  path is never taken. `generate_fallback_summary` is modelled on its own.
- Sentence-transformer encoding, `normalize_L2` and the vector index. The
  success of encoding is a boolean parameter. The neighbour list is an
  input of (distance, position) pairs.
- Floating point: relevance scores are exact half-point integers, and
  similarity is computed over `real`.
- Unicode: lower- and upper-casing, `isupper`, `\s`, `\d` and `split()`
  use ASCII only.
- QueryNormalizer.ExtractMedicalTerms: `list(set(...))` returns the terms in
  an order Python leaves unspecified. The model keeps first occurrences
  in discovery order. RelevanceScorer.TermsBonusOrderFree shows the score
  does not depend on that order.
- Summarizer.GenerateArticleSummaries and the extractive summary take the
  keyword list as a parameter in their specification functions
  (`ExtractiveSummaryWith`), instantiated with the source's 18 keywords.
  The methods use the source's list itself.

## Findings

| source | as written | input that shows it | evidently intended | confidence | as-written member | corrected member |
|---|---|---|---|---|---|---|
| retriever.py:265-275 | "how do" is removed before "how does" (likewise "why do", "where do"), so the longer phrase loses its front and "es" is left behind | the question "how does metformin work" is searched as "es metformin work" | each lead phrase removed whole, longest first, giving "metformin work" | not executed | QueryNormalizer.HowDoesQuestionAsWritten | QueryNormalizer.HowDoesQuestionIntended |
| embedder.py:119 | the guard `idx < len(metadatas)` lets the index's -1 filler through, and Python reads position -1 as the last document | two documents, neighbours (0.0, 1) and (d, -1): the last document is returned twice, with ranks 1 and 2 | keep only positions with `0 <= idx < len(metadatas)` | not executed | Embedder.SentinelRepeatsLastDocument | Embedder.ShapedMembers |
| qa_chain.py:254-262 | the text is capitalised and terminated before it is stripped, so outer whitespace defeats both steps | " a" becomes "a." (first letter left small); "a " becomes "A ." (space before the stop) | strip first, then capitalise and terminate | not executed | SummaryText.LeadingSpaceStaysLower | SummaryText.CleanSummaryTextShape |
