/**
 * The bookkeeping around the vector index of embedder.py.
 * `create_faiss_index` turns the fetched articles into two parallel lists,
 * the texts to embed and the metadata to show. `search_similar_documents`
 * turns the index's neighbour list, pairs of a distance and a position,
 * into ranked results.
 *
 * The embedding model and the index itself are not modelled. Whether
 * encoding and index construction succeeded is a parameter. The neighbour
 * list the index returns is an input.
 */
module Embedder {
  import opened Wrappers
  import opened Text
  import opened Articles

  /** A document handed to the indexer; any of its keys may be missing. */
  datatype Doc = Doc(
    title: Option<string>,
    abstractText: Option<string>,
    url: Option<string>,
    pmid: Option<string>)

  /** The document for an article the retriever produced: every key present. */
  function DocOf(a: Article): Doc {
    Doc(Some(a.title), Some(a.abstractText), Some(a.url), Some(a.pmid))
  }

  /** What is kept for display beside each indexed text. */
  datatype DocMeta = DocMeta(title: string, url: string, pmid: string)

  /** The title used for a document without one. */
  const DefaultTitle: string := "No title"

  function DocTitle(d: Doc): string {
    Strip(d.title.GetOr(DefaultTitle))
  }

  function DocAbstract(d: Doc): string {
    Strip(d.abstractText.GetOr(""))
  }

  /** The text embedded for a document: "title. abstract", or the title alone without a real abstract. */
  function IndexText(d: Doc): string {
    var abstractText := DocAbstract(d);
    if abstractText != "" && abstractText != NoAbstract then DocTitle(d) + ". " + abstractText
    else DocTitle(d)
  }

  function IndexMeta(d: Doc): DocMeta {
    DocMeta(DocTitle(d), d.url.GetOr(""), d.pmid.GetOr(""))
  }

  /** The outcome of `create_faiss_index`: whether an index exists, and the parallel lists. */
  datatype IndexBuild = IndexBuild(built: bool, metadatas: seq<DocMeta>, texts: seq<string>)

  /** `f` applied to each document, in order. */
  function MapDocs<T>(docs: seq<Doc>, f: Doc -> T): seq<T> {
    if docs == [] then [] else MapDocs(docs[..|docs| - 1], f) + [f(docs[|docs| - 1])]
  }

  function AllMetas(docs: seq<Doc>): seq<DocMeta> {
    MapDocs(docs, IndexMeta)
  }

  function AllTexts(docs: seq<Doc>): seq<string> {
    MapDocs(docs, IndexText)
  }

  /**
   * No documents, or a failure while encoding or building the index, gives
   * no index and empty lists.
   */
  function IndexOf(docs: seq<Doc>, encoded: bool): IndexBuild {
    if docs == [] || !encoded then IndexBuild(false, [], [])
    else IndexBuild(true, AllMetas(docs), AllTexts(docs))
  }

  /** `encoded` says whether encoding the texts and building the index succeeded. */
  method CreateFaissIndex(docs: seq<Doc>, encoded: bool)
    returns (built: bool, metadatas: seq<DocMeta>, texts: seq<string>)
    ensures IndexBuild(built, metadatas, texts) == IndexOf(docs, encoded)
  {
    if docs == [] {
      return false, [], [];
    }
    texts := [];
    metadatas := [];
    for i := 0 to |docs|
      invariant texts == AllTexts(docs[..i])
      invariant metadatas == AllMetas(docs[..i])
    {
      assert docs[..i + 1][..i] == docs[..i];
      MapDocsSnoc(docs[..i + 1], IndexText);
      MapDocsSnoc(docs[..i + 1], IndexMeta);
      var d := docs[i];
      var abstractText := Strip(d.abstractText.GetOr(""));
      var title := Strip(d.title.GetOr(DefaultTitle));
      assert abstractText == DocAbstract(d) && title == DocTitle(d);
      var text;
      if abstractText != "" && abstractText != NoAbstract {
        text := title + ". " + abstractText;
      } else {
        text := title;
      }
      assert text == IndexText(d);
      texts := texts + [text];
      metadatas := metadatas + [DocMeta(title, d.url.GetOr(""), d.pmid.GetOr(""))];
    }
    assert docs[..|docs|] == docs;
    if texts == [] {
      return false, [], [];
    }
    if !encoded {
      return false, [], [];
    }
    built := true;
  }

  // ---------------------------------------------------------------------
  // Properties of the index lists

  lemma MapDocsSnoc<T>(docs: seq<Doc>, f: Doc -> T)
    requires docs != []
    ensures MapDocs(docs, f) == MapDocs(docs[..|docs| - 1], f) + [f(docs[|docs| - 1])]
  {
  }

  lemma {:induction false} MapDocsShape<T>(docs: seq<Doc>, f: Doc -> T)
    ensures |MapDocs(docs, f)| == |docs|
    ensures forall i :: 0 <= i < |docs| ==> MapDocs(docs, f)[i] == f(docs[i])
  {
    if docs != [] {
      var init := docs[..|docs| - 1];
      MapDocsShape(init, f);
      assert forall i :: 0 <= i < |init| ==> init[i] == docs[i];
    }
  }

  /**
   * An index exists exactly when there were documents and encoding
   * succeeded; the two lists then run parallel to the documents. At each
   * position the indexed text starts with the stored title, taken from the
   * document at that position, which is what lets a neighbour's position
   * serve as the key into both lists.
   */
  lemma IndexShape(docs: seq<Doc>, encoded: bool)
    ensures var b := IndexOf(docs, encoded);
      && (b.built <==> docs != [] && encoded)
      && (!b.built ==> b.metadatas == [] && b.texts == [])
      && (b.built ==>
            && |b.metadatas| == |docs| && |b.texts| == |docs|
            && forall i :: 0 <= i < |docs| ==>
                 && b.metadatas[i] == IndexMeta(docs[i])
                 && b.texts[i] == IndexText(docs[i])
                 && IsPrefix(b.metadatas[i].title, b.texts[i]))
  {
    if docs != [] && encoded {
      MapDocsShape(docs, IndexMeta);
      MapDocsShape(docs, IndexText);
      forall i | 0 <= i < |docs|
        ensures IsPrefix(IndexMeta(docs[i]).title, IndexText(docs[i]))
      {
        TitleStartsText(docs[i]);
      }
    }
  }

  /** The indexed text starts with the stored title. */
  lemma TitleStartsText(d: Doc)
    ensures IsPrefix(IndexMeta(d).title, IndexText(d))
  {
    PrefixOfAppend(DocTitle(d), ". ", DocAbstract(d));
    PrefixOfAppend(DocTitle(d), "", "");
    assert DocTitle(d) + "" + "" == DocTitle(d);
  }

  /**
   * The text is "title. abstract" exactly when the stripped abstract is
   * present, non-empty and not the placeholder, and the title alone
   * otherwise; the metadata holds the stripped title and the url and pmid
   * as given, empty when missing.
   */
  lemma IndexTextShape(d: Doc)
    ensures var abstractText := Strip(d.abstractText.GetOr(""));
      && (abstractText != "" && abstractText != NoAbstract ==> IndexText(d) == DocTitle(d) + ". " + abstractText)
      && (abstractText == "" || abstractText == NoAbstract ==> IndexText(d) == DocTitle(d))
      && (abstractText != "" && abstractText != NoAbstract <==> |IndexText(d)| > |DocTitle(d)|)
    ensures d.title.None? ==> DocTitle(d) == DefaultTitle
    ensures IndexMeta(d).url == (if d.url.Some? then d.url.value else "")
    ensures IndexMeta(d).pmid == (if d.pmid.Some? then d.pmid.value else "")
  {
    assert NoEdgeSpace(DefaultTitle);
    StripNoEdge(DefaultTitle);
  }

  /**
   * An article from the retriever, whose fields carry no outer whitespace,
   * is indexed under its own title, with its abstract appended unless it has
   * none.
   */
  lemma ArticleIndexText(a: Article)
    requires NoEdgeSpace(a.title) && NoEdgeSpace(a.abstractText)
    ensures IndexMeta(DocOf(a)) == DocMeta(a.title, a.url, a.pmid)
    ensures a.abstractText != "" && a.abstractText != NoAbstract ==>
      IndexText(DocOf(a)) == a.title + ". " + a.abstractText
    ensures a.abstractText == NoAbstract ==> IndexText(DocOf(a)) == a.title
  {
    var d := DocOf(a);
    assert DocTitle(d) == a.title by {
      StripNoEdge(a.title);
    }
    assert DocAbstract(d) == a.abstractText by {
      StripNoEdge(a.abstractText);
    }
  }

  // ---------------------------------------------------------------------
  // Search results

  /** A squared L2 distance, never negative. */
  type Distance = d: real | 0.0 <= d

  /** One entry of the index's answer: a distance and the position of the document (-1 when the index ran out). */
  datatype Neighbour = Neighbour(distance: Distance, idx: int)

  datatype SearchResult = SearchResult(rank: nat, similarity: real, text: string, metadata: DocMeta)

  /** The distance mapped to a similarity, over the reals rather than floating point. */
  function Similarity(d: Distance): real {
    1.0 / (1.0 + d)
  }

  /** Python's `s[i]`, negative positions counting from the end; None for an IndexError. */
  function PyIndex<T>(s: seq<T>, i: int): (r: Option<T>)
    ensures r.Some? <==> -|s| <= i < |s|
    ensures r.Some? ==> r.value in s
    ensures 0 <= i < |s| ==> r == Some(s[i])
  {
    if 0 <= i < |s| then Some(s[i])
    else if -|s| <= i < 0 then Some(s[|s| + i])
    else None
  }

  /**
   * Whether a neighbour passes the validity test. As written the test is
   * `idx < len(metadatas)` alone; the corrected test also refuses negative
   * positions.
   */
  predicate Kept(asWritten: bool, nb: Neighbour, metadatas: seq<DocMeta>) {
    nb.idx < |metadatas| && (asWritten || 0 <= nb.idx)
  }

  /** Both `texts[idx]` and `metadatas[idx]` succeed. */
  predicate Readable(nb: Neighbour, metadatas: seq<DocMeta>, texts: seq<string>) {
    PyIndex(texts, nb.idx).Some? && PyIndex(metadatas, nb.idx).Some?
  }

  /** For neighbour `i` (0-based): its rank, similarity, text and metadata. */
  function ResultFor(i: nat, nb: Neighbour, metadatas: seq<DocMeta>, texts: seq<string>): SearchResult
    requires Readable(nb, metadatas, texts)
  {
    SearchResult(i + 1, Similarity(nb.distance), PyIndex(texts, nb.idx).value, PyIndex(metadatas, nb.idx).value)
  }

  /**
   * The results for a neighbour list under either test, keeping only the
   * neighbours that pass it; None when a kept neighbour cannot be read,
   * where the source's indexing fails and the search as a whole gives no
   * results.
   */
  function ShapedWith(asWritten: bool, metadatas: seq<DocMeta>, texts: seq<string>, ns: seq<Neighbour>)
    : Option<seq<SearchResult>>
  {
    if ns == [] then Some([])
    else
      var n := |ns| - 1;
      var nb := ns[n];
      match ShapedWith(asWritten, metadatas, texts, ns[..n])
      case None => None
      case Some(rs) =>
        if Kept(asWritten, nb, metadatas) then
          if Readable(nb, metadatas, texts) then Some(rs + [ResultFor(n, nb, metadatas, texts)]) else None
        else Some(rs)
  }

  /** The shaping of embedder.py:118-126 as written: a -1 filler reads the last document. */
  function ShapedAsWritten(metadatas: seq<DocMeta>, texts: seq<string>, ns: seq<Neighbour>): Option<seq<SearchResult>> {
    ShapedWith(true, metadatas, texts, ns)
  }

  /** The shaping with the corrected test: only positions `0 <= idx < len(metadatas)` are kept. */
  function Shaped(metadatas: seq<DocMeta>, texts: seq<string>, ns: seq<Neighbour>): Option<seq<SearchResult>> {
    ShapedWith(false, metadatas, texts, ns)
  }

  /** No index or no metadata gives no results; otherwise the shaping as written. */
  function SearchResults(indexBuilt: bool, metadatas: seq<DocMeta>, texts: seq<string>, ns: seq<Neighbour>)
    : seq<SearchResult>
  {
    if !indexBuilt || metadatas == [] then [] else ShapedAsWritten(metadatas, texts, ns).GetOr([])
  }

  method SearchSimilarDocuments(indexBuilt: bool, metadatas: seq<DocMeta>, texts: seq<string>, neighbours: seq<Neighbour>)
    returns (results: seq<SearchResult>)
    ensures results == SearchResults(indexBuilt, metadatas, texts, neighbours)
  {
    if !indexBuilt || metadatas == [] {
      return [];
    }
    results := [];
    for i := 0 to |neighbours|
      invariant ShapedAsWritten(metadatas, texts, neighbours[..i]) == Some(results)
    {
      assert neighbours[..i + 1][..i] == neighbours[..i];
      var nb := neighbours[i];
      if nb.idx < |metadatas| {
        var text := PyIndex(texts, nb.idx);
        var metadata := PyIndex(metadatas, nb.idx);
        if text.None? || metadata.None? {
          ShapedFailureSticks(true, metadatas, texts, neighbours, i + 1);
          assert neighbours[..|neighbours|] == neighbours;
          return [];
        }
        var result := SearchResult(i + 1, 1.0 / (1.0 + nb.distance), text.value, metadata.value);
        results := results + [result];
      }
    }
    assert neighbours[..|neighbours|] == neighbours;
  }

  // ---------------------------------------------------------------------
  // Properties of the search results

  /** Once the indexing has failed, later neighbours cannot undo it. */
  lemma {:induction false} ShapedFailureSticks(asWritten: bool, metadatas: seq<DocMeta>, texts: seq<string>, ns: seq<Neighbour>, j: nat)
    requires j <= |ns| && ShapedWith(asWritten, metadatas, texts, ns[..j]).None?
    ensures ShapedWith(asWritten, metadatas, texts, ns).None?
    decreases |ns| - j
  {
    if j < |ns| {
      assert ns[..j + 1][..j] == ns[..j];
      ShapedFailureSticks(asWritten, metadatas, texts, ns, j + 1);
    } else {
      assert ns[..j] == ns;
    }
  }

  /**
   * One result per neighbour that passes the test and none for the others:
   * each result carries the rank of its neighbour in the full list (so
   * ranks skip over dropped neighbours), that neighbour's similarity, and
   * the text and metadata Python indexing reads at its position.
   */
  lemma {:induction false} ShapedMembers(asWritten: bool, metadatas: seq<DocMeta>, texts: seq<string>, ns: seq<Neighbour>)
    requires ShapedWith(asWritten, metadatas, texts, ns).Some?
    ensures forall r :: r in ShapedWith(asWritten, metadatas, texts, ns).value <==>
      exists i :: 0 <= i < |ns| && Kept(asWritten, ns[i], metadatas) && Readable(ns[i], metadatas, texts)
                  && r == ResultFor(i, ns[i], metadatas, texts)
  {
    if ns != [] {
      var n := |ns| - 1;
      var init := ns[..n];
      assert ShapedWith(asWritten, metadatas, texts, init).Some?;
      ShapedMembers(asWritten, metadatas, texts, init);
      var prev := ShapedWith(asWritten, metadatas, texts, init).value;
      var rs := ShapedWith(asWritten, metadatas, texts, ns).value;
      forall r
        ensures r in rs <==>
          exists i :: 0 <= i < |ns| && Kept(asWritten, ns[i], metadatas) && Readable(ns[i], metadatas, texts)
                      && r == ResultFor(i, ns[i], metadatas, texts)
      {
        if r in prev {
          var i :| 0 <= i < |init| && Kept(asWritten, init[i], metadatas) && Readable(init[i], metadatas, texts)
                   && r == ResultFor(i, init[i], metadatas, texts);
          assert ns[i] == init[i];
        }
        if exists i :: 0 <= i < |ns| && Kept(asWritten, ns[i], metadatas) && Readable(ns[i], metadatas, texts)
                       && r == ResultFor(i, ns[i], metadatas, texts) {
          var i :| 0 <= i < |ns| && Kept(asWritten, ns[i], metadatas) && Readable(ns[i], metadatas, texts)
                   && r == ResultFor(i, ns[i], metadatas, texts);
          if i < n {
            assert ns[i] == init[i];
          }
        }
      }
    }
  }

  /** At most one result per neighbour, in neighbour order: ranks rise strictly and stay within 1..|ns|. */
  lemma {:induction false} ShapedRanks(asWritten: bool, metadatas: seq<DocMeta>, texts: seq<string>, ns: seq<Neighbour>)
    requires ShapedWith(asWritten, metadatas, texts, ns).Some?
    ensures var rs := ShapedWith(asWritten, metadatas, texts, ns).value;
      && |rs| <= |ns|
      && (forall a, b :: 0 <= a < b < |rs| ==> rs[a].rank < rs[b].rank)
      && (forall a :: 0 <= a < |rs| ==> 1 <= rs[a].rank <= |ns|)
  {
    if ns != [] {
      var init := ns[..|ns| - 1];
      assert ShapedWith(asWritten, metadatas, texts, init).Some?;
      ShapedRanks(asWritten, metadatas, texts, init);
    }
  }

  /** Both halves of the shape of the search results. */
  lemma ShapedExact(asWritten: bool, metadatas: seq<DocMeta>, texts: seq<string>, ns: seq<Neighbour>)
    requires ShapedWith(asWritten, metadatas, texts, ns).Some?
    ensures var rs := ShapedWith(asWritten, metadatas, texts, ns).value;
      && |rs| <= |ns|
      && (forall r :: r in rs <==>
            exists i :: 0 <= i < |ns| && Kept(asWritten, ns[i], metadatas) && Readable(ns[i], metadatas, texts)
                        && r == ResultFor(i, ns[i], metadatas, texts))
      && (forall a, b :: 0 <= a < b < |rs| ==> rs[a].rank < rs[b].rank)
      && (forall a :: 0 <= a < |rs| ==> 1 <= rs[a].rank <= |ns|)
  {
    ShapedMembers(asWritten, metadatas, texts, ns);
    ShapedRanks(asWritten, metadatas, texts, ns);
  }

  /**
   * With every position valid (as when the index holds at least k
   * documents), there is one result per neighbour under either test, and
   * the k-th has rank k + 1 and the k-th neighbour's text and metadata.
   */
  lemma {:induction false} ShapedAllValid(asWritten: bool, metadatas: seq<DocMeta>, texts: seq<string>, ns: seq<Neighbour>)
    requires forall i :: 0 <= i < |ns| ==> 0 <= ns[i].idx < |metadatas| && ns[i].idx < |texts|
    ensures ShapedWith(asWritten, metadatas, texts, ns).Some?
    ensures |ShapedWith(asWritten, metadatas, texts, ns).value| == |ns|
    ensures forall k :: 0 <= k < |ns| ==>
      ShapedWith(asWritten, metadatas, texts, ns).value[k]
        == SearchResult(k + 1, Similarity(ns[k].distance), texts[ns[k].idx], metadatas[ns[k].idx])
  {
    if ns != [] {
      var n := |ns| - 1;
      var init := ns[..n];
      assert forall i :: 0 <= i < |init| ==> init[i] == ns[i];
      ShapedAllValid(asWritten, metadatas, texts, init);
    }
  }

  /**
   * No results without an index or without metadata; never more results
   * than neighbours; each result's text and metadata come from the lists
   * and its rank from 1..k; and with every position valid, one result per
   * neighbour, in order.
   */
  lemma SearchResultsShape(indexBuilt: bool, metadatas: seq<DocMeta>, texts: seq<string>, ns: seq<Neighbour>)
    ensures !indexBuilt || metadatas == [] ==> SearchResults(indexBuilt, metadatas, texts, ns) == []
    ensures |SearchResults(indexBuilt, metadatas, texts, ns)| <= |ns|
    ensures forall r :: r in SearchResults(indexBuilt, metadatas, texts, ns) ==>
      r.metadata in metadatas && r.text in texts && 1 <= r.rank <= |ns|
    ensures indexBuilt && metadatas != [] && (forall i :: 0 <= i < |ns| ==> 0 <= ns[i].idx < |metadatas| && ns[i].idx < |texts|) ==>
      var rs := SearchResults(indexBuilt, metadatas, texts, ns);
      |rs| == |ns| && forall k :: 0 <= k < |ns| ==> rs[k].rank == k + 1 && rs[k].text == texts[ns[k].idx]
  {
    if indexBuilt && metadatas != [] && ShapedAsWritten(metadatas, texts, ns).Some? {
      ShapedExact(true, metadatas, texts, ns);
      var rs := ShapedAsWritten(metadatas, texts, ns).value;
      forall r | r in rs
        ensures r.metadata in metadatas && r.text in texts && 1 <= r.rank <= |ns|
      {
        var i :| 0 <= i < |ns| && Kept(true, ns[i], metadatas) && Readable(ns[i], metadatas, texts)
                 && r == ResultFor(i, ns[i], metadatas, texts);
      }
    }
    if indexBuilt && metadatas != [] && (forall i :: 0 <= i < |ns| ==> 0 <= ns[i].idx < |metadatas| && ns[i].idx < |texts|) {
      ShapedAllValid(true, metadatas, texts, ns);
    }
  }

  /** The similarity lies in (0, 1], is 1 exactly at distance 0, and falls as the distance grows. */
  lemma SimilarityRange(d: Distance)
    ensures 0.0 < Similarity(d) <= 1.0
    ensures Similarity(d) == 1.0 <==> d == 0.0
  {
  }

  lemma SimilarityDecreasing(d1: Distance, d2: Distance)
    requires d1 < d2
    ensures Similarity(d1) > Similarity(d2)
  {
    assert (1.0 + d1) * Similarity(d1) == 1.0;
    assert (1.0 + d2) * Similarity(d2) == 1.0;
  }

  // ---------------------------------------------------------------------
  // The test as written against the corrected one

  /**
   * The index answers position -1 for each of the k neighbours it could not
   * fill, which happens whenever k exceeds the number of indexed documents.
   * As written, such a filler passes the test and repeats the last
   * document as an extra result; the corrected test drops it.
   */
  lemma SentinelRepeatsLastDocument(m0: DocMeta, m1: DocMeta, t0: string, t1: string, far: Distance)
    ensures ShapedAsWritten([m0, m1], [t0, t1], [Neighbour(0.0, 1), Neighbour(far, -1)])
      == Some([SearchResult(1, 1.0, t1, m1), SearchResult(2, Similarity(far), t1, m1)])
    ensures Shaped([m0, m1], [t0, t1], [Neighbour(0.0, 1), Neighbour(far, -1)])
      == Some([SearchResult(1, 1.0, t1, m1)])
  {
    var ms, ts := [m0, m1], [t0, t1];
    var ns := [Neighbour(0.0, 1), Neighbour(far, -1)];
    assert ns[..1] == [Neighbour(0.0, 1)];
    assert ns[..1][..0] == [];
    assert Similarity(0.0) == 1.0;
    assert PyIndex(ts, 1) == Some(t1) && PyIndex(ms, 1) == Some(m1);
    assert PyIndex(ts, -1) == Some(t1) && PyIndex(ms, -1) == Some(m1);
    assert ShapedAsWritten(ms, ts, ns[..1][..0]) == Some([]);
    assert ns[..1][0] == Neighbour(0.0, 1);
    assert ShapedAsWritten(ms, ts, ns[..1]) == Some([] + [SearchResult(0 + 1, Similarity(0.0), t1, m1)]);
    assert [] + [SearchResult(0 + 1, Similarity(0.0), t1, m1)] == [SearchResult(1, 1.0, t1, m1)];
    assert ns[1] == Neighbour(far, -1);
    assert ShapedAsWritten(ms, ts, ns)
      == Some([SearchResult(1, 1.0, t1, m1)] + [SearchResult(1 + 1, Similarity(far), t1, m1)]);
    assert [SearchResult(1, 1.0, t1, m1)] + [SearchResult(1 + 1, Similarity(far), t1, m1)]
      == [SearchResult(1, 1.0, t1, m1), SearchResult(2, Similarity(far), t1, m1)];
    assert Shaped(ms, ts, ns[..1][..0]) == Some([]);
    assert Shaped(ms, ts, ns[..1]) == Some([] + [SearchResult(0 + 1, Similarity(0.0), t1, m1)]);
    assert !Kept(false, ns[1], ms);
  }

  /** Without negative positions the test as written and the corrected one agree. */
  lemma {:induction false} AsWrittenAgrees(metadatas: seq<DocMeta>, texts: seq<string>, ns: seq<Neighbour>)
    requires forall i :: 0 <= i < |ns| ==> ns[i].idx >= 0
    ensures ShapedAsWritten(metadatas, texts, ns) == Shaped(metadatas, texts, ns)
  {
    if ns != [] {
      var n := |ns| - 1;
      var init := ns[..n];
      assert forall i :: 0 <= i < |init| ==> init[i] == ns[i];
      AsWrittenAgrees(metadatas, texts, init);
    }
  }
}
