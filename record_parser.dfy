/**
 * The record assembly of `parse_pubmed_xml` (retriever.py): each parsed
 * PubMed record becomes an article with a title (or a placeholder), an
 * abstract built from its labelled sections (or a placeholder), a PubMed id
 * and the article's web address. The XML tree itself is not modelled; a
 * record carries what the code reads from it.
 */
module RecordParser {
  import opened Wrappers
  import opened Text
  import opened Articles

  /**
   * One AbstractText element: its Label attribute ("" when absent), its
   * direct text (None when the element has none) and the concatenation of
   * all text inside it.
   */
  datatype AbstractSection = AbstractSection(heading: string, text: Option<string>, innerText: string)

  /**
   * One PubmedArticle element: the text of its PMID and ArticleTitle
   * elements (None when the element is missing), its AbstractText elements,
   * and the concatenated text of its Abstract element if there is one.
   */
  datatype PubmedRecord = PubmedRecord(
    pmid: Option<string>,
    title: Option<string>,
    sections: seq<AbstractSection>,
    abstractElement: Option<string>)

  /** A section's text: its direct text, or all text inside it when it has none. */
  function SectionText(s: AbstractSection): string {
    match s.text
    case Some(t) => t
    case None => s.innerText
  }

  /** The parts the non-empty sections contribute, "Label: text" or the bare text. */
  function AbstractParts(sections: seq<AbstractSection>): seq<string> {
    if sections == [] then []
    else
      var s := sections[|sections| - 1];
      var text := SectionText(s);
      AbstractParts(sections[..|sections| - 1])
        + (if s.heading != "" && text != "" then [s.heading + ": " + text]
           else if text != "" then [text]
           else [])
  }

  /** The abstract before the empty-abstract check. */
  function RawAbstract(r: PubmedRecord): string {
    var parts := AbstractParts(r.sections);
    if parts != [] then Join(" ", parts)
    else match r.abstractElement
      case Some(t) => t
      case None => NoAbstract
  }

  /** The article's abstract: the stripped raw abstract, or the placeholder when that is empty. */
  function AbstractOf(r: PubmedRecord): string {
    var a := Strip(RawAbstract(r));
    if a == "" then NoAbstract else a
  }

  /** The article's title: a missing or empty title becomes the placeholder, any other is stripped. */
  function TitleOf(r: PubmedRecord): string {
    match r.title
    case None => NoTitle
    case Some(t) => if t == "" then NoTitle else Strip(t)
  }

  /** The PubMed id: the record's own, else the id searched for at the same position, else "Unknown". */
  function PmidOf(r: PubmedRecord, i: nat, articleIds: seq<string>): string {
    match r.pmid
    case Some(p) => p
    case None => if i < |articleIds| then articleIds[i] else "Unknown"
  }

  function ArticleOf(r: PubmedRecord, i: nat, articleIds: seq<string>): Article {
    var pmid := PmidOf(r, i, articleIds);
    Article(TitleOf(r), AbstractOf(r), PubmedUrlBase + pmid, pmid)
  }

  /** The articles built from a document; a document that fails to parse (None) gives none. */
  function ParsedArticles(document: Option<seq<PubmedRecord>>, articleIds: seq<string>): seq<Article> {
    match document
    case None => []
    case Some(records) => AssembleAll(records, Builder(articleIds))
  }

  /** Article assembly for a document whose searched ids were `articleIds`. */
  function Builder(articleIds: seq<string>): (PubmedRecord, nat) -> Article {
    (r: PubmedRecord, i: nat) => ArticleOf(r, i, articleIds)
  }

  /** `build` applied to each record and its position. */
  function AssembleAll(records: seq<PubmedRecord>, build: (PubmedRecord, nat) -> Article): seq<Article> {
    if records == [] then []
    else
      var n := |records| - 1;
      AssembleAll(records[..n], build) + [build(records[n], n)]
  }

  lemma TitleChoice(r: PubmedRecord)
    ensures var title := if r.title.Some? then r.title.value else NoTitle;
      (if title != "" then Strip(title) else NoTitle) == TitleOf(r)
  {
    PlaceholdersStripped();
  }

  method AssembleAbstract(r: PubmedRecord) returns (abstractText: string)
    ensures abstractText == AbstractOf(r)
  {
    var parts: seq<string> := [];
    for i := 0 to |r.sections|
      invariant parts == AbstractParts(r.sections[..i])
    {
      assert r.sections[..i + 1][..i] == r.sections[..i];
      var s := r.sections[i];
      var text := if s.text.Some? then s.text.value else "";
      if s.text.None? {
        text := s.innerText;
      }
      if s.heading != "" && text != "" {
        parts := parts + [s.heading + ": " + text];
      } else if text != "" {
        parts := parts + [text];
      }
    }
    assert r.sections[..|r.sections|] == r.sections;
    if parts != [] {
      abstractText := Join(" ", parts);
    } else if r.abstractElement.Some? {
      abstractText := r.abstractElement.value;
    } else {
      abstractText := NoAbstract;
    }
    abstractText := Strip(abstractText);
    if abstractText == "" {
      abstractText := NoAbstract;
    }
  }

  method ParsePubmedXml(document: Option<seq<PubmedRecord>>, articleIds: seq<string>)
    returns (articles: seq<Article>)
    ensures articles == ParsedArticles(document, articleIds)
  {
    if document.None? {
      return [];
    }
    var records := document.value;
    articles := [];
    for i := 0 to |records|
      invariant articles == AssembleAll(records[..i], Builder(articleIds))
    {
      var article := BuildArticle(records[i], i, articleIds);
      AssembleAllSnoc(records, i, Builder(articleIds));
      articles := articles + [article];
    }
    assert records[..|records|] == records;
  }

  /** The body of the record loop of `parse_pubmed_xml`: one article from one record. */
  method BuildArticle(r: PubmedRecord, i: nat, articleIds: seq<string>) returns (article: Article)
    ensures article == ArticleOf(r, i, articleIds)
  {
    var pmid := if r.pmid.Some? then r.pmid.value else if i < |articleIds| then articleIds[i] else "Unknown";
    var title := if r.title.Some? then r.title.value else NoTitle;
    var abstractText := AssembleAbstract(r);
    var url := PubmedUrlBase + pmid;
    TitleChoice(r);
    article := Article(if title != "" then Strip(title) else NoTitle, abstractText, url, pmid);
  }

  lemma AssembleAllSnoc(records: seq<PubmedRecord>, i: nat, build: (PubmedRecord, nat) -> Article)
    requires i < |records|
    ensures AssembleAll(records[..i + 1], build) == AssembleAll(records[..i], build) + [build(records[i], i)]
  {
    assert records[..i + 1][..i] == records[..i];
  }

  // ---------------------------------------------------------------------
  // Properties of the assembled articles

  /**
   * Every part is non-empty and there is at most one per section: one for
   * each section with text, none when no section has any.
   */
  lemma {:induction false} AbstractPartsShape(sections: seq<AbstractSection>)
    ensures |AbstractParts(sections)| <= |sections|
    ensures forall p :: p in AbstractParts(sections) ==> p != ""
    ensures (forall k :: 0 <= k < |sections| ==> SectionText(sections[k]) != "")
        ==> |AbstractParts(sections)| == |sections|
    ensures (forall k :: 0 <= k < |sections| ==> SectionText(sections[k]) == "")
        ==> AbstractParts(sections) == []
  {
    if sections != [] {
      var init := sections[..|sections| - 1];
      AbstractPartsShape(init);
      assert forall k :: 0 <= k < |init| ==> init[k] == sections[k];
    }
  }

  /** A labelled, non-empty section alone contributes "Label: text". */
  lemma LabelledSection(heading: string, text: string)
    requires heading != "" && text != ""
    ensures AbstractParts([AbstractSection(heading, Some(text), text)]) == [heading + ": " + text]
  {
    assert [AbstractSection(heading, Some(text), text)][..0] == [];
  }

  /**
   * The abstract is never empty and has no surrounding whitespace; with no
   * usable section and no Abstract element it is the placeholder.
   */
  lemma AbstractShape(r: PubmedRecord)
    ensures AbstractOf(r) != ""
    ensures NoEdgeSpace(AbstractOf(r))
    ensures AbstractParts(r.sections) == [] && r.abstractElement.None? ==> AbstractOf(r) == NoAbstract
  {
    StripIsTrimmed(RawAbstract(r));
    assert NoEdgeSpace(NoAbstract);
  }

  /**
   * The address is the PubMed prefix followed by the id, so the id can be
   * read back from it; the id comes from the record, else from the searched
   * ids at the same position, else is "Unknown".
   */
  lemma ArticleFields(r: PubmedRecord, i: nat, articleIds: seq<string>)
    ensures var a := ArticleOf(r, i, articleIds);
      && a.url[..|PubmedUrlBase|] == PubmedUrlBase
      && a.url[|PubmedUrlBase|..] == a.pmid
      && (r.pmid.Some? ==> a.pmid == r.pmid.value)
      && (r.pmid.None? && i < |articleIds| ==> a.pmid == articleIds[i])
      && (r.pmid.None? && i >= |articleIds| ==> a.pmid == "Unknown")
      && (r.title.None? ==> a.title == NoTitle)
      && a.abstractText == AbstractOf(r)
  {
  }

  lemma {:induction false} AssembleAllShape(records: seq<PubmedRecord>, build: (PubmedRecord, nat) -> Article)
    ensures |AssembleAll(records, build)| == |records|
    ensures forall k :: 0 <= k < |records| ==> AssembleAll(records, build)[k] == build(records[k], k)
  {
    if records != [] {
      var n := |records| - 1;
      var init := records[..n];
      AssembleAllShape(init, build);
      forall k | 0 <= k < n
        ensures AssembleAll(records, build)[k] == build(records[k], k)
      {
        assert init[k] == records[k];
      }
    }
  }

  /**
   * One article per record, in record order, the k-th built from the k-th
   * record with a non-empty abstract; a document that fails to parse gives
   * no articles.
   */
  lemma ParsedArticlesShape(document: Option<seq<PubmedRecord>>, articleIds: seq<string>)
    ensures document.None? ==> ParsedArticles(document, articleIds) == []
    ensures document.Some? ==>
      && |ParsedArticles(document, articleIds)| == |document.value|
      && forall k :: 0 <= k < |document.value| ==>
           ParsedArticles(document, articleIds)[k] == ArticleOf(document.value[k], k, articleIds)
           && ParsedArticles(document, articleIds)[k].abstractText != ""
  {
    if document.Some? {
      AssembleAllShape(document.value, Builder(articleIds));
      forall k | 0 <= k < |document.value|
        ensures ParsedArticles(document, articleIds)[k].abstractText != ""
      {
        AbstractShape(document.value[k]);
      }
    }
  }
}
