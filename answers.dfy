/**
 * The template answers of qa_chain.py. `format_answer_with_summaries`
 * appends to the generated answer a section with one numbered citation
 * block per context (its title, its summary and its URL), and
 * `generate_fallback_answer_with_summaries`, used when generation fails,
 * quotes the question, lists the summaries, repeats the citation blocks
 * and closes with a fixed disclaimer.
 */
module Answers {
  import opened Wrappers
  import opened Text
  import opened Summarizer

  /** `ctx.get('summary', 'Summary not available')`. */
  function SummaryOf(c: Context): string {
    match c.summary
    case Some(s) => s
    case None => "Summary not available"
  }

  const SummariesHeading: string := "\n\n\U{1F4DA} **Article Summaries:**\n"
  const EvidenceHeading: string := "\n\n**Summary of Evidence:**\n"
  const SourcesHeading: string := "\n\n\U{1F4DA} **Detailed Sources:**\n"
  const Disclaimer: string :=
    "\n\U{26A0}\U{FE0F} *This is a summary of available evidence. Please consult with healthcare professionals for clinical decisions.*"

  /** The quoted question at the head of the fallback answer. */
  function QuestionQuote(question: string): string {
    "Based on the retrieved medical literature, here are the key findings relevant to: \"" + question + "\""
  }

  /** The head line of a citation block: the number and the title in bold. */
  function HeadLine(i: nat, title: string): string {
    "\n**" + NatToString(i) + ". " + title + "**\n"
  }

  /** The summary line of a citation block. */
  function SummaryLine(summary: string): string {
    "   \U{1F4A1} *" + summary + "*\n"
  }

  /** The link line of a citation block. */
  function UrlLine(url: string): string {
    "   \U{1F517} " + url + "\n"
  }

  /** Citation block `i`: its number and the context's title, then the summary, then the URL. */
  function CitationBlock(i: nat, c: Context): string {
    HeadLine(i, c.result.metadata.title) + SummaryLine(SummaryOf(c)) + UrlLine(c.result.metadata.url)
  }

  /** Line `i` of the evidence list: the number and the summary. */
  function EvidenceLine(i: nat, c: Context): string {
    "\n" + NatToString(i) + ". " + SummaryOf(c) + "\n"
  }

  /**
   * `line(1, xs[0]) + ... + line(n, xs[n - 1])`, as a loop over
   * `enumerate(xs, 1)` appends them.
   */
  function Numbered<T>(xs: seq<T>, line: (nat, T) -> string): string {
    if xs == [] then ""
    else
      var n := |xs| - 1;
      Numbered(xs[..n], line) + line(n + 1, xs[n])
  }

  /** The whole fallback answer for summarised contexts. */
  function FallbackAnswer(question: string, enhanced: seq<Context>): string {
    QuestionQuote(question) + EvidenceHeading + Numbered(enhanced, EvidenceLine)
      + SourcesHeading + Numbered(enhanced, CitationBlock) + Disclaimer
  }

  // ---------------------------------------------------------------------
  // The formatters

  /** Extending `s + p` by the three parts of `b` is extending it by `b`. */
  lemma Appended(s: string, p: string, b: string, q1: string, q2: string, q3: string)
    requires b == q1 + q2 + q3
    ensures s + p + b == (s + p + q1) + q2 + q3
    ensures (s + p) + b == s + (p + b)
  {
  }

  /** The loop that writes one citation block per context, numbered from 1, after `start`. */
  method AppendCitationBlocks(start: string, contexts: seq<Context>) returns (s: string)
    ensures s == start + Numbered(contexts, CitationBlock)
  {
    s := start;
    for i := 0 to |contexts|
      invariant s == start + Numbered(contexts[..i], CitationBlock)
    {
      assert contexts[..i + 1][..i] == contexts[..i];
      var ctx := contexts[i];
      var title, summary, url := ctx.result.metadata.title, SummaryOf(ctx), ctx.result.metadata.url;
      var q1, q2, q3 := HeadLine(i + 1, title), SummaryLine(summary), UrlLine(url);
      s := s + q1;
      s := s + q2;
      s := s + q3;
      Appended(start, Numbered(contexts[..i], CitationBlock), CitationBlock(i + 1, ctx), q1, q2, q3);
    }
    assert contexts[..|contexts|] == contexts;
  }

  /** The loop that writes one summary line per context, numbered from 1, after `start`. */
  method AppendEvidenceLines(start: string, contexts: seq<Context>) returns (s: string)
    ensures s == start + Numbered(contexts, EvidenceLine)
  {
    s := start;
    for i := 0 to |contexts|
      invariant s == start + Numbered(contexts[..i], EvidenceLine)
    {
      assert contexts[..i + 1][..i] == contexts[..i];
      var line := "\n" + NatToString(i + 1) + ". " + SummaryOf(contexts[i]) + "\n";
      s := s + line;
      Appended(start, Numbered(contexts[..i], EvidenceLine), EvidenceLine(i + 1, contexts[i]), line, "", "");
    }
    assert contexts[..|contexts|] == contexts;
  }

  /** `format_answer_with_summaries`: the answer, then the summaries section built block by block. */
  method FormatAnswerWithSummaries(answer: string, contexts: seq<Context>) returns (formatted: string)
    ensures formatted == answer + (SummariesHeading + Numbered(contexts, CitationBlock))
  {
    var section := AppendCitationBlocks(SummariesHeading, contexts);
    formatted := answer + section;
  }

  /**
   * `generate_fallback_answer_with_summaries`: summarises the contexts,
   * then writes the quoted question, the numbered summaries, the citation
   * blocks and the disclaimer.
   */
  method GenerateFallbackAnswerWithSummaries(question: string, contexts: seq<Context>,
                                             summariser: Option<(string, string) -> string>)
    returns (answer: string)
    ensures answer == FallbackAnswer(question, Summarised(contexts, summariser, ImportantKeywords))
  {
    var enhanced := GenerateArticleSummaries(contexts, summariser);
    answer := WriteFallbackAnswer(question, enhanced);
  }

  /** The string building of `generate_fallback_answer_with_summaries`, over the summarised contexts. */
  method WriteFallbackAnswer(question: string, enhanced: seq<Context>) returns (answer: string)
    ensures answer == FallbackAnswer(question, enhanced)
  {
    answer := QuestionQuote(question) + EvidenceHeading;
    answer := AppendEvidenceLines(answer, enhanced);
    answer := answer + SourcesHeading;
    answer := AppendCitationBlocks(answer, enhanced);
    answer := answer + Disclaimer;
  }

  // ---------------------------------------------------------------------
  // A reference definition of the numbered pieces

  /** The strings concatenated in order. */
  function Concat(parts: seq<string>): string {
    if parts == [] then "" else parts[0] + Concat(parts[1..])
  }

  /** The piece for every element, piece `i` for the element at position `i - 1`. */
  function Lines<T>(xs: seq<T>, line: (nat, T) -> string): (r: seq<string>)
    ensures |r| == |xs|
    ensures forall i :: 0 <= i < |xs| ==> r[i] == line(i + 1, xs[i])
  {
    seq(|xs|, i requires 0 <= i < |xs| => line(i + 1, xs[i]))
  }

  lemma {:induction false} ConcatAppend(a: seq<string>, b: seq<string>)
    ensures Concat(a + b) == Concat(a) + Concat(b)
  {
    if a == [] {
      assert a + b == b;
    } else {
      assert (a + b)[0] == a[0] && (a + b)[1..] == a[1..] + b;
      ConcatAppend(a[1..], b);
      calc {
        Concat(a + b);
        (a + b)[0] + Concat((a + b)[1..]);
        a[0] + Concat(a[1..] + b);
        a[0] + (Concat(a[1..]) + Concat(b));
        (a[0] + Concat(a[1..])) + Concat(b);
      }
    }
  }

  /**
   * What the numbering loop appends is exactly the pieces numbered 1 to n
   * in the order of the elements, with nothing between them.
   */
  lemma {:induction false} NumberedIsConcat<T>(xs: seq<T>, line: (nat, T) -> string)
    ensures Numbered(xs, line) == Concat(Lines(xs, line))
  {
    if xs != [] {
      var n := |xs| - 1;
      NumberedIsConcat(xs[..n], line);
      assert Lines(xs, line) == Lines(xs[..n], line) + [line(n + 1, xs[n])];
      ConcatAppend(Lines(xs[..n], line), [line(n + 1, xs[n])]);
      assert Concat([line(n + 1, xs[n])]) == line(n + 1, xs[n]) + Concat([]);
    }
  }

  /** Part `i` sits between the parts before it and those after it. */
  lemma ConcatAt(parts: seq<string>, i: nat)
    requires i < |parts|
    ensures Concat(parts) == Concat(parts[..i]) + parts[i] + Concat(parts[i + 1..])
  {
    assert parts == parts[..i] + parts[i..];
    ConcatAppend(parts[..i], parts[i..]);
    assert parts[i..][0] == parts[i] && parts[i..][1..] == parts[i + 1..];
    assert Concat(parts[i..]) == parts[i] + Concat(parts[i + 1..]);
  }

  /** Piece `i + 1` sits between the pieces of the elements before position `i` and those after it. */
  lemma NumberedAt<T>(xs: seq<T>, line: (nat, T) -> string, i: nat)
    requires i < |xs|
    ensures Numbered(xs, line) ==
      Concat(Lines(xs, line)[..i]) + line(i + 1, xs[i]) + Concat(Lines(xs, line)[i + 1..])
  {
    NumberedIsConcat(xs, line);
    ConcatAt(Lines(xs, line), i);
  }

  /** A block starts with its head line, number and title, and carries the summary and the URL. */
  lemma CitationBlockCarries(i: nat, c: Context)
    ensures IsPrefix(HeadLine(i, c.result.metadata.title), CitationBlock(i, c))
    ensures Contains(CitationBlock(i, c), SummaryOf(c))
    ensures Contains(CitationBlock(i, c), c.result.metadata.url)
  {
    var h, s, u := HeadLine(i, c.result.metadata.title), SummaryLine(SummaryOf(c)), UrlLine(c.result.metadata.url);
    PrefixOfAppend(h, s, u);
    ContainsMiddle(h, s, u);
    ContainsMiddle("   \U{1F4A1} *", SummaryOf(c), "*\n");
    ContainsTransitive(h + s + u, s, SummaryOf(c));
    ContainsMiddle(h + s, u, "");
    assert h + s + u + "" == h + s + u;
    ContainsMiddle("   \U{1F517} ", c.result.metadata.url, "\n");
    ContainsTransitive(h + s + u, u, c.result.metadata.url);
  }

  /** `a + (h + s)` starts with `a` and contains every piece of `s`. */
  lemma InMiddle(a: string, h: string, s: string, before: string, x: string, after: string)
    requires s == before + x + after
    ensures IsPrefix(a, a + (h + s)) && Contains(a + (h + s), x)
  {
    PrefixOfAppend(a, h, s);
    assert a + h + s == a + (h + s);
    ContainsMiddle(a + h + before, x, after);
    assert a + h + before + x + after == a + (h + s);
  }

  /**
   * The formatted answer starts with the generated answer unchanged and
   * holds the citation block of every context, with its number, title,
   * summary and URL.
   */
  lemma FormattedAnswerShape(answer: string, contexts: seq<Context>, i: nat)
    requires i < |contexts|
    ensures var formatted := answer + (SummariesHeading + Numbered(contexts, CitationBlock));
      && IsPrefix(answer, formatted)
      && Contains(formatted, CitationBlock(i + 1, contexts[i]))
  {
    var ls := Lines(contexts, CitationBlock);
    NumberedAt(contexts, CitationBlock, i);
    InMiddle(answer, SummariesHeading, Numbered(contexts, CitationBlock),
             Concat(ls[..i]), CitationBlock(i + 1, contexts[i]), Concat(ls[i + 1..]));
  }

  /** `s` ends with `d`. */
  predicate EndsWith(s: string, d: string) {
    |d| <= |s| && s[|s| - |d|..] == d
  }

  /** `x + d` ends with `d`. */
  lemma EndsWithAppend(x: string, d: string)
    ensures EndsWith(x + d, d)
  {
  }

  /**
   * The fallback answer opens with the quoted question, holds the summary
   * line and the citation block of every context, and ends with the
   * disclaimer.
   */
  lemma FallbackAnswerShape(question: string, enhanced: seq<Context>, i: nat)
    requires i < |enhanced|
    ensures var answer := FallbackAnswer(question, enhanced);
      && IsPrefix(QuestionQuote(question), answer)
      && Contains(answer, EvidenceLine(i + 1, enhanced[i]))
      && Contains(answer, CitationBlock(i + 1, enhanced[i]))
      && EndsWith(answer, Disclaimer)
  {
    var lines, blocks := Numbered(enhanced, EvidenceLine), Numbered(enhanced, CitationBlock);
    var ls, bs := Lines(enhanced, EvidenceLine), Lines(enhanced, CitationBlock);
    NumberedAt(enhanced, EvidenceLine, i);
    NumberedAt(enhanced, CitationBlock, i);
    FallbackPieces(QuestionQuote(question), EvidenceHeading, lines, SourcesHeading, blocks, Disclaimer,
                   Concat(ls[..i]), EvidenceLine(i + 1, enhanced[i]), Concat(ls[i + 1..]),
                   Concat(bs[..i]), CitationBlock(i + 1, enhanced[i]), Concat(bs[i + 1..]));
  }

  lemma FallbackPieces(quote: string, h1: string, lines: string, h2: string, blocks: string, tail: string,
                       l0: string, l: string, l1: string, b0: string, b: string, b1: string)
    requires lines == l0 + l + l1 && blocks == b0 + b + b1
    ensures var answer := quote + h1 + lines + h2 + blocks + tail;
      && IsPrefix(quote, answer) && Contains(answer, l) && Contains(answer, b)
      && EndsWith(answer, tail)
  {
    var upToLines := quote + h1 + lines;
    var upToBlocks := upToLines + h2 + blocks;
    ContainsMiddle(l0, l, l1);
    ContainsInRight(quote + h1, lines, l);
    ContainsInLeft(upToLines, h2, l);
    ContainsInLeft(upToLines + h2, blocks, l);
    ContainsInLeft(upToBlocks, tail, l);
    ContainsMiddle(b0, b, b1);
    ContainsInRight(upToLines + h2, blocks, b);
    ContainsInLeft(upToBlocks, tail, b);
    PrefixOfAppend(quote, h1, lines);
    PrefixExtends(quote, upToLines, h2);
    PrefixExtends(quote, upToLines + h2, blocks);
    PrefixExtends(quote, upToBlocks, tail);
    EndsWithAppend(upToBlocks, tail);
  }

  /** Each summary line carries the summary of its context. */
  lemma EvidenceLineCarries(i: nat, c: Context)
    ensures Contains(EvidenceLine(i, c), SummaryOf(c))
  {
    ContainsMiddle("\n" + NatToString(i) + ". ", SummaryOf(c), "\n");
  }
}
