/**
 * `clean_summary_text` (qa_chain.py): runs of whitespace become one space,
 * a space in front of "." or "," is dropped, the first character is
 * upper-cased, a full stop is appended when the text does not end with
 * ".", "!" or "?", and the result is stripped.
 *
 * The function as written capitalises and terminates before it strips, so
 * leading whitespace hides the first letter from the capitalisation and
 * trailing whitespace ends up in front of the appended full stop.
 * `CleanSummaryTextAsWritten` keeps that order; `CleanSummaryText` strips
 * first, and the summariser uses it. The two agree on every text without
 * outer whitespace, which is what the extractive summariser passes.
 */
module SummaryText {
  import opened Text

  /** `re.sub(r'\s+', ' ', s)`, then `.replace(' .', '.')`, then `.replace(' ,', ',')`. */
  function Normalized(s: string): string {
    ReplaceAll(ReplaceAll(CollapseSpaces(s), " .", "."), " ,", ",")
  }

  /** A first character that is not a capital is upper-cased. */
  function Capitalized(s: string): string {
    if s != [] && !IsUpper(s[0]) then [UpperChar(s[0])] + s[1..] else s
  }

  /** A full stop is appended unless the text ends with ".", "!" or "?". */
  function Terminated(s: string): string {
    if s != [] && !IsTerminator(s[|s| - 1]) then s + "." else s
  }

  /** `clean_summary_text` as written: capitalise, terminate, then strip. */
  function CleanSummaryTextAsWritten(s: string): string {
    Strip(Terminated(Capitalized(Normalized(s))))
  }

  /** `clean_summary_text` with the strip done before the capital and the full stop. */
  function CleanSummaryText(s: string): string {
    Terminated(Capitalized(Strip(Normalized(s))))
  }

  // ---------------------------------------------------------------------
  // The steps

  /**
   * After normalising there is no double whitespace and no space in front
   * of a full stop or a comma; the text is empty, or blank, exactly when
   * the input was.
   */
  lemma NormalizedShape(s: string)
    ensures NoDoubleSpace(Normalized(s))
    ensures Normalized(s) == [] <==> s == []
    ensures Blank(Normalized(s)) <==> Blank(s)
    ensures NoSpaceBefore(Normalized(s), '.') && NoSpaceBefore(Normalized(s), ',')
  {
    var n1 := CollapseSpaces(s);
    var n2 := ReplaceAll(n1, [' ', '.'], ['.']);
    ReplaceSpaceBefore(n1, '.');
    ReplaceSpaceBefore(n2, ',');
    CollapseBlank(s);
    ReplaceBlank(n1, '.');
    ReplaceBlank(n2, ',');
    ReplaceRemovesSpaceBefore(n1, '.');
    ReplaceRemovesSpaceBefore(n2, ',');
    ReplaceKeepsNoSpaceBefore(n2, ',', '.');
  }

  /**
   * Capitalising changes the first character only, leaves it no small
   * letter, and keeps it whitespace exactly when it was.
   */
  lemma CapitalizedShape(t: string)
    ensures |Capitalized(t)| == |t|
    ensures forall i :: 0 < i < |t| ==> Capitalized(t)[i] == t[i]
    ensures t != [] ==> !('a' <= Capitalized(t)[0] <= 'z')
    ensures t != [] ==> (IsSpace(Capitalized(t)[0]) <==> IsSpace(t[0]))
    ensures t != [] ==> (Capitalized(t)[0] == ' ' <==> t[0] == ' ')
  {
  }

  lemma CapitalizedKeeps(t: string, c: char)
    ensures NoDoubleSpace(t) ==> NoDoubleSpace(Capitalized(t))
    ensures NoEdgeSpace(t) ==> NoEdgeSpace(Capitalized(t))
    ensures NoSpaceBefore(t, c) ==> NoSpaceBefore(Capitalized(t), c)
  {
    CapitalizedShape(t);
    var u := Capitalized(t);
    if |t| > 1 {
      assert u[|u| - 1] == t[|t| - 1];
      forall i | 0 <= i < |t|
        ensures (u[i] == ' ' <==> t[i] == ' ') && (IsSpace(u[i]) <==> IsSpace(t[i])) && (i > 0 ==> u[i] == t[i])
      {
      }
    }
  }

  /**
   * Terminating ends a non-empty text with ".", "!" or "?", keeps its first
   * character, and leaves a text that already ends that way alone.
   */
  lemma TerminatedShape(u: string)
    ensures u == [] ==> Terminated(u) == []
    ensures u != [] ==> Terminated(u) != [] && Terminated(u)[0] == u[0]
    ensures u != [] ==> IsTerminator(Terminated(u)[|Terminated(u)| - 1])
    ensures u != [] && IsTerminator(u[|u| - 1]) ==> Terminated(u) == u
  {
  }

  lemma TerminatedKeeps(u: string, c: char)
    ensures NoDoubleSpace(u) ==> NoDoubleSpace(Terminated(u))
    ensures NoEdgeSpace(u) ==> NoEdgeSpace(Terminated(u))
    ensures NoEdgeSpace(u) && NoSpaceBefore(u, c) ==> NoSpaceBefore(Terminated(u), c)
  {
    if u != [] && !IsTerminator(u[|u| - 1]) {
      if NoDoubleSpace(u) {
        NoDoubleSnoc(u, '.');
      }
      if NoEdgeSpace(u) && NoSpaceBefore(u, c) {
        var v := u + ".";
        forall i | 0 <= i < |v| - 1
          ensures !(v[i] == ' ' && v[i + 1] == c)
        {
          assert v[i] == u[i];
          if i + 1 < |u| {
            assert v[i + 1] == u[i + 1];
          }
        }
      }
    }
  }

  // ---------------------------------------------------------------------
  // What the cleaning guarantees

  /**
   * `clean_summary_text` as written: empty input gives empty output; any
   * other input, even blank, gives a text that ends with ".", "!" or "?",
   * has no outer whitespace and no two whitespace characters in a row.
   */
  lemma CleanAsWrittenShape(s: string)
    ensures CleanSummaryTextAsWritten(s) == [] <==> s == []
    ensures var r := CleanSummaryTextAsWritten(s);
      r != [] ==> IsTerminator(r[|r| - 1])
    ensures NoEdgeSpace(CleanSummaryTextAsWritten(s))
    ensures NoDoubleSpace(CleanSummaryTextAsWritten(s))
  {
    var n := Normalized(s);
    NormalizedShape(s);
    var u := Capitalized(n);
    CapitalizedShape(n);
    CapitalizedKeeps(n, '.');
    var v := Terminated(u);
    TerminatedShape(u);
    TerminatedKeeps(u, '.');
    StripIsTrimmed(v);
    NoDoubleStrip(v);
    if v != [] {
      StripKeepsLast(v);
    }
  }

  /** As written, a blank non-empty text is cleaned to a lone full stop. */
  lemma BlankBecomesStop(s: string)
    requires s != [] && Blank(s)
    ensures CleanSummaryTextAsWritten(s) == "."
    ensures CleanSummaryText(s) == ""
  {
    CollapseOfBlank(s);
    var n := Normalized(s);
    assert n == " ";
    assert Capitalized(n) == " ";
    assert Terminated(" ") == " .";
    assert TrimLeft(" .") == ".";
    assert Strip(n) == "";
  }

  /**
   * With the strip first: the result is empty exactly when the input is
   * blank; otherwise it starts with a character that is no small letter and
   * ends with ".", "!" or "?". It has no outer whitespace, no two
   * whitespace characters in a row, and no space in front of a full stop
   * or a comma.
   */
  lemma CleanSummaryTextShape(s: string)
    ensures CleanSummaryText(s) == [] <==> Blank(s)
    ensures var r := CleanSummaryText(s);
      r != [] ==> IsTerminator(r[|r| - 1]) && !('a' <= r[0] <= 'z')
    ensures NoEdgeSpace(CleanSummaryText(s)) && NoDoubleSpace(CleanSummaryText(s))
    ensures NoSpaceBefore(CleanSummaryText(s), '.') && NoSpaceBefore(CleanSummaryText(s), ',')
  {
    var n := Normalized(s);
    NormalizedShape(s);
    var t := Strip(n);
    StripBlank(n);
    StripIsTrimmed(n);
    NoDoubleStrip(n);
    NoSpaceBeforeStrip(n, '.');
    NoSpaceBeforeStrip(n, ',');
    var u := Capitalized(t);
    CapitalizedShape(t);
    CapitalizedKeeps(t, '.');
    CapitalizedKeeps(t, ',');
    TerminatedShape(u);
    TerminatedKeeps(u, '.');
    TerminatedKeeps(u, ',');
  }

  /** Normalising a text without outer whitespace leaves it without outer whitespace. */
  lemma NormalizedNoEdge(s: string)
    requires NoEdgeSpace(s)
    ensures NoEdgeSpace(Normalized(s))
  {
    if s != [] {
      var n1 := CollapseSpaces(s);
      var n2 := ReplaceAll(n1, [' ', '.'], ['.']);
      ReplaceSpaceBefore(n1, '.');
      ReplaceSpaceBefore(n2, ',');
      CollapseKeepsLast(s);
      ReplaceKeepsLast(n1, '.');
      ReplaceKeepsLast(n2, ',');
    }
  }

  /** On a text without outer whitespace the two orders agree. */
  lemma CleanAgrees(s: string)
    requires NoEdgeSpace(s)
    ensures CleanSummaryText(s) == CleanSummaryTextAsWritten(s)
  {
    var n := Normalized(s);
    NormalizedNoEdge(s);
    StripNoEdge(n);
    CapitalizedKeeps(n, '.');
    TerminatedKeeps(Capitalized(n), '.');
    StripNoEdge(Terminated(Capitalized(n)));
  }

  // ---------------------------------------------------------------------
  // Where the written order goes wrong

  /** Leading whitespace: as written the first letter stays small. */
  lemma LeadingSpaceStaysLower(s: string)
    requires s == " a"
    ensures CleanSummaryTextAsWritten(s) == "a."
    ensures CleanSummaryText(s) == "A."
  {
    assert TrimLeft(s) == "a";
    assert CollapseSpaces("a") == "a";
    assert CollapseSpaces(s) == " a";
    assert ReplaceAll("a", " .", ".") == "a";
    assert ReplaceAll(" a", " .", ".") == " a";
    assert ReplaceAll("a", " ,", ",") == "a";
    assert ReplaceAll(" a", " ,", ",") == " a";
    assert Normalized(s) == " a";
    assert Capitalized(" a") == " a";
    assert Terminated(" a") == " a.";
    assert TrimLeft(" a.") == "a.";
    assert Strip("a") == "a";
  }

  /** Trailing whitespace: as written a space is left in front of the appended full stop. */
  lemma TrailingSpaceBeforeStop(s: string)
    requires s == "a "
    ensures CleanSummaryTextAsWritten(s) == "A ."
    ensures CleanSummaryText(s) == "A."
    ensures !NoSpaceBefore(CleanSummaryTextAsWritten(s), '.')
  {
    assert TrimLeft(" ") == "";
    assert CollapseSpaces(" ") == " ";
    assert CollapseSpaces(s) == "a ";
    assert ReplaceAll(" ", " .", ".") == " ";
    assert ReplaceAll("a ", " .", ".") == "a ";
    assert ReplaceAll(" ", " ,", ",") == " ";
    assert ReplaceAll("a ", " ,", ",") == "a ";
    assert Normalized(s) == "a ";
    assert Capitalized("a ") == "A ";
    assert Terminated("A ") == "A .";
    assert TrimRight("A .") == "A .";
    assert TrimRight("a ") == "a";
    assert Strip("a ") == "a";
    assert ("A .")[1] == ' ' && ("A .")[2] == '.';
  }
}
