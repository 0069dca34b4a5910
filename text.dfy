/**
 * ASCII models of the Python string builtins the retrieval and summary code
 * relies on: `lower`/`upper`, whitespace `split`, `strip`, `" ".join`,
 * substring `in`, `str.replace`, `re.sub(r'\s+', ' ', s)`,
 * `re.split(r'[.!?]+', s)` and `str(n)` for a natural number.
 *
 * Whitespace is what Python's `str.isspace()` says about the ASCII range
 * (tab, line feed, vertical tab, form feed, carriage return, the four
 * separators 0x1C to 0x1F and the space); Python also treats some non-ASCII
 * characters this way, which this model does not.
 */
module Text {

  predicate IsSpace(c: char) {
    (9 <= c as int <= 13) || (28 <= c as int <= 32)
  }

  /** The regex class `\d`, restricted to ASCII. */
  predicate IsDigit(c: char) {
    '0' <= c <= '9'
  }

  /** `c.isupper()` restricted to ASCII. */
  predicate IsUpper(c: char) {
    'A' <= c <= 'Z'
  }

  function LowerChar(c: char): (d: char)
    ensures IsSpace(d) == IsSpace(c)
    ensures !IsUpper(d)
  {
    if 'A' <= c <= 'Z' then (c as int + 32) as char else c
  }

  function UpperChar(c: char): (d: char)
    ensures IsSpace(d) == IsSpace(c)
  {
    if 'a' <= c <= 'z' then (c as int - 32) as char else c
  }

  /** `s.lower()`: maps every ASCII capital to its small letter. */
  function Lower(s: string): (r: string)
    ensures |r| == |s|
    ensures forall i :: 0 <= i < |s| ==> r[i] == LowerChar(s[i])
  {
    seq(|s|, i requires 0 <= i < |s| => LowerChar(s[i]))
  }

  // ---------------------------------------------------------------------
  // Substrings and replacement

  predicate IsPrefix(p: string, s: string) {
    |p| <= |s| && s[..|p|] == p
  }

  /** `p` occurs in `s` starting at position `i`. */
  predicate OccursAt(s: string, p: string, i: int) {
    0 <= i && i + |p| <= |s| && s[i..i + |p|] == p
  }

  /** Python's `p in s` on strings: `p` occurs somewhere in `s`. */
  predicate Contains(s: string, p: string) {
    exists i | 0 <= i <= |s| - |p| :: OccursAt(s, p, i)
  }

  /** A string starts with itself followed by anything. */
  lemma PrefixOfAppend(p: string, q: string, r: string)
    ensures IsPrefix(p, p + q + r)
  {
    assert (p + q + r)[..|p|] == p;
  }

  lemma ContainsSelf(s: string)
    ensures Contains(s, s)
  {
    assert s[0..|s|] == s;
    assert OccursAt(s, s, 0);
  }

  /** A string never contains a longer one. */
  lemma ContainsShorter(s: string, p: string)
    requires Contains(s, p)
    ensures |p| <= |s|
  {
  }

  /** An occurrence of an occurrence is an occurrence. */
  lemma ContainsTransitive(s: string, a: string, b: string)
    requires Contains(s, a) && Contains(a, b)
    ensures Contains(s, b)
  {
    var i :| 0 <= i <= |s| - |a| && OccursAt(s, a, i);
    var j :| 0 <= j <= |a| - |b| && OccursAt(a, b, j);
    assert i + j + |b| <= |s|;
    var t, u := s[i + j..i + j + |b|], a[j..j + |b|];
    forall k | 0 <= k < |b|
      ensures t[k] == u[k]
    {
      assert a[j + k] == s[i..i + |a|][j + k] == s[i + j + k];
    }
    assert t == u;
    assert OccursAt(s, b, i + j);
  }

  /**
   * `s.replace(p, r)`: scans left to right and replaces every
   * non-overlapping occurrence of `p` by `r`.
   */
  function ReplaceAll(s: string, p: string, r: string): string
    requires p != []
    decreases |s|
  {
    if |s| < |p| then s
    else if s[..|p|] == p then r + ReplaceAll(s[|p|..], p, r)
    else [s[0]] + ReplaceAll(s[1..], p, r)
  }

  /** Replacing a pattern that does not occur changes nothing. */
  lemma {:induction false} ReplaceAbsent(s: string, p: string, r: string)
    requires p != [] && !Contains(s, p)
    ensures ReplaceAll(s, p, r) == s
    decreases |s|
  {
    if |s| < |p| {
    } else {
      assert s[0..|p|] == s[..|p|];
      assert !OccursAt(s, p, 0);
      forall i | OccursAt(s[1..], p, i)
        ensures OccursAt(s, p, i + 1)
      {
        assert s[i + 1..i + 1 + |p|] == s[1..][i..i + |p|];
      }
      ReplaceAbsent(s[1..], p, r);
      assert [s[0]] + s[1..] == s;
    }
  }

  /** `p` cannot occur in `s` when its character at `k` appears in `s` only before position `k`. */
  lemma AbsentByChar(s: string, p: string, k: nat)
    requires k < |p|
    requires forall i :: 0 <= i < |s| && s[i] == p[k] ==> i < k
    ensures !Contains(s, p)
  {
    forall i | 0 <= i <= |s| - |p|
      ensures !OccursAt(s, p, i)
    {
      assert s[i..i + |p|][k] == s[i + k] != p[k];
    }
  }

  /** On a string as long as the pattern, replacement removes it exactly when it is the pattern. */
  lemma ReplaceSameLength(s: string, p: string)
    requires p != [] && |s| == |p|
    ensures ReplaceAll(s, p, "") == if s == p then "" else s
  {
    assert s[..|p|] == s;
    if s != p {
      assert |s[1..]| < |p|;
      assert [s[0]] + s[1..] == s;
    }
  }

  lemma ReplaceShorter(s: string, p: string, r: string)
    requires p != [] && |s| < |p|
    ensures ReplaceAll(s, p, r) == s
  {
  }

  // ---------------------------------------------------------------------
  // Whitespace: strip, split and join

  /** Drops leading whitespace (`lstrip()`). */
  function TrimLeft(s: string): (r: string)
    ensures |r| <= |s|
    ensures r != [] ==> !IsSpace(r[0])
  {
    if s != [] && IsSpace(s[0]) then TrimLeft(s[1..]) else s
  }

  /** What `lstrip()` drops is whitespace, and what it keeps is a suffix. */
  lemma {:induction false} TrimLeftShape(s: string)
    ensures TrimLeft(s) == s[|s| - |TrimLeft(s)|..]
    ensures forall i :: 0 <= i < |s| - |TrimLeft(s)| ==> IsSpace(s[i])
  {
    if s != [] && IsSpace(s[0]) {
      TrimLeftShape(s[1..]);
    }
  }

  /** Drops trailing whitespace (`rstrip()`). */
  function TrimRight(s: string): (r: string)
    ensures |r| <= |s|
    ensures r != [] ==> !IsSpace(r[|r| - 1])
  {
    if s != [] && IsSpace(s[|s| - 1]) then TrimRight(s[..|s| - 1]) else s
  }

  /** What `rstrip()` drops is whitespace, and what it keeps is a prefix. */
  lemma {:induction false} TrimRightShape(s: string)
    ensures TrimRight(s) == s[..|TrimRight(s)|]
    ensures forall i :: |TrimRight(s)| <= i < |s| ==> IsSpace(s[i])
  {
    if s != [] && IsSpace(s[|s| - 1]) {
      TrimRightShape(s[..|s| - 1]);
    }
  }

  /** `s.strip()`. */
  function Strip(s: string): string {
    TrimRight(TrimLeft(s))
  }

  /** No whitespace at either end. */
  predicate NoEdgeSpace(s: string) {
    s == [] || (!IsSpace(s[0]) && !IsSpace(s[|s| - 1]))
  }

  lemma StripIsTrimmed(s: string)
    ensures NoEdgeSpace(Strip(s))
    ensures exists a, b :: 0 <= a <= b <= |s| && Strip(s) == s[a..b]
  {
    var t := TrimLeft(s);
    var u := TrimRight(t);
    TrimLeftShape(s);
    TrimRightShape(t);
    var a, b := |s| - |t|, |s| - |t| + |u|;
    assert 0 <= a <= b <= |s| && Strip(s) == s[a..b];
  }

  /** A string that already has no outer whitespace is its own strip. */
  lemma StripNoEdge(s: string)
    requires NoEdgeSpace(s)
    ensures Strip(s) == s
  {
  }

  /** Stripping keeps a final character that is not whitespace. */
  lemma StripKeepsLast(s: string)
    requires s != [] && !IsSpace(s[|s| - 1])
    ensures Strip(s) != [] && Strip(s)[|Strip(s)| - 1] == s[|s| - 1]
  {
    var t := TrimLeft(s);
    TrimLeftShape(s);
    assert t != [] && t[|t| - 1] == s[|s| - 1];
  }

  /** A non-empty run of non-whitespace characters: one token of `split()`. */
  predicate IsWord(w: string) {
    w != [] && forall i :: 0 <= i < |w| ==> !IsSpace(w[i])
  }

  predicate AllWords(ws: seq<string>) {
    forall i :: 0 <= i < |ws| ==> IsWord(ws[i])
  }

  /** Length of the longest whitespace-free prefix. */
  function WordLen(s: string): (n: nat)
    ensures n <= |s|
    ensures forall i :: 0 <= i < n ==> !IsSpace(s[i])
    ensures n < |s| ==> IsSpace(s[n])
  {
    if s == [] || IsSpace(s[0]) then 0 else 1 + WordLen(s[1..])
  }

  /** `s.split()` with no argument: the maximal runs of non-whitespace, in order. */
  function Split(s: string): (r: seq<string>)
    ensures AllWords(r)
    decreases |s|
  {
    var t := TrimLeft(s);
    if t == [] then []
    else
      var n := WordLen(t);
      var rest := Split(t[n..]);
      AllWordsCons(t[..n], rest);
      [t[..n]] + rest
  }

  lemma AllWordsCons(w: string, ws: seq<string>)
    requires IsWord(w) && AllWords(ws)
    ensures AllWords([w] + ws)
  {
    forall i | 0 <= i < |ws| + 1
      ensures IsWord(([w] + ws)[i])
    {
      if i > 0 {
        assert ([w] + ws)[i] == ws[i - 1];
      }
    }
  }

  /** `sep.join(parts)`. */
  function Join(sep: string, parts: seq<string>): string {
    if parts == [] then ""
    else if |parts| == 1 then parts[0]
    else parts[0] + sep + Join(sep, parts[1..])
  }

  /** `words[:n]`. */
  function Take<T>(s: seq<T>, n: nat): (r: seq<T>)
    ensures |r| == if n < |s| then n else |s|
    ensures r == s[..|r|]
  {
    if n < |s| then s[..n] else s
  }

  lemma WordThenSpace(w: string, t: string)
    requires IsWord(w) && (t == [] || IsSpace(t[0]))
    ensures TrimLeft(w + t) == w + t && WordLen(w + t) == |w|
    ensures (w + t)[..|w|] == w && (w + t)[|w|..] == t
  {
    var s := w + t;
    assert s[0] == w[0];
    assert forall i :: 0 <= i < |w| ==> s[i] == w[i];
    assert |w| < |s| ==> s[|w|] == t[0];
  }

  lemma SplitWordThen(w: string, t: string)
    requires IsWord(w) && (t == [] || IsSpace(t[0]))
    ensures Split(w + t) == [w] + Split(t)
  {
    WordThenSpace(w, t);
  }

  lemma SplitSpaceThen(t: string)
    ensures Split(" " + t) == Split(t)
  {
    assert (" " + t)[1..] == t;
    assert TrimLeft(" " + t) == TrimLeft(t);
  }

  /** Splitting words joined by single spaces gives the words back. */
  lemma {:induction false} SplitJoin(ws: seq<string>)
    requires AllWords(ws)
    ensures Split(Join(" ", ws)) == ws
  {
    if ws == [] {
    } else if |ws| == 1 {
      SplitWordThen(ws[0], "");
      assert ws[0] + "" == ws[0];
    } else {
      var w, tail := ws[0], ws[1..];
      assert ws == [w] + tail;
      var rest := Join(" ", tail);
      assert AllWords(tail) by {
        forall i | 0 <= i < |tail| ensures IsWord(tail[i]) {
          assert tail[i] == ws[i + 1];
        }
      }
      assert Join(" ", ws) == w + (" " + rest) by {
        assert Join(" ", ws) == w + " " + rest;
      }
      SplitWordThen(w, " " + rest);
      SplitSpaceThen(rest);
      SplitJoin(tail);
    }
  }

  /** Parts joined by any separator start with the first part's first character and end with the last part's last character. */
  lemma {:induction false} JoinEnds(sep: string, ws: seq<string>)
    requires ws != [] && forall i :: 0 <= i < |ws| ==> ws[i] != []
    ensures var j := Join(sep, ws);
      j != [] && j[0] == ws[0][0] && j[|j| - 1] == ws[|ws| - 1][|ws[|ws| - 1]| - 1]
  {
    if |ws| > 1 {
      var tail := ws[1..];
      assert forall i :: 0 <= i < |tail| ==> tail[i] == ws[i + 1];
      JoinEnds(sep, tail);
      var rest := Join(sep, tail);
      assert Join(sep, ws) == (ws[0] + sep) + rest;
      EndsOfAppend(ws[0] + sep, rest);
      assert (ws[0] + sep)[0] == ws[0][0];
    }
  }

  lemma EndsOfAppend(a: string, b: string)
    requires a != [] && b != []
    ensures (a + b)[0] == a[0] && (a + b)[|a + b| - 1] == b[|b| - 1]
  {
  }

  /** Words joined by single spaces start and end with a word character. */
  lemma JoinWordsNoEdge(ws: seq<string>)
    requires AllWords(ws)
    ensures NoEdgeSpace(Join(" ", ws))
  {
    if ws != [] {
      JoinEnds(" ", ws);
    }
  }

  /** `" ".join(words).strip()` of words is the join itself, and `split()` recovers the words. */
  lemma JoinWords(ws: seq<string>)
    requires AllWords(ws)
    ensures Strip(Join(" ", ws)) == Join(" ", ws)
    ensures Split(Join(" ", ws)) == ws
  {
    JoinWordsNoEdge(ws);
    StripNoEdge(Join(" ", ws));
    SplitJoin(ws);
  }

  // ---------------------------------------------------------------------
  // Runs of whitespace

  /** No two adjacent whitespace characters. */
  predicate NoDoubleSpace(s: string) {
    forall i :: 0 <= i < |s| - 1 ==> !(IsSpace(s[i]) && IsSpace(s[i + 1]))
  }

  lemma NoDoubleCons(c: char, t: string)
    requires NoDoubleSpace(t)
    requires t != [] && IsSpace(c) ==> !IsSpace(t[0])
    ensures NoDoubleSpace([c] + t)
  {
    var s := [c] + t;
    forall i | 0 <= i < |s| - 1
      ensures !(IsSpace(s[i]) && IsSpace(s[i + 1]))
    {
      if i > 0 {
        assert s[i] == t[i - 1] && s[i + 1] == t[i];
      }
    }
  }

  lemma NoDoubleSlice(s: string, a: nat, b: nat)
    requires NoDoubleSpace(s) && a <= b <= |s|
    ensures NoDoubleSpace(s[a..b])
  {
    var t := s[a..b];
    forall i | 0 <= i < |t| - 1
      ensures !(IsSpace(t[i]) && IsSpace(t[i + 1]))
    {
      assert t[i] == s[a + i] && t[i + 1] == s[a + i + 1];
    }
  }

  lemma NoDoubleStrip(s: string)
    requires NoDoubleSpace(s)
    ensures NoDoubleSpace(Strip(s))
  {
    StripIsTrimmed(s);
    var a, b :| 0 <= a <= b <= |s| && Strip(s) == s[a..b];
    NoDoubleSlice(s, a, b);
  }

  lemma NoDoubleSnoc(t: string, c: char)
    requires NoDoubleSpace(t) && !IsSpace(c)
    ensures NoDoubleSpace(t + [c])
  {
    var s := t + [c];
    forall i | 0 <= i < |s| - 1
      ensures !(IsSpace(s[i]) && IsSpace(s[i + 1]))
    {
      assert s[i] == t[i];
      if i + 1 < |t| {
        assert s[i + 1] == t[i + 1];
      }
    }
  }

  /**
   * `re.sub(r'\s+', ' ', s)`: every maximal run of whitespace becomes one
   * space.
   */
  function CollapseSpaces(s: string): (r: string)
    ensures r == [] <==> s == []
    ensures r != [] ==> (IsSpace(r[0]) <==> IsSpace(s[0]))
    ensures NoDoubleSpace(r)
    decreases |s|
  {
    if s == [] then []
    else if IsSpace(s[0]) then
      var rest := CollapseSpaces(TrimLeft(s));
      NoDoubleCons(' ', rest);
      [' '] + rest
    else
      var rest := CollapseSpaces(s[1..]);
      NoDoubleCons(s[0], rest);
      [s[0]] + rest
  }

  /**
   * Dropping the space in front of a non-space character (`s.replace(' .', '.')`)
   * keeps a string free of double whitespace, and its first character is
   * whitespace only where the original's was.
   */
  lemma {:induction false} ReplaceSpaceBefore(s: string, c: char)
    requires !IsSpace(c) && NoDoubleSpace(s)
    ensures NoDoubleSpace(ReplaceAll(s, [' ', c], [c]))
    ensures s == [] <==> ReplaceAll(s, [' ', c], [c]) == []
    ensures s != [] && IsSpace(ReplaceAll(s, [' ', c], [c])[0]) ==> IsSpace(s[0])
    decreases |s|
  {
    var p := [' ', c];
    if |s| < 2 {
    } else if s[..2] == p {
      NoDoubleSlice(s, 2, |s|);
      ReplaceSpaceBefore(s[2..], c);
      NoDoubleCons(c, ReplaceAll(s[2..], p, [c]));
    } else {
      NoDoubleSlice(s, 1, |s|);
      ReplaceSpaceBefore(s[1..], c);
      var rest := ReplaceAll(s[1..], p, [c]);
      assert rest != [] && IsSpace(rest[0]) ==> IsSpace(s[1]);
      NoDoubleCons(s[0], rest);
    }
  }

  /** Only whitespace (or nothing at all). */
  predicate Blank(s: string) {
    forall i :: 0 <= i < |s| ==> IsSpace(s[i])
  }

  /** `s.strip()` is empty exactly when `s` is blank. */
  lemma StripBlank(s: string)
    ensures Strip(s) == [] <==> Blank(s)
  {
    var t := TrimLeft(s);
    TrimLeftShape(s);
    TrimRightShape(t);
    if t != [] {
      assert !IsSpace(t[0]);
      assert TrimRight(t) != [];
      assert !IsSpace(s[|s| - |t|]);
    }
  }

  lemma BlankTrimLeft(s: string)
    requires Blank(s)
    ensures TrimLeft(s) == []
  {
    TrimLeftShape(s);
  }

  lemma BlankCons(x: char, r: string)
    ensures Blank([x] + r) <==> IsSpace(x) && Blank(r)
  {
    assert forall i :: 0 <= i < |r| ==> ([x] + r)[i + 1] == r[i];
    assert ([x] + r)[0] == x;
  }

  /** What `lstrip()` keeps is blank exactly when the whole string is. */
  lemma BlankTrimmed(s: string)
    ensures Blank(TrimLeft(s)) <==> Blank(s)
  {
    var t := TrimLeft(s);
    TrimLeftShape(s);
    if t != [] {
      assert t[0] == s[|s| - |t|];
    }
  }

  /** Whitespace collapsing keeps a string blank, and keeps it non-blank. */
  lemma {:induction false} CollapseBlank(s: string)
    ensures Blank(CollapseSpaces(s)) <==> Blank(s)
    decreases |s|
  {
    if s == [] {
    } else if IsSpace(s[0]) {
      var t := TrimLeft(s);
      assert CollapseSpaces(s) == [' '] + CollapseSpaces(t);
      CollapseBlank(t);
      BlankCons(' ', CollapseSpaces(t));
      BlankTrimmed(s);
    } else {
      assert CollapseSpaces(s) == [s[0]] + CollapseSpaces(s[1..]);
      BlankCons(s[0], CollapseSpaces(s[1..]));
    }
  }

  /** A non-empty blank string collapses to a single space. */
  lemma CollapseOfBlank(s: string)
    requires s != [] && Blank(s)
    ensures CollapseSpaces(s) == " "
  {
    BlankTrimLeft(s);
    assert CollapseSpaces(s) == [' '] + CollapseSpaces(TrimLeft(s));
  }

  /** Dropping a space before a non-space character keeps a string blank, and keeps it non-blank. */
  lemma {:induction false} ReplaceBlank(s: string, c: char)
    requires !IsSpace(c)
    ensures Blank(ReplaceAll(s, [' ', c], [c])) <==> Blank(s)
    decreases |s|
  {
    var p := [' ', c];
    if |s| < 2 {
    } else if s[..2] == p {
      assert s[1] == c;
      assert ReplaceAll(s, p, [c])[0] == c;
    } else {
      var r := ReplaceAll(s[1..], p, [c]);
      assert s == [s[0]] + s[1..];
      ReplaceBlank(s[1..], c);
      assert ReplaceAll(s, p, [c]) == [s[0]] + r;
      BlankCons(s[0], r);
      BlankCons(s[0], s[1..]);
    }
  }

  /** The last character of a collapsed string, when the original ended with a non-space. */
  lemma {:induction false} CollapseKeepsLast(s: string)
    requires s != [] && !IsSpace(s[|s| - 1])
    ensures CollapseSpaces(s) != [] && CollapseSpaces(s)[|CollapseSpaces(s)| - 1] == s[|s| - 1]
    decreases |s|
  {
    if IsSpace(s[0]) {
      var t := TrimLeft(s);
      TrimLeftShape(s);
      assert t != [] && t[|t| - 1] == s[|s| - 1];
      CollapseKeepsLast(t);
    } else if |s| > 1 {
      CollapseKeepsLast(s[1..]);
    }
  }

  /** The first character after dropping spaces before `c`. */
  lemma ReplaceHead(s: string, c: char)
    requires s != []
    ensures var t := ReplaceAll(s, [' ', c], [c]);
      t != [] && t[0] == (if |s| >= 2 && s[..2] == [' ', c] then c else s[0])
  {
  }

  /** The last character after dropping spaces before `c`, when it was not a space. */
  lemma {:induction false} ReplaceKeepsLast(s: string, c: char)
    requires s != [] && s[|s| - 1] != ' '
    ensures var t := ReplaceAll(s, [' ', c], [c]);
      t != [] && t[|t| - 1] == s[|s| - 1]
    decreases |s|
  {
    var p := [' ', c];
    if |s| < 2 {
    } else if s[..2] == p {
      if |s| > 2 {
        ReplaceKeepsLast(s[2..], c);
      }
    } else {
      ReplaceKeepsLast(s[1..], c);
    }
  }

  /** No space directly in front of `c`. */
  predicate NoSpaceBefore(s: string, c: char) {
    forall i :: 0 <= i < |s| - 1 ==> !(s[i] == ' ' && s[i + 1] == c)
  }

  lemma NoSpaceBeforeCons(x: char, t: string, c: char)
    requires NoSpaceBefore(t, c)
    requires x == ' ' && t != [] ==> t[0] != c
    ensures NoSpaceBefore([x] + t, c)
  {
    var s := [x] + t;
    forall i | 0 <= i < |s| - 1
      ensures !(s[i] == ' ' && s[i + 1] == c)
    {
      if i > 0 {
        assert s[i] == t[i - 1] && s[i + 1] == t[i];
      }
    }
  }

  lemma NoSpaceBeforeSlice(s: string, c: char, a: nat, b: nat)
    requires NoSpaceBefore(s, c) && a <= b <= |s|
    ensures NoSpaceBefore(s[a..b], c)
  {
    var t := s[a..b];
    forall i | 0 <= i < |t| - 1
      ensures !(t[i] == ' ' && t[i + 1] == c)
    {
      assert t[i] == s[a + i] && t[i + 1] == s[a + i + 1];
    }
  }

  lemma NoSpaceBeforeStrip(s: string, c: char)
    requires NoSpaceBefore(s, c)
    ensures NoSpaceBefore(Strip(s), c)
  {
    StripIsTrimmed(s);
    var a, b :| 0 <= a <= b <= |s| && Strip(s) == s[a..b];
    NoSpaceBeforeSlice(s, c, a, b);
  }

  /** `s.replace(' ' + c, c)` on a string without double whitespace leaves no space in front of `c`. */
  lemma {:induction false} ReplaceRemovesSpaceBefore(s: string, c: char)
    requires !IsSpace(c) && NoDoubleSpace(s)
    ensures NoSpaceBefore(ReplaceAll(s, [' ', c], [c]), c)
    decreases |s|
  {
    var p := [' ', c];
    if |s| < 2 {
    } else if s[..2] == p {
      NoDoubleSlice(s, 2, |s|);
      ReplaceRemovesSpaceBefore(s[2..], c);
      NoSpaceBeforeCons(c, ReplaceAll(s[2..], p, [c]), c);
    } else {
      NoDoubleSlice(s, 1, |s|);
      ReplaceRemovesSpaceBefore(s[1..], c);
      ReplaceHead(s[1..], c);
      NoSpaceBeforeCons(s[0], ReplaceAll(s[1..], p, [c]), c);
    }
  }

  /** Dropping spaces before `c` creates no space in front of another character `d`. */
  lemma {:induction false} ReplaceKeepsNoSpaceBefore(s: string, c: char, d: char)
    requires c != d && c != ' ' && NoSpaceBefore(s, d)
    ensures NoSpaceBefore(ReplaceAll(s, [' ', c], [c]), d)
    decreases |s|
  {
    var p := [' ', c];
    if |s| < 2 {
    } else if s[..2] == p {
      NoSpaceBeforeSlice(s, d, 2, |s|);
      ReplaceKeepsNoSpaceBefore(s[2..], c, d);
      NoSpaceBeforeCons(c, ReplaceAll(s[2..], p, [c]), d);
    } else {
      NoSpaceBeforeSlice(s, d, 1, |s|);
      ReplaceKeepsNoSpaceBefore(s[1..], c, d);
      ReplaceHead(s[1..], c);
      NoSpaceBeforeCons(s[0], ReplaceAll(s[1..], p, [c]), d);
    }
  }

  /** `b` occurs in `a + b + c`. */
  lemma ContainsMiddle(a: string, b: string, c: string)
    ensures Contains(a + b + c, b)
  {
    assert (a + b + c)[|a|..|a| + |b|] == b;
    assert OccursAt(a + b + c, b, |a|);
  }

  /** A prefix of `s` is a prefix of anything `s` starts. */
  lemma PrefixExtends(p: string, s: string, t: string)
    requires IsPrefix(p, s)
    ensures IsPrefix(p, s + t)
  {
    assert (s + t)[..|p|] == s[..|p|];
  }

  /** An occurrence in `p` is one in `p + t`. */
  lemma ContainsInLeft(p: string, t: string, x: string)
    requires Contains(p, x)
    ensures Contains(p + t, x)
  {
    var i :| 0 <= i <= |p| - |x| && OccursAt(p, x, i);
    assert (p + t)[i..i + |x|] == p[i..i + |x|];
    assert OccursAt(p + t, x, i);
  }

  /** An occurrence in `t` is one in `p + t`. */
  lemma ContainsInRight(p: string, t: string, x: string)
    requires Contains(t, x)
    ensures Contains(p + t, x)
  {
    var i :| 0 <= i <= |t| - |x| && OccursAt(t, x, i);
    assert (p + t)[|p| + i..|p| + i + |x|] == t[i..i + |x|];
    assert OccursAt(p + t, x, |p| + i);
  }

  /** `re.search(r'\d+', s)` succeeds: some character is a digit. */
  predicate HasDigit(s: string) {
    exists i :: 0 <= i < |s| && IsDigit(s[i])
  }

  // ---------------------------------------------------------------------
  // Sentence fragments

  /** The characters of the regex class `[.!?]`. */
  predicate IsTerminator(c: char) {
    c == '.' || c == '!' || c == '?'
  }

  predicate NoTerminator(s: string) {
    forall i :: 0 <= i < |s| ==> !IsTerminator(s[i])
  }

  function SegmentLen(s: string): (n: nat)
    ensures n <= |s|
    ensures forall i :: 0 <= i < n ==> !IsTerminator(s[i])
    ensures n < |s| ==> IsTerminator(s[n])
  {
    if s == [] || IsTerminator(s[0]) then 0 else 1 + SegmentLen(s[1..])
  }

  function DropTerminators(s: string): (r: string)
    ensures |r| <= |s| && r == s[|s| - |r|..]
    ensures s != [] && IsTerminator(s[0]) ==> |r| < |s|
  {
    if s != [] && IsTerminator(s[0]) then DropTerminators(s[1..]) else s
  }

  /**
   * `re.split(r'[.!?]+', s)`: the pieces between maximal runs of sentence
   * terminators, including the empty piece before a leading run and after a
   * trailing one.
   */
  function Fragments(s: string): (r: seq<string>)
    ensures |r| >= 1
    ensures forall f :: f in r ==> NoTerminator(f)
    decreases |s|
  {
    var n := SegmentLen(s);
    if n == |s| then [s]
    else [s[..n]] + Fragments(DropTerminators(s[n..]))
  }

  lemma StripNoTerminator(s: string)
    requires NoTerminator(s)
    ensures NoTerminator(Strip(s))
  {
    StripIsTrimmed(s);
    var a, b :| 0 <= a <= b <= |s| && Strip(s) == s[a..b];
    var t := s[a..b];
    forall i | 0 <= i < |t|
      ensures !IsTerminator(t[i])
    {
      assert t[i] == s[a + i];
    }
  }

  // ---------------------------------------------------------------------
  // Numbers

  function DigitChar(d: nat): (c: char)
    requires d < 10
    ensures IsDigit(c)
  {
    ('0' as int + d) as char
  }

  /** `str(n)` for a natural number: its decimal digits. */
  function NatToString(n: nat): (r: string)
    ensures r != []
    ensures forall i :: 0 <= i < |r| ==> IsDigit(r[i])
  {
    if n < 10 then [DigitChar(n)] else NatToString(n / 10) + [DigitChar(n % 10)]
  }
}
