/**
 * Query normalisation (retriever.py): `clean_medical_query` turns a clinical
 * question into a literature-search term, and `extract_medical_terms` finds
 * the dictionary phrases and words a question mentions.
 */
module QueryNormalizer {
  import opened Text

  /** The interrogative lead phrases, in the order the source lists them. */
  const LeadPhrasesAsWritten: seq<string> := [
    "what are the", "what is the", "what are", "what is",
    "how do", "how does", "how can", "how to",
    "when should", "when do", "when is",
    "why do", "why does", "why is",
    "where do", "where does", "where is"
  ]

  /**
   * The same phrases, longest first, ties in the listed order. Removing
   * them in this order removes each one completely (LeadPhrasesRemoved);
   * in the listed order "how do" eats the front of "how does"
   * (AsWrittenLeavesFragment). `CleanQuery` keeps the listed order, as
   * `clean_medical_query` does; `CleanQueryIntended` uses this one.
   */
  const LeadPhrases: seq<string> := [
    "what are the",
    "what is the", "when should",
    "where does",
    "what are", "how does", "why does", "where do", "where is",
    "what is", "how can", "when do", "when is",
    "how do", "how to", "why do", "why is"
  ]

  const Stopwords: seq<string> := ["a", "an", "the", "of", "at", "by"]

  predicate NonEmptyPhrases(phrases: seq<string>) {
    forall i :: 0 <= i < |phrases| ==> phrases[i] != []
  }

  /** `s.replace(p, "")` for every phrase `p`, in order. */
  function RemovePhrases(s: string, phrases: seq<string>): string
    requires NonEmptyPhrases(phrases)
    decreases |phrases|
  {
    if phrases == [] then s
    else RemovePhrases(ReplaceAll(s, phrases[0], ""), phrases[1..])
  }

  /** `[w for w in words if w not in medical_stopwords]`. */
  function DropStopwords(words: seq<string>): (r: seq<string>)
    ensures forall w :: w in r <==> w in words && w !in Stopwords
    ensures AllWords(words) ==> AllWords(r)
  {
    if words == [] then []
    else
      assert AllWords(words) ==> AllWords(words[1..]) by {
        if AllWords(words) {
          forall i | 0 <= i < |words| - 1 ensures IsWord(words[1..][i]) {
            assert words[1..][i] == words[i + 1];
          }
        }
      }
      assert words == [words[0]] + words[1..];
      (if words[0] in Stopwords then [] else [words[0]]) + DropStopwords(words[1..])
  }

  /**
   * The words kept after lead-phrase removal: stopwords go only when the
   * lead-stripped question has more than three words; the test is made on
   * the count before filtering.
   */
  function KeptWords(words: seq<string>): seq<string> {
    if |words| <= 3 then words else DropStopwords(words)
  }

  /** The fallback: at most six words of the question without "what are the" and "what is the". */
  function FallbackQuery(queryLower: string): string {
    Join(" ", Take(Split(ReplaceAll(ReplaceAll(queryLower, "what are the", ""), "what is the", "")), 6))
  }

  /**
   * The search term built from the lowercased, stripped question and its
   * lead-phrase-free remainder.
   */
  function SearchTerm(queryLower: string, cleaned: string): string {
    var result := Strip(Join(" ", KeptWords(Split(cleaned))));
    if |Split(result)| < 2 then FallbackQuery(queryLower) else result
  }

  /**
   * The search term `clean_medical_query` produces: the lead phrases are
   * removed in the order they are listed.
   */
  function CleanQuery(query: string): string {
    var queryLower := Strip(Lower(query));
    SearchTerm(queryLower, RemovePhrases(queryLower, LeadPhrasesAsWritten))
  }

  /** The search term with the lead phrases removed longest first, each one whole. */
  function CleanQueryIntended(query: string): string {
    var queryLower := Strip(Lower(query));
    SearchTerm(queryLower, RemovePhrases(queryLower, LeadPhrases))
  }

  lemma LeadPhrasesNonEmpty()
    ensures NonEmptyPhrases(LeadPhrases) && NonEmptyPhrases(LeadPhrasesAsWritten)
  {
  }

  /** Every lead phrase has at least six characters. */
  lemma LeadPhrasesLengths()
    ensures forall i :: 0 <= i < |LeadPhrases| ==> |LeadPhrases[i]| >= 6
    ensures forall i :: 0 <= i < |LeadPhrasesAsWritten| ==> |LeadPhrasesAsWritten[i]| >= 6
  {
  }

  /** The phrase-removal loop of `clean_medical_query`. */
  method RemoveLeadPhrases(s: string, phrases: seq<string>) returns (cleaned: string)
    requires NonEmptyPhrases(phrases)
    ensures cleaned == RemovePhrases(s, phrases)
  {
    cleaned := s;
    for i := 0 to |phrases|
      invariant RemovePhrases(cleaned, phrases[i..]) == RemovePhrases(s, phrases)
    {
      assert phrases[i..][1..] == phrases[i + 1..];
      cleaned := ReplaceAll(cleaned, phrases[i], "");
    }
  }

  method CleanMedicalQuery(query: string) returns (result: string)
    ensures result == CleanQuery(query)
  {
    LeadPhrasesNonEmpty();
    var queryLower := Strip(Lower(query));
    var cleaned := RemoveLeadPhrases(queryLower, LeadPhrasesAsWritten);
    result := Strip(Join(" ", KeptWords(Split(cleaned))));
    if |Split(result)| < 2 {
      result := FallbackQuery(queryLower);
    }
  }

  /**
   * What the search term consists of. When at least two words survive the
   * lead-phrase and stopword removal, the term is exactly those words (and
   * stopwords are gone only if there were more than three words before
   * filtering); otherwise it is the fallback, which has at most six words.
   * Either way it is its own words joined by single spaces.
   */
  lemma SearchTermShape(queryLower: string, cleaned: string)
    ensures var words := Split(cleaned);
      var r := SearchTerm(queryLower, cleaned);
      && (|KeptWords(words)| >= 2 ==>
            Split(r) == KeptWords(words)
            && (|words| <= 3 ==> Split(r) == words)
            && (|words| > 3 ==> forall w :: w in Split(r) ==> w !in Stopwords))
      && (|KeptWords(words)| < 2 ==> r == FallbackQuery(queryLower) && |Split(r)| <= 6)
      && r == Join(" ", Split(r))
  {
    KeptWordsShape(Split(cleaned));
    FallbackShape(queryLower);
  }

  lemma KeptWordsShape(words: seq<string>)
    requires AllWords(words)
    ensures var kept := KeptWords(words);
      && Strip(Join(" ", kept)) == Join(" ", kept)
      && Split(Join(" ", kept)) == kept
      && (|words| <= 3 ==> kept == words)
      && (|words| > 3 ==> forall w :: w in kept ==> w !in Stopwords)
  {
    JoinWords(KeptWords(words));
  }

  lemma FallbackShape(queryLower: string)
    ensures var r := FallbackQuery(queryLower);
      |Split(r)| <= 6 && r == Join(" ", Split(r))
  {
    var ws := Split(ReplaceAll(ReplaceAll(queryLower, "what are the", ""), "what is the", ""));
    var t := Take(ws, 6);
    forall i | 0 <= i < |t|
      ensures IsWord(t[i])
    {
      assert t[i] == ws[i];
    }
    JoinWords(t);
  }

  lemma LowerOfLowercase(s: string)
    requires forall i :: 0 <= i < |s| ==> 'a' <= s[i] <= 'z'
    ensures Lower(s) == s
  {
  }

  lemma {:induction false} RemoveLonger(s: string, phrases: seq<string>)
    requires NonEmptyPhrases(phrases)
    requires forall i :: 0 <= i < |phrases| ==> |phrases[i]| > |s|
    ensures RemovePhrases(s, phrases) == s
  {
    if phrases != [] {
      ReplaceShorter(s, phrases[0], "");
      RemoveLonger(s, phrases[1..]);
    }
  }

  /**
   * The fallback does not guarantee two words: a question that is one short
   * lowercase word (such as "fever") comes back as that word.
   */
  lemma {:induction false} FallbackMayStayShort(w: string)
    requires IsWord(w) && |w| < 6
    requires forall i :: 0 <= i < |w| ==> 'a' <= w[i] <= 'z'
    ensures CleanQuery(w) == w
    ensures |Split(CleanQuery(w))| == 1
  {
    LowerOfLowercase(w);
    StripNoEdge(w);
    LeadPhrasesNonEmpty();
    LeadPhrasesLengths();
    RemoveLonger(w, LeadPhrasesAsWritten);
    OneWordTerm(w);
  }

  lemma OneWordTerm(w: string)
    requires IsWord(w) && |w| < 6
    ensures SearchTerm(w, w) == w
    ensures Split(w) == [w]
  {
    OneWord(w);
    FallbackOfShortWord(w);
    assert KeptWords([w]) == [w];
  }

  lemma OneWord(w: string)
    requires IsWord(w)
    ensures Join(" ", [w]) == w && Split(w) == [w] && Strip(w) == w
  {
    assert Join(" ", [w]) == w;
    JoinWords([w]);
  }

  lemma FallbackOfShortWord(w: string)
    requires IsWord(w) && |w| < 6 && Split(w) == [w] && Join(" ", [w]) == w
    ensures FallbackQuery(w) == w
  {
    ReplaceShorter(w, "what are the", "");
    ReplaceShorter(w, "what is the", "");
    assert Take([w], 6) == [w];
  }

  // ---------------------------------------------------------------------
  // The lead-phrase ordering

  /** Each phrase is at least as long as the next. */
  predicate LongestFirst(phrases: seq<string>) {
    forall i :: 0 <= i < |phrases| - 1 ==> |phrases[i]| >= |phrases[i + 1]|
  }

  lemma {:induction false} LongestFirstHead(phrases: seq<string>, j: nat)
    requires LongestFirst(phrases) && j < |phrases|
    ensures |phrases[0]| >= |phrases[j]|
  {
    if j > 0 {
      LongestFirstHead(phrases, j - 1);
    }
  }

  lemma {:induction false} RemoveFromEmpty(phrases: seq<string>)
    requires NonEmptyPhrases(phrases)
    ensures RemovePhrases("", phrases) == ""
  {
    if phrases != [] {
      RemoveFromEmpty(phrases[1..]);
    }
  }

  /**
   * When the phrases come longest first, no phrase can be altered by an
   * earlier one before its own turn, so every phrase, taken alone, is
   * removed entirely.
   */
  lemma {:induction false} LongestFirstRemovesEach(phrases: seq<string>, j: nat)
    requires NonEmptyPhrases(phrases) && LongestFirst(phrases) && j < |phrases|
    ensures RemovePhrases(phrases[j], phrases) == ""
  {
    var first := phrases[0];
    var rest := phrases[1..];
    if j == 0 {
      ReplaceSameLength(first, first);
      RemoveFromEmpty(rest);
    } else {
      LongestFirstHead(phrases, j);
      var s := phrases[j];
      assert rest[j - 1] == s;
      if |s| < |first| {
        ReplaceShorter(s, first, "");
      } else {
        ReplaceSameLength(s, first);
      }
      if ReplaceAll(s, first, "") == "" {
        RemoveFromEmpty(rest);
      } else {
        LongestFirstRemovesEach(rest, j - 1);
      }
    }
  }

  /** The longest-first order (`LeadPhrases`, used only by `CleanQueryIntended`) removes every lead phrase completely. */
  lemma LeadPhrasesRemoved(j: nat)
    requires j < |LeadPhrases|
    ensures RemovePhrases(LeadPhrases[j], LeadPhrases) == ""
  {
    LeadPhrasesNonEmpty();
    assert LongestFirst(LeadPhrases);
    LongestFirstRemovesEach(LeadPhrases, j);
  }

  /** The longest-first list (`LeadPhrases`, used only by `CleanQueryIntended`) holds the same seventeen distinct phrases. */
  lemma LeadPhrasesReordered()
    ensures |LeadPhrases| == |LeadPhrasesAsWritten|
    ensures forall p :: p in LeadPhrases <==> p in LeadPhrasesAsWritten
    ensures NoDuplicates(LeadPhrases)
  {
  }

  /** Removing phrases that each leave `s` alone changes nothing. */
  lemma {:induction false} RemoveUnchanged(s: string, phrases: seq<string>, k: nat)
    requires NonEmptyPhrases(phrases) && k <= |phrases|
    requires forall i :: 0 <= i < k ==> ReplaceAll(s, phrases[i], "") == s
    ensures RemovePhrases(s, phrases) == RemovePhrases(s, phrases[k..])
  {
    if k > 0 {
      RemoveUnchanged(s, phrases[1..], k - 1);
      assert phrases[1..][k - 1..] == phrases[k..];
    }
  }

  /** Removing phrases none of which occurs in `s` changes nothing. */
  lemma {:induction false} RemoveAllAbsent(s: string, phrases: seq<string>)
    requires NonEmptyPhrases(phrases)
    requires forall i :: 0 <= i < |phrases| ==> !Contains(s, phrases[i])
    ensures RemovePhrases(s, phrases) == s
  {
    if phrases != [] {
      ReplaceAbsent(s, phrases[0], "");
      RemoveAllAbsent(s, phrases[1..]);
    }
  }

  /**
   * Phrase `k` is `w`, no earlier phrase occurs in `w + t` and no later one
   * in `t`: the removal takes exactly `w` off the front.
   */
  lemma {:induction false} RemoveLeading(w: string, t: string, phrases: seq<string>, k: nat)
    requires NonEmptyPhrases(phrases) && k < |phrases| && phrases[k] == w
    requires forall i :: 0 <= i < k ==> !Contains(w + t, phrases[i])
    requires forall i :: k <= i < |phrases| ==> !Contains(t, phrases[i])
    ensures RemovePhrases(w + t, phrases) == t
  {
    forall i | 0 <= i < k
      ensures ReplaceAll(w + t, phrases[i], "") == w + t
    {
      ReplaceAbsent(w + t, phrases[i], "");
    }
    RemoveUnchanged(w + t, phrases, k);
    ReplaceAbsent(t, w, "");
    assert (w + t)[..|w|] == w && (w + t)[|w|..] == t;
    assert ReplaceAll(w + t, w, "") == t;
    var rest := phrases[k + 1..];
    assert phrases[k..][1..] == rest;
    RemoveAllAbsent(t, rest);
  }

  /** Every lead phrase has an "h" at position 0 ("how ...") or at position 1 ("wh..."). */
  predicate HasH(p: string) {
    (|p| > 0 && p[0] == 'h') || (|p| > 1 && p[1] == 'h')
  }

  /** Every lead phrase has an "h"; the ones before "how do" as listed, and before "how does" longest first, have it second. */
  lemma LeadPhrasesHaveH()
    ensures forall j :: 0 <= j < |LeadPhrasesAsWritten| ==> HasH(LeadPhrasesAsWritten[j])
    ensures forall j :: 0 <= j < |LeadPhrases| ==> HasH(LeadPhrases[j])
    ensures LeadPhrasesAsWritten[4] == "how do" && LeadPhrases[5] == "how does"
    ensures forall j :: 0 <= j < 4 ==> |LeadPhrasesAsWritten[j]| > 1 && LeadPhrasesAsWritten[j][1] == 'h'
    ensures forall j :: 0 <= j < 5 ==> |LeadPhrases[j]| > 1 && LeadPhrases[j][1] == 'h'
  {
  }

  predicate NoH(s: string) {
    forall i :: 0 <= i < |s| ==> s[i] != 'h'
  }

  lemma NoHAppend(a: string, b: string)
    requires NoH(a) && NoH(b)
    ensures NoH(a + b)
  {
  }

  /** A phrase with an "h" does not occur in text without one. */
  lemma AbsentWithoutH(s: string, p: string)
    requires NoH(s) && HasH(p)
    ensures !Contains(s, p)
  {
    if p[0] == 'h' {
      AbsentByChar(s, p, 0);
    } else {
      AbsentByChar(s, p, 1);
    }
  }

  /** A "wh..." phrase does not occur in text whose only "h" is its first character. */
  lemma AbsentWithLeadingH(s: string, p: string)
    requires s != [] && NoH(s[1..]) && |p| > 1 && p[1] == 'h'
    ensures !Contains(s, p)
  {
    forall i | 1 <= i < |s|
      ensures s[i] != p[1]
    {
      assert s[i] == s[1..][i - 1];
    }
    AbsentByChar(s, p, 1);
  }

  /**
   * Phrase `k` is `w`, whose only "h" is its first character; every earlier
   * phrase has its "h" second and every later one has an "h" somewhere.
   * Then removal takes exactly `w` off the front of `w + t` when `t` has no
   * "h".
   */
  lemma RemoveLeadingH(w: string, t: string, phrases: seq<string>, k: nat)
    requires NonEmptyPhrases(phrases) && k < |phrases| && phrases[k] == w
    requires w != [] && NoH(w[1..]) && NoH(t)
    requires forall i :: 0 <= i < k ==> |phrases[i]| > 1 && phrases[i][1] == 'h'
    requires forall i :: k <= i < |phrases| ==> HasH(phrases[i])
    ensures RemovePhrases(w + t, phrases) == t
  {
    var s := w + t;
    assert s[1..] == w[1..] + t;
    NoHAppend(w[1..], t);
    forall i | 0 <= i < k
      ensures !Contains(s, phrases[i])
    {
      AbsentWithLeadingH(s, phrases[i]);
    }
    forall i | k <= i < |phrases|
      ensures !Contains(t, phrases[i])
    {
      AbsentWithoutH(t, phrases[i]);
    }
    RemoveLeading(w, t, phrases, k);
  }

  /**
   * In the listed order "how do" is removed before "how does" is tried, so
   * a question opening with "how does" keeps the fragment "es".
   */
  lemma AsWrittenLeavesFragment(t: string)
    requires NoH(t)
    ensures NonEmptyPhrases(LeadPhrasesAsWritten)
    ensures RemovePhrases("how does" + t, LeadPhrasesAsWritten) == "es" + t
  {
    NoHAppend("es", t);
    AsWrittenRemovesHowDo("es" + t);
    HowDoesSplits(t);
  }

  lemma HowDoesSplits(t: string)
    ensures "how does" + t == "how do" + ("es" + t)
  {
    assert "how does" == "how do" + "es";
    AppendAssoc("how do", "es", t);
  }

  /** In the listed order, "how do" is taken off the front of a question whose rest has no "h". */
  lemma AsWrittenRemovesHowDo(u: string)
    requires NoH(u)
    ensures NonEmptyPhrases(LeadPhrasesAsWritten)
    ensures RemovePhrases("how do" + u, LeadPhrasesAsWritten) == u
  {
    LeadPhrasesNonEmpty();
    LeadPhrasesHaveH();
    var w := "how do";
    assert w[1..] == "ow do";
    RemoveLeadingH(w, u, LeadPhrasesAsWritten, 4);
  }

  lemma AppendAssoc(a: string, b: string, c: string)
    ensures (a + b) + c == a + (b + c)
  {
  }

  /** Longest first, "how does" is removed whole from the front of a question. */
  lemma IntendedRemovesHowDoes(t: string)
    requires NoH(t)
    ensures NonEmptyPhrases(LeadPhrases)
    ensures RemovePhrases("how does" + t, LeadPhrases) == t
  {
    LeadPhrasesNonEmpty();
    LeadPhrasesHaveH();
    var w := "how does";
    assert w[1..] == "ow does";
    RemoveLeadingH(w, t, LeadPhrases, 5);
  }

  /** Lowercasing text without capitals changes nothing. */
  lemma LowerOfNoCapitals(s: string)
    requires forall i :: 0 <= i < |s| ==> !IsUpper(s[i])
    ensures Lower(s) == s
  {
  }

  /** The search term built from a remainder that is already words joined by single spaces. */
  lemma SearchTermOfWords(queryLower: string, cleaned: string, ws: seq<string>)
    requires Split(cleaned) == ws && 2 <= |ws| <= 3
    ensures SearchTerm(queryLower, cleaned) == Join(" ", ws)
  {
    JoinWords(ws);
  }

  lemma ExampleLowered(q: string)
    requires q == "how does metformin work"
    ensures Strip(Lower(q)) == q
  {
    LowerOfNoCapitals(q);
    StripNoEdge(q);
  }

  lemma ExampleRemovedAsWritten(q: string)
    requires q == "how does metformin work"
    ensures NonEmptyPhrases(LeadPhrasesAsWritten)
    ensures RemovePhrases(q, LeadPhrasesAsWritten) == "es metformin work"
  {
    var t := " metformin work";
    assert q == "how does" + t;
    assert "es" + t == "es metformin work";
    AsWrittenLeavesFragment(t);
  }

  lemma ExampleRemovedIntended(q: string)
    requires q == "how does metformin work"
    ensures NonEmptyPhrases(LeadPhrases)
    ensures RemovePhrases(q, LeadPhrases) == " metformin work"
  {
    var t := " metformin work";
    assert q == "how does" + t;
    IntendedRemovesHowDoes(t);
  }

  lemma ThreeWordsTerm(q: string, r: string)
    requires r == "es metformin work"
    ensures SearchTerm(q, r) == r
  {
    var ws := ["es", "metformin", "work"];
    assert r == Join(" ", ws);
    JoinedWordsTerm(q, ws);
  }

  lemma JoinedWordsTerm(q: string, ws: seq<string>)
    requires AllWords(ws) && 2 <= |ws| <= 3
    ensures SearchTerm(q, Join(" ", ws)) == Join(" ", ws)
  {
    JoinWords(ws);
    SearchTermOfWords(q, Join(" ", ws), ws);
  }

  lemma SpacedWordsTerm(q: string, ws: seq<string>)
    requires AllWords(ws) && 2 <= |ws| <= 3
    ensures SearchTerm(q, " " + Join(" ", ws)) == Join(" ", ws)
  {
    SplitSpaceThen(Join(" ", ws));
    JoinWords(ws);
    SearchTermOfWords(q, " " + Join(" ", ws), ws);
  }

  lemma TwoWordsTerm(q: string, r: string)
    requires r == " metformin work"
    ensures SearchTerm(q, r) == "metformin work"
  {
    var ws := ["metformin", "work"];
    assert Join(" ", ws) == "metformin work";
    assert r == " " + Join(" ", ws);
    SpacedWordsTerm(q, ws);
  }

  /**
   * As written, "how does metformin work" is searched as "es metformin
   * work": three words, so the fallback that would repair it never runs.
   */
  lemma HowDoesQuestionAsWritten(q: string)
    requires q == "how does metformin work"
    ensures CleanQuery(q) == "es metformin work"
  {
    ExampleLowered(q);
    ExampleRemovedAsWritten(q);
    ThreeWordsTerm(q, RemovePhrases(q, LeadPhrasesAsWritten));
  }

  /** Longest first, the same question is searched as "metformin work". */
  lemma HowDoesQuestionIntended(q: string)
    requires q == "how does metformin work"
    ensures CleanQueryIntended(q) == "metformin work"
  {
    ExampleLowered(q);
    ExampleRemovedIntended(q);
    TwoWordsTerm(q, RemovePhrases(q, LeadPhrases));
  }

  // ---------------------------------------------------------------------
  // Medical terms

  const MedicalPhrases: seq<string> := [
    "type 2 diabetes", "type 1 diabetes",
    "first-line treatment", "second-line treatment",
    "side effects", "adverse effects",
    "contraindications", "drug interactions",
    "ace inhibitors", "beta blockers",
    "blood pressure", "heart failure",
    "clinical trial", "systematic review",
    "meta-analysis", "guidelines"
  ]

  const ImportantWords: seq<string> := [
    "diabetes", "hypertension", "metformin", "insulin",
    "treatment", "therapy", "medication", "drug",
    "elderly", "pediatric", "pregnancy", "renal",
    "cardiovascular", "nephropathy", "retinopathy"
  ]

  /** The phrases, in list order, that occur as substrings of `query`. */
  function PhrasesIn(query: string, phrases: seq<string>): (r: seq<string>)
    ensures forall t :: t in r <==> t in phrases && Contains(query, t)
  {
    if phrases == [] then []
    else
      var last := phrases[|phrases| - 1];
      assert phrases == phrases[..|phrases| - 1] + [last];
      PhrasesIn(query, phrases[..|phrases| - 1]) + (if Contains(query, last) then [last] else [])
  }

  /** The words, in list order, that are whitespace tokens of the query. */
  function WordsIn(tokens: seq<string>, words: seq<string>): (r: seq<string>)
    ensures forall t :: t in r <==> t in words && t in tokens
  {
    if words == [] then []
    else
      var last := words[|words| - 1];
      assert words == words[..|words| - 1] + [last];
      WordsIn(tokens, words[..|words| - 1]) + (if last in tokens then [last] else [])
  }

  predicate NoDuplicates(s: seq<string>) {
    forall i, j :: 0 <= i < j < |s| ==> s[i] != s[j]
  }

  /** `list(set(s))`, keeping first occurrences in order. */
  function Dedup(s: seq<string>): (r: seq<string>)
    ensures NoDuplicates(r)
    ensures forall x :: x in r <==> x in s
  {
    if s == [] then []
    else
      var d := Dedup(s[..|s| - 1]);
      var x := s[|s| - 1];
      assert s == s[..|s| - 1] + [x];
      if x in d then d else d + [x]
  }

  /** The terms `extract_medical_terms` reports for a (lowercased) query. */
  function MedicalTerms(query: string): seq<string> {
    Dedup(PhrasesIn(query, MedicalPhrases) + WordsIn(Split(query), ImportantWords))
  }

  method ExtractMedicalTerms(query: string) returns (terms: seq<string>)
    ensures terms == MedicalTerms(query)
  {
    var found := FindPhrases(query, MedicalPhrases);
    var queryWords := Split(query);
    var hits := FindWords(queryWords, ImportantWords);
    terms := Dedup(found + hits);
  }

  /** The first loop of `extract_medical_terms`: the phrases found in the query. */
  method FindPhrases(query: string, phrases: seq<string>) returns (found: seq<string>)
    ensures found == PhrasesIn(query, phrases)
  {
    found := [];
    for i := 0 to |phrases|
      invariant found == PhrasesIn(query, phrases[..i])
    {
      assert phrases[..i + 1][..i] == phrases[..i];
      if Contains(query, phrases[i]) {
        found := found + [phrases[i]];
      }
    }
    assert phrases[..|phrases|] == phrases;
  }

  /** The second loop of `extract_medical_terms`: the dictionary words among the query's tokens. */
  method FindWords(tokens: seq<string>, words: seq<string>) returns (hits: seq<string>)
    ensures hits == WordsIn(tokens, words)
  {
    hits := [];
    for i := 0 to |words|
      invariant hits == WordsIn(tokens, words[..i])
    {
      assert words[..i + 1][..i] == words[..i];
      if words[i] in tokens {
        hits := hits + [words[i]];
      }
    }
    assert words[..|words|] == words;
  }

  /**
   * The reported terms are duplicate-free and are exactly the dictionary
   * phrases occurring in the query plus the dictionary words that are
   * whitespace tokens of it.
   */
  lemma MedicalTermsExact(query: string)
    ensures NoDuplicates(MedicalTerms(query))
    ensures forall t :: t in MedicalTerms(query) <==>
      (t in MedicalPhrases && Contains(query, t)) || (t in ImportantWords && t in Split(query))
  {
  }
}
