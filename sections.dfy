/**
 * Section segmentation of a clinical note (`categorize_note`): the header
 * phrases of a fixed vocabulary are found in the lower-cased note, sorted by
 * their start token, and each header owns the original-case text from its
 * end up to the start of the next header, or to the end of the note.
 *
 * The phrase matcher is not modelled: its matches on the lower-cased document
 * are an input, as (phrase, start token, end token), and the original-case
 * document is the token sequence `doc`.
 */
module Sections {
  import opened Doc
  import Sorting

  /** The section headers, in the order the result dictionary is built. */
  const Terminology: seq<string> := [
    "history of present illness", "past medical and surgical history",
    "past medical history", "review of systems", "family history",
    "social history", "medications prior to admission",
    "allergies", "physical examination", "electrocardiogram", "impression",
    "recommendations"]

  /** The text a section keeps when its header never occurs. */
  const Unset: string := "None"

  /** A phrase-matcher hit: the matched header text and its token range. */
  datatype PhraseMatch = PhraseMatch(phrase: string, start: nat, end: nat)

  function StartOf(m: PhraseMatch): int { m.start }

  /** `sorted(results, key=lambda tup: tup[1])` */
  function SortByStart(matches: seq<PhraseMatch>): seq<PhraseMatch>
  {
    Sorting.SortBy(matches, StartOf)
  }

  /** The matches are assigned in ascending start-token order, each match exactly once. */
  lemma SortByStartCorrect(matches: seq<PhraseMatch>)
    ensures multiset(SortByStart(matches)) == multiset(matches)
    ensures forall i, j :: 0 <= i < j < |SortByStart(matches)| ==> SortByStart(matches)[i].start <= SortByStart(matches)[j].start
  {
    Sorting.SortByCorrect(matches, StartOf);
  }

  /** The dictionary before any header is assigned: every vocabulary entry maps to "None". */
  function Initial(): map<string, string>
  {
    map k | k in Terminology :: Unset
  }

  /**
   * The tokens owned by the `i`-th of the sorted matches: from its end to the
   * next match's start, or to the end of the note when it is the last match or
   * the next one starts at token 0 (that start is falsy in the source's test).
   */
  function Owned(doc: seq<Token>, results: seq<PhraseMatch>, i: nat): seq<Token>
    requires i < |results|
  {
    if i < |results| - 1 && results[i + 1].start != 0 then Slice(doc, results[i].end, results[i + 1].start)
    else SliceFrom(doc, results[i].end)
  }

  function SectionText(doc: seq<Token>, results: seq<PhraseMatch>, i: nat): string
    requires i < |results|
  {
    SpanText(Owned(doc, results, i))
  }

  /** A next header at token 0 fails the source's truth test, so the section runs to the end of the note. */
  lemma NextAtZeroOwnsRest(doc: seq<Token>, results: seq<PhraseMatch>, i: nat)
    requires i < |results| - 1 && results[i + 1].start == 0 && results[i].end <= |doc|
    ensures SectionText(doc, results, i) == SpanText(doc[results[i].end..])
  {
  }

  /** The text owned by each of the sorted matches, in order. */
  function OwnedTexts(doc: seq<Token>, results: seq<PhraseMatch>, k: nat): (texts: seq<string>)
    requires k <= |results|
    ensures |texts| == k
  {
    if k == 0 then [] else OwnedTexts(doc, results, k - 1) + [SectionText(doc, results, k - 1)]
  }

  lemma {:induction false} OwnedTextAt(doc: seq<Token>, results: seq<PhraseMatch>, k: nat, i: nat)
    requires i < k <= |results|
    ensures OwnedTexts(doc, results, k)[i] == SectionText(doc, results, i)
  {
    if i < k - 1 {
      OwnedTextAt(doc, results, k - 1, i);
    }
  }

  /**
   * The dictionary `init` after the first `k` sorted matches have been
   * assigned, the `j`-th match's phrase receiving `texts[j]`.
   */
  function Assign(init: map<string, string>, results: seq<PhraseMatch>, texts: seq<string>, k: nat): map<string, string>
    requires k <= |results| == |texts|
  {
    if k == 0 then init
    else Assign(init, results, texts, k - 1)[results[k - 1].phrase := texts[k - 1]]
  }

  /** The value `categorize_note` returns, as section name -> section text. */
  function Categorize(doc: seq<Token>, matches: seq<PhraseMatch>): map<string, string>
  {
    var results := SortByStart(matches);
    Assign(Initial(), results, OwnedTexts(doc, results, |results|), |results|)
  }

  /** The dictionary literal `categorize_note` starts from is `Initial()`. */
  lemma InitialLiteral()
    ensures map[
      "history of present illness" := Unset,
      "past medical and surgical history" := Unset,
      "past medical history" := Unset,
      "review of systems" := Unset,
      "family history" := Unset,
      "social history" := Unset,
      "medications prior to admission" := Unset,
      "allergies" := Unset,
      "physical examination" := Unset,
      "electrocardiogram" := Unset,
      "impression" := Unset,
      "recommendations" := Unset] == Initial()
  {
    var t := Terminology;
    assert t == [t[0], t[1], t[2], t[3], t[4], t[5], t[6], t[7], t[8], t[9], t[10], t[11]];
    assert Initial() == map[t[0] := Unset, t[1] := Unset, t[2] := Unset, t[3] := Unset, t[4] := Unset, t[5] := Unset,
                            t[6] := Unset, t[7] := Unset, t[8] := Unset, t[9] := Unset, t[10] := Unset, t[11] := Unset];
  }

  /** `categorize_note`: fills the dictionary in one pass over the sorted matches. */
  method CategorizeNote(doc: seq<Token>, matches: seq<PhraseMatch>) returns (categories: map<string, string>)
    ensures categories == Categorize(doc, matches)
  {
    categories := map[
      "history of present illness" := Unset,
      "past medical and surgical history" := Unset,
      "past medical history" := Unset,
      "review of systems" := Unset,
      "family history" := Unset,
      "social history" := Unset,
      "medications prior to admission" := Unset,
      "allergies" := Unset,
      "physical examination" := Unset,
      "electrocardiogram" := Unset,
      "impression" := Unset,
      "recommendations" := Unset];
    InitialLiteral();
    var results := SortByStart(matches);
    categories := FillSections(categories, doc, results);
  }

  /** The loop of `categorize_note`: each sorted match in turn stores the text it owns under its phrase. */
  method FillSections(init: map<string, string>, doc: seq<Token>, results: seq<PhraseMatch>) returns (categories: map<string, string>)
    ensures categories == Assign(init, results, OwnedTexts(doc, results, |results|), |results|)
  {
    categories := init;
    ghost var texts := OwnedTexts(doc, results, |results|);
    for i := 0 to |results|
      invariant categories == Assign(init, results, texts, i)
    {
      categories := StoreSection(categories, doc, results, i);
      OwnedTextAt(doc, results, |results|, i);
    }
  }

  /**
   * One turn of that loop: the section runs from the match's end to the next
   * match's start, or to the end of the note when there is no next match or
   * it starts at token 0.
   */
  method StoreSection(categories: map<string, string>, doc: seq<Token>, results: seq<PhraseMatch>, i: nat)
    returns (updated: map<string, string>)
    requires i < |results|
    ensures updated == categories[results[i].phrase := SectionText(doc, results, i)]
  {
    var result := results[i];
    var hasNext := i < |results| - 1;
    var category := result.phrase;
    var start := result.end;
    var end := if hasNext then results[i + 1].start else 0;
    if end != 0 {
      updated := categories[category := SpanText(Slice(doc, start, end))];
    } else {
      updated := categories[category := SpanText(SliceFrom(doc, start))];
    }
  }

  // ---------------------------------------------------------------------------
  // What the dictionary holds
  // ---------------------------------------------------------------------------

  ghost function Phrases(results: seq<PhraseMatch>): set<string>
  {
    set j | 0 <= j < |results| :: results[j].phrase
  }

  /** The dictionary's keys are the initial ones plus every phrase assigned so far. */
  lemma {:induction false} AssignKeys(init: map<string, string>, results: seq<PhraseMatch>, texts: seq<string>, k: nat)
    requires k <= |results| == |texts|
    ensures Assign(init, results, texts, k).Keys == init.Keys + Phrases(results[..k])
  {
    if k > 0 {
      AssignKeys(init, results, texts, k - 1);
      assert results[..k] == results[..k - 1] + [results[k - 1]];
      assert Phrases(results[..k]) == Phrases(results[..k - 1]) + {results[k - 1].phrase} by {
        forall p | p in Phrases(results[..k])
          ensures p in Phrases(results[..k - 1]) + {results[k - 1].phrase}
        {
          var j :| 0 <= j < k && results[..k][j].phrase == p;
          if j < k - 1 {
            assert results[..k - 1][j].phrase == p;
          }
        }
        forall p | p in Phrases(results[..k - 1])
          ensures p in Phrases(results[..k])
        {
          var j :| 0 <= j < k - 1 && results[..k - 1][j].phrase == p;
          assert results[..k][j].phrase == p;
        }
        assert results[..k][k - 1].phrase == results[k - 1].phrase;
      }
    }
  }

  /**
   * The text stored under a header comes from its LAST occurrence among the
   * sorted matches: a header matched twice is overwritten by the later match.
   */
  lemma {:induction false} AssignLastOccurrence(init: map<string, string>, results: seq<PhraseMatch>, texts: seq<string>, k: nat, j: nat)
    requires j < k <= |results| == |texts|
    requires forall j' :: j < j' < k ==> results[j'].phrase != results[j].phrase
    ensures results[j].phrase in Assign(init, results, texts, k)
    ensures Assign(init, results, texts, k)[results[j].phrase] == texts[j]
  {
    var p := results[j].phrase;
    var before := Assign(init, results, texts, k - 1);
    assert Assign(init, results, texts, k) == before[results[k - 1].phrase := texts[k - 1]];
    if j < k - 1 {
      AssignLastOccurrence(init, results, texts, k - 1, j);
      assert results[k - 1].phrase != p;
    }
  }

  /** A key that no match carries keeps its initial text. */
  lemma {:induction false} AssignUnmatched(init: map<string, string>, results: seq<PhraseMatch>, texts: seq<string>, k: nat, p: string)
    requires k <= |results| == |texts|
    requires p in init
    requires forall j :: 0 <= j < k ==> results[j].phrase != p
    ensures p in Assign(init, results, texts, k) && Assign(init, results, texts, k)[p] == init[p]
  {
    if k > 0 {
      AssignUnmatched(init, results, texts, k - 1, p);
    }
  }

  /**
   * When every match carries a vocabulary phrase, `categorize_note` returns
   * exactly the twelve vocabulary keys.
   */
  lemma CategorizeKeys(doc: seq<Token>, matches: seq<PhraseMatch>)
    requires forall m :: m in matches ==> m.phrase in Terminology
    ensures Categorize(doc, matches).Keys == set t | t in Terminology
    ensures |Categorize(doc, matches).Keys| == 12
  {
    var results := SortByStart(matches);
    Sorting.SortByCorrect(matches, StartOf);
    AssignKeys(Initial(), results, OwnedTexts(doc, results, |results|), |results|);
    assert results[..|results|] == results;
    forall p | p in Phrases(results)
      ensures p in Terminology
    {
      var j :| 0 <= j < |results| && results[j].phrase == p;
      assert results[j] in multiset(matches);
    }
    TerminologyDistinct();
  }

  /** The twelve headers are pairwise different. */
  lemma TerminologyDistinct()
    ensures |set t | t in Terminology| == 12
  {
    forall i, j | 0 <= i < j < |Terminology|
      ensures Terminology[i] != Terminology[j]
    {
      var a, b := Terminology[i], Terminology[j];
      if |a| == |b| {
        assert a[1] != b[1] || a[0] != b[0];
      }
    }
    DistinctCard(Terminology);
  }

  lemma {:induction false} DistinctCard(s: seq<string>)
    requires forall i, j :: 0 <= i < j < |s| ==> s[i] != s[j]
    ensures |set t | t in s| == |s|
  {
    if s != [] {
      DistinctCard(s[1..]);
      assert (set t | t in s) == (set t | t in s[1..]) + {s[0]};
      assert s[0] !in s[1..];
    }
  }

  /** A vocabulary header that no match carries maps to "None" in the result of `categorize_note`. */
  lemma CategorizeUnmatched(doc: seq<Token>, matches: seq<PhraseMatch>, p: string)
    requires p in Terminology
    requires forall m :: m in matches ==> m.phrase != p
    ensures p in Categorize(doc, matches) && Categorize(doc, matches)[p] == Unset
  {
    var results := SortByStart(matches);
    Sorting.SortByCorrect(matches, StartOf);
    forall j | 0 <= j < |results|
      ensures results[j].phrase != p
    {
      assert results[j] in multiset(matches);
    }
    assert p in Initial();
    AssignUnmatched(Initial(), results, OwnedTexts(doc, results, |results|), |results|, p);
  }

  /**
   * A header stores the text owned by its last occurrence among the sorted
   * matches: a header matched twice is overwritten by the later match.
   */
  lemma CategorizeLastOccurrence(doc: seq<Token>, matches: seq<PhraseMatch>, j: nat)
    requires j < |SortByStart(matches)|
    requires forall j' :: j < j' < |SortByStart(matches)| ==> SortByStart(matches)[j'].phrase != SortByStart(matches)[j].phrase
    ensures SortByStart(matches)[j].phrase in Categorize(doc, matches)
    ensures Categorize(doc, matches)[SortByStart(matches)[j].phrase] == SectionText(doc, SortByStart(matches), j)
  {
    var results := SortByStart(matches);
    AssignLastOccurrence(Initial(), results, OwnedTexts(doc, results, |results|), |results|, j);
    OwnedTextAt(doc, results, |results|, j);
  }

  // ---------------------------------------------------------------------------
  // How the sections cut the note
  // ---------------------------------------------------------------------------

  /** Sorted, non-overlapping header matches that lie inside the note. */
  predicate Disjoint(doc: seq<Token>, results: seq<PhraseMatch>)
  {
    && (forall i :: 0 <= i < |results| ==> results[i].start < results[i].end <= |doc|)
    && (forall i :: 0 <= i < |results| - 1 ==> results[i].end <= results[i + 1].start)
  }

  /** Header tokens, then owned tokens, for the matches from the `j`-th on. */
  function Cover(doc: seq<Token>, results: seq<PhraseMatch>, j: nat): seq<Token>
    requires j <= |results|
    decreases |results| - j
  {
    if j == |results| then []
    else Slice(doc, results[j].start, results[j].end) + Owned(doc, results, j) + Cover(doc, results, j + 1)
  }

  /**
   * For disjoint headers the sections tile the note: the headers and the text
   * each one owns, in order, are exactly the tokens from the first header to
   * the end of the note, with no gap and no overlap. Tokens before the first
   * header are in no section.
   */
  lemma {:induction false} SectionsTile(doc: seq<Token>, results: seq<PhraseMatch>, j: nat)
    requires Disjoint(doc, results)
    requires j < |results|
    ensures Cover(doc, results, j) == doc[results[j].start..]
    decreases |results| - j
  {
    var m := results[j];
    var head := Slice(doc, m.start, m.end);
    assert head == doc[m.start..m.end];
    assert Cover(doc, results, j) == head + Owned(doc, results, j) + Cover(doc, results, j + 1);
    if j == |results| - 1 {
      assert Owned(doc, results, j) == doc[m.end..];
      assert Cover(doc, results, j + 1) == [];
      JoinSuffix(doc, m.start, m.end);
    } else {
      SectionsTile(doc, results, j + 1);
      var next := results[j + 1];
      assert Owned(doc, results, j) == doc[m.end..next.start];
      JoinSlices(doc, m.start, m.end, next.start);
      JoinSuffix(doc, m.start, next.start);
    }
  }

  lemma JoinSlices<T>(s: seq<T>, a: nat, b: nat, c: nat)
    requires a <= b <= c <= |s|
    ensures s[a..b] + s[b..c] == s[a..c]
  {
  }

  lemma JoinSuffix<T>(s: seq<T>, a: nat, b: nat)
    requires a <= b <= |s|
    ensures s[a..b] + s[b..] == s[a..]
  {
  }
}
