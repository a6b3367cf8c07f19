/**
 * The retraining job's input (`get_data`, `format_data`): the rows of the
 * last seven days are read back from their text form, and the annotations are
 * grouped per section text as `(text, {"entities": [(start, end, label)]})`.
 *
 * Time is a number of seconds; the query returns the rows in table order.
 */
module TrainingSet {
  import opened Wrappers
  import opened Text
  import Records

  datatype FormatError = IndexError | ValueError

  /** The four fields `format_data` reads from one row. */
  datatype Entry = Entry(text: string, start: int, end: int, tag: string)

  /** `(start, end, label)` */
  datatype Triple = Triple(start: int, end: int, tag: string)

  /** `(key, {"entities": list(set(value))})`; the list's order is not specified, so it is a set. */
  datatype Example = Example(text: string, entities: set<Triple>)

  // ---------------------------------------------------------------------------
  // One row
  // ---------------------------------------------------------------------------

  /** `row[7].upper()`, with "MEDICATION" renamed to "CHEMICAL". */
  function NormalizeLabel(raw: string): string
  {
    var upper := Upper(raw);
    if upper == "MEDICATION" then "CHEMICAL" else upper
  }

  /** The label is upper case, and is "CHEMICAL" exactly for the two labels that upper-case to it or to "MEDICATION". */
  lemma NormalizeLabelProperties(raw: string)
    ensures NormalizeLabel(raw) == "CHEMICAL" <==> Upper(raw) == "MEDICATION" || Upper(raw) == "CHEMICAL"
    ensures Upper(raw) != "MEDICATION" ==> NormalizeLabel(raw) == Upper(raw)
    ensures forall i :: 0 <= i < |NormalizeLabel(raw)| ==> !IsLower(NormalizeLabel(raw)[i])
  {
  }

  lemma NormalizeLabelExamples()
    ensures NormalizeLabel("medication") == "CHEMICAL"
    ensures NormalizeLabel("disease") == "DISEASE"
  {
    assert Upper("medication") == "MEDICATION";
    assert Upper("disease") == "DISEASE";
  }

  /**
   * The fields of one row, read in the source's order: `row[3]`, `int(row[5])`,
   * `int(row[6])`, `row[7].upper()`; a short row raises `IndexError` and a
   * non-integer start or end raises `ValueError`, whichever comes first.
   */
  function ParseRow(row: seq<string>): (r: Result<Entry, FormatError>)
    ensures r.Ok? ==> |row| >= 8 && r.value.text == row[3] && r.value.tag == NormalizeLabel(row[7])
    ensures r.Ok? ==> ParseInt(row[5]) == Some(r.value.start) && ParseInt(row[6]) == Some(r.value.end)
    ensures |row| < 6 ==> r == Err(IndexError)
  {
    if |row| <= 3 || |row| <= 5 then Err(IndexError)
    else match ParseInt(row[5])
      case None => Err(ValueError)
      case Some(start) =>
        if |row| <= 6 then Err(IndexError)
        else match ParseInt(row[6])
          case None => Err(ValueError)
          case Some(end) =>
            if |row| <= 7 then Err(IndexError)
            else Ok(Entry(row[3], start, end, NormalizeLabel(row[7])))
  }

  /** All rows parsed, or the first row's error. */
  function ParseAll(rows: seq<seq<string>>): (r: Result<seq<Entry>, FormatError>)
    ensures r.Ok? ==> |r.value| == |rows|
  {
    if rows == [] then Ok([])
    else match ParseAll(rows[..|rows| - 1])
      case Err(e) => Err(e)
      case Ok(entries) =>
        match ParseRow(rows[|rows| - 1])
        case Err(e) => Err(e)
        case Ok(entry) => Ok(entries + [entry])
  }

  // ---------------------------------------------------------------------------
  // Grouping by text
  // ---------------------------------------------------------------------------

  /** `text_dict`: its keys in insertion order, and the list under each key. */
  datatype Grouping = Grouping(keys: seq<string>, dict: map<string, seq<Triple>>)

  function TripleOf(e: Entry): Triple
  {
    Triple(e.start, e.end, e.tag)
  }

  /** One turn of the first loop: a new text gets an empty list, a known text gets the triple. */
  function AddEntry(g: Grouping, e: Entry): Grouping
  {
    if e.text !in g.dict then Grouping(g.keys + [e.text], g.dict[e.text := []])
    else Grouping(g.keys, g.dict[e.text := g.dict[e.text] + [TripleOf(e)]])
  }

  function Group(entries: seq<Entry>): (g: Grouping)
    ensures forall t :: t in g.dict <==> t in g.keys
  {
    if entries == [] then Grouping([], map[])
    else AddEntry(Group(entries[..|entries| - 1]), entries[|entries| - 1])
  }

  /** The second loop: one example per key, its entities the set of the key's list. */
  function Examples(g: Grouping): (r: seq<Example>)
    requires forall t :: t in g.keys ==> t in g.dict
    ensures |r| == |g.keys|
  {
    seq(|g.keys|, j requires 0 <= j < |g.keys| => Example(g.keys[j], Elements(g.dict[g.keys[j]])))
  }

  /** What `format_data` returns for the rows, or the error it raises. */
  function FormatSpec(rows: seq<seq<string>>): Result<seq<Example>, FormatError>
  {
    match ParseAll(rows)
    case Err(e) => Err(e)
    case Ok(entries) => Ok(Examples(Group(entries)))
  }

  /** `format_data` */
  method FormatData(trainingData: seq<seq<string>>) returns (r: Result<seq<Example>, FormatError>)
    ensures r == FormatSpec(trainingData)
  {
    var keys: seq<string> := [];
    var textDict: map<string, seq<Triple>> := map[];
    ghost var entries: seq<Entry> := [];
    for k := 0 to |trainingData|
      invariant ParseAll(trainingData[..k]) == Ok(entries)
      invariant Grouping(keys, textDict) == Group(entries)
    {
      var row := trainingData[k];
      var parsed := ParseRow(row);
      ParseStep(trainingData, k, entries);
      if parsed.Err? {
        ParseErrorStays(trainingData, k + 1);
        return Err(parsed.error);
      }
      keys, textDict := AddRow(keys, textDict, parsed.value);
      GroupSnoc(entries, parsed.value);
      entries := entries + [parsed.value];
    }
    assert trainingData[..|trainingData|] == trainingData;
    var formatted := ListExamples(keys, textDict);
    return Ok(formatted);
  }

  /** One turn of the first loop, on the row's parsed fields. */
  method AddRow(keys: seq<string>, textDict: map<string, seq<Triple>>, e: Entry)
    returns (keys': seq<string>, textDict': map<string, seq<Triple>>)
    ensures Grouping(keys', textDict') == AddEntry(Grouping(keys, textDict), e)
  {
    keys', textDict' := keys, textDict;
    if e.text !in textDict {
      keys' := keys + [e.text];
      textDict' := textDict[e.text := []];
    } else {
      textDict' := textDict[e.text := textDict[e.text] + [Triple(e.start, e.end, e.tag)]];
    }
  }

  /** The second loop of `format_data`: one pair per key of `text_dict`, in key order. */
  method ListExamples(keys: seq<string>, textDict: map<string, seq<Triple>>) returns (formatted: seq<Example>)
    requires forall t :: t in keys ==> t in textDict
    ensures formatted == Examples(Grouping(keys, textDict))
  {
    formatted := [];
    for j := 0 to |keys|
      invariant formatted == Examples(Grouping(keys, textDict))[..j]
    {
      formatted := formatted + [Example(keys[j], Elements(textDict[keys[j]]))];
    }
  }

  lemma ParseStep(rows: seq<seq<string>>, k: nat, entries: seq<Entry>)
    requires k < |rows| && ParseAll(rows[..k]) == Ok(entries)
    ensures ParseRow(rows[k]).Err? ==> ParseAll(rows[..k + 1]) == Err(ParseRow(rows[k]).error)
    ensures ParseRow(rows[k]).Ok? ==> ParseAll(rows[..k + 1]) == Ok(entries + [ParseRow(rows[k]).value])
  {
    assert rows[..k + 1][..k] == rows[..k];
  }

  lemma GroupSnoc(entries: seq<Entry>, e: Entry)
    ensures Group(entries + [e]) == AddEntry(Group(entries), e)
  {
    assert (entries + [e])[..|entries|] == entries;
  }

  lemma {:induction false} ParseErrorStays(rows: seq<seq<string>>, n: nat)
    requires 0 < n <= |rows|
    requires ParseAll(rows[..n]).Err?
    ensures ParseAll(rows) == ParseAll(rows[..n])
    decreases |rows| - n
  {
    if n < |rows| {
      assert rows[..n + 1][..n] == rows[..n];
      ParseErrorStays(rows, n + 1);
    } else {
      assert rows[..n] == rows;
    }
  }

  // ---------------------------------------------------------------------------
  // What the grouping holds
  // ---------------------------------------------------------------------------

  /** The texts of the entries. */
  function TextsOf(entries: seq<Entry>): set<string>
  {
    set k | 0 <= k < |entries| :: entries[k].text
  }

  /** The entry at `k` repeats the text of an earlier entry. */
  predicate Repeated(entries: seq<Entry>, k: nat)
    requires k < |entries|
  {
    entries[k].text in TextsOf(entries[..k])
  }

  /** The texts in order of first appearance. */
  function FirstTexts(entries: seq<Entry>): seq<string>
  {
    if entries == [] then []
    else
      var n := |entries| - 1;
      FirstTexts(entries[..n]) + (if Repeated(entries, n) then [] else [entries[n].text])
  }

  /** The triples of the rows with text `t` that follow another row with that text. */
  ghost function Collected(entries: seq<Entry>, t: string): set<Triple>
  {
    set k | 0 <= k < |entries| && entries[k].text == t && Repeated(entries, k) :: TripleOf(entries[k])
  }

  function Elements(s: seq<Triple>): set<Triple>
  {
    set x | x in s
  }

  lemma TextsOfSnoc(init: seq<Entry>, e: Entry)
    ensures TextsOf(init + [e]) == TextsOf(init) + {e.text}
  {
    var entries := init + [e];
    forall t | t in TextsOf(entries)
      ensures t in TextsOf(init) + {e.text}
    {
      var k :| 0 <= k < |entries| && entries[k].text == t;
      if k < |init| {
        assert init[k].text == t;
      }
    }
    forall t | t in TextsOf(init)
      ensures t in TextsOf(entries)
    {
      var k :| 0 <= k < |init| && init[k].text == t;
      assert entries[k].text == t;
    }
    assert entries[|init|].text == e.text;
  }

  lemma CollectedSnoc(init: seq<Entry>, e: Entry, t: string)
    ensures Collected(init + [e], t) ==
      Collected(init, t) + (if e.text == t && t in TextsOf(init) then {TripleOf(e)} else {})
  {
    var entries := init + [e];
    var n := |init|;
    assert entries[..n] == init;
    forall k | 0 <= k < n
      ensures entries[k] == init[k] && (Repeated(entries, k) <==> Repeated(init, k))
    {
      assert entries[..k] == init[..k];
    }
    forall x | x in Collected(entries, t)
      ensures x in Collected(init, t) + (if e.text == t && t in TextsOf(init) then {TripleOf(e)} else {})
    {
      var k :| 0 <= k < |entries| && entries[k].text == t && Repeated(entries, k) && TripleOf(entries[k]) == x;
      if k < n {
        assert init[k].text == t && Repeated(init, k);
      }
    }
    forall x | x in Collected(init, t)
      ensures x in Collected(entries, t)
    {
      var k :| 0 <= k < |init| && init[k].text == t && Repeated(init, k) && TripleOf(init[k]) == x;
      assert entries[k].text == t && Repeated(entries, k);
    }
    if e.text == t && t in TextsOf(init) {
      assert Repeated(entries, n);
      assert TripleOf(entries[n]) in Collected(entries, t);
    }
  }

  /**
   * One key per distinct text, in order of first appearance: the keys are
   * exactly the texts, without repetition.
   */
  lemma {:induction false} GroupKeys(entries: seq<Entry>)
    ensures forall t :: t in Group(entries).keys <==> t in TextsOf(entries)
    ensures Group(entries).keys == FirstTexts(entries)
    ensures forall i, j :: 0 <= i < j < |Group(entries).keys| ==> Group(entries).keys[i] != Group(entries).keys[j]
  {
    if entries != [] {
      var n := |entries| - 1;
      var init := entries[..n];
      var e := entries[n];
      GroupKeys(init);
      assert init + [e] == entries;
      TextsOfSnoc(init, e);
      var g := Group(init);
      assert Group(entries) == AddEntry(g, e);
      assert Repeated(entries, n) <==> e.text in g.keys;
      if e.text !in g.dict {
        DistinctSnoc(g.keys, e.text);
      }
    }
  }

  lemma DistinctSnoc(s: seq<string>, x: string)
    requires forall i, j :: 0 <= i < j < |s| ==> s[i] != s[j]
    requires x !in s
    ensures forall i, j :: 0 <= i < j < |s + [x]| ==> (s + [x])[i] != (s + [x])[j]
  {
  }

  /**
   * The first row seen for a text contributes nothing: the triples listed
   * under a text are those of the later rows with that text.
   */
  lemma {:induction false} GroupCollects(entries: seq<Entry>, t: string)
    requires t in Group(entries).dict
    ensures Elements(Group(entries).dict[t]) == Collected(entries, t)
  {
    var n := |entries| - 1;
    var init := entries[..n];
    var e := entries[n];
    assert init + [e] == entries;
    GroupKeys(init);
    CollectedSnoc(init, e, t);
    var g := Group(init);
    if t != e.text {
      GroupCollects(init, t);
    } else if t !in g.dict {
      assert Collected(init, t) == {} by {
        forall k | 0 <= k < |init|
          ensures init[k].text != t
        {
          assert init[k].text in TextsOf(init);
        }
      }
    } else {
      GroupCollects(init, t);
      assert Group(entries).dict[t] == g.dict[t] + [TripleOf(e)];
      assert Elements(g.dict[t] + [TripleOf(e)]) == Elements(g.dict[t]) + {TripleOf(e)};
    }
  }
  /** A text that only one row carries gets an empty entity list. */
  lemma SingleRowNoEntities(entries: seq<Entry>, k: nat)
    requires k < |entries|
    requires forall k' :: 0 <= k' < |entries| && k' != k ==> entries[k'].text != entries[k].text
    ensures entries[k].text in Group(entries).dict
    ensures Elements(Group(entries).dict[entries[k].text]) == {}
  {
    var t := entries[k].text;
    GroupKeys(entries);
    assert t in TextsOf(entries);
    GroupCollects(entries, t);
    forall k2 | 0 <= k2 < |entries| && entries[k2].text == t
      ensures !Repeated(entries, k2)
    {
      assert k2 == k;
      forall k' | 0 <= k' < k
        ensures entries[..k][k'].text != t
      {
        assert entries[..k][k'] == entries[k'];
      }
    }
  }

  /**
   * `format_data` returns one example per distinct text, in order of first
   * appearance, and each example's entities are the triples of the later
   * rows with its text.
   */
  lemma FormatSpecCorrect(rows: seq<seq<string>>)
    requires FormatSpec(rows).Ok?
    ensures var entries := ParseAll(rows).value;
      var examples := FormatSpec(rows).value;
      && |examples| == |FirstTexts(entries)|
      && (forall j :: 0 <= j < |examples| ==> examples[j].text == FirstTexts(entries)[j])
      && (forall i, j :: 0 <= i < j < |examples| ==> examples[i].text != examples[j].text)
      && (forall t :: t in TextsOf(entries) <==> exists j :: 0 <= j < |examples| && examples[j].text == t)
      && (forall j :: 0 <= j < |examples| ==> examples[j].entities == Collected(entries, examples[j].text))
  {
    var entries := ParseAll(rows).value;
    var g := Group(entries);
    var examples := FormatSpec(rows).value;
    assert examples == Examples(g);
    GroupKeys(entries);
    ExamplesFollowKeys(g);
    forall j | 0 <= j < |examples|
      ensures examples[j].entities == Collected(entries, examples[j].text)
    {
      GroupCollects(entries, g.keys[j]);
    }
  }

  /** The examples list the keys in order, each once. */
  lemma ExamplesFollowKeys(g: Grouping)
    requires forall t :: t in g.keys ==> t in g.dict
    ensures forall j :: 0 <= j < |Examples(g)| ==> Examples(g)[j].text == g.keys[j]
    ensures forall t :: t in g.keys <==> exists j :: 0 <= j < |Examples(g)| && Examples(g)[j].text == t
  {
    var examples := Examples(g);
    forall t | t in g.keys
      ensures exists j :: 0 <= j < |examples| && examples[j].text == t
    {
      var j :| 0 <= j < |g.keys| && g.keys[j] == t;
      assert examples[j].text == t;
    }
  }

  // ---------------------------------------------------------------------------
  // The weekly window and the split
  // ---------------------------------------------------------------------------

  /** Seven days in seconds. */
  const Week: int := 7 * 24 * 60 * 60

  /** `Data.query.filter(Data.timestamp > one_week_ago)` */
  function Recent(rows: seq<Records.Data>, now: int): (r: seq<Records.Data>)
    ensures forall d :: d in r <==> d in rows && d.timestamp > now - Week
  {
    if rows == [] then []
    else (if rows[0].timestamp > now - Week then [rows[0]] else []) + Recent(rows[1..], now)
  }

  /** `get_data`: each recent row's text form, split on "/col/". */
  function GetData(rows: seq<Records.Data>, now: int): (r: seq<seq<string>>)
    ensures |r| == |Recent(rows, now)|
  {
    var recent := Recent(rows, now);
    seq(|recent|, i requires 0 <= i < |recent| => Split(Records.Serialize(recent[i]), Records.Sep))
  }

  /**
   * A row the review pages store reads back as its own text, range and
   * normalised label, provided its text form splits back.
   */
  lemma ReadBack(d: Records.Data)
    requires Records.SplitsBack(d) && d.start.Some? && d.end.Some?
    ensures ParseRow(Split(Records.Serialize(d), Records.Sep)) ==
      Ok(Entry(d.text, d.start.value, d.end.value, NormalizeLabel(Records.ShowText(d.category))))
  {
    Records.RoundTrip(d);
    ParseIntToString(d.start.value);
    ParseIntToString(d.end.value);
  }

  /** Rows that each parse give the list of their entries, in order. */
  lemma {:induction false} ParseAllOk(rows: seq<seq<string>>)
    requires forall i :: 0 <= i < |rows| ==> ParseRow(rows[i]).Ok?
    ensures ParseAll(rows).Ok?
    ensures forall i :: 0 <= i < |rows| ==> ParseAll(rows).value[i] == ParseRow(rows[i]).value
    decreases |rows|
  {
    if rows != [] {
      ParseAllOk(rows[..|rows| - 1]);
    }
  }

  /**
   * `format_data(get_data())` reads every row of the week back, in query
   * order, as its text, range and normalised label, when each stored row's
   * text form splits back and carries a range.
   */
  lemma GetDataReadsBack(rows: seq<Records.Data>, now: int)
    requires forall d :: d in rows ==> Records.SplitsBack(d) && d.start.Some? && d.end.Some?
    ensures ParseAll(GetData(rows, now)).Ok?
    ensures var recent := Recent(rows, now);
      var entries := ParseAll(GetData(rows, now)).value;
      && |entries| == |recent|
      && forall i :: 0 <= i < |recent| ==>
        entries[i] == Entry(recent[i].text, recent[i].start.value, recent[i].end.value, NormalizeLabel(Records.ShowText(recent[i].category)))
  {
    var recent := Recent(rows, now);
    var data := GetData(rows, now);
    forall i | 0 <= i < |data|
      ensures ParseRow(data[i]) == Ok(Entry(recent[i].text, recent[i].start.value, recent[i].end.value, NormalizeLabel(Records.ShowText(recent[i].category))))
    {
      assert recent[i] in recent;
      ReadBack(recent[i]);
    }
    ParseAllOk(data);
  }
}
