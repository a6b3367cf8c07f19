/**
 * Entity extraction for one section (`parse_entities`, `parse_medication`):
 * diseases are the recogniser's spans labelled DISEASE; medications come from
 * the token matcher's hits, where consecutive hits that share a start token
 * are coalesced into one record and each record is shaped by its length.
 *
 * The recogniser and the token matcher are not modelled: their outputs are
 * inputs, the recogniser's as labelled spans and the matcher's as token ranges
 * in the order the matcher returns them.
 */
module Entities {
  import opened Wrappers
  import opened Doc

  /** A span the named-entity recogniser returns, with its label (`label_`). */
  datatype Entity = Entity(text: string, tag: string)

  /** A matcher hit: the token range `[start, end)`; the pattern id is not used. */
  datatype TokenMatch = TokenMatch(start: nat, end: nat)

  datatype Disease = Disease(name: string)

  /** The dictionary with keys name, amount, unit and method (here `administration`); `None` is Python's None. */
  datatype Medication = Medication(name: string, amount: Option<string>, unit: Option<string>, administration: Option<string>)

  // ---------------------------------------------------------------------------
  // parse_medication
  // ---------------------------------------------------------------------------

  /**
   * `parse_medication` on the texts of a span's tokens. A 4-token span gives
   * name, amount and unit from its first three tokens and takes its last
   * token as the method unless it is "."; a 3-token span gives the same three
   * fields and ALSO takes its last token, the unit, as the method unless it is
   * "."; any other span gives only a name.
   */
  function ParseMedication(span: seq<string>): (m: Medication)
    requires |span| >= 1
    ensures m.name == span[0]
    ensures |span| == 3 || |span| == 4 ==>
      m.amount == Some(span[1]) && m.unit == Some(span[2]) &&
      (m.administration.None? <==> span[|span| - 1] == ".") &&
      (m.administration.Some? ==> m.administration.value == span[|span| - 1])
    ensures |span| == 3 ==> m.administration.None? || m.administration == m.unit
    ensures |span| != 3 && |span| != 4 ==> m.amount.None? && m.unit.None? && m.administration.None?
  {
    if |span| == 4 then
      var administration := if span[3] == "." then None else Some(span[3]);
      Medication(span[0], Some(span[1]), Some(span[2]), administration)
    else if |span| == 3 then
      var administration := if span[2] == "." then None else Some(span[2]);
      Medication(span[0], Some(span[1]), Some(span[2]), administration)
    else
      Medication(span[0], None, None, None)
  }

  // ---------------------------------------------------------------------------
  // Diseases
  // ---------------------------------------------------------------------------

  /** `[{'name': str(e)} for e in ents if e.label_ == 'DISEASE']` */
  function Diseases(ents: seq<Entity>): seq<Disease>
  {
    if ents == [] then []
    else (if ents[0].tag == "DISEASE" then [Disease(ents[0].text)] else []) + Diseases(ents[1..])
  }

  /** A disease is listed exactly when the recogniser labelled a span with it as DISEASE. */
  lemma {:induction false} DiseasesExact(ents: seq<Entity>, d: Disease)
    ensures d in Diseases(ents) <==> exists e :: e in ents && e.tag == "DISEASE" && d == Disease(e.text)
  {
    if ents != [] {
      DiseasesExact(ents[1..], d);
      assert ents == [ents[0]] + ents[1..];
    }
  }

  /** Recogniser order is kept: the diseases of a concatenation are concatenated. */
  lemma {:induction false} DiseasesAppend(a: seq<Entity>, b: seq<Entity>)
    ensures Diseases(a + b) == Diseases(a) + Diseases(b)
  {
    if a != [] {
      DiseasesAppend(a[1..], b);
      assert (a + b)[0] == a[0];
      assert (a + b)[1..] == a[1..] + b;
      var head := if a[0].tag == "DISEASE" then [Disease(a[0].text)] else [];
      assert Diseases(a + b) == head + Diseases(a[1..] + b);
      assert Diseases(a) == head + Diseases(a[1..]);
      assert head + (Diseases(a[1..]) + Diseases(b)) == (head + Diseases(a[1..])) + Diseases(b);
    } else {
      assert a + b == b;
    }
  }

  // ---------------------------------------------------------------------------
  // Medication records from the matcher's hits
  // ---------------------------------------------------------------------------

  /** Matcher hits are non-empty token ranges inside the document. */
  predicate InDoc(doc: seq<Token>, matches: seq<TokenMatch>)
  {
    forall m :: m in matches ==> m.start < m.end <= |doc|
  }

  /**
   * One hit per maximal run of consecutive hits that share a start token: the
   * last hit of the run, whose range goes from the shared start to the end of
   * that last hit.
   */
  function Runs(matches: seq<TokenMatch>): (runs: seq<TokenMatch>)
    ensures forall r :: r in runs ==> r in matches
    ensures |matches| > 0 ==> |runs| > 0 && runs[|runs| - 1] == matches[|matches| - 1]
  {
    if |matches| <= 1 then matches
    else if matches[0].start == matches[1].start then Runs(matches[1..])
    else [matches[0]] + Runs(matches[1..])
  }

  /** `parse_medication(doc[start:end])` for each run, dropping records whose name contains ".". */
  function Assemble(doc: seq<Token>, runs: seq<TokenMatch>): seq<Medication>
    requires InDoc(doc, runs)
  {
    if runs == [] then []
    else
      var m := ParseMedication(Texts(doc[runs[0].start..runs[0].end]));
      (if '.' in m.name then [] else [m]) + Assemble(doc, runs[1..])
  }

  /** The medications `parse_entities` returns for the matcher's hits. */
  function Medications(doc: seq<Token>, matches: seq<TokenMatch>): seq<Medication>
    requires InDoc(doc, matches)
  {
    Assemble(doc, Runs(matches))
  }

  /** `parse_entities`: one pass over the recogniser's spans, one pass over the matcher's hits. */
  method ParseEntities(ents: seq<Entity>, doc: seq<Token>, matches: seq<TokenMatch>)
    returns (diseases: seq<Disease>, medications: seq<Medication>)
    requires InDoc(doc, matches)
    ensures diseases == Diseases(ents)
    ensures medications == Medications(doc, matches)
  {
    diseases := CollectDiseases(ents);
    medications := CollectMedications(doc, matches);
  }

  /** The first loop of `parse_entities`: every span labelled DISEASE, in order. */
  method CollectDiseases(ents: seq<Entity>) returns (diseases: seq<Disease>)
    ensures diseases == Diseases(ents)
  {
    diseases := [];
    for i := 0 to |ents|
      invariant diseases == Diseases(ents[..i])
    {
      if ents[i].tag == "DISEASE" {
        diseases := diseases + [Disease(ents[i].text)];
      }
      DiseasesAppend(ents[..i], [ents[i]]);
      assert ents[..i + 1] == ents[..i] + [ents[i]];
    }
    assert ents[..|ents|] == ents;
  }

  /**
   * The second loop of `parse_entities`: the open run is remembered by its
   * start and end; a hit with a new start closes it, and the run still open
   * after the loop is closed last.
   */
  method CollectMedications(doc: seq<Token>, matches: seq<TokenMatch>) returns (medications: seq<Medication>)
    requires InDoc(doc, matches)
    ensures medications == Medications(doc, matches)
  {
    medications := [];
    if |matches| == 0 {
      return;
    }
    var lastStart: Option<nat> := None;
    var lastEnd: nat := 0;
    for i := 0 to |matches|
      invariant i == 0 <==> lastStart.None?
      invariant i == 0 ==> medications == []
      invariant i > 0 ==> OpenRun(doc, matches, i, lastStart.value, lastEnd, medications)
    {
      var start, end := matches[i].start, matches[i].end;
      ghost var before := medications;
      if lastStart.Some? && start != lastStart.value {
        OpenRunBounds(doc, matches, i, lastStart.value, lastEnd, medications);
        var medication := ParseMedication(Texts(doc[lastStart.value..lastEnd]));
        if '.' !in medication.name {
          medications := medications + [medication];
        }
      }
      if i > 0 {
        OpenRunStep(doc, matches, i, lastStart.value, lastEnd, before);
      } else {
        OpenRunFirst(doc, matches);
      }
      lastStart, lastEnd := Some(start), end;
    }
    CloseLastRun(doc, matches, lastStart.value, lastEnd, medications);
    var medication := ParseMedication(Texts(doc[lastStart.value..lastEnd]));
    if '.' !in medication.name {
      medications := medications + [medication];
    }
  }

  /** The state after `i` hits: the last run is `start..end`, the earlier runs are assembled. */
  ghost predicate OpenRun(doc: seq<Token>, matches: seq<TokenMatch>, i: nat, start: nat, end: nat, medications: seq<Medication>)
    requires InDoc(doc, matches) && 0 < i <= |matches|
  {
    var runs := Runs(matches[..i]);
    && runs[|runs| - 1] == TokenMatch(start, end)
    && InDoc(doc, runs)
    && medications == Assemble(doc, runs[..|runs| - 1])
  }

  lemma OpenRunBounds(doc: seq<Token>, matches: seq<TokenMatch>, i: nat, start: nat, end: nat, medications: seq<Medication>)
    requires InDoc(doc, matches) && 0 < i <= |matches| && OpenRun(doc, matches, i, start, end, medications)
    ensures start <= end <= |doc|
  {
    var runs := Runs(matches[..i]);
    assert runs[|runs| - 1] in runs;
  }

  lemma OpenRunFirst(doc: seq<Token>, matches: seq<TokenMatch>)
    requires InDoc(doc, matches) && 0 < |matches|
    ensures OpenRun(doc, matches, 1, matches[0].start, matches[0].end, [])
  {
    assert matches[..1] == [matches[0]];
  }

  /** One turn of the loop: the hit at `i` closes the open run when its start differs. */
  lemma OpenRunStep(doc: seq<Token>, matches: seq<TokenMatch>, i: nat, start: nat, end: nat, medications: seq<Medication>)
    requires InDoc(doc, matches) && 0 < i < |matches| && OpenRun(doc, matches, i, start, end, medications)
    ensures start <= end <= |doc|
    ensures var m := ParseMedication(Texts(doc[start..end]));
      OpenRun(doc, matches, i + 1, matches[i].start, matches[i].end,
        if matches[i].start != start && '.' !in m.name then medications + [m] else medications)
  {
    OpenRunBounds(doc, matches, i, start, end, medications);
    MedicationStep(doc, matches, i);
  }

  /** Closing the run still open after the last hit completes the assembly. */
  lemma CloseLastRun(doc: seq<Token>, matches: seq<TokenMatch>, start: nat, end: nat, medications: seq<Medication>)
    requires InDoc(doc, matches) && 0 < |matches| && OpenRun(doc, matches, |matches|, start, end, medications)
    ensures start <= end <= |doc|
    ensures TokenMatch(start, end) == matches[|matches| - 1]
    ensures var m := ParseMedication(Texts(doc[start..end]));
      Medications(doc, matches) == medications + (if '.' in m.name then [] else [m])
  {
    OpenRunBounds(doc, matches, |matches|, start, end, medications);
    assert matches[..|matches|] == matches;
    var runs := Runs(matches);
    PrefixRunsInDoc(doc, matches, |matches|);
    AssembleAppend(doc, runs[..|runs| - 1], [runs[|runs| - 1]]);
    assert runs[..|runs| - 1] + [runs[|runs| - 1]] == runs;
  }

  // ---------------------------------------------------------------------------
  // Facts about runs and records
  // ---------------------------------------------------------------------------

  /** Appending a hit either extends the last run or starts a new one. */
  lemma {:induction false} RunsSnoc(ms: seq<TokenMatch>, m: TokenMatch)
    requires |ms| > 0
    ensures var r := Runs(ms);
      Runs(ms + [m]) == if ms[|ms| - 1].start == m.start then r[..|r| - 1] + [m] else r + [m]
    decreases |ms|
  {
    var s := ms + [m];
    if |ms| == 1 {
      assert s[1..] == [m];
    } else {
      var tail := ms[1..];
      RunsSnoc(tail, m);
      assert s[1..] == tail + [m];
      assert s[0] == ms[0] && s[1] == ms[1];
      assert tail[|tail| - 1] == ms[|ms| - 1];
      if ms[0].start != ms[1].start {
        var r1 := Runs(tail);
        assert Runs(ms) == [ms[0]] + r1;
        assert Runs(s) == [ms[0]] + Runs(tail + [m]);
        assert ([ms[0]] + r1)[..|r1|] == [ms[0]] + r1[..|r1| - 1];
      }
    }
  }

  lemma RunsStep(doc: seq<Token>, matches: seq<TokenMatch>, i: nat)
    requires 0 < i < |matches|
    ensures var r := Runs(matches[..i]);
      Runs(matches[..i + 1]) == if matches[i - 1].start == matches[i].start then r[..|r| - 1] + [matches[i]] else r + [matches[i]]
  {
    assert matches[..i + 1] == matches[..i] + [matches[i]];
    RunsSnoc(matches[..i], matches[i]);
  }

  /** One turn of the loop in `ParseEntities`: the hit at `i` closes the open run or extends it. */
  lemma MedicationStep(doc: seq<Token>, matches: seq<TokenMatch>, i: nat)
    requires InDoc(doc, matches) && 0 < i < |matches|
    ensures var runs := Runs(matches[..i]);
      var runs' := Runs(matches[..i + 1]);
      var open := runs[|runs| - 1];
      var m := ParseMedication(Texts(doc[open.start..open.end]));
      && InDoc(doc, runs) && InDoc(doc, runs')
      && open == matches[i - 1]
      && runs'[|runs'| - 1] == matches[i]
      && Assemble(doc, runs'[..|runs'| - 1]) ==
         if matches[i].start != open.start then Assemble(doc, runs[..|runs| - 1]) + (if '.' in m.name then [] else [m])
         else Assemble(doc, runs[..|runs| - 1])
  {
    PrefixRunsInDoc(doc, matches, i);
    PrefixRunsInDoc(doc, matches, i + 1);
    RunsStep(doc, matches, i);
    var runs := Runs(matches[..i]);
    var runs' := Runs(matches[..i + 1]);
    assert matches[..i][i - 1] == matches[i - 1];
    var open := runs[|runs| - 1];
    var closed := runs[..|runs| - 1];
    if matches[i].start != open.start {
      assert runs'[..|runs'| - 1] == runs == closed + [open];
      AssembleSnoc(doc, closed, open);
    } else {
      assert runs'[..|runs'| - 1] == closed;
    }
  }

  /** Appending one range appends its record, unless the record's name is dotted. */
  lemma AssembleSnoc(doc: seq<Token>, a: seq<TokenMatch>, r: TokenMatch)
    requires InDoc(doc, a) && r.start < r.end <= |doc|
    ensures var m := ParseMedication(Texts(doc[r.start..r.end]));
      Assemble(doc, a + [r]) == Assemble(doc, a) + (if '.' in m.name then [] else [m])
  {
    AssembleAppend(doc, a, [r]);
    var m := ParseMedication(Texts(doc[r.start..r.end]));
    assert Assemble(doc, [r]) == (if '.' in m.name then [] else [m]) + Assemble(doc, []);
  }

  lemma PrefixRunsInDoc(doc: seq<Token>, matches: seq<TokenMatch>, i: nat)
    requires InDoc(doc, matches) && i <= |matches|
    ensures InDoc(doc, Runs(matches[..i]))
    ensures forall k :: 0 <= k <= |Runs(matches[..i])| ==> InDoc(doc, Runs(matches[..i])[..k])
  {
    var runs := Runs(matches[..i]);
    forall r | r in runs
      ensures r in matches
    {
      assert r in matches[..i];
    }
  }

  lemma {:induction false} AssembleAppend(doc: seq<Token>, a: seq<TokenMatch>, b: seq<TokenMatch>)
    requires InDoc(doc, a) && InDoc(doc, b)
    ensures InDoc(doc, a + b)
    ensures Assemble(doc, a + b) == Assemble(doc, a) + Assemble(doc, b)
  {
    if a != [] {
      AssembleAppend(doc, a[1..], b);
      assert (a + b)[0] == a[0];
      assert (a + b)[1..] == a[1..] + b;
      var m := ParseMedication(Texts(doc[a[0].start..a[0].end]));
      var head := if '.' in m.name then [] else [m];
      assert Assemble(doc, a + b) == head + Assemble(doc, a[1..] + b);
      assert Assemble(doc, a) == head + Assemble(doc, a[1..]);
      assert head + (Assemble(doc, a[1..]) + Assemble(doc, b)) == (head + Assemble(doc, a[1..])) + Assemble(doc, b);
    } else {
      assert a + b == b;
    }
  }

  /** `starts` with every element equal to its predecessor removed. */
  function Compress(starts: seq<nat>): (r: seq<nat>)
  {
    if |starts| <= 1 then starts
    else if starts[0] == starts[1] then Compress(starts[1..])
    else [starts[0]] + Compress(starts[1..])
  }

  function Starts(ms: seq<TokenMatch>): seq<nat>
  {
    seq(|ms|, i requires 0 <= i < |ms| => ms[i].start)
  }

  /**
   * Exactly one run per maximal block of equal consecutive starts: the runs'
   * starts are the hits' starts with adjacent repeats collapsed.
   */
  lemma {:induction false} RunsOnePerBlock(ms: seq<TokenMatch>)
    ensures Starts(Runs(ms)) == Compress(Starts(ms))
  {
    if |ms| > 1 {
      RunsOnePerBlock(ms[1..]);
      assert Starts(ms)[1..] == Starts(ms[1..]);
      if ms[0].start != ms[1].start {
        assert Starts([ms[0]] + Runs(ms[1..])) == [ms[0].start] + Starts(Runs(ms[1..]));
      }
    }
  }

  /** Runs are maximal: neighbouring runs never share a start token. */
  lemma {:induction false} RunsMaximal(ms: seq<TokenMatch>)
    ensures var r := Runs(ms);
      forall i :: 0 <= i < |r| - 1 ==> r[i].start != r[i + 1].start
  {
    if |ms| > 1 {
      RunsMaximal(ms[1..]);
      RunsHead(ms[1..]);
    }
  }

  /** The hit at `i` is the last of its block: the next hit, if any, has another start. */
  predicate EndsBlock(ms: seq<TokenMatch>, i: nat)
    requires i < |ms|
  {
    i == |ms| - 1 || ms[i].start != ms[i + 1].start
  }

  /**
   * The runs are exactly the hits that end their block: a run's range goes
   * from the block's shared start to the end of the block's last hit, and
   * every block's last hit is a run.
   */
  lemma {:induction false} RunsAreBlockEnds(ms: seq<TokenMatch>)
    ensures forall i :: 0 <= i < |ms| && EndsBlock(ms, i) ==> ms[i] in Runs(ms)
    ensures forall r :: r in Runs(ms) ==> exists i :: 0 <= i < |ms| && EndsBlock(ms, i) && r == ms[i]
  {
    if |ms| == 1 {
      assert EndsBlock(ms, 0);
    } else if |ms| > 1 {
      var t := ms[1..];
      RunsAreBlockEnds(t);
      forall i | 1 <= i < |ms|
        ensures ms[i] == t[i - 1] && (EndsBlock(ms, i) <==> EndsBlock(t, i - 1))
      {
      }
      forall i | 0 <= i < |ms| && EndsBlock(ms, i)
        ensures ms[i] in Runs(ms)
      {
        if i > 0 {
          assert t[i - 1] in Runs(t);
        }
      }
      forall r | r in Runs(ms)
        ensures exists i :: 0 <= i < |ms| && EndsBlock(ms, i) && r == ms[i]
      {
        if r in Runs(t) {
          var j :| 0 <= j < |t| && EndsBlock(t, j) && r == t[j];
          assert EndsBlock(ms, j + 1) && r == ms[j + 1];
        } else {
          assert EndsBlock(ms, 0) && r == ms[0];
        }
      }
    }
  }

  /** The first run starts where the first hit starts. */
  lemma {:induction false} RunsHead(ms: seq<TokenMatch>)
    requires |ms| > 0
    ensures Runs(ms)[0].start == ms[0].start
  {
    if |ms| > 1 && ms[0].start == ms[1].start {
      RunsHead(ms[1..]);
    }
  }

  /** A record is emitted for a run exactly when its parsed name has no ".". */
  lemma {:induction false} AssembleKeepsDotless(doc: seq<Token>, runs: seq<TokenMatch>)
    requires InDoc(doc, runs)
    ensures forall m :: m in Assemble(doc, runs) ==> '.' !in m.name
    ensures forall r :: r in runs && '.' !in doc[r.start].text ==>
      ParseMedication(Texts(doc[r.start..r.end])) in Assemble(doc, runs)
  {
    if runs != [] {
      AssembleKeepsDotless(doc, runs[1..]);
      forall r | r in runs && '.' !in doc[r.start].text
        ensures ParseMedication(Texts(doc[r.start..r.end])) in Assemble(doc, runs)
      {
        if r != runs[0] {
          assert r in runs[1..];
        } else {
          assert Texts(doc[r.start..r.end])[0] == doc[r.start].text;
        }
      }
    }
  }

  /**
   * The same 4-token hit twice: contiguous (same start) it makes one record,
   * at two different starts it makes two.
   */
  lemma CoalescingExamples(a: TokenMatch, b: TokenMatch)
    requires a.start != b.start
    ensures |Runs([a, a])| == 1
    ensures |Runs([a, b])| == 2
  {
  }
}
