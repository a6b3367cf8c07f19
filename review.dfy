/**
 * The review pages (`upload`, `results`): an upload is accepted only for a
 * ".wav" file and a seven-character medical record number; the model's
 * diseases and medications are shown one per line for editing; the edited
 * lines are located in their section's text and become `transcriptions` rows.
 *
 * The session, the form and the database are values: the note's sections
 * are the (key, text) items of the prepared note in dictionary order, the
 * edited fields are strings, and the rows are returned instead of added.
 */
module Review {
  import opened Wrappers
  import opened Text
  import opened Entities
  import opened Records

  // ---------------------------------------------------------------------------
  // Upload validation
  // ---------------------------------------------------------------------------

  datatype UploadVerdict = Accepted | WrongFileType | BadMrn

  /** `s[-4:]`: the last four characters, or the whole string when it is shorter. */
  function LastFour(s: string): string
  {
    if |s| >= 4 then s[|s| - 4..] else s
  }

  /** The two checks of `upload`, the file type first. */
  function ValidateUpload(filename: string, mrn: int): (r: UploadVerdict)
    ensures r != WrongFileType ==> |filename| >= 4 && filename[|filename| - 4..] == ".wav"
    ensures r == Accepted <==> r != WrongFileType && |IntToString(mrn)| == 7
  {
    if LastFour(filename) != ".wav" then WrongFileType
    else if |IntToString(mrn)| != 7 then BadMrn
    else Accepted
  }

  /**
   * An upload is accepted exactly when the name ends with ".wav" and the
   * number prints with seven characters: seven digits, or a minus sign and
   * six digits, since only the length is checked.
   */
  lemma ValidateUploadExact(filename: string, mrn: int)
    ensures ValidateUpload(filename, mrn) == WrongFileType <==> !(|filename| >= 4 && filename[|filename| - 4..] == ".wav")
    ensures ValidateUpload(filename, mrn) == Accepted <==>
      && |filename| >= 4 && filename[|filename| - 4..] == ".wav"
      && (1000000 <= mrn <= 9999999 || -999999 <= mrn <= -100000)
  {
    var n: nat := if mrn < 0 then -mrn else mrn;
    NatToStringLength(n, 7);
    NatToStringLength(n, 6);
    NatToStringLength(n, 5);
    assert Pow10(5) == 100000 && Pow10(6) == 1000000 && Pow10(7) == 10000000;
  }

  lemma UploadExamples()
    ensures ValidateUpload("note.wav", 1234567) == Accepted
    ensures ValidateUpload("note.mp3", 1234567) == WrongFileType
    ensures ValidateUpload("wav", 1234567) == WrongFileType
    ensures ValidateUpload("note.wav", 123456) == BadMrn
    ensures ValidateUpload("note.wav", -123456) == Accepted
  {
    ValidateUploadExact("note.wav", 1234567);
    ValidateUploadExact("note.mp3", 1234567);
    ValidateUploadExact("wav", 1234567);
    ValidateUploadExact("note.wav", 123456);
    ValidateUploadExact("note.wav", -123456);
    assert "note.wav"[4..] == ".wav";
    assert "note.mp3"[4..] != ".wav" by { assert "note.mp3"[4..][1] == 'm'; }
  }

  // ---------------------------------------------------------------------------
  // Display strings for the review form
  // ---------------------------------------------------------------------------

  /** The lines of a block, each followed by a newline. */
  function Block(lines: seq<string>): string
  {
    if lines == [] then "" else Block(lines[..|lines| - 1]) + lines[|lines| - 1] + "\n"
  }

  lemma BlockSnoc(lines: seq<string>, x: string)
    ensures Block(lines + [x]) == Block(lines) + x + "\n"
  {
    assert (lines + [x])[..|lines|] == lines;
  }

  lemma Associate(a: string, b: string, c: string)
    ensures a + b + c == a + (b + c)
  {
  }

  /** A Python value used in an `if`: None and the empty string are falsy. */
  predicate Truthy(x: Option<string>)
  {
    x.Some? && x.value != ""
  }

  /** The displayed line of a medication, without its newline. */
  function MedicationText(m: Medication): string
  {
    Title(m.name)
    + (if Truthy(m.amount) then " " + m.amount.value else "")
    + (if Truthy(m.unit) then " " + m.unit.value else "")
    + (if Truthy(m.administration) then " " + m.administration.value else "")
  }

  function DiseaseTexts(ds: seq<Disease>): (r: seq<string>)
    ensures |r| == |ds| && forall i :: 0 <= i < |ds| ==> r[i] == Title(ds[i].name)
  {
    seq(|ds|, i requires 0 <= i < |ds| => Title(ds[i].name))
  }

  function MedicationTexts(ms: seq<Medication>): (r: seq<string>)
    ensures |r| == |ms| && forall i :: 0 <= i < |ms| ==> r[i] == MedicationText(ms[i])
  {
    seq(|ms|, i requires 0 <= i < |ms| => MedicationText(ms[i]))
  }

  /** `disease_string += d['name'].title() + '\n'` for each disease. */
  method DiseaseString(ds: seq<Disease>) returns (s: string)
    ensures s == Block(DiseaseTexts(ds))
  {
    s := "";
    for i := 0 to |ds|
      invariant s == Block(DiseaseTexts(ds[..i]))
    {
      assert DiseaseTexts(ds[..i + 1])[..i] == DiseaseTexts(ds[..i]);
      s := s + Title(ds[i].name) + "\n";
    }
    assert ds[..|ds|] == ds;
  }

  /** The medication block: title-cased name, then each truthy field after a space, then a newline. */
  method MedicationString(ms: seq<Medication>) returns (s: string)
    ensures s == Block(MedicationTexts(ms))
  {
    s := "";
    for i := 0 to |ms|
      invariant s == Block(MedicationTexts(ms[..i]))
    {
      var m := ms[i];
      assert MedicationTexts(ms[..i + 1]) == MedicationTexts(ms[..i]) + [MedicationText(m)];
      BlockSnoc(MedicationTexts(ms[..i]), MedicationText(m));
      ghost var before := s;
      ghost var line := Title(m.name);
      s := s + Title(m.name);
      if Truthy(m.amount) {
        Associate(before, line, " " + m.amount.value);
        s := s + (" " + m.amount.value);
        line := line + (" " + m.amount.value);
      }
      assert s == before + line;
      if Truthy(m.unit) {
        Associate(before, line, " " + m.unit.value);
        s := s + (" " + m.unit.value);
        line := line + (" " + m.unit.value);
      }
      if Truthy(m.administration) {
        Associate(before, line, " " + m.administration.value);
        s := s + (" " + m.administration.value);
        line := line + (" " + m.administration.value);
      }
      assert line == MedicationText(m);
      s := s + "\n";
    }
    assert ms[..|ms|] == ms;
  }

  // ---------------------------------------------------------------------------
  // Splitting an edited field into entity lines
  // ---------------------------------------------------------------------------

  /** `[e.rstrip('\r').lower() for e in pieces if e != '']` */
  function KeepEntities(pieces: seq<string>): (r: seq<string>)
    ensures forall k :: 0 <= k < |r| ==> NoUpper(r[k])
  {
    if pieces == [] then []
    else
      LowerHasNoUpper(RStrip(pieces[0], '\r'));
      (if pieces[0] == "" then [] else [Lower(RStrip(pieces[0], '\r'))]) + KeepEntities(pieces[1..])
  }

  /** At most one line per piece, and exactly one when no piece is empty. */
  lemma {:induction false} KeepEntitiesLength(pieces: seq<string>)
    ensures |KeepEntities(pieces)| <= |pieces|
    ensures (forall k :: 0 <= k < |pieces| ==> pieces[k] != "") ==> |KeepEntities(pieces)| == |pieces|
  {
    if pieces != [] {
      KeepEntitiesLength(pieces[1..]);
    }
  }

  /** The entity lines of an edited field: split on "\n", drop empty pieces, strip "\r", lower-case. */
  function EntityLines(field: string): (r: seq<string>)
    ensures forall k :: 0 <= k < |r| ==> NoUpper(r[k])
  {
    KeepEntities(Split(field, "\n"))
  }

  /** The empty-piece test comes before the strip, so a lone "\r" gives an empty entity. */
  lemma CarriageReturnLine()
    ensures EntityLines("\r") == [""]
  {
    assert FindFirst("\r", "\n").None? by { NotContainsWithout("\r", "\n"); }
    assert Split("\r", "\n") == ["\r"];
    assert RStrip("\r", '\r') == RStrip("", '\r') == "";
    assert ["\r"][1..] == [];
    assert Lower("") == "";
    assert KeepEntities(["\r"]) == [Lower("")] + KeepEntities([]);
  }

  /** An empty field has no entity lines. */
  lemma EmptyField()
    ensures EntityLines("") == []
  {
    assert FindFirst("", "\n").None?;
    assert Split("", "\n") == [""];
  }

  /** Neither a newline nor a carriage return. */
  predicate NoBreak(s: string)
  {
    forall i :: 0 <= i < |s| ==> s[i] != '\n' && s[i] != '\r'
  }

  /** Splitting a block on "\n" gives its lines, then the empty piece after the last newline. */
  lemma {:induction false} BlockSplit(lines: seq<string>)
    requires forall i :: 0 <= i < |lines| ==> forall k :: 0 <= k < |lines[i]| ==> lines[i][k] != '\n'
    ensures Split(Block(lines), "\n") == lines + [""]
  {
    BlockJoin(lines);
    var parts := lines + [""];
    forall i | 0 <= i < |parts| - 1
      ensures Separable(parts[i], "\n")
    {
      SeparableWithout(parts[i], "\n");
    }
    NotContainsWithout("", "\n");
    SplitJoin(parts, "\n");
  }

  /** A block is its lines joined by "\n", with an empty last part. */
  lemma {:induction false} BlockJoin(lines: seq<string>)
    ensures Block(lines) == Join(lines + [""], "\n")
  {
    if lines != [] {
      var init := lines[..|lines| - 1];
      var last := lines[|lines| - 1];
      BlockJoin(init);
      assert lines + [""] == init + [last] + [""];
      if init == [] {
        assert Join([last, ""], "\n") == last + "\n" + "" by {
          assert [last, ""][1..] == [""];
        }
        assert lines == [last];
      } else {
        JoinSnoc(init, "", "\n");
        JoinSnoc(init, last, "\n");
        JoinSnoc(init + [last], "", "\n");
      }
    }
  }

  /** Keeping the entities of concatenated pieces keeps each part's entities. */
  lemma {:induction false} KeepEntitiesAppend(a: seq<string>, b: seq<string>)
    ensures KeepEntities(a + b) == KeepEntities(a) + KeepEntities(b)
  {
    if a != [] {
      KeepEntitiesAppend(a[1..], b);
      assert (a + b)[0] == a[0];
      assert (a + b)[1..] == a[1..] + b;
      var head := if a[0] == "" then [] else [Lower(RStrip(a[0], '\r'))];
      assert KeepEntities(a + b) == head + KeepEntities(a[1..] + b);
      assert head + (KeepEntities(a[1..]) + KeepEntities(b)) == (head + KeepEntities(a[1..])) + KeepEntities(b);
    } else {
      assert a + b == b;
    }
  }

  /**
   * Reading a block back: the entity lines of a block of non-empty lines
   * without "\n" are those lines with trailing "\r" removed, lower-cased.
   */
  lemma {:induction false} LinesRoundTrip(lines: seq<string>)
    requires forall i :: 0 <= i < |lines| ==> forall k :: 0 <= k < |lines[i]| ==> lines[i][k] != '\n'
    ensures EntityLines(Block(lines)) == KeepEntities(lines)
  {
    BlockSplit(lines);
    KeepEntitiesAppend(lines, [""]);
    assert KeepEntities([""]) == [];
  }

  /** The lower-cased lines of non-empty lines without breaks. */
  lemma {:induction false} KeepPlainLines(lines: seq<string>)
    requires forall i :: 0 <= i < |lines| ==> lines[i] != "" && NoBreak(lines[i])
    ensures KeepEntities(lines) == seq(|lines|, i requires 0 <= i < |lines| => Lower(lines[i]))
  {
    if lines != [] {
      KeepPlainLines(lines[1..]);
      assert RStrip(lines[0], '\r') == lines[0];
    }
  }

  /** Title-casing changes letters only, so it keeps a string free of breaks. */
  lemma TitleNoBreak(s: string)
    requires NoBreak(s)
    ensures NoBreak(Title(s)) && |Title(s)| == |s|
  {
    var t := Title(s);
    forall i | 0 <= i < |t|
      ensures t[i] != '\n' && t[i] != '\r'
    {
      assert t[i] == ToLowerChar(s[i]) || t[i] == ToUpperChar(s[i]);
    }
  }

  /**
   * The disease field shown to the reviewer and submitted unedited gives back
   * each disease name lower-cased, in order, one per disease.
   */
  lemma DiseaseRoundTrip(ds: seq<Disease>)
    requires forall i :: 0 <= i < |ds| ==> ds[i].name != "" && NoBreak(ds[i].name)
    ensures EntityLines(Block(DiseaseTexts(ds))) == seq(|ds|, i requires 0 <= i < |ds| => Lower(ds[i].name))
  {
    var lines := DiseaseTexts(ds);
    forall i | 0 <= i < |lines|
      ensures lines[i] != "" && NoBreak(lines[i])
    {
      TitleNoBreak(ds[i].name);
    }
    LinesRoundTrip(lines);
    KeepPlainLines(lines);
    forall i | 0 <= i < |ds|
      ensures Lower(lines[i]) == Lower(ds[i].name)
    {
      LowerTitle(ds[i].name);
    }
  }

  /** Every field of a medication line, as the line shows it, is free of breaks. */
  predicate PlainMedication(m: Medication)
  {
    && m.name != "" && NoBreak(m.name)
    && (m.amount.Some? ==> NoBreak(m.amount.value))
    && (m.unit.Some? ==> NoBreak(m.unit.value))
    && (m.administration.Some? ==> NoBreak(m.administration.value))
  }

  /** The medication field submitted unedited gives back each displayed line lower-cased. */
  lemma MedicationRoundTrip(ms: seq<Medication>)
    requires forall i :: 0 <= i < |ms| ==> PlainMedication(ms[i])
    ensures EntityLines(Block(MedicationTexts(ms))) == seq(|ms|, i requires 0 <= i < |ms| => Lower(MedicationText(ms[i])))
  {
    var lines := MedicationTexts(ms);
    forall i | 0 <= i < |lines|
      ensures lines[i] != "" && NoBreak(lines[i])
    {
      var m := ms[i];
      TitleNoBreak(m.name);
      assert lines[i][..|Title(m.name)|] == Title(m.name);
    }
    LinesRoundTrip(lines);
    KeepPlainLines(lines);
  }

  // ---------------------------------------------------------------------------
  // Locating an entity in its section
  // ---------------------------------------------------------------------------

  /** Where a row's entity sits: the text stored with it and the range inside that text. */
  datatype Location = Location(text: string, start: nat, end: nat)

  /**
   * The first occurrence of the entity in the lower-cased section text; when
   * there is none the entity itself becomes the text, spanning all of it.
   */
  function Locate(txt: string, entity: string): (r: Location)
    ensures r.start <= r.end <= |r.text| && r.text[r.start..r.end] == entity
    ensures Contains(txt, entity) ==>
      r.text == txt && OccursAt(txt, entity, r.start) && forall q: nat :: q < r.start ==> !OccursAt(txt, entity, q)
    ensures !Contains(txt, entity) ==> r == Location(entity, 0, |entity|)
  {
    match FindFirst(txt, entity)
    case Some(p) => Location(txt, p, p + |entity|)
    case None => Location(entity, 0, |entity|)
  }

  // ---------------------------------------------------------------------------
  // From the edited fields to rows
  // ---------------------------------------------------------------------------

  /** A section of the prepared note: its dictionary key and its text. */
  datatype Section = Section(key: string, text: string)

  datatype ReviewError = IndexError | KeyError

  /** The edited entity lines per section key (`db_diseases`, `db_meds`). */
  datatype Edits = Edits(diseases: map<string, seq<string>>, medications: map<string, seq<string>>)

  /** `(sub, txt, label, entity)` of `row_info`. */
  datatype Mention = Mention(subject: string, text: string, kind: string, entity: string)

  /** `example_result[key]["text"]` */
  function SectionText(sections: seq<Section>, key: string): Option<string>
  {
    if sections == [] then None
    else if sections[0].key == key then Some(sections[0].text)
    else SectionText(sections[1..], key)
  }

  /** `proper_title_keys` */
  function TitleKeys(sections: seq<Section>): (r: seq<string>)
    ensures |r| == |sections| && forall i :: 0 <= i < |sections| ==> r[i] == Title(sections[i].key)
  {
    seq(|sections|, i requires 0 <= i < |sections| => Title(sections[i].key))
  }

  /**
   * The dictionaries after the first `n` form entries: entry `i` is stored
   * under the key of section `i`; a form with more entries than the note has
   * sections, or fewer medication entries, raises `IndexError`.
   */
  function EditsUpTo(sections: seq<Section>, diseaseFields: seq<string>, medicationFields: seq<string>, n: nat): (r: Result<Edits, ReviewError>)
    requires n <= |diseaseFields|
    ensures r.Err? ==> r.error == IndexError
  {
    if n == 0 then Ok(Edits(map[], map[]))
    else match EditsUpTo(sections, diseaseFields, medicationFields, n - 1)
      case Err(e) => Err(e)
      case Ok(edits) =>
        var i := n - 1;
        if i >= |sections| || i >= |medicationFields| then Err(IndexError)
        else Ok(Edits(edits.diseases[sections[i].key := EntityLines(diseaseFields[i])],
                      edits.medications[sections[i].key := EntityLines(medicationFields[i])]))
  }

  /** One `row_info` entry of the given kind per edited line, in line order. */
  function Mentions(sub: string, txt: string, kind: string, lines: seq<string>): (r: seq<Mention>)
    ensures |r| == |lines|
    ensures forall k :: 0 <= k < |lines| ==> r[k].subject == sub && r[k].text == txt && r[k].kind == kind && r[k].entity == lines[k]
  {
    seq(|lines|, k requires 0 <= k < |lines| => Mention(sub, txt, kind, lines[k]))
  }

  /**
   * `row_info` after the first `n` title keys: per key, the lower-cased
   * section text, then one mention per disease line, then one per medication
   * line; a key that does not lower-case back to a note key or to an edited
   * key raises `KeyError`.
   */
  function MentionsUpTo(keys: seq<string>, sections: seq<Section>, edits: Edits, n: nat): (r: Result<seq<Mention>, ReviewError>)
    requires n <= |keys|
    ensures r.Err? ==> r.error == KeyError
  {
    if n == 0 then Ok([])
    else match MentionsUpTo(keys, sections, edits, n - 1)
      case Err(e) => Err(e)
      case Ok(rows) =>
        var sub := keys[n - 1];
        var key := Lower(sub);
        var text := SectionText(sections, key);
        if text.None? || key !in edits.diseases || key !in edits.medications then Err(KeyError)
        else
          var txt := Lower(text.value);
          Ok(rows + Mentions(sub, txt, "disease", edits.diseases[key]) + Mentions(sub, txt, "medication", edits.medications[key]))
  }

  /** The row stored for a mention. */
  function RowOf(userId: int, mrn: int, transcriptionId: string, now: int, m: Mention): Data
  {
    var loc := Locate(m.text, m.entity);
    Data(userId, mrn, transcriptionId, loc.text, Some(m.entity), Some(loc.start), Some(loc.end),
         Some(m.kind), m.subject, now)
  }

  function RowsOf(userId: int, mrn: int, transcriptionId: string, now: int, mentions: seq<Mention>): (r: seq<Data>)
    ensures |r| == |mentions| && forall t :: 0 <= t < |mentions| ==> r[t] == RowOf(userId, mrn, transcriptionId, now, mentions[t])
  {
    seq(|mentions|, t requires 0 <= t < |mentions| => RowOf(userId, mrn, transcriptionId, now, mentions[t]))
  }

  /** The rows a submission of the review form stores, or the error it raises. */
  function Submission(userId: int, mrn: int, transcriptionId: string, now: int,
                      sections: seq<Section>, diseaseFields: seq<string>, medicationFields: seq<string>): Result<seq<Data>, ReviewError>
  {
    match EditsUpTo(sections, diseaseFields, medicationFields, |diseaseFields|)
    case Err(e) => Err(e)
    case Ok(edits) =>
      var keys := TitleKeys(sections);
      match MentionsUpTo(keys, sections, edits, |keys|)
      case Err(e) => Err(e)
      case Ok(mentions) => Ok(RowsOf(userId, mrn, transcriptionId, now, mentions))
  }

  /** The submit branch of `results`: fills the dictionaries, builds `row_info`, then one row per mention. */
  method Reconcile(userId: int, mrn: int, transcriptionId: string, now: int,
                   sections: seq<Section>, diseaseFields: seq<string>, medicationFields: seq<string>)
    returns (r: Result<seq<Data>, ReviewError>)
    ensures r == Submission(userId, mrn, transcriptionId, now, sections, diseaseFields, medicationFields)
  {
    var edits := CollectEdits(sections, diseaseFields, medicationFields);
    if edits.Err? {
      return Err(edits.error);
    }
    var keys := TitleKeys(sections);
    var rowInfo := CollectMentions(keys, sections, edits.value);
    if rowInfo.Err? {
      return Err(rowInfo.error);
    }
    var rows := BuildRows(userId, mrn, transcriptionId, now, rowInfo.value);
    return Ok(rows);
  }

  /** The first loop of the submit branch: `db_diseases` and `db_meds`. */
  method CollectEdits(sections: seq<Section>, diseaseFields: seq<string>, medicationFields: seq<string>)
    returns (r: Result<Edits, ReviewError>)
    ensures r == EditsUpTo(sections, diseaseFields, medicationFields, |diseaseFields|)
  {
    var dbDiseases: map<string, seq<string>> := map[];
    var dbMeds: map<string, seq<string>> := map[];
    for i := 0 to |diseaseFields|
      invariant EditsUpTo(sections, diseaseFields, medicationFields, i) == Ok(Edits(dbDiseases, dbMeds))
    {
      if i >= |sections| || i >= |medicationFields| {
        ErrorStays(sections, diseaseFields, medicationFields, i + 1);
        return Err(IndexError);
      }
      dbDiseases := dbDiseases[sections[i].key := EntityLines(diseaseFields[i])];
      dbMeds := dbMeds[sections[i].key := EntityLines(medicationFields[i])];
    }
    return Ok(Edits(dbDiseases, dbMeds));
  }

  /** The loop over `proper_title_keys` that builds `row_info`. */
  method CollectMentions(keys: seq<string>, sections: seq<Section>, edits: Edits)
    returns (r: Result<seq<Mention>, ReviewError>)
    ensures r == MentionsUpTo(keys, sections, edits, |keys|)
  {
    var rowInfo: seq<Mention> := [];
    for n := 0 to |keys|
      invariant MentionsUpTo(keys, sections, edits, n) == Ok(rowInfo)
    {
      var sub := keys[n];
      var text := SectionText(sections, Lower(sub));
      if text.None? || Lower(sub) !in edits.diseases || Lower(sub) !in edits.medications {
        MentionErrorStays(keys, sections, edits, n + 1);
        return Err(KeyError);
      }
      var txt := Lower(text.value);
      var lines := edits.diseases[Lower(sub)];
      ghost var before := rowInfo;
      for k := 0 to |lines|
        invariant rowInfo == before + Mentions(sub, txt, "disease", lines[..k])
      {
        assert Mentions(sub, txt, "disease", lines[..k + 1]) == Mentions(sub, txt, "disease", lines[..k]) + [Mention(sub, txt, "disease", lines[k])];
        rowInfo := rowInfo + [Mention(sub, txt, "disease", lines[k])];
      }
      assert lines[..|lines|] == lines;
      ghost var withDiseases := rowInfo;
      lines := edits.medications[Lower(sub)];
      for k := 0 to |lines|
        invariant rowInfo == withDiseases + Mentions(sub, txt, "medication", lines[..k])
      {
        assert Mentions(sub, txt, "medication", lines[..k + 1]) == Mentions(sub, txt, "medication", lines[..k]) + [Mention(sub, txt, "medication", lines[k])];
        rowInfo := rowInfo + [Mention(sub, txt, "medication", lines[k])];
      }
      assert lines[..|lines|] == lines;
    }
    return Ok(rowInfo);
  }

  /** The loop over `row_info` that locates each entity and makes its row. */
  method BuildRows(userId: int, mrn: int, transcriptionId: string, now: int, rowInfo: seq<Mention>)
    returns (rows: seq<Data>)
    ensures rows == RowsOf(userId, mrn, transcriptionId, now, rowInfo)
  {
    rows := [];
    for t := 0 to |rowInfo|
      invariant rows == RowsOf(userId, mrn, transcriptionId, now, rowInfo[..t])
    {
      var entity := rowInfo[t].entity;
      var txt := rowInfo[t].text;
      var start: nat, end: nat;
      var found := FindFirst(txt, entity);
      if found.Some? {
        start, end := found.value, found.value + |entity|;
      } else {
        txt, start, end := entity, 0, |entity|;
      }
      assert Locate(rowInfo[t].text, entity) == Location(txt, start, end);
      rows := rows + [Data(userId, mrn, transcriptionId, txt, Some(entity), Some(start), Some(end),
                           Some(rowInfo[t].kind), rowInfo[t].subject, now)];
    }
    assert rowInfo[..|rowInfo|] == rowInfo;
  }

  lemma {:induction false} ErrorStays(sections: seq<Section>, diseaseFields: seq<string>, medicationFields: seq<string>, n: nat)
    requires 0 < n <= |diseaseFields|
    requires EditsUpTo(sections, diseaseFields, medicationFields, n).Err?
    ensures EditsUpTo(sections, diseaseFields, medicationFields, |diseaseFields|) == EditsUpTo(sections, diseaseFields, medicationFields, n)
    decreases |diseaseFields| - n
  {
    if n < |diseaseFields| {
      ErrorStays(sections, diseaseFields, medicationFields, n + 1);
    }
  }

  lemma {:induction false} MentionErrorStays(keys: seq<string>, sections: seq<Section>, edits: Edits, n: nat)
    requires 0 < n <= |keys|
    requires MentionsUpTo(keys, sections, edits, n).Err?
    ensures MentionsUpTo(keys, sections, edits, |keys|) == MentionsUpTo(keys, sections, edits, n)
    decreases |keys| - n
  {
    if n < |keys| {
      MentionErrorStays(keys, sections, edits, n + 1);
    }
  }

  // ---------------------------------------------------------------------------
  // What a submission stores
  // ---------------------------------------------------------------------------

  /**
   * Every stored row belongs to the submission (same user, record number,
   * transcription id and timestamp), carries its line as the entity, and
   * locates it: `text[start:end]` is the entity.
   */
  lemma SubmissionRows(userId: int, mrn: int, transcriptionId: string, now: int,
                       sections: seq<Section>, diseaseFields: seq<string>, medicationFields: seq<string>)
    requires Submission(userId, mrn, transcriptionId, now, sections, diseaseFields, medicationFields).Ok?
    ensures var rows := Submission(userId, mrn, transcriptionId, now, sections, diseaseFields, medicationFields).value;
      forall t :: 0 <= t < |rows| ==>
        && rows[t].id == userId && rows[t].mrn == mrn
        && rows[t].transcriptionId == transcriptionId && rows[t].timestamp == now
        && rows[t].entity.Some? && rows[t].start.Some? && rows[t].end.Some?
        && 0 <= rows[t].start.value <= rows[t].end.value <= |rows[t].text|
        && rows[t].text[rows[t].start.value..rows[t].end.value] == rows[t].entity.value
        && (rows[t].category == Some("disease") || rows[t].category == Some("medication"))
  {
    var edits := EditsUpTo(sections, diseaseFields, medicationFields, |diseaseFields|).value;
    var keys := TitleKeys(sections);
    var mentions := MentionsUpTo(keys, sections, edits, |keys|).value;
    MentionKinds(keys, sections, edits, |keys|);
  }

  lemma {:induction false} MentionKinds(keys: seq<string>, sections: seq<Section>, edits: Edits, n: nat)
    requires n <= |keys| && MentionsUpTo(keys, sections, edits, n).Ok?
    ensures forall m :: m in MentionsUpTo(keys, sections, edits, n).value ==> m.kind == "disease" || m.kind == "medication"
  {
    if n > 0 {
      MentionKinds(keys, sections, edits, n - 1);
    }
  }

  /**
   * A section's rows: the mentions of title key `n` are its disease lines
   * and then its medication lines, after the mentions of all earlier keys.
   */
  lemma {:induction false} MentionsCount(keys: seq<string>, sections: seq<Section>, edits: Edits, n: nat)
    requires n <= |keys| && MentionsUpTo(keys, sections, edits, n).Ok?
    ensures forall j :: 0 <= j < n ==> Lower(keys[j]) in edits.diseases && Lower(keys[j]) in edits.medications
    ensures |MentionsUpTo(keys, sections, edits, n).value| == LineCount(keys[..n], edits)
  {
    if n > 0 {
      MentionsCount(keys, sections, edits, n - 1);
      assert keys[..n][..n - 1] == keys[..n - 1];
    }
  }

  /** The number of edited lines under the given title keys. */
  function LineCount(keys: seq<string>, edits: Edits): nat
  {
    if keys == [] then 0
    else
      var key := Lower(keys[|keys| - 1]);
      LineCount(keys[..|keys| - 1], edits)
      + (if key in edits.diseases then |edits.diseases[key]| else 0)
      + (if key in edits.medications then |edits.medications[key]| else 0)
  }

  /**
   * The usual submission succeeds: when the form has one entry per section,
   * at least as many medication entries, and the note's keys are lower case
   * (as the vocabulary is), there is no error and one row per edited line.
   */
  lemma SubmissionSucceeds(userId: int, mrn: int, transcriptionId: string, now: int,
                           sections: seq<Section>, diseaseFields: seq<string>, medicationFields: seq<string>)
    requires |diseaseFields| == |sections| <= |medicationFields|
    requires forall i :: 0 <= i < |sections| ==> NoUpper(sections[i].key)
    ensures Submission(userId, mrn, transcriptionId, now, sections, diseaseFields, medicationFields).Ok?
  {
    var editsR := EditsUpTo(sections, diseaseFields, medicationFields, |diseaseFields|);
    EditsSucceed(sections, diseaseFields, medicationFields, |diseaseFields|);
    var edits := editsR.value;
    var keys := TitleKeys(sections);
    forall j | 0 <= j < |keys|
      ensures Lower(keys[j]) == sections[j].key
    {
      LowerTitle(sections[j].key);
      LowerOfNoUpper(sections[j].key);
    }
    MentionsSucceed(keys, sections, edits, |keys|);
  }

  lemma {:induction false} EditsSucceed(sections: seq<Section>, diseaseFields: seq<string>, medicationFields: seq<string>, n: nat)
    requires n <= |diseaseFields| <= |sections| && |diseaseFields| <= |medicationFields|
    ensures EditsUpTo(sections, diseaseFields, medicationFields, n).Ok?
    ensures forall j :: 0 <= j < n ==>
      sections[j].key in EditsUpTo(sections, diseaseFields, medicationFields, n).value.diseases &&
      sections[j].key in EditsUpTo(sections, diseaseFields, medicationFields, n).value.medications
  {
    if n > 0 {
      EditsSucceed(sections, diseaseFields, medicationFields, n - 1);
    }
  }

  lemma {:induction false} MentionsSucceed(keys: seq<string>, sections: seq<Section>, edits: Edits, n: nat)
    requires n <= |keys| == |sections|
    requires forall j :: 0 <= j < |keys| ==> Lower(keys[j]) == sections[j].key
    requires forall j :: 0 <= j < |sections| ==> sections[j].key in edits.diseases && sections[j].key in edits.medications
    ensures MentionsUpTo(keys, sections, edits, n).Ok?
  {
    if n > 0 {
      MentionsSucceed(keys, sections, edits, n - 1);
      SectionTextFound(sections, n - 1);
    }
  }

  /** Every key of the note has a text. */
  lemma {:induction false} SectionTextFound(sections: seq<Section>, j: nat)
    requires j < |sections|
    ensures SectionText(sections, sections[j].key).Some?
  {
    if j > 0 && sections[0].key != sections[j].key {
      SectionTextFound(sections[1..], j - 1);
    }
  }

  /** A form with more entries than the note has sections raises `IndexError`. */
  lemma SubmissionTooManyEntries(userId: int, mrn: int, transcriptionId: string, now: int,
                                 sections: seq<Section>, diseaseFields: seq<string>, medicationFields: seq<string>)
    requires |diseaseFields| > |sections|
    ensures Submission(userId, mrn, transcriptionId, now, sections, diseaseFields, medicationFields) == Err(IndexError)
  {
    EditsFail(sections, diseaseFields, medicationFields, |diseaseFields|);
  }

  lemma {:induction false} EditsFail(sections: seq<Section>, diseaseFields: seq<string>, medicationFields: seq<string>, n: nat)
    requires |sections| < n <= |diseaseFields|
    ensures EditsUpTo(sections, diseaseFields, medicationFields, n) == Err(IndexError)
  {
    if n - 1 > |sections| {
      EditsFail(sections, diseaseFields, medicationFields, n - 1);
    }
  }
}
