/**
 * The `transcriptions` row and its text form (`Data.__repr__`), read back by
 * the retraining job with `split("/col/")`; and the three password checks of
 * `Verification`.
 */
module Records {
  import opened Wrappers
  import opened Text

  /** The field separator of the row's text form. */
  const Sep: string := "/col/"

  /**
   * A row of the `transcriptions` table. `category` is the `label` column;
   * the nullable columns are options. The timestamp is a number of seconds.
   */
  datatype Data = Data(
    id: int, mrn: int, transcriptionId: string, text: string,
    entity: Option<string>, start: Option<int>, end: Option<int>,
    category: Option<string>, subjectId: string, timestamp: int)

  /** `str(x)` for a nullable text column. */
  function ShowText(x: Option<string>): string
  {
    if x.None? then "None" else x.value
  }

  /** `str(x)` for a nullable integer column. */
  function ShowInt(x: Option<int>): string
  {
    if x.None? then "None" else IntToString(x.value)
  }

  /** `str(info[r])` for the ten fields, in the order `__repr__` lists them. */
  function Fields(d: Data): (fields: seq<string>)
    ensures |fields| == 10
    ensures fields[3] == d.text && fields[5] == ShowInt(d.start) && fields[6] == ShowInt(d.end) && fields[7] == ShowText(d.category)
  {
    [IntToString(d.id), IntToString(d.mrn), d.transcriptionId, d.text,
     ShowText(d.entity), ShowInt(d.start), ShowInt(d.end), ShowText(d.category),
     d.subjectId, IntToString(d.timestamp)]
  }

  /** The text form: the fields joined by the separator, none before the first or after the last. */
  function Serialize(d: Data): string
  {
    Join(Fields(d), Sep)
  }

  /** `Data.__repr__`: appends each field, and the separator after every field but the last. */
  method Repr(d: Data) returns (row: string)
    ensures row == Serialize(d)
  {
    var info := Fields(d);
    row := "";
    var m := |info| - 1;
    for r := 0 to |info|
      invariant r <= m ==> row == if r == 0 then "" else Join(info[..r], Sep) + Sep
      invariant r > m ==> row == Join(info, Sep)
    {
      if r > 0 {
        JoinSnoc(info[..r], info[r], Sep);
        assert info[..r + 1] == info[..r] + [info[r]];
      } else {
        assert info[..1] == [info[0]];
      }
      if r != m {
        row := row + info[r] + Sep;
      } else {
        assert info[..r + 1] == info;
        row := row + info[r];
      }
    }
  }

  // ---------------------------------------------------------------------------
  // Reading the row back
  // ---------------------------------------------------------------------------

  /** Every field but the last is cut exactly after itself, and the last holds no separator. */
  predicate SplitsBack(d: Data)
  {
    var fields := Fields(d);
    (forall i :: 0 <= i < 9 ==> Separable(fields[i], Sep)) && !Contains(fields[9], Sep)
  }

  /**
   * Under that condition `split("/col/")` returns exactly the ten fields:
   * ten pieces, text at index 3, start and end at 5 and 6, label at 7.
   */
  lemma RoundTrip(d: Data)
    requires SplitsBack(d)
    ensures Split(Serialize(d), Sep) == Fields(d)
    ensures |Split(Serialize(d), Sep)| == 10
    ensures Split(Serialize(d), Sep)[3] == d.text
    ensures Split(Serialize(d), Sep)[5] == ShowInt(d.start) && Split(Serialize(d), Sep)[6] == ShowInt(d.end)
    ensures Split(Serialize(d), Sep)[7] == ShowText(d.category)
  {
    SplitJoin(Fields(d), Sep);
  }

  /** No character of `s` is '/', the separator's first character. */
  predicate NoSlash(s: string)
  {
    forall i :: 0 <= i < |s| ==> s[i] != '/'
  }

  /** A row whose text columns hold no '/' splits back into its fields. */
  lemma NoSlashSplitsBack(d: Data)
    requires NoSlash(d.transcriptionId) && NoSlash(d.text) && NoSlash(d.subjectId)
    requires NoSlash(ShowText(d.entity)) && NoSlash(ShowText(d.category))
    ensures SplitsBack(d)
  {
    var fields := Fields(d);
    forall i | 0 <= i < 10
      ensures NoSlash(fields[i])
    {
      IntToStringChars(d.id, '/');
      IntToStringChars(d.mrn, '/');
      IntToStringChars(d.timestamp, '/');
      if d.start.Some? { IntToStringChars(d.start.value, '/'); }
      if d.end.Some? { IntToStringChars(d.end.value, '/'); }
    }
    forall i | 0 <= i < 9
      ensures Separable(fields[i], Sep)
    {
      SeparableWithout(fields[i], Sep);
    }
    NotContainsWithout(fields[9], Sep);
  }

  /**
   * Not containing the separator is not enough: a text that ends with "/col"
   * runs on into the separator after it, so the piece read back at index 3
   * is shorter than the text, and the following indices shift.
   */
  lemma TextEndingInColBreaksRoundTrip(d: Data)
    requires NoSlash(d.transcriptionId)
    requires |d.text| >= 4 && d.text[|d.text| - 4..] == "/col"
    ensures |Split(Serialize(d), Sep)| >= 4 && Split(Serialize(d), Sep)[3] != d.text
  {
    var fields := Fields(d);
    IntToStringChars(d.id, '/');
    IntToStringChars(d.mrn, '/');
    SeparableWithout(fields[0], Sep);
    SeparableWithout(fields[1], Sep);
    SeparableWithout(fields[2], Sep);
    var rest := Join(fields[4..], Sep);
    JoinFour(fields, Sep);
    PeelThree(fields[0], fields[1], fields[2], d.text + Sep + rest, Sep);
    SplitCutsEarly(d.text, Sep, rest);
  }

  /** The first four fields of a join, and the join of the others. */
  lemma JoinFour(fields: seq<string>, sep: string)
    requires |fields| >= 5
    ensures Join(fields, sep) == fields[0] + sep + (fields[1] + sep + (fields[2] + sep + (fields[3] + sep + Join(fields[4..], sep))))
  {
    assert fields[1..][1..] == fields[2..] && fields[2..][1..] == fields[3..] && fields[3..][1..] == fields[4..];
    assert Join(fields[3..], sep) == fields[3] + sep + Join(fields[4..], sep);
    assert Join(fields[2..], sep) == fields[2] + sep + Join(fields[3..], sep);
    assert Join(fields[1..], sep) == fields[1] + sep + Join(fields[2..], sep);
  }

  /** Three separable fields in front peel off as the first three pieces. */
  lemma PeelThree(a: string, b: string, c: string, t: string, sep: string)
    requires |sep| > 0 && Separable(a, sep) && Separable(b, sep) && Separable(c, sep)
    ensures Split(a + sep + (b + sep + (c + sep + t)), sep) == [a, b, c] + Split(t, sep)
  {
    SplitPeel(a, sep, b + sep + (c + sep + t));
    SplitPeel(b, sep, c + sep + t);
    SplitPeel(c, sep, t);
  }

  /** A row with the text "a/col": no field contains "/col/", yet the text does not read back. */
  lemma SlashColExample(d: Data)
    requires d.text == "a/col" && NoSlash(d.transcriptionId)
    ensures !Contains(d.text, Sep)
    ensures |Split(Serialize(d), Sep)| >= 4 && Split(Serialize(d), Sep)[3] != d.text
  {
    assert d.text[1..] == "/col";
    forall p: nat | p <= |d.text|
      ensures !OccursAt(d.text, Sep, p)
    {
      if p + |Sep| <= |d.text| {
        assert d.text[p..p + |Sep|][0] == 'a';
      }
    }
    TextEndingInColBreaksRoundTrip(d);
  }

  // ---------------------------------------------------------------------------
  // Password checks (`Verification.check_pwd_*`)
  // ---------------------------------------------------------------------------

  /** `any(x.isdigit() for x in input)` */
  function CheckPwdDigit(input: string): (r: bool)
    ensures r <==> exists i :: 0 <= i < |input| && IsDigit(input[i])
  {
    if input == [] then false
    else IsDigit(input[0]) || CheckPwdDigit(input[1..])
  }

  /** `any(x.isupper() for x in input)` */
  function CheckPwdUpper(input: string): (r: bool)
    ensures r <==> exists i :: 0 <= i < |input| && IsUpper(input[i])
  {
    if input == [] then false
    else IsUpper(input[0]) || CheckPwdUpper(input[1..])
  }

  /** `len(input) >= 8` */
  function CheckPwdLength(input: string): (r: bool)
    ensures r <==> |input| > 7
  {
    |input| >= 8
  }

  /** Each of the three checks, once met, stays met when characters are appended. */
  lemma PasswordChecksExtend(input: string, more: string)
    ensures CheckPwdDigit(input) ==> CheckPwdDigit(input + more)
    ensures CheckPwdUpper(input) ==> CheckPwdUpper(input + more)
    ensures CheckPwdLength(input) ==> CheckPwdLength(input + more)
  {
    if CheckPwdDigit(input) {
      var i :| 0 <= i < |input| && IsDigit(input[i]);
      assert (input + more)[i] == input[i];
    }
    if CheckPwdUpper(input) {
      var i :| 0 <= i < |input| && IsUpper(input[i]);
      assert (input + more)[i] == input[i];
    }
  }

  /** The three checks on a password that passes them all. */
  lemma PasswordExamples()
    ensures CheckPwdDigit("Secret12") && CheckPwdUpper("Secret12") && CheckPwdLength("Secret12")
    ensures !CheckPwdLength("Secre12")
  {
    assert IsDigit("Secret12"[6]);
    assert IsUpper("Secret12"[0]);
  }

  /** A password of letters only has no digit. */
  lemma PasswordWithoutDigit()
    ensures !CheckPwdDigit("Password") && CheckPwdUpper("Password")
  {
    var s := "Password";
    assert IsUpper(s[0]);
    assert forall i :: 0 <= i < |s| ==> !IsDigit(s[i]) by {
      assert s == ['P', 'a', 's', 's', 'w', 'o', 'r', 'd'];
    }
  }

  /** A password in lower case has no upper-case character. */
  lemma PasswordWithoutUpper()
    ensures !CheckPwdUpper("secret12")
  {
    var s := "secret12";
    assert forall i :: 0 <= i < |s| ==> !IsUpper(s[i]) by {
      assert s == ['s', 'e', 'c', 'r', 'e', 't', '1', '2'];
    }
  }
}
