/**
 * The Python string operations the pipeline relies on, restricted to ASCII:
 * case mapping (`lower`, `upper`, `title`), `str.isdigit`/`str.isupper` on one
 * character, substring search (`in`, `str.find`), `str.split` and `str.join`
 * with a separator, `str.rstrip` of one character, and `str(int)`/`int(str)`.
 */
module Text {
  import opened Wrappers

  // ---------------------------------------------------------------------------
  // Characters
  // ---------------------------------------------------------------------------

  predicate IsDigit(c: char) { '0' <= c <= '9' }

  predicate IsUpper(c: char) { 'A' <= c <= 'Z' }

  predicate IsLower(c: char) { 'a' <= c <= 'z' }

  /** A cased character in the sense of `str.title`; for ASCII, a letter. */
  predicate IsCased(c: char) { IsUpper(c) || IsLower(c) }

  function ToLowerChar(c: char): char
  {
    if IsUpper(c) then (c as int + 32) as char else c
  }

  function ToUpperChar(c: char): char
  {
    if IsLower(c) then (c as int - 32) as char else c
  }

  // ---------------------------------------------------------------------------
  // Case mapping of whole strings
  // ---------------------------------------------------------------------------

  /** `s.lower()` */
  function Lower(s: string): string
  {
    seq(|s|, i requires 0 <= i < |s| => ToLowerChar(s[i]))
  }

  /** `s.upper()` */
  function Upper(s: string): string
  {
    seq(|s|, i requires 0 <= i < |s| => ToUpperChar(s[i]))
  }

  /**
   * `str.title`, scanning left to right: a character is upper-cased when the
   * character before it is not cased and lower-cased otherwise.
   */
  function TitleFrom(s: string, previousCased: bool): (r: string)
    ensures |r| == |s|
    ensures forall i :: 0 <= i < |s| ==> r[i] == ToLowerChar(s[i]) || r[i] == ToUpperChar(s[i])
  {
    if s == [] then []
    else
      var c := if previousCased then ToLowerChar(s[0]) else ToUpperChar(s[0]);
      [c] + TitleFrom(s[1..], IsCased(s[0]))
  }

  /** `s.title()` */
  function Title(s: string): string
  {
    TitleFrom(s, false)
  }

  predicate NoUpper(s: string)
  {
    forall i :: 0 <= i < |s| ==> !IsUpper(s[i])
  }

  /** Title-casing only changes case, so lower-casing it back gives `s.lower()`. */
  lemma LowerTitle(s: string)
    ensures Lower(Title(s)) == Lower(s)
  {
    var t := Title(s);
    assert |Lower(t)| == |Lower(s)|;
    forall i | 0 <= i < |s|
      ensures Lower(t)[i] == Lower(s)[i]
    {
      assert t[i] == ToLowerChar(s[i]) || t[i] == ToUpperChar(s[i]);
    }
  }

  /** A string without upper-case letters survives `lower()` unchanged. */
  lemma LowerOfNoUpper(s: string)
    requires NoUpper(s)
    ensures Lower(s) == s
  {
  }

  lemma LowerHasNoUpper(s: string)
    ensures NoUpper(Lower(s))
  {
  }

  /** `lower()` distributes over concatenation. */
  lemma LowerAppend(a: string, b: string)
    ensures Lower(a + b) == Lower(a) + Lower(b)
  {
  }

  // ---------------------------------------------------------------------------
  // Substring search
  // ---------------------------------------------------------------------------

  /** `sub` occurs in `s` starting at index `p`. */
  predicate OccursAt(s: string, sub: string, p: nat)
  {
    p + |sub| <= |s| && s[p..p + |sub|] == sub
  }

  /** Python's `sub in s`. */
  predicate Contains(s: string, sub: string)
  {
    exists p: nat :: p <= |s| && OccursAt(s, sub, p)
  }

  /** The first index at or after `from` where `sub` occurs in `s`. */
  function FindFrom(s: string, sub: string, from: nat): (r: Option<nat>)
    ensures r.Some? ==> from <= r.value && OccursAt(s, sub, r.value)
    ensures r.Some? ==> forall q: nat :: from <= q < r.value ==> !OccursAt(s, sub, q)
    ensures r.None? ==> forall q: nat :: from <= q ==> !OccursAt(s, sub, q)
    decreases |s| - from
  {
    if from + |sub| > |s| then None
    else if s[from..from + |sub|] == sub then Some(from)
    else FindFrom(s, sub, from + 1)
  }

  /** The first occurrence of `sub` in `s`, as `re.search(sub, s).start()` for a literal pattern. */
  function FindFirst(s: string, sub: string): (r: Option<nat>)
    ensures r.Some? <==> Contains(s, sub)
    ensures r.Some? ==> OccursAt(s, sub, r.value) && forall q: nat :: q < r.value ==> !OccursAt(s, sub, q)
  {
    var r := FindFrom(s, sub, 0);
    assert r.Some? ==> OccursAt(s, sub, r.value);
    r
  }

  /** An occurrence inside a prefix of `s` is an occurrence in `s`, and conversely. */
  lemma OccursInPrefix(s: string, t: string, sub: string, p: nat)
    requires |t| <= |s| && s[..|t|] == t
    requires p + |sub| <= |t|
    ensures OccursAt(s, sub, p) <==> OccursAt(t, sub, p)
  {
    assert s[..|t|][p..p + |sub|] == s[p..p + |sub|];
  }

  // ---------------------------------------------------------------------------
  // split and join on a separator
  // ---------------------------------------------------------------------------

  /** `s.split(sep)` for a non-empty separator: cut at each leftmost, non-overlapping occurrence. */
  function Split(s: string, sep: string): (parts: seq<string>)
    requires |sep| > 0
    ensures |parts| >= 1
    decreases |s|
  {
    match FindFirst(s, sep)
    case None => [s]
    case Some(p) => [s[..p]] + Split(s[p + |sep|..], sep)
  }

  /** `sep.join(parts)` */
  function Join(parts: seq<string>, sep: string): string
  {
    if |parts| == 0 then ""
    else if |parts| == 1 then parts[0]
    else parts[0] + sep + Join(parts[1..], sep)
  }

  /** Appending one more part to a non-empty join adds the separator and the part. */
  lemma {:induction false} JoinSnoc(parts: seq<string>, x: string, sep: string)
    requires |parts| >= 1
    ensures Join(parts + [x], sep) == Join(parts, sep) + sep + x
    decreases |parts|
  {
    if |parts| > 1 {
      JoinSnoc(parts[1..], x, sep);
      assert (parts + [x])[1..] == parts[1..] + [x];
    } else {
      assert (parts + [x])[1..] == [x];
    }
  }

  /**
   * `field` followed by `sep` is cut exactly after `field`: no occurrence of
   * `sep` starts inside `field`, not even one that runs on into the separator.
   */
  predicate Separable(field: string, sep: string)
    requires |sep| > 0
  {
    !Contains(field + sep[..|sep| - 1], sep)
  }

  /** A field without the separator's first character is separable. */
  lemma SeparableWithout(field: string, sep: string)
    requires |sep| > 0
    requires forall i :: 0 <= i < |field| ==> field[i] != sep[0]
    ensures Separable(field, sep)
  {
    var t := field + sep[..|sep| - 1];
    forall p: nat | p <= |t|
      ensures !OccursAt(t, sep, p)
    {
      if p + |sep| <= |t| {
        assert t[p..p + |sep|][0] == t[p];
        assert p < |field|;
      }
    }
  }

  /** A string without the separator's first character does not contain it. */
  lemma NotContainsWithout(s: string, sep: string)
    requires |sep| > 0
    requires forall i :: 0 <= i < |s| ==> s[i] != sep[0]
    ensures !Contains(s, sep)
  {
    forall p: nat | p <= |s|
      ensures !OccursAt(s, sep, p)
    {
      if p + |sep| <= |s| {
        assert s[p..p + |sep|][0] == s[p];
      }
    }
  }

  /** Splitting `a + sep + rest` peels off `a` exactly when `a` is separable. */
  lemma SplitPeel(a: string, sep: string, rest: string)
    requires |sep| > 0
    requires Separable(a, sep)
    ensures Split(a + sep + rest, sep) == [a] + Split(rest, sep)
  {
    var s := a + sep + rest;
    var t := a + sep[..|sep| - 1];
    assert s[..|t|] == t;
    assert OccursAt(s, sep, |a|) by {
      assert s[|a|..|a| + |sep|] == sep;
    }
    forall q: nat | q < |a|
      ensures !OccursAt(s, sep, q)
    {
      if OccursAt(s, sep, q) {
        OccursInPrefix(s, t, sep, q);
        assert Contains(t, sep);
      }
    }
    var f := FindFirst(s, sep);
    assert f == Some(|a|);
    assert s[..|a|] == a;
    assert s[|a| + |sep|..] == rest;
  }

  /** Joining fields and splitting them back gives the same fields. */
  lemma {:induction false} SplitJoin(parts: seq<string>, sep: string)
    requires |sep| > 0 && |parts| >= 1
    requires forall i :: 0 <= i < |parts| - 1 ==> Separable(parts[i], sep)
    requires !Contains(parts[|parts| - 1], sep)
    ensures Split(Join(parts, sep), sep) == parts
    decreases |parts|
  {
    if |parts| == 1 {
      assert Join(parts, sep) == parts[0];
    } else {
      SplitJoin(parts[1..], sep);
      SplitPeel(parts[0], sep, Join(parts[1..], sep));
      assert Join(parts, sep) == parts[0] + sep + Join(parts[1..], sep);
      assert [parts[0]] + parts[1..] == parts;
    }
  }

  /**
   * A field that ends with all of `sep` but its last character breaks the
   * round trip: the piece split off first is strictly shorter than the field.
   */
  lemma SplitCutsEarly(a: string, sep: string, rest: string)
    requires |sep| > 1
    requires |a| >= |sep| - 1 && a[|a| - (|sep| - 1)..] == sep[..|sep| - 1]
    requires sep[0] == sep[|sep| - 1]
    ensures |Split(a + sep + rest, sep)[0]| < |a|
  {
    var s := a + sep + rest;
    var p := |a| - (|sep| - 1);
    assert s[p..p + |sep|] == a[p..] + [sep[0]] by {
      assert s[p..p + |sep|] == s[p..|a|] + s[|a|..|a| + 1];
      assert s[p..|a|] == a[p..];
    }
    assert a[p..] + [sep[0]] == sep by {
      assert sep == sep[..|sep| - 1] + [sep[|sep| - 1]];
    }
    assert OccursAt(s, sep, p);
    var f := FindFirst(s, sep);
    assert f.Some? && f.value <= p;
  }

  // ---------------------------------------------------------------------------
  // Stripping
  // ---------------------------------------------------------------------------

  /** `s.rstrip(c)`: removes every trailing `c`. */
  function RStrip(s: string, c: char): (r: string)
    ensures |r| <= |s| && r == s[..|r|]
    ensures |r| == 0 || r[|r| - 1] != c
    ensures forall i :: |r| <= i < |s| ==> s[i] == c
  {
    if |s| > 0 && s[|s| - 1] == c then RStrip(s[..|s| - 1], c) else s
  }

  // ---------------------------------------------------------------------------
  // Integers and their decimal form
  // ---------------------------------------------------------------------------

  function DigitChar(d: nat): (c: char)
    requires d < 10
    ensures IsDigit(c)
  {
    ('0' as int + d) as char
  }

  function DigitValue(c: char): nat
    requires IsDigit(c)
  {
    c as int - '0' as int
  }

  predicate AllDigits(s: string)
  {
    forall i :: 0 <= i < |s| ==> IsDigit(s[i])
  }

  /** `str(n)` for a natural number: its shortest decimal form. */
  function NatToString(n: nat): (s: string)
    ensures |s| >= 1 && AllDigits(s)
    decreases n
  {
    if n < 10 then [DigitChar(n)] else NatToString(n / 10) + [DigitChar(n % 10)]
  }

  /** `str(i)` for an integer: a minus sign, then the decimal form of its magnitude. */
  function IntToString(i: int): string
  {
    if i < 0 then "-" + NatToString(-i) else NatToString(i)
  }

  /** The value of a string of decimal digits. */
  function DigitsValue(s: string): nat
    requires AllDigits(s)
  {
    if s == [] then 0 else DigitsValue(s[..|s| - 1]) * 10 + DigitValue(s[|s| - 1])
  }

  /**
   * `int(s)`: an optional sign followed by at least one decimal digit;
   * anything else raises `ValueError`, modelled as `None`.
   */
  function ParseInt(s: string): Option<int>
  {
    if |s| > 0 && (s[0] == '-' || s[0] == '+') then
      if |s| > 1 && AllDigits(s[1..]) then
        var magnitude: int := DigitsValue(s[1..]);
        Some(if s[0] == '-' then -magnitude else magnitude)
      else None
    else if |s| > 0 && AllDigits(s) then Some(DigitsValue(s))
    else None
  }

  lemma {:induction false} DigitsValueOfNat(n: nat)
    ensures DigitsValue(NatToString(n)) == n
    decreases n
  {
    var s := NatToString(n);
    if n >= 10 {
      DigitsValueOfNat(n / 10);
      assert s[..|s| - 1] == NatToString(n / 10);
    }
  }

  /** `int(str(i)) == i` */
  lemma ParseIntToString(i: int)
    ensures ParseInt(IntToString(i)) == Some(i)
  {
    var s := IntToString(i);
    if i < 0 {
      var m := NatToString(-i);
      assert s == "-" + m;
      assert s[1..] == m;
      DigitsValueOfNat(-i);
      assert AllDigits(s[1..]);
      assert |s| > 1;
    } else {
      var m := NatToString(i);
      assert s == m;
      DigitsValueOfNat(i);
      assert IsDigit(s[0]);
      assert !(s[0] == '-' || s[0] == '+');
    }
  }

  /** The decimal form of an integer holds no character other than digits and `-`. */
  lemma IntToStringChars(i: int, c: char)
    requires !IsDigit(c) && c != '-'
    ensures forall k :: 0 <= k < |IntToString(i)| ==> IntToString(i)[k] != c
  {
  }

  function Pow10(k: nat): nat
  {
    if k == 0 then 1 else 10 * Pow10(k - 1)
  }

  /** `str(n)` has at most `k` characters exactly when `n < 10^k`. */
  lemma {:induction false} NatToStringLength(n: nat, k: nat)
    requires k >= 1
    ensures |NatToString(n)| <= k <==> n < Pow10(k)
    decreases n
  {
    if n >= 10 {
      if k == 1 {
        PowPositive(0);
      } else {
        NatToStringLength(n / 10, k - 1);
      }
    } else {
      PowAtLeastTen(k);
    }
  }

  lemma PowPositive(k: nat)
    ensures Pow10(k) >= 1
  {
  }

  lemma {:induction false} PowAtLeastTen(k: nat)
    requires k >= 1
    ensures Pow10(k) >= 10
  {
    if k > 1 {
      PowAtLeastTen(k - 1);
    }
  }
}
