/** Python's str() of integers and record values, and int() of directory
    entries, as the store uses them to name and to read timestamps. */
module Numerals {
  import opened Errors

  predicate IsDigit(ch: char) {
    '0' <= ch <= '9'
  }

  /** A non-empty string of decimal digits, leading zeros allowed: what int() accepts here. */
  predicate IsNumeral(s: string) {
    |s| >= 1 && forall i :: 0 <= i < |s| ==> IsDigit(s[i])
  }

  /** A numeral without leading zeros: the form str() produces. */
  predicate IsCanonical(s: string) {
    IsNumeral(s) && (s[0] == '0' ==> |s| == 1)
  }

  function DigitChar(d: nat): (ch: char)
    requires d < 10
    ensures IsDigit(ch) && (ch as int) - ('0' as int) == d
  {
    ((d + '0' as int) as char)
  }

  function DigitValue(ch: char): (d: nat)
    requires IsDigit(ch)
    ensures d < 10 && DigitChar(d) == ch
  {
    (ch as int) - ('0' as int)
  }

  /** str(n) for n >= 0. */
  function NatToString(n: nat): (s: string)
    ensures IsCanonical(s)
    ensures s[0] == '0' ==> n == 0
    decreases n
  {
    if n < 10 then [DigitChar(n)] else NatToString(n / 10) + [DigitChar(n % 10)]
  }

  /** str(i) for any integer: a minus sign before the magnitude when negative. */
  function IntToString(i: int): (s: string)
    ensures |s| >= 1
    ensures i >= 0 <==> IsDigit(s[0])
  {
    if i < 0 then "-" + NatToString(-i) else NatToString(i)
  }

  /** The value of a string of digits, most significant digit first. */
  function DigitsValue(s: string): nat
    requires forall i :: 0 <= i < |s| ==> IsDigit(s[i])
    decreases |s|
  {
    if s == [] then 0 else DigitsValue(s[..|s| - 1]) * 10 + DigitValue(s[|s| - 1])
  }

  /** int(s) on a directory entry; None stands for the ValueError int() raises. */
  function ParseInt(s: string): (r: Option<nat>)
    ensures r.Some? <==> IsNumeral(s)
  {
    if IsNumeral(s) then Some(DigitsValue(s)) else None
  }

  /** int() reads back every numeral str() writes. */
  lemma {:induction false} ParseShow(n: nat)
    ensures ParseInt(NatToString(n)) == Some(n)
    decreases n
  {
    var s := NatToString(n);
    if n >= 10 {
      ParseShow(n / 10);
      assert s[..|s| - 1] == NatToString(n / 10);
      assert DigitValue(s[|s| - 1]) == n % 10;
      assert DigitsValue(s) == (n / 10) * 10 + n % 10;
    }
  }

  lemma {:induction false} LeadingDigitBound(s: string)
    requires IsNumeral(s)
    ensures DigitsValue(s) >= DigitValue(s[0])
    decreases |s|
  {
    if |s| > 1 {
      LeadingDigitBound(s[..|s| - 1]);
    }
  }

  /** str() gives back every canonical numeral int() reads. */
  lemma {:induction false} ShowParse(s: string)
    requires IsCanonical(s)
    ensures NatToString(DigitsValue(s)) == s
    decreases |s|
  {
    if |s| > 1 {
      var init := s[..|s| - 1];
      assert IsCanonical(init);
      ShowParse(init);
      LeadingDigitBound(init);
      assert DigitsValue(s) >= 10;
      assert s == init + [s[|s| - 1]];
    }
  }

  /** A directory entry names timestamp v exactly when int() reads v from it and
      it is written the way str(v) writes it. */
  lemma ShowIsCanonicalParse(v: nat, s: string)
    ensures NatToString(v) == s <==> ParseInt(s) == Some(v) && IsCanonical(s)
  {
    if NatToString(v) == s {
      ParseShow(v);
    }
    if ParseInt(s) == Some(v) && IsCanonical(s) {
      ShowParse(s);
    }
  }

  /** A zero-padded entry is read as a timestamp whose str() is a different name. */
  lemma PaddedEntryRenamed()
    ensures ParseInt("0150") == Some(150)
    ensures NatToString(150) == "150"
  {
    assert NatToString(1) == "1";
    assert NatToString(15) == "15";
    var s := "0150";
    assert s[..3] == "015";
    assert s[..3][..2] == "01";
    assert s[..3][..2][..1] == "0";
    assert DigitsValue("0") == 0;
    assert DigitsValue("01") == 1;
    assert DigitsValue("015") == 15;
    assert DigitsValue(s) == 150;
  }

  /** Distinct integers have distinct str() forms. */
  lemma {:induction false} IntToStringInjective(i: int, j: int)
    requires IntToString(i) == IntToString(j)
    ensures i == j
  {
    if i < 0 && j < 0 {
      assert NatToString(-i) == IntToString(i)[1..];
      assert NatToString(-j) == IntToString(j)[1..];
      ParseShow(-i);
      ParseShow(-j);
    } else if i >= 0 && j >= 0 {
      ParseShow(i);
      ParseShow(j);
    }
  }

  /** The values a record may hold in its "timestamp" field. */
  datatype Value = IntVal(i: int) | StrVal(s: string)

  /** Python str() of a record value; str() of a string is that string. */
  function Str(v: Value): (s: string)
    ensures v.IntVal? && v.i >= 0 ==> IsCanonical(s) && ParseInt(s) == Some(v.i)
    ensures v.IntVal? && v.i < 0 ==> s != [] && s[0] == '-'
    ensures v.StrVal? ==> s == v.s
  {
    match v
    case IntVal(i) =>
      if i >= 0 then ParseShow(i); IntToString(i) else IntToString(i)
    case StrVal(s) => s
  }

  /** Yielded is the run of `for e in listing: yield int(e)`. */
  ghost predicate ParsesAs(listing: seq<string>, y: Yielded<nat>) {
    && |y.items| <= |listing|
    && (forall i :: 0 <= i < |y.items| ==> ParseInt(listing[i]) == Some(y.items[i]))
    && (y.raised.None? ==> |y.items| == |listing|)
    && (y.raised.Some? ==>
          |y.items| < |listing| && ParseInt(listing[|y.items|]).None?
          && y.raised.value == ValueError(listing[|y.items|]))
  }

  /** The timestamps a listing yields: int() of each entry in order, stopping
      with ValueError at the first entry that is not a numeral. */
  function ParseAll(listing: seq<string>): (y: Yielded<nat>)
    ensures ParsesAs(listing, y)
    decreases |listing|
  {
    if listing == [] then Yielded([], None)
    else match ParseInt(listing[0])
      case None => Yielded([], Some(ValueError(listing[0])))
      case Some(v) =>
        var rest := ParseAll(listing[1..]);
        Yielded([v] + rest.items, rest.raised)
  }

  /** Only one run of the loop fits a listing. */
  lemma ParsesAsUnique(listing: seq<string>, y: Yielded<nat>, z: Yielded<nat>)
    requires ParsesAs(listing, y) && ParsesAs(listing, z)
    ensures y == z
  {
    if |y.items| < |z.items| {
      assert false;
    } else if |z.items| < |y.items| {
      assert false;
    }
    assert y.items == z.items;
  }

  /** Every entry of a fully parsed listing contributes its value, at its position. */
  lemma ParsedValues(listing: seq<string>, e: string)
    requires ParseAll(listing).raised.None?
    requires e in listing
    ensures ParseInt(e).Some? && ParseInt(e).value in ParseAll(listing).items
  {
    var i :| 0 <= i < |listing| && listing[i] == e;
    assert ParseAll(listing).items[i] == ParseInt(e).value;
  }
}
