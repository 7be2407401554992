/**
 * The fixed-width timestamp format selections store: the 14 ASCII digits
 * `YYYYMMDDHHMMSS`, every field zero-padded to its width.
 */
module Timestamps {
  import opened Wrappers

  newtype byte = x: int | 0 <= x < 256

  type Bytes = seq<byte>

  /** A naive date and time; `Valid` keeps each field in its range (days are not checked against the month). */
  datatype DateTime = DateTime(year: int, month: int, day: int, hour: int, minute: int, second: int)

  predicate Valid(dt: DateTime) {
    && 1 <= dt.year <= 9999
    && 1 <= dt.month <= 12
    && 1 <= dt.day <= 31
    && 0 <= dt.hour <= 23
    && 0 <= dt.minute <= 59
    && 0 <= dt.second <= 59
  }

  const Zero: byte := 48

  predicate IsDigit(b: byte) {
    48 <= b <= 57
  }

  predicate AllDigits(s: Bytes) {
    forall i :: 0 <= i < |s| ==> IsDigit(s[i])
  }

  function Pow10(n: nat): (p: nat)
    ensures p >= 1
  {
    if n == 0 then 1 else 10 * Pow10(n - 1)
  }

  /** `n` in decimal, zero-padded on the left to `width` digits. */
  function Pad(n: nat, width: nat): (s: Bytes)
    requires n < Pow10(width)
    ensures |s| == width && AllDigits(s)
    decreases width
  {
    if width == 0 then [] else Pad(n / 10, width - 1) + [(48 + n % 10) as byte]
  }

  /** The number a run of decimal digits spells. */
  function DigitsValue(s: Bytes): nat
    requires AllDigits(s)
    decreases |s|
  {
    if s == [] then 0 else DigitsValue(s[..|s| - 1]) * 10 + (s[|s| - 1] as int - 48)
  }

  lemma {:induction false} PadValue(n: nat, width: nat)
    requires n < Pow10(width)
    ensures DigitsValue(Pad(n, width)) == n
    decreases width
  {
    if width > 0 {
      var s := Pad(n, width);
      assert s[..|s| - 1] == Pad(n / 10, width - 1);
      PadValue(n / 10, width - 1);
    }
  }

  lemma {:induction false} ValueOfPad(s: Bytes)
    requires AllDigits(s)
    ensures DigitsValue(s) < Pow10(|s|)
    ensures Pad(DigitsValue(s), |s|) == s
    decreases |s|
  {
    if s != [] {
      var init := s[..|s| - 1];
      ValueOfPad(init);
      var v := DigitsValue(s);
      assert v / 10 == DigitsValue(init) && v % 10 == s[|s| - 1] as int - 48;
      assert s == init + [s[|s| - 1]];
    }
  }

  lemma Pow10Widths()
    ensures Pow10(2) == 100 && Pow10(4) == 10000
  {
    assert Pow10(1) == 10;
    assert Pow10(3) == 1000;
  }

  lemma AllDigitsConcat(a: Bytes, b: Bytes)
    requires AllDigits(a) && AllDigits(b)
    ensures AllDigits(a + b)
  {
    forall i | 0 <= i < |a + b|
      ensures IsDigit((a + b)[i])
    {
      if i < |a| { assert (a + b)[i] == a[i]; } else { assert (a + b)[i] == b[i - |a|]; }
    }
  }

  /** `strftime('%Y%m%d%H%M%S')`. */
  function Format(dt: DateTime): (s: Bytes)
    requires Valid(dt)
    ensures |s| == 14 && AllDigits(s)
  {
    Pow10Widths();
    var a, b, c := Pad(dt.year, 4), Pad(dt.month, 2), Pad(dt.day, 2);
    var d, e, f := Pad(dt.hour, 2), Pad(dt.minute, 2), Pad(dt.second, 2);
    AllDigitsConcat(a, b);
    AllDigitsConcat(a + b, c);
    AllDigitsConcat(a + b + c, d);
    AllDigitsConcat(a + b + c + d, e);
    AllDigitsConcat(a + b + c + d + e, f);
    a + b + c + d + e + f
  }

  /** The value of the digits `s[lo..hi]`. */
  function Field(s: Bytes, lo: nat, hi: nat): nat
    requires lo <= hi <= |s| && AllDigits(s)
  {
    DigitsValue(s[lo..hi])
  }

  /** The six fields a 14-digit string spells, before any range check. */
  function Fields(s: Bytes): DateTime
    requires |s| == 14 && AllDigits(s)
  {
    DateTime(Field(s, 0, 4), Field(s, 4, 6), Field(s, 6, 8), Field(s, 8, 10), Field(s, 10, 12), Field(s, 12, 14))
  }

  lemma FieldOfPad(s: Bytes, lo: nat, hi: nat)
    requires lo <= hi <= |s| && AllDigits(s)
    ensures Field(s, lo, hi) < Pow10(hi - lo) && Pad(Field(s, lo, hi), hi - lo) == s[lo..hi]
  {
    ValueOfPad(s[lo..hi]);
  }

  /** Formatting the fields a well-formed string spells gives back the string. */
  lemma FormatFields(s: Bytes)
    requires |s| == 14 && AllDigits(s) && Valid(Fields(s))
    ensures Format(Fields(s)) == s
  {
    FieldOfPad(s, 0, 4); FieldOfPad(s, 4, 6); FieldOfPad(s, 6, 8);
    FieldOfPad(s, 8, 10); FieldOfPad(s, 10, 12); FieldOfPad(s, 12, 14);
    assert s == s[0..4] + s[4..6] + s[6..8] + s[8..10] + s[10..12] + s[12..14];
  }

  /**
   * Parses the stored bytes; anything but 14 digits whose fields are in
   * range is rejected. A parsed value formats back to exactly the input.
   */
  function Parse(s: Bytes): (r: Option<DateTime>)
    ensures r.Some? ==> Valid(r.value) && Format(r.value) == s
  {
    if |s| == 14 && AllDigits(s) && Valid(Fields(s)) then
      FormatFields(s);
      Some(Fields(s))
    else None
  }

  /** Each field of a formatted time sits at its fixed offset. */
  lemma FormatSlices(dt: DateTime)
    requires Valid(dt)
    ensures var s := Format(dt);
      && s[0..4] == Pad(dt.year, 4) && s[4..6] == Pad(dt.month, 2) && s[6..8] == Pad(dt.day, 2)
      && s[8..10] == Pad(dt.hour, 2) && s[10..12] == Pad(dt.minute, 2) && s[12..14] == Pad(dt.second, 2)
  {
    var a, b, c := Pad(dt.year, 4), Pad(dt.month, 2), Pad(dt.day, 2);
    var d, e, f := Pad(dt.hour, 2), Pad(dt.minute, 2), Pad(dt.second, 2);
    var s := Format(dt);
    assert s == a + b + c + d + e + f;
    assert s[0..4] == a;
    assert s[4..6] == b;
    assert s[6..8] == c;
    assert s[8..10] == d;
    assert s[10..12] == e;
    assert s[12..14] == f;
  }

  /** Parsing what `Format` wrote gives back the same six fields. */
  lemma ParseFormat(dt: DateTime)
    requires Valid(dt)
    ensures Parse(Format(dt)) == Some(dt)
  {
    FormatSlices(dt);
    PadValue(dt.year, 4);
    PadValue(dt.month, 2);
    PadValue(dt.day, 2);
    PadValue(dt.hour, 2);
    PadValue(dt.minute, 2);
    PadValue(dt.second, 2);
    assert Fields(Format(dt)) == dt;
  }

  lemma {:induction false} PadSmall(n: nat)
    requires n < 100
    ensures Pad(n, 2) == [(48 + n / 10) as byte, (48 + n % 10) as byte]
  {
    assert Pad(n / 10, 1) == Pad(0, 0) + [(48 + n / 10) as byte];
  }

  lemma Pad2020()
    ensures Pad(2020, 4) == [50, 48, 50, 48]
  {
    PadSmall(20);
    assert Pad(202, 3) == Pad(20, 2) + [50];
  }

  /** 2020-12-15 09:30:55 is stored as the ASCII bytes of `20201215093055`. */
  lemma FormatExample()
    ensures Format(DateTime(2020, 12, 15, 9, 30, 55)) == [50, 48, 50, 48, 49, 50, 49, 53, 48, 57, 51, 48, 53, 53]
  {
    Pad2020();
    PadSmall(12); PadSmall(15); PadSmall(9); PadSmall(30); PadSmall(55);
  }

  lemma Pad2019()
    ensures Pad(2019, 4) == [50, 48, 49, 57]
  {
    PadSmall(20);
    assert Pad(201, 3) == Pad(20, 2) + [49];
  }

  /** `20190830112844` parses as 2019-08-30 11:28:44. */
  lemma ParseExample()
    ensures Parse([50, 48, 49, 57, 48, 56, 51, 48, 49, 49, 50, 56, 52, 52]) == Some(DateTime(2019, 8, 30, 11, 28, 44))
  {
    var dt := DateTime(2019, 8, 30, 11, 28, 44);
    assert Format(dt) == [50, 48, 49, 57, 48, 56, 51, 48, 49, 49, 50, 56, 52, 52] by {
      Pad2019();
      PadSmall(8); PadSmall(30); PadSmall(11); PadSmall(28); PadSmall(44);
    }
    ParseFormat(dt);
  }

  /** 2019-12-25 04:44:44 is stored as `20191225044444`. */
  lemma FormatNowExample()
    ensures Format(DateTime(2019, 12, 25, 4, 44, 44)) == [50, 48, 49, 57, 49, 50, 50, 53, 48, 52, 52, 52, 52, 52]
  {
    Pad2019();
    PadSmall(12); PadSmall(25); PadSmall(4); PadSmall(44);
  }
}
