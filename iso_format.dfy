/** Python's `datetime.datetime` values and what `isoformat()` renders for one whose
    `tzinfo` is `timezone.utc`: `YYYY-MM-DDTHH:MM:SS[.ffffff]+00:00`, the `date-time`
    production of section 5.6 of RFC 3339 for the four-digit years a `datetime` holds. */
module IsoFormat {
  import opened PyRuntime

  /** The wall-clock fields of a naive `datetime`. */
  datatype DateTime = DateTime(
    year: int, month: int, day: int,
    hour: int, minute: int, second: int, microsecond: int)

  predicate IsLeapYear(y: int) {
    y % 4 == 0 && (y % 100 != 0 || y % 400 == 0)
  }

  function DaysInMonth(y: int, m: int): (n: int)
    requires 1 <= m <= 12
    ensures 28 <= n <= 31
    ensures m == 2 ==> (n == 29 <==> IsLeapYear(y))
  {
    if m == 2 then (if IsLeapYear(y) then 29 else 28)
    else if m == 4 || m == 6 || m == 9 || m == 11 then 30
    else 31
  }

  /** The range checks of the `datetime` constructor (`MINYEAR` is 1, `MAXYEAR` is 9999). */
  predicate Valid(d: DateTime) {
    && 1 <= d.year <= 9999
    && 1 <= d.month <= 12
    && 1 <= d.day <= DaysInMonth(d.year, d.month)
    && 0 <= d.hour < 24
    && 0 <= d.minute < 60
    && 0 <= d.second < 60
    && 0 <= d.microsecond < 1000000
  }

  /** A value of type `datetime`: only valid field combinations can be constructed. */
  type NaiveDateTime = d: DateTime | Valid(d) witness DateTime(1, 1, 1, 0, 0, 0, 0)

  // ---------------------------------------------------------------------------
  // Zero-padded decimal fields

  function Pow10(n: nat): (p: nat)
    ensures p >= 1
  {
    if n == 0 then 1 else 10 * Pow10(n - 1)
  }

  predicate IsDigit(c: char) {
    '0' <= c <= '9'
  }

  predicate AllDigits(s: string) {
    forall i :: 0 <= i < |s| ==> IsDigit(s[i])
  }

  function DigitChar(d: nat): (c: char)
    requires d < 10
    ensures IsDigit(c) && c as int - '0' as int == d
  {
    ('0' as int + d) as char
  }

  /** `%0<width>d` for a value that fits in `width` digits. */
  function Pad(n: nat, width: nat): (s: string)
    ensures |s| == width && AllDigits(s)
  {
    if width == 0 then "" else Pad(n / 10, width - 1) + [DigitChar(n % 10)]
  }

  /** The number a run of decimal digits denotes. */
  function DigitsValue(s: string): nat
    requires AllDigits(s)
  {
    if s == "" then 0 else DigitsValue(s[..|s| - 1]) * 10 + (s[|s| - 1] as int - '0' as int)
  }

  /** Reading back a padded field gives the number that was padded. */
  lemma {:induction false} PadValue(n: nat, width: nat)
    requires n < Pow10(width)
    ensures DigitsValue(Pad(n, width)) == n
  {
    if width > 0 {
      PadValue(n / 10, width - 1);
      assert Pad(n, width)[..width - 1] == Pad(n / 10, width - 1);
    }
  }

  /** Padding the value of a digit run to its own width gives the run back. */
  lemma {:induction false} ValuePad(s: string)
    requires AllDigits(s)
    ensures DigitsValue(s) < Pow10(|s|)
    ensures Pad(DigitsValue(s), |s|) == s
  {
    if s != "" {
      var init := s[..|s| - 1];
      ValuePad(init);
      assert s == init + [s[|s| - 1]];
    }
  }

  /** The value of a two-digit run, digit by digit. */
  lemma DigitsValueTwo(s: string)
    requires |s| == 2 && AllDigits(s)
    ensures DigitsValue(s) == (s[0] as int - '0' as int) * 10 + (s[1] as int - '0' as int)
  {
    var init := s[..1];
    assert init[..0] == "" && init[0] == s[0];
    assert DigitsValue(init) == DigitsValue(init[..0]) * 10 + (init[0] as int - '0' as int);
  }

  /** The value of a four-digit run, digit by digit. */
  lemma DigitsValueFour(s: string)
    requires |s| == 4 && AllDigits(s)
    ensures DigitsValue(s) == (s[0] as int - '0' as int) * 1000 + (s[1] as int - '0' as int) * 100
                            + (s[2] as int - '0' as int) * 10 + (s[3] as int - '0' as int)
  {
    var init := s[..3];
    assert init[..2] == s[..2] && init[2] == s[2];
    DigitsValueTwo(s[..2]);
    assert DigitsValue(init) == DigitsValue(init[..2]) * 10 + (init[2] as int - '0' as int);
  }

  // ---------------------------------------------------------------------------
  // Rendering

  const UtcSuffix: string := "+00:00"

  /** The first 19 characters of every rendering: `YYYY-MM-DDTHH:MM:SS`. */
  function DateAndTime(d: NaiveDateTime): string {
    Pad(d.year, 4) + "-" + Pad(d.month, 2) + "-" + Pad(d.day, 2) + "T"
    + Pad(d.hour, 2) + ":" + Pad(d.minute, 2) + ":" + Pad(d.second, 2)
  }

  /** `d.replace(tzinfo=timezone.utc).isoformat()`: the fraction appears only when the
      microsecond field is not zero, and the offset is always `+00:00`. */
  function IsoFormatUtc(d: NaiveDateTime): (s: string)
    ensures |s| == (if d.microsecond == 0 then 25 else 32)
    ensures s[|s| - 6..] == UtcSuffix
  {
    DateAndTime(d) + (if d.microsecond == 0 then "" else "." + Pad(d.microsecond, 6)) + UtcSuffix
  }

  // ---------------------------------------------------------------------------
  // Reading a rendering back

  /** True when `h` has the shape `DDDD-DD-DDTDD:DD:DD`. */
  predicate IsDateAndTime(h: string) {
    && |h| == 19
    && h[4] == '-' && h[7] == '-' && h[10] == 'T' && h[13] == ':' && h[16] == ':'
    && AllDigits(h[0..4]) && AllDigits(h[5..7]) && AllDigits(h[8..10])
    && AllDigits(h[11..13]) && AllDigits(h[14..16]) && AllDigits(h[17..19])
  }

  /** The fields a `DDDD-DD-DDTDD:DD:DD` head shows, with the given microsecond. */
  function HeadFields(h: string, microsecond: int): DateTime
    requires IsDateAndTime(h)
  {
    DateTime(
      DigitsValue(h[0..4]), DigitsValue(h[5..7]), DigitsValue(h[8..10]),
      DigitsValue(h[11..13]), DigitsValue(h[14..16]), DigitsValue(h[17..19]),
      microsecond)
  }

  /** True when `s` has the punctuation and digits of a rendering at the right places. */
  predicate HasIsoShape(s: string) {
    && (|s| == 25 || (|s| == 32 && s[19] == '.' && AllDigits(s[20..26])))
    && IsDateAndTime(s[..19])
    && s[|s| - 6..] == UtcSuffix
  }

  /** The inverse of `IsoFormatUtc`: the wall-clock fields a rendering shows, or `None`
      for a string that no `datetime` renders to. */
  function ParseIsoUtc(s: string): Option<NaiveDateTime> {
    if !HasIsoShape(s) then None
    else
      var d := HeadFields(s[..19], if |s| == 32 then DigitsValue(s[20..26]) else 0);
      if Valid(d) && (|s| == 32 ==> d.microsecond != 0) then Some(d) else None
  }

  /** Where each field of the head sits. */
  lemma DateAndTimeLayout(d: NaiveDateTime)
    ensures var h := DateAndTime(d);
      && |h| == 19
      && h[0..4] == Pad(d.year, 4) && h[5..7] == Pad(d.month, 2) && h[8..10] == Pad(d.day, 2)
      && h[11..13] == Pad(d.hour, 2) && h[14..16] == Pad(d.minute, 2) && h[17..19] == Pad(d.second, 2)
      && h[4] == '-' && h[7] == '-' && h[10] == 'T' && h[13] == ':' && h[16] == ':'
  {
  }

  /** The head of a rendering reads back as the wall-clock fields it was made from. */
  lemma DateAndTimeReadsBack(d: NaiveDateTime)
    ensures IsDateAndTime(DateAndTime(d))
    ensures HeadFields(DateAndTime(d), d.microsecond) == d
  {
    DateAndTimeLayout(d);
    PadValue(d.year, 4);
    PadValue(d.month, 2);
    PadValue(d.day, 2);
    PadValue(d.hour, 2);
    PadValue(d.minute, 2);
    PadValue(d.second, 2);
  }

  /** Two heads that agree on every field and separator are the same string. */
  lemma HeadsAgree(h: string, g: string)
    requires |h| == 19 && |g| == 19
    requires h[0..4] == g[0..4] && h[5..7] == g[5..7] && h[8..10] == g[8..10]
    requires h[11..13] == g[11..13] && h[14..16] == g[14..16] && h[17..19] == g[17..19]
    requires h[4] == g[4] && h[7] == g[7] && h[10] == g[10] && h[13] == g[13] && h[16] == g[16]
    ensures h == g
  {
    forall i | 0 <= i < 19 ensures h[i] == g[i] {
      if i < 4 { assert h[i] == h[0..4][i]; }
      else if 5 <= i < 7 { assert h[i] == h[5..7][i - 5] && g[i] == g[5..7][i - 5]; }
      else if 8 <= i < 10 { assert h[i] == h[8..10][i - 8] && g[i] == g[8..10][i - 8]; }
      else if 11 <= i < 13 { assert h[i] == h[11..13][i - 11] && g[i] == g[11..13][i - 11]; }
      else if 14 <= i < 16 { assert h[i] == h[14..16][i - 14] && g[i] == g[14..16][i - 14]; }
      else if 17 <= i { assert h[i] == h[17..19][i - 17] && g[i] == g[17..19][i - 17]; }
    }
  }

  /** A head whose fields are the padded fields of `d`, with the separators, is the
      head of the rendering of `d`. */
  lemma HeadOfFields(h: string, d: NaiveDateTime)
    requires |h| == 19 && h[4] == '-' && h[7] == '-' && h[10] == 'T' && h[13] == ':' && h[16] == ':'
    requires h[0..4] == Pad(d.year, 4) && h[5..7] == Pad(d.month, 2) && h[8..10] == Pad(d.day, 2)
    requires h[11..13] == Pad(d.hour, 2) && h[14..16] == Pad(d.minute, 2) && h[17..19] == Pad(d.second, 2)
    ensures DateAndTime(d) == h
  {
    DateAndTimeLayout(d);
    HeadsAgree(h, DateAndTime(d));
  }

  /** A well-shaped head is the rendering of the fields it shows. */
  lemma HeadIsDateAndTime(h: string, d: NaiveDateTime)
    requires IsDateAndTime(h) && HeadFields(h, d.microsecond) == d
    ensures DateAndTime(d) == h
  {
    ValuePad(h[0..4]);
    ValuePad(h[5..7]);
    ValuePad(h[8..10]);
    ValuePad(h[11..13]);
    ValuePad(h[14..16]);
    ValuePad(h[17..19]);
    HeadOfFields(h, d);
  }

  /** Decoding a rendering recovers every wall-clock field: rendering loses nothing. */
  lemma IsoRoundTrip(d: NaiveDateTime)
    ensures ParseIsoUtc(IsoFormatUtc(d)) == Some(d)
  {
    DateAndTimeReadsBack(d);
    RenderingLayout(d);
  }

  /** Where the head and the fraction sit in a rendering. */
  lemma RenderingLayout(d: NaiveDateTime)
    ensures IsoFormatUtc(d)[..19] == DateAndTime(d)
    ensures d.microsecond != 0 ==>
      && IsoFormatUtc(d)[19] == '.'
      && IsoFormatUtc(d)[20..26] == Pad(d.microsecond, 6)
      && DigitsValue(IsoFormatUtc(d)[20..26]) == d.microsecond
  {
    var s := IsoFormatUtc(d);
    assert s[..19] == DateAndTime(d);
    if d.microsecond != 0 {
      assert s[19..26] == "." + Pad(d.microsecond, 6);
      assert s[20..26] == Pad(d.microsecond, 6);
      PadValue(d.microsecond, 6);
    }
  }

  /** Every string that decodes is the rendering of what it decodes to: the two
      functions are inverse bijections between `datetime`s and their renderings. */
  lemma IsoDecodeIsExact(s: string)
    requires ParseIsoUtc(s).Some?
    ensures IsoFormatUtc(ParseIsoUtc(s).value) == s
  {
    var d := ParseIsoUtc(s).value;
    HeadIsDateAndTime(s[..19], d);
    if |s| == 32 {
      ValuePad(s[20..26]);
      assert s == s[..19] + ("." + s[20..26]) + s[26..];
    } else {
      assert s == s[..19] + s[19..];
    }
  }
}
