/** `_parse_tag_date`: turns a tag's text into a UTC ISO 8601 date-time string, or
    `None` when the lenient parser rejects the text (src/media_meta/extractor.py:25-36). */
module DateNormalizer {
  import opened PyRuntime
  import opened IsoFormat

  /** `datetime.datetime(1, 1, 1)`: the value every component missing from the text is
      taken from. */
  const DefaultDate: NaiveDateTime := DateTime(1, 1, 1, 0, 0, 0, 0)

  /** The lenient parser `dateutil.parser.parse(text, ignoretz=True, default=d)`, which
      is foreign code: it receives the text and the default and, since any time zone in
      the text is ignored, either returns a naive `datetime` or raises. */
  type LenientParser = (string, NaiveDateTime) -> Outcome<NaiveDateTime>

  /** The exceptions `_parse_tag_date` turns into `None`. */
  predicate IsParseFailure(e: Exception) {
    IsInstance(e, ValueError) || IsInstance(e, TypeError)
  }

  /** `_parse_tag_date(text)`: parse with the 1-1-1 default, assign (not convert to) UTC
      and render with `isoformat()`. */
  function ParseTagDate(parse: LenientParser, text: string): (r: Outcome<Option<string>>)
    // a ValueError or TypeError becomes None, and only those do
    ensures r == Returned(None) <==> parse(text, DefaultDate).Raised? && IsParseFailure(parse(text, DefaultDate).exc)
    // any other exception escapes unchanged
    ensures r.Raised? <==> parse(text, DefaultDate).Raised? && !IsParseFailure(parse(text, DefaultDate).exc)
    ensures r.Raised? ==> r.exc == parse(text, DefaultDate).exc
    // a success comes from a successful parse and carries the `+00:00` offset
    ensures r.Returned? && r.value.Some? ==>
      && parse(text, DefaultDate).Returned?
      && |r.value.value| >= 25
      && r.value.value[|r.value.value| - 6..] == UtcSuffix
  {
    match parse(text, DefaultDate)
    case Returned(dt) => Returned(Some(IsoFormatUtc(dt)))
    case Raised(e) => if IsParseFailure(e) then Returned(None) else Raised(e)
  }

  /** UTC is assigned, not converted to: the normalised string shows exactly the
      wall-clock fields the parser produced. */
  lemma NormalisedKeepsWallClock(parse: LenientParser, text: string)
    requires ParseTagDate(parse, text).Returned? && ParseTagDate(parse, text).value.Some?
    ensures ParseIsoUtc(ParseTagDate(parse, text).value.value) == Some(parse(text, DefaultDate).value)
  {
    IsoRoundTrip(parse(text, DefaultDate).value);
  }

  /** Two texts the parser reads as the same `datetime` normalise to the same string, and
      texts it reads differently normalise to different strings. */
  lemma SameInstantSameString(parse: LenientParser, a: string, b: string)
    requires parse(a, DefaultDate).Returned? && parse(b, DefaultDate).Returned?
    ensures ParseTagDate(parse, a) == ParseTagDate(parse, b) <==> parse(a, DefaultDate) == parse(b, DefaultDate)
  {
    var ra, rb := ParseTagDate(parse, a), ParseTagDate(parse, b);
    NormalisedKeepsWallClock(parse, a);
    NormalisedKeepsWallClock(parse, b);
    if ra == rb {
      assert ParseIsoUtc(ra.value.value) == ParseIsoUtc(rb.value.value);
    }
  }
}

/** A small concrete parser for three ISO 8601 shapes only: `YYYY`, `YYYY-MM-DD` and
    `YYYY-MM-DDTHH:MM:SS`. It is a stand-in used to check the normaliser on concrete
    text, not a model of the lenient parser: every other text is rejected with a
    `ValueError`, and a four-digit text is always read as a year, which the lenient
    parser does only for values from 100 on. Components the text does not give come
    from the default, and a day taken from the default is clamped to the month's
    length. */
module IsoSubset {
  import opened PyRuntime
  import opened IsoFormat
  import opened DateNormalizer

  /** True when `s` has the shape `DDDD-DD-DD`. */
  predicate IsDateShape(s: string) {
    |s| == 10 && s[4] == '-' && s[7] == '-'
    && AllDigits(s[0..4]) && AllDigits(s[5..7]) && AllDigits(s[8..10])
  }

  function Min(a: int, b: int): int {
    if a <= b then a else b
  }

  /** The `datetime` constructor's range check. */
  function Build(d: DateTime, text: string): (r: Outcome<NaiveDateTime>)
    ensures r.Returned? <==> Valid(d)
    ensures r.Returned? ==> r.value == d
    ensures r.Raised? ==> IsInstance(r.exc, ValueError)
  {
    if Valid(d) then Returned(d)
    else Raised(Exception({ValueError}, "date out of range: " + text))
  }

  function ParseIsoSubset(text: string, default: NaiveDateTime): (r: Outcome<NaiveDateTime>)
    ensures r.Raised? ==> IsInstance(r.exc, ValueError)
  {
    if |text| == 4 && AllDigits(text) then
      var y := DigitsValue(text);
      Build(DateTime(y, default.month, Min(default.day, DaysInMonth(y, default.month)),
                     default.hour, default.minute, default.second, default.microsecond), text)
    else if IsDateShape(text) then
      Build(DateTime(DigitsValue(text[0..4]), DigitsValue(text[5..7]), DigitsValue(text[8..10]),
                     default.hour, default.minute, default.second, default.microsecond), text)
    else if IsDateAndTime(text) then
      Build(HeadFields(text, default.microsecond), text)
    else
      Raised(Exception({ValueError}, "Unknown string format: " + text))
  }

  /** The two-digit paddings of the default's month, day and time fields. */
  lemma PadZeroOne()
    ensures Pad(0, 2) == "00" && Pad(1, 2) == "01"
  {
    assert Pad(0, 1) == "0" && Pad(1, 1) == "1";
  }

  /** What the normaliser makes of a text this parser accepts. */
  lemma NormalisesTo(text: string, d: NaiveDateTime)
    requires ParseIsoSubset(text, DefaultDate) == Returned(d)
    ensures ParseTagDate(ParseIsoSubset, text) == Returned(Some(IsoFormatUtc(d)))
  {
  }

  lemma YearOnlyParses(y: int)
    requires 100 <= y <= 9999
    ensures ParseIsoSubset(Pad(y, 4), DefaultDate) == Returned(DateTime(y, 1, 1, 0, 0, 0, 0))
  {
    PadValue(y, 4);
  }

  lemma NewYearRenders(y: int)
    requires 100 <= y <= 9999
    ensures IsoFormatUtc(DateTime(y, 1, 1, 0, 0, 0, 0)) == Pad(y, 4) + "-01-01T00:00:00+00:00"
  {
    PadZeroOne();
    assert DateAndTime(DateTime(y, 1, 1, 0, 0, 0, 0)) == Pad(y, 4) + "-01-01T00:00:00";
  }

  /** A four-digit year from 100 on, alone, becomes midnight on the first of January of
      that year. */
  lemma YearOnly(y: int)
    requires 100 <= y <= 9999
    ensures ParseTagDate(ParseIsoSubset, Pad(y, 4)) == Returned(Some(Pad(y, 4) + "-01-01T00:00:00+00:00"))
  {
    YearOnlyParses(y);
    NewYearRenders(y);
    NormalisesTo(Pad(y, 4), DateTime(y, 1, 1, 0, 0, 0, 0));
  }

  /** A four-digit year text from 100 on becomes that text followed by
      `-01-01T00:00:00+00:00`. */
  lemma YearText(text: string)
    requires |text| == 4 && AllDigits(text) && DigitsValue(text) >= 100
    ensures ParseTagDate(ParseIsoSubset, text) == Returned(Some(text + "-01-01T00:00:00+00:00"))
  {
    ValuePad(text);
    YearOnly(DigitsValue(text));
  }

  /** The fields a `YYYY-MM-DD` text shows, at midnight. */
  function DateFields(text: string): DateTime
    requires IsDateShape(text)
  {
    DateTime(DigitsValue(text[0..4]), DigitsValue(text[5..7]), DigitsValue(text[8..10]), 0, 0, 0, 0)
  }

  /** The rendering of midnight on the date a `YYYY-MM-DD` text shows starts with the text. */
  lemma MidnightHead(text: string)
    requires IsDateShape(text) && Valid(DateFields(text))
    ensures DateAndTime(DateFields(text)) == text + "T00:00:00"
  {
    var d: NaiveDateTime := DateFields(text);
    var h := text + "T00:00:00";
    assert h[0..4] == text[0..4] && h[5..7] == text[5..7] && h[8..10] == text[8..10];
    assert h[11..13] == "00" && h[14..16] == "00" && h[17..19] == "00";
    DigitsValueTwo("00");
    assert IsDateAndTime(h);
    assert HeadFields(h, 0) == d;
    HeadIsDateAndTime(h, d);
  }

  /** A valid `YYYY-MM-DD` text becomes that text followed by `T00:00:00+00:00`. */
  lemma DateText(text: string)
    requires IsDateShape(text) && Valid(DateFields(text))
    ensures ParseTagDate(ParseIsoSubset, text) == Returned(Some(text + "T00:00:00+00:00"))
  {
    var d: NaiveDateTime := DateFields(text);
    assert ParseIsoSubset(text, DefaultDate) == Returned(d);
    MidnightHead(text);
    NormalisesTo(text, d);
    assert IsoFormatUtc(d) == (text + "T00:00:00") + "+00:00";
    assert (text + "T00:00:00") + "+00:00" == text + "T00:00:00+00:00";
  }

  /** A valid `YYYY-MM-DDTHH:MM:SS` text becomes that text followed by `+00:00`. */
  lemma DateAndTimeText(text: string)
    requires IsDateAndTime(text) && Valid(HeadFields(text, 0))
    ensures ParseTagDate(ParseIsoSubset, text) == Returned(Some(text + "+00:00"))
  {
    var d: NaiveDateTime := HeadFields(text, 0);
    assert !IsDateShape(text);
    assert ParseIsoSubset(text, DefaultDate) == Returned(d);
    HeadIsDateAndTime(text, d);
    NormalisesTo(text, d);
    assert IsoFormatUtc(d) == text + "" + UtcSuffix;
    assert text + "" + UtcSuffix == text + "+00:00";
  }

  // The cases of tests/test_extractor.py:31-33 and 43.

  lemma TestDateAndTimeDate(text: string)
    requires text == "2024-09-04T10:30:00"
    ensures IsDateAndTime(text)
    ensures DigitsValue(text[0..4]) == 2024 && DigitsValue(text[5..7]) == 9 && DigitsValue(text[8..10]) == 4
  {
    DigitsValueFour(text[0..4]);
    DigitsValueTwo(text[5..7]);
    DigitsValueTwo(text[8..10]);
  }

  lemma TestDateAndTimeTime(text: string)
    requires text == "2024-09-04T10:30:00"
    ensures IsDateAndTime(text)
    ensures DigitsValue(text[11..13]) == 10 && DigitsValue(text[14..16]) == 30 && DigitsValue(text[17..19]) == 0
  {
    DigitsValueTwo(text[11..13]);
    DigitsValueTwo(text[14..16]);
    DigitsValueTwo(text[17..19]);
  }

  lemma TestDateAndTime(text: string)
    requires text == "2024-09-04T10:30:00"
    ensures ParseTagDate(ParseIsoSubset, text) == Returned(Some("2024-09-04T10:30:00+00:00"))
  {
    assert text + "+00:00" == "2024-09-04T10:30:00+00:00";
    TestDateAndTimeDate(text);
    TestDateAndTimeTime(text);
    assert HeadFields(text, 0) == DateTime(2024, 9, 4, 10, 30, 0, 0);
    DateAndTimeText(text);
  }

  lemma TestDateOnly(text: string)
    requires text == "2023-01-15"
    ensures ParseTagDate(ParseIsoSubset, text) == Returned(Some("2023-01-15T00:00:00+00:00"))
  {
    assert text + "T00:00:00+00:00" == "2023-01-15T00:00:00+00:00";
    DigitsValueFour(text[0..4]);
    DigitsValueTwo(text[5..7]);
    DigitsValueTwo(text[8..10]);
    assert DateFields(text) == DateTime(2023, 1, 15, 0, 0, 0, 0);
    DateText(text);
  }

  lemma TestYearOnly(text: string)
    requires text == "2022"
    ensures ParseTagDate(ParseIsoSubset, text) == Returned(Some("2022-01-01T00:00:00+00:00"))
  {
    assert text + "-01-01T00:00:00+00:00" == "2022-01-01T00:00:00+00:00";
    DigitsValueFour(text);
    YearText(text);
  }

  lemma TestNotADate(text: string)
    requires text == "this is not a date string"
    ensures ParseTagDate(ParseIsoSubset, text) == Returned(None)
  {
    assert |text| == 25;
  }
}
