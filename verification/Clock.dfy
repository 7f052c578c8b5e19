/** The one timestamp format (identity/clock.py:45-135): `YYYY-MM-DDTHH:MM:SSZ`, the UTC profile of section 5.6
    of RFC 3339, and why comparing two stamps as strings compares the instants. */
module Clock {
  import opened Results
  import opened Calendar

  // --- Fixed-width numbers ---

  function Pow10(width: nat): nat {
    if width == 0 then 1 else 10 * Pow10(width - 1)
  }

  function DigitChar(d: nat): char
    requires d < 10
  {
    '0' + d as char
  }

  predicate IsDigit(c: char) {
    '0' <= c <= '9'
  }

  predicate AllDigits(text: string) {
    forall i :: 0 <= i < |text| ==> IsDigit(text[i])
  }

  /** `n` in decimal, zero-padded to `width`. */
  function Digits(n: nat, width: nat): (text: string)
    ensures |text| == width && AllDigits(text)
  {
    if width == 0 then "" else Digits(n / 10, width - 1) + [DigitChar(n % 10)]
  }

  function Number(text: string): nat
    requires AllDigits(text)
  {
    if text == "" then 0
    else Number(text[..|text| - 1]) * 10 + (text[|text| - 1] - '0') as nat
  }

  lemma {:induction false} NumberOfDigits(n: nat, width: nat)
    requires n < Pow10(width)
    ensures Number(Digits(n, width)) == n
    decreases width
  {
    if width > 0 {
      NumberOfDigits(n / 10, width - 1);
      assert Digits(n, width)[..width - 1] == Digits(n / 10, width - 1);
    }
  }

  lemma {:induction false} DigitsOfNumber(text: string)
    requires AllDigits(text)
    ensures Number(text) < Pow10(|text|) && Digits(Number(text), |text|) == text
    decreases |text|
  {
    if text != "" {
      var front, last := text[..|text| - 1], text[|text| - 1];
      DigitsOfNumber(front);
      assert text == front + [last];
      assert Number(text) / 10 == Number(front);
    }
  }

  // --- String order ---

  /** `a < b` on strings, the order both the language and the database use: first difference decides, and a
      proper prefix comes first. */
  predicate Less(a: string, b: string) {
    if b == "" then false
    else if a == "" then true
    else if a[0] != b[0] then a[0] < b[0]
    else Less(a[1..], b[1..])
  }

  lemma {:induction false} LessOfConcat(a: string, b: string, x: string, y: string)
    requires |a| == |b|
    ensures Less(a + x, b + y) <==> Less(a, b) || (a == b && Less(x, y))
    decreases |a|
  {
    if a == "" {
      assert a + x == x && b + y == y;
    } else {
      LessOfConcat(a[1..], b[1..], x, y);
      assert (a + x)[1..] == a[1..] + x && (b + y)[1..] == b[1..] + y;
      assert a == b <==> a[0] == b[0] && a[1..] == b[1..];
    }
  }

  lemma {:induction false} PaddedOrder(n: nat, m: nat, width: nat)
    requires n < Pow10(width) && m < Pow10(width)
    ensures Less(Digits(n, width), Digits(m, width)) <==> n < m
    decreases width
  {
    if width > 0 {
      PaddedOrder(n / 10, m / 10, width - 1);
      LessOfConcat(Digits(n / 10, width - 1), Digits(m / 10, width - 1), [DigitChar(n % 10)], [DigitChar(m % 10)]);
      NumberOfDigits(n / 10, width - 1);
      NumberOfDigits(m / 10, width - 1);
    }
  }

  /** One padded field and its separator compare like the number, then like what follows. */
  lemma FieldOrder(n: nat, m: nat, width: nat, separator: char, x: string, y: string)
    requires n < Pow10(width) && m < Pow10(width)
    ensures Less(Field(n, width, separator) + x, Field(m, width, separator) + y)
            <==> n < m || (n == m && Less(x, y))
  {
    PaddedOrder(n, m, width);
    NumberOfDigits(n, width);
    NumberOfDigits(m, width);
    assert Field(n, width, separator) + x == Digits(n, width) + ([separator] + x);
    assert Field(m, width, separator) + y == Digits(m, width) + ([separator] + y);
    LessOfConcat(Digits(n, width), Digits(m, width), [separator] + x, [separator] + y);
    LessOfConcat([separator], [separator], x, y);
  }

  // --- Stamps ---

  const TIMESTAMP_LENGTH := 20

  function Field(n: nat, width: nat, separator: char): (text: string)
    ensures |text| == width + 1
  {
    Digits(n, width) + [separator]
  }

  function TimeOfDay(date: DateTime): (text: string)
    ensures |text| == 9
  {
    Field(date.hour, 2, ':') + (Field(date.minute, 2, ':') + Field(date.second, 2, 'Z'))
  }

  /** `format_utc_timestamp` of a UTC datetime. */
  function Format(date: DateTime): (text: string)
    ensures |text| == TIMESTAMP_LENGTH
  {
    Field(date.year, 4, '-') + (Field(date.month, 2, '-') + (Field(date.day, 2, 'T') + TimeOfDay(date)))
  }

  /** One field of the pattern: `width` digits and a separator, and what follows them. */
  function Taken(text: string, width: nat, separator: char): Option<(nat, string)> {
    if width < |text| && AllDigits(text[..width]) && text[width] == separator
    then Some((Number(text[..width]), text[width + 1..])) else None
  }

  function TakenTime(text: string): Option<(nat, nat, nat)> {
    var hour := Taken(text, 2, ':');
    if hour.None? then None else
      var minute := Taken(hour.value.1, 2, ':');
      if minute.None? then None else
        var second := Taken(minute.value.1, 2, 'Z');
        if second.None? || second.value.1 != "" then None
        else Some((hour.value.0, minute.value.0, second.value.0))
  }

  /** The six numbers of a text of the form YYYY-MM-DDTHH:MM:SSZ. */
  function Fields(text: string): Option<DateTime> {
    var year := Taken(text, 4, '-');
    if year.None? then None else
      var month := Taken(year.value.1, 2, '-');
      if month.None? then None else
        var day := Taken(month.value.1, 2, 'T');
        if day.None? then None else
          var time := TakenTime(day.value.1);
          if time.None? then None
          else Some(DateTime(year.value.0, month.value.0, day.value.0, time.value.0, time.value.1, time.value.2))
  }

  /** `TIMESTAMP_PATTERN.match`: the end anchor also matches before a newline that ends the text. */
  predicate PatternMatches(text: string) {
    Fields(text).Some? ||
    (text != "" && text[|text| - 1] == '\n' && Fields(text[..|text| - 1]).Some?)
  }

  /** What `assert_canonical_timestamp` lets through: the length test comes first, then the pattern. */
  predicate Canonical(text: string) {
    |text| == TIMESTAMP_LENGTH && PatternMatches(text)
  }

  /** `parse_utc_timestamp` of a canonical stamp: the date may still not exist. */
  function Parse(text: string): Option<DateTime> {
    var date := Fields(text);
    if date.Some? && date.value.Valid() then date else None
  }

  lemma TakenOfField(n: nat, width: nat, separator: char, rest: string)
    requires n < Pow10(width)
    ensures Taken(Field(n, width, separator) + rest, width, separator) == Some((n, rest))
  {
    var text := Field(n, width, separator) + rest;
    assert text[..width] == Digits(n, width) && text[width + 1..] == rest;
    NumberOfDigits(n, width);
  }

  lemma FieldOfTaken(text: string, width: nat, separator: char)
    requires Taken(text, width, separator).Some?
    ensures Taken(text, width, separator).value.0 < Pow10(width)
    ensures text == Field(Taken(text, width, separator).value.0, width, separator)
                    + Taken(text, width, separator).value.1
  {
    DigitsOfNumber(text[..width]);
    assert text == text[..width] + [text[width]] + text[width + 1..];
  }

  /** Each number fits the width of its field. */
  predicate Fits(date: DateTime) {
    date.year < Pow10(4) && date.month < Pow10(2) && date.day < Pow10(2) &&
    date.hour < Pow10(2) && date.minute < Pow10(2) && date.second < Pow10(2)
  }

  lemma ValidFits(date: DateTime)
    requires date.Valid()
    ensures Fits(date)
  {
    assert Pow10(2) == 100 && Pow10(4) == 10000;
  }

  lemma TakenTimeOfDay(date: DateTime)
    requires Fits(date)
    ensures TakenTime(TimeOfDay(date)) == Some((date.hour, date.minute, date.second))
  {
    var last := Field(date.second, 2, 'Z');
    TakenOfField(date.hour, 2, ':', Field(date.minute, 2, ':') + last);
    TakenOfField(date.minute, 2, ':', last);
    TakenOfField(date.second, 2, 'Z', "");
    assert last + "" == last;
  }

  /** Six numbers that fit their widths, even ones that are no date, are what the pattern finds again. */
  lemma FieldsOfFormat(date: DateTime)
    requires Fits(date)
    ensures Fields(Format(date)) == Some(date)
  {
    var time := TimeOfDay(date);
    TakenOfField(date.year, 4, '-', Field(date.month, 2, '-') + (Field(date.day, 2, 'T') + time));
    TakenOfField(date.month, 2, '-', Field(date.day, 2, 'T') + time);
    TakenOfField(date.day, 2, 'T', time);
    TakenTimeOfDay(date);
  }

  lemma TimeOfTaken(text: string, date: DateTime)
    requires TakenTime(text) == Some((date.hour, date.minute, date.second))
    ensures text == TimeOfDay(date)
  {
    var hour := Taken(text, 2, ':').value;
    var minute := Taken(hour.1, 2, ':').value;
    FieldOfTaken(text, 2, ':');
    FieldOfTaken(hour.1, 2, ':');
    FieldOfTaken(minute.1, 2, 'Z');
    assert Field(date.second, 2, 'Z') + "" == Field(date.second, 2, 'Z');
  }

  /** A text of the form is the one text with those numbers, and 20 characters long. */
  lemma FormatOfFields(text: string)
    requires Fields(text).Some?
    ensures Format(Fields(text).value) == text && |text| == TIMESTAMP_LENGTH
  {
    var date := Fields(text).value;
    var year := Taken(text, 4, '-').value;
    var month := Taken(year.1, 2, '-').value;
    var day := Taken(month.1, 2, 'T').value;
    FieldOfTaken(text, 4, '-');
    FieldOfTaken(year.1, 2, '-');
    FieldOfTaken(month.1, 2, 'T');
    TimeOfTaken(day.1, date);
  }

  /** The check lets through exactly the texts of the form: the length test is what rules out the newline. */
  lemma CanonicalIsTheForm(text: string)
    ensures Canonical(text) <==> Fields(text).Some?
    ensures Fields(text).Some? ==> PatternMatches(text + "\n") && !Canonical(text + "\n")
  {
    if Fields(text).Some? {
      FormatOfFields(text);
      assert (text + "\n")[..|text + "\n"| - 1] == text;
    } else if Canonical(text) {
      FormatOfFields(text[..|text| - 1]);
    }
  }

  /** The formatter's own check never fires. */
  lemma FormatIsCanonical(date: DateTime)
    requires date.Valid()
    ensures Canonical(Format(date))
  {
    ValidFits(date);
    FieldsOfFormat(date);
    CanonicalIsTheForm(Format(date));
  }

  /** Reading a stored stamp back gives the moment that was stored. */
  lemma ParseOfFormat(date: DateTime)
    requires date.Valid()
    ensures Parse(Format(date)) == Some(date)
  {
    ValidFits(date);
    FieldsOfFormat(date);
  }

  /** Each stamp that parses is canonical, and the only one for its moment: formatting gives it back. */
  lemma FormatOfParse(text: string)
    ensures Parse(text).Some? ==> Canonical(text) && Format(Parse(text).value) == text
  {
    if Parse(text).Some? {
      FormatOfFields(text);
      CanonicalIsTheForm(text);
    }
  }

  /** Section 5.1 of RFC 3339 as this format keeps it: string order is field order is time order. */
  lemma StringOrderIsTimeOrder(d: DateTime, e: DateTime)
    requires d.Valid() && e.Valid()
    ensures Less(Format(d), Format(e)) <==> Seconds(d) < Seconds(e)
  {
    ValidFits(d);
    ValidFits(e);
    FieldOrder(d.year, e.year, 4, '-',
      Field(d.month, 2, '-') + (Field(d.day, 2, 'T') + TimeOfDay(d)),
      Field(e.month, 2, '-') + (Field(e.day, 2, 'T') + TimeOfDay(e)));
    FieldOrder(d.month, e.month, 2, '-', Field(d.day, 2, 'T') + TimeOfDay(d), Field(e.day, 2, 'T') + TimeOfDay(e));
    FieldOrder(d.day, e.day, 2, 'T', TimeOfDay(d), TimeOfDay(e));
    FieldOrder(d.hour, e.hour, 2, ':',
      Field(d.minute, 2, ':') + Field(d.second, 2, 'Z'), Field(e.minute, 2, ':') + Field(e.second, 2, 'Z'));
    FieldOrder(d.minute, e.minute, 2, ':', Field(d.second, 2, 'Z'), Field(e.second, 2, 'Z'));
    FieldOrder(d.second, e.second, 2, 'Z', "", "");
    assert Field(d.second, 2, 'Z') + "" == Field(d.second, 2, 'Z');
    assert Field(e.second, 2, 'Z') + "" == Field(e.second, 2, 'Z');
    FieldOrderIsTimeOrder(d, e);
  }

  /** The stamp of an instant. */
  function Stamp(t: Instant): string {
    Format(At(t))
  }

  /** `parse_utc_timestamp` followed to the instant. */
  function InstantOf(text: string): (t: Option<Instant>) {
    match Parse(text)
    case None => None
    case Some(date) => InstantRoundTrip(date); Some(Seconds(date))
  }

  /** Stamps and instants are in bijection on the stamps that parse, and in the same order. */
  lemma StampsAreInstants(t: Instant, u: Instant)
    ensures InstantOf(Stamp(t)) == Some(t)
    ensures Less(Stamp(t), Stamp(u)) <==> t < u
    ensures Stamp(t) == Stamp(u) <==> t == u
  {
    ParseOfFormat(At(t));
    ParseOfFormat(At(u));
    StringOrderIsTimeOrder(At(t), At(u));
  }

  lemma StampOfInstant(text: string)
    ensures InstantOf(text).Some? ==> Stamp(InstantOf(text).value) == text
  {
    if InstantOf(text).Some? {
      FormatOfParse(text);
      InstantRoundTrip(Parse(text).value);
    }
  }

  /** For any two texts that parse, string order is time order, and only equal texts name one moment. */
  lemma ParsedTextsSortByTime(a: string, b: string)
    requires InstantOf(a).Some? && InstantOf(b).Some?
    ensures Less(a, b) <==> InstantOf(a).value < InstantOf(b).value
    ensures a == b <==> InstantOf(a) == InstantOf(b)
  {
    StampOfInstant(a);
    StampOfInstant(b);
    StampsAreInstants(InstantOf(a).value, InstantOf(b).value);
  }

  /** A text parses exactly when it is the stamp of some valid datetime. */
  lemma ParsesExactlyWhenFormatted(text: string)
    ensures Parse(text).Some? <==> exists date: DateTime :: date.Valid() && Format(date) == text
  {
    FormatOfParse(text);
    if date: DateTime :| date.Valid() && Format(date) == text {
      ParseOfFormat(date);
    }
  }
}
