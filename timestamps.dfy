/**
 * Timestamps as `update_readme.py` handles them: `_iso_to_human` turns an
 * ISO-8601 UTC stamp `YYYY-MM-DDTHH:MM:SSZ` into `DD/MM/YYYY HH:MM UTC`, and
 * `main` renders the clock as a compact version token `YYYYMMDDHHMMSS` and as
 * the same human form.
 */
module Timestamps {
  import opened Wrappers

  /** A calendar date and time of day, as Python's `datetime` holds it (UTC, whole seconds). */
  datatype DateTime = DateTime(year: int, month: int, day: int, hour: int, minute: int, second: int)

  predicate IsLeapYear(year: int) {
    year % 4 == 0 && (year % 100 != 0 || year % 400 == 0)
  }

  function DaysInMonth(year: int, month: int): (days: int)
    requires 1 <= month <= 12
    ensures 28 <= days <= 31
    ensures days == 29 <==> month == 2 && IsLeapYear(year)
  {
    if month == 2 then (if IsLeapYear(year) then 29 else 28)
    else if month == 4 || month == 6 || month == 9 || month == 11 then 30
    else 31
  }

  /** The ranges `datetime` enforces: years 1..9999, real calendar days, no leap second. */
  predicate ValidDateTime(d: DateTime) {
    && 1 <= d.year <= 9999
    && 1 <= d.month <= 12
    && 1 <= d.day <= DaysInMonth(d.year, d.month)
    && 0 <= d.hour <= 23
    && 0 <= d.minute <= 59
    && 0 <= d.second <= 59
  }

  predicate IsDigit(c: char) {
    '0' <= c <= '9'
  }

  predicate AllDigits(s: string) {
    forall i :: 0 <= i < |s| ==> IsDigit(s[i])
  }

  function Pow10(k: nat): (p: nat)
    ensures p >= 1
  {
    if k == 0 then 1 else 10 * Pow10(k - 1)
  }

  /** The decimal value of a string of ASCII digits. */
  function NumberValue(s: string): nat
    requires AllDigits(s)
    decreases |s|
  {
    if s == [] then 0 else NumberValue(s[..|s| - 1]) * 10 + (s[|s| - 1] as int - '0' as int)
  }

  /** The last `width` decimal digits of `n`, zero-padded (strftime's `%02d`-style fields). */
  function Digits(n: nat, width: nat): (s: string)
    ensures |s| == width && AllDigits(s)
  {
    if width == 0 then "" else Digits(n / 10, width - 1) + [('0' as int + n % 10) as char]
  }

  /** Padding a number that fits in `width` digits and reading it back gives the number. */
  lemma {:induction false} DigitsRoundTrip(n: nat, width: nat)
    requires n < Pow10(width)
    ensures NumberValue(Digits(n, width)) == n
  {
    if width > 0 {
      assert n / 10 < Pow10(width - 1);
      DigitsRoundTrip(n / 10, width - 1);
      var s := Digits(n, width);
      assert s[..|s| - 1] == Digits(n / 10, width - 1);
    }
  }

  /** Reading a digit string and padding it back to its own width gives the string. */
  lemma {:induction false} NumberRoundTrip(s: string)
    requires AllDigits(s)
    ensures Digits(NumberValue(s), |s|) == s
  {
    if s != [] {
      var init := s[..|s| - 1];
      assert AllDigits(init);
      NumberRoundTrip(init);
      var n := NumberValue(s);
      assert n / 10 == NumberValue(init);
      assert n % 10 == s[|s| - 1] as int - '0' as int;
      assert s == init + [s[|s| - 1]];
    }
  }

  /** The one shape of stamp the model parses: `YYYY-MM-DDTHH:MM:SSZ`. */
  predicate CanonicalShape(ts: string) {
    && |ts| == 20
    && AllDigits(ts[0..4]) && ts[4] == '-'
    && AllDigits(ts[5..7]) && ts[7] == '-'
    && AllDigits(ts[8..10]) && ts[10] == 'T'
    && AllDigits(ts[11..13]) && ts[13] == ':'
    && AllDigits(ts[14..16]) && ts[16] == ':'
    && AllDigits(ts[17..19]) && ts[19] == 'Z'
  }

  /** `datetime.fromisoformat(ts.replace("Z", "+00:00"))` on the canonical shape; `None` stands for `ValueError`. */
  function ParseIso(ts: string): Option<DateTime> {
    if !CanonicalShape(ts) then None
    else
      var d := DateTime(NumberValue(ts[0..4]), NumberValue(ts[5..7]), NumberValue(ts[8..10]),
                        NumberValue(ts[11..13]), NumberValue(ts[14..16]), NumberValue(ts[17..19]));
      if ValidDateTime(d) then Some(d) else None
  }

  /** The canonical ISO-8601 UTC form of a date and time. */
  function FormatIso(d: DateTime): string
    requires ValidDateTime(d)
  {
    Digits(d.year, 4) + "-" + Digits(d.month, 2) + "-" + Digits(d.day, 2) + "T"
    + Digits(d.hour, 2) + ":" + Digits(d.minute, 2) + ":" + Digits(d.second, 2) + "Z"
  }

  /** `strftime("%d/%m/%Y %H:%M UTC")`. */
  function FormatHuman(d: DateTime): string
    requires ValidDateTime(d)
  {
    Digits(d.day, 2) + "/" + Digits(d.month, 2) + "/" + Digits(d.year, 4) + " "
    + Digits(d.hour, 2) + ":" + Digits(d.minute, 2) + " UTC"
  }

  /** `strftime("%Y%m%d%H%M%S")`: the README's version token. */
  function FormatVersion(d: DateTime): (token: string)
    requires ValidDateTime(d)
    ensures |token| == 14 && AllDigits(token)
  {
    Digits(d.year, 4) + Digits(d.month, 2) + Digits(d.day, 2)
    + Digits(d.hour, 2) + Digits(d.minute, 2) + Digits(d.second, 2)
  }

  /**
   * `_iso_to_human`: a parsable stamp is rearranged into day/month/year and
   * hour:minute with the seconds dropped; anything else comes back unchanged.
   */
  function IsoToHuman(ts: string): (r: string)
    ensures ParseIso(ts).None? ==> r == ts
    ensures ParseIso(ts).Some? ==>
      r == ts[8..10] + "/" + ts[5..7] + "/" + ts[0..4] + " " + ts[11..13] + ":" + ts[14..16] + " UTC"
  {
    match ParseIso(ts)
    case None => ts
    case Some(d) =>
      NumberRoundTrip(ts[0..4]);
      NumberRoundTrip(ts[5..7]);
      NumberRoundTrip(ts[8..10]);
      NumberRoundTrip(ts[11..13]);
      NumberRoundTrip(ts[14..16]);
      FormatHuman(d)
  }

  /** Where the fields of a formatted stamp sit. */
  lemma FormatIsoFields(d: DateTime)
    requires ValidDateTime(d)
    ensures var ts := FormatIso(d);
      && |ts| == 20
      && ts[0..4] == Digits(d.year, 4) && ts[4] == '-'
      && ts[5..7] == Digits(d.month, 2) && ts[7] == '-'
      && ts[8..10] == Digits(d.day, 2) && ts[10] == 'T'
      && ts[11..13] == Digits(d.hour, 2) && ts[13] == ':'
      && ts[14..16] == Digits(d.minute, 2) && ts[16] == ':'
      && ts[17..19] == Digits(d.second, 2) && ts[19] == 'Z'
  {
    var ts := FormatIso(d);
    assert ts[0..4] == Digits(d.year, 4);
    assert ts[5..7] == Digits(d.month, 2);
    assert ts[8..10] == Digits(d.day, 2);
    assert ts[11..13] == Digits(d.hour, 2);
    assert ts[14..16] == Digits(d.minute, 2);
    assert ts[17..19] == Digits(d.second, 2);
  }

  /** Every valid date and time survives formatting and parsing. */
  lemma ParseFormatIso(d: DateTime)
    requires ValidDateTime(d)
    ensures ParseIso(FormatIso(d)) == Some(d)
  {
    FormatIsoFields(d);
    assert Pow10(2) == 100 && Pow10(4) == 10000;
    DigitsRoundTrip(d.year, 4);
    DigitsRoundTrip(d.month, 2);
    DigitsRoundTrip(d.day, 2);
    DigitsRoundTrip(d.hour, 2);
    DigitsRoundTrip(d.minute, 2);
    DigitsRoundTrip(d.second, 2);
  }

  /** A stamp of the canonical shape is its fields joined by the separators. */
  lemma CanonicalPieces(ts: string)
    requires CanonicalShape(ts)
    ensures ts == ts[0..4] + "-" + ts[5..7] + "-" + ts[8..10] + "T" + ts[11..13] + ":" + ts[14..16] + ":" + ts[17..19] + "Z"
  {
  }

  /** A stamp that parses is exactly the canonical form of what it parses to. */
  lemma FormatParseIso(ts: string)
    requires ParseIso(ts).Some?
    ensures FormatIso(ParseIso(ts).value) == ts
  {
    NumberRoundTrip(ts[0..4]);
    NumberRoundTrip(ts[5..7]);
    NumberRoundTrip(ts[8..10]);
    NumberRoundTrip(ts[11..13]);
    NumberRoundTrip(ts[14..16]);
    NumberRoundTrip(ts[17..19]);
    CanonicalPieces(ts);
  }

  /** On a canonical stamp `_iso_to_human` gives what `main` prints for the same instant. */
  lemma IsoToHumanOfFormat(d: DateTime)
    requires ValidDateTime(d)
    ensures IsoToHuman(FormatIso(d)) == FormatHuman(d)
  {
    ParseFormatIso(d);
  }

  /** A concrete stamp parses to its fields. */
  lemma ParseIsoExample()
    ensures ParseIso("2024-01-02T03:04:05Z") == Some(DateTime(2024, 1, 2, 3, 4, 5))
  {
    var d := DateTime(2024, 1, 2, 3, 4, 5);
    ExampleIso();
    ParseFormatIso(d);
  }

  lemma IsoToHumanExample()
    ensures IsoToHuman("2024-01-02T03:04:05Z") == "02/01/2024 03:04 UTC"
  {
    var d := DateTime(2024, 1, 2, 3, 4, 5);
    ExampleIso();
    IsoToHumanOfFormat(d);
    ExampleHuman();
  }

  lemma ExampleIso()
    ensures FormatIso(DateTime(2024, 1, 2, 3, 4, 5)) == "2024-01-02T03:04:05Z"
  {
    ExampleDigits();
    ExampleIsoPieces();
  }

  lemma ExampleIsoPieces()
    ensures "2024" + "-" + "01" + "-" + "02" + "T" + "03" + ":" + "04" + ":" + "05" + "Z" == "2024-01-02T03:04:05Z"
  {
  }

  lemma ExampleHuman()
    ensures FormatHuman(DateTime(2024, 1, 2, 3, 4, 5)) == "02/01/2024 03:04 UTC"
  {
    ExampleDigits();
    ExampleHumanPieces();
  }

  lemma ExampleHumanPieces()
    ensures "02" + "/" + "01" + "/" + "2024" + " " + "03" + ":" + "04" + " UTC" == "02/01/2024 03:04 UTC"
  {
  }

  lemma ExampleDigits()
    ensures Digits(2024, 4) == "2024"
    ensures Digits(1, 2) == "01" && Digits(2, 2) == "02" && Digits(3, 2) == "03"
    ensures Digits(4, 2) == "04" && Digits(5, 2) == "05"
  {
  }

  /** 2023 is not a leap year, so the 29th of February does not parse and is returned as given. */
  lemma IsoToHumanRejectsNonLeapDay()
    ensures IsoToHuman("2023-02-29T10:00:00Z") == "2023-02-29T10:00:00Z"
  {
    var ts := "2023-02-29T10:00:00Z";
    assert ts[0..4] == "2023" && ts[5..7] == "02" && ts[8..10] == "29";
    assert NumberValue("2023") == 2023 by {
      assert "2023"[..3] == "202" && "202"[..2] == "20" && "20"[..1] == "2";
    }
    assert NumberValue("02") == 2 by {
      assert "02"[..1] == "0";
    }
    assert NumberValue("29") == 29 by {
      assert "29"[..1] == "2";
    }
    assert ParseIso(ts).None?;
  }
}
