/** The date re-formatter of the basic NID verification route
    (`/porichoy-basic`): a `D Mon YYYY` date of birth, as the passport route
    renders it, is rewritten as `YYYY-MM-DD` before it is sent on. */
module Porichoy {
  import opened Text
  import opened Dates
  import opened Passport

  /** The month table of the re-formatter: exact-case English abbreviations
      to two-digit month numbers. */
  const Months: map<string, string> :=
    map["Jan" := "01", "Feb" := "02", "Mar" := "03", "Apr" := "04",
        "May" := "05", "Jun" := "06", "Jul" := "07", "Aug" := "08",
        "Sep" := "09", "Oct" := "10", "Nov" := "11", "Dec" := "12"]

  /** `convertDateFormat`: the first three space-separated fields are read as
      day, month abbreviation and year, and any further fields are ignored.
      The year is copied as it stands and the day is zero-padded to two
      characters. Where the JavaScript would splice the text `undefined` into
      its result (fewer than three fields, or a month that is not in the
      table) the result is None. */
  function ConvertDateFormat(s: string): (r: Option<string>)
    ensures r.Some? <==> |SplitOn(s, ' ')| >= 3 && SplitOn(s, ' ')[1] in MonthAbbrevs
  {
    MonthKeys();
    var parts := SplitOn(s, ' ');
    if |parts| < 3 || parts[1] !in Months then None
    else Some(parts[2] + "-" + Months[parts[1]] + "-" + PadStart(parts[0], 2, '0'))
  }

  /** The table's keys are the twelve abbreviations, and each maps to the
      two-digit number of its month. */
  lemma MonthKeys()
    ensures forall a :: a in Months <==> a in MonthAbbrevs
    ensures forall i :: 0 <= i < 12 ==> MonthAbbrevs[i] in Months
  {
  }

  lemma MonthCode(i: nat)
    requires i < 12
    ensures MonthAbbrevs[i] in Months
    ensures var c := Months[MonthAbbrevs[i]];
      |c| == 2 && AllDigits(c) && DigitsToNat(c) == i + 1
  {
    MonthTable(i);
    var c := MonthNumbers[i];
    assert |c| == 2 && IsDigit(c[0]) && IsDigit(c[1]) && 10 * DigitValue(c[0]) + DigitValue(c[1]) == i + 1 by {
      assert i == 0 || i == 1 || i == 2 || i == 3 || i == 4 || i == 5
          || i == 6 || i == 7 || i == 8 || i == 9 || i == 10 || i == 11;
    }
    TwoDigitsValue(c);
  }

  /** The table's values in month order. */
  const MonthNumbers := ["01", "02", "03", "04", "05", "06", "07", "08", "09", "10", "11", "12"]

  lemma MonthTable(i: nat)
    requires i < 12
    ensures MonthAbbrevs[i] in Months && Months[MonthAbbrevs[i]] == MonthNumbers[i]
  {
    assert i == 0 || i == 1 || i == 2 || i == 3 || i == 4 || i == 5
        || i == 6 || i == 7 || i == 8 || i == 9 || i == 10 || i == 11;
  }

  /** The re-formatter undoes the passport date rendering: a decoded `YYMMDD`
      comes back as the pivoted century, the two year digits, and the month
      and day digits exactly as they stood in the machine-readable zone. */
  lemma ConvertFormattedDate(yymmdd: string)
    requires IsMrzDate(yymmdd)
    ensures ConvertDateFormat(FormatDate(yymmdd).text)
      == Some((if DigitsToNat(yymmdd[..2]) >= 50 then "19" else "20") + yymmdd[..2]
              + "-" + yymmdd[2..4] + "-" + yymmdd[4..])
  {
    assert AllDigits(yymmdd[..2]) && AllDigits(yymmdd[2..4]) && AllDigits(yymmdd[4..]);
    var yy, mm, dd := DigitsToNat(yymmdd[..2]), DigitsToNat(yymmdd[2..4]), DigitsToNat(yymmdd[4..]);
    DecodedFields(yymmdd);
    CenturyDigits(yymmdd[..2]);
    MonthCode(mm - 1);
    DigitsInjective(Months[MonthAbbrevs[mm - 1]], yymmdd[2..4]);
    TwoDigitsValue(yymmdd[4..]);
    var day := PadStart(NatToDecimal(dd), 2, '0');
    PaddedRoundTrip(dd, 2);
    assert |day| == 2;
    DigitsInjective(day, yymmdd[4..]);
  }

  /** Where the strict `D MMM YYYY` parse accepts a text whose month is
      written exactly as in the table, the re-formatter produces the same
      text as the canonical rendering of the parsed date. */
  lemma ConvertAgreesWithParse(s: string)
    requires ParseNamed(s, false, MonthAbbrevs, false).Some?
    requires SplitOn(s, ' ')[1] in MonthAbbrevs
    ensures ConvertDateFormat(s) == Some(FormatIso(ParseNamed(s, false, MonthAbbrevs, false).value))
  {
    var parts := SplitOn(s, ' ');
    var d := ParseNamed(s, false, MonthAbbrevs, false).value;
    NamedFields(s, false, MonthAbbrevs);
    var i :| 0 <= i < 12 && MonthAbbrevs[i] == parts[1];
    MonthIndexUnique(i, d.month - 1);
    ConvertedFields(parts[0], parts[1], parts[2], d);
  }

  /** The three converted pieces against the canonical rendering. */
  lemma ConvertedFields(day: string, abbr: string, year: string, d: Date)
    requires ValidDate(d) && 1 <= d.month && abbr == MonthAbbrevs[d.month - 1]
    requires AllDigits(day) && 1 <= |day| <= 2 && DigitsToNat(day) == d.day
    requires AllDigits(year) && |year| == 4 && DigitsToNat(year) == d.year
    ensures abbr in Months
    ensures year + "-" + Months[abbr] + "-" + PadStart(day, 2, '0') == FormatIso(d)
  {
    var iso := FormatIso(d);
    MonthCode(d.month - 1);
    DigitsInjective(Months[abbr], iso[5..7]);
    DigitsInjective(year, iso[..4]);
    DayPadded(day);
    DigitsInjective(PadStart(day, 2, '0'), iso[8..]);
    assert iso == iso[..4] + "-" + iso[5..7] + "-" + iso[8..];
  }

  /** Zero-padding a one- or two-digit day keeps its value. */
  lemma DayPadded(t: string)
    requires AllDigits(t) && 1 <= |t| <= 2
    ensures var p := PadStart(t, 2, '0');
      |p| == 2 && AllDigits(p) && DigitsToNat(p) == DigitsToNat(t)
  {
    if |t| == 1 {
      DigitsToNatLeadingZeros(1, t);
    }
  }

  /** The month the case-insensitive lookup finds for an exact-case
      abbreviation is that abbreviation's month. */
  lemma MonthIndexUnique(i: nat, j: nat)
    requires i < 12 && j < 12
    requires Lower(MonthAbbrevs[i]) == Lower(MonthAbbrevs[j])
    ensures i == j
  {
    var a, b := MonthAbbrevs[i], MonthAbbrevs[j];
    MonthAbbrevShape(i);
    MonthAbbrevShape(j);
    LowerAt(a, 0); LowerAt(a, 1); LowerAt(a, 2);
    LowerAt(b, 0); LowerAt(b, 1); LowerAt(b, 2);
    AbbrevKeysDistinct(i, j);
  }

  /** No two abbreviations agree on all three letters up to case. */
  lemma AbbrevKeysDistinct(i: nat, j: nat)
    requires i < 12 && j < 12
    ensures |MonthAbbrevs[i]| == 3 && |MonthAbbrevs[j]| == 3
    ensures (&& ToLower(MonthAbbrevs[i][0]) == ToLower(MonthAbbrevs[j][0])
             && ToLower(MonthAbbrevs[i][1]) == ToLower(MonthAbbrevs[j][1])
             && ToLower(MonthAbbrevs[i][2]) == ToLower(MonthAbbrevs[j][2])) ==> i == j
  {
    assert i == 0 || i == 1 || i == 2 || i == 3 || i == 4 || i == 5
        || i == 6 || i == 7 || i == 8 || i == 9 || i == 10 || i == 11;
    assert j == 0 || j == 1 || j == 2 || j == 3 || j == 4 || j == 5
        || j == 6 || j == 7 || j == 8 || j == 9 || j == 10 || j == 11;
  }

  /** The specimen passport's birth date, rendered and converted back. */
  lemma SpecimenBirthConverted(s: string, rendered: string)
    requires s == "740812" && FormatDate(s) == Decoded(rendered)
    ensures ConvertDateFormat(rendered) == Some("1974-08-12")
  {
    SpecimenBirthDate(s);
    ConvertThree("12", "Aug", "1974");
    assert rendered == "12" + " " + "Aug" + " " + "1974";
    SpecimenPieces();
  }

  lemma SpecimenPieces()
    ensures Months["Aug"] == "08" && PadStart("12", 2, '0') == "12"
    ensures "1974" + "-" + "08" + "-" + "12" == "1974-08-12"
  {
  }

  /** Three space-free fields with a known month convert field by field. */
  lemma ConvertThree(day: string, abbr: string, year: string)
    requires NoSpace(day) && NoSpace(year) && abbr in MonthAbbrevs
    ensures abbr in Months
    ensures ConvertDateFormat(day + " " + abbr + " " + year)
            == Some(year + "-" + Months[abbr] + "-" + PadStart(day, 2, '0'))
  {
    MonthKeys();
    var i :| 0 <= i < 12 && MonthAbbrevs[i] == abbr;
    MonthAbbrevShape(i);
    assert day + " " + abbr + " " + year == day + [' '] + abbr + [' '] + year;
    SplitThree(day, abbr, year, ' ');
  }

  /** The re-formatter does not consult the calendar: a day that February
      never has is passed on. */
  lemma NoCalendarCheck(s: string)
    requires s == "31 Feb 2000"
    ensures ConvertDateFormat(s) == Some("2000-02-31")
  {
    ConvertThree("31", "Feb", "2000");
    assert s == "31" + " " + "Feb" + " " + "2000";
    FebruaryPieces();
  }

  /** A one-digit day is padded with a zero. */
  lemma OneDigitDayPadded(s: string)
    requires s == "5 Feb 2000"
    ensures ConvertDateFormat(s) == Some("2000-02-05")
  {
    ConvertThree("5", "Feb", "2000");
    assert s == "5" + " " + "Feb" + " " + "2000";
    FebruaryPieces();
    OneDigitPieces();
  }

  lemma OneDigitPieces()
    ensures PadStart("5", 2, '0') == "05"
    ensures "2000" + "-" + "02" + "-" + "05" == "2000-02-05"
  {
    assert Repeat('0', 1) == "0";
  }

  lemma FebruaryPieces()
    ensures Months["Feb"] == "02" && PadStart("31", 2, '0') == "31"
    ensures "2000" + "-" + "02" + "-" + "31" == "2000-02-31"
  {
  }
}
