/** Calendar dates and the strict multi-format date parse the birth-registration
    extractor hands to its date library: five formats tried in order, each of
    which must consume the whole text, and the canonical `YYYY-MM-DD` rendering. */
module Dates {
  import opened Text

  datatype Date = Date(year: nat, month: nat, day: nat)

  /** Gregorian leap years, extended backwards to year 0. */
  predicate IsLeapYear(y: nat) {
    (y % 4 == 0 && y % 100 != 0) || y % 400 == 0
  }

  function DaysInMonth(y: nat, m: nat): (n: nat)
    requires 1 <= m <= 12
    ensures 28 <= n <= 31
  {
    if m == 2 then (if IsLeapYear(y) then 29 else 28)
    else if m == 4 || m == 6 || m == 9 || m == 11 then 30
    else 31
  }

  /** A day that exists in the calendar, with a year a four-digit field can hold. */
  predicate ValidDate(d: Date) {
    d.year <= 9999 && 1 <= d.month <= 12 && 1 <= d.day <= DaysInMonth(d.year, d.month)
  }

  /** English month abbreviations, January first. */
  const MonthAbbrevs: seq<string> :=
    ["Jan", "Feb", "Mar", "Apr", "May", "Jun", "Jul", "Aug", "Sep", "Oct", "Nov", "Dec"]

  /** English month names, January first. */
  const MonthNames: seq<string> :=
    ["January", "February", "March", "April", "May", "June", "July", "August",
     "September", "October", "November", "December"]

  /** The month number (1-based position) at or after `k` whose table entry
      equals `name` up to ASCII case. */
  function MonthFrom(name: string, table: seq<string>, k: nat): (m: Option<nat>)
    ensures m.Some? ==> k < m.value <= |table| && Lower(name) == Lower(table[m.value - 1])
    ensures m.None? ==> forall j :: k <= j < |table| ==> Lower(name) != Lower(table[j])
    decreases |table| - k
  {
    if k >= |table| then None
    else if Lower(name) == Lower(table[k]) then Some(k + 1)
    else MonthFrom(name, table, k + 1)
  }

  function MonthOf(name: string, table: seq<string>): Option<nat> {
    MonthFrom(name, table, 0)
  }

  /** The date with the given year and day digits and month, if the calendar has it. */
  function Build(yearText: string, month: nat, dayText: string): (r: Option<Date>)
    requires AllDigits(yearText) && AllDigits(dayText)
    ensures r.Some? ==> ValidDate(r.value) && r.value.month == month
  {
    var d := Date(DigitsToNat(yearText), month, DigitsToNat(dayText));
    if ValidDate(d) then Some(d) else None
  }

  /** The five accepted shapes, in the order they are tried. */
  datatype Format =
    | DashedDayFirst    // DD-MM-YYYY
    | DayAbbrevComma    // D MMM, YYYY
    | DayFullName       // DD MMMM YYYY
    | DayAbbrev         // D MMM YYYY
    | IsoDate           // YYYY-MM-DD

  const DobFormats: seq<Format> := [DashedDayFirst, DayAbbrevComma, DayFullName, DayAbbrev, IsoDate]

  /** `DD-MM-YYYY` with exactly two, two and four digits. */
  function ParseDashedDayFirst(s: string): Option<Date> {
    if |s| == 10 && s[2] == '-' && s[5] == '-'
       && AllDigits(s[..2]) && AllDigits(s[3..5]) && AllDigits(s[6..])
    then Build(s[6..], DigitsToNat(s[3..5]), s[..2])
    else None
  }

  /** `YYYY-MM-DD` with exactly four, two and two digits. */
  function ParseIso(s: string): Option<Date> {
    if |s| == 10 && s[4] == '-' && s[7] == '-'
       && AllDigits(s[..4]) && AllDigits(s[5..7]) && AllDigits(s[8..])
    then Build(s[..4], DigitsToNat(s[5..7]), s[8..])
    else None
  }

  /** `D MMM YYYY`, `D MMM, YYYY` and `DD MMMM YYYY`: exactly three fields
      separated by single spaces; the day has two digits (`twoDigitDay`) or one
      or two; the month is a name from `table` in any letter case, followed by
      a comma when `comma` holds; the year has four digits. */
  function ParseNamed(s: string, twoDigitDay: bool, table: seq<string>, comma: bool): Option<Date> {
    var parts := SplitOn(s, ' ');
    if |parts| != 3 then None
    else
      var dayText, monthText, yearText := parts[0], parts[1], parts[2];
      if !AllDigits(dayText) || !(if twoDigitDay then |dayText| == 2 else 1 <= |dayText| <= 2) then None
      else if !AllDigits(yearText) || |yearText| != 4 then None
      else if comma && (monthText == [] || monthText[|monthText| - 1] != ',') then None
      else
        var name := if comma then monthText[..|monthText| - 1] else monthText;
        match MonthOf(name, table)
        case None => None
        case Some(m) => Build(yearText, m, dayText)
  }

  /** What a text accepted without a comma is made of. */
  lemma NamedFields(s: string, twoDigitDay: bool, table: seq<string>)
    requires ParseNamed(s, twoDigitDay, table, false).Some?
    ensures var parts, d := SplitOn(s, ' '), ParseNamed(s, twoDigitDay, table, false).value;
      && |parts| == 3
      && AllDigits(parts[0]) && 1 <= |parts[0]| <= 2 && DigitsToNat(parts[0]) == d.day
      && AllDigits(parts[2]) && |parts[2]| == 4 && DigitsToNat(parts[2]) == d.year
      && ValidDate(d) && 1 <= d.month <= |table| && Lower(parts[1]) == Lower(table[d.month - 1])
  {
    var parts := SplitOn(s, ' ');
    var m := MonthOf(parts[1], table);
    assert m.Some?;
    assert ParseNamed(s, twoDigitDay, table, false) == Build(parts[2], m.value, parts[0]);
  }

  function ParseWith(s: string, f: Format): (r: Option<Date>)
    ensures r.Some? ==> ValidDate(r.value)
  {
    match f
    case DashedDayFirst => ParseDashedDayFirst(s)
    case DayAbbrevComma => ParseNamed(s, false, MonthAbbrevs, true)
    case DayFullName => ParseNamed(s, true, MonthNames, false)
    case DayAbbrev => ParseNamed(s, false, MonthAbbrevs, false)
    case IsoDate => ParseIso(s)
  }

  /** What each format in the list makes of the text. */
  function Readings(s: string, formats: seq<Format>): (rs: seq<Option<Date>>)
    ensures |rs| == |formats|
    ensures forall k :: 0 <= k < |formats| ==> rs[k] == ParseWith(s, formats[k])
  {
    if formats == [] then [] else [ParseWith(s, formats[0])] + Readings(s, formats[1..])
  }

  /** The first present value of a list of alternatives. */
  function FirstSome<T>(rs: seq<Option<T>>): (r: Option<T>)
    ensures r.None? <==> forall k :: 0 <= k < |rs| ==> rs[k].None?
    ensures r.Some? ==> r in rs
  {
    if rs == [] then None else if rs[0].Some? then rs[0] else FirstSome(rs[1..])
  }

  /** The first present alternative is the one chosen. */
  lemma {:induction false} FirstSomePicks<T>(rs: seq<Option<T>>, k: nat)
    requires k < |rs| && rs[k].Some?
    requires forall j :: 0 <= j < k ==> rs[j].None?
    ensures FirstSome(rs) == rs[k]
  {
    if k > 0 {
      FirstSomePicks(rs[1..], k - 1);
    }
  }

  /** Strict parsing against a list of formats: the first format that accepts
      the whole text wins; failure is a value of its own. */
  function ParseFirst(s: string, formats: seq<Format>): (r: Option<Date>)
    ensures r.Some? ==> ValidDate(r.value)
    ensures r.None? <==> forall k :: 0 <= k < |formats| ==> ParseWith(s, formats[k]).None?
  {
    FirstSome(Readings(s, formats))
  }

  /** The text is given the first accepting format's reading. */
  lemma ParseFirstPicksFirst(s: string, formats: seq<Format>, k: nat)
    requires k < |formats| && ParseWith(s, formats[k]).Some?
    requires forall j :: 0 <= j < k ==> ParseWith(s, formats[j]).None?
    ensures ParseFirst(s, formats) == ParseWith(s, formats[k])
  {
    FirstSomePicks(Readings(s, formats), k);
  }

  /** The first three formats of the list, by name. */
  lemma FirstThreeRejected(s: string)
    requires ParseDashedDayFirst(s).None?
    requires ParseNamed(s, false, MonthAbbrevs, true).None?
    requires ParseNamed(s, true, MonthNames, false).None?
    ensures forall j :: 0 <= j < 3 ==> ParseWith(s, DobFormats[j]).None?
  {
    forall j | 0 <= j < 3 ensures ParseWith(s, DobFormats[j]).None? {
      if j == 0 {
        assert DobFormats[j] == DashedDayFirst;
      } else if j == 1 {
        assert DobFormats[j] == DayAbbrevComma;
      } else {
        assert DobFormats[j] == DayFullName;
      }
    }
  }

  /** The five-format strict parse of a cleaned date-of-birth text. */
  function ParseDob(s: string): (r: Option<Date>)
    ensures r.Some? ==> ValidDate(r.value)
  {
    ParseFirst(s, DobFormats)
  }

  function Pad2(n: nat): string {
    PadStart(NatToDecimal(n), 2, '0')
  }

  /** The canonical `YYYY-MM-DD` rendering. */
  function FormatIso(d: Date): (r: string)
    requires ValidDate(d)
    ensures |r| == 10 && r[4] == '-' && r[7] == '-'
    ensures AllDigits(r[..4]) && AllDigits(r[5..7]) && AllDigits(r[8..])
    ensures DigitsToNat(r[..4]) == d.year && DigitsToNat(r[5..7]) == d.month && DigitsToNat(r[8..]) == d.day
  {
    var y, m, dd := PadStart(NatToDecimal(d.year), 4, '0'), Pad2(d.month), Pad2(d.day);
    PaddedRoundTrip(d.year, 4);
    PaddedRoundTrip(d.month, 2);
    PaddedRoundTrip(d.day, 2);
    IsoLayout(y, m, dd);
    y + "-" + m + "-" + dd
  }

  /** Where the three fields sit in a dash-joined rendering. */
  lemma IsoLayout(y: string, m: string, dd: string)
    requires |y| == 4 && |m| == 2 && |dd| == 2
    ensures var r := y + "-" + m + "-" + dd;
      |r| == 10 && r[4] == '-' && r[7] == '-' && r[..4] == y && r[5..7] == m && r[8..] == dd
  {
  }

  /** `year().toString()`: the year without zero padding. */
  function YearText(d: Date): string {
    NatToDecimal(d.year)
  }

  /** From year 1000 on, the printed year is the first four characters of the
      canonical rendering; before that it is shorter than four characters. */
  lemma YearTextPrefix(d: Date)
    requires ValidDate(d)
    ensures d.year >= 1000 ==> YearText(d) == FormatIso(d)[..4]
    ensures d.year < 1000 ==> |YearText(d)| < 4
  {
    if d.year >= 1000 {
      assert FormatIso(d)[..4] == PadStart(NatToDecimal(d.year), 4, '0');
    }
  }

  /** The canonical rendering parses back to the same date through the whole
      five-format list: only the last format accepts it. */
  lemma ParseFormatRoundTrip(d: Date)
    requires ValidDate(d)
    ensures ParseDob(FormatIso(d)) == Some(d)
  {
    var s := FormatIso(d);
    IsoHasNoSpace(d);
    assert ParseDashedDayFirst(s).None? by { assert s[2] == s[..4][2]; }
    NamedRejectsUnspaced(s, false, MonthAbbrevs, true);
    NamedRejectsUnspaced(s, true, MonthNames, false);
    NamedRejectsUnspaced(s, false, MonthAbbrevs, false);
    assert ParseIso(s) == Some(d);
    ParseFirstPicksFirst(s, DobFormats, 4);
  }

  lemma IsoHasNoSpace(d: Date)
    requires ValidDate(d)
    ensures forall k :: 0 <= k < |FormatIso(d)| ==> FormatIso(d)[k] != ' '
  {
    var s := FormatIso(d);
    forall k | 0 <= k < |s| ensures s[k] != ' ' {
      if k < 4 { assert s[k] == s[..4][k]; }
      else if 5 <= k < 7 { assert s[k] == s[5..7][k - 5]; }
      else if 8 <= k { assert s[k] == s[8..][k - 8]; }
    }
  }

  /** A text without spaces has no three space-separated fields. */
  lemma NamedRejectsUnspaced(s: string, twoDigitDay: bool, table: seq<string>, comma: bool)
    requires forall k :: 0 <= k < |s| ==> s[k] != ' '
    ensures ParseNamed(s, twoDigitDay, table, comma).None?
  {
    SplitOnNone(s, ' ');
  }

  /** Every accepted shape starts with a digit, so a text without digits is
      rejected by all five formats. */
  lemma DigitlessNeverParses(s: string)
    requires !HasDigit(s)
    ensures ParseDob(s).None?
  {
    forall k | 0 <= k < |DobFormats| ensures ParseWith(s, DobFormats[k]).None? {
      DigitlessFormat(s, DobFormats[k]);
    }
  }

  lemma DigitlessFormat(s: string, f: Format)
    requires !HasDigit(s)
    ensures ParseWith(s, f).None?
  {
    if |s| >= 4 {
      assert s[..2][0] == s[0] && s[..4][0] == s[0];
    }
    var parts := SplitOn(s, ' ');
    if parts[0] != [] {
      assert parts[0][0] == s[0];
    }
  }

  /** Normalising twice is normalising once: the canonical text of a parsed
      date parses to that date again. */
  lemma NormalizeIdempotent(s: string)
    requires ParseDob(s).Some?
    ensures ParseDob(FormatIso(ParseDob(s).value)) == ParseDob(s)
  {
    ParseFormatRoundTrip(ParseDob(s).value);
  }
}
