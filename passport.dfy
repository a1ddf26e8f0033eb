/** Passport analysis (`/analyze-passport`): the machine-readable zone of a
    TD3 passport as laid out in ICAO Doc 9303 Part 4, section 4.2.2. The name
    is decoded from the second-to-last OCR line, the document fields are cut
    from the last line at fixed offsets, and `YYMMDD` dates are rendered as
    `D Mon YYYY` with a century pivot at 50. */
module Passport {
  import opened Text
  import opened Dates
  import opened NidExtraction

  // ------------------------------------------------------------ slicing

  /** `s.substring(a, b)` for `a <= b`: both ends are clamped to the length. */
  function Substring(s: string, a: nat, b: nat): (r: string)
    requires a <= b
    ensures |r| == (if b <= |s| then b - a else if a <= |s| then |s| - a else 0)
    ensures forall k :: 0 <= k < |r| ==> r[k] == s[a + k]
  {
    if a >= |s| then [] else if b >= |s| then s[a..] else s[a..b]
  }

  /** `parseInt(s[i])`: a digit gives its value; a missing character or any
      other character gives `NaN`, here None. */
  function CheckDigitAt(s: string, i: nat): (r: Option<nat>)
    ensures r.Some? <==> i < |s| && IsDigit(s[i])
    ensures r.Some? ==> r.value < 10 && DigitChar(r.value) == s[i]
  {
    if i < |s| && IsDigit(s[i]) then Some(DigitValue(s[i])) else None
  }

  /** The fields `extractMRZFields` cuts from the second MRZ line. */
  datatype MrzFields = MrzFields(
    passportNumber: string,
    passportNumberCheckDigit: Option<nat>,
    birthDate: string,
    birthDateCheckDigit: Option<nat>,
    expirationDate: string,
    expirationDateCheckDigit: Option<nat>,
    personalNumber: string,
    personalNumberCheckDigit: Option<nat>,
    finalCheckDigit: Option<nat>)

  function ExtractMrzFields(mrz: string): (f: MrzFields)
    ensures |f.passportNumber| <= 9 && |f.birthDate| <= 6 && |f.expirationDate| <= 6
    ensures |f.personalNumber| <= 14
    ensures f.passportNumber != [] <==> |mrz| > 0
    ensures f.birthDate != [] <==> |mrz| > 13
    ensures f.expirationDate != [] <==> |mrz| > 21
    ensures f.personalNumber != [] <==> |mrz| > 28
  {
    MrzFields(
      Substring(mrz, 0, 9), CheckDigitAt(mrz, 9),
      Substring(mrz, 13, 19), CheckDigitAt(mrz, 19),
      Substring(mrz, 21, 27), CheckDigitAt(mrz, 27),
      Substring(mrz, 28, 42), CheckDigitAt(mrz, 42),
      CheckDigitAt(mrz, 43))
  }

  // ------------------------------------------------------------ dates

  /** The two-digit year pivot: 50..99 are 1950..1999, 00..49 are 2000..2049. */
  function CenturyYear(yy: nat): (y: nat)
    requires yy < 100
    ensures 1950 <= y <= 2049 && y % 100 == yy
    ensures y >= 2000 <==> yy < 50
  {
    if yy >= 50 then 1900 + yy else 2000 + yy
  }

  /** A rendered MRZ date. Six ASCII digits with a month from 01 to 12 are
      decoded; anything else, for which the JavaScript renders `NaN` or
      `undefined` pieces, is kept as the raw slice. Either way the field is
      present. */
  datatype DateField = Decoded(text: string) | Undecodable(raw: string)

  predicate IsMrzDate(yymmdd: string) {
    |yymmdd| == 6 && AllDigits(yymmdd) && 1 <= DigitsToNat(yymmdd[2..4]) <= 12
  }

  /** `formatDate`: the day without a leading zero, the English month
      abbreviation, and the pivoted four-digit year, separated by spaces. */
  function FormatDate(yymmdd: string): (r: DateField)
    ensures r.Decoded? <==> IsMrzDate(yymmdd)
    ensures r.Undecodable? ==> r.raw == yymmdd
  {
    if IsMrzDate(yymmdd) then
      assert AllDigits(yymmdd[..2]) && AllDigits(yymmdd[4..]);
      TwoDigitsValue(yymmdd[..2]);
      var yy, mm, dd := DigitsToNat(yymmdd[..2]), DigitsToNat(yymmdd[2..4]), DigitsToNat(yymmdd[4..]);
      Decoded(NatToDecimal(dd) + " " + MonthAbbrevs[mm - 1] + " " + NatToDecimal(CenturyYear(yy)))
    else Undecodable(yymmdd)
  }

  /** A decoded date is three space-free fields: the day's value, the month
      abbreviation and the pivoted year, each readable back. */
  lemma DecodedFields(yymmdd: string)
    requires IsMrzDate(yymmdd)
    ensures var yy, mm, dd := DigitsToNat(yymmdd[..2]), DigitsToNat(yymmdd[2..4]), DigitsToNat(yymmdd[4..]);
      SplitOn(FormatDate(yymmdd).text, ' ')
        == [NatToDecimal(dd), MonthAbbrevs[mm - 1], NatToDecimal(CenturyYear(yy))]
    ensures var dd := DigitsToNat(yymmdd[4..]);
      DigitsToNat(NatToDecimal(dd)) == dd && |NatToDecimal(dd)| <= 2
    ensures var yy := DigitsToNat(yymmdd[..2]);
      |NatToDecimal(CenturyYear(yy))| == 4 && DigitsToNat(NatToDecimal(CenturyYear(yy))) == CenturyYear(yy)
  {
    assert AllDigits(yymmdd[..2]) && AllDigits(yymmdd[4..]);
    var yy, mm, dd := DigitsToNat(yymmdd[..2]), DigitsToNat(yymmdd[2..4]), DigitsToNat(yymmdd[4..]);
    TwoDigitsValue(yymmdd[..2]);
    TwoDigitsValue(yymmdd[4..]);
    var d, m, y := NatToDecimal(dd), MonthAbbrevs[mm - 1], NatToDecimal(CenturyYear(yy));
    NoSpaceInDigits(d);
    NoSpaceInDigits(y);
    MonthAbbrevShape(mm - 1);
    SplitThree(d, m, y, ' ');
    DecimalRoundTrip(dd);
    DecimalRoundTrip(CenturyYear(yy));
  }

  /** The rendered date spelled out in terms of the MRZ digits: the day as
      written less a leading zero, the month abbreviation, and the two year
      digits behind `19` from 50 on and behind `20` below. */
  lemma FormatDateText(yymmdd: string)
    requires IsMrzDate(yymmdd)
    ensures FormatDate(yymmdd).text
      == (if yymmdd[4] == '0' then yymmdd[5..] else yymmdd[4..]) + " "
         + MonthAbbrevs[DigitsToNat(yymmdd[2..4]) - 1] + " "
         + (if DigitsToNat(yymmdd[..2]) >= 50 then "19" else "20") + yymmdd[..2]
  {
    assert AllDigits(yymmdd[..2]) && AllDigits(yymmdd[4..]);
    assert yymmdd[4..][0] == yymmdd[4] && yymmdd[4..][1..] == yymmdd[5..];
    DayDigits(yymmdd[4..]);
    CenturyDigits(yymmdd[..2]);
  }

  /** A two-digit day printed back: the leading zero is lost. */
  lemma DayDigits(t: string)
    requires |t| == 2 && AllDigits(t)
    ensures NatToDecimal(DigitsToNat(t)) == if t[0] == '0' then t[1..] else t
  {
    TwoDigitsValue(t);
    if t[0] == '0' {
      var u := t[1..];
      assert u[..0] == [] && u[0] == t[1];
      assert DigitsToNat(u) == DigitValue(t[1]);
      DecimalOfDigits(u);
    } else {
      DecimalOfDigits(t);
    }
  }

  /** Two year digits printed after the century pivot. */
  lemma CenturyDigits(t: string)
    requires |t| == 2 && AllDigits(t)
    ensures DigitsToNat(t) < 100
    ensures NatToDecimal(CenturyYear(DigitsToNat(t)))
            == (if DigitsToNat(t) >= 50 then "19" else "20") + t
  {
    TwoDigitsValue(t);
    if DigitsToNat(t) >= 50 {
      PrefixedYear('1', '9', t);
      assert "19" + t == ['1', '9'] + t;
    } else {
      PrefixedYear('2', '0', t);
      assert "20" + t == ['2', '0'] + t;
    }
  }

  /** Two year digits behind a two-digit century print back as written. */
  lemma PrefixedYear(a: char, b: char, t: string)
    requires IsDigit(a) && a != '0' && IsDigit(b)
    requires |t| == 2 && AllDigits(t)
    ensures NatToDecimal(1000 * DigitValue(a) + 100 * DigitValue(b) + DigitsToNat(t)) == [a, b] + t
  {
    TwoDigitsValue(t);
    var u := [a, b] + t;
    assert u[0] == a && u[1] == b && u[2] == t[0] && u[3] == t[1];
    FourDigitsValue(u);
    DecimalOfDigits(u);
  }

  lemma TwoDigitsValue(t: string)
    requires |t| == 2 && AllDigits(t)
    ensures DigitsToNat(t) == 10 * DigitValue(t[0]) + DigitValue(t[1]) < 100
  {
    var a := t[..1];
    assert a[..0] == [] && a[0] == t[0];
    assert DigitsToNat(a) == DigitValue(t[0]);
  }

  lemma NoSpaceInDigits(t: string)
    requires AllDigits(t)
    ensures forall k :: 0 <= k < |t| ==> t[k] != ' '
  {
  }

  /** Every month abbreviation is three letters. */
  lemma MonthAbbrevShape(i: nat)
    requires i < 12
    ensures |MonthAbbrevs[i]| == 3
    ensures forall k :: 0 <= k < 3 ==> 'A' <= MonthAbbrevs[i][k] <= 'z' && MonthAbbrevs[i][k] != ' '
  {
  }

  // ------------------------------------------------------------ the name

  /** `s.replace(/^p/, "")` for a literal prefix `p`. */
  function StripPrefix(s: string, p: string): (r: string)
    ensures |p| <= |s| && s[..|p|] == p ==> s == p + r
    ensures !(|p| <= |s| && s[..|p|] == p) ==> r == s
  {
    if |p| <= |s| && s[..|p|] == p then s[|p|..] else s
  }

  /** `s.replace(/</g, " ")`. */
  function FillersToSpaces(s: string): (r: string)
    ensures |r| == |s|
    ensures forall k :: 0 <= k < |s| ==> r[k] == (if s[k] == '<' then ' ' else s[k])
  {
    if s == [] then [] else [if s[0] == '<' then ' ' else s[0]] + FillersToSpaces(s[1..])
  }

  /** The name line with the document code removed, fillers turned into
      spaces, and trimmed. */
  function CleanNameLine(line: string): string {
    Trim(FillersToSpaces(StripPrefix(line, "P<")))
  }

  /** `extractNameFromMRZ`: the given names glued together, then the surname
      without a leading `BGD`, upper-cased; an empty line or an empty result
      is no name. */
  function ExtractNameFromMrz(line: string): (r: Option<string>)
    ensures line == [] ==> r.None?
    ensures r.Some? ==> r.value != []
  {
    if line == [] then None
    else
      var parts := SplitSpaces(CleanNameLine(line));
      var full := Upper(Concat(parts[1..]) + StripPrefix(parts[0], "BGD"));
      if full == [] then None else Some(full)
  }

  // ------------------------------------------------------------ the analysis

  /** The fields of the response, `null` being None. */
  datatype PassportData = PassportData(
    passportNumber: Option<string>,
    birthDate: Option<DateField>,
    expirationDate: Option<DateField>,
    personalNumber: Option<string>,
    name: Option<string>)

  datatype Analysis = MrzNotFound | Analyzed(status: Status, passportData: PassportData)

  /** `getRequiredFields`, with the name added: an empty slice is `null`. */
  function RequiredFields(f: MrzFields, name: Option<string>): (d: PassportData)
    ensures d.passportNumber.Some? <==> f.passportNumber != []
    ensures d.birthDate.Some? <==> f.birthDate != []
    ensures d.expirationDate.Some? <==> f.expirationDate != []
    ensures d.personalNumber.Some? <==> f.personalNumber != []
    ensures d.name == name
  {
    PassportData(
      if f.passportNumber == [] then None else Some(f.passportNumber),
      if f.birthDate == [] then None else Some(FormatDate(f.birthDate)),
      if f.expirationDate == [] then None else Some(FormatDate(f.expirationDate)),
      if f.personalNumber == [] then None else Some(Substring(f.personalNumber, 0, 10)),
      name)
  }

  predicate AllPresent(d: PassportData) {
    d.passportNumber.Some? && d.birthDate.Some? && d.expirationDate.Some?
    && d.personalNumber.Some? && d.name.Some?
  }

  /** The name line is the second-to-last line, when there are two lines. */
  function NameOf(lines: seq<string>): Option<string> {
    if |lines| > 1 then ExtractNameFromMrz(lines[|lines| - 2]) else None
  }

  /** The handler after text detection: the last line is the MRZ code line.
      Success holds exactly when that line reaches the personal number (more
      than 28 characters) and a name was decoded: the other fields are
      present as soon as the line reaches them, and a date field is present
      even when it cannot be decoded. */
  function AnalyzePassport(lines: seq<string>): (r: Analysis)
    ensures r == MrzNotFound <==> lines == [] || lines[|lines| - 1] == []
    ensures r.Analyzed? ==> (r.status == Success <==> |lines[|lines| - 1]| > 28 && NameOf(lines).Some?)
  {
    if lines == [] || lines[|lines| - 1] == [] then MrzNotFound
    else
      var data := RequiredFields(ExtractMrzFields(lines[|lines| - 1]), NameOf(lines));
      Analyzed(if AllPresent(data) then Success else Fail, data)
  }

  // ------------------------------------------------------------ properties

  /** The MRZ positions the response is built from: the document number, the
      birth date, the expiry date and the first ten characters of the
      personal number. */
  predicate UsedPosition(i: nat) {
    i < 9 || 13 <= i < 19 || 21 <= i < 27 || 28 <= i < 38
  }

  /** Check digits are never compared with their fields: MRZ lines of the same
      length that agree on the used positions give the same analysis, whatever
      their check digits, nationality, sex and personal-number tail. */
  lemma OnlyUsedPositionsMatter(lines1: seq<string>, lines2: seq<string>)
    requires |lines1| == |lines2| >= 1
    requires lines1[..|lines1| - 1] == lines2[..|lines2| - 1]
    requires |lines1[|lines1| - 1]| == |lines2[|lines2| - 1]|
    requires forall i :: 0 <= i < |lines1[|lines1| - 1]| && UsedPosition(i)
               ==> lines1[|lines1| - 1][i] == lines2[|lines2| - 1][i]
    ensures AnalyzePassport(lines1) == AnalyzePassport(lines2)
  {
    var n := |lines1|;
    if n > 1 {
      assert lines1[n - 2] == lines1[..n - 1][n - 2] == lines2[..n - 1][n - 2] == lines2[n - 2];
    }
    assert NameOf(lines1) == NameOf(lines2);
    UsedFieldsAgree(lines1[n - 1], lines2[n - 1], NameOf(lines1));
  }

  lemma UsedFieldsAgree(m1: string, m2: string, name: Option<string>)
    requires |m1| == |m2|
    requires forall i :: 0 <= i < |m1| && UsedPosition(i) ==> m1[i] == m2[i]
    ensures RequiredFields(ExtractMrzFields(m1), name) == RequiredFields(ExtractMrzFields(m2), name)
  {
    var f1, f2 := ExtractMrzFields(m1), ExtractMrzFields(m2);
    SubstringAgree(m1, m2, 0, 9);
    SubstringAgree(m1, m2, 13, 19);
    SubstringAgree(m1, m2, 21, 27);
    SubstringAgree(m1, m2, 28, 38);
    SubstringNested(m1, 28, 42, 10);
    SubstringNested(m2, 28, 42, 10);
  }

  lemma SubstringAgree(s1: string, s2: string, a: nat, b: nat)
    requires a <= b && |s1| == |s2|
    requires forall i :: a <= i < b && i < |s1| ==> s1[i] == s2[i]
    ensures Substring(s1, a, b) == Substring(s2, a, b)
  {
  }

  /** A prefix of a slice is a shorter slice. */
  lemma SubstringNested(s: string, a: nat, b: nat, n: nat)
    requires a + n <= b
    ensures Substring(Substring(s, a, b), 0, n) == Substring(s, a, a + n)
  {
  }

  /** A decoded name holds no filler, no whitespace and no lower-case ASCII
      letter. */
  lemma NameShape(line: string)
    requires ExtractNameFromMrz(line).Some?
    ensures var n := ExtractNameFromMrz(line).value;
      forall k :: 0 <= k < |n| ==> n[k] != '<' && !IsSpace(n[k]) && !('a' <= n[k] <= 'z')
  {
    var c := CleanNameLine(line);
    var parts := SplitSpaces(c);
    GluedChars(parts);
    SplitSpacesConcat(c);
    CleanHasNoFiller(line);
    GluedShape(Concat(parts[1..]) + StripPrefix(parts[0], "BGD"), Concat(parts));
  }

  /** Characters drawn from a text with no filler and no whitespace keep
      that shape through upper-casing. */
  lemma GluedShape(x: string, whole: string)
    requires forall ch :: ch in x ==> ch in whole
    requires forall ch :: ch in whole ==> ch != '<' && !IsSpace(ch)
    ensures forall k :: 0 <= k < |Upper(x)| ==> Upper(x)[k] != '<' && !IsSpace(Upper(x)[k]) && !('a' <= Upper(x)[k] <= 'z')
  {
    forall k | 0 <= k < |x| ensures x[k] != '<' && !IsSpace(x[k]) {
      assert x[k] in x;
    }
    UpperShape(x);
  }

  /** Gluing the given names before the surname only rearranges the parts. */
  lemma GluedChars(parts: seq<string>)
    requires |parts| >= 1
    ensures forall ch :: ch in Concat(parts[1..]) + StripPrefix(parts[0], "BGD") ==> ch in Concat(parts)
  {
    assert Concat(parts) == parts[0] + Concat(parts[1..]);
    var st := StripPrefix(parts[0], "BGD");
    forall ch | ch in st ensures ch in parts[0] {
      var k :| 0 <= k < |st| && st[k] == ch;
      assert ch == parts[0][|parts[0]| - |st| + k];
    }
  }

  /** The cleaned name line holds no filler. */
  lemma CleanHasNoFiller(line: string)
    ensures forall c :: c in CleanNameLine(line) ==> c != '<'
  {
    var f := FillersToSpaces(StripPrefix(line, "P<"));
    TrimChars(f);
    assert forall k :: 0 <= k < |f| ==> f[k] != '<';
  }

  /** Upper-case letters only, at least one. */
  predicate CapitalLetters(s: string) {
    s != [] && forall k :: 0 <= k < |s| ==> 'A' <= s[k] <= 'Z'
  }

  /** A Bangladeshi name line `P<BGD<surname><<<given><<given2>` padded with
      fillers decodes to the given names followed by the surname, with no
      separator between any of them. */
  lemma NameFromFields(surname: string, given1: string, given2: string, pad: nat)
    requires CapitalLetters(surname) && CapitalLetters(given1) && CapitalLetters(given2)
    ensures ExtractNameFromMrz("P<BGD" + surname + "<<" + given1 + "<" + given2 + Repeat('<', pad))
            == Some(given1 + given2 + surname)
  {
    var line := "P<BGD" + surname + "<<" + given1 + "<" + given2 + Repeat('<', pad);
    NameLineCleaned(surname, given1, given2, pad);
    NameWordsSplit(surname, given1, given2);
    ThreeWordName(line, "BGD" + surname, given1, given2);
    CodedSurname(surname);
    CapitalsGlued(given1, given2, surname);
  }

  /** A name line that cleans to three words: the second and third glued,
      then the first without its country code, upper-cased. */
  lemma ThreeWordName(line: string, w1: string, w2: string, w3: string)
    requires line != [] && SplitSpaces(CleanNameLine(line)) == [w1, w2, w3]
    ensures var full := Upper(w2 + w3 + StripPrefix(w1, "BGD"));
      ExtractNameFromMrz(line) == if full == [] then None else Some(full)
  {
    var parts := SplitSpaces(CleanNameLine(line));
    assert parts[1..] == [w2, w3];
    ConcatTwo(w2, w3);
  }

  lemma ConcatTwo(a: string, b: string)
    ensures Concat([a, b]) == a + b
  {
    assert Concat([b]) == b + Concat([]);
    assert [a, b][1..] == [b];
  }

  /** The cleaned line: the document code dropped, fillers made spaces, the
      trailing padding trimmed away. */
  lemma NameLineCleaned(surname: string, given1: string, given2: string, pad: nat)
    requires CapitalLetters(surname) && CapitalLetters(given1) && CapitalLetters(given2)
    ensures CleanNameLine("P<BGD" + surname + "<<" + given1 + "<" + given2 + Repeat('<', pad))
            == "BGD" + surname + "  " + given1 + " " + given2
  {
    var body := "BGD" + surname + "<<" + given1 + "<" + given2 + Repeat('<', pad);
    var line := "P<BGD" + surname + "<<" + given1 + "<" + given2 + Repeat('<', pad);
    DocCodeSplit(surname, given1, given2, Repeat('<', pad));
    assert line == "P<" + body;
    assert StripPrefix(line, "P<") == body by { assert line[..2] == "P<"; }
    var words := "BGD" + surname + "  " + given1 + " " + given2;
    SpacedName(surname, given1, given2, pad);
    assert words[0] == 'B' && words[|words| - 1] == given2[|given2| - 1];
    TrimTrailing(words, pad);
  }

  /** The cleaned line splits into the coded surname and the two given names. */
  lemma NameWordsSplit(surname: string, given1: string, given2: string)
    requires CapitalLetters(surname) && CapitalLetters(given1) && CapitalLetters(given2)
    ensures SplitSpaces("BGD" + surname + "  " + given1 + " " + given2) == ["BGD" + surname, given1, given2]
  {
    var head := "BGD" + surname;
    var tail := given1 + " " + given2;
    WordsSplit(head, given1, given2);
    GivenNamesSplit(given1, given2);
    CodedSurname(surname);
    assert tail[0] == given1[0];
    CapitalsHaveNoSpace(given1);
    SplitSpacesStep(head, "  ", tail);
  }

  lemma GivenNamesSplit(given1: string, given2: string)
    requires CapitalLetters(given1) && CapitalLetters(given2)
    ensures SplitSpaces(given1 + " " + given2) == [given1, given2]
  {
    CapitalsHaveNoSpace(given1);
    CapitalsHaveNoSpace(given2);
    SplitSpacesSingle(given2);
    SplitSpacesStep(given1, " ", given2);
  }

  lemma CapitalsHaveNoSpace(s: string)
    requires CapitalLetters(s)
    ensures NoSpace(s) && !IsSpace(s[0])
  {
  }

  lemma CodedSurname(surname: string)
    requires CapitalLetters(surname)
    ensures NoSpace("BGD" + surname)
    ensures StripPrefix("BGD" + surname, "BGD") == surname
  {
    var head := "BGD" + surname;
    assert forall k :: 3 <= k < |head| ==> head[k] == surname[k - 3];
    assert head[..3] == "BGD";
  }

  lemma CapitalsGlued(a: string, b: string, c: string)
    requires CapitalLetters(a) && CapitalLetters(b) && CapitalLetters(c)
    ensures Upper(a + b + c) == a + b + c
  {
    var x := a + b + c;
    assert forall k :: 0 <= k < |x| ==> 'A' <= x[k] <= 'Z' by {
      assert forall k :: 0 <= k < |a| ==> x[k] == a[k];
      assert forall k :: |a| <= k < |a| + |b| ==> x[k] == b[k - |a|];
      assert forall k :: |a| + |b| <= k < |x| ==> x[k] == c[k - |a| - |b|];
    }
    UpperOfUpper(x);
  }

  lemma DocCodeSplit(surname: string, given1: string, given2: string, fill: string)
    ensures "P<BGD" + surname + "<<" + given1 + "<" + given2 + fill
            == "P<" + ("BGD" + surname + "<<" + given1 + "<" + given2 + fill)
  {
    assert "P<BGD" == "P<" + "BGD";
  }

  lemma WordsSplit(head: string, given1: string, given2: string)
    ensures head + "  " + given1 + " " + given2 == head + "  " + (given1 + " " + given2)
  {
  }

  /** The fillers of such a line become single and double spaces. */
  lemma SpacedName(surname: string, given1: string, given2: string, pad: nat)
    requires CapitalLetters(surname) && CapitalLetters(given1) && CapitalLetters(given2)
    ensures FillersToSpaces("BGD" + surname + "<<" + given1 + "<" + given2 + Repeat('<', pad))
            == "BGD" + surname + "  " + given1 + " " + given2 + Repeat(' ', pad)
  {
    var a := "BGD" + surname;
    assert forall k :: 0 <= k < |a| ==> a[k] != '<' by {
      assert forall k :: 3 <= k < |a| ==> a[k] == surname[k - 3];
    }
    FillersAppend(a, "<<");
    FillersAppend(a + "<<", given1);
    FillersAppend(a + "<<" + given1, "<");
    FillersAppend(a + "<<" + given1 + "<", given2);
    FillersAppend(a + "<<" + given1 + "<" + given2, Repeat('<', pad));
    FillersFree(a);
    FillersFree(given1);
    FillersFree(given2);
    assert FillersToSpaces("<<") == "  ";
    assert FillersToSpaces("<") == " ";
    assert FillersToSpaces(Repeat('<', pad)) == Repeat(' ', pad);
  }

  lemma FillersAppend(a: string, b: string)
    ensures FillersToSpaces(a + b) == FillersToSpaces(a) + FillersToSpaces(b)
  {
    var l, r := FillersToSpaces(a + b), FillersToSpaces(a) + FillersToSpaces(b);
    assert forall k :: 0 <= k < |a| ==> l[k] == r[k];
    assert forall k :: |a| <= k < |a + b| ==> (a + b)[k] == b[k - |a|] && l[k] == r[k];
  }

  lemma FillersFree(a: string)
    requires forall k :: 0 <= k < |a| ==> a[k] != '<'
    ensures FillersToSpaces(a) == a
  {
  }

  // ------------------------------------------------------------ examples

  /** The code line of the specimen passport of ICAO Doc 9303 Part 4. */
  const SpecimenMrz := "L898902C36UTO7408122F1204159ZE184226B<<<<<10"

  /** The fields of the specimen line. */
  lemma SpecimenFields(mrz: string)
    requires mrz == SpecimenMrz
    ensures var f := ExtractMrzFields(mrz);
      && f.passportNumber == "L898902C3" && f.birthDate == "740812" && f.expirationDate == "120415"
      && Substring(f.personalNumber, 0, 10) == "ZE184226B<"
      && f.passportNumberCheckDigit == Some(6) && f.finalCheckDigit == Some(0)
  {
    SpecimenDocumentFields(mrz);
    SpecimenPersonalNumber(mrz);
    assert mrz[9] == '6' && mrz[43] == '0';
  }

  lemma SpecimenDocumentFields(mrz: string)
    requires mrz == SpecimenMrz
    ensures Substring(mrz, 0, 9) == "L898902C3"
    ensures Substring(mrz, 13, 19) == "740812"
    ensures Substring(mrz, 21, 27) == "120415"
  {
    SpecimenSlice(0, "L898902C3");
    SpecimenSlice(13, "740812");
    SpecimenSlice(21, "120415");
  }

  lemma SpecimenPersonalNumber(mrz: string)
    requires mrz == SpecimenMrz
    ensures Substring(Substring(mrz, 28, 42), 0, 10) == "ZE184226B<"
  {
    SpecimenSlice(28, "ZE184226B<");
    SubstringNested(SpecimenMrz, 28, 42, 10);
  }

  lemma SpecimenSlice(a: nat, t: string)
    requires a + |t| <= 44
    requires forall k :: 0 <= k < |t| ==> SpecimenMrz[a + k] == t[k]
    ensures Substring(SpecimenMrz, a, a + |t|) == t
  {
  }

  /** The specimen's birth date: a year of 74 is pivoted into the 1900s. */
  lemma SpecimenBirthDate(s: string)
    requires s == "740812"
    ensures FormatDate(s) == Decoded("12 Aug 1974")
  {
    MrzDateReads(s, 74, 8);
    assert s[4..] == "12" && s[..2] == "74";
    assert MonthAbbrevs[7] == "Aug";
    assert "12" + " " + "Aug" + " " + "19" + "74" == "12 Aug 1974";
  }

  /** The specimen's expiry date: a year of 12 is pivoted into the 2000s. */
  lemma SpecimenExpiryDate(s: string)
    requires s == "120415"
    ensures FormatDate(s) == Decoded("15 Apr 2012")
  {
    MrzDateReads(s, 12, 4);
    assert s[4..] == "15" && s[..2] == "12";
    assert MonthAbbrevs[3] == "Apr";
    assert "15" + " " + "Apr" + " " + "20" + "12" == "15 Apr 2012";
  }

  lemma MrzDateReads(s: string, yy: nat, mm: nat)
    requires |s| == 6 && AllDigits(s) && s[4] != '0'
    requires DigitValue(s[0]) * 10 + DigitValue(s[1]) == yy
    requires DigitValue(s[2]) * 10 + DigitValue(s[3]) == mm
    requires 1 <= mm <= 12
    ensures FormatDate(s) == Decoded(s[4..] + " " + MonthAbbrevs[mm - 1] + " "
                                     + (if yy >= 50 then "19" else "20") + s[..2])
  {
    assert s[2..4][0] == s[2] && s[2..4][1] == s[3];
    assert s[..2][0] == s[0] && s[..2][1] == s[1];
    TwoDigitsValue(s[2..4]);
    TwoDigitsValue(s[..2]);
    FormatDateText(s);
  }

  /** The specimen code line under any name line that decodes: the response
      succeeds with every field filled in. */
  lemma SpecimenAnalysis(nameLine: string, mrz: string)
    requires mrz == SpecimenMrz && ExtractNameFromMrz(nameLine).Some?
    ensures AnalyzePassport([nameLine, mrz])
            == Analyzed(Success, PassportData(Some("L898902C3"), Some(Decoded("12 Aug 1974")),
                                              Some(Decoded("15 Apr 2012")), Some("ZE184226B<"),
                                              ExtractNameFromMrz(nameLine)))
  {
    TwoLineAnalysis(nameLine, mrz);
    SpecimenRequired(mrz, ExtractNameFromMrz(nameLine));
  }

  /** A name line above a non-empty code line. */
  lemma TwoLineAnalysis(nameLine: string, mrz: string)
    requires mrz != []
    ensures var d := RequiredFields(ExtractMrzFields(mrz), ExtractNameFromMrz(nameLine));
      AnalyzePassport([nameLine, mrz]) == Analyzed(if AllPresent(d) then Success else Fail, d)
  {
    var lines := [nameLine, mrz];
    assert lines[|lines| - 1] == mrz && lines[|lines| - 2] == nameLine;
    assert NameOf(lines) == ExtractNameFromMrz(nameLine);
    AnalyzedFields(lines, mrz, ExtractNameFromMrz(nameLine));
  }

  lemma AnalyzedFields(lines: seq<string>, mrz: string, name: Option<string>)
    requires lines != [] && lines[|lines| - 1] == mrz && mrz != [] && NameOf(lines) == name
    ensures var d := RequiredFields(ExtractMrzFields(mrz), name);
      AnalyzePassport(lines) == Analyzed(if AllPresent(d) then Success else Fail, d)
  {
  }

  /** The response fields of the specimen code line. */
  lemma SpecimenRequired(mrz: string, name: Option<string>)
    requires mrz == SpecimenMrz
    ensures RequiredFields(ExtractMrzFields(mrz), name)
            == PassportData(Some("L898902C3"), Some(Decoded("12 Aug 1974")),
                            Some(Decoded("15 Apr 2012")), Some("ZE184226B<"), name)
  {
    SpecimenFields(mrz);
    var f := ExtractMrzFields(mrz);
    SpecimenBirthDate(f.birthDate);
    SpecimenExpiryDate(f.expirationDate);
}
}
