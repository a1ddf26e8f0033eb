# Identity-document field extractors

This project models the text-field extractors of an identity-verification
server. The server OCRs an uploaded document. Each extractor then works on the
ordered list of OCR `LINE` texts only and returns structured identity fields.
Four of them are modelled:

- **National ID** (`/detect-text` in `server.js`, and the serverless `index.js`
  handler). One forward pass over the lines keeps overwriting `name`, `dob` and
  `nid`. A line that trims to exactly `Name` (or `Date of Birth`) hands over the
  next line's text verbatim. Any other line containing the anchor gives its own
  text, with the anchor and the colons and whitespace after it removed, then
  trimmed. The national ID is the digits of the last line that holds a digit.
  The status is `success` when any of the three was assigned.
- **Birth registration** (`/detect-birthno`). The extractor takes the first
  word-bounded 17-digit run on the first line that has one. It then chooses the
  date-of-birth text in three steps:
  1. the first line holding the year prefix but not the whole number;
  2. else the line after the first `In Word:` line;
  3. else the placeholder `DOB not found`.

  It removes a `Date of Birth:` label and ordinal suffixes, parses the text
  strictly against five formats in order, renders the date as `YYYY-MM-DD`,
  and compares the printed year with the prefix.
- **Passport MRZ** (`/analyze-passport`). The name is decoded from the
  second-to-last line. The document number, the dates and the personal number
  are cut from the last line at the fixed offsets of the TD3 layout (ICAO Doc
  9303 Part 4, section 4.2.2). `YYMMDD` dates are rendered `D Mon YYYY` with a
  century pivot at 50. The status is `success` when every field, the name
  included, is present.
- **Date re-formatter** `convertDateFormat` (`/porichoy-basic`). It turns
  `D Mon YYYY` into `YYYY-MM-DD`, which undoes the passport date rendering.

Modules:

- `Text` models the JavaScript string primitives the extractors use: `trim`,
  `includes`, `split(" ")`, `split(/\s+/)`, `join("")`, `padStart`,
  `toUpperCase`, `replace` with the label regexes, and number printing.
- `Dates` holds the calendar and the strict five-format parse (the part the
  server delegates to its date library) and the canonical rendering.
- `NidExtraction` and `NidLambda` are the national-ID scan.
- `BirthRegistration` is the birth-registration handler.
- `Passport` is the passport handler and its helpers.
- `Porichoy` is the re-formatter.

The only loop of the core is the `forEach` of `/detect-text`
(`server.js:223-263`). It is the method `NidExtraction.ScanLines`, whose loop
invariants tie every field to the last firing line seen so far; it is proved
against the function `Expected`. `NidExtraction.DetectText` and the index.js
handler `NidLambda.Handler` both call it. `/detect-birthno` has no loop: its
`find`, `filter` and `findIndex` are recursive functions, and
`BirthRegistration.DetectBirthNo` is straight-line code that reassigns `dob`
step by step (`server.js:117-128`). It is proved equal to the function
`Extract`.

The pure helper functions of the source are functions here.

Behaviours of the code worth knowing:

- **Passport status.** The name gates the passport status: `server.js:713-717`
  adds `name` to the response before the `every(v => v !== null)` test, so a
  missing name gives `fail` (`Passport.AnalyzePassport`).
- **Date-of-birth line choice.** `["20011234567890123", "22-09-1999"]` gives
  InvalidDate, because the date line is never chosen: it does not hold the
  prefix `2001`, and there is no `In Word:` line, so the placeholder is parsed
  (`BirthRegistration.UnanchoredDateExample`). A year mismatch is reported
  when the date comes through the `In Word:` fallback
  (`BirthRegistration.InWordExample`).
- **Empty fallback line.** The `||` of `server.js:117` treats an empty text as
  absent, so an `In Word:` line followed by an empty line gives InvalidDate
  (`BirthRegistration.EmptyAfterInWordIsInvalid`).
- **Mismatch reporting.** A year mismatch is answered with status 400 and
  `success: false`, with the same payload as a match (`server.js:153-174`).
  The model reports both as `Checked(number, date, yearMatches)`; the HTTP
  status is not modelled.

## Model

| member | source | states |
|---|---|---|
| Text.Trim | server.js:228 | `trim()`: the result neither starts nor ends with whitespace |
| Text.TrimIsSlice | server.js:120 | the trimmed text is a slice with only whitespace cut off on either side |
| Text.IndexOfFrom | server.js:100-101 | the first occurrence at or after a position, and none before it; None exactly when there is none |
| Text.ContainsIff | server.js:227 | `includes` holds exactly when the needle occurs at some index |
| Text.DigitsOnly | server.js:261 | `replace(/\D/g, "")` leaves only digits, at least one when the text had one and none when it had none |
| Text.RemoveLabel | server.js:238 | without a case-insensitive match the text is unchanged; with one, the text before the match is kept and the result is shorter by at least the marker |
| Text.MarkerAtFirst | server.js:238 | the match is the first case-insensitive occurrence: the text there equals the marker up to ASCII case and no occurrence comes before it; without a match there is no occurrence at all |
| Text.RemoveLabelCut | server.js:238 | with a match, the separator run after it ends at some `j` (separators up to `j`, none at `j`), and the result is the text before the match followed by the text from `j` on |
| Text.RemoveLabelAt | server.js:238 | for any such end `j` of the separator run, the result is the text before the match followed by the text from `j` on |
| Text.SplitOn | server.js:478 | `split(" ")` gives at least one piece, no piece holds the separator, and the first piece is a prefix |
| Text.SplitOnJoin | server.js:478 | joining the pieces of `split(" ")` with the separator gives the text back |
| Text.SplitSpacesConcat | server.js:693-695 | `split(/\s+/).join("")` is the text with its whitespace removed |
| Text.UpperShape | server.js:696 | `toUpperCase` leaves no lower-case ASCII letter, and keeps whitespace and `<` where they were |
| Text.PaddedRoundTrip | server.js:484 | a printed number, zero-padded, reads back as the number |
| Text.DecimalRoundTrip | server.js:151 | a printed number reads back as the number |
| Text.DecimalOfDigits | server.js:630 | printing the value of a digit string without a leading zero gives the string back |
| Text.DigitsInjective | server.js:484 | digit strings of one length are equal exactly when their values are |
| Dates.MonthFrom | server.js:135-137 | the month found matches the name up to case, and no earlier table entry does; None exactly when no entry matches |
| Dates.Build | server.js:143 | a built date is a real calendar day with the given month |
| Dates.ParseWith | server.js:131-141 | a format's reading is a valid calendar date |
| Dates.ParseFirst | server.js:131-143 | the strict parse fails exactly when every format rejects the text, and yields only valid dates |
| Dates.ParseFirstPicksFirst | server.js:131-141 | the first format that accepts the whole text decides the date |
| Dates.NamedFields | server.js:135-137 | an accepted `D MMM YYYY` or `DD MMMM YYYY` text is a one- or two-digit day, a month name equal up to case to the date's month, and a four-digit year with the date's values |
| Dates.FormatIso | server.js:148 | `format("YYYY-MM-DD")`: ten characters, dashes at 4 and 7, digit fields reading back as year, month and day |
| Dates.YearTextPrefix | server.js:151-154 | from year 1000 on the printed year is the first four characters of the rendering; before that it is shorter than four |
| Dates.ParseFormatRoundTrip | server.js:131-148 | the canonical rendering parses back to the same date through the whole format list |
| Dates.NormalizeIdempotent | server.js:131-148 | normalising an accepted text twice gives the date of normalising it once |
| Dates.DigitlessNeverParses | server.js:131-145 | a text without digits is rejected by all five formats |
| BirthRegistration.FirstRegNoFrom | server.js:84 | the leftmost word-bounded 17-digit match at or after a position, none before it, None when there is none |
| BirthRegistration.RegNoIn | server.js:95 | the matched number is 17 digits |
| BirthRegistration.LongerRunDoesNotQualify | server.js:84 | a run of more than 17 digits holds no registration number |
| BirthRegistration.FirstRegNoLine | server.js:85-87 | `find`: the first line holding a number, no earlier line holding one, None when none does |
| BirthRegistration.MatchingBlocks | server.js:98-102 | `filter`: only lines that hold the prefix and not the whole number, empty exactly when no line qualifies |
| BirthRegistration.FirstMatchingBlock | server.js:98-102 | the first kept line is the first qualifying line |
| BirthRegistration.InWordIndex | server.js:109-111 | `findIndex`: the first line containing `In Word:`, None when none does |
| BirthRegistration.RemoveOrdinalsAround | server.js:123-125 | for every text, a word between non-word characters or the ends loses its suffix exactly when it is digits followed by `st`, `nd`, `rd` or `th`, and the text on either side is cleaned on its own |
| BirthRegistration.RemoveOrdinalsKeepsDigits | server.js:123-125 | ordinal removal keeps every digit of every text, in order (`$1` is kept) |
| BirthRegistration.RemoveOrdinalsUnchanged | server.js:123-125 | ordinal removal leaves a text without digits, or without letters, unchanged |
| BirthRegistration.OrdinalWordShape | server.js:124 | an ordinal word holds a digit and a letter |
| BirthRegistration.Extract | server.js:84-107 | the outcome is NotFound exactly when no line holds a registration number |
| BirthRegistration.Judge | server.js:131-175 | a cleaned text is InvalidDate exactly when the strict parse rejects it, and never NotFound |
| BirthRegistration.DetectBirthNo | server.js:82-175 | the step-by-step handler computes `Extract` |
| BirthRegistration.FirstLineRegNo | server.js:85-96 | the reported number is the first match on the first line that has one |
| BirthRegistration.CheckedReport | server.js:143-175 | a report carries a 17-digit number and a canonical ten-character date that parses back to itself; the year matches exactly when the date's year is at least 1000 and its four digits equal the number's first four |
| BirthRegistration.JudgeReport | server.js:143-175 | the same facts for a single cleaned text and number |
| BirthRegistration.DobFromFirstCandidate | server.js:98-117 | the first line with the prefix and not the number is the date-of-birth text |
| BirthRegistration.DobAfterInWord | server.js:109-117 | without such a line, the line after the first `In Word:` line is the date-of-birth text when it is not empty, and the placeholder when it is |
| BirthRegistration.CleanDigitless | server.js:117-145 | a raw text without digits, the placeholder among them, is an invalid date after cleaning |
| BirthRegistration.NoDobTextIsInvalid | server.js:109-145 | with no qualifying line, and no line or only an empty line after the first `In Word:` line, the outcome is InvalidDate |
| BirthRegistration.EmptyAfterInWordIsInvalid | server.js:109-145 | an `In Word:` fallback whose next line is empty falls through to the placeholder and gives InvalidDate |
| BirthRegistration.EmptyAfterInWordExample | server.js:109-145 | `20011234567890123`, `In Word:` and an empty line give InvalidDate |
| BirthRegistration.DashedYearMatches | server.js:98-163 | a first candidate line `DD-MM-YYYY` is reported as the ISO date, and the year matches exactly when its year equals the number's prefix |
| BirthRegistration.DashedJudged | server.js:131-175 | a `DD-MM-YYYY` text is judged by its own year digits |
| BirthRegistration.DashedIsClean | server.js:120-128 | cleaning leaves a `DD-MM-YYYY` text unchanged |
| BirthRegistration.CleanOfLetterless | server.js:120-128 | cleaning leaves a text without letters or surrounding whitespace unchanged |
| BirthRegistration.DashedAfterInWord | server.js:109-175 | a `DD-MM-YYYY` line after an `In Word:` line is reported, with the year compared to the prefix |
| BirthRegistration.MatchingYearExample | server.js:84-163 | `["20011234567890123", "22-09-2001"]` reports `2001-09-22` with a matching year |
| BirthRegistration.UnanchoredDateExample | server.js:98-145 | `["20011234567890123", "22-09-1999"]` is an invalid date: the date line is never chosen |
| BirthRegistration.InWordExample | server.js:109-175 | with an `In Word:` line before `22-09-1999` the date is reported with a year mismatch |
| BirthRegistration.OrdinalExample | server.js:120-141 | `1st Jan 2000` cleans to `1 Jan 2000`, which parses to 1 January 2000 |
| NidExtraction.ScanLines | server.js:223-263 | after the pass every field and its block are those of the last line whose rule fired |
| NidExtraction.DetectText | server.js:213-285 | the endpoint's response is `Expected`: last-match values, success when a block was found |
| NidExtraction.LastSomeIsLast | server.js:223-263 | a chosen entry is present with nothing present after it; nothing is chosen exactly when nothing is present |
| NidExtraction.LastSomeDecides | server.js:223-263 | a present entry with nothing present after it is the one chosen |
| NidExtraction.LastAssignmentIsLast | server.js:223-263 | a field comes from a line whose rule fired with no later line firing, and is null exactly when no line fired |
| NidExtraction.LastLineDecides | server.js:223-263 | a firing line with no later firing line decides the field |
| NidExtraction.NidFromLastDigitLine | server.js:259-262 | the national ID is the digits of the last line holding a digit |
| NidExtraction.NidShape | server.js:259-262 | a national ID is a non-empty digit string, and null exactly when no line holds a digit |
| NidExtraction.StatusIff | server.js:265-285 | success exactly when some field is non-null; a failure carries three nulls |
| NidExtraction.NameFromNextLine | server.js:227-234 | a bare `Name` line hands the next line's text over verbatim |
| NidExtraction.BareAnchorOnLastLine | server.js:228-234 | a bare anchor on the last line assigns nothing |
| NidExtraction.InlineValueOf | server.js:236-238 | `<anchor><colons and spaces><value>` yields the value |
| NidExtraction.InlineValueAt | server.js:236-238 | for every line, wherever the anchor first occurs in any letter case, the value is the trimmed text before the anchor joined to the text after the colons and whitespace that follow it |
| NidExtraction.InlineValueSplit | server.js:236-238 | a line `<text><anchor in any case><colons and spaces><value>` whose first match is the anchor yields the trimmed `<text><value>` |
| NidExtraction.FullNameExample | server.js:224-238 | `Full Name: Alice` gives the name `Full Alice`: the text before the anchor stays in the value |
| NidExtraction.SingleInlineName | server.js:236-238 | a line holding `Name` but more than the bare anchor gives its inline value |
| NidExtraction.NameColonExample | server.js:238 | `Name: Alice` gives `Alice` |
| NidExtraction.EmptyNameExample | server.js:236-266 | `Name:` assigns the empty name, and that alone makes the status success |
| NidExtraction.LastDigitLineExample | server.js:259-262 | `["ID 123", "Ref 456"]` gives the national ID `456` |
| NidLambda.Handler | index.js:46-107 | the handler answers 200 with the body `Expected(lines)` |
| NidLambda.HandlerMatchesServer | index.js:46-110 | the handler's body equals the `/detect-text` response for every list of lines |
| Passport.Substring | server.js:637 | `substring(a, b)` clamps both ends to the length and copies the characters in between |
| Passport.CheckDigitAt | server.js:638 | `parseInt` of one character is a digit value exactly when the character exists and is a digit |
| Passport.ExtractMrzFields | server.js:635-647 | the fields are at most 9, 6, 6 and 14 characters, each non-empty exactly when the line reaches its offset |
| Passport.CenturyYear | server.js:629 | the pivoted year lies in 1950..2049, ends in the two digits, and is 2000 or later exactly below 50 |
| Passport.FormatDate | server.js:611-633 | a field is decoded exactly when it is six digits with a month 01..12; otherwise the raw slice is kept |
| Passport.DecodedFields | server.js:627-632 | a decoded date splits on spaces into the day's value, the month abbreviation and the four-digit pivoted year, each readable back |
| Passport.FormatDateText | server.js:627-632 | the decoded text is the day digits less a leading zero, the abbreviation, and `19` or `20` before the year digits |
| Passport.DayDigits | server.js:631 | a two-digit day printed back loses only its leading zero |
| Passport.CenturyDigits | server.js:629 | the pivoted year prints as `19` or `20` followed by the two year digits |
| Passport.StripPrefix | server.js:692 | the text is unchanged exactly when it does not start with the prefix, and otherwise it is the prefix followed by the result |
| Passport.FillersToSpaces | server.js:692 | every `<` becomes a space and nothing else changes |
| Passport.ExtractNameFromMrz | server.js:689-697 | an empty line gives no name, and a decoded name is never empty |
| Passport.RequiredFields | server.js:649-660 | each field is present exactly when its slice is non-empty, and the name is passed through |
| Passport.AnalyzePassport | server.js:705-724 | no MRZ exactly when there is no last line or it is empty; success exactly when the last line passes offset 28 and a name was decoded |
| Passport.OnlyUsedPositionsMatter | server.js:635-660 | two code lines of one length that agree on the positions the response uses give the same response |
| Passport.NameShape | server.js:689-697 | a decoded name holds no filler, no whitespace and no lower-case letter |
| Passport.CleanHasNoFiller | server.js:692 | the cleaned name line holds no `<` |
| Passport.NameFromFields | server.js:689-697 | `P<BGD<surname><<<given1><<given2>` plus fillers decodes to the given names then the surname, unseparated |
| Passport.NameLineCleaned | server.js:692 | such a line cleans to the coded surname, two spaces, and the given names separated by a space |
| Passport.NameWordsSplit | server.js:693 | that cleaned line splits into the coded surname and the two given names |
| Passport.ThreeWordName | server.js:693-696 | a line cleaning to three words decodes to the second and third words, then the first less `BGD`, upper-cased |
| Passport.SpecimenFields | server.js:635-660 | the specimen code line gives `L898902C3`, `740812`, `120415`, personal number `ZE184226B<`, check digits 6 and 0 |
| Passport.SpecimenBirthDate | server.js:611-633 | `740812` renders as `12 Aug 1974` |
| Passport.SpecimenExpiryDate | server.js:611-633 | `120415` renders as `15 Apr 2012` |
| Passport.MrzDateReads | server.js:627-632 | a date field with a non-zero day tens digit renders as its day digits, the month abbreviation and the pivoted year digits |
| Passport.SpecimenAnalysis | server.js:705-724 | the specimen code line under any decodable name line gives success with every field filled in |
| Porichoy.ConvertDateFormat | server.js:460-485 | a result exists exactly when the text has three space-separated fields and the second is an exact-case month abbreviation |
| Porichoy.MonthKeys | server.js:462-475 | the table's keys are exactly the twelve abbreviations |
| Porichoy.MonthCode | server.js:462-475 | each abbreviation maps to two digits whose value is its month number |
| Porichoy.ConvertFormattedDate | server.js:460-485 | converting a rendered MRZ date gives the pivoted century, the year digits, and the month and day digits as they stood |
| Porichoy.ConvertAgreesWithParse | server.js:460-485 | on a text the strict `D MMM YYYY` parse accepts with an exact-case month, the conversion equals the canonical rendering of the parsed date |
| Porichoy.ConvertedFields | server.js:478-484 | the three converted pieces equal the canonical rendering's fields |
| Porichoy.ConvertThree | server.js:478-484 | three space-free fields with a known month convert field by field |
| Porichoy.DayPadded | server.js:484 | padding a one- or two-digit day keeps its value and gives two digits |
| Porichoy.MonthIndexUnique | server.js:462-475 | no two abbreviations are equal up to case |
| Porichoy.SpecimenBirthConverted | server.js:460-485 | the specimen birth date `12 Aug 1974` converts to `1974-08-12` |
| Porichoy.NoCalendarCheck | server.js:478-484 | `31 Feb 2000` converts to `2000-02-31`: the calendar is not consulted |
| Porichoy.OneDigitDayPadded | server.js:484 | `5 Feb 2000` converts to `2000-02-05` |

## Left out

- HTTP routing, request bodies, response status codes and messages, logging, environment configuration: the model returns tagged results (`Outcome`, `Analysis`, `NidResponse`).
- The AWS calls (S3 uploads, Textract, Rekognition) and the outbound verification requests: every extractor takes the filtered `LINE` texts as a sequence of strings.
- The date library's internals and locales: the five strict formats are written out. The fixed-width fields `DD`, `MM` and `YYYY` must have exactly two, two and four digits, the `D` day has one or two digits, month names match up to ASCII case, and the date must exist in the proleptic Gregorian calendar up to year 9999.
- Dates.ParseNamed: the date library's version is not pinned in the repository. The model assumes that a strict one-or-two-digit day (`D`) accepts a leading zero, so `05 Jan 2000` is read as 5 January 2000 through `D MMM YYYY`. moment releases before 2.30 behave this way. From 2.30 on, strict `D` rejects a leading zero, and such a text falls through to the remaining formats.
- Unicode beyond ASCII: `toUpperCase` and the `i` regex flag are modelled on ASCII letters only. `\d` and `\w` are ASCII by definition. Strings are sequences of characters, not UTF-16 code units.
- Passport.FormatDate: a slice that is not six ASCII digits with a month from 01 to 12 is kept as `Undecodable(raw)`. This replaces the JavaScript's `NaN`/`undefined` text and `parseInt`'s leniency towards trailing non-digits. Such a field still counts as present, as in the source.
- Porichoy.ConvertDateFormat: where the JavaScript would splice `undefined` into its result (fewer than three fields, or an unknown abbreviation) the model returns None. Object-prototype keys such as `constructor` are treated as unknown abbreviations. A non-string date of birth is not modelled.
- MRZ check digits are extracted as optional digit values and never compared with their fields, as in the source.
- Years below 1000: the printed year (`year().toString()`) is unpadded, so such a date never matches a four-digit prefix, even `0999` against year 999; `BirthRegistration.CheckedReport` states this as written.
