/** Birth-registration extraction (`/detect-birthno`): find the 17-digit
    registration number, pick the line that holds the date of birth, clean and
    strictly parse that date, and compare its year with the first four digits
    of the registration number. */
module BirthRegistration {
  import opened Text
  import opened Dates

  const RegNoLength: nat := 17
  const InWordMarker: string := "In Word:"
  const DobLabel: string := "Date of Birth:"
  const DobPlaceholder: string := "DOB not found"

  /** The outcome of the extraction. `NotFound` and `InvalidDate` are the two
      hard failures; otherwise the registration number and the canonical date
      are reported together with whether the year matches. */
  datatype Outcome =
    | NotFound
    | InvalidDate
    | Checked(birthRegistrationNumber: string, dateOfBirth: string, yearMatches: bool)

  // ------------------------------------------------ the registration number

  /** `\b\d{17}\b` matches at `i`: seventeen digits with no word character
      immediately before or after them. */
  predicate RegNoAt(s: string, i: nat) {
    && i + RegNoLength <= |s|
    && AllDigits(s[i..i + RegNoLength])
    && (i == 0 || !IsWordChar(s[i - 1]))
    && (i + RegNoLength == |s| || !IsWordChar(s[i + RegNoLength]))
  }

  /** The leftmost match at or after `from`. */
  function FirstRegNoFrom(s: string, from: nat): (r: Option<nat>)
    ensures r.Some? ==> from <= r.value && RegNoAt(s, r.value)
    ensures r.Some? ==> forall j :: from <= j < r.value ==> !RegNoAt(s, j)
    ensures r.None? ==> forall j :: from <= j ==> !RegNoAt(s, j)
    decreases |s| - from
  {
    if from + RegNoLength > |s| then None
    else if RegNoAt(s, from) then Some(from)
    else FirstRegNoFrom(s, from + 1)
  }

  /** `s.match(/\b\d{17}\b/)[0]`, or None when the regex does not match. */
  function RegNoIn(s: string): (r: Option<string>)
    ensures r.Some? ==> |r.value| == RegNoLength && AllDigits(r.value)
  {
    match FirstRegNoFrom(s, 0)
    case None => None
    case Some(i) => Some(s[i..i + RegNoLength])
  }

  /** A run of more than seventeen digits holds no registration number. */
  lemma LongerRunDoesNotQualify(s: string)
    requires |s| > RegNoLength && AllDigits(s)
    ensures RegNoIn(s).None?
  {
    forall j: nat ensures !RegNoAt(s, j) {
      if j + RegNoLength <= |s| {
        if j == 0 {
          assert IsDigit(s[RegNoLength]);
        } else {
          assert IsDigit(s[j - 1]);
        }
      }
    }
  }

  /** The index of the first line at or after `k` holding a registration
      number: `lineBlocks.find(...)`. */
  function FirstRegNoLine(lines: seq<string>, k: nat): (r: Option<nat>)
    ensures r.Some? ==> k <= r.value < |lines| && RegNoIn(lines[r.value]).Some?
    ensures r.Some? ==> forall j :: k <= j < r.value ==> RegNoIn(lines[j]).None?
    ensures r.None? ==> forall j :: k <= j < |lines| ==> RegNoIn(lines[j]).None?
    decreases |lines| - k
  {
    if k >= |lines| then None
    else if RegNoIn(lines[k]).Some? then Some(k)
    else FirstRegNoLine(lines, k + 1)
  }

  // ------------------------------------------ choosing the date-of-birth text

  predicate IsDobCandidate(text: string, prefix: string, regNo: string) {
    Contains(text, prefix) && !Contains(text, regNo)
  }

  /** `lineBlocks.filter(...)`: the lines that contain the year prefix but not
      the whole registration number, in order. */
  function MatchingBlocks(lines: seq<string>, prefix: string, regNo: string): (r: seq<string>)
    ensures forall t :: t in r ==> t in lines && IsDobCandidate(t, prefix, regNo)
    ensures r == [] <==> forall i :: 0 <= i < |lines| ==> !IsDobCandidate(lines[i], prefix, regNo)
  {
    if lines == [] then []
    else
      var rest := MatchingBlocks(lines[1..], prefix, regNo);
      assert forall i :: 1 <= i < |lines| ==> lines[i] == lines[1..][i - 1];
      if IsDobCandidate(lines[0], prefix, regNo) then [lines[0]] + rest else rest
  }

  /** The first kept line is the first candidate line. */
  lemma {:induction false} FirstMatchingBlock(lines: seq<string>, prefix: string, regNo: string, i: nat)
    requires i < |lines| && IsDobCandidate(lines[i], prefix, regNo)
    requires forall j :: 0 <= j < i ==> !IsDobCandidate(lines[j], prefix, regNo)
    ensures MatchingBlocks(lines, prefix, regNo) != []
    ensures MatchingBlocks(lines, prefix, regNo)[0] == lines[i]
  {
    if i > 0 {
      assert forall j :: 0 <= j < i - 1 ==> lines[1..][j] == lines[j + 1];
      FirstMatchingBlock(lines[1..], prefix, regNo, i - 1);
    }
  }

  /** `lineBlocks.findIndex(...)` for the first line containing "In Word:". */
  function InWordIndex(lines: seq<string>, k: nat): (r: Option<nat>)
    ensures r.Some? ==> k <= r.value < |lines| && Contains(lines[r.value], InWordMarker)
    ensures r.Some? ==> forall j :: k <= j < r.value ==> !Contains(lines[j], InWordMarker)
    ensures r.None? ==> forall j :: k <= j < |lines| ==> !Contains(lines[j], InWordMarker)
    decreases |lines| - k
  {
    if k >= |lines| then None
    else if Contains(lines[k], InWordMarker) then Some(k)
    else InWordIndex(lines, k + 1)
  }

  /** The text of the line after the first "In Word:" line, when there is one. */
  function NextBlockText(lines: seq<string>): Option<string> {
    var w := InWordIndex(lines, 0);
    if w.Some? && w.value < |lines| - 1 then Some(lines[w.value + 1]) else None
  }

  /** `matchingBlocks?.[0]?.Text || nextBlock?.Text || "DOB not found"`: an
      empty text counts as absent. */
  function RawDob(lines: seq<string>, prefix: string, regNo: string): string {
    var matching := MatchingBlocks(lines, prefix, regNo);
    var next := NextBlockText(lines);
    // A candidate holds the non-empty prefix, so `matching[0] != ""` only
    // mirrors the `||`; the empty test matters for the next line alone.
    if matching != [] && matching[0] != "" then matching[0]
    else if next.Some? && next.value != "" then next.value
    else DobPlaceholder
  }

  // ---------------------------------------------------------- cleaning

  /** The end of the run of word characters that starts at `from`. */
  function WordEnd(s: string, from: nat): (e: nat)
    requires from <= |s|
    ensures from <= e <= |s| && (e < |s| ==> !IsWordChar(s[e]))
    ensures forall k :: from <= k < e ==> IsWordChar(s[k])
    decreases |s| - from
  {
    if from < |s| && IsWordChar(s[from]) then WordEnd(s, from + 1) else from
  }

  predicate IsOrdinalSuffix(x: string) {
    var l := Lower(x);
    l == "st" || l == "nd" || l == "rd" || l == "th"
  }

  /** A whole word of the shape `\d+(st|nd|rd|th)`, letters in any case. */
  predicate IsOrdinalWord(w: string) {
    |w| >= 3 && AllDigits(w[..|w| - 2]) && IsOrdinalSuffix(w[|w| - 2..])
  }

  /** `s.replace(/\b(\d+)(st|nd|rd|th)\b/gi, "$1")`. A match must start where
      a word starts and end where it ends, so the replacement drops the two
      suffix letters of every word that is digits followed by an ordinal suffix. */
  function RemoveOrdinals(s: string): (r: string)
    ensures |r| <= |s|
    decreases |s|
  {
    if s == [] then []
    else if !IsWordChar(s[0]) then [s[0]] + RemoveOrdinals(s[1..])
    else
      var e := WordEnd(s, 0);
      var w := s[..e];
      (if IsOrdinalWord(w) then w[..|w| - 2] else w) + RemoveOrdinals(s[e..])
  }

  predicate HasLetter(s: string) {
    exists i :: 0 <= i < |s| && (('a' <= s[i] <= 'z') || ('A' <= s[i] <= 'Z'))
  }

  /** An ordinal word holds a digit and a letter, so a text without digits
      or without letters is left unchanged. */
  lemma {:induction false} RemoveOrdinalsUnchanged(s: string)
    requires !HasDigit(s) || !HasLetter(s)
    ensures RemoveOrdinals(s) == s
    decreases |s|
  {
    if s != [] {
      if IsWordChar(s[0]) {
        var e := WordEnd(s, 0);
        NoOrdinalAtStart(s, e);
        RemoveOrdinalsUnchanged(s[e..]);
        assert s == s[..e] + s[e..];
      } else {
        SuffixClasses(s, 1);
        RemoveOrdinalsUnchanged(s[1..]);
        assert s == [s[0]] + s[1..];
      }
    }
  }

  /** The first word of a text without digits or without letters is not an
      ordinal word, and the rest of the text still lacks one of the two. */
  lemma NoOrdinalAtStart(s: string, e: nat)
    requires e <= |s| && (!HasDigit(s) || !HasLetter(s))
    ensures !IsOrdinalWord(s[..e])
    ensures !HasDigit(s[e..]) || !HasLetter(s[e..])
  {
    OrdinalWordShape(s[..e]);
    PrefixClasses(s, e);
    SuffixClasses(s, e);
  }

  /** An ordinal word holds a digit and a letter. */
  lemma OrdinalWordShape(w: string)
    ensures IsOrdinalWord(w) ==> HasDigit(w) && HasLetter(w)
  {
    if IsOrdinalWord(w) {
      var x := w[|w| - 2..];
      assert w[..|w| - 2][0] == w[0];
      LowerAt(x, 0);
      assert x[0] == w[|w| - 2];
    }
  }

  /** Cleaning works word by word: a word standing between non-word
      characters (or the ends of the text) loses its last two letters exactly
      when it is an ordinal word, and the text on either side is cleaned on
      its own. */
  lemma RemoveOrdinalsAround(a: string, w: string, b: string)
    requires a == [] || !IsWordChar(a[|a| - 1])
    requires w != [] && forall k :: 0 <= k < |w| ==> IsWordChar(w[k])
    requires b == [] || !IsWordChar(b[0])
    ensures RemoveOrdinals(a + w + b)
         == RemoveOrdinals(a) + (if IsOrdinalWord(w) then w[..|w| - 2] else w) + RemoveOrdinals(b)
  {
    var kept := if IsOrdinalWord(w) then w[..|w| - 2] else w;
    assert a + w + b == a + (w + b);
    RemoveOrdinalsAfterBoundary(a, w + b);
    RemoveOrdinalsWordFirst(w, b);
    Regroup(RemoveOrdinals(a + w + b), RemoveOrdinals(a), RemoveOrdinals(w + b),
            kept, RemoveOrdinals(b), RemoveOrdinals(a) + kept);
  }

  /** A text that is empty or ends in a non-word character is cleaned apart
      from whatever follows it. */
  lemma {:induction false} RemoveOrdinalsAfterBoundary(a: string, t: string)
    requires a == [] || !IsWordChar(a[|a| - 1])
    ensures RemoveOrdinals(a + t) == RemoveOrdinals(a) + RemoveOrdinals(t)
    decreases |a|
  {
    if a == [] {
      assert a + t == t;
    } else if !IsWordChar(a[0]) {
      assert a[1..] == [] || a[1..][|a[1..]| - 1] == a[|a| - 1];
      RemoveOrdinalsAfterBoundary(a[1..], t);
      NonWordStep(a, t);
    } else {
      var e := FirstWordEnd(a);
      RemoveOrdinalsAfterBoundary(a[e..], t);
      WordStep(a, t, e);
    }
  }

  /** The inductive step of `RemoveOrdinalsAfterBoundary` past a non-word character. */
  lemma NonWordStep(a: string, t: string)
    requires a != [] && !IsWordChar(a[0])
    requires RemoveOrdinals(a[1..] + t) == RemoveOrdinals(a[1..]) + RemoveOrdinals(t)
    ensures RemoveOrdinals(a + t) == RemoveOrdinals(a) + RemoveOrdinals(t)
  {
    var u := a + t;
    assert u[0] == a[0] && u[1..] == a[1..] + t;
    assert RemoveOrdinals(u) == [a[0]] + RemoveOrdinals(a[1..] + t);
    Regroup(RemoveOrdinals(u), [a[0]], RemoveOrdinals(a[1..] + t),
            RemoveOrdinals(a[1..]), RemoveOrdinals(t), RemoveOrdinals(a));
  }

  /** The inductive step of `RemoveOrdinalsAfterBoundary` past the first word. */
  lemma WordStep(a: string, t: string, e: nat)
    requires a != [] && IsWordChar(a[0]) && !IsWordChar(a[|a| - 1]) && e == WordEnd(a, 0)
    requires RemoveOrdinals(a[e..] + t) == RemoveOrdinals(a[e..]) + RemoveOrdinals(t)
    ensures RemoveOrdinals(a + t) == RemoveOrdinals(a) + RemoveOrdinals(t)
  {
    var kept := if IsOrdinalWord(a[..e]) then a[..e][..e - 2] else a[..e];
    FirstWordOfAppend(a, t, e);
    FirstWordUnfold(a, e);
    Regroup(RemoveOrdinals(a + t), kept, RemoveOrdinals(a[e..] + t),
            RemoveOrdinals(a[e..]), RemoveOrdinals(t), RemoveOrdinals(a));
  }

  /** `whole == k + rest`, `rest == c + d` and `left == k + c` give `whole == left + d`. */
  lemma Regroup(whole: string, k: string, rest: string, c: string, d: string, left: string)
    requires whole == k + rest && rest == c + d && left == k + c
    ensures whole == left + d
  {
  }

  /** A text starting with a word character is cleaned first word first. */
  lemma FirstWordUnfold(s: string, e: nat)
    requires s != [] && IsWordChar(s[0]) && e == WordEnd(s, 0)
    ensures RemoveOrdinals(s)
         == (if IsOrdinalWord(s[..e]) then s[..e][..e - 2] else s[..e]) + RemoveOrdinals(s[e..])
  {
  }

  /** The first word of `a` is cleaned the same whatever follows `a`. */
  lemma FirstWordOfAppend(a: string, t: string, e: nat)
    requires a != [] && IsWordChar(a[0]) && !IsWordChar(a[|a| - 1]) && e == WordEnd(a, 0)
    ensures RemoveOrdinals(a + t)
         == (if IsOrdinalWord(a[..e]) then a[..e][..e - 2] else a[..e]) + RemoveOrdinals(a[e..] + t)
  {
    var u := a + t;
    WordEndBeforeBoundary(a, t, 0);
    assert u[0] == a[0];
    assert u[..e] == a[..e] && u[e..] == a[e..] + t;
  }

  /** The first word of a text that starts with a word character and ends
      with another character ends inside the text. */
  lemma FirstWordEnd(a: string) returns (e: nat)
    requires a != [] && IsWordChar(a[0]) && !IsWordChar(a[|a| - 1])
    ensures e == WordEnd(a, 0) && 0 < e < |a| && !IsWordChar(a[e..][|a[e..]| - 1])
  {
    e := WordEnd(a, 0);
    WordEndBeforeBoundary(a, [], 0);
    assert a + [] == a;
    assert a[e..][|a[e..]| - 1] == a[|a| - 1];
  }

  /** A word run that stops inside `a` stops at the same place whatever follows `a`. */
  lemma {:induction false} WordEndBeforeBoundary(a: string, t: string, from: nat)
    requires from < |a| && !IsWordChar(a[|a| - 1])
    ensures WordEnd(a + t, from) == WordEnd(a, from) < |a|
    decreases |a| - from
  {
    assert (a + t)[from] == a[from];
    if IsWordChar(a[from]) {
      WordEndBeforeBoundary(a, t, from + 1);
    }
  }

  /** A run of word characters followed by a non-word character or the end is one word. */
  lemma {:induction false} WordEndOfRun(w: string, b: string, from: nat)
    requires from <= |w| && forall k :: 0 <= k < |w| ==> IsWordChar(w[k])
    requires b == [] || !IsWordChar(b[0])
    ensures WordEnd(w + b, from) == |w|
    decreases |w| - from
  {
    if from < |w| {
      assert (w + b)[from] == w[from];
      WordEndOfRun(w, b, from + 1);
    } else if b != [] {
      assert (w + b)[from] == b[0];
    }
  }

  /** A text that starts with a whole word is cleaned word first. */
  lemma RemoveOrdinalsWordFirst(w: string, b: string)
    requires w != [] && forall k :: 0 <= k < |w| ==> IsWordChar(w[k])
    requires b == [] || !IsWordChar(b[0])
    ensures RemoveOrdinals(w + b) == (if IsOrdinalWord(w) then w[..|w| - 2] else w) + RemoveOrdinals(b)
  {
    WordEndOfRun(w, b, 0);
    assert (w + b)[0] == w[0];
    assert (w + b)[..|w|] == w && (w + b)[|w|..] == b;
  }

  /** Cleaning keeps every digit, in order: only suffix letters are removed. */
  lemma {:induction false} RemoveOrdinalsKeepsDigits(s: string)
    ensures DigitsOnly(RemoveOrdinals(s)) == DigitsOnly(s)
    decreases |s|
  {
    if s != [] {
      if !IsWordChar(s[0]) {
        RemoveOrdinalsKeepsDigits(s[1..]);
        KeepsDigitsPastNonWord(s);
      } else {
        var e := WordEnd(s, 0);
        RemoveOrdinalsKeepsDigits(s[e..]);
        KeepsDigitsPastWord(s, e);
      }
    }
  }

  /** The inductive step of `RemoveOrdinalsKeepsDigits` past a non-word character. */
  lemma KeepsDigitsPastNonWord(s: string)
    requires s != [] && !IsWordChar(s[0])
    requires DigitsOnly(RemoveOrdinals(s[1..])) == DigitsOnly(s[1..])
    ensures DigitsOnly(RemoveOrdinals(s)) == DigitsOnly(s)
  {
    DigitsOnlyAppend([s[0]], RemoveOrdinals(s[1..]));
    DigitsOnlyAppend([s[0]], s[1..]);
    assert s == [s[0]] + s[1..];
  }

  /** The inductive step of `RemoveOrdinalsKeepsDigits` past the first word. */
  lemma KeepsDigitsPastWord(s: string, e: nat)
    requires s != [] && IsWordChar(s[0]) && e == WordEnd(s, 0)
    requires DigitsOnly(RemoveOrdinals(s[e..])) == DigitsOnly(s[e..])
    ensures DigitsOnly(RemoveOrdinals(s)) == DigitsOnly(s)
  {
    var w := s[..e];
    var kept := if IsOrdinalWord(w) then w[..|w| - 2] else w;
    FirstWordUnfold(s, e);
    OrdinalKeepsDigits(w);
    assert s == w + s[e..];
    DigitsOfParts(RemoveOrdinals(s), kept, RemoveOrdinals(s[e..]), s, w, s[e..]);
  }

  /** Two texts made of parts with the same digits have the same digits. */
  lemma DigitsOfParts(x: string, x1: string, x2: string, y: string, y1: string, y2: string)
    requires x == x1 + x2 && y == y1 + y2
    requires DigitsOnly(x1) == DigitsOnly(y1) && DigitsOnly(x2) == DigitsOnly(y2)
    ensures DigitsOnly(x) == DigitsOnly(y)
  {
    DigitsOnlyAppend(x1, x2);
    DigitsOnlyAppend(y1, y2);
  }

  /** The two suffix letters of an ordinal word are not digits. */
  lemma OrdinalKeepsDigits(w: string)
    ensures IsOrdinalWord(w) ==> DigitsOnly(w[..|w| - 2]) == DigitsOnly(w)
  {
    if IsOrdinalWord(w) {
      var n := |w|;
      var x := w[n - 2..];
      LowerAt(x, 0);
      LowerAt(x, 1);
      assert !IsDigit(x[0]) && !IsDigit(x[1]);
      assert DigitsOnly(x) == [] by {
        assert x[1..][0] == x[1] && x[1..][1..] == [];
      }
      DigitsOnlyAppend(w[..n - 2], x);
      assert w == w[..n - 2] + x;
    }
  }

  /** What a prefix holds, the whole text holds. */
  lemma PrefixClasses(s: string, e: nat)
    requires e <= |s|
    ensures HasDigit(s[..e]) ==> HasDigit(s)
    ensures HasLetter(s[..e]) ==> HasLetter(s)
  {
    if HasDigit(s[..e]) {
      var i :| 0 <= i < e && IsDigit(s[..e][i]);
      assert IsDigit(s[i]);
    }
    if HasLetter(s[..e]) {
      var i :| 0 <= i < e && (('a' <= s[..e][i] <= 'z') || ('A' <= s[..e][i] <= 'Z'));
      assert s[..e][i] == s[i];
    }
  }

  /** What a suffix holds, the whole text holds. */
  lemma SuffixClasses(s: string, e: nat)
    requires e <= |s|
    ensures HasDigit(s[e..]) ==> HasDigit(s)
    ensures HasLetter(s[e..]) ==> HasLetter(s)
  {
    if HasDigit(s[e..]) {
      var i :| 0 <= i < |s| - e && IsDigit(s[e..][i]);
      assert IsDigit(s[e + i]);
    }
    if HasLetter(s[e..]) {
      var i :| 0 <= i < |s| - e && (('a' <= s[e..][i] <= 'z') || ('A' <= s[e..][i] <= 'Z'));
      assert s[e..][i] == s[e + i];
    }
  }

  /** Cleaning: the first case-insensitive "Date of Birth:" with the whitespace
      after it is removed, the text trimmed, and ordinal suffixes dropped. */
  function CleanDob(raw: string): string {
    RemoveOrdinals(Trim(RemoveLabel(raw, DobLabel, false)))
  }

  // ---------------------------------------------------------- the outcome

  /** The extraction as a function of the lines, step by step. */
  function Extract(lines: seq<string>): (r: Outcome)
    ensures r == NotFound <==> forall i :: 0 <= i < |lines| ==> RegNoIn(lines[i]).None?
  {
    match FirstRegNoLine(lines, 0)
    case None => NotFound
    case Some(k) =>
      var regNo := RegNoIn(lines[k]).value;
      Judge(regNo, CleanDob(RawDob(lines, regNo[..4], regNo)))
  }

  /** The verdict on a cleaned date-of-birth text for a given registration number. */
  function Judge(regNo: string, cleaned: string): (r: Outcome)
    requires |regNo| >= 4
    ensures r != NotFound
    ensures r == InvalidDate <==> ParseDob(cleaned).None?
  {
    match ParseDob(cleaned)
    case None => InvalidDate
    case Some(d) => Checked(regNo, FormatIso(d), YearText(d) == regNo[..4])
  }

  /** The handler body: the registration number is looked up first; the
      date-of-birth text is then chosen, cleaned and parsed in place. */
  method DetectBirthNo(lines: seq<string>) returns (r: Outcome)
    ensures r == Extract(lines)
  {
    var birthRegNoLine := FirstRegNoLine(lines, 0);
    if birthRegNoLine.None? {
      return NotFound;
    }
    var birthRegistrationNumber := RegNoIn(lines[birthRegNoLine.value]).value;
    var firstFourDigits := birthRegistrationNumber[..4];
    var dob := ChooseDob(lines, firstFourDigits, birthRegistrationNumber);
    dob := Trim(RemoveLabel(dob, DobLabel, false));
    dob := RemoveOrdinals(dob);
    assert Extract(lines) == Judge(birthRegistrationNumber, dob);

    var parsedDate := ParseDob(dob);
    if parsedDate.None? {
      return InvalidDate;
    }
    var dateOfBirth := FormatIso(parsedDate.value);
    var dobYear := YearText(parsedDate.value);
    r := Checked(birthRegistrationNumber, dateOfBirth, dobYear == firstFourDigits);
  }

  /** The date-of-birth text before cleaning: the first line holding the
      prefix but not the number, else the line after the first "In Word:"
      line, else the placeholder; an empty text counts as absent. */
  method ChooseDob(lines: seq<string>, firstFourDigits: string, birthRegistrationNumber: string)
    returns (dob: string)
    ensures dob == RawDob(lines, firstFourDigits, birthRegistrationNumber)
  {
    var matchingBlocks := MatchingBlocks(lines, firstFourDigits, birthRegistrationNumber);
    var inWordIndex := InWordIndex(lines, 0);
    var nextBlock: Option<string> := None;
    if inWordIndex.Some? && inWordIndex.value < |lines| - 1 {
      nextBlock := Some(lines[inWordIndex.value + 1]);
    }
    // As in RawDob: the first test on "" never fails, it mirrors the `||`.
    dob := if matchingBlocks != [] && matchingBlocks[0] != "" then matchingBlocks[0]
           else if nextBlock.Some? && nextBlock.value != "" then nextBlock.value
           else DobPlaceholder;
  }

  // ---------------------------------------------------------- properties

  /** The reported number is the first match on the first line that has one. */
  lemma FirstLineRegNo(lines: seq<string>, k: nat)
    requires k < |lines| && RegNoIn(lines[k]).Some?
    requires forall j :: 0 <= j < k ==> RegNoIn(lines[j]).None?
    ensures Extract(lines) != NotFound
    ensures Extract(lines).Checked? ==> Extract(lines).birthRegistrationNumber == RegNoIn(lines[k]).value
  {
    assert FirstRegNoLine(lines, 0) == Some(k);
  }

  /** A reported date is a seventeen-digit number and a canonical date, and the
      year matches exactly when the date's year has four digits that equal
      the first four digits of the number. */
  lemma CheckedReport(lines: seq<string>)
    requires Extract(lines).Checked?
    ensures var r := Extract(lines);
      && |r.birthRegistrationNumber| == RegNoLength && AllDigits(r.birthRegistrationNumber)
      && ParseDob(r.dateOfBirth).Some?
      && FormatIso(ParseDob(r.dateOfBirth).value) == r.dateOfBirth
    ensures var r := Extract(lines);
      && |r.dateOfBirth| == 10 && AllDigits(r.dateOfBirth[..4])
      && (r.yearMatches <==> DigitsToNat(r.dateOfBirth[..4]) >= 1000
                             && r.dateOfBirth[..4] == r.birthRegistrationNumber[..4])
  {
    var k := FirstRegNoLine(lines, 0).value;
    var regNo := RegNoIn(lines[k]).value;
    JudgeReport(regNo, CleanDob(RawDob(lines, regNo[..4], regNo)));
  }

  lemma JudgeReport(regNo: string, cleaned: string)
    requires |regNo| >= 4 && Judge(regNo, cleaned).Checked?
    ensures var r := Judge(regNo, cleaned);
      && r.birthRegistrationNumber == regNo
      && ParseDob(r.dateOfBirth).Some?
      && FormatIso(ParseDob(r.dateOfBirth).value) == r.dateOfBirth
    ensures var r := Judge(regNo, cleaned);
      && |r.dateOfBirth| == 10 && AllDigits(r.dateOfBirth[..4])
      && (r.yearMatches <==> DigitsToNat(r.dateOfBirth[..4]) >= 1000
                             && r.dateOfBirth[..4] == regNo[..4])
  {
    var d := ParseDob(cleaned).value;
    ParseFormatRoundTrip(d);
    YearTextPrefix(d);
  }

  /** The first line that holds the year prefix but not the whole number is
      the date-of-birth text; such a line is never empty. */
  lemma DobFromFirstCandidate(lines: seq<string>, prefix: string, regNo: string, i: nat)
    requires prefix != []
    requires i < |lines| && IsDobCandidate(lines[i], prefix, regNo)
    requires forall j :: 0 <= j < i ==> !IsDobCandidate(lines[j], prefix, regNo)
    ensures RawDob(lines, prefix, regNo) == lines[i]
  {
    FirstMatchingBlock(lines, prefix, regNo, i);
    assert lines[i] != "" by { ContainsIff(lines[i], prefix); }
  }

  /** Without a candidate line, the line after the first "In Word:" line is
      the date-of-birth text; an empty line there counts as absent and the
      placeholder is used. */
  lemma DobAfterInWord(lines: seq<string>, prefix: string, regNo: string, w: nat)
    requires forall i :: 0 <= i < |lines| ==> !IsDobCandidate(lines[i], prefix, regNo)
    requires w + 1 < |lines| && Contains(lines[w], InWordMarker)
    requires forall j :: 0 <= j < w ==> !Contains(lines[j], InWordMarker)
    ensures lines[w + 1] != "" ==> RawDob(lines, prefix, regNo) == lines[w + 1]
    ensures lines[w + 1] == "" ==> RawDob(lines, prefix, regNo) == DobPlaceholder
  {
    assert InWordIndex(lines, 0) == Some(w);
  }

  /** The line after the first "In Word:" line, when there is one, is empty. */
  predicate NoFallbackText(lines: seq<string>) {
    forall w ::
      (0 <= w < |lines| - 1 && Contains(lines[w], InWordMarker)
       && forall j :: 0 <= j < w ==> !Contains(lines[j], InWordMarker))
      ==> lines[w + 1] == ""
  }

  /** The placeholder holds no digit, so cleaning leaves it without one. */
  lemma CleanDigitless(raw: string)
    requires !HasDigit(raw)
    ensures ParseDob(CleanDob(raw)).None?
  {
    RemoveLabelDigitless(raw, DobLabel, false);
    var t := Trim(RemoveLabel(raw, DobLabel, false));
    TrimDigitless(RemoveLabel(raw, DobLabel, false));
    RemoveOrdinalsUnchanged(t);
    DigitlessNeverParses(t);
  }

  /** With neither a candidate line nor a non-empty line after the first
      "In Word:" line, the placeholder is parsed, and the date is invalid. */
  lemma NoDobTextIsInvalid(lines: seq<string>, k: nat)
    requires k < |lines| && RegNoIn(lines[k]).Some?
    requires forall j :: 0 <= j < k ==> RegNoIn(lines[j]).None?
    requires var regNo := RegNoIn(lines[k]).value;
      forall i :: 0 <= i < |lines| ==> !IsDobCandidate(lines[i], regNo[..4], regNo)
    requires NoFallbackText(lines)
    ensures Extract(lines) == InvalidDate
  {
    assert FirstRegNoLine(lines, 0) == Some(k);
    var regNo := RegNoIn(lines[k]).value;
    var w := InWordIndex(lines, 0);
    if w.Some? && w.value < |lines| - 1 {
      assert lines[w.value + 1] == "";
    }
    assert RawDob(lines, regNo[..4], regNo) == DobPlaceholder;
    assert !HasDigit(DobPlaceholder);
    CleanDigitless(DobPlaceholder);
  }

  // ---------------------------------------------------------- examples

  const SampleRegNo: string := "20011234567890123"

  const SampleDob: string := "22-09-2001"

  lemma SampleRegNoLine()
    ensures RegNoIn(SampleRegNo) == Some(SampleRegNo)
  {
    assert SampleRegNo[0..17] == SampleRegNo;
    assert RegNoAt(SampleRegNo, 0);
  }

  /** The number's own line is no candidate; the dashed date line is. */
  lemma SampleCandidates()
    ensures !IsDobCandidate(SampleRegNo, SampleRegNo[..4], SampleRegNo)
    ensures IsDobCandidate(SampleDob, SampleRegNo[..4], SampleRegNo)
  {
    ContainsSlice(SampleRegNo, 0, 17);
    assert SampleRegNo[0..17] == SampleRegNo;
    ContainsIff(SampleDob, SampleRegNo[..4]);
    assert OccursAt(SampleDob, SampleRegNo[..4], 6);
    ContainsIff(SampleDob, SampleRegNo);
  }

  lemma SampleDobShape()
    ensures DashedShape(SampleDob)
    ensures SampleDob[6..] == SampleRegNo[..4]
    ensures ParseDashedDayFirst(SampleDob) == Some(Date(2001, 9, 22))
  {
    assert SampleDob[..2] == "22";
    assert SampleDob[3..5] == "09" by { assert SampleDob[3] == '0' && SampleDob[4] == '9'; }
    assert SampleDob[6..] == "2001";
    assert DigitsToNat("22") == 22 by { assert "22"[..1] == "2"; }
    assert DigitsToNat("09") == 9 by { assert "09"[..1] == "0"; }
    assert DigitsToNat("2001") == 2001 by {
      assert "2001"[..3] == "200" && "200"[..2] == "20" && "20"[..1] == "2";
    }
  }

  /** The number `20011234567890123` with the date line `22-09-2001`: the
      date is reported in canonical form and the year matches. */
  lemma MatchingYearExample()
    ensures Extract([SampleRegNo, SampleDob]) == Checked(SampleRegNo, FormatIso(Date(2001, 9, 22)), true)
  {
    var lines := [SampleRegNo, SampleDob];
    SampleRegNoLine();
    SampleCandidates();
    SampleDobShape();
    DashedYearMatches(lines, 0, 1);
  }

  /** When the first candidate line is a `DD-MM-YYYY` date whose year field is
      the number's prefix, that date is reported and the year matches. */
  lemma DashedYearMatches(lines: seq<string>, k: nat, i: nat)
    requires k < |lines| && RegNoIn(lines[k]).Some?
    requires forall j :: 0 <= j < k ==> RegNoIn(lines[j]).None?
    requires i < |lines| && DashedShape(lines[i]) && ParseDashedDayFirst(lines[i]).Some?
    requires var regNo := RegNoIn(lines[k]).value;
      && IsDobCandidate(lines[i], regNo[..4], regNo)
      && (forall j :: 0 <= j < i ==> !IsDobCandidate(lines[j], regNo[..4], regNo))
      && lines[i][6..] == regNo[..4] && regNo[0] != '0'
    ensures Extract(lines)
         == Checked(RegNoIn(lines[k]).value, FormatIso(ParseDashedDayFirst(lines[i]).value), true)
  {
    var regNo, dob := RegNoIn(lines[k]).value, lines[i];
    assert FirstRegNoLine(lines, 0) == Some(k);
    assert Extract(lines) == Judge(regNo, CleanDob(RawDob(lines, regNo[..4], regNo)));
    DobFromFirstCandidate(lines, regNo[..4], regNo, i);
    DashedIsClean(dob);
    assert dob[6] == regNo[..4][0];
    DashedJudged(regNo, dob);
  }

  /** The layout `DD-MM-YYYY`: two, two and four digits joined by dashes. */
  predicate DashedShape(dob: string) {
    && |dob| == 10 && dob[2] == '-' && dob[5] == '-'
    && AllDigits(dob[..2]) && AllDigits(dob[3..5]) && AllDigits(dob[6..])
  }

  /** A clean dashed date whose year field does not start with zero: the year
      matches exactly when the year field is the number's prefix. */
  lemma DashedJudged(regNo: string, dob: string)
    requires DashedShape(dob)
    requires ParseDashedDayFirst(dob).Some? && dob[6] != '0' && |regNo| >= 4
    ensures Judge(regNo, dob)
         == Checked(regNo, FormatIso(ParseDashedDayFirst(dob).value), dob[6..] == regNo[..4])
  {
    ParseFirstPicksFirst(dob, DobFormats, 0);
    assert dob[6..][0] == dob[6];
    DecimalOfDigits(dob[6..]);
  }

  /** A dashed date is left unchanged by cleaning. */
  lemma DashedIsClean(dob: string)
    requires DashedShape(dob)
    ensures CleanDob(dob) == dob
  {
    forall i | 0 <= i < 10 ensures !(('a' <= dob[i] <= 'z') || ('A' <= dob[i] <= 'Z')) {
      if i < 2 { assert dob[i] == dob[..2][i]; }
      else if 3 <= i < 5 { assert dob[i] == dob[3..5][i - 3]; }
      else if 6 <= i { assert dob[i] == dob[6..][i - 6]; }
    }
    assert dob[0] == dob[..2][0] && dob[9] == dob[6..][3];
    CleanOfLetterless(dob);
  }

  /** A text without letters and without whitespace at its ends is left
      unchanged by cleaning: it cannot hold the label or an ordinal suffix. */
  lemma CleanOfLetterless(s: string)
    requires !HasLetter(s)
    requires s == [] || (!IsSpace(s[0]) && !IsSpace(s[|s| - 1]))
    ensures CleanDob(s) == s
  {
    MarkerNeedsLetters(s, DobLabel);
    TrimNoSpaceEnds(s);
    RemoveOrdinalsUnchanged(s);
  }

  /** A marker that starts with a letter does not occur in a text without
      letters. */
  lemma MarkerNeedsLetters(s: string, marker: string)
    requires !HasLetter(s)
    requires marker != [] && 'A' <= marker[0] <= 'Z'
    ensures MarkerAt(s, marker).None?
  {
    LowerAt(marker, 0);
    forall i: nat ensures !OccursAt(Lower(s), Lower(marker), i) {
      if i + |marker| <= |s| {
        LowerAt(s, i);
        assert Lower(s)[i..i + |marker|][0] == Lower(s)[i];
      }
    }
  }

  /** A needle that starts with a letter does not occur in a text without letters. */
  lemma NeedleNeedsLetter(s: string, t: string)
    requires !HasLetter(s) && t != [] && (('a' <= t[0] <= 'z') || ('A' <= t[0] <= 'Z'))
    ensures !Contains(s, t)
  {
    ContainsIff(s, t);
    forall i: nat | i + |t| <= |s| ensures s[i..i + |t|][0] == s[i] { }
  }

  /** A needle that starts with a digit does not occur in a text without digits. */
  lemma NeedleNeedsDigit(s: string, t: string)
    requires !HasDigit(s) && t != [] && IsDigit(t[0])
    ensures !Contains(s, t)
  {
    ContainsIff(s, t);
    forall i: nat | i + |t| <= |s| ensures s[i..i + |t|][0] == s[i] { }
  }

  const OtherYearDob: string := "22-09-1999"

  lemma OtherYearDobShape()
    ensures DashedShape(OtherYearDob)
    ensures OtherYearDob[6] != '0' && OtherYearDob[6..] != SampleRegNo[..4]
    ensures ParseDashedDayFirst(OtherYearDob) == Some(Date(1999, 9, 22))
  {
    assert OtherYearDob[..2] == "22";
    assert OtherYearDob[3..5] == "09" by { assert OtherYearDob[3] == '0' && OtherYearDob[4] == '9'; }
    assert OtherYearDob[6..] == "1999";
    assert DigitsToNat("22") == 22 by { assert "22"[..1] == "2"; }
    assert DigitsToNat("09") == 9 by { assert "09"[..1] == "0"; }
    assert DigitsToNat("1999") == 1999 by {
      assert "1999"[..3] == "199" && "199"[..2] == "19" && "19"[..1] == "1";
    }
  }

  /** `22-09-1999` does not hold the prefix `2001`. */
  lemma OtherYearNotCandidate()
    ensures !IsDobCandidate(OtherYearDob, SampleRegNo[..4], SampleRegNo)
  {
    var s := OtherYearDob;
    assert SampleRegNo[..4] == "2001";
    assert s[3] == '0' && s[4] == '9' && |s| == 10;
    forall k | 0 <= k && k + 1 < |s| ensures !(s[k] == '0' && s[k + 1] == '1') {
      if k != 3 { assert s[k] != '0'; }
    }
    AbsentWithoutZeroOne(s, "2001");
  }

  /** A text with no `0` directly followed by `1` holds no needle ending in `01`. */
  lemma AbsentWithoutZeroOne(s: string, t: string)
    requires |t| == 4 && t[2] == '0' && t[3] == '1'
    requires forall k :: 0 <= k && k + 1 < |s| ==> !(s[k] == '0' && s[k + 1] == '1')
    ensures !Contains(s, t)
  {
    ContainsIff(s, t);
    forall i: nat ensures !OccursAt(s, t, i) {
      if i + 4 <= |s| {
        assert !(s[i..i + 4][2] == '0' && s[i..i + 4][3] == '1');
      }
    }
  }

  /** The number's line has no "In Word:" marker. */
  lemma SampleRegNoHasNoMarker()
    ensures !Contains(SampleRegNo, InWordMarker)
  {
    assert !HasLetter(SampleRegNo) by {
      forall i | 0 <= i < |SampleRegNo| ensures IsDigit(SampleRegNo[i]) {
        assert SampleRegNo[0..17] == SampleRegNo;
        assert RegNoAt(SampleRegNo, 0) by { SampleRegNoLine(); }
      }
    }
    NeedleNeedsLetter(SampleRegNo, InWordMarker);
  }

  /** The date line is chosen only when it holds the year prefix: with the
      number `20011234567890123` and the lone line `22-09-1999` no
      date-of-birth text is found, and the date is invalid. */
  lemma UnanchoredDateExample()
    ensures Extract([SampleRegNo, OtherYearDob]) == InvalidDate
  {
    var lines := [SampleRegNo, OtherYearDob];
    UnanchoredLines(lines);
    NoDobTextIsInvalid(lines, 0);
  }

  /** The preconditions of `NoDobTextIsInvalid` for the unanchored example. */
  lemma UnanchoredLines(lines: seq<string>)
    requires lines == [SampleRegNo, OtherYearDob]
    ensures RegNoIn(lines[0]) == Some(SampleRegNo)
    ensures forall i :: 0 <= i < |lines| ==> !IsDobCandidate(lines[i], SampleRegNo[..4], SampleRegNo)
    ensures forall j :: 0 <= j < |lines| - 1 ==> !Contains(lines[j], InWordMarker)
  {
    SampleRegNoLine();
    SampleCandidates();
    OtherYearNotCandidate();
    SampleRegNoHasNoMarker();
    forall i | 0 <= i < |lines| ensures !IsDobCandidate(lines[i], SampleRegNo[..4], SampleRegNo) {
      if i == 0 { assert lines[i] == SampleRegNo; } else { assert lines[i] == OtherYearDob; }
    }
  }

  /** With no line holding the year prefix, the line after "In Word:" is the
      date-of-birth text: `22-09-1999` is reported, and the year does not match
      the number `20011234567890123`. */
  lemma InWordExample()
    ensures Extract([SampleRegNo, InWordMarker, OtherYearDob])
         == Checked(SampleRegNo, FormatIso(Date(1999, 9, 22)), false)
  {
    var lines := [SampleRegNo, InWordMarker, OtherYearDob];
    InWordLines(lines);
    OtherYearDobShape();
    DashedAfterInWord(lines, 0, 1);
  }

  /** The preconditions of `DashedAfterInWord` for the `In Word:` example. */
  lemma InWordLines(lines: seq<string>)
    requires lines == [SampleRegNo, InWordMarker, OtherYearDob]
    ensures RegNoIn(lines[0]) == Some(SampleRegNo)
    ensures FallsBackToInWord(lines, 0, 1) && lines[2] == OtherYearDob
  {
    SampleRegNoLine();
    SampleCandidates();
    OtherYearNotCandidate();
    MarkerLine();
    SampleRegNoHasNoMarker();
    forall i | 0 <= i < |lines| ensures !IsDobCandidate(lines[i], SampleRegNo[..4], SampleRegNo) {
      if i == 0 { assert lines[i] == SampleRegNo; }
      else if i == 1 { assert lines[i] == InWordMarker; }
      else { assert lines[i] == OtherYearDob; }
    }
  }

  /** An "In Word:" line followed by an empty line falls through to the
      placeholder, and the date is invalid. */
  lemma EmptyAfterInWordIsInvalid(lines: seq<string>, k: nat, w: nat)
    requires FallsBackToInWord(lines, k, w) && lines[w + 1] == ""
    ensures Extract(lines) == InvalidDate
  {
    forall v | 0 <= v < |lines| - 1 && Contains(lines[v], InWordMarker)
               && forall j :: 0 <= j < v ==> !Contains(lines[j], InWordMarker)
      ensures lines[v + 1] == ""
    {
      assert v == w;
    }
    NoDobTextIsInvalid(lines, k);
  }

  /** With the number `20011234567890123`, an "In Word:" line and an empty
      line after it, the date is invalid. */
  lemma EmptyAfterInWordExample()
    ensures Extract([SampleRegNo, InWordMarker, ""]) == InvalidDate
  {
    var lines := [SampleRegNo, InWordMarker, ""];
    EmptyAfterLines(lines);
    EmptyAfterInWordIsInvalid(lines, 0, 1);
  }

  /** The preconditions of `EmptyAfterInWordIsInvalid` for its example. */
  lemma EmptyAfterLines(lines: seq<string>)
    requires lines == [SampleRegNo, InWordMarker, ""]
    ensures FallsBackToInWord(lines, 0, 1) && lines[2] == ""
  {
    SampleRegNoLine();
    SampleCandidates();
    MarkerLine();
    SampleRegNoHasNoMarker();
    assert !IsDobCandidate("", SampleRegNo[..4], SampleRegNo) by {
      ContainsIff("", SampleRegNo[..4]);
    }
    forall i | 0 <= i < |lines| ensures !IsDobCandidate(lines[i], SampleRegNo[..4], SampleRegNo) {
      if i == 0 { assert lines[i] == SampleRegNo; }
      else if i == 1 { assert lines[i] == InWordMarker; }
      else { assert lines[i] == ""; }
    }
  }

  /** Line `k` is the first with a registration number, no line is a
      candidate, and line `w` is the first "In Word:" line and not the last. */
  predicate FallsBackToInWord(lines: seq<string>, k: nat, w: nat) {
    && k < |lines| && RegNoIn(lines[k]).Some?
    && (forall j :: 0 <= j < k ==> RegNoIn(lines[j]).None?)
    && (var regNo := RegNoIn(lines[k]).value;
        forall i :: 0 <= i < |lines| ==> !IsDobCandidate(lines[i], regNo[..4], regNo))
    && w + 1 < |lines| && Contains(lines[w], InWordMarker)
    && (forall j :: 0 <= j < w ==> !Contains(lines[j], InWordMarker))
  }

  /** Without a candidate line, a `DD-MM-YYYY` date on the line after the
      first "In Word:" line is reported; the year matches exactly when its
      year field is the number's prefix. */
  lemma DashedAfterInWord(lines: seq<string>, k: nat, w: nat)
    requires FallsBackToInWord(lines, k, w)
    requires var dob := lines[w + 1];
      DashedShape(dob) && ParseDashedDayFirst(dob).Some? && dob[6] != '0'
    ensures var regNo, dob := RegNoIn(lines[k]).value, lines[w + 1];
      Extract(lines) == Checked(regNo, FormatIso(ParseDashedDayFirst(dob).value), dob[6..] == regNo[..4])
  {
    var regNo, dob := RegNoIn(lines[k]).value, lines[w + 1];
    assert FirstRegNoLine(lines, 0) == Some(k);
    assert Extract(lines) == Judge(regNo, CleanDob(RawDob(lines, regNo[..4], regNo)));
    DobAfterInWord(lines, regNo[..4], regNo, w);
    DashedIsClean(dob);
    DashedJudged(regNo, dob);
  }

  /** The marker line holds the marker and no digit, hence no year prefix. */
  lemma MarkerLine()
    ensures Contains(InWordMarker, InWordMarker)
    ensures !IsDobCandidate(InWordMarker, SampleRegNo[..4], SampleRegNo)
  {
    assert !HasDigit(InWordMarker) by {
      forall i | 0 <= i < |InWordMarker| ensures !IsDigit(InWordMarker[i]) { }
    }
    assert SampleRegNo[0] == '2';
    NeedleNeedsDigit(InWordMarker, SampleRegNo[..4]);
    ContainsSlice(InWordMarker, 0, |InWordMarker|);
    assert InWordMarker[0..|InWordMarker|] == InWordMarker;
  }

  const OrdinalSample: string := "1st Jan 2000"
  const OrdinalCleaned: string := "1 Jan 2000"

  /** `1st Jan 2000` is cleaned to `1 Jan 2000`, which the fourth format
      (`D MMM YYYY`) reads as the first of January 2000. */
  lemma OrdinalExample(s: string, t: string)
    requires s == OrdinalSample && t == OrdinalCleaned
    ensures CleanDob(s) == t
    ensures ParseDob(t) == Some(Date(2000, 1, 1))
  {
    assert [s[0]] + s[3..] == t;
    OrdinalCleaning(s);
    DayAbbrevReading(t);
  }

  /** `<digit>st <three letters> <four digits>` is cleaned by dropping `st`. */
  lemma OrdinalCleaning(s: string)
    requires |s| == 12 && IsDigit(s[0]) && s[1] == 's' && s[2] == 't' && s[3] == ' '
    requires IsWordChar(s[4]) && !IsDigit(s[4]) && IsWordChar(s[5]) && IsWordChar(s[6]) && s[7] == ' '
    requires IsDigit(s[8]) && IsDigit(s[9]) && IsDigit(s[10]) && IsDigit(s[11])
    ensures CleanDob(s) == [s[0]] + s[3..]
  {
    ShortTextHasNoLabel(s);
    DigitEndsTrimmed(s);
    OrdinalRemoval(s);
  }

  lemma OrdinalRemoval(s: string)
    requires |s| == 12 && IsDigit(s[0]) && s[1] == 's' && s[2] == 't' && s[3] == ' '
    requires IsWordChar(s[4]) && !IsDigit(s[4]) && IsWordChar(s[5]) && IsWordChar(s[6]) && s[7] == ' '
    requires IsDigit(s[8]) && IsDigit(s[9]) && IsDigit(s[10]) && IsDigit(s[11])
    ensures RemoveOrdinals(s) == [s[0]] + s[3..]
  {
    OrdinalHead(s);
    OrdinalGap(s[3..]);
    assert s[3..][1..] == s[4..];
    OrdinalMonthYear(s[4..]);
    assert [s[3]] + s[4..] == s[3..];
  }

  lemma DigitEndsTrimmed(s: string)
    requires s != [] && IsDigit(s[0]) && IsDigit(s[|s| - 1])
    ensures Trim(s) == s
  {
    TrimNoSpaceEnds(s);
  }

  /** A text shorter than the label does not hold it. */
  lemma ShortTextHasNoLabel(s: string)
    requires |s| < |DobLabel|
    ensures RemoveLabel(s, DobLabel, false) == s
  {
  }

  /** A leading ordinal word `<digit>st` loses its suffix. */
  lemma OrdinalHead(s: string)
    requires |s| >= 4 && IsDigit(s[0]) && s[1] == 's' && s[2] == 't' && !IsWordChar(s[3])
    ensures RemoveOrdinals(s) == [s[0]] + RemoveOrdinals(s[3..])
  {
    var w := s[..3];
    assert WordEnd(s, 3) == 3;
    assert WordEnd(s, 0) == 3;
    assert IsOrdinalWord(w) by {
      assert w[..1][0] == s[0] && w[1..] == ['s', 't'];
      LowerAt(w[1..], 0);
      LowerAt(w[1..], 1);
    }
    assert w[..1] == [s[0]];
  }

  lemma OrdinalGap(s: string)
    requires s != [] && !IsWordChar(s[0])
    ensures RemoveOrdinals(s) == [s[0]] + RemoveOrdinals(s[1..])
  {
  }

  /** A word that starts with a letter followed by a text without letters is
      left alone. */
  lemma OrdinalMonthYear(s: string)
    requires |s| == 8 && IsWordChar(s[0]) && !IsDigit(s[0]) && IsWordChar(s[1]) && IsWordChar(s[2])
    requires s[3] == ' ' && IsDigit(s[4]) && IsDigit(s[5]) && IsDigit(s[6]) && IsDigit(s[7])
    ensures RemoveOrdinals(s) == s
  {
    var t, u := s[..3], s[3..];
    assert WordEnd(s, 3) == 3;
    assert WordEnd(s, 0) == 3;
    assert !IsOrdinalWord(t) by {
      assert t[..1][0] == s[0];
    }
    assert !HasLetter(u) by {
      forall i | 0 <= i < |u| ensures !(('a' <= u[i] <= 'z') || ('A' <= u[i] <= 'Z')) {
        assert u[i] == s[3 + i];
      }
    }
    RemoveOrdinalsUnchanged(u);
    assert s == t + u;
  }

  /** A one-digit day, an abbreviated month name and a four-digit year,
      separated by single spaces, are read by the fourth format. */
  lemma OneDigitDayAbbrev(day: string, month: string, year: string, m: nat)
    requires |day| == 1 && AllDigits(day) && |year| == 4 && AllDigits(year)
    requires month != [] && month[0] != '-' && month[|month| - 1] != ','
    requires forall k :: 0 <= k < |month| ==> month[k] != ' '
    requires MonthOf(month, MonthAbbrevs) == Some(m)
    requires ValidDate(Date(DigitsToNat(year), m, DigitsToNat(day)))
    ensures ParseDob(day + [' '] + month + [' '] + year) == Some(Date(DigitsToNat(year), m, DigitsToNat(day)))
  {
    var s := day + [' '] + month + [' '] + year;
    DigitsHaveNoSpace(day);
    DigitsHaveNoSpace(year);
    SplitThree(day, month, year, ' ');
    OneDigitDayEarlierFormats(s, day, month, year);
    DayAbbrevFields(s, day, month, year, m);
    assert DobFormats[3] == DayAbbrev;
    ParseFirstPicksFirst(s, DobFormats, 3);
  }

  lemma DigitsHaveNoSpace(t: string)
    requires AllDigits(t)
    ensures forall k :: 0 <= k < |t| ==> t[k] != ' '
  {
  }

  /** The fourth format reads the three fields of a split text. */
  lemma DayAbbrevFields(s: string, day: string, month: string, year: string, m: nat)
    requires SplitOn(s, ' ') == [day, month, year]
    requires |day| == 1 && AllDigits(day) && |year| == 4 && AllDigits(year)
    requires MonthOf(month, MonthAbbrevs) == Some(m)
    ensures ParseWith(s, DayAbbrev) == Build(year, m, day)
  {
  }

  /** The first three formats reject a one-digit day followed by a month
      field without a trailing comma. */
  lemma OneDigitDayEarlierFormats(s: string, day: string, month: string, year: string)
    requires |day| == 1 && s == day + [' '] + month + [' '] + year
    requires SplitOn(s, ' ') == [day, month, year]
    requires month != [] && month[0] != '-' && month[|month| - 1] != ','
    ensures forall j :: 0 <= j < 3 ==> ParseWith(s, DobFormats[j]).None?
  {
    assert s[2] == month[0];
    assert ParseDashedDayFirst(s).None?;
    assert ParseNamed(s, false, MonthAbbrevs, true).None?;
    assert ParseNamed(s, true, MonthNames, false).None?;
    FirstThreeRejected(s);
  }

  lemma DayAbbrevReading(s: string)
    requires s == OrdinalCleaned
    ensures ParseDob(s) == Some(Date(2000, 1, 1))
  {
    var day, month, year := s[..1], s[2..5], s[6..];
    assert s == day + [' '] + month + [' '] + year;
    assert day == "1";
    assert AllDigits(day) && DigitsToNat(day) == 1;
    JanFields(month);
    YearFields(year);
    OneDigitDayAbbrev(day, month, year, 1);
  }

  lemma JanFields(month: string)
    requires month == "Jan"
    ensures month != [] && month[0] != '-' && month[|month| - 1] != ','
    ensures forall k :: 0 <= k < |month| ==> month[k] != ' '
    ensures MonthOf(month, MonthAbbrevs) == Some(1)
  {
    assert month == MonthAbbrevs[0];
  }

  lemma YearFields(year: string)
    requires year == "2000"
    ensures |year| == 4 && AllDigits(year) && DigitsToNat(year) == 2000
  {
    FourDigitsValue(year);
  }
}
