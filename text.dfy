/** Character classes and string operations with the meaning JavaScript gives
    them in the extractors: `trim()`, `includes`, `split`, `padStart`, the regex
    classes `\s`, `\d`, `\w`, ASCII case folding under the `i` flag, and decimal
    printing of numbers. Strings are `seq<char>`. */
module Text {

  datatype Option<+T> = None | Some(value: T)

  /** The characters ECMAScript counts as WhiteSpace or LineTerminator: exactly
      what `String.prototype.trim` removes and what the regex class `\s` matches. */
  predicate IsSpace(c: char) {
    c == ' ' || c == '\t' || c == '\n' || c == '\r' || c == '\U{000B}' || c == '\U{000C}'
    || c == '\U{00A0}' || c == '\U{1680}' || ('\U{2000}' <= c <= '\U{200A}')
    || c == '\U{2028}' || c == '\U{2029}' || c == '\U{202F}' || c == '\U{205F}'
    || c == '\U{3000}' || c == '\U{FEFF}'
  }

  /** The regex class `\d` (without the `u` flag it is ASCII only). */
  predicate IsDigit(c: char) { '0' <= c <= '9' }

  /** The regex class `\w`, which decides where `\b` holds. */
  predicate IsWordChar(c: char) {
    IsDigit(c) || ('a' <= c <= 'z') || ('A' <= c <= 'Z') || c == '_'
  }

  predicate AllDigits(s: string) {
    forall i :: 0 <= i < |s| ==> IsDigit(s[i])
  }

  predicate NoSpace(s: string) {
    forall i :: 0 <= i < |s| ==> !IsSpace(s[i])
  }

  function DigitValue(c: char): (v: nat)
    requires IsDigit(c)
    ensures v < 10
  {
    (c as int - '0' as int) as nat
  }

  function DigitChar(v: nat): (c: char)
    requires v < 10
    ensures IsDigit(c) && DigitValue(c) == v
  {
    ('0' as int + v) as char
  }

  /** Case folding of a regex with the `i` flag but not the `u` flag: a
      non-ASCII character never folds onto an ASCII one, so for the ASCII
      patterns of the extractors ASCII folding is the whole story. */
  function ToLower(c: char): char {
    if 'A' <= c <= 'Z' then (c as int + 32) as char else c
  }

  function ToUpper(c: char): char {
    if 'a' <= c <= 'z' then (c as int - 32) as char else c
  }

  function Lower(s: string): (r: string)
    ensures |r| == |s|
  {
    if s == [] then [] else [ToLower(s[0])] + Lower(s[1..])
  }

  /** `toUpperCase()` restricted to ASCII letters. */
  function Upper(s: string): (r: string)
    ensures |r| == |s|
  {
    if s == [] then [] else [ToUpper(s[0])] + Upper(s[1..])
  }

  lemma {:induction false} LowerAt(s: string, i: nat)
    requires i < |s|
    ensures Lower(s)[i] == ToLower(s[i])
  {
    if i > 0 { LowerAt(s[1..], i - 1); }
  }

  lemma {:induction false} LowerSlice(s: string, i: nat, j: nat)
    requires i <= j <= |s|
    ensures Lower(s)[i..j] == Lower(s[i..j])
  {
    if i < j {
      forall k | i <= k < j ensures Lower(s)[k] == Lower(s[i..j])[k - i] {
        LowerAt(s, k);
        LowerAt(s[i..j], k - i);
      }
    }
  }

  lemma {:induction false} UpperAppend(a: string, b: string)
    ensures Upper(a + b) == Upper(a) + Upper(b)
  {
    if a != [] {
      assert (a + b)[0] == a[0] && (a + b)[1..] == a[1..] + b;
      UpperAppend(a[1..], b);
    } else {
      assert a + b == b;
    }
  }

  /** Upper-casing leaves a text without lower-case letters as it is. */
  lemma {:induction false} UpperOfUpper(s: string)
    requires forall i :: 0 <= i < |s| ==> !('a' <= s[i] <= 'z')
    ensures Upper(s) == s
  {
    if s != [] {
      UpperOfUpper(s[1..]);
    }
  }

  /** Upper-casing leaves no ASCII lower-case letter and preserves spaces and
      every character that is not an ASCII letter. */
  lemma {:induction false} UpperShape(s: string)
    ensures forall i :: 0 <= i < |s| ==> !('a' <= Upper(s)[i] <= 'z')
    ensures forall i :: 0 <= i < |s| ==> (IsSpace(Upper(s)[i]) <==> IsSpace(s[i]))
    ensures forall i :: 0 <= i < |s| ==> (Upper(s)[i] == '<' <==> s[i] == '<')
  {
    if s != [] {
      UpperShape(s[1..]);
      assert forall i :: 1 <= i < |s| ==> Upper(s)[i] == Upper(s[1..])[i - 1];
    }
  }

  // ---------------------------------------------------------------- trimming

  function TrimStart(s: string): (r: string)
    ensures |r| <= |s| && r == s[|s| - |r|..]
    ensures forall i :: 0 <= i < |s| - |r| ==> IsSpace(s[i])
    ensures r != [] ==> !IsSpace(r[0])
  {
    if s != [] && IsSpace(s[0]) then TrimStart(s[1..]) else s
  }

  function TrimEnd(s: string): (r: string)
    ensures |r| <= |s| && r == s[..|r|]
    ensures forall i :: |r| <= i < |s| ==> IsSpace(s[i])
    ensures r != [] ==> !IsSpace(r[|r| - 1])
  {
    if s != [] && IsSpace(s[|s| - 1]) then TrimEnd(s[..|s| - 1]) else s
  }

  /** `String.prototype.trim`. */
  function Trim(s: string): (r: string)
    ensures r != [] ==> !IsSpace(r[0]) && !IsSpace(r[|r| - 1])
  {
    TrimEnd(TrimStart(s))
  }

  /** A text without digits keeps none after trimming. */
  lemma TrimDigitless(s: string)
    requires !HasDigit(s)
    ensures !HasDigit(Trim(s))
  {
    var a, b := TrimIsSlice(s);
    forall i | 0 <= i < b - a ensures !IsDigit(Trim(s)[i]) {
      assert Trim(s)[i] == s[a + i];
    }
  }

  /** Trimming removes only whitespace from the two ends: what is left is a
      contiguous piece of the input. */
  lemma TrimIsSlice(s: string) returns (a: nat, b: nat)
    ensures a <= b <= |s| && Trim(s) == s[a..b]
    ensures forall i :: 0 <= i < a ==> IsSpace(s[i])
    ensures forall i :: b <= i < |s| ==> IsSpace(s[i])
  {
    var t := TrimStart(s);
    a := |s| - |t|;
    var r := TrimEnd(t);
    b := a + |r|;
    SuffixOfSlice(s, t, r);
  }

  lemma SuffixOfSlice(s: string, t: string, r: string)
    requires |t| <= |s| && t == s[|s| - |t|..]
    requires |r| <= |t| && r == t[..|r|]
    requires forall i :: |r| <= i < |t| ==> IsSpace(t[i])
    ensures r == s[|s| - |t|..|s| - |t| + |r|]
    ensures forall i :: |s| - |t| + |r| <= i < |s| ==> IsSpace(s[i])
  {
    var a := |s| - |t|;
    forall i | a + |r| <= i < |s| ensures IsSpace(s[i]) {
      assert s[i] == t[i - a];
    }
  }

  /** Trimming keeps only characters of the input. */
  lemma TrimChars(s: string)
    ensures forall c :: c in Trim(s) ==> c in s
  {
    var t := TrimStart(s);
    var r := TrimEnd(t);
    forall c | c in r ensures c in s {
      var k :| 0 <= k < |r| && r[k] == c;
      assert t[k] == c;
      assert s[|s| - |t| + k] == c;
    }
  }

  lemma {:induction false} TrimStartNoSpace(s: string)
    requires s == [] || !IsSpace(s[0])
    ensures TrimStart(s) == s
  {
  }

  lemma {:induction false} TrimEndNoSpace(s: string)
    requires s == [] || !IsSpace(s[|s| - 1])
    ensures TrimEnd(s) == s
  {
  }

  /** A string with no whitespace at either end is its own trim. */
  lemma TrimNoSpaceEnds(s: string)
    requires s == [] || (!IsSpace(s[0]) && !IsSpace(s[|s| - 1]))
    ensures Trim(s) == s
  {
    TrimStartNoSpace(s);
    TrimEndNoSpace(s);
  }

  /** Trailing whitespace after a text with non-blank ends is trimmed away. */
  lemma TrimTrailing(s: string, n: nat)
    requires s != [] && !IsSpace(s[0]) && !IsSpace(s[|s| - 1])
    ensures Trim(s + Repeat(' ', n)) == s
  {
    var x := s + Repeat(' ', n);
    assert x[0] == s[0];
    TrimStartNoSpace(x);
    var r := TrimEnd(x);
    assert x[|s| - 1] == s[|s| - 1];
    assert |r| >= |s|;
    assert forall i :: |s| <= i < |x| ==> x[i] == ' ';
    assert r == x[..|s|] == s;
  }

  // ------------------------------------------------------------ searching

  predicate OccursAt(s: string, t: string, i: nat) {
    i + |t| <= |s| && s[i..i + |t|] == t
  }

  /** The index of the first occurrence of `t` in `s` at or after `from`. */
  function IndexOfFrom(s: string, t: string, from: nat): (r: Option<nat>)
    ensures r.Some? ==> from <= r.value && OccursAt(s, t, r.value)
    ensures r.Some? ==> forall j :: from <= j < r.value ==> !OccursAt(s, t, j)
    ensures r.None? ==> forall j :: from <= j ==> !OccursAt(s, t, j)
    decreases |s| - from
  {
    if from + |t| > |s| then None
    else if s[from..from + |t|] == t then Some(from)
    else IndexOfFrom(s, t, from + 1)
  }

  /** `s.indexOf(t)`, with -1 as None. */
  function IndexOf(s: string, t: string): Option<nat> {
    IndexOfFrom(s, t, 0)
  }

  /** `s.includes(t)`. */
  predicate Contains(s: string, t: string) {
    IndexOf(s, t).Some?
  }

  lemma ContainsIff(s: string, t: string)
    ensures Contains(s, t) <==> exists i :: OccursAt(s, t, i)
  {
    if exists i :: OccursAt(s, t, i) {
      var i :| OccursAt(s, t, i);
      assert IndexOfFrom(s, t, 0).Some?;
    }
  }

  /** A string contains each of its slices. */
  lemma ContainsSlice(s: string, i: nat, j: nat)
    requires i <= j <= |s|
    ensures Contains(s, s[i..j])
  {
    ContainsIff(s, s[i..j]);
    assert OccursAt(s, s[i..j], i);
  }

  predicate HasDigit(s: string) {
    exists i :: 0 <= i < |s| && IsDigit(s[i])
  }

  /** `s.replace(/\D/g, "")`: the digits of `s`, in order. */
  function DigitsOnly(s: string): (r: string)
    ensures AllDigits(r) && |r| <= |s|
    ensures HasDigit(s) ==> r != []
    ensures !HasDigit(s) ==> r == []
  {
    if s == [] then []
    else if IsDigit(s[0]) then [s[0]] + DigitsOnly(s[1..])
    else DigitsOnly(s[1..])
  }

  lemma {:induction false} DigitsOnlyAppend(a: string, b: string)
    ensures DigitsOnly(a + b) == DigitsOnly(a) + DigitsOnly(b)
  {
    if a != [] {
      assert (a + b)[0] == a[0] && (a + b)[1..] == a[1..] + b;
      DigitsOnlyAppend(a[1..], b);
    } else {
      assert a + b == b;
    }
  }

  /** Removing the non-digits from an all-digit string changes nothing. */
  lemma {:induction false} DigitsOnlyOfDigits(s: string)
    requires AllDigits(s)
    ensures DigitsOnly(s) == s
  {
    if s != [] { DigitsOnlyOfDigits(s[1..]); }
  }

  // The end of the longest run of whitespace starting at `from` (colons count
  // too when `colons` holds): where the greedy `[:\s]*` or `\s*` stops.
  function SkipRun(s: string, from: nat, colons: bool): (end: nat)
    requires from <= |s|
    ensures from <= end <= |s|
    ensures forall k :: from <= k < end ==> IsSpace(s[k]) || (colons && s[k] == ':')
    ensures end < |s| ==> !IsSpace(s[end]) && !(colons && s[end] == ':')
    decreases |s| - from
  {
    if from < |s| && (IsSpace(s[from]) || (colons && s[from] == ':'))
    then SkipRun(s, from + 1, colons)
    else from
  }

  /** The index of the first case-insensitive occurrence of `marker` in `s`. */
  function MarkerAt(s: string, marker: string): (r: Option<nat>)
    ensures r.Some? ==> r.value + |marker| <= |s|
  {
    IndexOf(Lower(s), Lower(marker))
  }

  /** A case-insensitive occurrence with none before it is the first one. */
  lemma MarkerAtIs(s: string, marker: string, i: nat)
    requires OccursAt(Lower(s), Lower(marker), i)
    requires forall j :: 0 <= j < i ==> !OccursAt(Lower(s), Lower(marker), j)
    ensures MarkerAt(s, marker) == Some(i)
  {
    var r := IndexOfFrom(Lower(s), Lower(marker), 0);
    assert r.Some?;
  }

  /** The first case-insensitive occurrence is an occurrence of the lower-cased marker. */
  lemma MarkerAtOccurs(s: string, marker: string)
    ensures MarkerAt(s, marker).Some? ==> OccursAt(Lower(s), Lower(marker), MarkerAt(s, marker).value)
  {
  }

  /** `MarkerAt` is the first case-insensitive occurrence: the text there
      equals the marker up to ASCII case, and no occurrence comes before it. */
  lemma MarkerAtFirst(s: string, marker: string)
    ensures MarkerAt(s, marker).Some? ==>
      var i := MarkerAt(s, marker).value;
      Lower(s[i..i + |marker|]) == Lower(marker)
      && forall j :: 0 <= j < i ==> !OccursAt(Lower(s), Lower(marker), j)
    ensures MarkerAt(s, marker).None? ==> forall j :: 0 <= j ==> !OccursAt(Lower(s), Lower(marker), j)
  {
    MarkerAtOccurs(s, marker);
    if MarkerAt(s, marker).Some? {
      MarkedWord(s, marker, MarkerAt(s, marker).value);
    }
  }

  /** The text at a case-insensitive occurrence equals the marker up to case. */
  lemma MarkedWord(s: string, marker: string, i: nat)
    requires OccursAt(Lower(s), Lower(marker), i)
    ensures Lower(s[i..i + |marker|]) == Lower(marker)
  {
    LowerSlice(s, i, i + |marker|);
  }

  /** The label cut: the text before the marker and the text after its
      separator run, wherever that run ends. */
  lemma RemoveLabelAt(s: string, marker: string, colons: bool, i: nat, j: nat)
    requires MarkerAt(s, marker) == Some(i) && IsLabelEnd(s, i + |marker|, j, colons)
    ensures RemoveLabel(s, marker, colons) == s[..i] + s[j..]
  {
    RemoveLabelIsCut(s, marker, colons, i);
    SkipRunExact(s, i + |marker|, j, colons);
  }

  lemma RemoveLabelIsCut(s: string, marker: string, colons: bool, i: nat)
    requires MarkerAt(s, marker) == Some(i)
    ensures i + |marker| <= |s|
    ensures RemoveLabel(s, marker, colons) == s[..i] + s[SkipRun(s, i + |marker|, colons)..]
  {
  }

  /** With an occurrence, the separator run after it ends somewhere, and the
      cut keeps the text before the marker and the text from there on. */
  lemma RemoveLabelCut(s: string, marker: string, colons: bool) returns (j: nat)
    requires MarkerAt(s, marker).Some?
    ensures var i := MarkerAt(s, marker).value;
      IsLabelEnd(s, i + |marker|, j, colons) && RemoveLabel(s, marker, colons) == s[..i] + s[j..]
  {
    j := SkipRun(s, MarkerAt(s, marker).value + |marker|, colons);
  }

  /** A string that starts with `marker` has its first occurrence at 0. */
  lemma MarkerAtStart(s: string, marker: string)
    requires |marker| <= |s| && s[..|marker|] == marker
    ensures MarkerAt(s, marker) == Some(0)
  {
    LowerSlice(s, 0, |marker|);
    assert OccursAt(Lower(s), Lower(marker), 0);
  }

  /** The separator run ends where the separators end. */
  lemma SkipRunExact(s: string, from: nat, end: nat, colons: bool)
    requires from <= end <= |s|
    requires forall k :: from <= k < end ==> IsSpace(s[k]) || (colons && s[k] == ':')
    requires end < |s| ==> !IsSpace(s[end]) && !(colons && s[end] == ':')
    ensures SkipRun(s, from, colons) == end
  {
  }

  /** `j` ends the separator run that starts at `from`: everything in between
      is whitespace (or a colon, when `colons` holds), and `s[j]` is not. */
  predicate IsLabelEnd(s: string, from: nat, j: nat, colons: bool) {
    && from <= j <= |s|
    && (forall k :: from <= k < j ==> IsSpace(s[k]) || (colons && s[k] == ':'))
    && (j < |s| ==> !IsSpace(s[j]) && !(colons && s[j] == ':'))
  }

  // The regex replacements `/<marker>[:\s]*/i` (colons) and `/<marker>\s*/i`:
  // the first case-insensitive occurrence of `marker`, with the run of
  // separators after it, is cut out; without an occurrence `s` is unchanged.
  function RemoveLabel(s: string, marker: string, colons: bool): (r: string)
    ensures MarkerAt(s, marker).None? ==> r == s
    ensures MarkerAt(s, marker).Some? ==>
      var i := MarkerAt(s, marker).value;
      i <= |r| <= |s| - |marker| && r[..i] == s[..i]
  {
    match MarkerAt(s, marker)
    case None => s
    case Some(i) =>
      var j := SkipRun(s, i + |marker|, colons);
      assert IsLabelEnd(s, i + |marker|, j, colons);
      s[..i] + s[j..]
  }

  /** Cutting a label out of a text without digits leaves none. */
  lemma RemoveLabelDigitless(s: string, marker: string, colons: bool)
    requires !HasDigit(s)
    ensures !HasDigit(RemoveLabel(s, marker, colons))
  {
    match MarkerAt(s, marker)
    case None =>
    case Some(i) =>
      var j := SkipRun(s, i + |marker|, colons);
      var r := s[..i] + s[j..];
      forall k | 0 <= k < |r| ensures !IsDigit(r[k]) {
        if k < i { assert r[k] == s[k]; } else { assert r[k] == s[j + k - i]; }
      }
  }

  // -------------------------------------------------------------- splitting

  /** Splitting three separator-free fields joined by the separator. */
  lemma SplitThree(a: string, b: string, c: string, sep: char)
    requires forall k :: 0 <= k < |a| ==> a[k] != sep
    requires forall k :: 0 <= k < |b| ==> b[k] != sep
    requires forall k :: 0 <= k < |c| ==> c[k] != sep
    ensures SplitOn(a + [sep] + b + [sep] + c, sep) == [a, b, c]
  {
    var t := b + [sep] + c;
    SplitOnNone(c, sep);
    SplitOnCons(b, sep, c);
    assert SplitOn(t, sep) == [b, c];
    assert a + [sep] + b + [sep] + c == a + [sep] + t;
    SplitOnCons(a, sep, t);
  }

  /** `s.split(sep)` for a one-character separator: always at least one part. */
  function SplitOn(s: string, sep: char): (parts: seq<string>)
    ensures |parts| >= 1
    ensures forall p, k :: p in parts && 0 <= k < |p| ==> p[k] != sep
    ensures |parts[0]| <= |s| && parts[0] == s[..|parts[0]|]
  {
    if s == [] then [[]]
    else if s[0] == sep then [[]] + SplitOn(s[1..], sep)
    else
      var rest := SplitOn(s[1..], sep);
      assert rest[0] in rest;
      [[s[0]] + rest[0]] + rest[1..]
  }

  /** Joining the parts with the separator gives back the string. */
  function JoinWith(parts: seq<string>, sep: char): string
    requires |parts| >= 1
  {
    if |parts| == 1 then parts[0] else parts[0] + [sep] + JoinWith(parts[1..], sep)
  }

  lemma {:induction false} SplitOnJoin(s: string, sep: char)
    ensures JoinWith(SplitOn(s, sep), sep) == s
  {
    if s != [] {
      SplitOnJoin(s[1..], sep);
      var rest := SplitOn(s[1..], sep);
      if s[0] != sep {
        assert SplitOn(s, sep) == [[s[0]] + rest[0]] + rest[1..];
        JoinGlued([s[0]], rest, sep);
      } else {
        assert SplitOn(s, sep) == [[]] + rest;
        JoinSplitAtStart(rest, sep);
      }
      assert s == [s[0]] + s[1..];
    }
  }

  /** A separator at the very start gives an empty first part. */
  lemma JoinSplitAtStart(rest: seq<string>, sep: char)
    requires |rest| >= 1
    ensures JoinWith([[]] + rest, sep) == [sep] + JoinWith(rest, sep)
  {
    assert ([[]] + rest)[1..] == rest;
  }

  /** Gluing text onto the first part puts it in front of the joined text. */
  lemma JoinGlued(x: string, rest: seq<string>, sep: char)
    requires |rest| >= 1
    ensures JoinWith([x + rest[0]] + rest[1..], sep) == x + JoinWith(rest, sep)
  {
    var parts := [x + rest[0]] + rest[1..];
    if |rest| > 1 {
      assert parts[1..] == rest[1..];
      assert (x + rest[0]) + [sep] + JoinWith(rest[1..], sep) == x + (rest[0] + [sep] + JoinWith(rest[1..], sep));
    }
  }

  /** Splitting a string that does not hold the separator gives it back whole. */
  lemma {:induction false} SplitOnNone(a: string, sep: char)
    requires forall k :: 0 <= k < |a| ==> a[k] != sep
    ensures SplitOn(a, sep) == [a]
  {
    if a != [] {
      SplitOnNone(a[1..], sep);
      assert [a[0]] + a[1..] == a;
    }
  }

  /** Splitting at the first separator. */
  lemma {:induction false} SplitOnCons(a: string, sep: char, rest: string)
    requires forall k :: 0 <= k < |a| ==> a[k] != sep
    ensures SplitOn(a + [sep] + rest, sep) == [a] + SplitOn(rest, sep)
  {
    if a == [] {
      assert a + [sep] + rest == [sep] + rest;
      assert ([sep] + rest)[1..] == rest;
    } else {
      assert (a + [sep] + rest)[1..] == a[1..] + [sep] + rest;
      SplitOnCons(a[1..], sep, rest);
      assert [a[0]] + a[1..] == a;
    }
  }

  /** The index of the first whitespace character at or after `from`. */
  function NextSpace(s: string, from: nat): (k: nat)
    requires from <= |s|
    ensures from <= k <= |s| && (k < |s| ==> IsSpace(s[k]))
    ensures forall j :: from <= j < k ==> !IsSpace(s[j])
    decreases |s| - from
  {
    if from == |s| || IsSpace(s[from]) then from else NextSpace(s, from + 1)
  }

  /** `s.split(/\s+/)`: the pieces between maximal whitespace runs (leading or
      trailing whitespace gives an empty first or last piece). */
  function SplitSpaces(s: string): (parts: seq<string>)
    ensures |parts| >= 1
    ensures forall p :: p in parts ==> NoSpace(p)
    decreases |s|
  {
    var k := NextSpace(s, 0);
    if k == |s| then [s]
    else [s[..k]] + SplitSpaces(s[SkipRun(s, k, false)..])
  }

  /** `parts.join("")`. */
  function Concat(parts: seq<string>): string {
    if parts == [] then [] else parts[0] + Concat(parts[1..])
  }

  /** `s` without its whitespace characters. */
  function RemoveSpaces(s: string): (r: string)
    ensures NoSpace(r) && |r| <= |s|
    ensures forall c :: c in r ==> c in s
  {
    if s == [] then [] else if IsSpace(s[0]) then RemoveSpaces(s[1..]) else [s[0]] + RemoveSpaces(s[1..])
  }

  /** A word without whitespace survives whole in front of the rest. */
  lemma {:induction false} RemoveSpacesWordFirst(a: string, t: string)
    requires NoSpace(a)
    ensures RemoveSpaces(a + t) == a + RemoveSpaces(t)
  {
    if a != [] {
      assert (a + t)[0] == a[0] && (a + t)[1..] == a[1..] + t;
      RemoveSpacesWordFirst(a[1..], t);
      assert a == [a[0]] + a[1..];
    } else {
      assert a + t == t;
    }
  }

  /** A run of whitespace in front of the rest disappears. */
  lemma {:induction false} RemoveSpacesGapFirst(g: string, t: string)
    requires forall k :: 0 <= k < |g| ==> IsSpace(g[k])
    ensures RemoveSpaces(g + t) == RemoveSpaces(t)
  {
    if g != [] {
      assert (g + t)[0] == g[0] && (g + t)[1..] == g[1..] + t;
      RemoveSpacesGapFirst(g[1..], t);
    } else {
      assert g + t == t;
    }
  }

  /** Splitting at whitespace loses exactly the whitespace: gluing the pieces
      together gives the string with its whitespace removed. */
  lemma {:induction false} SplitSpacesConcat(s: string)
    ensures Concat(SplitSpaces(s)) == RemoveSpaces(s)
    decreases |s|
  {
    var k := NextSpace(s, 0);
    if k == |s| {
      RemoveSpacesWordFirst(s, []);
      assert s + [] == s;
      assert SplitSpaces(s) == [s];
      assert Concat([s]) == s + Concat([]);
    } else {
      var e := SkipRun(s, k, false);
      var tail := s[e..];
      SplitSpacesConcat(tail);
      assert SplitSpaces(s) == [s[..k]] + SplitSpaces(tail);
      assert Concat(SplitSpaces(s)) == s[..k] + Concat(SplitSpaces(tail));
      var gap := s[k..e];
      forall j | 0 <= j < |gap| ensures IsSpace(gap[j]) {
        assert gap[j] == s[k + j];
      }
      assert s == s[..k] + gap + tail;
      SplitRemoveSpaces(s[..k], gap, tail);
    }
  }

  lemma SplitRemoveSpaces(a: string, g: string, b: string)
    requires NoSpace(a) && forall j :: 0 <= j < |g| ==> IsSpace(g[j])
    ensures RemoveSpaces(a + g + b) == a + RemoveSpaces(b)
  {
    assert a + g + b == a + (g + b);
    RemoveSpacesWordFirst(a, g + b);
    RemoveSpacesGapFirst(g, b);
  }

  /** A word, a run of whitespace, and the rest: the word is the first piece
      and the rest is split on its own. */
  lemma SplitSpacesStep(a: string, gap: string, rest: string)
    requires a != [] && NoSpace(a)
    requires gap != [] && forall k :: 0 <= k < |gap| ==> IsSpace(gap[k])
    requires rest == [] || !IsSpace(rest[0])
    ensures SplitSpaces(a + gap + rest) == [a] + SplitSpaces(rest)
  {
    var s := a + gap + rest;
    var k := NextSpace(s, 0);
    assert s[|a|] == gap[0];
    assert forall j :: 0 <= j < |a| ==> s[j] == a[j];
    assert k == |a|;
    var e := SkipRun(s, k, false);
    assert forall j :: |a| <= j < |a| + |gap| ==> s[j] == gap[j - |a|];
    assert rest != [] ==> s[|a| + |gap|] == rest[0];
    assert e == |a| + |gap|;
    assert s[..k] == a && s[e..] == rest;
  }

  /** A text without whitespace is a single piece. */
  lemma SplitSpacesSingle(s: string)
    requires NoSpace(s)
    ensures SplitSpaces(s) == [s]
  {
    assert NextSpace(s, 0) == |s|;
  }

  /** The first piece of a split is the leading run of non-whitespace. */
  lemma SplitSpacesHead(s: string)
    ensures SplitSpaces(s)[0] == s[..NextSpace(s, 0)]
  {
  }

  // ------------------------------------------------------ decimal numbers

  /** The value of a string of decimal digits. */
  function DigitsToNat(s: string): nat
    requires AllDigits(s)
  {
    if s == [] then 0 else 10 * DigitsToNat(s[..|s| - 1]) + DigitValue(s[|s| - 1])
  }

  /** `n.toString()` for a natural number: digits, no leading zero. */
  function NatToDecimal(n: nat): (r: string)
    ensures AllDigits(r) && 1 <= |r|
    ensures |r| > 1 ==> r[0] != '0'
    ensures n < 10 ==> |r| == 1
    ensures 10 <= n < 100 ==> |r| == 2
    ensures 1000 <= n < 10000 ==> |r| == 4
    ensures n < 1000 ==> |r| <= 3
  {
    if n < 10 then [DigitChar(n)] else NatToDecimal(n / 10) + [DigitChar(n % 10)]
  }

  /** Reading back a printed number gives the number. */
  lemma {:induction false} DecimalRoundTrip(n: nat)
    ensures DigitsToNat(NatToDecimal(n)) == n
  {
    if n >= 10 {
      DecimalRoundTrip(n / 10);
      var r := NatToDecimal(n);
      assert r[..|r| - 1] == NatToDecimal(n / 10);
    }
  }

  /** The value of four digits. */
  lemma FourDigitsValue(t: string)
    requires |t| == 4 && AllDigits(t)
    ensures DigitsToNat(t) == 1000 * DigitValue(t[0]) + 100 * DigitValue(t[1]) + 10 * DigitValue(t[2]) + DigitValue(t[3])
  {
    var a, b, c := t[..1], t[..2], t[..3];
    assert a[..0] == [] && b[..1] == a && c[..2] == b && t[..3] == c;
    assert a[0] == t[0] && b[1] == t[1] && c[2] == t[2];
    assert DigitsToNat(a) == DigitValue(t[0]);
    assert DigitsToNat(b) == 10 * DigitsToNat(a) + DigitValue(t[1]);
    assert DigitsToNat(c) == 10 * DigitsToNat(b) + DigitValue(t[2]);
    assert DigitsToNat(t) == 10 * DigitsToNat(c) + DigitValue(t[3]);
  }

  /** Digit strings of one length are equal exactly when their values are. */
  lemma {:induction false} DigitsInjective(a: string, b: string)
    requires AllDigits(a) && AllDigits(b) && |a| == |b|
    requires DigitsToNat(a) == DigitsToNat(b)
    ensures a == b
    decreases |a|
  {
    if a != [] {
      var n := |a| - 1;
      DigitsInjective(a[..n], b[..n]);
      assert a == a[..n] + [a[n]] && b == b[..n] + [b[n]];
    }
  }

  /** Printing the value of a digit string without leading zero gives the
      string back: the other half of the decimal round trip. */
  lemma {:induction false} DecimalOfDigits(t: string)
    requires AllDigits(t) && 1 <= |t| && (|t| > 1 ==> t[0] != '0')
    ensures NatToDecimal(DigitsToNat(t)) == t
    decreases |t|
  {
    var init, last := t[..|t| - 1], t[|t| - 1];
    assert DigitChar(DigitValue(last)) == last;
    if |t| > 1 {
      assert init[0] == t[0];
      DecimalOfDigits(init);
      LeadingDigitValue(init);
      assert t == init + [last];
    } else {
      assert t == [last];
    }
  }

  /** A digit string of two or more digits that does not start with zero is
      worth at least one. */
  lemma {:induction false} LeadingDigitValue(t: string)
    requires AllDigits(t) && 1 <= |t| && t[0] != '0'
    ensures DigitsToNat(t) >= 1
    decreases |t|
  {
    if |t| > 1 {
      assert t[..|t| - 1][0] == t[0];
      LeadingDigitValue(t[..|t| - 1]);
    }
  }

  /** Leading zeros do not change a number's value. */
  lemma {:induction false} DigitsToNatLeadingZeros(z: nat, s: string)
    requires AllDigits(s)
    ensures AllDigits(Repeat('0', z) + s)
    ensures DigitsToNat(Repeat('0', z) + s) == DigitsToNat(s)
    decreases |s|
  {
    var t := Repeat('0', z) + s;
    if s == [] {
      assert t == Repeat('0', z);
      ZerosValue(z);
    } else {
      assert t[..|t| - 1] == Repeat('0', z) + s[..|s| - 1];
      DigitsToNatLeadingZeros(z, s[..|s| - 1]);
    }
  }

  lemma {:induction false} ZerosValue(z: nat)
    ensures AllDigits(Repeat('0', z)) && DigitsToNat(Repeat('0', z)) == 0
  {
    if z > 0 {
      var t := Repeat('0', z);
      assert t[..|t| - 1] == Repeat('0', z - 1);
      ZerosValue(z - 1);
    }
  }

  function Repeat(c: char, n: nat): (r: string)
    ensures |r| == n && forall k :: 0 <= k < n ==> r[k] == c
  {
    if n == 0 then [] else [c] + Repeat(c, n - 1)
  }

  /** `s.padStart(width, c)`. */
  function PadStart(s: string, width: nat, c: char): (r: string)
    ensures |s| >= width ==> r == s
    ensures |s| < width ==> |r| == width && r[width - |s|..] == s
    ensures |s| < width ==> forall k :: 0 <= k < width - |s| ==> r[k] == c
  {
    if |s| >= width then s else Repeat(c, width - |s|) + s
  }

  /** A number printed and zero-padded reads back as the number. */
  lemma PaddedRoundTrip(n: nat, width: nat)
    ensures AllDigits(PadStart(NatToDecimal(n), width, '0'))
    ensures DigitsToNat(PadStart(NatToDecimal(n), width, '0')) == n
  {
    var d := NatToDecimal(n);
    DecimalRoundTrip(n);
    if |d| < width {
      DigitsToNatLeadingZeros(width - |d|, d);
    }
  }
}
