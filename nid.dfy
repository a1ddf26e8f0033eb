/** National-ID field extraction (`/detect-text`): one forward pass over the
    OCR lines that keeps overwriting `name`, `dob` and `nid` with what the
    latest qualifying line yields. The pass is the method `ScanLines`; the
    function `Expected` is its specification, stated per field as "the value
    of the last line whose rule fired". */
module NidExtraction {
  import opened Text

  const NameAnchor: string := "Name"
  const DobAnchor: string := "Date of Birth"

  /** The three independent per-line rules of the scan. */
  datatype Rule = NameRule | DobRule | NidRule

  /** A value a line assigns, with the index of the line block it came from. */
  datatype Assignment = Assignment(block: nat, value: string)

  datatype Status = Success | Fail

  /** The fields of the response, in the order the handler writes them; null is None. */
  datatype NidData = NidData(dob: Option<string>, name: Option<string>, nid: Option<string>)

  datatype NidResponse = NidResponse(status: Status, nidData: NidData)

  /** The inline value of an anchor line: the first case-insensitive occurrence
      of the anchor and the colons and whitespace after it are removed, and the
      rest is trimmed. */
  function InlineValue(text: string, anchor: string): string {
    Trim(RemoveLabel(text, anchor, true))
  }

  /** What line `i` assigns under an anchor rule. A line that contains the
      anchor (case-sensitively) and trims to exactly the anchor takes the
      untrimmed text of the next line, or nothing when it is the last line;
      any other line containing the anchor takes its own inline value. */
  function AnchorAssignment(lines: seq<string>, i: nat, anchor: string): Option<Assignment>
    requires i < |lines|
  {
    if !Contains(lines[i], anchor) then None
    else if Trim(lines[i]) == anchor then
      (if i + 1 < |lines| then Some(Assignment(i + 1, lines[i + 1])) else None)
    else Some(Assignment(i, InlineValue(lines[i], anchor)))
  }

  /** What line `i` assigns under a rule. */
  function AssignmentAt(lines: seq<string>, i: nat, rule: Rule): Option<Assignment>
    requires i < |lines|
  {
    match rule
    case NameRule => AnchorAssignment(lines, i, NameAnchor)
    case DobRule => AnchorAssignment(lines, i, DobAnchor)
    case NidRule => if HasDigit(lines[i]) then Some(Assignment(i, DigitsOnly(lines[i]))) else None
  }

  /** What each line assigns under a rule, in line order. */
  function Assignments(lines: seq<string>, rule: Rule): (rs: seq<Option<Assignment>>)
    ensures |rs| == |lines|
    ensures forall i :: 0 <= i < |lines| ==> rs[i] == AssignmentAt(lines, i, rule)
  {
    seq(|lines|, i requires 0 <= i < |lines| => AssignmentAt(lines, i, rule))
  }

  /** The last present entry among the first `k`: last match wins. */
  function LastSome<T>(rs: seq<Option<T>>, k: nat): Option<T>
    requires k <= |rs|
  {
    if k == 0 then None
    else if rs[k - 1].Some? then rs[k - 1]
    else LastSome(rs, k - 1)
  }

  /** The assignment of the last of the first `k` lines whose rule fires. */
  function LastAssignment(lines: seq<string>, rule: Rule, k: nat): Option<Assignment>
    requires k <= |lines|
  {
    LastSome(Assignments(lines, rule), k)
  }

  function ValueOf(a: Option<Assignment>): Option<string> {
    if a.Some? then Some(a.value.value) else None
  }

  function BlockOf(a: Option<Assignment>): Option<nat> {
    if a.Some? then Some(a.value.block) else None
  }

  /** The response for a list of lines: every field is the value of the last
      line whose rule fired, and the status is success when some rule fired. */
  function Expected(lines: seq<string>): NidResponse {
    var name := LastAssignment(lines, NameRule, |lines|);
    var dob := LastAssignment(lines, DobRule, |lines|);
    var nid := LastAssignment(lines, NidRule, |lines|);
    NidResponse(
      if name.Some? || dob.Some? || nid.Some? then Success else Fail,
      NidData(ValueOf(dob), ValueOf(name), ValueOf(nid)))
  }

  /** The forward pass over the lines. Each line is tested against the three
      rules independently, and a rule that fires overwrites its field and the
      block that field came from. */
  method ScanLines(lines: seq<string>)
    returns (name: Option<string>, dob: Option<string>, nid: Option<string>,
             nameBlock: Option<nat>, dobBlock: Option<nat>, nidBlock: Option<nat>)
    ensures name == ValueOf(LastAssignment(lines, NameRule, |lines|))
    ensures nameBlock == BlockOf(LastAssignment(lines, NameRule, |lines|))
    ensures dob == ValueOf(LastAssignment(lines, DobRule, |lines|))
    ensures dobBlock == BlockOf(LastAssignment(lines, DobRule, |lines|))
    ensures nid == ValueOf(LastAssignment(lines, NidRule, |lines|))
    ensures nidBlock == BlockOf(LastAssignment(lines, NidRule, |lines|))
  {
    name, dob, nid := None, None, None;
    nameBlock, dobBlock, nidBlock := None, None, None;
    var nextBlock: Option<nat> := None;
    var index := 0;
    while index < |lines|
      invariant index <= |lines|
      invariant name == ValueOf(LastAssignment(lines, NameRule, index))
      invariant nameBlock == BlockOf(LastAssignment(lines, NameRule, index))
      invariant dob == ValueOf(LastAssignment(lines, DobRule, index))
      invariant dobBlock == BlockOf(LastAssignment(lines, DobRule, index))
      invariant nid == ValueOf(LastAssignment(lines, NidRule, index))
      invariant nidBlock == BlockOf(LastAssignment(lines, NidRule, index))
    {
      var blockText := lines[index];

      if Contains(blockText, NameAnchor) {
        if Trim(blockText) == NameAnchor {
          nextBlock := if index + 1 < |lines| then Some(index + 1) else None;
          if nextBlock.Some? {
            nameBlock := nextBlock;
            name := Some(lines[index + 1]);
          }
        } else {
          nameBlock := Some(index);
          name := Some(InlineValue(blockText, NameAnchor));
        }
      }

      if Contains(blockText, DobAnchor) {
        if Trim(blockText) == DobAnchor {
          nextBlock := if index + 1 < |lines| then Some(index + 1) else None;
          if nextBlock.Some? {
            dobBlock := nextBlock;
            dob := Some(lines[index + 1]);
          }
        } else {
          dobBlock := Some(index);
          dob := Some(InlineValue(blockText, DobAnchor));
        }
      }

      if HasDigit(blockText) {
        nidBlock := Some(index);
        nid := Some(DigitsOnly(blockText));
      }

      index := index + 1;
    }
  }

  /** The `/detect-text` extraction: the scan, then success when any of the
      three blocks was found. */
  method DetectText(lines: seq<string>) returns (r: NidResponse)
    ensures r == Expected(lines)
  {
    var name, dob, nid, nameBlock, dobBlock, nidBlock := ScanLines(lines);
    var success := false;
    if nameBlock.Some? || dobBlock.Some? || nidBlock.Some? {
      success := true;
    }
    r := NidResponse(if success then Success else Fail, NidData(dob, name, nid));
  }

  // ------------------------------------------------------------ properties

  /** Last match wins: the chosen entry is present at some index, and no
      later entry is; nothing is chosen exactly when no entry is present. */
  lemma {:induction false} LastSomeIsLast<T>(rs: seq<Option<T>>, k: nat)
    requires k <= |rs|
    ensures LastSome(rs, k).Some? ==>
      exists i :: 0 <= i < k && rs[i] == LastSome(rs, k) && forall j :: i < j < k ==> rs[j].None?
    ensures LastSome(rs, k).None? <==> forall i :: 0 <= i < k ==> rs[i].None?
  {
    if k > 0 {
      LastSomeIsLast(rs, k - 1);
      if rs[k - 1].None? && LastSome(rs, k).Some? {
        var i :| 0 <= i < k - 1 && rs[i] == LastSome(rs, k - 1) && forall j :: i < j < k - 1 ==> rs[j].None?;
        assert forall j :: i < j < k ==> rs[j].None?;
      }
    }
  }

  /** Conversely, a present entry with no present entry after it is the one chosen. */
  lemma {:induction false} LastSomeDecides<T>(rs: seq<Option<T>>, k: nat, i: nat)
    requires i < k <= |rs| && rs[i].Some?
    requires forall j :: i < j < k ==> rs[j].None?
    ensures LastSome(rs, k) == rs[i]
  {
    if i < k - 1 {
      LastSomeDecides(rs, k - 1, i);
    }
  }

  /** For the scan: a field comes from a line whose rule fired, with no later
      line firing, and it is null exactly when no line fired. */
  lemma LastAssignmentIsLast(lines: seq<string>, rule: Rule, k: nat)
    requires k <= |lines|
    ensures LastAssignment(lines, rule, k).Some? ==>
      exists i :: 0 <= i < k && AssignmentAt(lines, i, rule) == LastAssignment(lines, rule, k)
        && forall j :: i < j < k ==> AssignmentAt(lines, j, rule).None?
    ensures LastAssignment(lines, rule, k).None? <==>
      forall i :: 0 <= i < k ==> AssignmentAt(lines, i, rule).None?
  {
    LastSomeIsLast(Assignments(lines, rule), k);
  }

  /** A line whose rule fires and after which no line fires decides the field. */
  lemma LastLineDecides(lines: seq<string>, rule: Rule, k: nat, i: nat)
    requires i < k <= |lines| && AssignmentAt(lines, i, rule).Some?
    requires forall j :: i < j < k ==> AssignmentAt(lines, j, rule).None?
    ensures LastAssignment(lines, rule, k) == AssignmentAt(lines, i, rule)
  {
    LastSomeDecides(Assignments(lines, rule), k, i);
  }

  /** The national ID is the digits of the last line that holds a digit. */
  lemma NidFromLastDigitLine(lines: seq<string>, i: nat)
    requires i < |lines| && HasDigit(lines[i])
    requires forall j :: i < j < |lines| ==> !HasDigit(lines[j])
    ensures Expected(lines).nidData.nid == Some(DigitsOnly(lines[i]))
  {
    LastLineDecides(lines, NidRule, |lines|, i);
  }

  /** Once set, the national ID is a non-empty string of digits; it is null
      exactly when no line holds a digit. */
  lemma NidShape(lines: seq<string>)
    ensures Expected(lines).nidData.nid.Some? ==>
      Expected(lines).nidData.nid.value != [] && AllDigits(Expected(lines).nidData.nid.value)
    ensures Expected(lines).nidData.nid.None? <==> forall i :: 0 <= i < |lines| ==> !HasDigit(lines[i])
  {
    LastAssignmentIsLast(lines, NidRule, |lines|);
    var a := LastAssignment(lines, NidRule, |lines|);
    if a.Some? {
      var i :| 0 <= i < |lines| && AssignmentAt(lines, i, NidRule) == a
        && forall j :: i < j < |lines| ==> AssignmentAt(lines, j, NidRule).None?;
      assert HasDigit(lines[i]);
    }
    assert forall i :: 0 <= i < |lines| ==> (AssignmentAt(lines, i, NidRule).None? <==> !HasDigit(lines[i]));
  }

  /** The status is success exactly when some field was assigned; a failed
      extraction carries three nulls. */
  lemma StatusIff(lines: seq<string>)
    ensures Expected(lines).status == Success <==>
      (Expected(lines).nidData.name.Some? || Expected(lines).nidData.dob.Some?
       || Expected(lines).nidData.nid.Some?)
    ensures Expected(lines).status == Fail ==>
      Expected(lines).nidData == NidData(None, None, None)
  {
  }

  /** A line that is the bare anchor "Name" hands the field the next line's
      text verbatim, surrounding whitespace included, when no later line
      assigns a name. */
  lemma NameFromNextLine(lines: seq<string>, i: nat)
    requires i + 1 < |lines| && Trim(lines[i]) == NameAnchor
    requires forall j :: i < j < |lines| ==> AssignmentAt(lines, j, NameRule).None?
    ensures Expected(lines).nidData.name == Some(lines[i + 1])
    ensures Expected(lines).status == Success
  {
    assert Contains(lines[i], NameAnchor) by {
      var a, b := TrimIsSlice(lines[i]);
      ContainsSlice(lines[i], a, b);
    }
    LastLineDecides(lines, NameRule, |lines|, i);
  }

  /** A bare "Name" on the last line assigns nothing. */
  lemma BareAnchorOnLastLine(lines: seq<string>, anchor: string)
    requires |lines| > 0 && Trim(lines[|lines| - 1]) == anchor
    ensures AnchorAssignment(lines, |lines| - 1, anchor).None?
  {
  }

  /** An inline anchor line "<anchor><colons and spaces><value>" yields the
      value, for a value that does not begin with a colon or whitespace and
      does not end with whitespace. */
  lemma InlineValueOf(anchor: string, sep: string, v: string)
    requires forall k :: 0 <= k < |sep| ==> IsSpace(sep[k]) || sep[k] == ':'
    requires v != [] ==> !IsSpace(v[0]) && v[0] != ':' && !IsSpace(v[|v| - 1])
    ensures InlineValue(anchor + sep + v, anchor) == v
  {
    var s := anchor + sep + v;
    MarkerAtStart(s, anchor);
    assert forall k :: |anchor| <= k < |anchor| + |sep| ==> s[k] == sep[k - |anchor|];
    if v != [] {
      assert s[|anchor| + |sep|] == v[0];
    }
    SkipRunExact(s, |anchor|, |anchor| + |sep|, true);
    assert s[..0] + s[|anchor| + |sep|..] == v;
    assert RemoveLabel(s, anchor, true) == v;
    TrimNoSpaceEnds(v);
  }

  /** Wherever the anchor first occurs, in any letter case: the anchor and the
      colons and whitespace after it are cut out, the text before it is kept,
      and what remains is trimmed. */
  lemma InlineValueAt(s: string, anchor: string, i: nat, j: nat)
    requires MarkerAt(s, anchor) == Some(i) && IsLabelEnd(s, i + |anchor|, j, true)
    ensures InlineValue(s, anchor) == Trim(s[..i] + s[j..])
  {
    RemoveLabelAt(s, anchor, true, i, j);
  }

  /** The same for a line built as text, anchor, separators and value: the
      value is the text before the anchor joined to what follows the separators. */
  lemma InlineValueSplit(pre: string, a: string, sep: string, v: string, anchor: string)
    requires |a| == |anchor| && MarkerAt(pre + a + sep + v, anchor) == Some(|pre|)
    requires forall k :: 0 <= k < |sep| ==> IsSpace(sep[k]) || sep[k] == ':'
    requires v != [] ==> !IsSpace(v[0]) && v[0] != ':'
    ensures InlineValue(pre + a + sep + v, anchor) == Trim(pre + v)
  {
    var s := pre + a + sep + v;
    var j := SplitLabelEnd(pre, a, sep, v, |anchor|);
    InlineValueAt(s, anchor, |pre|, j);
  }

  lemma SplitLabelEnd(pre: string, a: string, sep: string, v: string, n: nat) returns (j: nat)
    requires n == |a|
    requires forall k :: 0 <= k < |sep| ==> IsSpace(sep[k]) || sep[k] == ':'
    requires v != [] ==> !IsSpace(v[0]) && v[0] != ':'
    ensures IsLabelEnd(pre + a + sep + v, |pre| + n, j, true)
    ensures (pre + a + sep + v)[..|pre|] + (pre + a + sep + v)[j..] == pre + v
  {
    var s := pre + a + sep + v;
    var i := |pre| + |a|;
    j := i + |sep|;
    assert forall k :: i <= k < j ==> s[k] == sep[k - i];
    if v != [] {
      assert s[j] == v[0];
    }
    assert s[..|pre|] == pre && s[j..] == v;
  }

  /** "Full Name: Alice" yields the name "Full Alice": the text before the
      anchor stays in the value. */
  lemma FullNameExample()
    ensures Expected(["Full Name: Alice"]).nidData.name == Some("Full Alice")
  {
    var t := "Full Name: Alice";
    FullNameLine(t);
    SingleInlineName(t);
  }

  lemma FullNameLine(t: string)
    requires t == "Full Name: Alice"
    ensures Contains(t, NameAnchor) && Trim(t) != NameAnchor
    ensures InlineValue(t, NameAnchor) == "Full Alice"
  {
    FullNameAnchor(t);
    FullNameValue(t);
  }

  lemma FullNameAnchor(t: string)
    requires t == "Full Name: Alice"
    ensures Contains(t, NameAnchor) && Trim(t) != NameAnchor
  {
    assert t[5..9] == NameAnchor;
    ContainsSlice(t, 5, 9);
    assert !IsSpace(t[0]) && !IsSpace(t[|t| - 1]);
    TrimNoSpaceEnds(t);
  }

  lemma FullNameValue(t: string)
    requires t == "Full Name: Alice"
    ensures InlineValue(t, NameAnchor) == "Full Alice"
  {
    FullNameMarker(t);
    FullNameLabelEnd(t);
    InlineValueAt(t, NameAnchor, 5, 11);
    FullNameRest(t);
  }

  lemma FullNameRest(t: string)
    requires t == "Full Name: Alice"
    ensures Trim(t[..5] + t[11..]) == "Full Alice"
  {
    var u := t[..5] + t[11..];
    assert u == "Full Alice";
    assert !IsSpace(u[0]) && !IsSpace(u[|u| - 1]);
    TrimNoSpaceEnds(u);
  }

  lemma FullNameLabelEnd(t: string)
    requires t == "Full Name: Alice"
    ensures IsLabelEnd(t, 9, 11, true)
  {
    assert t[9] == ':' && IsSpace(t[10]) && t[11] == 'A';
  }

  lemma FullNameMarker(t: string)
    requires t == "Full Name: Alice"
    ensures MarkerAt(t, NameAnchor) == Some(5)
  {
    var l, n := Lower(t), Lower(NameAnchor);
    LowerAt(NameAnchor, 0);
    assert n[0] == 'n';
    forall j | 0 <= j < 5 ensures !OccursAt(l, n, j) {
      LowerAt(t, j);
      assert l[j..j + 4][0] == l[j];
    }
    LowerSlice(t, 5, 9);
    assert t[5..9] == NameAnchor;
    MarkerAtIs(t, NameAnchor, 5);
  }

  /** On a single line that contains "Name" but is more than the bare
      anchor, the name is the line's inline value. */
  lemma SingleInlineName(t: string)
    requires Contains(t, NameAnchor) && Trim(t) != NameAnchor
    ensures Expected([t]).nidData.name == Some(InlineValue(t, NameAnchor))
  {
    LastLineDecides([t], NameRule, 1, 0);
  }

  /** "Name: Alice" yields the name "Alice". */
  lemma NameColonExample()
    ensures Expected(["Name: Alice"]).nidData.name == Some("Alice")
  {
    AliceIsInlineAnchor();
    AliceInlineValue();
    SingleInlineName("Name: Alice");
  }

  lemma AliceInlineValue()
    ensures InlineValue("Name: Alice", NameAnchor) == "Alice"
  {
    var t := "Name: Alice";
    assert forall k :: 0 <= k < |": "| ==> IsSpace(": "[k]) || ": "[k] == ':';
    assert !IsSpace('A') && !IsSpace('e');
    assert t == t[..4] + t[4..6] + t[6..];
    assert t[..4] == NameAnchor && t[4..6] == ": " && t[6..] == "Alice";
    InlineValueOf(NameAnchor, ": ", "Alice");
  }

  lemma AliceIsInlineAnchor()
    ensures Contains("Name: Alice", NameAnchor) && Trim("Name: Alice") != NameAnchor
  {
    var t := "Name: Alice";
    assert t[0..4] == NameAnchor;
    ContainsSlice(t, 0, 4);
    assert !IsSpace(t[0]) && !IsSpace(t[|t| - 1]);
    TrimNoSpaceEnds(t);
  }

  /** A line "Name:" assigns the empty name, and that alone makes the
      extraction a success. */
  lemma EmptyNameExample()
    ensures Expected(["Name:"]) == NidResponse(Success, NidData(None, Some(""), None))
  {
    var lines := ["Name:"];
    ColonOnlyAssignments();
    LastLineDecides(lines, NameRule, 1, 0);
    LastAssignmentIsLast(lines, DobRule, 1);
    LastAssignmentIsLast(lines, NidRule, 1);
  }

  lemma ColonOnlyAssignments()
    ensures AssignmentAt(["Name:"], 0, NameRule) == Some(Assignment(0, ""))
    ensures AssignmentAt(["Name:"], 0, DobRule).None? && AssignmentAt(["Name:"], 0, NidRule).None?
  {
    ColonOnlyLine();
  }

  lemma ColonOnlyLine()
    ensures InlineValue("Name:", NameAnchor) == ""
    ensures Contains("Name:", NameAnchor) && Trim("Name:") != NameAnchor
    ensures !Contains("Name:", DobAnchor) && !HasDigit("Name:")
  {
    ColonOnlyValue("Name:");
    ColonOnlyAnchor("Name:");
    ColonOnlyNoOtherRule("Name:");
  }

  lemma ColonOnlyNoOtherRule(t: string)
    requires t == "Name:"
    ensures !Contains(t, DobAnchor) && !HasDigit(t)
  {
    assert IndexOfFrom(t, DobAnchor, 0).None?;
    assert forall i :: 0 <= i < |t| ==> !IsDigit(t[i]);
  }

  lemma ColonOnlyValue(t: string)
    requires t == "Name:"
    ensures InlineValue(t, NameAnchor) == ""
  {
    assert t == NameAnchor + ":" + "";
    InlineValueOf(NameAnchor, ":", "");
  }

  lemma ColonOnlyAnchor(t: string)
    requires t == "Name:"
    ensures Contains(t, NameAnchor) && Trim(t) != NameAnchor
  {
    assert t[0..4] == NameAnchor;
    ContainsSlice(t, 0, 4);
    assert !IsSpace(t[0]) && !IsSpace(t[|t| - 1]);
    TrimNoSpaceEnds(t);
  }

  /** The last line with a digit wins: ["ID 123", "Ref 456"] gives "456". */
  lemma LastDigitLineExample()
    ensures Expected(["ID 123", "Ref 456"]).nidData.nid == Some("456")
  {
    var lines := ["ID 123", "Ref 456"];
    assert IsDigit(lines[1][4]);
    NidFromLastDigitLine(lines, 1);
    assert DigitsOnly("Ref 456") == "456";
  }
}
