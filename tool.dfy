/** The HSN validation tool (hsn_agent/tool.py): format check, exact lookup
    and the hierarchical parent fallback, one record per input code. */
module Tool {
  import opened Strings
  import opened Values
  import opened Results
  import opened DataLoader
  import opened Session

  /** A cleaned code the tool accepts: all digits, of length 2, 4, 6 or 8. */
  predicate WellFormed(code: string) {
    IsDigits(code) && |code| in {2, 4, 6, 8}
  }

  /** The ancestors a not-found code consults, in order: the code without
      its last two digits (only for 6- and 8-digit codes), then the 2-digit
      chapter (for codes of 4 digits or more). */
  function CheckedParents(code: string): (ps: seq<(ParentLevel, string)>)
    requires WellFormed(code)
    ensures forall p :: p in ps ==> |p.1| < |code| && p.1 == code[..|p.1|]
  {
    (if |code| == 6 || |code| == 8 then [(Category, code[..|code| - 2])] else [])
    + (if |code| >= 4 then [(Chapter, code[..2])] else [])
  }

  /** The first of `candidates` with a non-empty table entry. */
  function FirstParent(table: Table, candidates: seq<(ParentLevel, string)>): (p: Option<Parent>)
    ensures p.Some? <==> exists k :: 0 <= k < |candidates| && HasEntry(table, candidates[k].1)
    ensures p.Some? ==>
      exists k :: 0 <= k < |candidates|
        && (forall j :: 0 <= j < k ==> !HasEntry(table, candidates[j].1))
        && HasEntry(table, candidates[k].1)
        && p.value == Parent(candidates[k].0, candidates[k].1, table[candidates[k].1])
  {
    if |candidates| == 0 then None
    else if HasEntry(table, candidates[0].1) then
      Some(Parent(candidates[0].0, candidates[0].1, table[candidates[0].1]))
    else
      var p := FirstParent(table, candidates[1..]);
      assert forall k :: 1 <= k < |candidates| ==> candidates[k] == candidates[1..][k - 1];
      p
  }

  /** The record the tool produces for one item of its input list. */
  function CheckCode(table: Table, item: Value): (r: ValidationResult)
    ensures r.inputHsn == item
    ensures r.isValid <==> r.reasonCode.None?
    ensures r.isValid <==> r.description.Some?
    ensures r.parent.Some? <==> r.reasonCode == Some(NotFoundButParentExists)
  {
    match item
    case Str(s) =>
      var code := Strip(s);
      if !WellFormed(code) then Rejected(item, InvalidFormat)
      else if HasEntry(table, code) then ValidationResult(item, true, Some(table[code]), None, None)
      else
        (match FirstParent(table, CheckedParents(code))
         case Some(p) => ValidationResult(item, false, None, Some(NotFoundButParentExists), Some(p))
         case None => Rejected(item, NotFound))
    case _ => Rejected(item, InvalidItemType)
  }

  /** The whole tool call: one DATASTORE_UNAVAILABLE record for an empty
      table, whatever the input; one INVALID_INPUT_TYPE record for a
      non-list input; otherwise one record per item, in order. */
  function Validate(table: Table, input: Value): (rs: seq<ValidationResult>)
    ensures |table| == 0 ==> |rs| == 1 && rs[0] == Rejected(input, DatastoreUnavailable)
    ensures |table| > 0 && !input.List? ==> |rs| == 1 && rs[0] == Rejected(input, InvalidInputType)
    ensures |table| > 0 && input.List? ==>
      && |rs| == |input.items|
      && forall k :: 0 <= k < |rs| ==> rs[k].inputHsn == input.items[k] && rs[k] == CheckCode(table, input.items[k])
  {
    if |table| == 0 then [Rejected(input, DatastoreUnavailable)]
    else if !input.List? then [Rejected(input, InvalidInputType)]
    else seq(|input.items|, k requires 0 <= k < |input.items| => CheckCode(table, input.items[k]))
  }

  /** The per-item loop of `hsn_code_validation_tool`, with its `continue`s
      and its `parent_found` flag. */
  method ValidateItems(table: Table, items: seq<Value>) returns (results: seq<ValidationResult>)
    ensures |results| == |items|
    ensures forall k :: 0 <= k < |items| ==> results[k] == CheckCode(table, items[k])
  {
    results := [];
    for i := 0 to |items|
      invariant |results| == i
      invariant forall k :: 0 <= k < i ==> results[k] == CheckCode(table, items[k])
    {
      var code := items[i];
      if !code.Str? {
        results := results + [Rejected(code, InvalidItemType)];
        continue;
      }
      var cleanCode := Strip(code.s);
      if !IsDigits(cleanCode) || |cleanCode| !in {2, 4, 6, 8} {
        results := results + [Rejected(code, InvalidFormat)];
        continue;
      }
      var description := Get(table, cleanCode);
      if IsTruthy(description) {
        results := results + [ValidationResult(code, true, description, None, None)];
      } else {
        var parentFound := false;
        if |cleanCode| >= 4 {
          FirstParentOfList(table, CheckedParents(cleanCode));
        }
        if |cleanCode| == 6 || |cleanCode| == 8 {
          var parentCode := cleanCode[..|cleanCode| - 2];
          var parentDescription := Get(table, parentCode);
          if IsTruthy(parentDescription) {
            var p := Parent(Category, parentCode, parentDescription.value);
            results := results + [ValidationResult(code, false, None, Some(NotFoundButParentExists), Some(p))];
            parentFound := true;
          }
        }
        if !parentFound && |cleanCode| >= 4 {
          var parentCode := cleanCode[..2];
          var parentDescription := Get(table, parentCode);
          if IsTruthy(parentDescription) {
            var p := Parent(Chapter, parentCode, parentDescription.value);
            results := results + [ValidationResult(code, false, None, Some(NotFoundButParentExists), Some(p))];
            parentFound := true;
          }
        }
        if !parentFound {
          results := results + [Rejected(code, NotFound)];
        }
      }
    }
  }

  /** `hsn_code_validation_tool`: the table is the module-level master data,
      passed in. Only the list path records its result in the session. */
  method HsnCodeValidationTool(table: Table, hsnInputs: Value, session: SessionState)
    returns (results: seq<ValidationResult>)
    modifies session
    ensures results == Validate(table, hsnInputs)
    ensures session.entries ==
      if |table| > 0 && hsnInputs.List? then old(session.entries)[LastResultKey := ToolResults(results)]
      else old(session.entries)
  {
    if |table| == 0 {
      return [Rejected(hsnInputs, DatastoreUnavailable)];
    }
    if !hsnInputs.List? {
      return [Rejected(hsnInputs, InvalidInputType)];
    }
    results := ValidateItems(table, hsnInputs.items);
    session.entries := session.entries[LastResultKey := ToolResults(results)];
  }

  /** The reason code of every record, stated as conditions on the input:
      INVALID_ITEM_TYPE for a non-string, INVALID_FORMAT for a string whose
      stripped form is malformed, valid exactly on an exact hit, then
      NOT_FOUND_BUT_PARENT_EXISTS or NOT_FOUND by the checked ancestors. */
  lemma Classification(table: Table, item: Value)
    ensures var r := CheckCode(table, item);
      && (r.reasonCode == Some(InvalidItemType) <==> !item.Str?)
      && (r.reasonCode == Some(InvalidFormat) <==> item.Str? && !WellFormed(Strip(item.s)))
      && (r.isValid <==> item.Str? && WellFormed(Strip(item.s)) && HasEntry(table, Strip(item.s)))
      && (r.isValid ==> r.description == Some(table[Strip(item.s)]))
      && (r.reasonCode == Some(NotFoundButParentExists) <==>
            item.Str? && WellFormed(Strip(item.s)) && !HasEntry(table, Strip(item.s))
            && exists k :: 0 <= k < |CheckedParents(Strip(item.s))|
                 && HasEntry(table, CheckedParents(Strip(item.s))[k].1))
      && (r.reasonCode == Some(NotFound) <==>
            item.Str? && WellFormed(Strip(item.s)) && !HasEntry(table, Strip(item.s))
            && forall k :: 0 <= k < |CheckedParents(Strip(item.s))|
                 ==> !HasEntry(table, CheckedParents(Strip(item.s))[k].1))
  {
  }

  /** The fallback order for a well-formed code with no entry of its own:
      a 2-digit code is NOT_FOUND; a 4-digit code tries only its chapter; a
      6- or 8-digit code tries the code minus two digits first and the
      chapter only when that fails. */
  lemma FallbackOrder(table: Table, s: string)
    requires WellFormed(Strip(s)) && !HasEntry(table, Strip(s))
    ensures var code, r := Strip(s), CheckCode(table, Str(s));
      var up, chapter := code[..|code| - 2], code[..2];
      && (|code| == 2 ==> r == Rejected(Str(s), NotFound))
      && (|code| >= 6 && HasEntry(table, up) ==>
            r.parent == Some(Parent(Category, up, table[up])))
      && ((|code| == 4 || !HasEntry(table, up)) && |code| >= 4 && HasEntry(table, chapter) ==>
            r.parent == Some(Parent(Chapter, chapter, table[chapter])))
      && (|code| >= 4 && (|code| == 4 || !HasEntry(table, up)) && !HasEntry(table, chapter) ==>
            r == Rejected(Str(s), NotFound))
  {
    var code := Strip(s);
    var ps := CheckedParents(code);
    var item := Str(s);
    assert CheckCode(table, item) ==
      match FirstParent(table, ps)
      case Some(p) => ValidationResult(item, false, None, Some(NotFoundButParentExists), Some(p))
      case None => Rejected(item, NotFound);
    if |code| == 2 {
      assert ps == [];
    } else if |code| == 4 {
      assert ps == [(Chapter, code[..2])];
      FirstParentOfList(table, ps);
    } else {
      assert ps == [(Category, code[..|code| - 2]), (Chapter, code[..2])];
      FirstParentOfList(table, ps);
    }
  }

  /** FirstParent on the one- and two-element lists the tool checks. */
  lemma FirstParentOfList(table: Table, ps: seq<(ParentLevel, string)>)
    requires 1 <= |ps| <= 2
    ensures FirstParent(table, ps) ==
      if HasEntry(table, ps[0].1) then Some(Parent(ps[0].0, ps[0].1, table[ps[0].1]))
      else if |ps| == 2 && HasEntry(table, ps[1].1) then Some(Parent(ps[1].0, ps[1].1, table[ps[1].1]))
      else None
  {
    if |ps| == 2 {
      assert ps[1..][1..] == [];
    } else {
      assert ps[1..] == [];
    }
  }

  /** The record for a code depends on the table only through the code
      itself and the ancestors it checks. */
  lemma {:induction false} OnlyCheckedKeysMatter(t1: Table, t2: Table, item: Value)
    requires item.Str? && WellFormed(Strip(item.s)) ==>
      && Get(t1, Strip(item.s)) == Get(t2, Strip(item.s))
      && forall p :: p in CheckedParents(Strip(item.s)) ==> Get(t1, p.1) == Get(t2, p.1)
    ensures CheckCode(t1, item) == CheckCode(t2, item)
  {
    if item.Str? && WellFormed(Strip(item.s)) {
      SameFirstParent(t1, t2, CheckedParents(Strip(item.s)));
    }
  }

  lemma {:induction false} SameFirstParent(t1: Table, t2: Table, candidates: seq<(ParentLevel, string)>)
    requires forall p :: p in candidates ==> Get(t1, p.1) == Get(t2, p.1)
    ensures FirstParent(t1, candidates) == FirstParent(t2, candidates)
  {
    if |candidates| > 0 {
      assert candidates[0] in candidates;
      SameFirstParent(t1, t2, candidates[1..]);
    }
  }

  /** An 8-digit code never consults its 4-digit heading: whatever the table
      says about that prefix, the record is the same. */
  lemma EightDigitSkipsHeading(table: Table, s: string, d: Description)
    requires WellFormed(Strip(s)) && |Strip(s)| == 8
    ensures CheckCode(table[Strip(s)[..4] := d], Str(s)) == CheckCode(table, Str(s))
  {
    var code := Strip(s);
    var t2 := table[code[..4] := d];
    forall p | p in CheckedParents(code) ensures Get(table, p.1) == Get(t2, p.1) {
      assert |p.1| != 4;
    }
    OnlyCheckedKeysMatter(table, t2, Str(s));
  }

  /** A padded code is looked up by its stripped form, and its record keeps
      the padded input; a code with an inner space fails the format check. */
  lemma PaddedCodeIsLookedUpStripped(table: Table)
    requires HasEntry(table, "8465")
    ensures CheckCode(table, Str(" 8465 ")) == ValidationResult(Str(" 8465 "), true, Some(table["8465"]), None, None)
    ensures CheckCode(table, Str("84 65")) == Rejected(Str("84 65"), InvalidFormat)
  {
    assert " 8465 "[1..] == "8465 " && "8465 "[..4] == "8465";
    assert TrimStart(" 8465 ") == TrimStart("8465 ") == "8465 ";
    assert TrimEnd("8465 ") == TrimEnd("8465") == "8465";
    assert !IsSpace('8') && !IsSpace('5');
    assert TrimStart("84 65") == "84 65" && TrimEnd("84 65") == "84 65";
    assert !IsDigits("84 65") by { assert "84 65"[2] == ' '; }
  }

  /** "846591" is absent but its parent "8465" is present. */
  lemma ParentOfUnknownSubheading(table: Table)
    requires !HasEntry(table, "846591") && HasEntry(table, "8465")
    ensures CheckCode(table, Str("846591")).reasonCode == Some(NotFoundButParentExists)
    ensures CheckCode(table, Str("846591")).parent == Some(Parent(Category, "8465", table["8465"]))
  {
    assert TrimStart("846591") == "846591" && TrimEnd("846591") == "846591";
    assert "846591"[..4] == "8465";
    FallbackOrder(table, "846591");
  }

  /** "99999999" with neither "999999" nor "99" present is NOT_FOUND, even
      when the heading "9999" is present. */
  lemma UnknownCodeWithoutAncestors(table: Table)
    requires !HasEntry(table, "99999999") && !HasEntry(table, "999999") && !HasEntry(table, "99")
    ensures CheckCode(table, Str("99999999")) == Rejected(Str("99999999"), NotFound)
  {
    assert TrimStart("99999999") == "99999999" && TrimEnd("99999999") == "99999999";
    assert "99999999"[..6] == "999999" && "99999999"[..2] == "99";
    FallbackOrder(table, "99999999");
  }
}
