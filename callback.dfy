/** The two guardrail callbacks (hsn_agent/callback.py): the keyword check
    run before each model call and the HSN-code filter run before each tool
    call. */
module Callback {
  import opened Strings
  import opened Values
  import opened Session

  // ---------------------------------------------------------------------
  // Keyword guardrail (before the model call)
  // ---------------------------------------------------------------------

  /** One part of a message; `text` is None when the part carries no text. */
  datatype Part = Part(text: Option<string>)

  /** One entry of the request history. */
  datatype Content = Content(role: string, parts: seq<Part>)

  const BlockedKeywords: seq<string> := ["STUPID", "IDIOT"]

  const BlockedResponses: seq<string> := [
    "I'm sorry, I cannot process this request as it contains inappropriate language.",
    "This query cannot be processed due to the presence of a blocked word.",
    "To maintain a respectful environment, I am unable to respond to messages containing certain terms.",
    "Your request has been flagged and cannot be completed.",
    "I cannot proceed with this request. Please rephrase your query without using blocked words."
  ]

  /** A history entry the scan accepts: a user message whose first part has
      non-empty text. */
  predicate IsUserText(c: Content) {
    c.role == "user" && |c.parts| > 0 && c.parts[0].text.Some? && c.parts[0].text.value != ""
  }

  /** The text of the latest accepted entry, or "" when there is none. */
  function LatestUserText(contents: seq<Content>): (text: string)
  {
    if |contents| == 0 then ""
    else
      var last := contents[|contents| - 1];
      if IsUserText(last) then last.parts[0].text.value
      else LatestUserText(contents[..|contents| - 1])
  }

  /** The inspected text is non-empty exactly when some entry is accepted,
      and it is then the text of the last accepted entry. */
  lemma {:induction false} LatestUserTextSpec(contents: seq<Content>)
    ensures var text := LatestUserText(contents);
      && (text != "" <==> exists i :: 0 <= i < |contents| && IsUserText(contents[i]))
      && (text != "" ==>
        exists i :: 0 <= i < |contents| && IsUserText(contents[i])
          && text == contents[i].parts[0].text.value
          && forall j :: i < j < |contents| ==> !IsUserText(contents[j]))
  {
    if |contents| > 0 && !IsUserText(contents[|contents| - 1]) {
      var init := contents[..|contents| - 1];
      LatestUserTextSpec(init);
      assert forall i :: 0 <= i < |init| ==> init[i] == contents[i];
    }
  }

  /** One step of the scan from the back. */
  lemma LatestUserTextStep(contents: seq<Content>)
    requires |contents| > 0
    ensures var last := contents[|contents| - 1];
      LatestUserText(contents) == if IsUserText(last) then last.parts[0].text.value
        else LatestUserText(contents[..|contents| - 1])
  {
  }

  /** The backwards scan with `break`. */
  method LatestUserMessageText(contents: seq<Content>) returns (text: string)
    ensures text == LatestUserText(contents)
  {
    text := "";
    var i := |contents|;
    assert contents[..i] == contents;
    while i > 0
      invariant 0 <= i <= |contents|
      invariant text == "" ==> LatestUserText(contents) == LatestUserText(contents[..i])
      invariant text != "" ==> text == LatestUserText(contents)
    {
      i := i - 1;
      var content := contents[i];
      LatestUserTextStep(contents[..i + 1]);
      assert contents[..i + 1][..i] == contents[..i];
      if content.role == "user" && |content.parts| > 0 {
        if content.parts[0].text.Some? && content.parts[0].text.value != "" {
          text := content.parts[0].text.value;
          break;
        }
      }
    }
  }

  /** The keyword test on the inspected text, case-insensitive. */
  predicate MentionsBlockedKeyword(text: string) {
    Contains(Upper(text), "STUPID") || Contains(Upper(text), "IDIOT")
  }

  /** The reply that replaces the model call. */
  datatype LlmResponse = LlmResponse(role: string, parts: seq<Part>)

  /** `block_keyword_model_guardrail`. `pick` stands for the index that
      `random.choice` draws from the five replies. */
  method BlockKeywordModelGuardrail(contents: seq<Content>, session: SessionState, pick: nat)
    returns (response: Option<LlmResponse>)
    requires pick < |BlockedResponses|
    modifies session
    ensures response.Some? <==> MentionsBlockedKeyword(LatestUserText(contents))
    ensures response.Some? ==>
      && response.value.role == "model"
      && |response.value.parts| == 1
      && response.value.parts[0].text.Some?
      && response.value.parts[0].text.value in BlockedResponses
    ensures session.entries ==
      if response.Some? then old(session.entries)[KeywordBlockKey := Flag(true)] else old(session.entries)
  {
    var lastUserMessageText := LatestUserMessageText(contents);
    var upper := Upper(lastUserMessageText);
    for k := 0 to |BlockedKeywords|
      invariant forall j :: 0 <= j < k ==> !Contains(upper, BlockedKeywords[j])
      invariant session.entries == old(session.entries)
    {
      if Contains(upper, BlockedKeywords[k]) {
        session.entries := session.entries[KeywordBlockKey := Flag(true)];
        return Some(LlmResponse("model", [Part(Some(BlockedResponses[pick]))]));
      }
    }
    assert !Contains(upper, BlockedKeywords[0]) && !Contains(upper, BlockedKeywords[1]);
    return None;
  }

  /** The keyword test ignores case: any word that upper-cases to a blocked
      keyword ("stupid", "Idiot", "sTuPiD", ...) is caught wherever it sits
      in the text. */
  lemma KeywordCaseInsensitive(prefix: string, w: string, suffix: string)
    requires Upper(w) == "STUPID" || Upper(w) == "IDIOT"
    ensures MentionsBlockedKeyword(prefix + w + suffix)
  {
    UpperConcat(prefix + w, suffix);
    UpperConcat(prefix, w);
    var u := Upper(prefix + w + suffix);
    assert u == Upper(prefix) + Upper(w) + Upper(suffix);
    assert u[|prefix|..|prefix| + |w|] == Upper(w);
    assert OccursAt(u, Upper(w), |prefix|);
  }

  // ---------------------------------------------------------------------
  // HSN-code guardrail (before the tool call)
  // ---------------------------------------------------------------------

  const TargetToolName := "hsn_code_validation_tool"
  const InputsKey := "hsn_inputs"
  const BlockedPrefix := "12345"
  const RetryAction := "RETRY_WITH_FILTERED_INPUT"

  /** The tool's argument dictionary, which the guardrail rewrites in place. */
  class ToolArgs {
    var entries: map<string, Value>
  }

  /** `isinstance(code, str) and code.strip().startswith("12345")`. */
  predicate IsBlockedCode(code: Value) {
    code.Str? && StartsWith(Strip(code.s), BlockedPrefix)
  }

  predicate AllStrings(codes: seq<Value>) {
    forall k :: 0 <= k < |codes| ==> codes[k].Str?
  }

  /** The stripped codes on one side of the partition, in input order. Each
      is stripped and starts with "12345" exactly on the blocked side. */
  function Side(codes: seq<Value>, blocked: bool): (r: seq<string>)
    requires AllStrings(codes)
    ensures |r| <= |codes|
    ensures forall x :: x in r ==> Strip(x) == x && StartsWith(x, BlockedPrefix) == blocked
  {
    if |codes| == 0 then []
    else
      StripIdempotent(codes[0].s);
      (if IsBlockedCode(codes[0]) == blocked then [Strip(codes[0].s)] else []) + Side(codes[1..], blocked)
  }

  /** Extending the input by one code extends exactly one side by it. */
  lemma {:induction false} SideSnoc(codes: seq<Value>, code: Value, blocked: bool)
    requires AllStrings(codes) && code.Str?
    ensures AllStrings(codes + [code])
    ensures Side(codes + [code], blocked) ==
      Side(codes, blocked) + (if IsBlockedCode(code) == blocked then [Strip(code.s)] else [])
  {
    if |codes| > 0 {
      assert (codes + [code])[1..] == codes[1..] + [code];
      SideSnoc(codes[1..], code, blocked);
    }
  }

  /** Every input code, stripped, in order. */
  function StrippedCodes(codes: seq<Value>): seq<string>
    requires AllStrings(codes)
  {
    if |codes| == 0 then [] else [Strip(codes[0].s)] + StrippedCodes(codes[1..])
  }

  /** The two sides together have exactly as many codes as the input. */
  lemma {:induction false} SidesCoverInput(codes: seq<Value>)
    requires AllStrings(codes)
    ensures |Side(codes, true)| + |Side(codes, false)| == |codes|
  {
    if |codes| > 0 {
      SidesCoverInput(codes[1..]);
    }
  }

  /** Every code lands on exactly one side: the two sides together are a
      permutation of the stripped input. */
  lemma {:induction false} SidesPermuteInput(codes: seq<Value>)
    requires AllStrings(codes)
    ensures multiset(Side(codes, true)) + multiset(Side(codes, false)) == multiset(StrippedCodes(codes))
  {
    if |codes| > 0 {
      var rest := codes[1..];
      var x := Strip(codes[0].s);
      SidesPermuteInput(rest);
      if IsBlockedCode(codes[0]) {
        assert Side(codes, true) == [x] + Side(rest, true);
        assert Side(codes, false) == Side(rest, false);
      } else {
        assert Side(codes, true) == Side(rest, true);
        assert Side(codes, false) == [x] + Side(rest, false);
      }
    }
  }

  /** The loop over the codes. None when an item is not a string: the else
      branch calls `.strip()` on it and raises. */
  method PartitionCodes(codes: seq<Value>) returns (split: Option<(seq<string>, seq<string>)>)
    ensures split.None? <==> !AllStrings(codes)
    ensures split.Some? ==> split.value == (Side(codes, true), Side(codes, false))
  {
    var blockedCodes: seq<string> := [];
    var unblockedCodes: seq<string> := [];
    for i := 0 to |codes|
      invariant AllStrings(codes[..i])
      invariant blockedCodes == Side(codes[..i], true)
      invariant unblockedCodes == Side(codes[..i], false)
    {
      var code := codes[i];
      if !code.Str? {
        return None;
      }
      SideSnoc(codes[..i], code, true);
      SideSnoc(codes[..i], code, false);
      assert codes[..i + 1] == codes[..i] + [code];
      if StartsWith(Strip(code.s), BlockedPrefix) {
        blockedCodes := blockedCodes + [Strip(code.s)];
      } else {
        unblockedCodes := unblockedCodes + [Strip(code.s)];
      }
    }
    assert codes[..|codes|] == codes;
    return Some((blockedCodes, unblockedCodes));
  }

  /** A string value iterates as its one-character strings. */
  function Characters(s: string): (cs: seq<Value>)
    ensures AllStrings(cs)
  {
    seq(|s|, k requires 0 <= k < |s| => Str([s[k]]))
  }

  /** No one-character string starts with "12345", so a string argument
      never has anything blocked. */
  lemma {:induction false} CharactersNeverBlocked(s: string)
    ensures Side(Characters(s), true) == []
  {
    var cs := Characters(s);
    if Side(cs, true) != [] {
      var x := Side(cs, true)[0];
      assert x in Side(cs, true);
      SideBound(cs, x);
    }
  }

  /** Every code on a side is the strip of some input, hence no longer
      than the longest input. */
  lemma {:induction false} SideBound(codes: seq<Value>, x: string)
    requires AllStrings(codes) && (forall k :: 0 <= k < |codes| ==> |codes[k].s| <= 1)
    ensures x in Side(codes, true) ==> |x| <= 1
  {
    if |codes| > 0 {
      SideBound(codes[1..], x);
    }
  }

  /** The reply the guardrail returns when something was blocked. */
  datatype BlockReply = BlockReply(
    unblockedCodes: seq<string>,
    blockedCodes: seq<string>,
    llmMessage: BlockNotice,
    nextAction: string)

  /** What the guardrail does: return None (the call proceeds), return the
      block reply, or raise. */
  datatype GuardOutcome = Proceed | Replace(reply: BlockReply) | Raises

  /** `args.get("hsn_inputs", [])`. */
  function InputsOf(args: map<string, Value>): Value {
    if InputsKey in args then args[InputsKey] else List([])
  }

  /** `block_hsn_code_tool_guardrail`. */
  method BlockHsnCodeToolGuardrail(toolName: string, args: ToolArgs, session: SessionState)
    returns (outcome: GuardOutcome)
    modifies args, session
    ensures toolName != TargetToolName ==> outcome == Proceed
    ensures !Truthy(InputsOf(old(args.entries))) ==> outcome == Proceed
    ensures outcome.Raises? <==>
      && toolName == TargetToolName
      && Truthy(InputsOf(old(args.entries)))
      && (InputsOf(old(args.entries)).Other? || (InputsOf(old(args.entries)).List? && !AllStrings(InputsOf(old(args.entries)).items)))
    ensures outcome.Replace? <==>
      && toolName == TargetToolName
      && InputsOf(old(args.entries)).List?
      && AllStrings(InputsOf(old(args.entries)).items)
      && Side(InputsOf(old(args.entries)).items, true) != []
    ensures outcome.Replace? ==>
      var codes := InputsOf(old(args.entries)).items;
      var blocked, unblocked := Side(codes, true), Side(codes, false);
      && outcome.reply == BlockReply(unblocked, blocked, BlockNotice(blocked, unblocked), RetryAction)
      && args.entries == old(args.entries)[InputsKey := StrList(unblocked)]
      && session.entries == old(session.entries)[HsnBlockKey := Flag(true)][LlmMessageKey := Notice(BlockNotice(blocked, unblocked))]
    ensures !outcome.Replace? ==> args.entries == old(args.entries) && session.entries == old(session.entries)
  {
    if toolName != TargetToolName {
      return Proceed;
    }
    var hsnCodesToCheck := InputsOf(args.entries);
    if !Truthy(hsnCodesToCheck) {
      return Proceed;
    }
    var codes: seq<Value>;
    match hsnCodesToCheck {
      case List(items) => codes := items;
      case Str(s) =>
        codes := Characters(s);
        CharactersNeverBlocked(s);
      case Other(_) => return Raises;
    }
    var split := PartitionCodes(codes);
    if split.None? {
      return Raises;
    }
    var (blockedCodes, unblockedCodes) := split.value;
    if blockedCodes == [] {
      return Proceed;
    }
    args.entries := args.entries[InputsKey := StrList(unblockedCodes)];
    var notice := BlockNotice(blockedCodes, unblockedCodes);
    session.entries := session.entries[HsnBlockKey := Flag(true)];
    session.entries := session.entries[LlmMessageKey := Notice(notice)];
    return Replace(BlockReply(unblockedCodes, blockedCodes, notice, RetryAction));
  }
}
