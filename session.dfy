/** The agent session's state dictionary, which the tool and the guardrails
    write into in place. */
module Session {
  import opened Results

  const LastResultKey := "hsn_tool_last_result"
  const HsnBlockKey := "guardrail_hsn_block_triggered"
  const LlmMessageKey := "llm_message"
  const KeywordBlockKey := "guardrail_block_keyword_triggered"

  /** The message the tool guardrail leaves for the model; only the two code
      lists it interpolates are kept. */
  datatype BlockNotice = BlockNotice(blocked: seq<string>, unblocked: seq<string>)

  /** What the core stores in the state. */
  datatype StateEntry =
    | Flag(b: bool)
    | Notice(notice: BlockNotice)
    | ToolResults(results: seq<ValidationResult>)

  /** `tool_context.state` / `callback_context.state`. */
  class SessionState {
    var entries: map<string, StateEntry>
  }
}
