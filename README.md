# HSN code validation agent — verified model of its core

The repository is a conversational agent that validates HSN (Harmonized System
Nomenclature) tariff codes. This project models in Dafny the four pieces of it
that carry logic:

- **The validation tool** `hsn_code_validation_tool` (module `Tool`). It
  looks up each candidate code in the master table: exact hit, then the code
  without its last two digits, then the 2-digit chapter. It returns one result
  record per code, with a reason code from a fixed set. It also has two
  whole-call short-circuits: an empty table and a non-list input.
- **The table loader** `load_hsn_data` (module `DataLoader`). It turns the
  master spreadsheet into the code-to-description dictionary. Rows with a
  null code are dropped, codes are stripped, the last row wins on a duplicate,
  and every failure yields an empty table.
- **The tool guardrail** `block_hsn_code_tool_guardrail` (module `Callback`).
  It splits the codes into blocked ones (stripped code starts with `12345`)
  and the rest. When something is blocked, it rewrites `args["hsn_inputs"]`
  in place and records the block in the session state.
- **The keyword guardrail** `block_keyword_model_guardrail` (module
  `Callback`). It finds the latest user message in the request history and
  blocks the model call when that message contains `STUPID` or `IDIOT`, in
  any case.

Shared modules: `Strings` holds Python's `strip`, `isdigit`, `upper`,
`startswith` and `in`. `Values` holds the dynamically typed argument values
and their truthiness. `Results` holds the result records. `Session` holds the
session state that the tool and the callbacks write into.

`hsn_agent/agent_full_code.py` repeats all four functions verbatim; only the
message wording differs. The same members model both copies. Lines 37-62 of
that file are `load_hsn_data`, 72-119 the keyword guardrail, 123-175 the tool
guardrail and 179-262 the validation tool. Some rows below cite that file.

Form follows the source:
- The tool's `for` loop, with its `continue`s and its `parent_found` flag, is
  the method `Tool.ValidateItems`. It is proved equal, item by item, to the
  declarative `Tool.CheckCode`: the first checked ancestor with a non-empty
  entry.
- The session state and the tool arguments are dictionaries that the source
  updates in place. They are the classes `Session.SessionState` and
  `Callback.ToolArgs`. The methods that write them state the whole new
  dictionary.
- The backwards scan with `break` and the keyword loop with its early return
  are methods, proved against `Callback.LatestUserText` and
  `Callback.MentionsBlockedKeyword`.
- The code-partition loop is `Callback.PartitionCodes`, proved against the
  order-preserving filter `Callback.Side`.
- The loader's dictionary construction is a pure left fold over the rows,
  `DataLoader.BuildTable`.

Behaviour of the code worth knowing; the model follows the code:
- The validation tool's docstring says it accepts a single code as a string.
  The code answers a string input with one `INVALID_INPUT_TYPE` record.
- The comment on the chapter check (hsn_agent/tool.py:64) speaks of "a
  4-digit code", but the check runs for every code of 4 or more digits whose
  shorter parent was not found. A 6- or 8-digit code can therefore be
  reported under its 2-digit chapter (`Tool.FallbackOrder`).
- An empty table gives a single `DATASTORE_UNAVAILABLE` record, not one per
  input.
- Ancestors are tested by Python truthiness. An entry whose description is
  the empty string counts as absent. A blank description cell, which pandas
  reads as NaN, counts as present, because NaN is true in Python.
- Table keys are stripped but never checked to be digits.

## Model

| member | source | states |
|---|---|---|
| `Strings.StripSpec` | hsn_agent/tool.py:38 | `strip()` leaves a slice of the input with only whitespace around it, and the slice neither starts nor ends with whitespace |
| `Strings.StripIdempotent` | hsn_agent/data_loader.py:23 | stripping an already stripped code changes nothing |
| `Strings.UpperConcat` | hsn_agent/callback.py:45 | `upper()` works character by character: upper-casing a concatenation is the concatenation of the upper-cased parts |
| `DataLoader.BuildTable` | hsn_agent/data_loader.py:22-24 | every key of the built table is a stripped code, and there are at most as many keys as rows with a non-null code |
| `DataLoader.LoadHsnData` | hsn_agent/data_loader.py:6-31 | a missing file, a read that raises, or a missing `HSNCode` or `Description` column gives the empty table; otherwise the table has at most as many keys as coded rows |
| `DataLoader.LastCoded` | hsn_agent/data_loader.py:24 | the index returned is a row whose code strips to the key, no later row does, and -1 means no row does |
| `DataLoader.LastRowWins` | hsn_agent/data_loader.py:22-24 | a key is in the table exactly when some non-null row code strips to it, and it holds the description of the last such row (last write wins) |
| `DataLoader.LoadedTable` | hsn_agent/agent_full_code.py:46-58 | for a readable sheet with both columns: keys are exactly the stripped non-null codes, each key is already stripped, and each holds the last such row's description |
| `DataLoader.KeysNeedNotBeDigits` | hsn_agent/data_loader.py:22-24 | the loader accepts a non-digit code: a row coded `" ab "` yields the key `"ab"` |
| `Tool.CheckedParents` | hsn_agent/tool.py:53-66 | the ancestors a not-found code consults are proper prefixes of it |
| `Tool.FirstParent` | hsn_agent/tool.py:51-75 | an ancestor is reported exactly when some checked ancestor has a non-empty entry; it is the first such one, with that entry's description |
| `Tool.CheckCode` | hsn_agent/tool.py:32-83 | each record keeps the original, unstripped input; it is valid exactly when it has no reason code and exactly when it carries a description; it names a parent exactly when its reason is `NOT_FOUND_BUT_PARENT_EXISTS` |
| `Tool.Validate` | hsn_agent/tool.py:15-31 | empty table: exactly one `DATASTORE_UNAVAILABLE` record whatever the input; non-list input: exactly one `INVALID_INPUT_TYPE` record; list: one record per item, in input order, each keeping its item |
| `Tool.ValidateItems` | hsn_agent/agent_full_code.py:204-256 | the loop, with its `continue`s and `parent_found` flag, appends exactly one record per item, and record `k` is the declarative result for item `k` |
| `Tool.HsnCodeValidationTool` | hsn_agent/tool.py:6-87 | returns the result of `Validate`; only the list path sets `state["hsn_tool_last_result"]` to the returned list, and no other state key changes |
| `Tool.Classification` | hsn_agent/tool.py:34-83 | `INVALID_ITEM_TYPE` iff the item is not a string; `INVALID_FORMAT` iff its stripped form is not 2/4/6/8 digits; valid iff the stripped code has a non-empty entry, with that entry as the description; `NOT_FOUND_BUT_PARENT_EXISTS` iff some checked ancestor has one; `NOT_FOUND` iff none does |
| `Tool.FallbackOrder` | hsn_agent/agent_full_code.py:224-256 | a 2-digit code goes straight to `NOT_FOUND`; 6- and 8-digit codes try the code minus two digits first, and once it is found the chapter is not reported; a 4-digit code, or a longer one whose shorter parent is absent, falls back to its chapter, else `NOT_FOUND` |
| `Tool.OnlyCheckedKeysMatter` | hsn_agent/tool.py:45-75 | the record depends on the table only through the code's own entry and the entries of the ancestors it checks |
| `Tool.EightDigitSkipsHeading` | hsn_agent/tool.py:53-66 | an 8-digit code never consults its 4-digit prefix: changing that table entry never changes its record |
| `Tool.PaddedCodeIsLookedUpStripped` | hsn_agent/tool.py:38-48 | `" 8465 "` is looked up as `"8465"` and reported valid with its description, keeping the padded input; `"84 65"` is `INVALID_FORMAT` |
| `Tool.ParentOfUnknownSubheading` | hsn_agent/tool.py:53-63 | with `846591` absent and `8465` present, the record is `NOT_FOUND_BUT_PARENT_EXISTS` naming the category `8465` and its description |
| `Tool.UnknownCodeWithoutAncestors` | hsn_agent/tool.py:50-83 | with `99999999`, `999999` and `99` absent, the record is `NOT_FOUND` |
| `Callback.LatestUserTextSpec` | hsn_agent/callback.py:23-29 | the inspected text is non-empty exactly when some entry is a user message whose first part has non-empty text; it is then the text of the last such entry |
| `Callback.LatestUserMessageText` | hsn_agent/agent_full_code.py:83-89 | the backwards scan with `break` returns exactly the latest user text |
| `Callback.BlockKeywordModelGuardrail` | hsn_agent/callback.py:12-59 | blocks exactly when the upper-cased latest user text contains `STUPID` or `IDIOT`; a block replies as role `model` with one part whose text is one of the five fixed messages and sets `guardrail_block_keyword_triggered`; otherwise returns None and leaves the state unchanged |
| `Callback.KeywordCaseInsensitive` | hsn_agent/agent_full_code.py:104-105 | any word that upper-cases to `STUPID` or `IDIOT`, in any mix of cases, is caught wherever it appears in the text, whatever surrounds it |
| `Callback.Side` | hsn_agent/callback.py:87-91 | the side is a filter of the inputs, in input order; every code on it is stripped, and it starts with `12345` exactly on the blocked side; a side is never longer than the input |
| `Callback.SidesCoverInput` | hsn_agent/callback.py:84-91 | `len(blocked) + len(unblocked) == len(inputs)` |
| `Callback.SidesPermuteInput` | hsn_agent/agent_full_code.py:144-151 | every stripped input code lands on exactly one side: together the sides are a permutation of the stripped inputs |
| `Callback.PartitionCodes` | hsn_agent/agent_full_code.py:147-151 | the loop raises exactly when some item is not a string (the else branch calls `.strip()` on it); otherwise it builds exactly the two sides |
| `Callback.CharactersNeverBlocked` | hsn_agent/callback.py:80-96 | when `hsn_inputs` is a string, the loop runs over its one-character strings, and none of them is ever blocked |
| `Callback.BlockHsnCodeToolGuardrail` | hsn_agent/callback.py:63-117 | returns None with `args` and state unchanged for another tool, a missing or falsy `hsn_inputs`, or nothing blocked; raises exactly on a non-string item or a non-iterable input; otherwise sets `args["hsn_inputs"]` to the unblocked codes (no other key changes), sets the block flag and message in the state, and returns both lists with `next_action` `RETRY_WITH_FILTERED_INPUT` |

## Left out

- File I/O and pandas: `os.path.exists` and `pd.read_excel` are replaced by
  the input `DataLoader.MasterFile`. It is a missing file, a read that raises,
  or the sheet's column names and rows with their cells already read as text.
  Any exception raised after the read is folded into the read failure.
- The module-level load at import time. The master table is a parameter of
  the validation tool.
- Python's `str.isdigit` and `str.upper` are modelled on ASCII only.
  `isdigit` also accepts other Unicode digits, such as `"²"`. `upper` also
  maps non-ASCII letters, and some of them (`"ſ"`) to ASCII capitals. The
  model's `strip` uses Python's full whitespace set.
- `str()` of the input: `input_hsn` holds the input value itself, not its
  Python rendering.
- Messages: the wording of the result messages and of the guardrail's LLM
  message is not modelled. The parts they interpolate are kept: the parent
  code and its description, and the blocked and unblocked lists.
- `random.choice` is the parameter `pick`, an index into the five replies.
- Framework objects are reduced. The request history is a sequence of
  (role, parts) pairs. A part is its optional text. Each context is its
  state dictionary, and a tool is its name.
- Dictionaries as argument values: `Values.Value` covers strings, lists and
  non-iterable scalars (None, numbers, booleans). A dict given as
  `hsn_inputs` would be iterated over its keys; that is not modelled.
- Logging (`print`), the agent, runner and session-service setup, the async
  conversation driver and the prompt text: framework wiring with no logic.
