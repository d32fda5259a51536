/** The records the HSN validation tool returns, one per checked input. */
module Results {
  import opened Values

  /** A cell of the master file's description column: its text, or the
      missing-value marker pandas reads for a blank cell (NaN, which Python
      treats as true). */
  datatype Description = Text(text: string) | Missing

  /** The fixed set of reason codes a failed validation carries. */
  datatype ReasonCode =
    | DatastoreUnavailable
    | InvalidInputType
    | InvalidItemType
    | InvalidFormat
    | NotFoundButParentExists
    | NotFound

  /** Which ancestor the not-found message names: the code without its last
      two digits ("parent category") or its 2-digit chapter. */
  datatype ParentLevel = Category | Chapter

  /** The ancestor code and description the not-found message interpolates. */
  datatype Parent = Parent(level: ParentLevel, code: string, description: Description)

  /** One result dictionary. `inputHsn` is the input value: the source
      stores its `str()` on the whole-call records and on INVALID_ITEM_TYPE,
      and the item itself on every other record. `description` is present
      only on a valid code, `reasonCode` only on an invalid one, and `parent`
      stands for the message of NOT_FOUND_BUT_PARENT_EXISTS. */
  datatype ValidationResult = ValidationResult(
    inputHsn: Value,
    isValid: bool,
    description: Option<Description>,
    reasonCode: Option<ReasonCode>,
    parent: Option<Parent>)

  /** A record for a failure that names no ancestor. */
  function Rejected(input: Value, reason: ReasonCode): ValidationResult {
    ValidationResult(input, false, None, Some(reason), None)
  }
}
