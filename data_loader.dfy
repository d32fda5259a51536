/** The in-memory HSN master table and how it is built from the master file
    (hsn_agent/data_loader.py). */
module DataLoader {
  import opened Strings
  import opened Values
  import opened Results

  /** Code to description, keyed by the stripped code text. */
  type Table = map<string, Description>

  /** Python's `table.get(key)`. */
  function Get(table: Table, key: string): Option<Description>
  {
    if key in table then Some(table[key]) else None
  }

  /** Python's truthiness of a looked-up description: a missing key and an
      empty string are false; any other text and NaN are true. */
  predicate IsTruthy(d: Option<Description>) {
    d.Some? && (d.value.Missing? || d.value.text != "")
  }

  /** `if table.get(key):` succeeds. */
  predicate HasEntry(table: Table, key: string) {
    IsTruthy(Get(table, key))
  }

  /** One spreadsheet row: the HSNCode cell (None when pandas reads it as
      null) and the Description cell. */
  datatype Row = Row(code: Option<string>, description: Description)

  /** What reading the master file can give: no such file, a read that
      raises, or a sheet with its column names and rows. */
  datatype MasterFile =
    | FileNotFound
    | ReadFailed
    | Sheet(columns: set<string>, rows: seq<Row>)

  const CodeColumn := "HSNCode"
  const DescriptionColumn := "Description"

  /** The number of rows `dropna(subset=['HSNCode'])` keeps. */
  function CodedRows(rows: seq<Row>): nat {
    if |rows| == 0 then 0
    else CodedRows(rows[..|rows| - 1]) + (if rows[|rows| - 1].code.Some? then 1 else 0)
  }

  /** Dropping null codes, stripping the rest and building the dictionary,
      as a left fold over the rows: a later row overwrites an earlier one
      with the same stripped code. Every key is a stripped code and there
      are at most as many keys as coded rows. */
  function BuildTable(rows: seq<Row>): (m: Table)
    ensures forall k :: k in m ==> Strip(k) == k
    ensures |m| <= CodedRows(rows)
  {
    if |rows| == 0 then map[]
    else
      var m := BuildTable(rows[..|rows| - 1]);
      var last := rows[|rows| - 1];
      match last.code
      case None => m
      case Some(c) =>
        StripIdempotent(c);
        assert m[Strip(c) := last.description].Keys == m.Keys + {Strip(c)};
        m[Strip(c) := last.description]
  }

  /** `load_hsn_data`: an empty table when the file is missing, cannot be
      read, or lacks either required column; otherwise the normalised rows. */
  function LoadHsnData(file: MasterFile): (m: Table)
    ensures !file.Sheet? ==> m == map[]
    ensures file.Sheet? && (CodeColumn !in file.columns || DescriptionColumn !in file.columns) ==> m == map[]
    ensures file.Sheet? ==> |m| <= CodedRows(file.rows)
  {
    match file
    case FileNotFound => map[]
    case ReadFailed => map[]
    case Sheet(columns, rows) =>
      if CodeColumn !in columns || DescriptionColumn !in columns then map[]
      else BuildTable(rows)
  }

  /** Row `i` has a code that strips to `k`. */
  predicate CodedAs(rows: seq<Row>, i: int, k: string) {
    0 <= i < |rows| && rows[i].code.Some? && Strip(rows[i].code.value) == k
  }

  /** One fold step: the table of `rows` is that of all rows but the last,
      updated by the last row when it has a code. */
  lemma BuildTableStep(rows: seq<Row>)
    requires |rows| > 0
    ensures var last := rows[|rows| - 1];
      BuildTable(rows) == if last.code.None? then BuildTable(rows[..|rows| - 1])
        else BuildTable(rows[..|rows| - 1])[Strip(last.code.value) := last.description]
  {
  }

  /** A row of a prefix is the same row of the whole sequence. */
  lemma CodedInPrefix(rows: seq<Row>, n: nat, i: int, k: string)
    requires n <= |rows|
    ensures CodedAs(rows[..n], i, k) <==> i < n && CodedAs(rows, i, k)
  {
  }

  /** The index of the last row whose code strips to `k`, or -1 when there
      is none. */
  function LastCoded(rows: seq<Row>, k: string): (i: int)
    ensures -1 <= i < |rows|
    ensures i >= 0 ==> CodedAs(rows, i, k)
    ensures forall j :: i < j < |rows| ==> !CodedAs(rows, j, k)
  {
    if |rows| == 0 then -1
    else if CodedAs(rows, |rows| - 1, k) then |rows| - 1
    else
      var i := LastCoded(rows[..|rows| - 1], k);
      assert forall j :: i < j < |rows| - 1 ==> !CodedAs(rows, j, k) by {
        forall j | i < j < |rows| - 1 ensures !CodedAs(rows, j, k) {
          CodedInPrefix(rows, |rows| - 1, j, k);
        }
      }
      i
  }

  /** Last write wins: `k` is a key exactly when some row's code strips to
      `k`, and it then holds the description of the last such row. */
  lemma {:induction false} LastRowWins(rows: seq<Row>, k: string)
    ensures k in BuildTable(rows) <==> LastCoded(rows, k) >= 0
    ensures k in BuildTable(rows) ==> BuildTable(rows)[k] == rows[LastCoded(rows, k)].description
  {
    if |rows| > 0 {
      LastRowWins(rows[..|rows| - 1], k);
      BuildTableStep(rows);
    }
  }

  /** The loader's whole contract for a readable sheet with both columns:
      the keys are exactly the stripped codes, each already stripped, each
      holding the description of the last row with that code. */
  lemma LoadedTable(columns: set<string>, rows: seq<Row>, k: string)
    requires CodeColumn in columns && DescriptionColumn in columns
    ensures var m := LoadHsnData(Sheet(columns, rows));
      && (k in m <==> exists i :: CodedAs(rows, i, k))
      && (k in m ==> Strip(k) == k)
      && (k in m ==> m[k] == rows[LastCoded(rows, k)].description)
  {
    LastRowWins(rows, k);
  }

  /** Keys are stripped but never checked to be digits: a row coded " ab "
      becomes the key "ab". */
  lemma KeysNeedNotBeDigits()
    ensures var m := LoadHsnData(Sheet({CodeColumn, DescriptionColumn}, [Row(Some(" ab "), Text("x"))]));
      "ab" in m && !IsDigits("ab")
  {
    assert " ab "[1..] == "ab " && "ab "[..2] == "ab";
    assert TrimStart(" ab ") == TrimStart("ab ") == "ab ";
    assert TrimEnd("ab ") == TrimEnd("ab") == "ab";
  }
}
