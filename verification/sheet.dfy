/**
 The exported dispensing sheet as the preparation step sees it once it has
 been read: a set of column headers and a sequence of rows. Each cell is
 either text or blank (a spreadsheet's empty cell, read as NaN). Only the
 columns the preparation step consults are represented.
 */
module Sheet {

  /** One cell: its text, or `Blank` for an empty cell. */
  datatype Cell = Text(text: string) | Blank

  /** The text a cell turns into when converted to a string: a blank cell
      reads as "nan", the way a missing value is rendered. */
  function Render(c: Cell): string {
    match c
    case Text(t) => t
    case Blank => "nan"
  }

  /** The column headers the preparation step looks for. */
  datatype Column =
    | FlagIssue        // "Flag Issue"
    | M7LogExist       // "M7 Log Exist"
    | VNNumber         // "VN Number"
    | OrderNumber      // "Order Number"
    | VNDate           // "VN Date"
    | AdmitNumber      // "Admit Number"
    | OrderDate        // "Order Date"
    | StorageLocation  // "Storage location"

  /** One exported row. A field whose column the sheet lacks holds whatever
      it holds and is never read. */
  datatype SourceRow = SourceRow(
    flagIssue: Cell,
    m7LogExist: Cell,
    vnNumber: Cell,
    orderNumber: Cell,
    vnDate: Cell,
    admitNumber: Cell,
    orderDate: Cell,
    storageLocation: Cell)

  function CellAt(row: SourceRow, col: Column): Cell {
    match col
    case FlagIssue => row.flagIssue
    case M7LogExist => row.m7LogExist
    case VNNumber => row.vnNumber
    case OrderNumber => row.orderNumber
    case VNDate => row.vnDate
    case AdmitNumber => row.admitNumber
    case OrderDate => row.orderDate
    case StorageLocation => row.storageLocation
  }

  datatype Sheet = Sheet(columns: set<Column>, rows: seq<SourceRow>)

  /** A flag cell marks its row for removal only when it is exactly "X";
      a blank cell or any other text leaves the row in. */
  predicate Flagged(c: Cell) {
    c == Text("X")
  }

  /** One filter pass: the rows whose `col` cell is not "X", in order. */
  function DropFlaggedBy(rows: seq<SourceRow>, col: Column): (r: seq<SourceRow>)
    ensures |r| <= |rows|
    ensures forall i :: 0 <= i < |r| ==> r[i] in rows && !Flagged(CellAt(r[i], col))
    ensures forall i :: 0 <= i < |rows| && !Flagged(CellAt(rows[i], col)) ==> rows[i] in r
  {
    if |rows| == 0 then []
    else
      var rest := DropFlaggedBy(rows[1..], col);
      assert forall i :: 1 <= i < |rows| ==> rows[i] == rows[1..][i - 1];
      if Flagged(CellAt(rows[0], col)) then rest else [rows[0]] + rest
  }

  /** The two filters of the preparation step, in the order they run: the
      "Flag Issue" filter, then the "M7 Log Exist" filter, each applied only
      when its column is present. */
  function DropFlagged(sheet: Sheet): (r: seq<SourceRow>)
    ensures forall i :: 0 <= i < |r| ==> r[i] in sheet.rows && Survives(sheet.columns, r[i])
    ensures forall i :: 0 <= i < |sheet.rows| && Survives(sheet.columns, sheet.rows[i]) ==> sheet.rows[i] in r
  {
    var afterIssue :=
      if FlagIssue in sheet.columns then DropFlaggedBy(sheet.rows, FlagIssue) else sheet.rows;
    assert forall i :: 0 <= i < |afterIssue| ==>
      afterIssue[i] in sheet.rows && (FlagIssue in sheet.columns ==> !Flagged(afterIssue[i].flagIssue));
    if M7LogExist in sheet.columns then DropFlaggedBy(afterIssue, M7LogExist) else afterIssue
  }

  /** A row survives when each flag column is absent from the sheet or holds
      something other than "X" in that row. */
  predicate Survives(columns: set<Column>, row: SourceRow) {
    && (FlagIssue in columns ==> !Flagged(row.flagIssue))
    && (M7LogExist in columns ==> !Flagged(row.m7LogExist))
  }

  /** The surviving rows in one pass, in their original order. */
  function Survivors(columns: set<Column>, rows: seq<SourceRow>): (r: seq<SourceRow>)
    ensures |r| <= |rows|
    ensures forall i :: 0 <= i < |r| ==> r[i] in rows && Survives(columns, r[i])
    ensures forall i :: 0 <= i < |rows| && Survives(columns, rows[i]) ==> rows[i] in r
  {
    if |rows| == 0 then []
    else
      var rest := Survivors(columns, rows[1..]);
      assert forall i :: 1 <= i < |rows| ==> rows[i] == rows[1..][i - 1];
      if Survives(columns, rows[0]) then [rows[0]] + rest else rest
  }

  /** Filtering commutes with concatenation, so the survivors keep their
      relative order. */
  lemma {:induction false} SurvivorsAppend(columns: set<Column>, a: seq<SourceRow>, b: seq<SourceRow>)
    ensures Survivors(columns, a + b) == Survivors(columns, a) + Survivors(columns, b)
  {
    if |a| > 0 {
      assert (a + b)[0] == a[0];
      assert (a + b)[1..] == a[1..] + b;
      SurvivorsAppend(columns, a[1..], b);
    } else {
      assert a + b == b;
    }
  }

  /** With neither flag column present nothing is dropped. */
  lemma {:induction false} SurvivorsWithoutFlagColumns(columns: set<Column>, rows: seq<SourceRow>)
    requires FlagIssue !in columns && M7LogExist !in columns
    ensures Survivors(columns, rows) == rows
  {
    if |rows| > 0 {
      SurvivorsWithoutFlagColumns(columns, rows[1..]);
      assert rows == [rows[0]] + rows[1..];
    }
  }

  /** One more filter pass over what `Survivors` leaves is `Survivors` with
      that flag column added. */
  lemma {:induction false} DropFlaggedByExtends(columns: set<Column>, rows: seq<SourceRow>, col: Column)
    requires col == FlagIssue || col == M7LogExist
    ensures DropFlaggedBy(Survivors(columns, rows), col) == Survivors(columns + {col}, rows)
  {
    if |rows| > 0 {
      DropFlaggedByExtends(columns, rows[1..], col);
    }
  }

  /** The two successive filters keep exactly the rows `Survives` admits, in
      order: the filter of the source is the one-pass reference filter. */
  lemma DropFlaggedIsSurvivors(sheet: Sheet)
    ensures DropFlagged(sheet) == Survivors(sheet.columns, sheet.rows)
  {
    var rows := sheet.rows;
    var flags := sheet.columns * {FlagIssue, M7LogExist};
    SurvivorsOnlyReadsFlags(sheet.columns, flags, rows);
    SurvivorsWithoutFlagColumns({}, rows);
    DropFlaggedByExtends({}, rows, FlagIssue);
    assert {} + {FlagIssue} == {FlagIssue};
    var afterIssue := if FlagIssue in flags then Survivors({FlagIssue}, rows) else Survivors({}, rows);
    var issueCols: set<Column> := if FlagIssue in flags then {FlagIssue} else {};
    assert afterIssue == Survivors(issueCols, rows);
    if M7LogExist in flags {
      DropFlaggedByExtends(issueCols, rows, M7LogExist);
      assert issueCols + {M7LogExist} == flags;
    } else {
      assert issueCols == flags;
    }
  }

  /** Only the flag columns matter to `Survivors`. */
  lemma {:induction false} SurvivorsOnlyReadsFlags(columns: set<Column>, flags: set<Column>, rows: seq<SourceRow>)
    requires flags == columns * {FlagIssue, M7LogExist}
    ensures Survivors(columns, rows) == Survivors(flags, rows)
  {
    if |rows| > 0 {
      SurvivorsOnlyReadsFlags(columns, flags, rows[1..]);
    }
  }
}
