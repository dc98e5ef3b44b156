/**
 Turning one exported sheet into the rows to dispense: drop flagged rows,
 build each row's barcode, date and storage location, drop duplicate rows.
 A missing column makes the whole step yield no rows; so does a file type
 other than "OPD" or "IPD".
 */
module Prepare {
  import opened Seqs
  import opened PyStr
  import opened Optional
  import opened Sheet
  import opened Barcode
  import opened Dedup

  /** One row ready for the dispensing form. The location is carried over
      as the cell it was, blank included. */
  datatype PreparedRow = PreparedRow(barcode: string, date: string, location: Cell)

  predicate KnownFileType(fileType: string) {
    fileType == "OPD" || fileType == "IPD"
  }

  /** The columns a file type reads, in the order they are first read. */
  function ColumnsRead(fileType: string): seq<Column> {
    if fileType == "OPD" then [VNNumber, OrderNumber, VNDate, StorageLocation]
    else if fileType == "IPD" then [AdmitNumber, OrderNumber, OrderDate, StorageLocation]
    else []
  }

  /** The first column of `wanted` the sheet lacks: the one whose lookup
      fails first. */
  function FirstMissing(wanted: seq<Column>, columns: set<Column>): (r: Option<Column>)
    ensures r.None? <==> forall i :: 0 <= i < |wanted| ==> wanted[i] in columns
    ensures r.Some? ==> r.value in wanted && r.value !in columns
    ensures r.Some? ==> exists i :: (0 <= i < |wanted| && wanted[i] == r.value &&
                                     forall j :: 0 <= j < i ==> wanted[j] in columns)
  {
    if |wanted| == 0 then None
    else if wanted[0] !in columns then Some(wanted[0])
    else
      var r := FirstMissing(wanted[1..], columns);
      assert forall i :: 1 <= i < |wanted| ==> wanted[i] == wanted[1..][i - 1];
      if r.Some? then
        var i :| (0 <= i < |wanted[1..]| && wanted[1..][i] == r.value &&
                  forall j :: 0 <= j < i ==> wanted[1..][j] in columns);
        assert wanted[i + 1] == r.value;
        r
      else r
  }

  /** The form row built from one surviving source row: a barcode that
      starts with the file type's visit letter and reads back as the row's
      numbers, the visit or order date, and the storage-location cell. */
  function BuildRow(fileType: string, row: SourceRow): (r: PreparedRow)
    requires KnownFileType(fileType)
    ensures |r.barcode| > 0 && r.barcode[0] == (if fileType == "OPD" then 'O' else 'i')
    ensures fileType == "OPD" ==>
      Split(r.barcode, '|') == ["O"] + Split(ZFill(Render(row.vnNumber), VisitNumberWidth), '|') + Split(Render(row.orderNumber), '|')
    ensures fileType == "IPD" ==>
      Split(r.barcode, '|') == ["i"] + Split(Render(row.admitNumber), '|') + Split(Render(row.orderNumber), '|')
    ensures fileType == "OPD" && '|' !in Render(row.vnNumber) && '|' !in Render(row.orderNumber) ==>
      Decode(r.barcode) == Some(Fields(Outpatient, ZFill(Render(row.vnNumber), VisitNumberWidth), Render(row.orderNumber)))
    ensures fileType == "IPD" && '|' !in Render(row.admitNumber) && '|' !in Render(row.orderNumber) ==>
      Decode(r.barcode) == Some(Fields(Inpatient, Render(row.admitNumber), Render(row.orderNumber)))
    ensures r.date == Render(if fileType == "OPD" then row.vnDate else row.orderDate)
    ensures r.location == row.storageLocation
  {
    if fileType == "OPD" then
      PreparedRow(OutpatientBarcode(Render(row.vnNumber), Render(row.orderNumber)),
                  Render(row.vnDate), row.storageLocation)
    else
      PreparedRow(InpatientBarcode(Render(row.admitNumber), Render(row.orderNumber)),
                  Render(row.orderDate), row.storageLocation)
  }

  function BuildRows(fileType: string, rows: seq<SourceRow>): (r: seq<PreparedRow>)
    requires KnownFileType(fileType)
    ensures |r| == |rows|
    ensures forall i :: 0 <= i < |rows| ==> r[i] == BuildRow(fileType, rows[i])
  {
    seq(|rows|, i requires 0 <= i < |rows| => BuildRow(fileType, rows[i]))
  }

  /** What the preparation step produces: the rows, or the column whose
      lookup failed. */
  datatype Outcome = Prepared(rows: seq<PreparedRow>) | MissingColumn(column: Column)

  /** The preparation step with its failure made explicit. */
  function PrepareSheet(sheet: Sheet, fileType: string): (r: Outcome)
    ensures !KnownFileType(fileType) ==> r == Prepared([])
    ensures r.MissingColumn? <==>
      KnownFileType(fileType) && exists i :: 0 <= i < |ColumnsRead(fileType)| && ColumnsRead(fileType)[i] !in sheet.columns
    ensures r.MissingColumn? ==> r.column in ColumnsRead(fileType) && r.column !in sheet.columns
  {
    var kept := DropFlagged(sheet);
    if !KnownFileType(fileType) then Prepared([])
    else
      match FirstMissing(ColumnsRead(fileType), sheet.columns)
      case Some(col) => MissingColumn(col)
      case None => Prepared(KeepFirst(BuildRows(fileType, kept)))
  }

  /** The step as the caller sees it: a failed lookup is reported and an
      empty table returned in its place. */
  function ProcessDataframe(sheet: Sheet, fileType: string): (r: seq<PreparedRow>)
    ensures !KnownFileType(fileType) ==> r == []
    ensures (exists i :: 0 <= i < |ColumnsRead(fileType)| && ColumnsRead(fileType)[i] !in sheet.columns) ==> r == []
    ensures Distinct(r)
  {
    match PrepareSheet(sheet, fileType)
    case Prepared(rows) => rows
    case MissingColumn(_) => []
  }

  /** Every sheet with all the columns a known file type reads. */
  predicate Complete(sheet: Sheet, fileType: string) {
    && KnownFileType(fileType)
    && forall i :: 0 <= i < |ColumnsRead(fileType)| ==> ColumnsRead(fileType)[i] in sheet.columns
  }

  /** On a complete sheet the step keeps the first of each group of equal
      form rows built from the surviving rows. */
  lemma CompleteSheetRows(sheet: Sheet, fileType: string)
    requires Complete(sheet, fileType)
    ensures ProcessDataframe(sheet, fileType)
         == KeepFirst(BuildRows(fileType, Survivors(sheet.columns, sheet.rows)))
  {
    DropFlaggedIsSurvivors(sheet);
    assert FirstMissing(ColumnsRead(fileType), sheet.columns).None?;
  }

  /** The rows produced are exactly the form rows of the surviving source
      rows: each output row comes from a surviving row, and each surviving
      row's form row is in the output. */
  lemma ProcessDataframeRows(sheet: Sheet, fileType: string)
    requires Complete(sheet, fileType)
    ensures forall k :: 0 <= k < |ProcessDataframe(sheet, fileType)| ==>
      exists j :: 0 <= j < |sheet.rows| && Survives(sheet.columns, sheet.rows[j])
                  && ProcessDataframe(sheet, fileType)[k] == BuildRow(fileType, sheet.rows[j])
    ensures forall j :: 0 <= j < |sheet.rows| && Survives(sheet.columns, sheet.rows[j]) ==>
      BuildRow(fileType, sheet.rows[j]) in ProcessDataframe(sheet, fileType)
  {
    CompleteSheetRows(sheet, fileType);
    KeptRowsFromSurvivors(fileType, sheet.columns, sheet.rows);
    SurvivorRowsKept(fileType, sheet.columns, sheet.rows);
  }

  /** Each de-duplicated form row of the survivors is the form row of a
      surviving source row. */
  lemma KeptRowsFromSurvivors(fileType: string, columns: set<Column>, rows: seq<SourceRow>)
    requires KnownFileType(fileType)
    ensures var r := KeepFirst(BuildRows(fileType, Survivors(columns, rows)));
            forall k :: 0 <= k < |r| ==>
              exists j :: 0 <= j < |rows| && Survives(columns, rows[j]) && r[k] == BuildRow(fileType, rows[j])
  {
    var r := KeepFirst(BuildRows(fileType, Survivors(columns, rows)));
    forall k | 0 <= k < |r|
      ensures exists j :: 0 <= j < |rows| && Survives(columns, rows[j]) && r[k] == BuildRow(fileType, rows[j])
    {
      BuiltFromSurvivor(fileType, columns, rows, r[k]);
    }
  }

  /** The form row of every surviving source row is among the de-duplicated
      form rows. */
  lemma SurvivorRowsKept(fileType: string, columns: set<Column>, rows: seq<SourceRow>)
    requires KnownFileType(fileType)
    ensures forall j :: 0 <= j < |rows| && Survives(columns, rows[j]) ==>
      BuildRow(fileType, rows[j]) in KeepFirst(BuildRows(fileType, Survivors(columns, rows)))
  {
    forall j | 0 <= j < |rows| && Survives(columns, rows[j])
      ensures BuildRow(fileType, rows[j]) in KeepFirst(BuildRows(fileType, Survivors(columns, rows)))
    {
      SurvivorIsBuilt(fileType, columns, rows, j);
    }
  }

  /** A form row built from the survivors is built from some surviving
      source row. */
  lemma BuiltFromSurvivor(fileType: string, columns: set<Column>, rows: seq<SourceRow>, x: PreparedRow)
    requires KnownFileType(fileType) && x in BuildRows(fileType, Survivors(columns, rows))
    ensures exists j :: 0 <= j < |rows| && Survives(columns, rows[j]) && x == BuildRow(fileType, rows[j])
  {
    var kept := Survivors(columns, rows);
    var m := FirstIndex(BuildRows(fileType, kept), x);
    var j := FirstIndex(rows, kept[m]);
    assert Survives(columns, rows[j]) && x == BuildRow(fileType, rows[j]);
  }

  /** Every surviving source row has its form row among those built. */
  lemma SurvivorIsBuilt(fileType: string, columns: set<Column>, rows: seq<SourceRow>, j: nat)
    requires KnownFileType(fileType) && j < |rows| && Survives(columns, rows[j])
    ensures BuildRow(fileType, rows[j]) in BuildRows(fileType, Survivors(columns, rows))
  {
    var kept := Survivors(columns, rows);
    var m := FirstIndex(kept, rows[j]);
    assert BuildRows(fileType, kept)[m] == BuildRow(fileType, rows[j]);
  }

  /** The output keeps the first of each group of equal form rows, in the
      order the survivors came in. */
  lemma ProcessDataframeKeepsFirst(sheet: Sheet, fileType: string)
    requires Complete(sheet, fileType)
    ensures var built := BuildRows(fileType, Survivors(sheet.columns, sheet.rows));
            var r := ProcessDataframe(sheet, fileType);
            forall i, j :: 0 <= i < j < |r| ==>
              r[i] in built && r[j] in built && FirstIndex(built, r[i]) < FirstIndex(built, r[j])
  {
    CompleteSheetRows(sheet, fileType);
    KeepFirstInFirstOccurrenceOrder(BuildRows(fileType, Survivors(sheet.columns, sheet.rows)));
  }

  /** Preparing is idempotent on its output: dropping duplicates again
      changes nothing. */
  lemma ProcessDataframeDedupStable(sheet: Sheet, fileType: string)
    ensures KeepFirst(ProcessDataframe(sheet, fileType)) == ProcessDataframe(sheet, fileType)
  {
    KeepFirstOfDistinct(ProcessDataframe(sheet, fileType));
  }

  /** Every outpatient barcode starts with 'O', every inpatient one with 'i'. */
  lemma ProcessDataframeVisitLetter(sheet: Sheet, fileType: string)
    ensures forall k :: 0 <= k < |ProcessDataframe(sheet, fileType)| ==>
      var b := ProcessDataframe(sheet, fileType)[k].barcode;
      |b| > 0 && b[0] == (if fileType == "OPD" then 'O' else 'i')
  {
    var r := ProcessDataframe(sheet, fileType);
    if Complete(sheet, fileType) {
      var kept := Survivors(sheet.columns, sheet.rows);
      var built := BuildRows(fileType, kept);
      CompleteSheetRows(sheet, fileType);
      forall k | 0 <= k < |r|
        ensures |r[k].barcode| > 0 && r[k].barcode[0] == (if fileType == "OPD" then 'O' else 'i')
      {
        var m := FirstIndex(built, r[k]);
        assert r[k] == BuildRow(fileType, kept[m]);
      }
    }
  }
}
