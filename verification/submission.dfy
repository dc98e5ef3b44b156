/**
 From prepared rows to what is typed into the dispensing form: the date is
 compacted to YYYYMMDD, appended to the barcode after a '|', and the
 storage location goes into its own field. The rows of the outpatient sheet
 come first, then those of the inpatient sheet.
 */
module Submission {
  import opened Seqs
  import opened PyStr
  import opened Optional
  import opened Sheet
  import opened Dedup
  import opened Prepare

  /** The date as typed: a text of ten characters or more loses the
      characters at positions 4 and 7 (the separators of "YYYY-MM-DD") and
      everything from position 10 on (a time of day, say); a shorter text is
      typed as it is. */
  function CompactDate(raw: string): (r: string)
    ensures |raw| >= 10 ==> |r| == 8
    // kept positions: 0-3, then 5-6, then 8-9
    ensures |raw| >= 10 ==> forall i :: 0 <= i < 4 ==> r[i] == raw[i]
    ensures |raw| >= 10 ==> r[4] == raw[5] && r[5] == raw[6] && r[6] == raw[8] && r[7] == raw[9]
    ensures |raw| < 10 ==> r == raw
    // every character typed comes from the original text
    ensures forall i :: 0 <= i < |r| ==> r[i] in raw
  {
    if |raw| >= 10 then raw[0..4] + raw[5..7] + raw[8..10] else raw
  }

  /** "YYYYMMDD" spelled back as "YYYY-MM-DD". */
  function ExpandDate(compact: string): (r: string)
    requires |compact| == 8
    ensures |r| == 10 && r[4] == '-' && r[7] == '-'
  {
    compact[0..4] + "-" + compact[4..6] + "-" + compact[6..8]
  }

  /** Compacting a spelled-out date gives back the eight characters it came
      from. */
  lemma CompactExpand(compact: string)
    requires |compact| == 8
    ensures CompactDate(ExpandDate(compact)) == compact
  {
    var e := ExpandDate(compact);
    assert e[0..4] == compact[0..4];
    assert e[5..7] == compact[4..6];
    assert e[8..10] == compact[6..8];
    assert compact == compact[0..4] + compact[4..6] + compact[6..8];
  }

  /** Whatever stands at positions 4 and 7 of a text of ten characters or
      more, the compacted text spells its first ten characters back with '-'
      in those two places; for a "YYYY-MM-DD" date that is the date itself. */
  lemma ExpandCompact(raw: string)
    requires |raw| >= 10
    ensures ExpandDate(CompactDate(raw)) == raw[..4] + "-" + raw[5..7] + "-" + raw[8..10]
    ensures raw[4] == '-' && raw[7] == '-' ==> ExpandDate(CompactDate(raw)) == raw[..10]
  {
    var c := CompactDate(raw);
    assert c[0..4] == raw[0..4];
    assert c[4..6] == raw[5..7];
    assert c[6..8] == raw[8..10];
    if raw[4] == '-' && raw[7] == '-' {
      assert raw[..10] == raw[0..4] + "-" + raw[5..7] + "-" + raw[8..10];
    }
  }

  /** The characters at positions 4 and 7 never reach the form: "2024-01-15",
      "2024/01/15" and "2024.01.15" are typed alike. */
  lemma CompactIgnoresSeparators(raw: string, c1: char, c2: char)
    requires |raw| >= 10
    ensures CompactDate(raw[..4] + [c1] + raw[5..7] + [c2] + raw[8..]) == CompactDate(raw)
  {
    var t := raw[..4] + [c1] + raw[5..7] + [c2] + raw[8..];
    assert t[0..4] == raw[0..4];
    assert t[5..7] == raw[5..7];
    assert t[8..10] == raw[8..10];
  }

  /** What follows the first ten characters never reaches the form. */
  lemma CompactIgnoresTime(raw: string, rest: string)
    requires |raw| >= 10
    ensures CompactDate(raw + rest) == CompactDate(raw)
  {
    assert (raw + rest)[..10] == raw[..10];
  }

  lemma CompactExamples()
    ensures CompactDate("2024-01-15") == "20240115"
    ensures CompactDate("2024-01-15 00:00:00") == "20240115"
    ensures CompactDate("2024/01/15") == "20240115"
    ensures CompactDate("nan") == "nan"
  {
    CompactExample("2024-01-15");
    CompactExample("2024-01-15 00:00:00");
    CompactExample("2024/01/15");
  }

  /** A text starting with "2024", any character, "01", any character,
      "15" is typed as "20240115". */
  lemma CompactExample(raw: string)
    requires |raw| >= 10
    requires raw[0] == '2' && raw[1] == '0' && raw[2] == '2' && raw[3] == '4'
    requires raw[5] == '0' && raw[6] == '1' && raw[8] == '1' && raw[9] == '5'
    ensures CompactDate(raw) == "20240115"
  {
  }

  /** The text typed into the barcode field: barcode, '|', compacted date.
      Whatever the fields hold, the barcode comes first, then one '|', then
      the compacted date; it parses back into the barcode and the compacted
      date, whatever '|' the barcode itself holds, as long as the date holds
      none. */
  function SubmitText(barcode: string, date: string): (r: string)
    ensures |r| == |barcode| + 1 + |CompactDate(date)|
    ensures r[..|barcode|] == barcode && r[|barcode|] == '|' && r[|barcode| + 1..] == CompactDate(date)
    ensures '|' !in date ==> ParseSubmission(r) == Some((barcode, CompactDate(date)))
  {
    var c := CompactDate(date);
    assert '|' !in date ==> ParseSubmission(barcode + "|" + c) == Some((barcode, c)) by {
      if '|' !in date {
        CompactAddsNothing(date, '|');
        ParseJoined(barcode, c);
      }
    }
    barcode + "|" + c
  }

  /** Compacting only drops characters, so a character absent from the date
      is absent from the compacted date. */
  lemma CompactAddsNothing(date: string, ch: char)
    requires ch !in date
    ensures ch !in CompactDate(date)
  {
    var c := CompactDate(date);
    forall i | 0 <= i < |c|
      ensures c[i] != ch
    {
      assert c[i] in date;
    }
  }

  /** Reads a typed text back as a barcode and a date: the date is what
      follows the last '|', the barcode everything before it. */
  function ParseSubmission(text: string): (r: Option<(string, string)>)
    ensures r.Some? ==> r.value.0 + "|" + r.value.1 == text && '|' !in r.value.1
    ensures r.None? <==> '|' !in text
  {
    var parts := Split(text, '|');
    JoinSplit(text, '|');
    if |parts| >= 2 then
      var n := |parts| - 1;
      JoinLast(parts, '|');
      Some((Join(parts[..n], '|'), parts[n]))
    else
      assert Join(parts, '|') == parts[0];
      None
  }

  /** Joining splits off the last part after its own separator. */
  lemma {:induction false} JoinLast(parts: seq<string>, sep: char)
    requires |parts| >= 2
    ensures Join(parts, sep) == Join(parts[..|parts| - 1], sep) + [sep] + parts[|parts| - 1]
  {
    if |parts| > 2 {
      JoinLast(parts[1..], sep);
      assert parts[1..][..|parts| - 2] == parts[..|parts| - 1][1..];
    }
  }

  /** Text joined at a '|' parses back into its two sides, whatever '|' the
      left side holds, as long as the right side holds none. */
  lemma ParseJoined(barcode: string, c: string)
    requires '|' !in c
    ensures ParseSubmission(barcode + "|" + c) == Some((barcode, c))
  {
    var text := barcode + "|" + c;
    SplitAround(barcode, '|', c);
    var left := Split(barcode, '|');
    var parts := Split(text, '|');
    SplitNone(c, '|');
    assert parts == left + [c];
    assert parts[..|parts| - 1] == left;
    JoinSplit(barcode, '|');
  }
  /** One filling of the form: the text for the barcode field and the text
      for the storage-location field. */
  datatype FormEntry = FormEntry(text: string, location: string)

  /** The form fillings for the rows, in row order: entry `i` types row
      `i`'s barcode, a '|' and its compacted date, which parse back into the
      two when that date holds no '|', and its location field holds row
      `i`'s storage location as text. */
  function FormEntries(rows: seq<PreparedRow>): (r: seq<FormEntry>)
    ensures |r| == |rows|
    ensures forall i :: 0 <= i < |rows| ==>
      var t, b := r[i].text, rows[i].barcode;
      && |t| == |b| + 1 + |CompactDate(rows[i].date)|
      && t[..|b|] == b && t[|b|] == '|' && t[|b| + 1..] == CompactDate(rows[i].date)
    ensures forall i :: 0 <= i < |rows| && '|' !in rows[i].date ==>
      ParseSubmission(r[i].text) == Some((rows[i].barcode, CompactDate(rows[i].date)))
    ensures forall i :: 0 <= i < |rows| ==> r[i].location == Render(rows[i].location)
  {
    seq(|rows|, i requires 0 <= i < |rows| =>
      FormEntry(SubmitText(rows[i].barcode, rows[i].date), Render(rows[i].location)))
  }

  /** The rows one uploader contributes: its sheet is read only when the
      mode shows that uploader and a file was uploaded, and then they are
      exactly that sheet's prepared rows. They hold no row twice, and every
      barcode starts with the sheet's visit letter. */
  function SheetRows(mode: string, fileType: string, upload: Option<Sheet>): (r: seq<PreparedRow>)
    ensures (mode == fileType || mode == "BOTH") && upload.Some? ==> r == ProcessDataframe(upload.value, fileType)
    ensures mode != fileType && mode != "BOTH" ==> r == []
    ensures upload.None? ==> r == []
    ensures Distinct(r)
    ensures forall k :: 0 <= k < |r| ==>
      |r[k].barcode| > 0 && r[k].barcode[0] == (if fileType == "OPD" then 'O' else 'i')
  {
    if (mode == fileType || mode == "BOTH") && upload.Some? then
      ProcessDataframeVisitLetter(upload.value, fileType);
      ProcessDataframe(upload.value, fileType)
    else []
  }

  /** The combined work list. In mode "OPD" it is the outpatient sheet's
      rows, an uploaded inpatient sheet notwithstanding; in mode "IPD" the
      inpatient sheet's rows; in mode "BOTH" the outpatient rows followed by
      the inpatient rows, with no de-duplication across the two. No
      inpatient row ever comes before an outpatient row. */
  function WorkList(mode: string, opdUpload: Option<Sheet>, ipdUpload: Option<Sheet>): (r: seq<PreparedRow>)
    ensures mode == "OPD" ==>
      r == (if opdUpload.Some? then ProcessDataframe(opdUpload.value, "OPD") else [])
    ensures mode == "IPD" ==>
      r == (if ipdUpload.Some? then ProcessDataframe(ipdUpload.value, "IPD") else [])
    ensures mode == "BOTH" ==>
      r == (if opdUpload.Some? then ProcessDataframe(opdUpload.value, "OPD") else [])
         + (if ipdUpload.Some? then ProcessDataframe(ipdUpload.value, "IPD") else [])
    ensures forall k :: 0 <= k < |r| ==> |r[k].barcode| > 0 && (r[k].barcode[0] == 'O' || r[k].barcode[0] == 'i')
    ensures forall i, j :: 0 <= i < j < |r| && r[i].barcode[0] == 'i' ==> r[j].barcode[0] == 'i'
  {
    var opd := SheetRows(mode, "OPD", opdUpload);
    var ipd := SheetRows(mode, "IPD", ipdUpload);
    OutpatientsFirst(opd, ipd);
    opd + ipd
  }

  /** Outpatient rows followed by inpatient rows: every barcode starts with
      a visit letter, and an 'i' is never followed by an 'O'. */
  lemma OutpatientsFirst(a: seq<PreparedRow>, b: seq<PreparedRow>)
    requires forall k :: 0 <= k < |a| ==> |a[k].barcode| > 0 && a[k].barcode[0] == 'O'
    requires forall k :: 0 <= k < |b| ==> |b[k].barcode| > 0 && b[k].barcode[0] == 'i'
    ensures var r := a + b;
            && (forall k :: 0 <= k < |r| ==> |r[k].barcode| > 0 && (r[k].barcode[0] == 'O' || r[k].barcode[0] == 'i'))
            && (forall i, j :: 0 <= i < j < |r| && r[i].barcode[0] == 'i' ==> r[j].barcode[0] == 'i')
  {
    var r := a + b;
    forall k | 0 <= k < |r|
      ensures r[k] == if k < |a| then a[k] else b[k - |a|]
    {
    }
  }

  /** The work list holds no row twice even though nothing de-duplicates
      across the two sheets: each sheet's rows are distinct, and outpatient
      barcodes start with 'O' where inpatient ones start with 'i'. */
  lemma WorkListDistinct(mode: string, opdUpload: Option<Sheet>, ipdUpload: Option<Sheet>)
    ensures Distinct(WorkList(mode, opdUpload, ipdUpload))
  {
    var a := SheetRows(mode, "OPD", opdUpload);
    var b := SheetRows(mode, "IPD", ipdUpload);
    forall i, j | 0 <= i < |a| && 0 <= j < |b|
      ensures a[i] != b[j]
    {
      assert a[i].barcode[0] == 'O' && b[j].barcode[0] == 'i';
    }
    DistinctAppend(a, b);
  }
}
