# Auto Dispense V7: preparing dispensing rows for the SAP form

Auto Dispense V7 (`ADP7.py`) reads a hospital pharmacy's exported
outpatient (OPD) and inpatient (IPD) dispensing sheets and types each row
into an SAP ITS mobile form. Between reading the sheet and driving the
browser sits a small piece of pure record logic. This project models that
logic in Dafny and proves its properties:

- **Row preparation** (`process_dataframe`). Rows flagged `X` in the
  "Flag Issue" or "M7 Log Exist" column are dropped; a flag column missing
  from the sheet skips its filter. Each surviving row gets a barcode:
  - `O|<VN Number zero-filled to 4>|<Order Number>` for outpatients;
  - `i|<Admit Number>|<Order Number>` for inpatients.

  Each row also gets a date ("VN Date" or "Order Date") and its
  "Storage location". Duplicate rows are then dropped, keeping the first.
  A missing column yields an empty table, and so does a file type other
  than "OPD" or "IPD".
- **Form text** (inside `run_automation`). A date of ten characters or more
  is compacted to `YYYYMMDD` by keeping positions 0-3, 5-6 and 8-9. A
  shorter date is typed as it is. The barcode field receives
  `barcode|date`, and the location field receives the storage location.
- **Work list** (UI section). Depending on the chosen mode ("OPD", "IPD"
  or "BOTH") and on which files were uploaded, the outpatient rows are
  followed by the inpatient rows.

Modules:

| file | module | contents |
|---|---|---|
| `seqs.dfy` | `Seqs` | the position of a value's first occurrence, shared by splitting and de-duplication |
| `pystr.dfy` | `PyStr` | Python's `str.zfill`, including its sign rule, plus `split`/`join` on one separator character |
| `option.dfy` | `Optional` | `Option` |
| `dedup.dfy` | `Dedup` | keep-first duplicate removal, as a reference function and as a one-pass loop |
| `sheet.dfy` | `Sheet` | cells, columns, rows, and the two flag filters |
| `barcode.dfy` | `Barcode` | the barcode, plus a decoder used as its inverse |
| `prepare.dfy` | `Prepare` | `process_dataframe`, with its error outcome made explicit |
| `submission.dfy` | `Submission` | date compaction, the typed text, form entries and the combined work list |

The model makes these choices:

- A cell is `Text(s)` or `Blank`. `Blank` stands for an empty spreadsheet
  cell, which is NaN once read. In a text or number column, a blank cell
  converted to a string reads `"nan"`, and that is the rendering the model
  uses for every column (see "Left out" for date columns).
- Two rows are duplicates when barcode, date and location cell are all
  equal. Two blank locations count as equal, as they do in the
  data-frame library's duplicate test.
- The file type and the mode are kept as strings, because that is what
  the source compares them against.

## Model

| member | source | states |
|---|---|---|
| `Sheet.DropFlaggedBy` | ADP7.py:20-23 | one flag filter keeps exactly the rows whose cell in that column is not "X" (a blank cell or any other text survives) |
| `Sheet.Survivors` | ADP7.py:20-23 | reference filter: the kept rows are exactly the input rows for which each flag column is absent or not "X" |
| `Sheet.DropFlagged` | ADP7.py:19-23 | the two conditional filters keep only input rows whose present flag columns are not "X", and keep every such row |
| `Sheet.DropFlaggedIsSurvivors` | ADP7.py:19-23 | the two successive conditional filters equal the one-pass filter with the conjunction of both tests; a missing column skips its test |
| `Sheet.SurvivorsAppend` | ADP7.py:21-23 | filtering commutes with concatenation, so surviving rows keep their relative order |
| `Sheet.SurvivorsWithoutFlagColumns` | ADP7.py:20-23 | with neither flag column present, no row is dropped |
| `PyStr.ZFill` | ADP7.py:30 | `zfill(4)`: length is max(4, len); unchanged when already 4 or longer; otherwise the original follows '0' padding, with a leading sign kept in front; no character other than '0' is added |
| `PyStr.ZFillKeepsValue` | ADP7.py:30 | padding a sign-free visit number does not change its value once leading zeros are ignored |
| `PyStr.ZFillIdempotent` | ADP7.py:30 | zero-filling an already padded value changes nothing |
| `Barcode.Decode` | ADP7.py:33 | a string that decodes re-encodes to itself, and its number fields hold no separator |
| `Barcode.DecodeEncode` | ADP7.py:33 | decoding a barcode built from separator-free numbers returns exactly those numbers and the visit kind |
| `Barcode.EncodeSplits` | ADP7.py:33 | every barcode, whatever its numbers hold, splits at '|' into the visit letter, the parts of the number, then the parts of the order number |
| `Barcode.EncodeInjective` | ADP7.py:33 | distinct separator-free (kind, number, order) triples give distinct barcodes |
| `Barcode.OutpatientBarcode` | ADP7.py:30-33 | for any numbers, the OPD barcode starts with 'O' and splits at '|' into "O", the parts of the VN zero-filled to 4, then the parts of the order number; for '|'-free numbers it decodes to the outpatient kind, the padded VN and the order number |
| `Barcode.InpatientBarcode` | ADP7.py:39-42 | for any numbers, the IPD barcode starts with 'i' and splits at '|' into "i", the parts of the unpadded admit number, then the parts of the order number; for '|'-free numbers it decodes to the inpatient kind, the admit number and the order number |
| `Barcode.VisitKindsNeverCollide` | ADP7.py:33 | an OPD barcode starts with 'O' and an IPD barcode starts with 'i', so the two never coincide |
| `Prepare.BuildRow` | ADP7.py:28-44 | a form row's barcode starts with the file type's letter and, for any cell contents, splits at '|' into that letter, the parts of the VN zero-filled to 4 (OPD) or of the admit number as it is (IPD), then the parts of the order number; for '|'-free numbers it decodes to those fields; its date is "VN Date" for OPD and "Order Date" for IPD; its location is the "Storage location" cell |
| `Prepare.FirstMissing` | ADP7.py:30-44 | the lookup that fails is the first column of the read order that the sheet lacks; none fails exactly when all are present |
| `Prepare.PrepareSheet` | ADP7.py:18-50 | an unknown file type gives no rows and no error; the step fails exactly when the file type is known and one of the columns it reads is missing, and then it names that column |
| `Prepare.ProcessDataframe` | ADP7.py:14-50 | an unknown file type or a missing column gives an empty table; the output never holds two equal rows |
| `Prepare.CompleteSheetRows` | ADP7.py:19-46 | on a sheet with all columns, the output is the keep-first de-duplication of the form rows of the surviving rows |
| `Prepare.ProcessDataframeRows` | ADP7.py:19-46 | on a sheet with all columns, every output row is the form row of some surviving source row, and every surviving row's form row is in the output |
| `Prepare.ProcessDataframeKeepsFirst` | ADP7.py:46 | output rows appear in the order of their first occurrence among the surviving rows' form rows |
| `Prepare.ProcessDataframeDedupStable` | ADP7.py:46 | dropping duplicates again from the output changes nothing |
| `Prepare.ProcessDataframeVisitLetter` | ADP7.py:28-46 | every barcode in the OPD output starts with 'O', and every barcode in the IPD output starts with 'i' |
| `Dedup.KeepFirst` | ADP7.py:46 | keep-first de-duplication: the output holds the same values as the input, each once, and is no longer |
| `Dedup.KeepFirstInFirstOccurrenceOrder` | ADP7.py:46 | kept values appear in the order of their first occurrence in the input |
| `Dedup.KeepFirstUnique` | ADP7.py:46 | any duplicate-free sequence over the input's values, ordered by first occurrence, equals the keep-first result |
| `Dedup.KeepFirstOfDistinct` | ADP7.py:46 | a sequence with no duplicates is left unchanged |
| `Dedup.KeepFirstIdempotent` | ADP7.py:46 | de-duplicating twice is de-duplicating once |
| `Dedup.DropDuplicates` | ADP7.py:46 | one pass with a set of seen rows computes the keep-first de-duplication |
| `Submission.CompactDate` | ADP7.py:109-113 | a date of 10 or more characters becomes exactly 8 characters: positions 0-3, then 5-6, then 8-9 of the original; a shorter date passes through unchanged |
| `Submission.CompactExpand` | ADP7.py:111 | compacting "YYYY-MM-DD" spelled from eight characters gives those eight characters back |
| `Submission.ExpandCompact` | ADP7.py:111 | for any text of 10 or more characters, the compacted text spells positions 0-9 back with '-' at positions 4 and 7; a "YYYY-MM-DD" date with anything after it gets its first ten characters back |
| `Submission.CompactIgnoresSeparators` | ADP7.py:111 | the characters at positions 4 and 7 never reach the form, whatever they are |
| `Submission.CompactIgnoresTime` | ADP7.py:110-111 | characters after position 10 (a time of day) never reach the form |
| `Submission.CompactExamples` | ADP7.py:109-113 | "2024-01-15", "2024-01-15 00:00:00" and "2024/01/15" all become "20240115"; "nan" is typed as "nan" |
| `Submission.ParseSubmission` | ADP7.py:115 | splitting at the last '|' returns a barcode and a date that rejoin to the typed text |
| `Submission.SubmitText` | ADP7.py:115 | for any barcode and date, the typed text is the barcode, one '|', then the compacted date; it splits back into the barcode and the compacted date whenever the date holds no '|', even when the barcode holds '|' itself |
| `Submission.ParseJoined` | ADP7.py:115 | any text joined at a '|' parses back into its two sides when the right side holds no '|' |
| `Submission.FormEntries` | ADP7.py:109-126 | one entry per row, in row order; entry i types row i's barcode, one '|' and row i's compacted date, and parses back into the two when that date holds no '|'; its location field is row i's storage location as text |
| `Submission.SheetRows` | ADP7.py:183-199 | an uploader's sheet contributes rows exactly when the mode shows that uploader and a file was uploaded, and then they are that sheet's prepared rows; its rows are distinct and their barcodes start with the sheet's visit letter |
| `Submission.WorkList` | ADP7.py:175-202 | in mode "OPD" the list is the processed outpatient sheet (an uploaded inpatient sheet is ignored); in mode "IPD" the processed inpatient sheet; in mode "BOTH" the outpatient rows followed by the inpatient rows; no row with an 'i' barcode ever comes before one with an 'O' barcode |
| `Submission.WorkListDistinct` | ADP7.py:202 | although nothing de-duplicates across the two sheets, the combined list never holds two equal rows |

## Left out

- The Selenium automation (ADP7.py:53-161) is browser I/O against a remote
  SAP server. This covers driver setup, login, menu navigation, element
  lookups, popups, waits and the per-row `try`/`except` that skips a
  failing row. Only the text typed per row is modelled.
- The Streamlit interface (ADP7.py:164-215) is UI plumbing: page layout,
  sidebar, credential check, progress bar, messages, and the
  empty-list-nothing-to-run branch. Uploads are modelled as
  `Option<Sheet>`. The mode is a string; the radio button (ADP7.py:175)
  only ever offers "OPD", "IPD" and "BOTH", so `Submission.WorkList` states
  its result for those three.
- Reading the spreadsheet and rendering numbers and timestamps to text are
  library behaviour that cannot be seen here. Cells arrive as text; only
  the blank cell's `"nan"` rendering in text and number columns is modelled.
- The data-frame index is not modelled. Its preservation through
  `drop_duplicates` and its reset on concatenation only affect the
  progress text, and index alignment when columns are assigned to an
  empty frame is library-internal.
- The error message shown when a column is missing (ADP7.py:49) is UI
  output. The model keeps the missing column in `Prepare.Outcome` instead.
- Any exception that could arise inside `process_dataframe` other than a
  missing column is not modelled. Over text cells, none of the operations
  used can raise one.
- A blank cell in a "VN Date" or "Order Date" column that the spreadsheet
  reader types as timestamps is NaT, not NaN, and renders as `"NaT"`. The
  source then types `<barcode>|NaT`, while the model types `<barcode>|nan`.
  Which type a column gets depends on the reader's inference over the whole
  file, which is library behaviour not modelled here.
- The roster scheduler and the other report builders of the repository
  (`Shift GUI.py`, `ABC analysis.py`, `Pick Checker.py`, `QR code.py`,
  `Report for J2.py`, `ZTRF gui.py`) are not part of this model.
