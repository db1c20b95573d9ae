/** The spreadsheet helper (`AbstractExcelExporterHelper`): builds a
    one-sheet workbook from a list of records and serialises it.

    A concrete helper supplies the document properties, the header labels
    (address => label) and one procedure per output column
    (column => ['process' => method name, 'type' => cell data type]). Record
    number i (zero-based, in iteration order) goes to row START_ROW + i;
    each procedure's method turns the record into the value of the cell at
    column . row, stored with the declared type. Any exception aborts the
    whole compile: it is logged once and the result is null.

    PHPExcel is reduced to a document record whose sheet is a map from
    address to cell; its writer is a function passed in by the caller. The
    methods a helper defines are a map from method name to a transform. */
module ExcelExporter {
  import opened Wrappers
  import opened PhpValues
  import opened Worksheet

  const SheetIndex: nat := 0
  /** First data row; row 1 holds the header. */
  const StartRow: nat := 2
  /** The writer format, the legacy binary (BIFF) workbook. */
  const WriterType: string := "Excel5"
  const BodyFontName: string := "ＭＳ Ｐゴシック"
  const BodyFontSize: int := 9
  const BodyFontBold: bool := false
  const ColumnDimension: string := "12"
  const RowDimension: string := "12"
  /** Every compile failure is logged with this prefix. */
  const CompileFailurePrefix: string := "Unable to compile the Excel binary: "

  /** The document properties a concrete helper declares. */
  datatype FileProperties = FileProperties(
    creator: string, title: string, subject: string,
    description: string, keywords: string, category: string)

  /** The properties stored in the workbook. */
  datatype DocumentProperties = DocumentProperties(
    creator: string, lastModifiedBy: string, title: string, subject: string,
    description: string, keywords: string, category: string)

  datatype Font = Font(name: string, size: int, bold: bool)

  /** The workbook under construction. */
  datatype Document = Document(
    properties: DocumentProperties,
    defaultFont: Font,
    activeSheet: nat,
    defaultColumnWidth: string,
    defaultRowHeight: string,
    sheet: Sheet)

  /** A helper method turning a record into a cell value; it may throw. */
  type Transform = Value -> Result<Value, string>

  type Binary = seq<bv8>

  /** `PHPExcel_IOFactory::createWriter($excel, $type)->save(...)`: the
      workbook serialised in the named format, or the exception's message. */
  type Writer = (Document, string) -> Result<Binary, string>

  /** A concrete helper: its properties, `getTableHeader()`,
      `$procedureForEveryColumns` and the methods it defines. */
  datatype Exporter = Exporter(
    file: FileProperties,
    header: seq<(Key, Value)>,
    procedures: seq<(Key, Value)>,
    methods: map<string, Transform>)

  /** The PHP exception classes the compile can raise. `Propagated` is
      whatever a transform or the writer threw. */
  datatype ExceptionKind = InvalidArgument | Domain | BadMethodCall | Propagated

  datatype CompileError =
    | DataNotArray
    | EmptyAddress
    | ProcedureNotArray(address: string)
    | RowNotArray(address: string)
    | ProcessMissing(address: string)
    | MethodMissing(methodName: Value, address: string)
    | TransformFailed(message: string)
    | TypeMissing(address: string)
    | WriterFailed(message: string)
  {
    function Kind(): ExceptionKind {
      match this
      case DataNotArray | EmptyAddress | ProcedureNotArray(_) | RowNotArray(_) => InvalidArgument
      case ProcessMissing(_) | TypeMissing(_) => Domain
      case MethodMissing(_, _) => BadMethodCall
      case TransformFailed(_) | WriterFailed(_) => Propagated
    }

    function Message(): string {
      match this
      case DataNotArray => "argument data must be array"
      case EmptyAddress => "Excel cell address mut not be empty"
      case ProcedureNotArray(a) => "procedure for cell must be array in " + a
      case RowNotArray(a) => "row data must be array in " + a
      case ProcessMissing(a) => "process method name does not exist in " + a
      case MethodMissing(m, a) => "Method '" + PhpToString(m) + "' does not exist in " + a
      case TransformFailed(m) => m
      case TypeMissing(a) => "Excel cell data type does not exist in " + a
      case WriterFailed(m) => m
    }
  }

  // ---------------------------------------------------------------------------
  // Document creation

  /** `createPHPExcel`: a fresh workbook with the helper's properties, the
      default font and the default cell dimensions, and an empty sheet. */
  function CreateDocument(file: FileProperties): (d: Document)
    ensures d.properties.creator == file.creator && d.properties.lastModifiedBy == file.creator
    ensures d.properties.title == file.title && d.properties.subject == file.subject
    ensures d.properties.description == file.description && d.properties.keywords == file.keywords
    ensures d.properties.category == file.category
    ensures d.defaultFont == Font("ＭＳ Ｐゴシック", 9, false)
    ensures d.defaultColumnWidth == "12" && d.defaultRowHeight == "12"
    ensures d.activeSheet == 0 && d.sheet == map[]
  {
    Document(
      DocumentProperties(file.creator, file.creator, file.title, file.subject,
                         file.description, file.keywords, file.category),
      Font(BodyFontName, BodyFontSize, BodyFontBold),
      SheetIndex,
      ColumnDimension,
      RowDimension,
      map[])
  }

  /** The header writes: each label at its own address, type inferred. */
  function HeaderWrites(header: seq<(Key, Value)>): (ws: seq<CellWrite>)
    ensures |ws| == |header|
    ensures forall k :: 0 <= k < |header| ==>
      ws[k] == CellWrite(KeyString(header[k].0), Cell(header[k].1, Inferred))
  {
    seq(|header|, k requires 0 <= k < |header| => CellWrite(KeyString(header[k].0), Cell(header[k].1, Inferred)))
  }

  // ---------------------------------------------------------------------------
  // One cell

  /** The address of a column's cell in a row: the column key followed by
      the row number. For a data row it is never PHP-empty. */
  function Address(column: Key, number: nat): (a: string)
    ensures number > 0 ==> !IsEmptyString(a)
    ensures |a| > |KeyString(column)| && a[..|KeyString(column)|] == KeyString(column)
    ensures IsCanonicalDecimal(a[|KeyString(column)|..])
    ensures DecimalValue(a[|KeyString(column)|..]) == number
  {
    var a := KeyString(column) + NatToDecimal(number);
    assert a[|KeyString(column)|..] == NatToDecimal(number);
    DecimalRoundTrip(number);
    a
  }

  /** `method_exists($this, $method)`: the helper method a procedure names. */
  function ResolveMethod(methods: map<string, Transform>, process: Value): Option<Transform> {
    if process.Str? && process.s in methods then Some(methods[process.s]) else None
  }

  /** Everything `setExcelCellValue` needs for a cell to be written. */
  predicate CellWellFormed(exporter: Exporter, address: string, procedure: Value, row: Value) {
    && !IsEmptyString(address)
    && procedure.Arr?
    && row.Arr?
    && IsSet(procedure.entries, StrKey("process"))
    && ResolveMethod(exporter.methods, Get(procedure.entries, StrKey("process")).value).Some?
    && ResolveMethod(exporter.methods, Get(procedure.entries, StrKey("process")).value).value(row).Success?
    && IsSet(procedure.entries, StrKey("type"))
  }

  /** The checks of `setExcelCellValue`, in source order, and the write it
      performs: the named method's value on the record, at `address`, with
      the declared type passed explicitly. */
  function CellFor(exporter: Exporter, address: string, procedure: Value, row: Value): (r: Result<CellWrite, CompileError>)
    ensures r.Success? <==> CellWellFormed(exporter, address, procedure, row)
    ensures r.Success? ==>
      var transform := ResolveMethod(exporter.methods, Get(procedure.entries, StrKey("process")).value).value;
      r.value == CellWrite(address, Cell(transform(row).value, Explicit(Get(procedure.entries, StrKey("type")).value)))
    ensures r.Failure? ==> r.error != DataNotArray && !r.error.WriterFailed?
  {
    if IsEmptyString(address) then Failure(EmptyAddress)
    else if !procedure.Arr? then Failure(ProcedureNotArray(address))
    else if !row.Arr? then Failure(RowNotArray(address))
    else if !IsSet(procedure.entries, StrKey("process")) then Failure(ProcessMissing(address))
    else
      var process := Get(procedure.entries, StrKey("process")).value;
      match ResolveMethod(exporter.methods, process)
      case None => Failure(MethodMissing(process, address))
      case Some(transform) =>
        match transform(row)
        case Failure(message) => Failure(TransformFailed(message))
        case Success(value) =>
          if !IsSet(procedure.entries, StrKey("type")) then Failure(TypeMissing(address))
          else Success(CellWrite(address, Cell(value, Explicit(Get(procedure.entries, StrKey("type")).value))))
  }

  /** `setExcelCellValue`: the checked write performed on the sheet. */
  function SetExcelCellValue(exporter: Exporter, sheet: Sheet, address: string, procedure: Value, row: Value): (r: Result<Sheet, CompileError>)
    ensures r.Success? <==> CellWellFormed(exporter, address, procedure, row)
    ensures r.Success? ==> r.value.Keys == sheet.Keys + {address}
    ensures r.Success? ==>
      var transform := ResolveMethod(exporter.methods, Get(procedure.entries, StrKey("process")).value).value;
      r.value[address] == Cell(transform(row).value, Explicit(Get(procedure.entries, StrKey("type")).value))
    ensures r.Success? ==> forall a :: a in sheet && a != address ==> r.value[a] == sheet[a]
    ensures r.Failure? ==> CellFor(exporter, address, procedure, row) == Failure(r.error)
  {
    match CellFor(exporter, address, procedure, row)
    case Failure(e) => Failure(e)
    case Success(w) => Success(sheet[w.address := w.cell])
  }

  /** The checks run in a fixed order, so when a cell has several defects the
      first one in that order is reported; the method runs before the type
      is checked, so a throwing method wins over a missing type. */
  lemma CheckOrder(exporter: Exporter, address: string, procedure: Value, row: Value)
    ensures IsEmptyString(address) ==> CellFor(exporter, address, procedure, row) == Failure(EmptyAddress)
    ensures !IsEmptyString(address) && !procedure.Arr? ==>
      CellFor(exporter, address, procedure, row) == Failure(ProcedureNotArray(address))
    ensures !IsEmptyString(address) && procedure.Arr? && !row.Arr? ==>
      CellFor(exporter, address, procedure, row) == Failure(RowNotArray(address))
    ensures !IsEmptyString(address) && procedure.Arr? && row.Arr? && !IsSet(procedure.entries, StrKey("process")) ==>
      CellFor(exporter, address, procedure, row) == Failure(ProcessMissing(address))
    ensures !IsEmptyString(address) && procedure.Arr? && row.Arr? && IsSet(procedure.entries, StrKey("process")) ==>
      var process := Get(procedure.entries, StrKey("process")).value;
      && (ResolveMethod(exporter.methods, process).None? ==>
            CellFor(exporter, address, procedure, row) == Failure(MethodMissing(process, address)))
      && (ResolveMethod(exporter.methods, process).Some? && ResolveMethod(exporter.methods, process).value(row).Failure? ==>
            CellFor(exporter, address, procedure, row) ==
              Failure(TransformFailed(ResolveMethod(exporter.methods, process).value(row).error)))
      && (ResolveMethod(exporter.methods, process).Some? && ResolveMethod(exporter.methods, process).value(row).Success?
          && !IsSet(procedure.entries, StrKey("type")) ==>
            CellFor(exporter, address, procedure, row) == Failure(TypeMissing(address)))
    ensures CellFor(exporter, address, procedure, row).Failure? ==>
      var e := CellFor(exporter, address, procedure, row).error;
      && (e.Kind() == InvalidArgument <==> IsEmptyString(address) || !procedure.Arr? || !row.Arr?)
      && (e.Kind() == BadMethodCall <==> e.MethodMissing?)
  {
  }

  // ---------------------------------------------------------------------------
  // One record: the inner loop over the column procedures

  /** The outcome for column `j` of `procs` in row `number`. */
  function ColumnCell(exporter: Exporter, procs: seq<(Key, Value)>, j: nat, number: nat, row: Value): Result<CellWrite, CompileError>
    requires j < |procs|
  {
    CellFor(exporter, Address(procs[j].0, number), procs[j].1, row)
  }

  predicate RowValid(exporter: Exporter, procs: seq<(Key, Value)>, number: nat, row: Value) {
    forall j :: 0 <= j < |procs| ==> ColumnCell(exporter, procs, j, number, row).Success?
  }

  /** The writes for one record, in procedure order. */
  function RowWrites(exporter: Exporter, procs: seq<(Key, Value)>, number: nat, row: Value): (ws: seq<CellWrite>)
    requires RowValid(exporter, procs, number, row)
    ensures |ws| == |procs|
    ensures forall j :: 0 <= j < |procs| ==> ws[j] == ColumnCell(exporter, procs, j, number, row).value
  {
    seq(|procs|, j requires 0 <= j < |procs| => ColumnCell(exporter, procs, j, number, row).value)
  }

  /** `foreach ($this->procedureForEveryColumns as $p => $c)`: one cell per
      procedure, at `$p . $number`, stopping at the first exception. */
  function WriteRecord(exporter: Exporter, sheet: Sheet, procs: seq<(Key, Value)>, number: nat, row: Value): Result<Sheet, CompileError>
    decreases |procs|
  {
    if procs == [] then Success(sheet)
    else
      match SetExcelCellValue(exporter, sheet, Address(procs[0].0, number), procs[0].1, row)
      case Failure(e) => Failure(e)
      case Success(next) => WriteRecord(exporter, next, procs[1..], number, row)
  }

  /** Dropping the first procedure shifts the remaining columns by one. */
  lemma ColumnCellShift(exporter: Exporter, procs: seq<(Key, Value)>, number: nat, row: Value)
    requires procs != []
    ensures forall j :: 0 <= j < |procs| - 1 ==>
      ColumnCell(exporter, procs[1..], j, number, row) == ColumnCell(exporter, procs, j + 1, number, row)
  {
  }

  lemma RowValidCons(exporter: Exporter, procs: seq<(Key, Value)>, number: nat, row: Value)
    requires procs != []
    ensures RowValid(exporter, procs, number, row) <==>
      ColumnCell(exporter, procs, 0, number, row).Success? && RowValid(exporter, procs[1..], number, row)
  {
    ColumnCellShift(exporter, procs, number, row);
    if ColumnCell(exporter, procs, 0, number, row).Success? && RowValid(exporter, procs[1..], number, row) {
      forall j | 0 <= j < |procs| ensures ColumnCell(exporter, procs, j, number, row).Success? {
        if j > 0 { assert ColumnCell(exporter, procs[1..], j - 1, number, row).Success?; }
      }
    }
    if RowValid(exporter, procs, number, row) {
      forall j | 0 <= j < |procs| - 1 ensures ColumnCell(exporter, procs[1..], j, number, row).Success? {
        assert ColumnCell(exporter, procs, j + 1, number, row).Success?;
      }
    }
  }

  lemma RowWritesCons(exporter: Exporter, procs: seq<(Key, Value)>, number: nat, row: Value)
    requires procs != [] && RowValid(exporter, procs, number, row)
    ensures RowValid(exporter, procs[1..], number, row)
    ensures RowWrites(exporter, procs, number, row)
         == [ColumnCell(exporter, procs, 0, number, row).value] + RowWrites(exporter, procs[1..], number, row)
  {
    RowValidCons(exporter, procs, number, row);
    ColumnCellShift(exporter, procs, number, row);
  }

  /** The first step of `WriteRecord` when the first procedure accepts the record. */
  lemma WriteRecordStep(exporter: Exporter, sheet: Sheet, procs: seq<(Key, Value)>, number: nat, row: Value)
    requires procs != [] && ColumnCell(exporter, procs, 0, number, row).Success?
    ensures var w := ColumnCell(exporter, procs, 0, number, row).value;
      WriteRecord(exporter, sheet, procs, number, row) == WriteRecord(exporter, sheet[w.address := w.cell], procs[1..], number, row)
  {
  }

  /** A record's cells are written iff every procedure accepts it. */
  lemma {:induction false} WriteRecordSucceeds(exporter: Exporter, sheet: Sheet, procs: seq<(Key, Value)>, number: nat, row: Value)
    ensures WriteRecord(exporter, sheet, procs, number, row).Success? <==> RowValid(exporter, procs, number, row)
    decreases |procs|
  {
    if procs != [] {
      RowValidCons(exporter, procs, number, row);
      var first := ColumnCell(exporter, procs, 0, number, row);
      if first.Success? {
        WriteRecordStep(exporter, sheet, procs, number, row);
        WriteRecordSucceeds(exporter, sheet[first.value.address := first.value.cell], procs[1..], number, row);
      }
    }
  }

  /** A record accepted by every procedure receives exactly its writes, in
      procedure order. */
  lemma {:induction false} WriteRecordWrites(exporter: Exporter, sheet: Sheet, procs: seq<(Key, Value)>, number: nat, row: Value)
    requires RowValid(exporter, procs, number, row)
    ensures WriteRecord(exporter, sheet, procs, number, row) == Success(WriteAll(sheet, RowWrites(exporter, procs, number, row)))
    decreases |procs|
  {
    if procs != [] {
      RowWritesCons(exporter, procs, number, row);
      RowValidCons(exporter, procs, number, row);
      var w := ColumnCell(exporter, procs, 0, number, row).value;
      WriteRecordStep(exporter, sheet, procs, number, row);
      WriteRecordWrites(exporter, sheet[w.address := w.cell], procs[1..], number, row);
      var ws := RowWrites(exporter, procs, number, row);
      assert ws[0] == w && ws[1..] == RowWrites(exporter, procs[1..], number, row);
    }
  }

  // ---------------------------------------------------------------------------
  // All records: the outer loop

  /** `foreach ($data as $row)`: record number `index` goes to row
      START_ROW + index, stopping at the first exception. */
  function WriteRecords(exporter: Exporter, sheet: Sheet, rows: seq<Value>, index: nat): Result<Sheet, CompileError>
    decreases |rows|
  {
    if rows == [] then Success(sheet)
    else
      match WriteRecord(exporter, sheet, exporter.procedures, StartRow + index, rows[0])
      case Failure(e) => Failure(e)
      case Success(next) => WriteRecords(exporter, next, rows[1..], index + 1)
  }

  /** Every record, numbered from `index`, is accepted by every procedure. */
  predicate AllRowsValid(exporter: Exporter, rows: seq<Value>, index: nat) {
    forall i :: 0 <= i < |rows| ==> RowValid(exporter, exporter.procedures, StartRow + index + i, rows[i])
  }

  lemma AllRowsValidCons(exporter: Exporter, rows: seq<Value>, index: nat)
    requires rows != []
    ensures AllRowsValid(exporter, rows, index) <==>
      RowValid(exporter, exporter.procedures, StartRow + index, rows[0]) && AllRowsValid(exporter, rows[1..], index + 1)
  {
    var procs := exporter.procedures;
    if AllRowsValid(exporter, rows, index) {
      forall i | 0 <= i < |rows[1..]| ensures RowValid(exporter, procs, StartRow + (index + 1) + i, rows[1..][i]) {
        assert RowValid(exporter, procs, StartRow + index + (i + 1), rows[i + 1]);
      }
      assert RowValid(exporter, procs, StartRow + index + 0, rows[0]);
    }
    if RowValid(exporter, procs, StartRow + index, rows[0]) && AllRowsValid(exporter, rows[1..], index + 1) {
      forall i | 0 <= i < |rows| ensures RowValid(exporter, procs, StartRow + index + i, rows[i]) {
        if i > 0 { assert RowValid(exporter, procs, StartRow + (index + 1) + (i - 1), rows[1..][i - 1]); }
      }
    }
  }

  /** The data writes of a compile, record after record, each record's
      writes in procedure order. */
  function PlannedWrites(exporter: Exporter, rows: seq<Value>, index: nat): seq<CellWrite>
    requires AllRowsValid(exporter, rows, index)
    decreases |rows|
  {
    if rows == [] then []
    else
      AllRowsValidCons(exporter, rows, index);
      RowWrites(exporter, exporter.procedures, StartRow + index, rows[0]) + PlannedWrites(exporter, rows[1..], index + 1)
  }

  lemma {:induction false} PlannedLength(exporter: Exporter, rows: seq<Value>, index: nat)
    requires AllRowsValid(exporter, rows, index)
    ensures |PlannedWrites(exporter, rows, index)| == |rows| * |exporter.procedures|
    decreases |rows|
  {
    if rows != [] {
      AllRowsValidCons(exporter, rows, index);
      PlannedLength(exporter, rows[1..], index + 1);
      assert |rows| * |exporter.procedures| == |exporter.procedures| + (|rows| - 1) * |exporter.procedures|;
    }
  }

  /** Row-major block arithmetic: behind a first block of length m, entry
      i * m + j (for i > 0) is entry (i - 1) * m + j of the rest. */
  lemma BlockAt<T>(head: seq<T>, tail: seq<T>, i: nat, j: nat)
    requires 0 < i && j < |head| && (i - 1) * |head| + j < |tail|
    ensures i * |head| + j < |head + tail|
    ensures (head + tail)[i * |head| + j] == tail[(i - 1) * |head| + j]
  {
    var m := |head|;
    assert i * m + j == m + ((i - 1) * m + j);
  }

  lemma PlannedCons(exporter: Exporter, rows: seq<Value>, index: nat)
    requires rows != [] && AllRowsValid(exporter, rows, index)
    ensures RowValid(exporter, exporter.procedures, StartRow + index, rows[0]) && AllRowsValid(exporter, rows[1..], index + 1)
    ensures PlannedWrites(exporter, rows, index)
         == RowWrites(exporter, exporter.procedures, StartRow + index, rows[0]) + PlannedWrites(exporter, rows[1..], index + 1)
  {
    AllRowsValidCons(exporter, rows, index);
  }

  /** The blocks concatenated in order. */
  function Flatten<T>(blocks: seq<seq<T>>): seq<T>
    decreases |blocks|
  {
    if blocks == [] then [] else blocks[0] + Flatten(blocks[1..])
  }

  /** In a concatenation of blocks of length m, entry i * m + j is entry j
      of block i. */
  lemma {:induction false} FlattenAt<T>(blocks: seq<seq<T>>, m: nat, i: nat, j: nat)
    requires forall k :: 0 <= k < |blocks| ==> |blocks[k]| == m
    requires i < |blocks| && j < m
    ensures i * m + j < |Flatten(blocks)|
    ensures Flatten(blocks)[i * m + j] == blocks[i][j]
    decreases i
  {
    var head, tail := blocks[0], Flatten(blocks[1..]);
    assert Flatten(blocks) == head + tail;
    if i == 0 {
      assert 0 * m + j == j;
    } else {
      FlattenAt(blocks[1..], m, i - 1, j);
      assert blocks[1..][i - 1] == blocks[i];
      BlockAt(head, tail, i, j);
    }
  }

  /** The writes of each record, record after record. */
  function RecordWrites(exporter: Exporter, rows: seq<Value>, index: nat): (blocks: seq<seq<CellWrite>>)
    requires AllRowsValid(exporter, rows, index)
    ensures |blocks| == |rows|
    ensures forall i :: 0 <= i < |rows| ==> blocks[i] == RowWrites(exporter, exporter.procedures, StartRow + index + i, rows[i])
  {
    seq(|rows|, i requires 0 <= i < |rows| && AllRowsValid(exporter, rows, index) => RecordAt(exporter, rows, index, i))
  }

  /** The writes of record `i`. */
  function RecordAt(exporter: Exporter, rows: seq<Value>, index: nat, i: nat): seq<CellWrite>
    requires i < |rows| && AllRowsValid(exporter, rows, index)
  {
    RowWrites(exporter, exporter.procedures, StartRow + index + i, rows[i])
  }

  /** The planned writes are the records' writes concatenated. */
  lemma {:induction false} PlannedIsFlatten(exporter: Exporter, rows: seq<Value>, index: nat)
    requires AllRowsValid(exporter, rows, index)
    ensures PlannedWrites(exporter, rows, index) == Flatten(RecordWrites(exporter, rows, index))
    decreases |rows|
  {
    if rows != [] {
      PlannedCons(exporter, rows, index);
      PlannedIsFlatten(exporter, rows[1..], index + 1);
      var blocks := RecordWrites(exporter, rows, index);
      var rest := RecordWrites(exporter, rows[1..], index + 1);
      assert blocks[1..] == rest by {
        forall i | 0 <= i < |rest| ensures blocks[1..][i] == rest[i] {
          assert rows[1..][i] == rows[i + 1];
          assert StartRow + (index + 1) + i == StartRow + index + (i + 1);
        }
      }
      assert blocks[0] == RowWrites(exporter, exporter.procedures, StartRow + index + 0, rows[0]);
    }
  }

  /** Record i's cell for procedure j is write number i * |procedures| + j,
      at the procedure's column in row START_ROW + index + i. */
  lemma PlannedWritesLayout(exporter: Exporter, rows: seq<Value>, index: nat, i: nat, j: nat)
    requires AllRowsValid(exporter, rows, index)
    requires i < |rows| && j < |exporter.procedures|
    ensures RowValid(exporter, exporter.procedures, StartRow + index + i, rows[i])
    ensures i * |exporter.procedures| + j < |PlannedWrites(exporter, rows, index)|
    ensures PlannedWrites(exporter, rows, index)[i * |exporter.procedures| + j]
         == RowWrites(exporter, exporter.procedures, StartRow + index + i, rows[i])[j]
  {
    var m := |exporter.procedures|;
    var blocks := RecordWrites(exporter, rows, index);
    assert forall k :: 0 <= k < |blocks| ==> |blocks[k]| == m;
    PlannedIsFlatten(exporter, rows, index);
    FlattenAt(blocks, m, i, j);
    assert blocks[i] == RowWrites(exporter, exporter.procedures, StartRow + index + i, rows[i]);
  }

  /** Write i * |procedures| + j lands at column j's key followed by the row
      number START_ROW + index + i. */
  lemma PlannedAddress(exporter: Exporter, rows: seq<Value>, index: nat, i: nat, j: nat)
    requires AllRowsValid(exporter, rows, index)
    requires i < |rows| && j < |exporter.procedures|
    ensures i * |exporter.procedures| + j < |PlannedWrites(exporter, rows, index)|
    ensures PlannedWrites(exporter, rows, index)[i * |exporter.procedures| + j].address
         == Address(exporter.procedures[j].0, StartRow + index + i)
  {
    PlannedWritesLayout(exporter, rows, index, i, j);
    assert RowValid(exporter, exporter.procedures, StartRow + index + i, rows[i]);
    assert ColumnCell(exporter, exporter.procedures, j, StartRow + index + i, rows[i]).Success?;
  }

  /** Every data write carries an explicit data type. */
  lemma {:induction false} PlannedExplicit(exporter: Exporter, rows: seq<Value>, index: nat)
    requires AllRowsValid(exporter, rows, index)
    ensures forall k :: 0 <= k < |PlannedWrites(exporter, rows, index)| ==>
      PlannedWrites(exporter, rows, index)[k].cell.cellType.Explicit?
    decreases |rows|
  {
    if rows != [] {
      AllRowsValidCons(exporter, rows, index);
      PlannedExplicit(exporter, rows[1..], index + 1);
      var head := RowWrites(exporter, exporter.procedures, StartRow + index, rows[0]);
      forall k | 0 <= k < |head| ensures head[k].cell.cellType.Explicit? {
        assert ColumnCell(exporter, exporter.procedures, k, StartRow + index, rows[0]).Success?;
      }
    }
  }

  lemma WriteRecordsStep(exporter: Exporter, sheet: Sheet, rows: seq<Value>, index: nat)
    requires rows != [] && RowValid(exporter, exporter.procedures, StartRow + index, rows[0])
    ensures WriteRecords(exporter, sheet, rows, index)
         == WriteRecords(exporter, WriteAll(sheet, RowWrites(exporter, exporter.procedures, StartRow + index, rows[0])), rows[1..], index + 1)
  {
    WriteRecordWrites(exporter, sheet, exporter.procedures, StartRow + index, rows[0]);
  }

  /** The records are written iff every procedure accepts every record. */
  lemma {:induction false} WriteRecordsSucceeds(exporter: Exporter, sheet: Sheet, rows: seq<Value>, index: nat)
    ensures WriteRecords(exporter, sheet, rows, index).Success? <==> AllRowsValid(exporter, rows, index)
    decreases |rows|
  {
    if rows != [] {
      AllRowsValidCons(exporter, rows, index);
      var number := StartRow + index;
      WriteRecordSucceeds(exporter, sheet, exporter.procedures, number, rows[0]);
      if RowValid(exporter, exporter.procedures, number, rows[0]) {
        WriteRecordsStep(exporter, sheet, rows, index);
        WriteRecordsSucceeds(exporter, WriteAll(sheet, RowWrites(exporter, exporter.procedures, number, rows[0])), rows[1..], index + 1);
      }
    }
  }

  /** Accepted records produce exactly the planned writes, in order. */
  lemma {:induction false} WriteRecordsWrites(exporter: Exporter, sheet: Sheet, rows: seq<Value>, index: nat)
    requires AllRowsValid(exporter, rows, index)
    ensures WriteRecords(exporter, sheet, rows, index) == Success(WriteAll(sheet, PlannedWrites(exporter, rows, index)))
    decreases |rows|
  {
    if rows != [] {
      AllRowsValidCons(exporter, rows, index);
      var head := RowWrites(exporter, exporter.procedures, StartRow + index, rows[0]);
      WriteRecordsStep(exporter, sheet, rows, index);
      WriteRecordsWrites(exporter, WriteAll(sheet, head), rows[1..], index + 1);
      WriteAllAppend(sheet, head, PlannedWrites(exporter, rows[1..], index + 1));
    }
  }

  /** Procedure `j` is the first to reject `row` in row `number`, with error `e`. */
  predicate ColumnFailsFirst(exporter: Exporter, procs: seq<(Key, Value)>, number: nat, row: Value, j: nat, e: CompileError) {
    && j < |procs|
    && ColumnCell(exporter, procs, j, number, row) == Failure(e)
    && forall j' :: 0 <= j' < j ==> ColumnCell(exporter, procs, j', number, row).Success?
  }

  /** Some procedure is the first to reject `row` in row `number`, with error `e`. */
  ghost predicate RowFailsWith(exporter: Exporter, procs: seq<(Key, Value)>, number: nat, row: Value, e: CompileError) {
    exists j: nat :: ColumnFailsFirst(exporter, procs, number, row, j, e)
  }

  /** Record `i` is the first rejected one, and its first failing procedure
      raises `e`. */
  ghost predicate RecordFailsFirst(exporter: Exporter, rows: seq<Value>, index: nat, i: nat, e: CompileError) {
    && i < |rows|
    && AllRowsValid(exporter, rows[..i], index)
    && RowFailsWith(exporter, exporter.procedures, StartRow + index + i, rows[i], e)
  }

  /** A rejected record reports the error of the first procedure that fails. */
  lemma {:induction false} WriteRecordFirstFailure(exporter: Exporter, sheet: Sheet, procs: seq<(Key, Value)>, number: nat, row: Value)
    requires WriteRecord(exporter, sheet, procs, number, row).Failure?
    ensures exists j: nat :: ColumnFailsFirst(exporter, procs, number, row, j, WriteRecord(exporter, sheet, procs, number, row).error)
    decreases |procs|
  {
    var e := WriteRecord(exporter, sheet, procs, number, row).error;
    var first := ColumnCell(exporter, procs, 0, number, row);
    if first.Failure? {
      assert ColumnFailsFirst(exporter, procs, number, row, 0, e);
    } else {
      var rest := procs[1..];
      WriteRecordStep(exporter, sheet, procs, number, row);
      WriteRecordFirstFailure(exporter, sheet[first.value.address := first.value.cell], rest, number, row);
      ColumnCellShift(exporter, procs, number, row);
      var j: nat :| ColumnFailsFirst(exporter, rest, number, row, j, e);
      forall j' | 0 <= j' < j + 1 ensures ColumnCell(exporter, procs, j', number, row).Success? {
        if j' > 0 { assert ColumnCell(exporter, rest, j' - 1, number, row).Success?; }
      }
      assert ColumnFailsFirst(exporter, procs, number, row, j + 1, e);
    }
  }

  /** A first failure among the later records, after an accepted first
      record, is the first failure of the whole run. */
  lemma RecordFailsFirstShift(exporter: Exporter, rows: seq<Value>, index: nat, i: nat, e: CompileError)
    requires rows != [] && RowValid(exporter, exporter.procedures, StartRow + index, rows[0])
    requires RecordFailsFirst(exporter, rows[1..], index + 1, i, e)
    ensures RecordFailsFirst(exporter, rows, index, i + 1, e)
  {
    var procs := exporter.procedures;
    assert rows[1..][i] == rows[i + 1];
    assert StartRow + (index + 1) + i == StartRow + index + (i + 1);
    var before := rows[..i + 1];
    assert before[0] == rows[0];
    assert before[1..] == rows[1..][..i];
    AllRowsValidCons(exporter, before, index);
  }

  /** A failed run reports the first failing cell in row-major order. */
  lemma {:induction false} WriteRecordsFirstFailure(exporter: Exporter, sheet: Sheet, rows: seq<Value>, index: nat)
    requires WriteRecords(exporter, sheet, rows, index).Failure?
    ensures exists i: nat :: RecordFailsFirst(exporter, rows, index, i, WriteRecords(exporter, sheet, rows, index).error)
    decreases |rows|
  {
    var e := WriteRecords(exporter, sheet, rows, index).error;
    var number := StartRow + index;
    var procs := exporter.procedures;
    WriteRecordSucceeds(exporter, sheet, procs, number, rows[0]);
    if !RowValid(exporter, procs, number, rows[0]) {
      WriteRecordFirstFailure(exporter, sheet, procs, number, rows[0]);
      assert number == StartRow + index + 0;
      assert AllRowsValid(exporter, rows[..0], index);
      assert RecordFailsFirst(exporter, rows, index, 0, e);
    } else {
      var next := WriteAll(sheet, RowWrites(exporter, procs, number, rows[0]));
      WriteRecordsStep(exporter, sheet, rows, index);
      WriteRecordsFirstFailure(exporter, next, rows[1..], index + 1);
      var i: nat :| RecordFailsFirst(exporter, rows[1..], index + 1, i, e);
      RecordFailsFirstShift(exporter, rows, index, i, e);
    }
  }

  // ---------------------------------------------------------------------------
  // The compile

  /** The workbook `compile` hands to the writer: the header, then the data,
      on a fresh document. */
  function Build(exporter: Exporter, data: Value): Result<Document, CompileError> {
    if !data.Arr? then Failure(DataNotArray)
    else
      var doc := CreateDocument(exporter.file);
      var headed := WriteAll(doc.sheet, HeaderWrites(exporter.header));
      match WriteRecords(exporter, headed, Values(data.entries), 0)
      case Failure(e) => Failure(e)
      case Success(sheet) => Success(doc.(sheet := sheet))
  }

  /** `compile`: the workbook's binary, or null with one log line. A
      workbook that cannot be built never reaches the writer. */
  function Compile(exporter: Exporter, data: Value, writer: Writer): (r: Logged<Option<Binary>>)
    ensures r.value.Some? <==> r.log == []
    ensures r.value.None? ==> |r.log| == 1 && CompileFailurePrefix <= r.log[0]
    ensures !data.Arr? ==> r == Logged(None, [CompileFailurePrefix + "argument data must be array"])
    ensures Build(exporter, data).Failure? ==>
      r == Logged(None, [CompileFailurePrefix + Build(exporter, data).error.Message()])
    ensures r.value.Some? ==>
      Build(exporter, data).Success? && writer(Build(exporter, data).value, WriterType) == Success(r.value.value)
    ensures Build(exporter, data).Success? ==>
      var w := writer(Build(exporter, data).value, WriterType);
      r == (if w.Success? then Logged(Some(w.value), []) else Logged(None, [CompileFailurePrefix + w.error]))
  {
    match Build(exporter, data)
    case Failure(e) => Logged(None, [CompileFailurePrefix + e.Message()])
    case Success(doc) =>
      match writer(doc, WriterType)
      case Failure(message) => Logged(None, [CompileFailurePrefix + WriterFailed(message).Message()])
      case Success(binary) => Logged(Some(binary), [])
  }

  /** The workbook is built iff the data is an array and every procedure
      accepts every record. It then carries the helper's properties and
      styling, and its sheet is the header writes followed by the data
      writes. */
  lemma BuildMeaning(exporter: Exporter, data: Value)
    ensures Build(exporter, data).Success? <==> data.Arr? && AllRowsValid(exporter, Values(data.entries), 0)
    ensures Build(exporter, data).Success? ==>
      var rows := Values(data.entries);
      Build(exporter, data).value == CreateDocument(exporter.file).(sheet :=
        WriteAll(WriteAll(map[], HeaderWrites(exporter.header)), PlannedWrites(exporter, rows, 0)))
  {
    if data.Arr? {
      var rows := Values(data.entries);
      var headed := WriteAll(map[], HeaderWrites(exporter.header));
      WriteRecordsSucceeds(exporter, headed, rows, 0);
      if AllRowsValid(exporter, rows, 0) {
        WriteRecordsWrites(exporter, headed, rows, 0);
      }
    }
  }

  /** A failed build reports the first failing cell in row-major order:
      record i is the first record some procedure rejects, procedure j the
      first procedure rejecting it. */
  lemma BuildFirstFailure(exporter: Exporter, data: Value)
    requires data.Arr? && Build(exporter, data).Failure?
    ensures exists i: nat :: RecordFailsFirst(exporter, Values(data.entries), 0, i, Build(exporter, data).error)
  {
    var headed := WriteAll(map[], HeaderWrites(exporter.header));
    WriteRecordsFirstFailure(exporter, headed, Values(data.entries), 0);
  }

  /** Addresses built by `compile` always name a data row, so the empty
      address check of `setExcelCellValue` never fires from `compile`. */
  lemma BuildNeverEmptyAddress(exporter: Exporter, data: Value)
    ensures Build(exporter, data) != Failure(EmptyAddress)
  {
    if data.Arr? && Build(exporter, data).Failure? {
      var rows := Values(data.entries);
      var e := Build(exporter, data).error;
      BuildFirstFailure(exporter, data);
      var i: nat :| RecordFailsFirst(exporter, rows, 0, i, e);
      var j: nat :| ColumnFailsFirst(exporter, exporter.procedures, StartRow + 0 + i, rows[i], j, e);
      var address := Address(exporter.procedures[j].0, StartRow + 0 + i);
      assert !IsEmptyString(address);
      CheckOrder(exporter, address, exporter.procedures[j].1, rows[i]);
    }
  }

  /** With no records the workbook holds the header only. */
  lemma EmptyDataHeaderOnly(exporter: Exporter)
    ensures Build(exporter, Arr([])) ==
      Success(CreateDocument(exporter.file).(sheet := WriteAll(map[], HeaderWrites(exporter.header))))
  {
    BuildMeaning(exporter, Arr([]));
  }

  /** Records are only inspected through procedures: with none, any array
      of records, even of non-arrays, yields the header-only workbook. */
  lemma NoProceduresAcceptAnything(exporter: Exporter, data: Value)
    requires data.Arr? && exporter.procedures == []
    ensures Build(exporter, data) ==
      Success(CreateDocument(exporter.file).(sheet := WriteAll(map[], HeaderWrites(exporter.header))))
  {
    var rows := Values(data.entries);
    BuildMeaning(exporter, data);
    PlannedLength(exporter, rows, 0);
  }

  /** In a built workbook a data write overrides a header label at the same
      address, and the cell holds the last data write to it, typed
      explicitly; an address only the header touches keeps its last label. */
  lemma DataOverridesHeader(exporter: Exporter, data: Value, a: string)
    requires Build(exporter, data).Success?
    ensures data.Arr? && AllRowsValid(exporter, Values(data.entries), 0)
    ensures var sheet := Build(exporter, data).value.sheet;
      var planned := PlannedWrites(exporter, Values(data.entries), 0);
      && (LastWrite(planned, a).Some? ==>
            a in sheet && sheet[a] == LastWrite(planned, a).value && sheet[a].cellType.Explicit?)
      && (LastWrite(planned, a).None? && LastWrite(HeaderWrites(exporter.header), a).Some? ==>
            a in sheet && sheet[a] == LastWrite(HeaderWrites(exporter.header), a).value && sheet[a].cellType.Inferred?)
  {
    BuildMeaning(exporter, data);
    var rows := Values(data.entries);
    var header := HeaderWrites(exporter.header);
    var planned := PlannedWrites(exporter, rows, 0);
    var headed := WriteAll(map[], header);
    WriteAllLastWins(headed, planned, a);
    WriteAllLastWins(map[], header, a);
    PlannedExplicit(exporter, rows, 0);
    if LastWrite(planned, a).Some? {
      var k :| 0 <= k < |planned| && planned[k] == CellWrite(a, LastWrite(planned, a).value);
    }
    if LastWrite(header, a).Some? {
      var k :| 0 <= k < |header| && header[k] == CellWrite(a, LastWrite(header, a).value);
    }
  }
}
