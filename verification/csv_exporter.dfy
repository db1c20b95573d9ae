/** The CSV helper: one record to one CSV line (`row`, `writeCsvRow`), and
    the post-processing for Windows spreadsheet software (`windows`:
    CR LF line breaks, then an optional transcoding).

    PHP's `fputcsv`, the in-memory stream it writes to, `setlocale` and
    `mb_convert_variables` are not modelled: their outcomes are the fields
    of a `CsvEnvironment` and a `Transcoder` passed in by the caller. */
module CsvExporter {
  import opened Wrappers
  import opened PhpValues
  import opened Newlines

  /** The locale set before every line is written. */
  const Locale: string := "ja_JP.utf8"

  /** Field delimiter and enclosure passed to `fputcsv`. */
  const Delimiter: char := ','
  const Enclosure: char := '"'

  /** The default target encoding of `windows`. */
  const SjisEncoding: string := "SJIS-win"

  /** What the PHP builtins used by `writeCsvRow` do in this run. */
  datatype CsvEnvironment = CsvEnvironment(
    memoryOpens: bool,                     // fopen('php://memory', 'r+') returns a stream
    localeSets: bool,                      // setlocale(LC_ALL, Locale) succeeds
    putCsv: (seq<Value>, char, char) -> Option<string>,  // fputcsv(fields, delimiter, enclosure): the line it writes, None when it returns false
    rewinds: bool)                         // rewind() succeeds

  /** The exceptions `writeCsvRow` throws. */
  datatype CsvFault = RowNotArray | OpenFailed | LocaleFailed | PutCsvFailed | RewindFailed {

    /** The exception message, which `row` writes to the log. */
    function Message(): string {
      match this
      case RowNotArray => "CSV record row must be array"
      case OpenFailed => "failed to open stream: cannot access memory"
      case LocaleFailed => "failed to set locale: " + Locale
      case PutCsvFailed => "failed to put csv: cannot write CSV record row"
      case RewindFailed => "failed to rewind stream: cannot access buffering"
    }
  }

  /** The steps of `writeCsvRow` that took place, in order: the memory
      buffer's opening, writes, rewind, read and close, and the locale
      being set. */
  datatype BufferEvent = Opened | LocaleSet | LineWritten | Rewound | ContentsRead | Closed

  /** The steps after opening, in the order `writeCsvRow` takes them; a run
      performs a prefix of them, then closes the buffer. */
  const StepOrder: seq<BufferEvent> := [Opened, LocaleSet, LineWritten, Rewound, ContentsRead]

  /** The outcome of `writeCsvRow` and the buffer events it caused. */
  datatype RowRun = RowRun(outcome: Result<string, CsvFault>, events: seq<BufferEvent>)

  /** The checks and buffer operations that must all succeed for a line to be produced. */
  predicate RowSucceeds(env: CsvEnvironment, row: Value) {
    && row.Arr?
    && env.memoryOpens
    && env.localeSets
    && env.putCsv(Values(row.entries), Delimiter, Enclosure).Some?
    && env.rewinds
  }

  /** `writeCsvRow`: validate the row, open a memory buffer, set the locale,
      write the line, rewind and read it back. A failure once the buffer is
      open closes the buffer and is rethrown. */
  function WriteCsvRow(env: CsvEnvironment, row: Value): (r: RowRun)
    ensures r.outcome == Failure(RowNotArray) <==> !row.Arr?
    ensures r.outcome.Success? <==> RowSucceeds(env, row)
    // each step that fails throws its own exception, the first failing step deciding
    ensures row.Arr? && !env.memoryOpens ==> r.outcome == Failure(OpenFailed)
    ensures row.Arr? && env.memoryOpens && !env.localeSets ==> r.outcome == Failure(LocaleFailed)
    ensures row.Arr? && env.memoryOpens && env.localeSets && env.putCsv(Values(row.entries), Delimiter, Enclosure).None? ==>
      r.outcome == Failure(PutCsvFailed)
    ensures row.Arr? && env.memoryOpens && env.localeSets && env.putCsv(Values(row.entries), Delimiter, Enclosure).Some? && !env.rewinds ==>
      r.outcome == Failure(RewindFailed)
    ensures r.outcome.Success? ==> r.outcome.value == env.putCsv(Values(row.entries), Delimiter, Enclosure).value
    // a non-array row is rejected before any buffer exists
    ensures !row.Arr? ==> r.events == []
    ensures Opened !in r.events <==> (!row.Arr? || !env.memoryOpens)
    // once opened, the buffer is closed exactly once, as the last event, on every path
    ensures Opened in r.events ==>
      && r.events[0] == Opened
      && r.events[|r.events| - 1] == Closed
      && multiset(r.events)[Closed] == 1
      && multiset(r.events)[Opened] == 1
    // each step runs iff every step before it succeeded: nothing follows a failed fopen,
    // no step follows a failed setlocale or fputcsv but the close, and only a success rewinds and reads
    ensures Opened !in r.events ==> r.events == []
    ensures LocaleSet in r.events <==> row.Arr? && env.memoryOpens && env.localeSets
    ensures LineWritten in r.events <==>
      row.Arr? && env.memoryOpens && env.localeSets && env.putCsv(Values(row.entries), Delimiter, Enclosure).Some?
    ensures Rewound in r.events <==> r.outcome.Success?
    ensures ContentsRead in r.events <==> r.outcome.Success?
    // each step happens once, in source order: a prefix of the steps, then the close
    ensures Opened in r.events ==>
      && |r.events| <= |StepOrder| + 1
      && forall i :: 0 <= i < |r.events| - 1 ==> r.events[i] == StepOrder[i]
    // a failure after opening is one of the three buffer faults, rethrown
    ensures Opened in r.events && r.outcome.Failure? ==>
      r.outcome.error in {LocaleFailed, PutCsvFailed, RewindFailed}
  {
    if !row.Arr? then RowRun(Failure(RowNotArray), [])
    else if !env.memoryOpens then RowRun(Failure(OpenFailed), [])
    else if !env.localeSets then RowRun(Failure(LocaleFailed), [Opened, Closed])
    else
      match env.putCsv(Values(row.entries), Delimiter, Enclosure)
      case None => RowRun(Failure(PutCsvFailed), [Opened, LocaleSet, Closed])
      case Some(line) =>
        if !env.rewinds then RowRun(Failure(RewindFailed), [Opened, LocaleSet, LineWritten, Closed])
        else RowRun(Success(line), [Opened, LocaleSet, LineWritten, Rewound, ContentsRead, Closed])
  }

  /** `row`: the CSV line, or "" with the failure message logged. */
  function Row(env: CsvEnvironment, data: Value): (r: Logged<string>)
    ensures RowSucceeds(env, data) ==> r == Logged(env.putCsv(Values(data.entries), Delimiter, Enclosure).value, [])
    ensures !RowSucceeds(env, data) ==> r.value == "" && |r.log| == 1
    ensures !RowSucceeds(env, data) ==> r.log == [WriteCsvRow(env, data).outcome.error.Message()]
    ensures !data.Arr? ==> r == Logged("", ["CSV record row must be array"])
  {
    match WriteCsvRow(env, data).outcome
    case Success(csv) => Logged(csv, [])
    case Failure(fault) => Logged("", [fault.Message()])
  }

  /** The line `row` logs for each failing step of `writeCsvRow`. */
  lemma RowLogs(env: CsvEnvironment, data: Value)
    ensures data.Arr? && !env.memoryOpens ==>
      Row(env, data) == Logged("", ["failed to open stream: cannot access memory"])
    ensures data.Arr? && env.memoryOpens && !env.localeSets ==>
      Row(env, data) == Logged("", ["failed to set locale: ja_JP.utf8"])
    ensures data.Arr? && env.memoryOpens && env.localeSets && env.putCsv(Values(data.entries), Delimiter, Enclosure).None? ==>
      Row(env, data) == Logged("", ["failed to put csv: cannot write CSV record row"])
    ensures data.Arr? && env.memoryOpens && env.localeSets && env.putCsv(Values(data.entries), Delimiter, Enclosure).Some? && !env.rewinds ==>
      Row(env, data) == Logged("", ["failed to rewind stream: cannot access buffering"])
  {
    if data.Arr? {
      if !env.memoryOpens {
        OpenFailureLog(env, data);
      } else if !env.localeSets {
        LocaleFailureLog(env, data);
      } else if env.putCsv(Values(data.entries), Delimiter, Enclosure).None? {
        PutCsvFailureLog(env, data);
      } else if !env.rewinds {
        RewindFailureLog(env, data);
      }
    }
  }

  /** The line `row` logs when `fopen` fails. */
  lemma OpenFailureLog(env: CsvEnvironment, data: Value)
    requires data.Arr? && !env.memoryOpens
    ensures Row(env, data) == Logged("", ["failed to open stream: cannot access memory"])
  {
    assert WriteCsvRow(env, data).outcome == Failure(OpenFailed);
  }

  /** The line `row` logs when `setlocale` fails. */
  lemma LocaleFailureLog(env: CsvEnvironment, data: Value)
    requires data.Arr? && env.memoryOpens && !env.localeSets
    ensures Row(env, data) == Logged("", ["failed to set locale: ja_JP.utf8"])
  {
    assert WriteCsvRow(env, data).outcome == Failure(LocaleFailed);
    assert LocaleFailed.Message() == "failed to set locale: ja_JP.utf8";
  }

  /** The line `row` logs when `fputcsv` fails. */
  lemma PutCsvFailureLog(env: CsvEnvironment, data: Value)
    requires data.Arr? && env.memoryOpens && env.localeSets && env.putCsv(Values(data.entries), Delimiter, Enclosure).None?
    ensures Row(env, data) == Logged("", ["failed to put csv: cannot write CSV record row"])
  {
    assert WriteCsvRow(env, data).outcome == Failure(PutCsvFailed);
  }

  /** The line `row` logs when `rewind` fails. */
  lemma RewindFailureLog(env: CsvEnvironment, data: Value)
    requires data.Arr? && env.memoryOpens && env.localeSets && env.putCsv(Values(data.entries), Delimiter, Enclosure).Some?
    requires !env.rewinds
    ensures Row(env, data) == Logged("", ["failed to rewind stream: cannot access buffering"])
  {
    assert WriteCsvRow(env, data).outcome == Failure(RewindFailed);
  }

  /** `mb_convert_variables`: converts text from one encoding to another,
      or fails. Arguments: text, source encoding, target encoding. */
  type Transcoder = (string, string, string) -> Option<string>

  /** The message `toEncoding` throws when conversion fails. */
  function EncodingFailure(internal: string, encoding: string): string {
    "failed to convert encoding: invalid encoding: from=" + internal + " to=" + encoding
  }

  /** `toEncoding`: the converted text, or the thrown message. */
  function ToEncoding(value: string, encoding: string, internal: string, convert: Transcoder): (r: Result<string, string>)
    ensures r.Failure? <==> convert(value, internal, encoding).None?
    ensures r.Failure? ==> r.error == EncodingFailure(internal, encoding)
    ensures r.Success? ==> r.value == convert(value, internal, encoding).value
  {
    match convert(value, internal, encoding)
    case None => Failure(EncodingFailure(internal, encoding))
    case Some(converted) => Success(converted)
  }

  /** `windows`: CR LF line breaks, then transcoding to `encoding` unless it
      is null. `internal` is the application encoding the text is in. When
      transcoding fails the failure is logged and the CR LF text, which was
      already assigned, is returned. */
  function Windows(value: string, encoding: Option<string>, internal: string, convert: Transcoder): (r: Logged<string>)
    ensures encoding.None? ==> r == Logged(ToCrLf(value), [])
    ensures encoding.Some? && convert(ToCrLf(value), internal, encoding.value).Some? ==>
      r == Logged(convert(ToCrLf(value), internal, encoding.value).value, [])
    ensures encoding.Some? && convert(ToCrLf(value), internal, encoding.value).None? ==>
      r == Logged(ToCrLf(value), [EncodingFailure(internal, encoding.value)])
    // whenever no transcoding took place, the result has only CR LF line breaks
    ensures encoding.None? || |r.log| == 1 ==> CrLfClean(r.value)
  {
    var windows := ToCrLf(value);
    if encoding.None? then Logged(windows, [])
    else
      match ToEncoding(windows, encoding.value, internal, convert)
      case Success(converted) => Logged(converted, [])
      case Failure(message) => Logged(windows, [message])
  }
  /** `windows($value)` with the default encoding: a failed conversion to
      SJIS-win is logged with both encodings named, and the CR LF text is kept. */
  lemma WindowsDefaultFailure(value: string, internal: string, convert: Transcoder)
    requires convert(ToCrLf(value), internal, SjisEncoding).None?
    ensures Windows(value, Some(SjisEncoding), internal, convert)
         == Logged(ToCrLf(value), ["failed to convert encoding: invalid encoding: from=" + internal + " to=SJIS-win"])
  {
    assert EncodingFailure(internal, SjisEncoding)
        == "failed to convert encoding: invalid encoding: from=" + internal + " to=SJIS-win";
  }

}
