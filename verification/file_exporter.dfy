/** The controller component (`FileExporterComponent`): recognises the
    download extensions, registers the spreadsheet content type, and prepares
    a download response with cache headers that let Internet Explorer save
    files served over HTTPS.

    The request handler is reduced to the parsed extension and its content
    type table; `$_SERVER['REQUEST_TIME']` is an optional instant; `header()`
    appends to a sequence of headers; the date formatter (`gmdate` with the
    IMF-fixdate layout of section 7.1.1.1 of RFC 7231) is a function passed
    in by the caller. */
module FileExporterComponent {
  import opened Wrappers

  const ExtensionCsv: string := "csv"
  const ExtensionExcel: string := "xls"

  const ContentTypePlainText: string := "text/plain"
  const ContentTypeMsExcel: string := "application/vnd.ms-excel"

  /** How long, in seconds, a download may be cached: thirty minutes. */
  const TimelimitExpires: int := 1800

  /** The `gmdate` layout of the HTTP dates. */
  const HttpDateFormat: string := "D, d M Y H:i:s \\G\\M\\T"

  /** What the component sees of the request: the URL extension the
      request handler parsed (none when the URL has none) and the request
      time, when the server set it. */
  datatype Request = Request(ext: Option<string>, requestTime: Option<int>)

  /** `isExcelExtension`: a strict comparison with "xls". */
  predicate IsExcelExtension(req: Request) {
    req.ext == Some(ExtensionExcel)
  }

  /** `isCsvExtension`: a strict comparison with "csv". */
  predicate IsCsvExtension(req: Request) {
    req.ext == Some(ExtensionCsv)
  }

  /** The two download formats never claim the same request. */
  lemma ExtensionsExclusive(req: Request)
    ensures !(IsExcelExtension(req) && IsCsvExtension(req))
    ensures IsExcelExtension(req) ==> req.ext.value == "xls"
    ensures IsCsvExtension(req) ==> req.ext.value == "csv"
  {
  }

  /** The extensions exercised for both predicates: only the exact
      extension is recognised, neighbouring formats are not. */
  lemma ExtensionExamples(time: Option<int>)
    ensures IsExcelExtension(Request(Some("xls"), time))
    ensures !IsExcelExtension(Request(Some("html"), time)) && !IsExcelExtension(Request(Some("txt"), time))
    ensures !IsExcelExtension(Request(Some("csv"), time)) && !IsExcelExtension(Request(Some("xlsx"), time))
    ensures IsCsvExtension(Request(Some("csv"), time))
    ensures !IsCsvExtension(Request(Some("html"), time)) && !IsCsvExtension(Request(Some("txt"), time))
    ensures !IsCsvExtension(Request(Some("tsv"), time)) && !IsCsvExtension(Request(Some("xls"), time))
    ensures !IsExcelExtension(Request(None, time)) && !IsCsvExtension(Request(None, time))
  {
    assert "xlsx" != ExtensionExcel by { assert |"xlsx"| != |ExtensionExcel|; }
  }

  /** The request handler's table from extension to content types. */
  type ContentTypes = map<string, seq<string>>

  /** `initialize`: on an xls request, map "xls" to the spreadsheet type,
      with plain text as the fallback; any other request leaves the table
      as it is. */
  function Initialize(table: ContentTypes, req: Request): (r: ContentTypes)
    ensures IsExcelExtension(req) ==> ExtensionExcel in r && r[ExtensionExcel] == [ContentTypeMsExcel, ContentTypePlainText]
    ensures !IsExcelExtension(req) ==> r == table
    ensures r.Keys == table.Keys || r.Keys == table.Keys + {ExtensionExcel}
    ensures forall e :: e in table && e != ExtensionExcel ==> e in r && r[e] == table[e]
  {
    if IsExcelExtension(req) then table[ExtensionExcel := [ContentTypeMsExcel, ContentTypePlainText]]
    else table
  }

  /** Initialising twice is initialising once. */
  lemma InitializeIdempotent(table: ContentTypes, req: Request)
    ensures Initialize(Initialize(table, req), req) == Initialize(table, req)
  {
  }

  // ---------------------------------------------------------------------------
  // Cache headers

  /** The response headers `enableCacheControl` sends; instants are seconds
      since the epoch. */
  datatype Header = Expires(at: int) | LastModified(at: int) | CacheControlPublic | PragmaPublic {

    /** The header field name. */
    function Name(): string {
      match this
      case Expires(_) => "Expires"
      case LastModified(_) => "Last-Modified"
      case CacheControlPublic => "Cache-Control"
      case PragmaPublic => "Pragma"
    }
  }

  /** `gmdate`: formats an instant, in UTC, with a layout. */
  type DateFormatter = (string, int) -> string

  /** The field value of a header: an instant formatted by `gmdate`, or
      the "public" directive. */
  function FieldValue(h: Header, gmdate: DateFormatter): string {
    if h.Expires? || h.LastModified? then gmdate(HttpDateFormat, h.at) else "public"
  }

  /** The header line sent. */
  function HeaderLine(h: Header, gmdate: DateFormatter): string {
    match h
    case Expires(at) => "Expires: " + gmdate(HttpDateFormat, at)
    case LastModified(at) => "Last-Modified: " + gmdate(HttpDateFormat, at)
    case CacheControlPublic => "Cache-Control: public"
    case PragmaPublic => "Pragma: public"
  }

  /** Every header line is the field name, a colon and a space, then the
      field value. */
  lemma HeaderLineShape(h: Header, gmdate: DateFormatter)
    ensures HeaderLine(h, gmdate) == h.Name() + ": " + FieldValue(h, gmdate)
  {
  }

  /** The instant the cache headers count from: the request time, or 0 when
      the server did not set it (`gmdate` reads null as 0). */
  function CurrentTime(requestTime: Option<int>): int {
    requestTime.GetOr(0)
  }

  /** `enableCacheControl`: four headers appended to those already sent,
      in a fixed order; the content expires `ttl` seconds after it was last
      modified, which is the request time. */
  function EnableCacheControl(sent: seq<Header>, ttl: int, requestTime: Option<int>): (r: seq<Header>)
    ensures |r| == |sent| + 4 && r[..|sent|] == sent
    ensures r[|sent|].Expires? && r[|sent| + 1].LastModified?
    ensures r[|sent| + 2] == CacheControlPublic && r[|sent| + 3] == PragmaPublic
    ensures r[|sent|].at == r[|sent| + 1].at + ttl
    ensures requestTime.Some? ==> r[|sent| + 1].at == requestTime.value
    ensures requestTime.None? ==> r[|sent|].at == ttl && r[|sent| + 1].at == 0
  {
    var current := CurrentTime(requestTime);
    sent + [Expires(current + ttl), LastModified(current), CacheControlPublic, PragmaPublic]
  }

  /** The lines of the headers, in order. */
  function HeaderLines(hs: seq<Header>, gmdate: DateFormatter): (lines: seq<string>)
    ensures |lines| == |hs|
    ensures forall k :: 0 <= k < |hs| ==> lines[k] == HeaderLine(hs[k], gmdate)
  {
    seq(|hs|, k requires 0 <= k < |hs| => HeaderLine(hs[k], gmdate))
  }

  lemma LinesOfFour(a: Header, b: Header, c: Header, d: Header, gmdate: DateFormatter)
    ensures HeaderLines([a, b, c, d], gmdate)
         == [HeaderLine(a, gmdate), HeaderLine(b, gmdate), HeaderLine(c, gmdate), HeaderLine(d, gmdate)]
  {
  }

  /** The four cache header lines, as sent. */
  lemma CacheControlLines(ttl: int, requestTime: Option<int>, gmdate: DateFormatter)
    ensures HeaderLines(EnableCacheControl([], ttl, requestTime), gmdate) == [
      "Expires: " + gmdate(HttpDateFormat, CurrentTime(requestTime) + ttl),
      "Last-Modified: " + gmdate(HttpDateFormat, CurrentTime(requestTime)),
      "Cache-Control: public",
      "Pragma: public"]
  {
    var t := CurrentTime(requestTime);
    assert EnableCacheControl([], ttl, requestTime) == [Expires(t + ttl), LastModified(t), CacheControlPublic, PragmaPublic];
    LinesOfFour(Expires(t + ttl), LastModified(t), CacheControlPublic, PragmaPublic, gmdate);
  }

  // ---------------------------------------------------------------------------
  // Download responses

  /** The response prepared for a download: the headers sent, the
      extension passed to the request handler's `respondAs`, and the file
      name it offers as an attachment. */
  datatype Response = Response(headers: seq<Header>, ext: string, attachment: string)

  /** The cache headers, then the response as a download of `ext`. */
  function RespondAs(sent: seq<Header>, ext: string, filename: string, req: Request): Response {
    Response(EnableCacheControl(sent, TimelimitExpires, req.requestTime), ext, filename)
  }

  /** `respondAsExcel`: an xls download cacheable for thirty minutes. */
  function RespondAsExcel(sent: seq<Header>, filename: string, req: Request): (r: Response)
    ensures r.ext == ExtensionExcel && r.attachment == filename
    ensures |r.headers| == |sent| + 4 && r.headers[..|sent|] == sent
    ensures r.headers[|sent|].Expires? && r.headers[|sent| + 1].LastModified?
    ensures r.headers[|sent|].at - r.headers[|sent| + 1].at == 1800
    ensures r.headers == EnableCacheControl(sent, TimelimitExpires, req.requestTime)
  {
    RespondAs(sent, ExtensionExcel, filename, req)
  }

  /** `respondAsCsv`: a csv download cacheable for thirty minutes. */
  function RespondAsCsv(sent: seq<Header>, filename: string, req: Request): (r: Response)
    ensures r.ext == ExtensionCsv && r.attachment == filename
    ensures |r.headers| == |sent| + 4 && r.headers[..|sent|] == sent
    ensures r.headers[|sent|].Expires? && r.headers[|sent| + 1].LastModified?
    ensures r.headers[|sent|].at - r.headers[|sent| + 1].at == 1800
    ensures r.headers == EnableCacheControl(sent, TimelimitExpires, req.requestTime)
  {
    RespondAs(sent, ExtensionCsv, filename, req)
  }

  /** The two responders differ only in the extension. */
  lemma RespondersAgree(sent: seq<Header>, filename: string, req: Request)
    ensures RespondAsExcel(sent, filename, req).headers == RespondAsCsv(sent, filename, req).headers
    ensures RespondAsExcel(sent, filename, req).(ext := ExtensionCsv) == RespondAsCsv(sent, filename, req)
  {
  }
}
