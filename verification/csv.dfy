/**
 The CSV export: the payload written for a non-empty log (byte-order mark,
 fixed header, one `timestamp,count` line per record), the download file
 name, the clearing of the log, and the parse that reads a payload back.
 */
module Csv {
  import opened Wrappers
  import opened Decimal
  import opened Text
  import opened Timestamp
  import opened Session

  /** The byte-order mark that lets spreadsheet tools detect UTF-8. */
  const Bom: string := "\U{FEFF}"

  /** The header line: "date-time" and "count" in Japanese. */
  const Header: string := "日時,人数\n"

  /** Everything before the first record. */
  const Preamble: string := Bom + Header

  /** One record as a CSV row, without the line terminator. */
  function Row(r: LogRecord): string {
    r.timestamp + "," + NatToString(r.count)
  }

  /** One record as a newline-terminated CSV line. */
  function Line(r: LogRecord): string {
    Row(r) + "\n"
  }

  /** The record lines, in log order. */
  function Body(log: seq<LogRecord>): string {
    if log == [] then "" else Line(log[0]) + Body(log[1..])
  }

  /** The whole text that is offered for download. */
  function Payload(log: seq<LogRecord>): (p: string)
    ensures |p| >= |Preamble| && p[..|Preamble|] == Preamble
  {
    Preamble + Body(log)
  }

  /** The rows of a log, one per record. */
  function Rows(log: seq<LogRecord>): (rows: seq<string>)
    ensures |rows| == |log|
    ensures forall i :: 0 <= i < |log| ==> rows[i] == Row(log[i])
  {
    if log == [] then [] else [Row(log[0])] + Rows(log[1..])
  }

  /** The body is the rows joined by newlines, with a final newline. */
  lemma {:induction false} BodyIsJoinedRows(log: seq<LogRecord>)
    ensures Body(log) == Join(Rows(log) + [""], '\n')
  {
    if log != [] {
      BodyIsJoinedRows(log[1..]);
      var parts := Rows(log) + [""];
      assert parts[0] == Row(log[0]);
      assert parts[1..] == Rows(log[1..]) + [""];
    }
  }

  /** Reads one row back into a record. */
  function ParseRow(row: string): Option<LogRecord> {
    var fields := Split(row, ',');
    if |fields| != 2 then None
    else
      match ParseNat(fields[1])
      case Some(n) => Some(LogRecord(fields[0], n))
      case None => None
  }

  /** Reads rows back into records, failing if any row is malformed. */
  function ParseRows(rows: seq<string>): Option<seq<LogRecord>> {
    if rows == [] then Some([])
    else
      match (ParseRow(rows[0]), ParseRows(rows[1..]))
      case (Some(r), Some(rest)) => Some([r] + rest)
      case _ => None
  }

  /**
   Reads a payload back: strip the byte-order mark and header, split the
   rest on newlines (the last piece must be empty), and each line on commas.
   */
  function Parse(p: string): Option<seq<LogRecord>> {
    if |p| < |Preamble| || p[..|Preamble|] != Preamble then None
    else
      var lines := Split(p[|Preamble|..], '\n');
      if lines[|lines| - 1] != "" then None else ParseRows(lines[..|lines| - 1])
  }

  /** A record whose timestamp has no comma is recovered from its row. */
  lemma ParseRowOfRow(r: LogRecord)
    requires ',' !in r.timestamp
    ensures ParseRow(Row(r)) == Some(r)
  {
    var digits := NatToString(r.count);
    assert Row(r) == Join([r.timestamp, digits], ',');
    SplitJoin([r.timestamp, digits], ',');
    ParseNatToString(r.count);
  }

  /** The rows of a well-formed log are read back into the log. */
  lemma {:induction false} ParseRowsOfRows(log: seq<LogRecord>)
    requires WellFormed(log)
    ensures ParseRows(Rows(log)) == Some(log)
  {
    if log != [] {
      ParseRowOfRow(log[0]);
      ParseRowsOfRows(log[1..]);
      assert Rows(log)[1..] == Rows(log[1..]);
      assert [log[0]] + log[1..] == log;
    }
  }

  /** No row of a well-formed log contains a newline. */
  lemma RowsAvoidNewline(log: seq<LogRecord>)
    requires WellFormed(log)
    ensures forall i :: 0 <= i < |Rows(log) + [""]| ==> '\n' !in (Rows(log) + [""])[i]
  {
  }

  /** Round trip: a well-formed log is recovered from its payload. */
  lemma ParsePayload(log: seq<LogRecord>)
    requires WellFormed(log)
    ensures Parse(Payload(log)) == Some(log)
  {
    var p := Payload(log);
    assert p[|Preamble|..] == Body(log);
    BodyIsJoinedRows(log);
    RowsAvoidNewline(log);
    SplitJoin(Rows(log) + [""], '\n');
    assert (Rows(log) + [""])[..|log|] == Rows(log);
    ParseRowsOfRows(log);
  }

  /** Distinct well-formed logs give distinct payloads. */
  lemma PayloadInjective(a: seq<LogRecord>, b: seq<LogRecord>)
    requires WellFormed(a) && WellFormed(b)
    requires Payload(a) == Payload(b)
    ensures a == b
  {
    ParsePayload(a);
    ParsePayload(b);
  }

  /**
   The download file name for the export instant `iso` (an ISO-8601 string):
   its first 19 characters with every ':' made '-', between `count_log_`
   and `.csv`.
   */
  function FileName(iso: string): (name: string)
    ensures |name| == 14 + (if |iso| < 19 then |iso| else 19)
    ensures name[..10] == "count_log_"
    ensures name[|name| - 4..] == ".csv"
    ensures forall i :: 0 <= i < |name| - 14 ==> name[10 + i] == if iso[i] == ':' then '-' else iso[i]
    ensures ':' !in name
  {
    "count_log_" + ReplaceAll(Prefix(iso, 19), ':', '-') + ".csv"
  }

  /** `String(n).padStart(width, '0')`, written out for the ISO instant. */
  function ZeroPad(n: nat, width: nat): string {
    PadStart(NatToString(n), width, '0')
  }

  /** `YYYY-MM-DD` of an instant. */
  function DatePart(f: DateFields): string
    requires 0 <= f.year
  {
    ZeroPad(f.year, 4) + "-" + ZeroPad(f.month0 + 1, 2) + "-" + ZeroPad(f.day, 2)
  }

  /** `HH<sep>MM<sep>SS` of an instant. */
  function TimePart(f: DateFields, sep: char): string {
    ZeroPad(f.hours, 2) + [sep] + ZeroPad(f.minutes, 2) + [sep] + ZeroPad(f.seconds, 2)
  }

  /**
   The instant `YYYY-MM-DDTHH:MM:SS.sssZ` for UTC date fields with a
   non-negative year.
   */
  function IsoInstant(f: DateFields, millis: nat): string
    requires 0 <= f.year
  {
    DatePart(f) + "T" + TimePart(f, ':') + ("." + ZeroPad(millis, 3) + "Z")
  }

  /** The file name pattern `count_log_YYYY-MM-DDTHH-MM-SS.csv`. */
  function FileNamePattern(f: DateFields): string
    requires 0 <= f.year
  {
    "count_log_" + (DatePart(f) + "T" + TimePart(f, '-')) + ".csv"
  }

  /** Padding a number below 10^width gives exactly `width` digits. */
  lemma ZeroPadLength(n: nat, width: nat)
    requires 1 <= width && n < Pow10(width)
    ensures |ZeroPad(n, width)| == width
    ensures ':' !in ZeroPad(n, width)
  {
    NatToStringLength(n, width);
  }

  /**
   For an instant whose fields are in range, the file name has the pattern
   `count_log_YYYY-MM-DDTHH-MM-SS.csv`: the milliseconds and zone are cut
   off and the time separators become hyphens.
   */
  lemma FileNameOfInstant(f: DateFields, millis: nat)
    requires 0 <= f.year <= 9999
    requires f.month0 < 12 && f.day < 100 && f.hours < 100 && f.minutes < 100 && f.seconds < 100
    requires millis < 1000
    ensures FileName(IsoInstant(f, millis)) == FileNamePattern(f)
  {
    DatePartShape(f);
    ZeroPadLength(f.hours, 2);
    ZeroPadLength(f.minutes, 2);
    ZeroPadLength(f.seconds, 2);
    var date := DatePart(f) + "T";
    assert ':' !in date;
    FileNameOfParts(DatePart(f) + "T", ZeroPad(f.hours, 2), ZeroPad(f.minutes, 2), ZeroPad(f.seconds, 2),
                    "." + ZeroPad(millis, 3) + "Z");
  }

  /** The date of an instant in range is ten characters without ':'. */
  lemma DatePartShape(f: DateFields)
    requires 0 <= f.year <= 9999
    requires f.month0 < 12 && f.day < 100
    ensures |DatePart(f)| == 10 && ':' !in DatePart(f)
  {
    ZeroPadLength(f.year, 4);
    ZeroPadLength(f.month0 + 1, 2);
    ZeroPadLength(f.day, 2);
    var y, m, d := ZeroPad(f.year, 4), ZeroPad(f.month0 + 1, 2), ZeroPad(f.day, 2);
    DashedShape(y, m, d);
    assert DatePart(f) == y + "-" + m + "-" + d;
  }

  lemma DashedShape(y: string, m: string, d: string)
    requires |y| == 4 && |m| == 2 && |d| == 2
    requires ':' !in y && ':' !in m && ':' !in d
    ensures |y + "-" + m + "-" + d| == 10 && ':' !in y + "-" + m + "-" + d
  {
  }

  /** The file name of an instant `<date>T<hh>:<mm>:<ss><rest>` with 19 characters before `<rest>`. */
  lemma FileNameOfParts(date: string, h: string, m: string, s: string, rest: string)
    requires |date| == 11 && |h| == 2 && |m| == 2 && |s| == 2
    requires ':' !in date && ':' !in h && ':' !in m && ':' !in s
    ensures FileName(date + (h + [':'] + m + [':'] + s) + rest)
            == "count_log_" + (date + (h + ['-'] + m + ['-'] + s)) + ".csv"
  {
  }

  /** The outcome of the export button. */
  datatype Outcome =
    | NothingToExport
    | Download(payload: string, fileName: string)

  datatype ExportResult = ExportResult(outcome: Outcome, session: Session)

  /**
   The export button at instant `iso`: an empty log is refused and kept;
   otherwise the payload is offered under the derived file name and the
   log is cleared.
   */
  function Export(s: Session, iso: string): (r: ExportResult)
    ensures r.session.analyzing == s.analyzing
    ensures s.log == [] <==> r.outcome == NothingToExport
    ensures s.log == [] ==> r.session == s
    ensures s.log != [] ==> r.session.log == []
    ensures r.outcome.Download? ==>
              && |r.outcome.payload| >= |Preamble|
              && r.outcome.payload[..|Preamble|] == Preamble
              && ':' !in r.outcome.fileName
    ensures r.outcome.Download? ==> r.outcome.fileName == FileName(iso) && r.outcome.payload == Payload(s.log)
  {
    if s.log == [] then ExportResult(NothingToExport, s)
    else ExportResult(Download(Payload(s.log), FileName(iso)), s.(log := []))
  }

  /**
   Exporting a well-formed non-empty log offers a payload from which exactly
   that log is read back, and leaves an empty log behind.
   */
  lemma ExportRoundTrip(s: Session, iso: string)
    requires s.log != [] && WellFormed(s.log)
    ensures Export(s, iso).outcome.Download?
    ensures Parse(Export(s, iso).outcome.payload) == Some(s.log)
    ensures Export(s, iso).session.log == []
  {
    ParsePayload(s.log);
  }

  /** Exporting twice in a row: one download, then a refusal that changes nothing. */
  lemma ExportTwice(s: Session, iso1: string, iso2: string)
    requires s.log != []
    ensures Export(s, iso1).outcome.Download?
    ensures Export(Export(s, iso1).session, iso2).outcome == NothingToExport
    ensures Export(Export(s, iso1).session, iso2).session == Export(s, iso1).session
  {
  }

  /** The export keeps the log writable as CSV, as it leaves it either unchanged or empty. */
  lemma ExportPreservesWellFormed(s: Session, iso: string)
    requires WellFormed(s.log)
    ensures WellFormed(Export(s, iso).session.log)
  {
  }
}
