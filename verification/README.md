# People counter: recording loop and CSV export, modelled in Dafny

The people counter is a browser page. It runs a pretrained object detector
on a webcam feed and counts the persons in each frame. While analysis is
switched on, it appends one timestamped count to an in-memory log per frame.
On request it exports the log as a CSV file and clears the log.

This project models the logic of `script.js` as pure functions over
immutable datatypes. The detector, the video element and the clock become
inputs.

- `Detection` (`detection.dfy`): the detector's output and the person
  filter. A detection counts when its class is exactly `"person"`.
  `CountPersons` is the `forEach` loop and `PersonCount` its functional form.
- `Timestamp` (`timestamp.dfy`): the record timestamp `YYYY/MM/DD/HH/MM/SS`
  built from local date fields. The month is stored 0-based. Every field
  after the year is padded to two digits. `Parse` reads a timestamp back.
- `Session` (`session.dfy`): the session state (analysing flag and log).
  `Step` is one iteration of the detection loop. `Toggle` is the start/stop
  button. `Run` drives `Step` over the frames the loop sees. It ends at the
  first iteration that does no work, because such an iteration schedules no
  successor.
- `Csv` (`csv.dfy`): the export payload (byte-order mark, header `日時,人数`,
  one `timestamp,count` line per record), the file name derived from the
  ISO-8601 export instant, and the export transition that refuses an empty
  log and otherwise clears it. `Parse` reads a payload back.
- `Text`, `Decimal`, `Wrappers`: the string operations the page uses
  (`padStart`, `replace(/:/g, '-')`, `slice(0, 19)`), decimal rendering and
  parsing of whole numbers, and `Option`. `Join` is how the model writes the
  `/`-separated template literal of the timestamp. `Split` exists only to
  read timestamps and payloads back in the round-trip lemmas.

Inputs that replace I/O:
- the detector's answer for a frame is a `seq<Detection>`;
- `video.paused` and `video.ended` are a `Video` value;
- `new Date()` read through `getFullYear`, `getMonth`, ... is a `DateFields` value;
- `new Date().toISOString()` is a string argument of `Export` and `FileName`.

## Model

| member | source | states |
|---|---|---|
| Detection.CountPersons | script.js:96-106 | the loop's count equals the number of positions in the detection list whose class is exactly "person" |
| Detection.PersonCountIsIndexCount | script.js:96-106 | the person count is the size of the set of indices holding a person detection |
| Detection.NonPersonIgnored | script.js:97-98 | inserting a detection of any other class anywhere in the list leaves the count unchanged |
| Detection.PersonCounted | script.js:97-99 | inserting a person detection anywhere in the list raises the count by exactly one |
| Detection.PersonCountAppend | script.js:97-106 | the count of two concatenated detection lists is the sum of their counts |
| Session.Step | script.js:90-115 | while analysing on a live video, one record is appended after the unchanged earlier records, carrying the person count and the clock's timestamp, and that count is shown; otherwise nothing changes and nothing is shown |
| Session.StepPreservesWellFormed | script.js:110-112 | appending a record keeps every timestamp in the log free of ',' and newline |
| Session.RecordsOf | script.js:108-112 | the records of a run of frames are one per frame, in frame order |
| Session.RunRecordsEveryFrame | script.js:90-114 | N iterations on a live video while analysing leave the log as the old log followed by exactly N records, frame by frame, each with its frame's count and timestamp |
| Session.RunWhileIdle | script.js:91 | while not analysing, the loop leaves the state unchanged |
| Session.RunEndsAtInertFrame | script.js:90-114 | a frame on a paused or ended video ends the loop: the frames after it are never processed, and the state is what the live frames before it left |
| Session.InitialWellFormed | script.js:12-14 | the page-load state is idle with an empty log, which is writable as CSV |
| Session.RunPreservesWellFormed | script.js:90-114 | the loop keeps every timestamp in the log free of ',' and newline |
| Session.Toggle | script.js:61-68 | the flag is flipped, the log is kept, and the loop is started exactly when the new flag is on and cancelled otherwise |
| Session.ToggleTwice | script.js:61-68 | toggling twice restores the original state |
| Session.StepAfterStopIsInert | script.js:62-91 | after stopping, an iteration that still runs appends nothing and shows nothing |
| Timestamp.Pad2 | script.js:111 | a padded field has at least two digits, exactly two below 100, no leading zero from 10 up, and still reads as the original number |
| Timestamp.FormatShape | script.js:111 | for a four-digit year and in-range fields the timestamp is 19 characters, slashes exactly at positions 4, 7, 10, 13 and 16 and digits elsewhere |
| Timestamp.FormatSpelledOut | script.js:111 | the timestamp is the year, the 1-based month, day, hours, minutes and seconds, joined by '/' |
| Timestamp.FormatAvoidsCsvSeparators | script.js:111 | no timestamp contains ',' or a newline, whatever the date fields |
| Timestamp.ParseFormat | script.js:111 | splitting a timestamp on '/' and reading the fields recovers every date field, including the 0-based month |
| Timestamp.FormatInjective | script.js:111 | distinct clock readings give distinct timestamps |
| Text.PadStart | script.js:111 | the padded string has the target width or its own length if longer, ends with the original, and is fill before it |
| Text.ReplaceAll | script.js:133 | every ':' becomes '-', all other characters are kept in place, and no ':' remains |
| Text.Prefix | script.js:133 | the slice keeps the first 19 characters, or the whole string if shorter |
| Decimal.NatToString | script.js:127 | a count renders as a non-empty digit string without leading zero |
| Decimal.ParseNatToString | script.js:127 | reading back a rendered count gives the count |
| Decimal.IntToString | script.js:111 | the year renders as the shortest digit string, without leading zero, preceded by '-' exactly when negative |
| Decimal.ParseIntToString | script.js:111 | reading back a rendered year gives the year |
| Csv.Payload | script.js:124-125 | the payload begins with the byte-order mark and the header line |
| Csv.BodyIsJoinedRows | script.js:126-128 | the body is the records' `timestamp,count` rows in log order, each followed by a newline |
| Csv.ParsePayload | script.js:124-128 | stripping the preamble, splitting on newlines and then on commas recovers exactly the log, for every log whose timestamps have no ',' or newline |
| Csv.PayloadInjective | script.js:124-128 | distinct such logs give distinct payloads |
| Csv.FileName | script.js:133 | the name is `count_log_`, then the first 19 characters of the instant (or all of it if shorter) with every ':' made '-', then `.csv`; it contains no ':' |
| Csv.FileNameOfInstant | script.js:133 | for an ISO instant `YYYY-MM-DDTHH:MM:SS.sssZ` the name is `count_log_YYYY-MM-DDTHH-MM-SS.csv` |
| Csv.Export | script.js:117-141 | an empty log is refused and the state kept; otherwise the log's payload is offered under the file name derived from the export instant, the log is cleared and the analysing flag kept |
| Csv.ExportRoundTrip | script.js:117-139 | exporting a non-empty log offers a payload from which exactly that log is read back, and leaves the log empty |
| Csv.ExportTwice | script.js:117-139 | two exports in a row give one download and then a refusal that changes nothing |
| Csv.ExportPreservesWellFormed | script.js:117-139 | after an export every timestamp in the log is still free of ',' and newline |

## Left out

- Model loading and backend set-up (`initialize`, script.js:16-32): calls into the detection library. The detector's answer is an input.
- Camera acquisition (`setupCamera`, script.js:34-59): browser I/O and permission handling.
- Canvas drawing of the frame and of the person boxes (script.js:94, 100-104): rendering side effects. The boxes are carried in `BBox` but not drawn.
- Scheduling with `requestAnimationFrame` / `cancelAnimationFrame` and the `await` on the detector (script.js:77, 87, 93, 114). `Step` treats the guard, the detection and the append as one atomic step. In the source the guard is read before the `await`, so a stop that lands during the `await` still lets that frame's record be appended. A failed detection call, which ends the loop, is not modelled.
- The clock reads `new Date()`, `getMonth` and friends, and `toISOString` (script.js:110, 133): they are inputs. `FileNameOfInstant` covers instants with a year from 0 to 9999. `toISOString` writes other years with six digits and a sign, and for those only the general `FileName` contract applies.
- Non-decreasing timestamps across frames: the clock is an input, so the model does not assume it only moves forward.
- The `data:text/csv;charset=utf-8,` prefix, `encodeURI` and the anchor-click download (script.js:124, 130-137): library and DOM calls. The payload is modelled before the prefix and URI encoding.
- Alerts, the toast and its 3000 ms timer, and the button label and indicator updates (script.js:71-75, 81-85, 119, 140, 143-148): UI only. The empty-log alert is the `NothingToExport` outcome.
- Session.StepAfterStopIsInert: only covers a stop that happens between iterations. It does not cover the in-flight iteration described above.
