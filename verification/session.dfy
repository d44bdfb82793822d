/**
 The page's session state and its two transitions that touch the log:
 the per-frame recording step of the detection loop and the start/stop
 toggle.
 */
module Session {
  import opened Wrappers
  import opened Detection
  import opened Timestamp

  /** One sample of the log: when, and how many persons were seen. */
  datatype LogRecord = LogRecord(timestamp: string, count: nat)

  /** Whether the video element is paused or has ended. */
  datatype Video = Video(paused: bool, ended: bool)

  /** The analysing flag and the recorded log. */
  datatype Session = Session(analyzing: bool, log: seq<LogRecord>)

  /** What one loop iteration sees: the video state, the detector's answer and the clock. */
  datatype Frame = Frame(video: Video, detections: seq<Detection>, clock: DateFields)

  /** The state after a step and the count it shows, if it ran. */
  datatype StepResult = StepResult(session: Session, shown: Option<nat>)

  /** What the toggle does to the loop: start a first iteration or cancel the pending one. */
  datatype LoopAction = StartLoop | CancelLoop

  datatype ToggleResult = ToggleResult(session: Session, action: LoopAction)

  /** The state at page load: idle, nothing recorded. */
  const Initial: Session := Session(false, [])

  /** An iteration does its work only while analysing on a live video. */
  predicate Records(s: Session, v: Video) {
    s.analyzing && !v.paused && !v.ended
  }

  /** Every timestamp in the log can be written as a CSV field. */
  predicate WellFormed(log: seq<LogRecord>) {
    forall i :: 0 <= i < |log| ==> ',' !in log[i].timestamp && '\n' !in log[i].timestamp
  }

  /**
   One iteration of the detection loop: count the persons in the frame,
   show the count, and append one record stamped with the clock.
   */
  function Step(s: Session, frame: Frame): (r: StepResult)
    ensures r.session.analyzing == s.analyzing
    ensures !Records(s, frame.video) ==> r.session == s && r.shown == None
    ensures Records(s, frame.video) ==>
              && |r.session.log| == |s.log| + 1
              && r.session.log[..|s.log|] == s.log
              && r.session.log[|s.log|].count == |PersonIndices(frame.detections)|
              && r.session.log[|s.log|].timestamp == Format(frame.clock)
              && r.shown == Some(r.session.log[|s.log|].count)
  {
    if !Records(s, frame.video) then StepResult(s, None)
    else
      var count := PersonCount(frame.detections);
      PersonCountIsIndexCount(frame.detections);
      var record := LogRecord(Format(frame.clock), count);
      StepResult(s.(log := s.log + [record]), Some(count))
  }

  /** The page-load state is idle and its empty log is writable as CSV. */
  lemma InitialWellFormed()
    ensures !Initial.analyzing && Initial.log == []
    ensures WellFormed(Initial.log)
  {
  }

  /** A step keeps the log writable as CSV. */
  lemma StepPreservesWellFormed(s: Session, frame: Frame)
    requires WellFormed(s.log)
    ensures WellFormed(Step(s, frame).session.log)
  {
    FormatAvoidsCsvSeparators(frame.clock);
  }

  /** The start/stop button: flip the flag, then start or cancel the loop. */
  function Toggle(s: Session): (r: ToggleResult)
    ensures r.session.analyzing != s.analyzing
    ensures r.session.log == s.log
    ensures r.action == StartLoop <==> r.session.analyzing
  {
    var analyzing := !s.analyzing;
    ToggleResult(s.(analyzing := analyzing), if analyzing then StartLoop else CancelLoop)
  }

  /** Toggling twice restores the state. */
  lemma ToggleTwice(s: Session)
    ensures Toggle(Toggle(s).session).session == s
  {
  }

  /** Once stopped, an iteration that still runs records nothing. */
  lemma StepAfterStopIsInert(s: Session, frame: Frame)
    requires s.analyzing
    ensures Step(Toggle(s).session, frame).session == Toggle(s).session
    ensures Step(Toggle(s).session, frame).shown == None
  {
  }

  /**
   The loop driven over the frames it would see. An iteration that does no
   work also schedules no successor, so the loop ends at the first frame
   seen while idle or on a paused or ended video.
   */
  function Run(s: Session, frames: seq<Frame>): Session
    decreases |frames|
  {
    if frames == [] || !Records(s, frames[0].video) then s
    else Run(Step(s, frames[0]).session, frames[1..])
  }

  /** The record an analysed frame contributes. */
  function RecordOf(frame: Frame): LogRecord {
    LogRecord(Format(frame.clock), PersonCount(frame.detections))
  }

  /** The records of a run of analysed frames, one per frame, in frame order. */
  function RecordsOf(frames: seq<Frame>): (log: seq<LogRecord>)
    ensures |log| == |frames|
    ensures forall i :: 0 <= i < |frames| ==> log[i] == RecordOf(frames[i])
  {
    if frames == [] then [] else [RecordOf(frames[0])] + RecordsOf(frames[1..])
  }

  /**
   N iterations over a live video while analysing append exactly N records,
   in frame order, each with its frame's person count and clock, after the
   records already present.
   */
  lemma {:induction false} RunRecordsEveryFrame(s: Session, frames: seq<Frame>)
    requires s.analyzing
    requires forall i :: 0 <= i < |frames| ==> !frames[i].video.paused && !frames[i].video.ended
    ensures Run(s, frames).analyzing
    ensures Run(s, frames).log == s.log + RecordsOf(frames)
    decreases |frames|
  {
    if frames != [] {
      var s' := Step(s, frames[0]).session;
      assert Records(s, frames[0].video);
      assert s' == Session(s.analyzing, s.log + [RecordOf(frames[0])]);
      var rest := frames[1..];
      assert forall i :: 0 <= i < |rest| ==> rest[i] == frames[i + 1];
      RunRecordsEveryFrame(s', rest);
      assert Run(s, frames) == Run(s', rest);
      assert RecordsOf(frames) == [RecordOf(frames[0])] + RecordsOf(rest);
      SeqAssoc(s.log, [RecordOf(frames[0])], RecordsOf(rest));
    }
  }

  lemma SeqAssoc<T>(a: seq<T>, b: seq<T>, c: seq<T>)
    ensures a + b + c == a + (b + c)
  {
  }

  /** While idle, the loop does nothing at all. */
  lemma RunWhileIdle(s: Session, frames: seq<Frame>)
    requires !s.analyzing
    ensures Run(s, frames) == s
  {
  }

  /**
   One frame on a paused or ended video ends the loop: the frames after it
   are never processed, and the state is what the live frames before it left.
   */
  lemma {:induction false} RunEndsAtInertFrame(s: Session, live: seq<Frame>, f: Frame, rest: seq<Frame>)
    requires s.analyzing
    requires forall i :: 0 <= i < |live| ==> !live[i].video.paused && !live[i].video.ended
    requires f.video.paused || f.video.ended
    ensures Run(s, live + [f] + rest) == Run(s, live)
    decreases |live|
  {
    if live == [] {
      assert live + [f] + rest == [f] + rest;
    } else {
      var s' := Step(s, live[0]).session;
      var tail := live[1..];
      assert forall i :: 0 <= i < |tail| ==> tail[i] == live[i + 1];
      assert (live + [f] + rest)[1..] == tail + [f] + rest;
      RunEndsAtInertFrame(s', tail, f, rest);
    }
  }

  /** The loop keeps the log writable as CSV. */
  lemma {:induction false} RunPreservesWellFormed(s: Session, frames: seq<Frame>)
    requires WellFormed(s.log)
    ensures WellFormed(Run(s, frames).log)
    decreases |frames|
  {
    if frames != [] {
      StepPreservesWellFormed(s, frames[0]);
      RunPreservesWellFormed(Step(s, frames[0]).session, frames[1..]);
    }
  }
}
