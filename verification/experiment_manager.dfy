/** `ExperimentManager`: condition switching on the webcam display and the
    append-only four-column event log. Timestamps arrive already formatted
    (the `F3` rendering of the elapsed time is not modelled), and the log is
    the in-memory list of rows; the file on disk receives the same rows. */
module ExperimentManager {
  import opened Strings
  import opened Options
  import WebcamDelay

  /** The manager's state: the webcam display it controls and the rows
      logged so far, header first. */
  datatype Manager = Manager(display: WebcamDelay.Webcam, log: seq<string>)

  const Header: string := "Timestamp,Event,Value,Delay_State"

  /** The `Delay_State` column for the current mode. */
  function DelayState(useDelay: bool): (s: string)
    ensures s == "Asynchronous" <==> useDelay
    ensures s == "Synchronous" <==> !useDelay
  {
    if useDelay then "Asynchronous" else "Synchronous"
  }

  /** One log row, `timestamp,eventType,value,delayState`: the four fields
      joined by commas. */
  function Row(timestamp: string, eventType: string, value: string, delayState: string): (r: string)
    ensures r == Join([timestamp, eventType, value, delayState], ',')
  {
    JoinFour(timestamp, eventType, value, delayState);
    timestamp + "," + eventType + "," + value + "," + delayState
  }

  predicate CommaFree(field: string) {
    ',' !in field
  }

  /** `LogEvent`: appends exactly one row, leaves earlier rows and the display
      alone, and the row splits back into timestamp, event, value and the
      delay state read from the display at logging time. */
  function LogEvent(m: Manager, timestamp: string, eventType: string, value: string): (r: Manager)
    ensures r.display == m.display
    ensures |r.log| == |m.log| + 1 && r.log[..|m.log|] == m.log
    ensures CommaFree(timestamp) && CommaFree(eventType) && CommaFree(value) ==>
      Split(r.log[|m.log|], ',') == [timestamp, eventType, value, DelayState(m.display.useDelay)]
  {
    var row := Row(timestamp, eventType, value, DelayState(m.display.useDelay));
    SplitJoinRow(timestamp, eventType, value, DelayState(m.display.useDelay));
    m.(log := m.log + [row])
  }

  lemma SplitJoinRow(a: string, b: string, c: string, d: string)
    ensures CommaFree(a) && CommaFree(b) && CommaFree(c) && CommaFree(d) ==>
      Split(Row(a, b, c, d), ',') == [a, b, c, d]
  {
    if CommaFree(a) && CommaFree(b) && CommaFree(c) && CommaFree(d) {
      SplitJoin([a, b, c, d], ',');
    }
  }

  /** `SetupDataFile`: the log opens with the header and a
      `System,Experiment_Started` row at elapsed time `timestamp`. */
  function SetupDataFile(display: WebcamDelay.Webcam, timestamp: string): (m: Manager)
    ensures m.display == display
    ensures |m.log| == 2 && m.log[0] == Header
    ensures CommaFree(timestamp) ==>
      Split(m.log[1], ',') == [timestamp, "System", "Experiment_Started", DelayState(display.useDelay)]
  {
    LogEvent(Manager(display, [Header]), timestamp, "System", "Experiment_Started")
  }

  /** Four fields joined by commas, written out. */
  lemma JoinFour(a: string, b: string, c: string, d: string)
    ensures Join([a, b, c, d], ',') == a + [','] + b + [','] + c + [','] + d
  {
    assert [c, d][1..] == [d];
    assert Join([c, d], ',') == c + [','] + d;
    assert [b, c, d][1..] == [c, d];
    assert Join([b, c, d], ',') == b + [','] + c + [','] + d;
    assert [a, b, c, d][1..] == [b, c, d];
  }

  /** The header is itself a four-field row naming the columns in the order
      every logged row fills them. */
  lemma HeaderColumns()
    ensures Header == Row("Timestamp", "Event", "Value", "Delay_State")
  {
  }

  /** `SetCondition`: switches the display's mode and sets its delay to one
      second for the asynchronous condition and zero otherwise; the queue and
      the log are untouched. */
  function SetCondition(m: Manager, useDelay: bool): (r: Manager)
    ensures r.log == m.log
    ensures r.display.buffer == m.display.buffer
    ensures r.display.useDelay == useDelay
    ensures useDelay ==> r.display.delaySeconds == 1.0
    ensures !useDelay ==> r.display.delaySeconds == 0.0
  {
    m.(display := m.display.(useDelay := useDelay, delaySeconds := if useDelay then 1.0 else 0.0))
  }

  /** `Update`: key S starts the synchronous condition and key A the
      asynchronous one, each applying the condition before logging it; both
      keys in one frame are handled S first, so A wins. All rows of one frame
      share its timestamp. */
  function Update(m: Manager, keyS: bool, keyA: bool, timestamp: string): (r: Manager)
    ensures !keyS && !keyA ==> r == m
    ensures keyS || keyA ==> r.display.buffer == m.display.buffer
    ensures keyA ==> r.display.useDelay && r.display.delaySeconds == 1.0
    ensures keyS && !keyA ==> !r.display.useDelay && r.display.delaySeconds == 0.0
    ensures |r.log| == |m.log| + (if keyS then 1 else 0) + (if keyA then 1 else 0)
    ensures r.log[..|m.log|] == m.log
    ensures keyS ==>
      r.log[|m.log|] == Row(timestamp, "Condition_Start", "Synchronous", "Synchronous")
    ensures keyA ==>
      r.log[|r.log| - 1] == Row(timestamp, "Condition_Start", "Asynchronous", "Asynchronous")
  {
    var afterS := if keyS then LogEvent(SetCondition(m, false), timestamp, "Condition_Start", "Synchronous") else m;
    if keyA then LogEvent(SetCondition(afterS, true), timestamp, "Condition_Start", "Asynchronous") else afterS
  }

  /** A condition key followed by a camera frame: after S the next frame is
      shown live and the queue is emptied; after A the queue keeps its
      history and fills toward the new required count. */
  lemma ConditionKeyDrivesDisplay(m: Manager, keyS: bool, keyA: bool, timestamp: string,
                                  f: WebcamDelay.Frame, required: nat)
    requires keyS || keyA
    ensures var r := Update(m, keyS, keyA, timestamp);
      var t := WebcamDelay.Update(r.display, Some(f), required);
      && (!keyA ==> t.shown == Some(f) && t.cam.buffer == [])
      && (keyA ==> WebcamDelay.Released(t.shown) + t.cam.buffer == m.display.buffer + [f])
  {
  }
}
