# VR-Delay: a Dafny model of the delay queue, event log, forms and trial analysis

This project models the logic of the VR-Delay rubber-hand experiment in Dafny:

- **The webcam frame-delay queue** (`WebcamDelay.Update`). Each time the camera reports a new frame, the component works in one of two modes:
  - In delay mode, it enqueues the frame. Once the queue is longer than the required frame count, it releases the oldest frame to the display.
  - In sync mode, it shows the frame straight away and empties the queue.
- **The experiment manager's condition switching and event log.** The S and A keys set the condition and log it. `LogEvent` appends four-column rows under a fixed header.
- **The questionnaire panel.** Showing it resets the sliders. Submitting builds the answer string `Q1:v;Q2:v;...` and invokes the stored callback.
- **The researcher's start form.** Age is checked for emptiness. `int.TryParse` is modelled. The dropdowns map to the fields of `ParticipantData` with an "NA" fallback, and the record is handed to the manager.
- **The offline analysis script.** It classifies the streams, pairs each Start marker with the End marker right after it, reads phase, condition and delay from the label, and slices the heart-rate samples with numpy's left `searchsorted`.
- **The heart-rate streamer's per-reading filter.** It picks the attribute to use (`pulse`, then `heart_rate`, then `hr`), keeps only values in the open interval (0, 300), and stops when a conversion error occurs.

Everything is a pure function over immutable datatypes. The one exception is the binary search, which is also written as a `method` with loop invariants.

Frames are represented by their capture index (`nat`). The required frame count is an input to each tick. Formatted numbers (timestamps, slider values) are opaque strings. Marker and data timestamps are `real`.

The code uses a growing FIFO queue (`Queue<Color32[]>`) and two hard-coded conditions keyed by S and A.

Modules: `Options`, `Strings` (Python's substring test and `str.split`, joining, decimal digits), `WebcamDelay`, `ExperimentManager`, `QuestionnaireManager`, `ParticipantRecord`, `IntParse`, `ResearcherSetup`, `SearchSorted`, `AnalyseData`, `StreamNonin`.

## Model

| member | source | states |
|---|---|---|
| WebcamDelay.Update | Assets/Scripts/Hardware/WebcamDelay.cs:57-91 | No new frame: nothing changes and nothing is shown. Sync mode: shows the new frame and leaves the queue empty. Delay mode: the shown frame followed by the new queue equals the old queue followed by the new frame. So the shown frame is always the oldest one, and nothing is lost or reordered. A frame is released iff the old length is at least N. The new length is at most max(old length, N). The mode and the delay setting never change. |
| WebcamDelay.UpdateConserves | Assets/Scripts/Hardware/WebcamDelay.cs:64-79 | One delay-mode tick moves frames from the camera through the queue to the display without loss or reordering, with or without a new frame. |
| WebcamDelay.DelayRunIsFifo | Assets/Scripts/Hardware/WebcamDelay.cs:64-79 | Over any run of delay-mode ticks (any N on each tick), the frames displayed followed by those still queued are exactly the frames queued at the start followed by every frame captured, in capture order. |
| WebcamDelay.DisplayedPrefixOfCaptured | Assets/Scripts/Hardware/WebcamDelay.cs:67-77 | From an empty queue, the sequence of displayed frames is a prefix of the sequence of captured frames. |
| WebcamDelay.OneInOneOut | Assets/Scripts/Hardware/WebcamDelay.cs:67-79 | While N stays at or below the queue length, each new frame displays exactly one frame and the queue length does not change. |
| WebcamDelay.LagHeldAtQueueLength | Assets/Scripts/Hardware/WebcamDelay.cs:67-79 | If N falls to or below the current length L, the queue does not shrink. The frame displayed at tick i is the one captured L ticks earlier (for the first L ticks, an already queued frame). So the lag stays at the old length. |
| WebcamDelay.SteadyStateLag | Assets/Scripts/Hardware/WebcamDelay.cs:67-79 | Once the queue holds N frames and N stays fixed, every new frame causes the frame captured exactly N ticks earlier to be displayed. |
| WebcamDelay.RaisedDelayFreezesDisplay | Assets/Scripts/Hardware/WebcamDelay.cs:71-79 | If N is raised above the queue length, nothing is displayed until the queue exceeds N. Meanwhile every captured frame is queued. |
| WebcamDelay.IdleTicksChangeNothing | Assets/Scripts/Hardware/WebcamDelay.cs:60 | Any run of ticks with no new camera frame leaves the state unchanged and displays nothing. |
| WebcamDelay.SyncThenDelayStartsFresh | Assets/Scripts/Hardware/WebcamDelay.cs:74-89 | A sync tick shows the current frame and empties the queue. After switching back to delay mode with N = 0, the next frame is shown at once and the queue stays empty. |
| ExperimentManager.DelayState | Assets/Scripts/Core/ExperimentManager.cs:46 | The Delay_State column is "Asynchronous" iff the display is in delay mode, and "Synchronous" iff it is not. |
| ExperimentManager.Row | Assets/Scripts/Core/ExperimentManager.cs:49 | The interpolated row `timestamp,event,value,state` is the four fields joined by ','. Splitting it back is stated by LogEvent. |
| ExperimentManager.LogEvent | Assets/Scripts/Core/ExperimentManager.cs:43-54 | Appends exactly one row and keeps every earlier row and the display as they were. If the fields are comma-free, the row splits on commas into exactly timestamp, event, value and the delay state at logging time. |
| ExperimentManager.SetupDataFile | Assets/Scripts/Core/ExperimentManager.cs:34-39 | The log is exactly two rows: the header, then a System,Experiment_Started row that splits into its four fields. |
| ExperimentManager.HeaderColumns | Assets/Scripts/Core/ExperimentManager.cs:35 | The header is itself a four-field row naming Timestamp, Event, Value, Delay_State in the order every row fills them. |
| ExperimentManager.SetCondition | Assets/Scripts/Core/ExperimentManager.cs:75-80 | Sets the mode to the argument and the delay to 1.0 s (asynchronous) or 0 s (synchronous). Leaves the frame queue and the log untouched. |
| ExperimentManager.Update | Assets/Scripts/Core/ExperimentManager.cs:58-73 | No key: nothing changes. S: appends Condition_Start,Synchronous with state Synchronous, because the condition is applied before logging. A: same for Asynchronous. Both keys: two rows, S first, and A wins the final mode and delay. Earlier rows and the queue are kept. |
| ExperimentManager.ConditionKeyDrivesDisplay | Assets/Scripts/Core/ExperimentManager.cs:61-72 | After S, the next camera frame is shown live and the queue is emptied. After A, the next frame goes through the queue and its history is kept. |
| QuestionnaireManager.Start | Assets/Scripts/UI/QuestionnaireManager.cs:16-23 | The panel is hidden. Sliders and the stored callback are unchanged. |
| QuestionnaireManager.ShowQuestionnaire | Assets/Scripts/UI/QuestionnaireManager.cs:25-36 | Stores the callback as given, so a null handler replaces any earlier one. Sets every slider to 0, keeping the slider count, and shows the panel. |
| QuestionnaireManager.ShowThenSubmit | Assets/Scripts/UI/QuestionnaireManager.cs:25-53 | After a show with a null handler, the next submit invokes nothing, whatever handler was stored before. After a show with a handler, the submit invokes that handler with the answers of the zeroed sliders. |
| QuestionnaireManager.Answers | Assets/Scripts/UI/QuestionnaireManager.cs:41-46 | The StringBuilder loop. It builds the empty string iff there are no sliders. Otherwise the string starts with the Q1 segment plus ';' and ends in ';'. |
| QuestionnaireManager.SubmitAnswers | Assets/Scripts/UI/QuestionnaireManager.cs:38-53 | Hides the panel and keeps the sliders and callback. Invokes the stored callback exactly once with the answer string if one is stored, and nothing otherwise. |
| QuestionnaireManager.AnswersAreTerminatedSegments | Assets/Scripts/UI/QuestionnaireManager.cs:41-46 | The answer string is the segments Q1:v1 ... Qn:vn joined by ';' plus an empty final field. So every segment, the last included, ends in ';', and no sliders give the empty string. |
| QuestionnaireManager.AnswersSplit | Assets/Scripts/UI/QuestionnaireManager.cs:42-46 | Splitting the answer string on ';' gives back exactly one segment per slider, in list order, labelled Q1..Qn, followed by the empty field. |
| QuestionnaireManager.SegmentFields | Assets/Scripts/UI/QuestionnaireManager.cs:45 | A segment splits on ':' into its label Q<k> and the slider's value. |
| QuestionnaireManager.SecondSubmitInvokesAgain | Assets/Scripts/UI/QuestionnaireManager.cs:38-53 | The callback is not cleared on submit, so a second submit invokes the same callback again with the same answers. |
| ResearcherSetup.GetDropdownValue | Assets/Scripts/UI/ResearcherSetup.cs:72-76 | Returns "NA" for a null dropdown or one with no options, and otherwise the text of the selected option. |
| ResearcherSetup.UpdateStatus | Assets/Scripts/UI/ResearcherSetup.cs:78-81 | Writes the message only when a status label exists. Panel visibility is unchanged. |
| ResearcherSetup.Package | Assets/Scripts/UI/ResearcherSetup.cs:43-52 | Age and education go through int.TryParse. Gender, handedness, ethnicity, alcohol and cannabis each fill their own ParticipantData field from their own dropdown. |
| ResearcherSetup.OnStartClicked | Assets/Scripts/UI/ResearcherSetup.cs:33-69 | Hand-off happens iff age is non-empty and the manager exists, and it carries the packaged record. Empty age: only the status changes (to the age error, if there is a label); the panel stays visible and nothing is handed off. No manager: one error is logged and the screen is unchanged. The panel is hidden only after a hand-off. |
| ResearcherSetup.Start | Assets/Scripts/UI/ResearcherSetup.cs:22-31 | With a manager and a label, the status becomes "Ready. Next Participant: <id>". Otherwise the screen is unchanged. |
| ResearcherSetup.EducationUnchecked | Assets/Scripts/UI/ResearcherSetup.cs:36-46 | Education has no emptiness check. With an age given and a manager present, a null or empty education still hands off, with 0 years recorded. |
| ResearcherSetup.NonNumericAgeRecordedAsZero | Assets/Scripts/UI/ResearcherSetup.cs:36-45 | The age check only tests for emptiness. A non-numeric age passes and is recorded as 0. |
| IntParse.TryParseInt | Assets/Scripts/UI/ResearcherSetup.cs:45-46 | The result always lies in the 32-bit range, and a null text gives 0. |
| IntParse.TryParseIntToString | Assets/Scripts/UI/ResearcherSetup.cs:45-46 | Parsing inverts printing: any 32-bit integer, printed in decimal and surrounded by any white space, parses back to itself. |
| IntParse.NonNumericReadsZero | Assets/Scripts/UI/ResearcherSetup.cs:45 | Text starting with a character that is not white space, a sign or a digit fails to parse, and the out value is 0. |
| IntParse.OverflowReadsZero | Assets/Scripts/UI/ResearcherSetup.cs:45 | A decimal number above the 32-bit maximum fails to parse and reads as 0. |
| SearchSorted.Bisect | LSL/analyse_data.py:71-72 | numpy's halving loop on a window stays inside the window. On sorted input, every element before the result is below the key and every element after it is at or above the key. |
| SearchSorted.SearchLeft | LSL/analyse_data.py:71-72 | searchsorted returns a position at most the length. On sorted input, that position splits the elements below the key from those at or above it. |
| SearchSorted.Search | LSL/analyse_data.py:71-72 | The loop form of the same search returns the same position, with the same splitting property on sorted input. |
| SearchSorted.LeftInsertionUnique | LSL/analyse_data.py:71-72 | The splitting position is unique, so on sorted input the search result is the only correct one. |
| SearchSorted.SearchWindow | LSL/analyse_data.py:71-75 | On sorted stamps: idx_start <= idx_end when start <= end. The positions idx_start..idx_end-1 are exactly those whose stamp t satisfies start <= t < end. |
| AnalyseData.Classify | LSL/analyse_data.py:16-29 | The chosen marker stream is named RubberHandEvents or typed Markers. The chosen data stream looks like data and is not a marker stream. Each role is empty iff no stream qualifies for it. ClassifyPicksLast states which stream of the list is chosen. |
| AnalyseData.ClassifyPicksLast | LSL/analyse_data.py:16-29 | The marker stream is the last stream named RubberHandEvents or typed Markers. The data stream is the last stream that is not a marker stream and whose name contains Nonin or whose type is PPG, Data or EEG. A role is empty iff no stream qualifies for it. |
| AnalyseData.LastMarkerChosen | LSL/analyse_data.py:16-23 | When a marker stream is chosen, it is the stream at a position i that qualifies as a marker stream with no marker stream after it. So a later match overwrites an earlier one. |
| AnalyseData.LastDataChosen | LSL/analyse_data.py:16-29 | When a data stream is chosen, it is the stream at a position i that qualifies as data (and not as markers) with no such stream after it. |
| AnalyseData.NoninStreamIsData | LSL/analyse_data.py:27 | The stream the heart-rate streamer publishes (Nonin_Stream, type HeartRate) is classified as a data stream. |
| AnalyseData.MarkerStrings | LSL/analyse_data.py:38 | Fails iff some marker sample has no channel. Otherwise gives each sample's first channel, one per sample. |
| AnalyseData.Analyse | LSL/analyse_data.py:16-87 | Returns early, with no table and no CSV, iff no stream qualifies as the marker stream or none as the data stream. Raises at `x[0]` iff both are found and the chosen marker stream has an empty sample. Every row of a completed analysis has a non-empty sample slice. A completed analysis may still have no rows. |
| AnalyseData.TrialAt | LSL/analyse_data.py:47-87 | A row comes only from a Start marker that is immediately followed by an End marker. Its times are the two marker times, its samples are non-empty, and phase, condition and delay are fields 0, 1, 2 of the label split on '_'. |
| AnalyseData.TrialAtMeaning | LSL/analyse_data.py:68-78 | On sorted data stamps, a marker yields a row iff it contains Start, the very next marker contains End, and some sample lies in [start, end). The row's samples are exactly those samples, in order. |
| AnalyseData.PySlice | LSL/analyse_data.py:75 | `data_values[idx_start:idx_end]`: the elements from idx_start up to idx_end, and empty when idx_end < idx_start. |
| AnalyseData.SliceIsWindow | LSL/analyse_data.py:71-75 | On sorted stamps, the slice between the two left searches equals the sample-by-sample filter start <= t < end. |
| AnalyseData.LabelFieldsRecovered | LSL/analyse_data.py:49-54 | A label phase_condition_delay_... (at least three '_' fields) passes the split and gives those three fields to its row. |
| AnalyseData.TrialsFrom | LSL/analyse_data.py:45-87 | The loop raises iff some Start label has fewer than three '_' fields, and it reports the first such marker. Otherwise it produces at most one row per marker, each with a non-empty slice. |
| AnalyseData.TrialIndices | LSL/analyse_data.py:47-78 | Lists, in strictly increasing order, exactly the marker indices that yield a row. |
| AnalyseData.RowsFollowMarkers | LSL/analyse_data.py:47-87 | The result rows are exactly the rows of the markers that yield one, in marker order. |
| AnalyseData.TrialsInTimeOrder | LSL/analyse_data.py:56-87 | On sorted marker times, trials come out in time order and do not overlap: each row ends no later than the next one starts. |
| StreamNonin.Convert | LSL/stream_nonin.py:41-46 | float() of a numeric attribute gives its value. Anything else raises. |
| StreamNonin.Extract | LSL/stream_nonin.py:39-50 | Uses pulse first, then heart_rate, then hr, whatever the later attributes hold. A reading with none of them is skipped. |
| StreamNonin.Pump | LSL/stream_nonin.py:30-64 | Pushes at most one sample per reading. Every sample has one channel with 0 < hr < 300. Streaming ends on an error iff some reading's conversion raises. |
| StreamNonin.PumpOne | LSL/stream_nonin.py:34-55 | A single reading pushes the one sample [hr] iff it is truthy, its rate converts, and 0 < hr < 300. Falsy, attribute-less and out-of-range readings push nothing. |
| StreamNonin.PumpAppend | LSL/stream_nonin.py:30-55 | Streaming is incremental: until an error, the samples of a run are those of its first part followed by those of the rest, so samples keep reading order. After an error nothing more is pushed. |
| StreamNonin.BadReadsDropped | LSL/stream_nonin.py:52-55 | Readings of exactly 0 or 511 are dropped. |
| Strings.Split | LSL/analyse_data.py:51 | str.split on one character gives at least one field, no field contains the separator, and joining the fields back gives the original string. |
| Strings.NatToString | Assets/Scripts/UI/QuestionnaireManager.cs:45 | Decimal rendering of the question number: non-empty, all digits, and a leading zero only for 0. |

## Left out

- Unity and webcam plumbing is not modelled. This covers WebCamTexture creation, device listing, SetPixels32/Apply and renderer binding. The displayed frame is the `shown` output of a tick.
- `Mathf.RoundToInt(delaySeconds * targetFPS)` is not modelled because it is float arithmetic with banker's rounding. The required frame count is a `nat` input to every tick. `delaySeconds` is kept as a `real` field only so that `SetCondition` has something to write.
- Float formatting is not modelled: the `F3` timestamp, the `F2` slider values and Python's float printing. These values are opaque strings, and the slider renderer is a function parameter. `Time.time` and the start time are likewise not modelled.
- ExperimentManager.LogEvent: the four-field split is stated only for comma-free fields. An `F3` timestamp rendered in a culture whose decimal separator is a comma would add a fifth field.
- ExperimentManager.LogEvent: a missing `webcamDisplay` reference is not modelled. The source would throw a NullReferenceException at ExperimentManager.cs:46 when reading `webcamDisplay.useDelay`. That includes the `SetupDataFile` call, after the header is already written. The model always has a display, because the reference is Unity scene wiring.
- File and directory I/O is not modelled. This covers the participant folder, `DateTime` file naming, `File.WriteAllText/AppendAllText`, and the differing line endings of `AppendLine` and `"\n"`. The log is the in-memory list of rows.
- The hand-off is not modelled beyond its argument, because `ExperimentManager.instance`, `PreviewNextParticipantID` and `StartExperiment` are called by the setup form but do not exist on `ExperimentManager` (Assets/Scripts/Core/ExperimentManager.cs). The manager's presence and the previewed ID are inputs, and the hand-off is recorded as the record passed. `Debug.LogError` is recorded as an error-log entry.
- ResearcherSetup.GetDropdownValue: requires the selected index to lie within the options, as the dropdown widget keeps it. A placeholder index of -1, where the source would throw, is not modelled.
- IntParse.TryParseInt: culture-specific sign symbols and trailing NUL characters, which .NET also accepts, are not modelled.
- The button listener registration in `QuestionnaireManager.Start` is not modelled because it is UI wiring. Slider value ranges are not modelled either.
- XDF loading, pandas output, printing and plotting in the analysis script are not modelled, and neither are the float mean (`Mean_HR`) and `Duration`. Rows carry the two marker times and the sample slice instead. Stream names and types are taken as already unpacked from the header, and channel values are carried as text.
- AnalyseData.Analyse: requires one sample per timestamp in every stream, which the recording format guarantees. NaN timestamps are not modelled, and float timestamps are exact reals.
- The serial port, the LSL outlet, the console output, `KeyboardInterrupt` and the infinite loop of the heart-rate streamer are not modelled. A finite list of readings stands for the device's output. `float()` is abstracted to convertible or not, and NaN and infinities are not modelled.
- The head-following UI, the webcam frame-rate diagnostics and the sync clapper are not part of this model. They are float vector maths, on-screen drawing, and a commented-out file respectively.
