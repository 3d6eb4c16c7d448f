/** `load_rubber_hand_data`: picks the marker and data streams out of a
    recording, pairs each Start marker with the marker right after it when
    that one is an End marker, reads phase, condition and delay from the
    Start label, and slices the data samples between the two marker times
    with `searchsorted`. File loading, the mean heart rate, the duration,
    CSV output and plotting are not modelled. */
module AnalyseData {
  import opened Options
  import opened Strings
  import opened SearchSorted

  /** A stream as the recording loader returns it: the name and type from
      its header, its timestamps and its samples (one list of channel values
      per timestamp, carried as text). */
  datatype Stream = Stream(name: string, streamType: string, stamps: seq<real>, series: seq<seq<string>>)

  /** One sample per timestamp, as the recording format guarantees. */
  predicate WellFormed(s: Stream) {
    |s.stamps| == |s.series|
  }

  predicate IsMarkerStream(s: Stream) {
    s.name == "RubberHandEvents" || s.streamType == "Markers"
  }

  predicate LooksLikeData(s: Stream) {
    Contains(s.name, "Nonin") || s.streamType in ["PPG", "Data", "EEG"]
  }

  /** A stream the classification loop takes as the data stream: it looks
      like data and is not taken as the marker stream first. */
  predicate IsDataStream(s: Stream) {
    !IsMarkerStream(s) && LooksLikeData(s)
  }

  datatype Found = Found(markers: Option<Stream>, data: Option<Stream>)

  /** The classification loop: a later match overwrites an earlier one. */
  function Classify(streams: seq<Stream>): (f: Found)
    ensures f.markers.Some? ==> IsMarkerStream(f.markers.value)
    ensures f.data.Some? ==> IsDataStream(f.data.value)
    ensures f.markers.None? <==> forall i :: 0 <= i < |streams| ==> !IsMarkerStream(streams[i])
    ensures f.data.None? <==> forall i :: 0 <= i < |streams| ==> !IsDataStream(streams[i])
    decreases |streams|
  {
    if |streams| == 0 then Found(None, None)
    else
      var n := |streams| - 1;
      var earlier := Classify(streams[..n]);
      var s := streams[n];
      if IsMarkerStream(s) then earlier.(markers := Some(s))
      else if LooksLikeData(s) then earlier.(data := Some(s))
      else earlier
  }

  /** Stream `i` is the last marker stream of the list. */
  predicate LastMarkerAt(streams: seq<Stream>, i: int) {
    && 0 <= i < |streams|
    && IsMarkerStream(streams[i])
    && forall j :: i < j < |streams| ==> !IsMarkerStream(streams[j])
  }

  /** Stream `i` is the last data stream of the list. */
  predicate LastDataAt(streams: seq<Stream>, i: int) {
    && 0 <= i < |streams|
    && IsDataStream(streams[i])
    && forall j :: i < j < |streams| ==> !IsDataStream(streams[j])
  }

  /** The marker role goes to the last marker stream of the list, at position `i`. */
  lemma {:induction false} LastMarkerChosen(streams: seq<Stream>) returns (i: int)
    ensures Classify(streams).markers.Some? ==>
      LastMarkerAt(streams, i) && streams[i] == Classify(streams).markers.value
    decreases |streams|
  {
    i := 0;
    if |streams| > 0 {
      var n := |streams| - 1;
      var pre := streams[..n];
      var s := streams[n];
      var earlier := Classify(pre);
      assert Classify(streams) == if IsMarkerStream(s) then earlier.(markers := Some(s))
        else if LooksLikeData(s) then earlier.(data := Some(s)) else earlier;
      if IsMarkerStream(s) {
        i := n;
      } else if earlier.markers.Some? {
        i := LastMarkerChosen(pre);
        forall j | i < j < |streams| ensures !IsMarkerStream(streams[j]) {
          if j < n {
            assert streams[j] == pre[j];
          }
        }
        assert streams[i] == pre[i];
      }
    }
  }

  /** The data role goes to the last data stream of the list, at position `i`. */
  lemma {:induction false} LastDataChosen(streams: seq<Stream>) returns (i: int)
    ensures Classify(streams).data.Some? ==>
      LastDataAt(streams, i) && streams[i] == Classify(streams).data.value
    decreases |streams|
  {
    i := 0;
    if |streams| > 0 {
      var n := |streams| - 1;
      var pre := streams[..n];
      var s := streams[n];
      var earlier := Classify(pre);
      assert Classify(streams) == if IsMarkerStream(s) then earlier.(markers := Some(s))
        else if LooksLikeData(s) then earlier.(data := Some(s)) else earlier;
      if IsDataStream(s) {
        i := n;
      } else if earlier.data.Some? {
        i := LastDataChosen(pre);
        forall j | i < j < |streams| ensures !IsDataStream(streams[j]) {
          if j < n {
            assert streams[j] == pre[j];
          }
        }
        assert streams[i] == pre[i];
      }
    }
  }

  /** Each role goes to the last stream that qualifies for it, and stays
      empty exactly when no stream qualifies. */
  lemma ClassifyPicksLast(streams: seq<Stream>)
    ensures var f := Classify(streams);
      && (f.markers.None? <==> forall i :: 0 <= i < |streams| ==> !IsMarkerStream(streams[i]))
      && (f.markers.Some? ==> exists i :: LastMarkerAt(streams, i) && streams[i] == f.markers.value)
      && (f.data.None? <==> forall i :: 0 <= i < |streams| ==> !IsDataStream(streams[i]))
      && (f.data.Some? ==> exists i :: LastDataAt(streams, i) && streams[i] == f.data.value)
  {
    var m := LastMarkerChosen(streams);
    var d := LastDataChosen(streams);
  }

  /** The stream the heart-rate streamer publishes (named `Nonin_Stream`,
      typed `HeartRate`) is taken as a data stream. */
  lemma NoninStreamIsData(stamps: seq<real>, series: seq<seq<string>>)
    ensures IsDataStream(Stream("Nonin_Stream", "HeartRate", stamps, series))
  {
    assert OccursAt("Nonin_Stream", "Nonin", 0);
  }

  /** The first channel of every marker sample; `None` when some sample is
      empty, where reading its first channel raises. */
  function MarkerStrings(series: seq<seq<string>>): (r: Option<seq<string>>)
    ensures r.None? <==> exists k :: 0 <= k < |series| && |series[k]| == 0
    ensures r.Some? ==> |r.value| == |series|
    ensures r.Some? ==> forall k :: 0 <= k < |series| ==> r.value[k] == series[k][0]
  {
    if exists k :: 0 <= k < |series| && |series[k]| == 0 then None
    else Some(seq(|series|, k requires 0 <= k < |series| => series[k][0]))
  }

  /** Marker labels with their times, and data samples with theirs. */
  datatype Recording = Recording(
    markers: seq<string>,
    markerStamps: seq<real>,
    dataStamps: seq<real>,
    dataValues: seq<seq<string>>)

  predicate Aligned(rec: Recording) {
    |rec.markers| == |rec.markerStamps| && |rec.dataStamps| == |rec.dataValues|
  }

  /** One result row (mean heart rate and duration are left to the caller:
      both are computable from the samples and the two times). */
  datatype TrialRow = TrialRow(
    phase: string,
    condition: string,
    delay: string,
    startTime: real,
    endTime: real,
    samples: seq<seq<string>>)

  datatype Crash =
    | EmptyMarkerSample   // a marker sample without channels
    | ShortLabel(index: nat)  // a Start label with fewer than three `_` fields

  datatype Analysis = MissingStreams | Crashed(crash: Crash) | Analysed(rows: seq<TrialRow>)

  predicate OpensTrial(marker: string) {
    Contains(marker, "Start")
  }

  predicate ClosesTrial(marker: string) {
    Contains(marker, "End")
  }

  /** A Start label too short to read phase, condition and delay from. */
  predicate BadLabel(marker: string) {
    OpensTrial(marker) && |Split(marker, '_')| < 3
  }

  /** Python's `xs[i:j]` for in-range bounds: empty when `j < i`. */
  function PySlice<T>(xs: seq<T>, i: nat, j: nat): (r: seq<T>)
    requires i <= |xs| && j <= |xs|
    ensures i <= j ==> r == xs[i..j]
    ensures j < i ==> r == []
  {
    if i <= j then xs[i..j] else []
  }

  /** The samples whose time `t` satisfies `start <= t < end`, in order: the
      window a trial covers, defined sample by sample. */
  function Window(stamps: seq<real>, values: seq<seq<string>>, start: real, end: real): (w: seq<seq<string>>)
    requires |stamps| == |values|
    ensures |w| <= |values|
    decreases |stamps|
  {
    if |stamps| == 0 then []
    else
      (if start <= stamps[0] < end then [values[0]] else [])
      + Window(stamps[1..], values[1..], start, end)
  }

  /** When the samples inside the window are exactly positions `lo..hi`,
      the window is that slice. */
  lemma {:induction false} WindowOfContiguousRange(stamps: seq<real>, values: seq<seq<string>>,
                                                   start: real, end: real, lo: nat, hi: nat)
    requires |stamps| == |values| && lo <= hi <= |stamps|
    requires forall k :: 0 <= k < |stamps| ==> (start <= stamps[k] < end <==> lo <= k < hi)
    ensures Window(stamps, values, start, end) == values[lo..hi]
    decreases |stamps|
  {
    if |stamps| > 0 {
      var st, vs := stamps[1..], values[1..];
      if lo > 0 {
        forall k | 0 <= k < |st| ensures (start <= st[k] < end <==> lo - 1 <= k < hi - 1) {
          assert st[k] == stamps[k + 1];
        }
        WindowOfContiguousRange(st, vs, start, end, lo - 1, hi - 1);
        assert vs[lo - 1..hi - 1] == values[lo..hi];
      } else if hi == 0 {
        forall k | 0 <= k < |st| ensures (start <= st[k] < end <==> 0 <= k < 0) {
          assert st[k] == stamps[k + 1];
        }
        WindowOfContiguousRange(st, vs, start, end, 0, 0);
      } else {
        forall k | 0 <= k < |st| ensures (start <= st[k] < end <==> 0 <= k < hi - 1) {
          assert st[k] == stamps[k + 1];
        }
        WindowOfContiguousRange(st, vs, start, end, 0, hi - 1);
        assert values[0..hi] == [values[0]] + vs[0..hi - 1];
      }
    }
  }

  /** On sorted timestamps, slicing between the two left searches yields
      exactly the samples inside `[start, end)`, in order. */
  lemma SliceIsWindow(stamps: seq<real>, values: seq<seq<string>>, start: real, end: real)
    requires |stamps| == |values| && Sorted(stamps)
    ensures PySlice(values, SearchLeft(stamps, start), SearchLeft(stamps, end))
            == Window(stamps, values, start, end)
  {
    SearchWindow(stamps, start, end);
    var lo, hi := SearchLeft(stamps, start), SearchLeft(stamps, end);
    if lo <= hi {
      WindowOfContiguousRange(stamps, values, start, end, lo, hi);
    } else {
      WindowOfContiguousRange(stamps, values, start, end, hi, hi);
    }
  }

  /** The row, if any, the loop produces for the marker at index `i`. */
  function TrialAt(rec: Recording, i: nat): (row: Option<TrialRow>)
    requires Aligned(rec) && i < |rec.markers| && !BadLabel(rec.markers[i])
    ensures row.Some? ==>
      && OpensTrial(rec.markers[i])
      && i + 1 < |rec.markers|
      && ClosesTrial(rec.markers[i + 1])
      && row.value.startTime == rec.markerStamps[i]
      && row.value.endTime == rec.markerStamps[i + 1]
      && |row.value.samples| > 0
      && [row.value.phase, row.value.condition, row.value.delay] == Split(rec.markers[i], '_')[..3]
  {
    var marker := rec.markers[i];
    if !OpensTrial(marker) then None
    else
      var parts := Split(marker, '_');
      var start := rec.markerStamps[i];
      if i + 1 >= |rec.markerStamps| then None
      else
        var end := rec.markerStamps[i + 1];
        if !ClosesTrial(rec.markers[i + 1]) then None
        else
          var lo := SearchLeft(rec.dataStamps, start);
          var hi := SearchLeft(rec.dataStamps, end);
          var chunk := PySlice(rec.dataValues, lo, hi);
          if |chunk| > 0 then Some(TrialRow(parts[0], parts[1], parts[2], start, end, chunk))
          else None
  }

  /** On sorted data timestamps a marker yields a row exactly when it opens
      a trial, the very next marker closes it, and some sample falls in
      `[start, end)`; the row's samples are exactly those samples. */
  lemma TrialAtMeaning(rec: Recording, i: nat)
    requires Aligned(rec) && i < |rec.markers| && !BadLabel(rec.markers[i])
    requires Sorted(rec.dataStamps)
    ensures TrialAt(rec, i).Some? <==>
      && OpensTrial(rec.markers[i])
      && i + 1 < |rec.markers|
      && ClosesTrial(rec.markers[i + 1])
      && |Window(rec.dataStamps, rec.dataValues, rec.markerStamps[i], rec.markerStamps[i + 1])| > 0
    ensures TrialAt(rec, i).Some? ==>
      TrialAt(rec, i).value.samples
      == Window(rec.dataStamps, rec.dataValues, rec.markerStamps[i], rec.markerStamps[i + 1])
  {
    if i + 1 < |rec.markers| {
      SliceIsWindow(rec.dataStamps, rec.dataValues, rec.markerStamps[i], rec.markerStamps[i + 1]);
    }
  }

  /** A Start label laid out as `phase_condition_delay_...` gives those three
      fields to its row. */
  lemma LabelFieldsRecovered(rec: Recording, i: nat, fields: seq<string>)
    requires Aligned(rec) && i < |rec.markers|
    requires |fields| >= 3 && forall k :: 0 <= k < |fields| ==> '_' !in fields[k]
    requires rec.markers[i] == Join(fields, '_')
    ensures !BadLabel(rec.markers[i])
    ensures TrialAt(rec, i).Some? ==>
      var row := TrialAt(rec, i).value;
      row.phase == fields[0] && row.condition == fields[1] && row.delay == fields[2]
  {
    SplitJoin(fields, '_');
  }

  predicate NoBadLabelFrom(rec: Recording, i: nat) {
    forall j :: i <= j < |rec.markers| ==> !BadLabel(rec.markers[j])
  }

  /** The slicing loop from marker `i` on. The loop raises at the first
      Start label too short to read, before any result is kept. */
  function TrialsFrom(rec: Recording, i: nat): (a: Analysis)
    requires Aligned(rec) && i <= |rec.markers|
    ensures !a.MissingStreams?
    ensures a.Crashed? <==> !NoBadLabelFrom(rec, i)
    ensures a.Crashed? ==>
      && a.crash.ShortLabel?
      && i <= a.crash.index < |rec.markers|
      && BadLabel(rec.markers[a.crash.index])
      && forall j :: i <= j < a.crash.index ==> !BadLabel(rec.markers[j])
    ensures a.Analysed? ==> |a.rows| <= |rec.markers| - i
    ensures a.Analysed? ==> forall k :: 0 <= k < |a.rows| ==> |a.rows[k].samples| > 0
    decreases |rec.markers| - i
  {
    if i == |rec.markers| then Analysed([])
    else if BadLabel(rec.markers[i]) then Crashed(ShortLabel(i))
    else
      match TrialsFrom(rec, i + 1)
      case Analysed(rest) =>
        var row := TrialAt(rec, i);
        Analysed((if row.Some? then [row.value] else []) + rest)
      case other => other
  }

  /** The indices, from `i` on, of the markers that yield a row. */
  function TrialIndices(rec: Recording, i: nat): (idx: seq<nat>)
    requires Aligned(rec) && i <= |rec.markers| && NoBadLabelFrom(rec, i)
    ensures forall k :: 0 <= k < |idx| ==> i <= idx[k] < |rec.markers| && TrialAt(rec, idx[k]).Some?
    ensures forall k, l :: 0 <= k < l < |idx| ==> idx[k] < idx[l]
    ensures forall j :: i <= j < |rec.markers| && TrialAt(rec, j).Some? ==> j in idx
    decreases |rec.markers| - i
  {
    if i == |rec.markers| then []
    else
      var rest := TrialIndices(rec, i + 1);
      if TrialAt(rec, i).Some? then [i] + rest else rest
  }

  /** One step of the loop: marker `i` contributes its row, if any, in
      front of the rows and indices of the later markers. */
  lemma TrialsStep(rec: Recording, i: nat)
    requires Aligned(rec) && i < |rec.markers| && NoBadLabelFrom(rec, i)
    ensures TrialsFrom(rec, i + 1).Analysed?
    ensures TrialAt(rec, i).Some? ==>
      && TrialsFrom(rec, i).rows == [TrialAt(rec, i).value] + TrialsFrom(rec, i + 1).rows
      && TrialIndices(rec, i) == [i] + TrialIndices(rec, i + 1)
    ensures TrialAt(rec, i).None? ==>
      && TrialsFrom(rec, i).rows == TrialsFrom(rec, i + 1).rows
      && TrialIndices(rec, i) == TrialIndices(rec, i + 1)
  {
  }

  /** The rows of the markers at `idx`, in that order. */
  function RowsAt(rec: Recording, idx: seq<nat>): (rows: seq<TrialRow>)
    requires Aligned(rec)
    requires forall k :: 0 <= k < |idx| ==>
      idx[k] < |rec.markers| && !BadLabel(rec.markers[idx[k]]) && TrialAt(rec, idx[k]).Some?
    ensures |rows| == |idx|
    ensures forall k :: 0 <= k < |idx| ==> rows[k] == TrialAt(rec, idx[k]).value
    decreases |idx|
  {
    if |idx| == 0 then [] else [TrialAt(rec, idx[0]).value] + RowsAt(rec, idx[1..])
  }

  /** The rows are the rows of the markers that yield one, in marker order,
      and no others. */
  lemma {:induction false} RowsFollowMarkers(rec: Recording, i: nat)
    requires Aligned(rec) && i <= |rec.markers| && NoBadLabelFrom(rec, i)
    ensures TrialsFrom(rec, i) == Analysed(RowsAt(rec, TrialIndices(rec, i)))
    decreases |rec.markers| - i
  {
    if i < |rec.markers| {
      RowsFollowMarkers(rec, i + 1);
      TrialsStep(rec, i);
      var rest := TrialIndices(rec, i + 1);
      if TrialAt(rec, i).Some? {
        assert ([i] + rest)[1..] == rest;
      }
    }
  }

  /** A trial that opens at an earlier marker closes no later than one that
      opens at a later marker, when marker times are sorted. */
  lemma RowEndsBeforeLater(rec: Recording, a: nat, b: nat)
    requires Aligned(rec) && a < b < |rec.markers|
    requires !BadLabel(rec.markers[a]) && !BadLabel(rec.markers[b])
    requires TrialAt(rec, a).Some? && TrialAt(rec, b).Some?
    requires Sorted(rec.markerStamps)
    ensures TrialAt(rec, a).value.endTime <= TrialAt(rec, b).value.startTime
  {
    assert TrialAt(rec, a).value.endTime == rec.markerStamps[a + 1];
    assert TrialAt(rec, b).value.startTime == rec.markerStamps[b];
  }

  /** On sorted marker times, trials come out in time order and never
      overlap: each row ends no later than the next one starts. */
  lemma TrialsInTimeOrder(rec: Recording, i: nat)
    requires Aligned(rec) && i <= |rec.markers| && NoBadLabelFrom(rec, i)
    requires Sorted(rec.markerStamps)
    ensures TrialsFrom(rec, i).Analysed?
    ensures var rows := TrialsFrom(rec, i).rows;
      forall k :: 0 <= k < |rows| - 1 ==> rows[k].endTime <= rows[k + 1].startTime
  {
    RowsFollowMarkers(rec, i);
    var idx := TrialIndices(rec, i);
    var rows := RowsAt(rec, idx);
    forall k | 0 <= k < |rows| - 1 ensures rows[k].endTime <= rows[k + 1].startTime {
      RowEndsBeforeLater(rec, idx[k], idx[k + 1]);
    }
  }

  /** `load_rubber_hand_data` on a loaded recording. */
  function Analyse(streams: seq<Stream>): (a: Analysis)
    requires forall k :: 0 <= k < |streams| ==> WellFormed(streams[k])
    ensures a.MissingStreams? <==>
      (forall k :: 0 <= k < |streams| ==> !IsMarkerStream(streams[k]))
      || (forall k :: 0 <= k < |streams| ==> !IsDataStream(streams[k]))
    ensures a.Analysed? ==> forall k :: 0 <= k < |a.rows| ==> |a.rows[k].samples| > 0
    ensures a == Crashed(EmptyMarkerSample) <==>
      && Classify(streams).markers.Some? && Classify(streams).data.Some?
      && exists k :: 0 <= k < |Classify(streams).markers.value.series|
                     && |Classify(streams).markers.value.series[k]| == 0
  {
    var found := Classify(streams);
    ClassifyPicksLast(streams);
    if found.markers.None? || found.data.None? then MissingStreams
    else
      var m, d := found.markers.value, found.data.value;
      assert WellFormed(m) && WellFormed(d);
      match MarkerStrings(m.series)
      case None => Crashed(EmptyMarkerSample)
      case Some(labels) => TrialsFrom(Recording(labels, m.stamps, d.stamps, d.series), 0)
  }
}
