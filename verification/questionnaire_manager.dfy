/** `QuestionnaireManager`: the slider panel, its stored completion callback
    and the answer string `Q1:v;Q2:v;...`. Slider values are rendered by a
    caller-supplied `format` (the `F2` number formatting is not modelled);
    the callback is an opaque handler identity. */
module QuestionnaireManager {
  import opened Options
  import opened Strings

  /** Identity of a completion handler passed to `ShowQuestionnaire`. */
  type Callback = nat

  datatype Panel = Panel(visible: bool, sliders: seq<real>, callback: Option<Callback>)

  /** A handler invocation: which handler, with which answer string. */
  datatype Invocation = Invocation(callback: Callback, answers: string)

  datatype Submission = Submission(panel: Panel, invoked: Option<Invocation>)

  /** `Start`: the panel is hidden until it is shown. */
  function Start(p: Panel): (r: Panel)
    ensures !r.visible
    ensures r.sliders == p.sliders && r.callback == p.callback
  {
    p.(visible := false)
  }

  /** `ShowQuestionnaire`: stores the handler as given (`None` for a null
      one, replacing any earlier handler), resets every slider to zero and
      shows the panel. */
  function ShowQuestionnaire(p: Panel, onComplete: Option<Callback>): (r: Panel)
    ensures r.visible && r.callback == onComplete
    ensures |r.sliders| == |p.sliders|
    ensures forall k :: 0 <= k < |r.sliders| ==> r.sliders[k] == 0.0
  {
    Panel(true, seq(|p.sliders|, _ => 0.0), onComplete)
  }

  /** One answer segment without its terminating `;`. */
  function Segment(number: nat, value: string): string {
    "Q" + NatToString(number) + ":" + value
  }

  /** The segments of an answer string, labelled from 1 in slider order. */
  function Segments(values: seq<string>): (r: seq<string>)
    ensures |r| == |values|
    ensures forall k :: 0 <= k < |values| ==> r[k] == Segment(k + 1, values[k])
  {
    seq(|values|, k requires 0 <= k < |values| => Segment(k + 1, values[k]))
  }

  /** The string the submit loop builds, one `Q<k>:<value>;` per slider. */
  function Answers(values: seq<string>): (r: string)
    ensures r == "" <==> |values| == 0
    ensures |values| > 0 ==> r[|r| - 1] == ';'
    ensures |values| > 0 ==> Segment(1, values[0]) + ";" <= r
    decreases |values|
  {
    if |values| == 0 then ""
    else Answers(values[..|values| - 1]) + Segment(|values|, values[|values| - 1]) + ";"
  }

  /** The slider values as rendered by `format`, in list order. */
  function Rendered(sliders: seq<real>, format: real -> string): (r: seq<string>)
    ensures |r| == |sliders|
    ensures forall k :: 0 <= k < |sliders| ==> r[k] == format(sliders[k])
  {
    seq(|sliders|, k requires 0 <= k < |sliders| => format(sliders[k]))
  }

  /** `SubmitAnswers`: hides the panel, keeps the stored handler, and invokes
      it once with the answer string when one is stored. */
  function SubmitAnswers(p: Panel, format: real -> string): (s: Submission)
    ensures !s.panel.visible
    ensures s.panel.sliders == p.sliders && s.panel.callback == p.callback
    ensures s.invoked.Some? <==> p.callback.Some?
    ensures s.invoked.Some? ==>
      s.invoked.value == Invocation(p.callback.value, Answers(Rendered(p.sliders, format)))
  {
    var answers := Answers(Rendered(p.sliders, format));
    Submission(p.(visible := false),
               if p.callback.Some? then Some(Invocation(p.callback.value, answers)) else None)
  }

  /** Labelling one more slider adds its segment at the end. */
  lemma SegmentsSnoc(values: seq<string>)
    requires |values| > 0
    ensures Segments(values)
            == Segments(values[..|values| - 1]) + [Segment(|values|, values[|values| - 1])]
  {
  }

  /** Appending one terminated segment to a terminated join. */
  lemma TerminatedStep(segs: seq<string>, s: string)
    ensures Join(segs + [""], ';') + s + ";" == Join(segs + [s] + [""], ';')
  {
    JoinSnoc(segs + [s], "", ';');
    if |segs| == 0 {
      assert segs + [""] == [""];
      assert segs + [s] == [s];
    } else {
      JoinSnoc(segs, s, ';');
      JoinSnoc(segs, "", ';');
      var j := Join(segs, ';');
      assert (j + [';']) + s + ";" == (j + [';'] + s) + [';'] + "";
    }
  }

  /** The answer string is the segments joined by `;` with an empty field at
      the end: every segment, the last included, ends in `;`, and no
      sliders give the empty string. */
  lemma {:induction false} AnswersAreTerminatedSegments(values: seq<string>)
    ensures Answers(values) == Join(Segments(values) + [""], ';')
    decreases |values|
  {
    if |values| > 0 {
      var init := values[..|values| - 1];
      var s := Segment(|values|, values[|values| - 1]);
      AnswersAreTerminatedSegments(init);
      SegmentsSnoc(values);
      TerminatedStep(Segments(init), s);
    }
  }

  predicate NoSemicolon(s: string) {
    ';' !in s
  }

  lemma SegmentHasNoSemicolon(number: nat, value: string)
    requires NoSemicolon(value)
    ensures NoSemicolon(Segment(number, value))
  {
    var digits := NatToString(number);
    forall k | 0 <= k < |digits| ensures digits[k] != ';' {
      assert IsDigit(digits[k]);
    }
  }

  /** No field of the terminated segment list holds a `;`. */
  lemma TerminatedSegmentsSemicolonFree(values: seq<string>)
    requires forall k :: 0 <= k < |values| ==> NoSemicolon(values[k])
    ensures forall k :: 0 <= k < |values| + 1 ==> ';' !in (Segments(values) + [""])[k]
  {
    var parts := Segments(values) + [""];
    forall k | 0 <= k < |parts| ensures ';' !in parts[k] {
      if k < |values| {
        assert parts[k] == Segment(k + 1, values[k]);
        SegmentHasNoSemicolon(k + 1, values[k]);
      } else {
        assert parts[k] == "";
      }
    }
  }

  /** Splitting the answer string on `;` recovers exactly one segment per
      slider, in slider order and labelled Q1..Qn, then the empty field after
      the final `;`. */
  lemma AnswersSplit(values: seq<string>)
    requires forall k :: 0 <= k < |values| ==> NoSemicolon(values[k])
    ensures Split(Answers(values), ';') == Segments(values) + [""]
  {
    var parts := Segments(values) + [""];
    TerminatedSegmentsSemicolonFree(values);
    SplitJoin(parts, ';');
    AnswersAreTerminatedSegments(values);
  }

  /** A segment splits on `:` into its number and its value. */
  lemma SegmentFields(number: nat, value: string)
    requires ':' !in value
    ensures Split(Segment(number, value), ':') == ["Q" + NatToString(number), value]
  {
    var tag := "Q" + NatToString(number);
    var digits := NatToString(number);
    forall k | 0 <= k < |digits| ensures digits[k] != ':' {
      assert IsDigit(digits[k]);
    }
    assert ':' !in tag;
    assert Segment(number, value) == tag + [':'] + value;
    SplitAfterField(tag, ':', value);
    SplitWithoutSeparator(value, ':');
  }

  /** Submitting does not clear the stored handler: a second submit invokes
      the same handler again, with the same answers. */
  lemma SecondSubmitInvokesAgain(p: Panel, format: real -> string)
    requires p.callback.Some?
    ensures var first := SubmitAnswers(p, format);
      var second := SubmitAnswers(first.panel, format);
      second.invoked == first.invoked && second.invoked.Some?
  {
  }

  /** Showing the panel with a null handler drops the handler stored by an
      earlier show, so the next submit invokes nothing; a real handler is
      invoked with the answers of the freshly zeroed sliders. */
  lemma ShowThenSubmit(p: Panel, onComplete: Option<Callback>, format: real -> string)
    ensures var shown := ShowQuestionnaire(p, onComplete);
      var sub := SubmitAnswers(shown, format);
      && (onComplete.None? ==> sub.invoked.None?)
      && (onComplete.Some? ==>
            sub.invoked == Some(Invocation(onComplete.value,
                                           Answers(Rendered(seq(|p.sliders|, _ => 0.0), format)))))
  {
  }
}
