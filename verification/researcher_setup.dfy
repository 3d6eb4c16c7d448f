/** `ResearcherSetup`: the start form. Age is the only validated input; the
    form is packaged into a `ParticipantData` record and handed to the
    experiment manager, whose presence is a parameter and whose
    `StartExperiment` is an opaque call recorded as the hand-off. */
module ResearcherSetup {
  import opened Options
  import opened IntParse
  import opened ParticipantRecord
  import Strings

  /** A dropdown's option texts and the selected index. */
  datatype Dropdown = Dropdown(options: seq<string>, selected: nat)

  /** A dropdown reference that may be null (`None`). A non-empty dropdown's
      selected index lies within its options, as the widget keeps it. */
  predicate Selectable(d: Option<Dropdown>) {
    d.None? || |d.value.options| == 0 || d.value.selected < |d.value.options|
  }

  const NotAnswered: string := "NA"

  /** `GetDropdownValue`: "NA" for a missing or empty dropdown, otherwise the
      selected option's text. */
  function GetDropdownValue(d: Option<Dropdown>): (s: string)
    requires Selectable(d)
    ensures d.None? || |d.value.options| == 0 ==> s == NotAnswered
    ensures d.Some? && |d.value.options| > 0 ==> s == d.value.options[d.value.selected]
  {
    if d.None? || |d.value.options| == 0 then NotAnswered
    else d.value.options[d.value.selected]
  }

  /** The form's inputs; a text of `None` is a null string. */
  datatype Form = Form(
    age: Option<string>,
    education: Option<string>,
    gender: Option<Dropdown>,
    handedness: Option<Dropdown>,
    ethnicity: Option<Dropdown>,
    alcohol: Option<Dropdown>,
    cannabis: Option<Dropdown>)

  predicate FormReady(f: Form) {
    && Selectable(f.gender) && Selectable(f.handedness) && Selectable(f.ethnicity)
    && Selectable(f.alcohol) && Selectable(f.cannabis)
  }

  /** The setup panel's visibility and the status label: `None` when no
      label is attached, otherwise its text. */
  datatype Screen = Screen(panelVisible: bool, status: Option<string>)

  /** The effect of a click: the screen afterwards, the record handed to
      the manager (if any) and the messages written to the error log. */
  datatype Outcome = Outcome(screen: Screen, handedOff: Option<ParticipantData>, errorLog: seq<string>)

  const AgeMissing: string := "Error: Please enter Age."
  const ManagerMissing: string := "ExperimentManager not found!"

  /** `UpdateStatus`: writes the message only when a label exists. */
  function UpdateStatus(s: Screen, msg: string): (r: Screen)
    ensures r.panelVisible == s.panelVisible
    ensures s.status.None? ==> r.status.None?
    ensures s.status.Some? ==> r.status == Some(msg)
  {
    if s.status.Some? then s.(status := Some(msg)) else s
  }

  /** `string.IsNullOrEmpty`. */
  predicate IsNullOrEmpty(t: Option<string>) {
    t.None? || t.value == ""
  }

  /** The record built from the form: both numbers through `int.TryParse`,
      each dropdown into its own field. */
  function Package(f: Form): (d: ParticipantData)
    requires FormReady(f)
    ensures d.age == TryParseInt(f.age)
    ensures d.yearsEducation == TryParseInt(f.education)
    ensures d.gender == GetDropdownValue(f.gender)
    ensures d.handedness == GetDropdownValue(f.handedness)
    ensures d.ethnicity == GetDropdownValue(f.ethnicity)
    ensures d.alcoholFreq == GetDropdownValue(f.alcohol)
    ensures d.cannabisFreq == GetDropdownValue(f.cannabis)
  {
    ParticipantData(
      TryParseInt(f.age), TryParseInt(f.education),
      GetDropdownValue(f.gender), GetDropdownValue(f.handedness), GetDropdownValue(f.ethnicity),
      GetDropdownValue(f.alcohol), GetDropdownValue(f.cannabis))
  }

  /** `OnStartClicked`. */
  function OnStartClicked(s: Screen, f: Form, managerPresent: bool): (o: Outcome)
    requires FormReady(f)
    ensures o.handedOff.Some? <==> !IsNullOrEmpty(f.age) && managerPresent
    ensures o.handedOff.Some? ==> o.handedOff.value == Package(f)
    ensures IsNullOrEmpty(f.age) ==> o == Outcome(UpdateStatus(s, AgeMissing), None, [])
    ensures !IsNullOrEmpty(f.age) && !managerPresent ==> o == Outcome(s, None, [ManagerMissing])
    ensures o.handedOff.Some? ==> o.screen == s.(panelVisible := false) && o.errorLog == []
    ensures o.screen.panelVisible != s.panelVisible ==> o.handedOff.Some?
  {
    if IsNullOrEmpty(f.age) then Outcome(UpdateStatus(s, AgeMissing), None, [])
    else
      var data := Package(f);
      if managerPresent then Outcome(s.(panelVisible := false), Some(data), [])
      else Outcome(s, None, [ManagerMissing])
  }

  /** `Start`: when a manager exists, the status shows the next participant
      ID it previews (`nextId`); otherwise nothing changes. */
  function Start(s: Screen, nextId: Option<string>): (r: Screen)
    ensures r.panelVisible == s.panelVisible
    ensures nextId.None? || s.status.None? ==> r == s
    ensures nextId.Some? && s.status.Some? ==> r.status == Some("Ready. Next Participant: " + nextId.value)
  {
    if nextId.Some? then UpdateStatus(s, "Ready. Next Participant: " + nextId.value) else s
  }

  /** Education is not validated: with an age given and a manager present,
      a null or empty education still hands off, recording zero years. */
  lemma EducationUnchecked(s: Screen, f: Form)
    requires FormReady(f) && !IsNullOrEmpty(f.age)
    requires IsNullOrEmpty(f.education)
    ensures var o := OnStartClicked(s, f, true);
      o.handedOff.Some? && o.handedOff.value.yearsEducation == 0
  {
    if f.education.Some? {
      assert Trim("") == "";
    }
  }

  /** Age is checked only for emptiness: a non-numeric age passes the gate
      and is recorded as zero. */
  lemma NonNumericAgeRecordedAsZero(s: Screen, f: Form)
    requires FormReady(f) && f.age.Some?
    requires |f.age.value| > 0
    requires !IsWhite(f.age.value[0]) && !IsSign(f.age.value[0]) && !Strings.IsDigit(f.age.value[0])
    ensures var o := OnStartClicked(s, f, true);
      o.handedOff.Some? && o.handedOff.value.age == 0
  {
    NonNumericReadsZero(f.age.value);
  }
}
