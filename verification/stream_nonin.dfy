/** The per-reading logic of the heart-rate streaming loop: each reading
    from the oximeter is skipped, dropped or pushed to the outlet as a
    one-channel sample. The serial port, the outlet and the console are not
    modelled; a conversion error ends streaming, as the surrounding
    exception handler does. */
module StreamNonin {
  import opened Options

  /** An attribute value as `float(...)` sees it: convertible to a number,
      or not (which raises). */
  datatype Attr = Numeric(x: real) | NotNumeric

  /** What `device.read()` returns: a falsy result, or an object that may
      carry `pulse`, `heart_rate` and `hr` attributes. */
  datatype Reading = Falsy | Packet(pulse: Option<Attr>, heartRate: Option<Attr>, hr: Option<Attr>)

  /** The outcome of reading one packet's heart rate. */
  datatype Extracted = NoField | Rate(bpm: real) | ConversionError

  const MaxBpm: real := 300.0

  /** Values outside `(0, 300)` are bad reads (a device reports 0 or 511). */
  predicate Plausible(bpm: real) {
    0.0 < bpm < MaxBpm
  }

  /** `float(value)`: a numeric attribute converts to its own value, any
      other attribute raises. */
  function Convert(a: Attr): (e: Extracted)
    ensures a.Numeric? ==> e == Rate(a.x)
    ensures a.NotNumeric? ==> e == ConversionError
  {
    match a
    case Numeric(x) => Rate(x)
    case NotNumeric => ConversionError
  }

  /** `pulse` first, then `heart_rate`, then `hr`; the first attribute present
      is the one converted, whatever the others hold. */
  function Extract(p: Reading): (e: Extracted)
    requires p.Packet?
    ensures e.NoField? <==> p.pulse.None? && p.heartRate.None? && p.hr.None?
    ensures p.pulse.Some? ==> e == Convert(p.pulse.value)
    ensures p.pulse.None? && p.heartRate.Some? ==> e == Convert(p.heartRate.value)
    ensures p.pulse.None? && p.heartRate.None? && p.hr.Some? ==> e == Convert(p.hr.value)
  {
    if p.pulse.Some? then Convert(p.pulse.value)
    else if p.heartRate.Some? then Convert(p.heartRate.value)
    else if p.hr.Some? then Convert(p.hr.value)
    else NoField
  }

  /** The reading raises while its heart rate is converted. */
  predicate Raises(p: Reading) {
    p.Packet? && Extract(p).ConversionError?
  }

  /** The reading is pushed as a sample. */
  predicate Pushes(p: Reading) {
    p.Packet? && Extract(p).Rate? && Plausible(Extract(p).bpm)
  }

  /** The samples pushed to the outlet, and whether the loop ended on an
      error. */
  datatype Outlet = Outlet(samples: seq<seq<real>>, failed: bool)

  /** The streaming loop over a run of readings. */
  function Pump(readings: seq<Reading>): (o: Outlet)
    ensures |o.samples| <= |readings|
    ensures forall k :: 0 <= k < |o.samples| ==> |o.samples[k]| == 1 && Plausible(o.samples[k][0])
    ensures o.failed <==> exists i :: 0 <= i < |readings| && Raises(readings[i])
    decreases |readings|
  {
    if |readings| == 0 then Outlet([], false)
    else
      var rest := Pump(readings[1..]);
      assert forall i :: 0 <= i < |readings| - 1 ==> readings[1..][i] == readings[i + 1];
      match readings[0]
      case Falsy => rest
      case Packet(_, _, _) =>
        match Extract(readings[0])
        case NoField => rest
        case ConversionError => Outlet([], true)
        case Rate(bpm) => if Plausible(bpm) then Outlet([[bpm]] + rest.samples, rest.failed) else rest
  }

  /** A single reading pushes one sample holding its heart rate exactly when
      its rate converts and is plausible; otherwise nothing is pushed. */
  lemma PumpOne(p: Reading)
    ensures Pushes(p) ==> Pump([p]) == Outlet([[Extract(p).bpm]], false)
    ensures !Pushes(p) ==> Pump([p]).samples == [] && (Pump([p]).failed <==> Raises(p))
  {
    assert [p][1..] == [];
  }

  /** Streaming is incremental: until an error, the samples of a longer run
      are those of its first part followed by those of the rest, so samples
      keep the order of the readings; after an error nothing more is
      pushed. */
  lemma {:induction false} PumpAppend(a: seq<Reading>, b: seq<Reading>)
    ensures !Pump(a).failed ==> Pump(a + b) == Outlet(Pump(a).samples + Pump(b).samples, Pump(b).failed)
    ensures Pump(a).failed ==> Pump(a + b) == Pump(a)
    decreases |a|
  {
    if |a| == 0 {
      assert a + b == b;
    } else {
      assert (a + b)[0] == a[0];
      assert (a + b)[1..] == a[1..] + b;
      PumpAppend(a[1..], b);
    }
  }

  /** Readings of 0 and 511, the device's invalid values, are dropped. */
  lemma BadReadsDropped(p: Reading)
    requires p.Packet? && (Extract(p) == Rate(0.0) || Extract(p) == Rate(511.0))
    ensures Pump([p]) == Outlet([], false)
  {
    PumpOne(p);
  }
}
