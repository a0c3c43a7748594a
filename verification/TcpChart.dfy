/**
 * The tcpdataviewer chart widget, without drawing: a bounded window of
 * samples fed by the protocol decoder, the CLEARED / ACTIVE / INACTIVE
 * lifecycle, and the throttle that decides when the window is drawn.  Each
 * synchronized method is one atomic step from chart to chart; the clock and
 * the settings store are parameters.
 */
module TcpChart {
  import opened Bytes
  import opened Samples
  import opened DataProtocol
  import opened Session

  /**
   * The widget's state: the window (`mChartEntries`, oldest first), its
   * decoder, the lifecycle state, the time of the last drawn frame and the
   * two plot settings.
   */
  datatype Chart = Chart(
    window: seq<Sample>,
    parser: Parser,
    state: State,
    lastUpdate: nat,
    updatePeriod: int,
    plotSizeMax: int)

  /** What one `update` hands to the chart library. */
  datatype Outcome =
    | Frame(points: seq<Sample>)  // the window, drawn
    | NoFrame                     // nothing drawn
    | Failed(error: DecodeError)  // the decoder threw; nothing drawn

  /** The chart after a step, and what the step drew. */
  datatype Step = Step(chart: Chart, outcome: Outcome)

  /** The window capacity as it acts: a setting below zero keeps nothing. */
  function Capacity(plotSizeMax: int): (n: nat)
    ensures plotSizeMax >= 0 ==> n == plotSizeMax
  {
    if plotSizeMax < 0 then 0 else plotSizeMax
  }

  /**
   * The invariant every reachable chart keeps: the window holds consecutive
   * ids ending just before the decoder's next id, never exceeds its capacity,
   * and the carry holds no whole element (and nothing at all in raw mode).
   */
  ghost predicate WellFormed(c: Chart)
  {
    EndsBefore(c.window, c.parser.recordId) &&
    |c.window| <= Capacity(c.plotSizeMax) &&
    (c.parser.dtype == 0 ==> c.parser.carry == []) &&
    (ElementTypeOf(c.parser.dtype).Some? ==>
      |c.parser.carry| < Width(ElementTypeOf(c.parser.dtype).value))
  }

  /**
   * The constructors with `prepare`: the protocol and plot settings are
   * loaded, nothing has been received and nothing drawn.
   */
  function Create(dtype: int, endian: int, plotSizeMax: int, updatePeriod: int): (c: Chart)
    ensures c.window == [] && c.state == Cleared && c.lastUpdate == 0
    ensures c.parser.recordId == 0 && c.parser.carry == [] && c.parser.dtype == dtype
    ensures c.plotSizeMax == plotSizeMax && c.updatePeriod == updatePeriod
    ensures WellFormed(c)
  {
    Chart([], LoadProtocol(DataProtocol.Init(), dtype, endian), Cleared, 0, updatePeriod, plotSizeMax)
  }

  /** Kotlin's `s.slice(from until to)`: empty when from >= to. */
  function SliceUntil<T>(s: seq<T>, from: int, to: int): (r: seq<T>)
    requires to <= |s| && (from < to ==> 0 <= from)
    ensures |r| == if from < to then to - from else 0
  {
    if from < to then s[from..to] else []
  }

  /**
   * `trimEntries`: make room for a batch by evicting the oldest entries, or,
   * when the batch alone overflows, replace the window by the newest part of
   * the batch.  The new window is the newest plotSizeMax samples of the old
   * window followed by the batch.
   */
  function TrimEntries(window: seq<Sample>, entries: seq<Sample>, plotSizeMax: int): (r: seq<Sample>)
    ensures r == Last(window + entries, plotSizeMax)
  {
    var available := plotSizeMax - |window|;
    var removed := |entries| - available;
    if removed > 0 then
      if removed > |window| then
        SliceUntil(entries, |entries| - plotSizeMax, |entries|)
      else
        assert (window + entries)[removed..] == window[removed..] + entries;
        window[removed..] + entries
    else
      window + entries
  }

  /** The window never holds more than the capacity, whatever it held before. */
  lemma TrimEntriesBounded(window: seq<Sample>, entries: seq<Sample>, plotSizeMax: int)
    ensures |TrimEntries(window, entries, plotSizeMax)| <= Capacity(plotSizeMax)
    ensures |TrimEntries(window, entries, plotSizeMax)|
      == if |window| + |entries| <= Capacity(plotSizeMax) then |window| + |entries| else Capacity(plotSizeMax)
  {
  }

  /**
   * Trimming batch a and then batch b leaves the same window as trimming
   * a ++ b at once: the window depends only on the samples, not on how they
   * were batched.
   */
  lemma TrimEntriesTwice(window: seq<Sample>, a: seq<Sample>, b: seq<Sample>, plotSizeMax: int)
    ensures TrimEntries(TrimEntries(window, a, plotSizeMax), b, plotSizeMax)
      == TrimEntries(window, a + b, plotSizeMax)
  {
    LastOfLast(window + a, b, plotSizeMax);
    assert window + a + b == window + (a + b);
  }

  /**
   * `update`: a paused chart drops the bytes.  Otherwise they are decoded,
   * the samples go through `trimEntries`, and the window is drawn when the
   * throttle allows, which makes the chart ACTIVE.  A decoder failure ends
   * the step after the decoder has taken the bytes.
   */
  function Update(c: Chart, bytes: seq<Byte>, tick: nat): (r: Step)
    ensures r.chart.updatePeriod == c.updatePeriod && r.chart.plotSizeMax == c.plotSizeMax
    ensures c.state == Inactive ==> r == Step(c, NoFrame)
    ensures c.state != Inactive ==> r.chart.parser == Receive(c.parser, bytes).parser
    ensures c.state != Inactive && Receive(c.parser, bytes).samples.Err? ==>
      r == Step(c.(parser := r.chart.parser), Failed(Receive(c.parser, bytes).samples.error))
    ensures c.state != Inactive && Receive(c.parser, bytes).samples.Ok? ==>
      r.chart.window == Last(c.window + Receive(c.parser, bytes).samples.value, c.plotSizeMax) &&
      (r.outcome.Frame? <==> FrameDue(tick, c.lastUpdate, c.updatePeriod)) &&
      (r.outcome.Frame? ==>
        r.outcome.points == r.chart.window && r.chart.lastUpdate == tick && r.chart.state == Active) &&
      (!r.outcome.Frame? ==>
        r.outcome == NoFrame && r.chart.lastUpdate == c.lastUpdate && r.chart.state == c.state)
  {
    if c.state == Inactive then Step(c, NoFrame)
    else
      var received := Receive(c.parser, bytes);
      match received.samples
      case Err(e) => Step(c.(parser := received.parser), Failed(e))
      case Ok(samples) =>
        var window := TrimEntries(c.window, samples, c.plotSizeMax);
        var c' := c.(window := window, parser := received.parser);
        if FrameDue(tick, c.lastUpdate, c.updatePeriod) then
          Step(c'.(lastUpdate := tick, state := Active), Frame(window))
        else
          Step(c', NoFrame)
  }

  /** `pause`: INACTIVE from any state; nothing else changes. */
  function Pause(c: Chart): (r: Chart)
    ensures r.state == Inactive && r == c.(state := Inactive)
  {
    c.(state := Inactive)
  }

  /**
   * `clear`: the window is emptied, the decoder reset and the state CLEARED;
   * the time of the last frame and the settings are kept.
   */
  function Clear(c: Chart): (r: Chart)
    ensures r.window == [] && r.state == Cleared
    ensures r.parser.recordId == 0 && r.parser.carry == []
    ensures r.parser.dtype == c.parser.dtype && r.parser.endian == c.parser.endian
    ensures r.lastUpdate == c.lastUpdate
    ensures r.plotSizeMax == c.plotSizeMax && r.updatePeriod == c.updatePeriod
  {
    c.(window := [], parser := Reset(c.parser), state := Cleared)
  }

  /** `isActive`. */
  predicate IsActiveChart(c: Chart)
  {
    IsActive(c.state)
  }

  /** `onChartSingleTapped`. */
  function Tap(c: Chart): (r: Chart)
    ensures c.state == Cleared ==> r == c
    ensures c.state == Active ==> r == Pause(c)
    ensures c.state == Inactive ==> r == Clear(c)
  {
    match OnTap(c.state)
    case TapIgnored => c
    case TapPauses => Pause(c)
    case TapClears => Clear(c)
  }

  /** `onSettingsUpdated`: install the new plot settings, then clear. */
  function OnSettingsUpdated(c: Chart, plotSizeMax: int, updatePeriod: int): (r: Chart)
    ensures r.plotSizeMax == plotSizeMax && r.updatePeriod == updatePeriod
    ensures r.window == [] && r.state == Cleared
    ensures r.parser == Reset(c.parser) && r.lastUpdate == c.lastUpdate
  {
    Clear(c.(plotSizeMax := plotSizeMax, updatePeriod := updatePeriod))
  }

  /** `onDataProtocolUpdated`: load the new protocol settings, then clear. */
  function OnDataProtocolUpdated(c: Chart, dtype: int, endian: int): (r: Chart)
    ensures r.parser.dtype == dtype && r.parser.carry == [] && r.parser.recordId == 0
    ensures r.parser.endian == LittleEndian <==> endian != 0
    ensures r.window == [] && r.state == Cleared && r.lastUpdate == c.lastUpdate
    ensures r.plotSizeMax == c.plotSizeMax && r.updatePeriod == c.updatePeriod
  {
    Clear(c.(parser := LoadProtocol(c.parser, dtype, endian)))
  }

  /** A paused chart ignores incoming bytes entirely: window, decoder, clock and state stay. */
  lemma UpdateWhilePaused(c: Chart, bytes: seq<Byte>, tick: nat)
    requires !IsActiveChart(c)
    ensures Update(c, bytes, tick).chart == c && Update(c, bytes, tick).outcome == NoFrame
  {
  }

  /**
   * Tapping walks the lifecycle: CLEARED stays put, ACTIVE pauses, and a
   * paused chart is cleared with its window emptied; a paused chart tapped
   * twice is CLEARED, and tapping never draws.
   */
  lemma TapCycle(c: Chart)
    ensures c.state == Active ==> Tap(c).state == Inactive && Tap(c).window == c.window
    ensures c.state == Inactive ==> Tap(c).state == Cleared && Tap(c).window == []
    ensures c.state == Cleared ==> Tap(c) == c
    ensures Tap(c).lastUpdate == c.lastUpdate
    ensures c.state == Inactive ==> Tap(Tap(c)) == Tap(c)
  {
  }

  /** Every user or socket action the widget reacts to. */
  datatype Event =
    | Data(bytes: seq<Byte>, tick: nat)   // `update` with the clock reading
    | PauseRequest                        // `pause`
    | SingleTap                           // `onChartSingleTapped`
    | SettingsUpdated(plotSizeMax: int, updatePeriod: int)
    | ProtocolUpdated(dtype: int, endian: int)

  /** One event applied to the chart. */
  function Apply(c: Chart, e: Event): (r: Step)
    ensures !e.Data? ==> r.outcome == NoFrame
    ensures r.outcome.Frame? ==>
      e.Data? && r.chart.lastUpdate == e.tick && FrameDue(e.tick, c.lastUpdate, c.updatePeriod)
    ensures !r.outcome.Frame? ==> r.chart.lastUpdate == c.lastUpdate
    ensures !e.SettingsUpdated? ==> r.chart.updatePeriod == c.updatePeriod
  {
    match e
    case Data(bytes, tick) => Update(c, bytes, tick)
    case PauseRequest => Step(Pause(c), NoFrame)
    case SingleTap => Step(Tap(c), NoFrame)
    case SettingsUpdated(n, period) => Step(OnSettingsUpdated(c, n, period), NoFrame)
    case ProtocolUpdated(dtype, endian) => Step(OnDataProtocolUpdated(c, dtype, endian), NoFrame)
  }

  /** A drawn frame: when, and under which update period. */
  datatype Emission = Emission(tick: nat, period: int)

  /** The chart after a run of events, and the frames drawn along the way. */
  datatype Trace = Trace(chart: Chart, emissions: seq<Emission>)

  /** A run of events applied in order, recording every frame drawn. */
  function Run(c: Chart, events: seq<Event>): (r: Trace)
    decreases |events|
  {
    if |events| == 0 then Trace(c, [])
    else
      var s := Apply(c, events[0]);
      var rest := Run(s.chart, events[1..]);
      if s.outcome.Frame? then
        Trace(rest.chart, [Emission(events[0].tick, c.updatePeriod)] + rest.emissions)
      else rest
  }

  /**
   * The throttle holds over any run, however bursty: the first frame comes
   * more than one period after the last frame before the run, each later
   * frame more than one period after the one before it, and the chart ends up
   * remembering the last frame's time.
   */
  lemma {:induction false} ThrottleSpacing(c: Chart, events: seq<Event>)
    ensures var E := Run(c, events).emissions;
      (|E| > 0 ==> E[0].tick > c.lastUpdate + E[0].period) &&
      (forall i :: 0 < i < |E| ==> E[i].tick > E[i - 1].tick + E[i].period) &&
      Run(c, events).chart.lastUpdate == (if |E| == 0 then c.lastUpdate else E[|E| - 1].tick)
    decreases |events|
  {
    if |events| > 0 {
      var s := Apply(c, events[0]);
      ThrottleSpacing(s.chart, events[1..]);
      if s.outcome.Frame? {
        var E := Run(c, events).emissions;
        var R := Run(s.chart, events[1..]).emissions;
        assert E == [Emission(events[0].tick, c.updatePeriod)] + R;
        forall i | 0 < i < |E|
          ensures E[i].tick > E[i - 1].tick + E[i].period
        {
          assert E[i] == R[i - 1];
          if i > 1 {
            assert E[i - 1] == R[i - 2];
          }
        }
      }
    }
  }

  /** Without settings changes, every frame of a run is throttled by the chart's own period. */
  lemma {:induction false} ThrottlePeriodKept(c: Chart, events: seq<Event>)
    requires forall j :: 0 <= j < |events| ==> !events[j].SettingsUpdated?
    ensures forall i :: 0 <= i < |Run(c, events).emissions| ==>
      Run(c, events).emissions[i].period == c.updatePeriod
    decreases |events|
  {
    if |events| > 0 {
      var s := Apply(c, events[0]);
      assert forall j :: 0 <= j < |events[1..]| ==> events[1..][j] == events[j + 1];
      ThrottlePeriodKept(s.chart, events[1..]);
    }
  }

  /** Every event keeps the chart well formed. */
  lemma ApplyPreservesWellFormed(c: Chart, e: Event)
    requires WellFormed(c)
    ensures WellFormed(Apply(c, e).chart)
  {
    match e
    case Data(bytes, tick) =>
      if c.state != Inactive {
        var received := Receive(c.parser, bytes);
        if received.samples.Ok? {
          var samples := received.samples.value;
          AppendEndsBefore(c.window, samples, c.parser.recordId);
          LastEndsBefore(c.window + samples, c.plotSizeMax, received.parser.recordId);
          if c.parser.dtype == 0 {
            ReceiveRaw(c.parser, bytes);
          } else {
            ReceiveFixed(c.parser, bytes, ElementTypeOf(c.parser.dtype).value);
          }
        }
      }
    case PauseRequest =>
    case SingleTap =>
    case SettingsUpdated(n, period) =>
    case ProtocolUpdated(dtype, endian) =>
  }

  /**
   * From construction on, through any run of events, the window's ids are
   * consecutive and end just before the decoder's next id, the window stays
   * within its capacity, and the carry never holds a whole element.
   */
  lemma {:induction false} RunPreservesWellFormed(c: Chart, events: seq<Event>)
    requires WellFormed(c)
    ensures WellFormed(Run(c, events).chart)
    decreases |events|
  {
    if |events| > 0 {
      ApplyPreservesWellFormed(c, events[0]);
      RunPreservesWellFormed(Apply(c, events[0]).chart, events[1..]);
    }
  }

  /**
   * Chunk-boundary independence at the widget: on an active chart, whether
   * or not its data type is known, two updates with chunks a and b leave the same window
   * and decoder as one update with a ++ b at the later time.
   */
  lemma UpdateSplit(c: Chart, a: seq<Byte>, b: seq<Byte>, t1: nat, t2: nat)
    requires IsActiveChart(c)
    ensures var c1 := Update(c, a, t1).chart;
      var c2 := Update(c1, b, t2).chart;
      var c' := Update(c, a + b, t2).chart;
      c2.window == c'.window && c2.parser == c'.parser
  {
    ReceiveSplit(c.parser, a, b);
    var r1 := Receive(c.parser, a);
    var r2 := Receive(r1.parser, b);
    if r1.samples.Ok? && r2.samples.Ok? {
      TrimEntriesTwice(c.window, r1.samples.value, r2.samples.value, c.plotSizeMax);
    }
  }
}
