/**
 * The older magviewer chart widget, without drawing: a fixed array of 30
 * entry slots filled from the front up to a head cursor, raw bytes as
 * samples, and the same CLEARED / ACTIVE / INACTIVE lifecycle with a fixed
 * 100 ms throttle.  `update` is modelled twice: as the in-place array
 * algorithm (method Update) and as a closed-form description of its effect
 * (function UpdateSpec), and the two are proved to agree.
 */
module MagChart {
  import opened Wrappers
  import opened Bytes
  import opened Samples
  import opened Session
  import DataProtocol

  /** Number of entry slots (`arrayOfNulls<Entry>(30)`). */
  const Size: nat := 30

  /** Minimum time between two drawn frames, in milliseconds. */
  const UpdatePeriodMs: nat := 100

  /** An entry slot: None is a slot never written (a null array element). */
  type Slot = Option<Sample>

  /**
   * The widget's state: the slots, the head cursor (slots [0, head) are
   * shown), the next record id, the lifecycle state and the time of the last
   * drawn frame.
   */
  datatype Chart = Chart(slots: seq<Slot>, head: nat, recordId: nat, state: State, lastUpdate: nat)

  /** The chart after `update`, and the slots it drew, if any. */
  datatype MagStep = MagStep(chart: Chart, frame: Option<seq<Slot>>)

  /** The array has its fixed size and the cursor stays inside it. */
  predicate Valid(c: Chart)
  {
    |c.slots| == Size && c.head <= Size
  }

  /** A new widget: all slots null, nothing received, CLEARED. */
  function Create(): (c: Chart)
    ensures Valid(c) && c.head == 0 && c.recordId == 0 && c.state == Cleared
    ensures forall j :: 0 <= j < Size ==> c.slots[j] == None
    ensures c.lastUpdate == 0
  {
    Chart(seq(Size, _ => None), 0, 0, Cleared, 0)
  }

  /** Samples as slot contents. */
  function Present(s: seq<Sample>): (r: seq<Slot>)
    ensures |r| == |s| && forall k :: 0 <= k < |s| ==> r[k] == Some(s[k])
  {
    seq(|s|, k requires 0 <= k < |s| => Some(s[k]))
  }

  /** The slots after copying [remove, head) down to [0, head - remove). */
  function Shifted(slots: seq<Slot>, head: nat, remove: nat): (r: seq<Slot>)
    requires |slots| == Size && head <= Size
    ensures |r| == Size
  {
    seq(Size, j requires 0 <= j < Size => if j + remove < head then slots[j + remove] else slots[j])
  }

  /** The slots with entries written from position at on. */
  function Overwrite(slots: seq<Slot>, at: nat, entries: seq<Sample>): (r: seq<Slot>)
    requires at + |entries| <= |slots|
    ensures |r| == |slots|
    ensures r[..at] == slots[..at] && r[at + |entries|..] == slots[at + |entries|..]
    ensures r[at..at + |entries|] == Present(entries)
  {
    slots[..at] + Present(entries) + slots[at + |entries|..]
  }

  /** The slots a frame draws: [0, head). */
  function Shown(c: Chart): (r: seq<Slot>)
    requires Valid(c)
    ensures |r| == c.head
  {
    c.slots[..c.head]
  }

  /** Where the room-making step leaves the slots and the cursor. */
  datatype Evicted = Evicted(slots: seq<Slot>, head: nat)

  /**
   * The room-making step of `update` as written: with n incoming bytes and
   * `remove` = n minus the free slots, nothing happens when remove is not
   * positive; when it exceeds the array the cursor drops to 0; otherwise the
   * slots from remove to the cursor are copied down by remove, and the cursor
   * is set to remove itself.
   */
  function Evict(slots: seq<Slot>, head: nat, n: nat): (e: Evicted)
    requires |slots| == Size && head <= Size
    ensures |e.slots| == Size && e.head <= Size
  {
    var remove := n - (Size - head);
    if remove > 0 then
      if remove > Size then Evicted(slots, 0)
      else Evicted(Shifted(slots, head, remove), remove)
    else Evicted(slots, head)
  }

  /** How many of the incoming bytes fit behind the cursor: the last ones are taken. */
  function WriteCount(head: nat, n: nat): (m: nat)
    requires head <= Size
    ensures m <= n && head + m <= Size
    ensures m == n || head + m == Size
  {
    if n > Size - head then Size - head else n
  }

  /**
   * The entries `update` writes behind the cursor: none while paused,
   * otherwise the last bytes that fit, as samples with ids from recordId on.
   */
  function Written(paused: bool, recordId: nat, head: nat, bytes: seq<Byte>): (w: seq<Sample>)
    requires head <= Size
    ensures |w| == (if paused then 0 else WriteCount(head, |bytes|))
  {
    if paused then [] else DataProtocol.ParseBytes(bytes[|bytes| - WriteCount(head, |bytes|)..], recordId)
  }

  /**
   * The rest of `update`, after the room-making step: the written entries go
   * behind the cursor, then the shown slots are drawn if the chart is not
   * paused and the throttle allows.
   */
  function Finish(c: Chart, e: Evicted, bytes: seq<Byte>, tick: nat): (r: MagStep)
    requires |e.slots| == Size && e.head <= Size
    ensures Valid(r.chart) && e.head <= r.chart.head
  {
    var written := Written(c.state == Inactive, c.recordId, e.head, bytes);
    var slots := Overwrite(e.slots, e.head, written);
    var c' := c.(slots := slots, head := e.head + |written|, recordId := c.recordId + |written|);
    if c.state != Inactive && FrameDue(tick, c.lastUpdate, UpdatePeriodMs) then
      MagStep(c'.(state := Active, lastUpdate := tick), Some(slots[..c'.head]))
    else
      MagStep(c', None)
  }

  /**
   * After `update`, the shown slots are the slots kept by the room-making
   * step followed by the written entries, and the ids advance by one per
   * written entry; a paused chart writes nothing.
   */
  lemma FinishShown(c: Chart, e: Evicted, bytes: seq<Byte>, tick: nat)
    requires |e.slots| == Size && e.head <= Size
    ensures var r := Finish(c, e, bytes, tick).chart;
      && Shown(r) == e.slots[..e.head] + Present(Written(c.state == Inactive, c.recordId, e.head, bytes))
      && r.recordId == c.recordId + |Written(c.state == Inactive, c.recordId, e.head, bytes)|
      && (c.state == Inactive ==> r.head == e.head && r.slots == e.slots)
  {
    var r := Finish(c, e, bytes, tick).chart;
    var w := Written(c.state == Inactive, c.recordId, e.head, bytes);
    assert Shown(r) == r.slots[..e.head] + r.slots[e.head..e.head + |w|];
  }

  /**
   * A frame is drawn exactly when the chart is not paused and the throttle
   * allows; it shows slots [0, head) and makes the chart ACTIVE.  Otherwise
   * the state and the time of the last frame stay.
   */
  lemma FinishFrame(c: Chart, e: Evicted, bytes: seq<Byte>, tick: nat)
    requires |e.slots| == Size && e.head <= Size
    ensures var r := Finish(c, e, bytes, tick);
      && (r.frame.Some? <==> c.state != Inactive && FrameDue(tick, c.lastUpdate, UpdatePeriodMs))
      && (r.frame.Some? ==> r.frame.value == Shown(r.chart) && r.chart.state == Active && r.chart.lastUpdate == tick)
      && (r.frame.None? ==> r.chart.state == c.state && r.chart.lastUpdate == c.lastUpdate)
  {
  }

  /** The effect of `update`, as written. */
  function UpdateSpec(c: Chart, bytes: seq<Byte>, tick: nat): (r: MagStep)
    requires Valid(c)
    ensures Valid(r.chart)
  {
    Finish(c, Evict(c.slots, c.head, |bytes|), bytes, tick)
  }

  /**
   * Lines 69-80 of `update` on the slot array: copy the slots from remove up
   * to the cursor down by remove, in place and in ascending order, and move
   * the cursor.  Every array access is in bounds.
   */
  method EvictSlots(slots: seq<Slot>, head: nat, n: nat) returns (slots': seq<Slot>, head': nat)
    requires |slots| == Size && head <= Size
    ensures Evicted(slots', head') == Evict(slots, head, n)
  {
    var a := new Slot[Size](j requires 0 <= j < Size => slots[j]);
    head' := head;
    var rightEmpty := Size - head;
    var remove := n - rightEmpty;
    if remove > 0 {
      if remove > Size {
        remove := 0;
      } else {
        var i := remove;
        while i < head
          invariant remove <= i && (i <= head || i == remove)
          invariant forall j :: 0 <= j < Size && j + remove < i ==> a[j] == slots[j + remove]
          invariant forall j :: 0 <= j < Size && j + remove >= i ==> a[j] == slots[j]
        {
          a[i - remove] := a[i];
          i := i + 1;
        }
        ShiftResult(slots, head, remove, i, a[..]);
      }
      head' := remove;
    }
    slots' := a[..];
  }

  /** The slot-by-slot outcome of the shift loop, as a whole. */
  lemma ShiftResult(slots: seq<Slot>, head: nat, remove: nat, i: nat, r: seq<Slot>)
    requires |slots| == Size == |r| && head <= Size && remove <= Size
    requires head <= i && (i == head || i == remove)
    requires forall j :: 0 <= j < Size && j + remove < i ==> r[j] == slots[j + remove]
    requires forall j :: 0 <= j < Size && j + remove >= i ==> r[j] == slots[j]
    ensures r == Shifted(slots, head, remove)
  {
    var s := Shifted(slots, head, remove);
    forall j | 0 <= j < Size
      ensures r[j] == s[j]
    {
    }
  }

  /**
   * Lines 82-91 of `update`: walk over the last bytes that fit behind the
   * cursor and, unless paused, write each as a sample with the next record id,
   * advancing cursor and id by one per entry.  Every array access is in bounds.
   */
  method WriteSlots(slots: seq<Slot>, head: nat, recordId: nat, paused: bool, bytes: seq<Byte>)
    returns (slots': seq<Slot>, head': nat, recordId': nat)
    requires |slots| == Size && head <= Size
    ensures var written := Written(paused, recordId, head, bytes);
      slots' == Overwrite(slots, head, written) &&
      head' == head + |written| && recordId' == recordId + |written|
  {
    var a := new Slot[Size](j requires 0 <= j < Size => slots[j]);
    head' := head;
    recordId' := recordId;
    var nWrite := if |bytes| > Size - head then Size - head else |bytes|;
    var from := |bytes| - nWrite;
    var i := from;
    while i < |bytes|
      invariant from <= i <= |bytes|
      invariant !paused ==> head' == head + (i - from) && recordId' == recordId + (i - from)
      invariant paused ==> head' == head && recordId' == recordId
      invariant forall j :: 0 <= j < Size && !(head <= j < head') ==> a[j] == slots[j]
      invariant forall j :: head <= j < head' ==>
        a[j] == Some(Sample(recordId + (j - head), Int(SignedByte(bytes[from + (j - head)]))))
    {
      if !paused {
        a[head'] := Some(Sample(recordId', Int(SignedByte(bytes[i]))));
        recordId' := recordId' + 1;
        head' := head' + 1;
      }
      i := i + 1;
    }
    slots' := a[..];
    WriteResult(slots, head, recordId, paused, bytes, slots', head', recordId');
  }

  /** The slot-by-slot outcome of the write loop, as a whole. */
  lemma WriteResult(slots: seq<Slot>, head: nat, recordId: nat, paused: bool, bytes: seq<Byte>,
                    r: seq<Slot>, head': nat, recordId': nat)
    requires |slots| == Size == |r| && head <= Size
    requires var m := WriteCount(head, |bytes|);
      (!paused ==> head' == head + m && recordId' == recordId + m) &&
      (paused ==> head' == head && recordId' == recordId) &&
      (forall j :: 0 <= j < Size && !(head <= j < head') ==> r[j] == slots[j]) &&
      (forall j :: head <= j < head' ==>
        r[j] == Some(Sample(recordId + (j - head), Int(SignedByte(bytes[|bytes| - m + (j - head)])))))
    ensures var written := Written(paused, recordId, head, bytes);
      r == Overwrite(slots, head, written) &&
      head' == head + |written| && recordId' == recordId + |written|
  {
    var from := |bytes| - WriteCount(head, |bytes|);
    if paused {
      OverwriteFromElements(slots, head, [], r);
    } else {
      var written := DataProtocol.ParseBytes(bytes[from..], recordId);
      forall j | head <= j < head'
        ensures r[j] == Some(written[j - head])
      {
        DataProtocol.ParseBytesAt(bytes[from..], recordId, j - head);
      }
      OverwriteFromElements(slots, head, written, r);
    }
  }

  /** A slot sequence that agrees with Overwrite slot by slot is Overwrite. */
  lemma OverwriteFromElements(slots: seq<Slot>, at: nat, entries: seq<Sample>, r: seq<Slot>)
    requires at + |entries| <= |slots| == |r|
    requires forall j :: 0 <= j < |r| && !(at <= j < at + |entries|) ==> r[j] == slots[j]
    requires forall j :: at <= j < at + |entries| ==> r[j] == Some(entries[j - at])
    ensures r == Overwrite(slots, at, entries)
  {
    var o := Overwrite(slots, at, entries);
    forall j | 0 <= j < |r|
      ensures r[j] == o[j]
    {
      if at <= j < at + |entries| {
        assert o[j] == o[at..at + |entries|][j - at];
      } else if j < at {
        assert o[j] == o[..at][j];
      } else {
        assert o[j] == o[at + |entries|..][j - at - |entries|];
      }
    }
  }

  /**
   * `update`: make room, write the entries, and draw the shown slots when the
   * chart is not paused and more than 100 ms have passed since the last frame.
   */
  method Update(c: Chart, bytes: seq<Byte>, tick: nat) returns (r: Chart, frame: Option<seq<Slot>>)
    requires Valid(c)
    ensures Valid(r)
    ensures MagStep(r, frame) == UpdateSpec(c, bytes, tick)
  {
    var slots, head := EvictSlots(c.slots, c.head, |bytes|);
    var recordId;
    slots, head, recordId := WriteSlots(slots, head, c.recordId, c.state == Inactive, bytes);
    r := c.(slots := slots, head := head, recordId := recordId);
    if c.state != Inactive && tick > c.lastUpdate + UpdatePeriodMs {
      r := r.(state := Active, lastUpdate := tick);
      frame := Some(slots[..head]);
    } else {
      frame := None;
    }
  }

  /**
   * `update` as written loses most of a full window: with all 30 slots shown
   * and 5 bytes arriving, 25 entries are shifted down but the cursor is set to
   * 5, so only 10 slots are shown afterwards, where keeping the newest 30
   * would show all 30.
   */
  lemma UpdateShrinksFullWindow()
    ensures var c := Chart(Present(DataProtocol.ParseBytes(seq(Size, _ => 0), 0)), Size, Size, Active, 0);
      var bytes: seq<Byte> := [1, 2, 3, 4, 5];
      UpdateSpec(c, bytes, 0).chart.head == 10 &&
      |Last(Shown(c) + Present(DataProtocol.ParseBytes(bytes, Size)), Size)| == Size
  {
    var c := Chart(Present(DataProtocol.ParseBytes(seq(Size, _ => 0), 0)), Size, Size, Active, 0);
    var bytes: seq<Byte> := [1, 2, 3, 4, 5];
    assert Evict(c.slots, c.head, 5).head == 5;
  }

  /**
   * `update` as written shows stale slots: when the incoming bytes exceed the
   * free slots by `remove`, more than the cursor but at most 30, nothing is
   * moved, the cursor jumps forward to `remove`, and the slots between the old
   * cursor and `remove`, which hold no current entry, are shown as they were.
   */
  lemma UpdateShowsStale(c: Chart, bytes: seq<Byte>, tick: nat)
    requires Valid(c)
    requires var remove := |bytes| - (Size - c.head); c.head < remove <= Size
    ensures var remove := |bytes| - (Size - c.head);
      var r := UpdateSpec(c, bytes, tick).chart;
      remove <= r.head &&
      forall j :: c.head <= j < remove ==> r.slots[j] == c.slots[j]
  {
    var remove := |bytes| - (Size - c.head);
    var e := Evict(c.slots, c.head, |bytes|);
    assert e == Evicted(Shifted(c.slots, c.head, remove), remove);
    var r := UpdateSpec(c, bytes, tick).chart;
    FinishShown(c, e, bytes, tick);
    forall j | c.head <= j < remove
      ensures r.slots[j] == c.slots[j]
    {
      assert r.slots[j] == Shown(r)[j] == e.slots[j];
    }
  }

  /**
   * So null slots are drawn: from a new widget, 10 bytes at time 0 fill slots
   * 0-9 without drawing; 35 more at time 101 set the cursor to 15 and write
   * slots 15-29, and the frame then drawn holds slot 10, never written.
   */
  lemma UpdateShowsUnwritten()
    ensures var c1 := UpdateSpec(Create(), seq(10, _ => 0), 0).chart;
      var r2 := UpdateSpec(c1, seq(35, _ => 0), 101);
      Filled(c1) && !Filled(r2.chart) &&
      r2.frame.Some? && |r2.frame.value| > 10 && r2.frame.value[10] == None
  {
    var c0 := Create();
    var e := Evict(c0.slots, 0, 10);
    assert e == Evicted(c0.slots, 0);
    FinishShown(c0, e, seq(10, _ => 0), 0);
    FinishFrame(c0, e, seq(10, _ => 0), 0);
    var c1 := UpdateSpec(c0, seq(10, _ => 0), 0).chart;
    assert c1.head == 10 && c1.state == Cleared && c1.lastUpdate == 0;
    forall j | 0 <= j < c1.head
      ensures c1.slots[j].Some?
    {
      assert c1.slots[j] == Shown(c1)[j];
    }
    assert c1.slots[10] == c1.slots[c1.head..][0] == None;
    UpdateShowsStale(c1, seq(35, _ => 0), 101);
    FinishFrame(c1, Evict(c1.slots, c1.head, 35), seq(35, _ => 0), 101);
    var r2 := UpdateSpec(c1, seq(35, _ => 0), 101);
    assert r2.frame.value == Shown(r2.chart) && r2.chart.slots[10] == None;
  }

  /** Every shown slot holds an entry: no null is ever drawn. */
  ghost predicate Filled(c: Chart)
  {
    Valid(c) && forall j :: 0 <= j < c.head ==> c.slots[j].Some?
  }

  /**
   * The room-making step as evidently intended: when n bytes do not fit, the
   * oldest entries are dropped and the cursor moves back by as many, so that
   * exactly the newest 30 - n entries stay shown (none when n >= 30).
   */
  function EvictKeepNewest(slots: seq<Slot>, head: nat, n: nat): (e: Evicted)
    requires |slots| == Size && head <= Size
    ensures |e.slots| == Size && e.head <= head
    ensures e.slots[..e.head] == Last(slots[..head], Size - n)
  {
    var remove := n - (Size - head);
    if remove <= 0 then Evicted(slots, head)
    else if remove >= head then Evicted(slots, 0)
    else
      var e := Evicted(Shifted(slots, head, remove), head - remove);
      assert e.slots[..e.head] == slots[remove..head];
      e
  }

  /** `update` with the corrected room-making step. */
  function UpdateKeepNewest(c: Chart, bytes: seq<Byte>, tick: nat): (r: MagStep)
    requires Valid(c)
    ensures Valid(r.chart)
  {
    Finish(c, EvictKeepNewest(c.slots, c.head, |bytes|), bytes, tick)
  }

  /**
   * The corrected `update` keeps the newest entries: unless paused, the shown
   * slots afterwards are the newest 30 of the shown slots before followed by
   * the last (at most 30) incoming bytes as samples with the next ids.
   */
  lemma KeepsNewest(c: Chart, bytes: seq<Byte>, tick: nat)
    requires Valid(c) && c.state != Inactive
    ensures var m := if |bytes| > Size then Size else |bytes|;
      var written := DataProtocol.ParseBytes(bytes[|bytes| - m..], c.recordId);
      var r := UpdateKeepNewest(c, bytes, tick).chart;
      Shown(r) == Last(Shown(c) + Present(written), Size) &&
      r.recordId == c.recordId + |written|
  {
    FinishAfterKeepNewest(c, EvictKeepNewest(c.slots, c.head, |bytes|), bytes, tick);
  }

  /** KeepsNewest for any room-making step that keeps the newest 30 - n shown slots. */
  lemma FinishAfterKeepNewest(c: Chart, e: Evicted, bytes: seq<Byte>, tick: nat)
    requires Valid(c) && c.state != Inactive
    requires |e.slots| == Size && e.head <= Size
    requires e.slots[..e.head] == Last(Shown(c), Size - |bytes|)
    ensures var m := if |bytes| > Size then Size else |bytes|;
      var written := DataProtocol.ParseBytes(bytes[|bytes| - m..], c.recordId);
      var r := Finish(c, e, bytes, tick).chart;
      Shown(r) == Last(Shown(c) + Present(written), Size) &&
      r.recordId == c.recordId + |written|
  {
    var n := |bytes|;
    var m := if n > Size then Size else n;
    var written := DataProtocol.ParseBytes(bytes[n - m..], c.recordId);
    FinishShown(c, e, bytes, tick);
    assert e.head == |Last(Shown(c), Size - n)|;
    WrittenAll(c, e, bytes);
    ComposeKept(Shown(Finish(c, e, bytes, tick).chart), e.slots[..e.head], Shown(c), Present(written), n);
  }

  /** When all the incoming bytes (at most 30) fit behind the cursor, they are all written. */
  lemma WrittenAll(c: Chart, e: Evicted, bytes: seq<Byte>)
    requires c.state != Inactive
    requires e.head + (if |bytes| > Size then Size else |bytes|) <= Size
    ensures var m := if |bytes| > Size then Size else |bytes|;
      Written(c.state == Inactive, c.recordId, e.head, bytes) == DataProtocol.ParseBytes(bytes[|bytes| - m..], c.recordId)
  {
  }

  /** Kept newest slots followed by the newest entries are the newest of both. */
  lemma ComposeKept<T>(shown: seq<T>, kept: seq<T>, s: seq<T>, p: seq<T>, n: nat)
    requires shown == kept + p && kept == Last(s, Size - n)
    requires |p| == if n > Size then Size else n
    ensures shown == Last(s + p, Size)
  {
    KeptNewest(s, n, |p|);
    LastAppendTail(s, p, Size);
  }

  /** Keeping the newest Size - n of a window is keeping the newest Size - m, m = min(n, Size). */
  lemma KeptNewest<T>(s: seq<T>, n: nat, m: nat)
    requires m == if n > Size then Size else n
    ensures Last(s, Size - n) == Last(s, Size - m)
  {
  }

  /** The corrected `update` never shows a null slot. */
  lemma KeepNewestFilled(c: Chart, bytes: seq<Byte>, tick: nat)
    requires Filled(c)
    ensures Filled(UpdateKeepNewest(c, bytes, tick).chart)
  {
    var e := EvictKeepNewest(c.slots, c.head, |bytes|);
    KeptFilled(c, e, |bytes|);
    FinishFilled(c, e, bytes, tick);
  }

  /** Keeping only the newest shown slots keeps every shown slot filled. */
  lemma KeptFilled(c: Chart, e: Evicted, n: nat)
    requires Filled(c)
    requires |e.slots| == Size && e.head <= Size
    requires e.slots[..e.head] == Last(Shown(c), Size - n)
    ensures forall j :: 0 <= j < e.head ==> e.slots[j].Some?
  {
    var kept := Last(Shown(c), Size - n);
    forall j | 0 <= j < e.head
      ensures e.slots[j].Some?
    {
      assert e.slots[j] == kept[j];
      assert kept[j] == c.slots[c.head - |kept| + j];
    }
  }

  /** Writing behind a cursor that shows no null slot shows no null slot. */
  lemma FinishFilled(c: Chart, e: Evicted, bytes: seq<Byte>, tick: nat)
    requires |e.slots| == Size && e.head <= Size
    requires forall j :: 0 <= j < e.head ==> e.slots[j].Some?
    ensures Filled(Finish(c, e, bytes, tick).chart)
  {
    var r := Finish(c, e, bytes, tick).chart;
    FinishShown(c, e, bytes, tick);
    forall j | 0 <= j < r.head
      ensures r.slots[j].Some?
    {
      assert r.slots[j] == Shown(r)[j];
    }
  }

  /** `pause`. */
  function Pause(c: Chart): (r: Chart)
    ensures r.state == Inactive && r == c.(state := Inactive)
  {
    c.(state := Inactive)
  }

  /**
   * `clear`: the cursor returns to 0, so nothing is shown, and the state is
   * CLEARED; the slot contents, the record id and the time of the last frame
   * are kept.
   */
  function Clear(c: Chart): (r: Chart)
    requires Valid(c)
    ensures Valid(r) && Shown(r) == [] && r.state == Cleared
    ensures r.slots == c.slots && r.recordId == c.recordId && r.lastUpdate == c.lastUpdate
  {
    c.(head := 0, state := Cleared)
  }

  /** `isActive`. */
  predicate IsActiveChart(c: Chart)
  {
    IsActive(c.state)
  }

  /** `onChartSingleTapped`. */
  function Tap(c: Chart): (r: Chart)
    requires Valid(c)
    ensures Valid(r)
    ensures c.state == Cleared ==> r == c
    ensures c.state == Active ==> r == Pause(c)
    ensures c.state == Inactive ==> r == Clear(c)
  {
    match OnTap(c.state)
    case TapIgnored => c
    case TapPauses => Pause(c)
    case TapClears => Clear(c)
  }

  /** Every user or sensor action the widget reacts to. */
  datatype Event =
    | Data(bytes: seq<Byte>, tick: nat)   // `update` with the clock reading
    | PauseRequest                        // `pause`
    | SingleTap                           // `onChartSingleTapped`

  /** One action, with the corrected `update`. */
  function Apply(c: Chart, e: Event): (r: Chart)
    requires Valid(c)
    ensures Valid(r)
    ensures !e.Data? ==> r.slots == c.slots && r.recordId == c.recordId && r.head <= c.head
    ensures e.Data? && c.state == Inactive ==> r.recordId == c.recordId
  {
    match e
    case Data(bytes, tick) => UpdateKeepNewest(c, bytes, tick).chart
    case PauseRequest => Pause(c)
    case SingleTap => Tap(c)
  }

  /** A sequence of actions, applied in order. */
  function Run(c: Chart, events: seq<Event>): (r: Chart)
    requires Valid(c)
    ensures Valid(r)
    decreases |events|
  {
    if events == [] then c else Run(Apply(c, events[0]), events[1..])
  }

  /**
   * Whatever happens, a widget that starts with no null slot shown never
   * draws one.
   */
  lemma {:induction false} RunKeepsFilled(c: Chart, events: seq<Event>)
    requires Filled(c)
    ensures Filled(Run(c, events))
    decreases |events|
  {
    if events != [] {
      var c' := Apply(c, events[0]);
      if events[0].Data? {
        KeepNewestFilled(c, events[0].bytes, events[0].tick);
      }
      assert Filled(c');
      RunKeepsFilled(c', events[1..]);
    }
  }

  /**
   * `update` as written on a paused chart: no entry is written and nothing is
   * drawn, but the room-making step still runs.  Bytes that fit change
   * nothing shown; otherwise the cursor is set to the overflow `remove`, or
   * to 0 when that exceeds the array.
   */
  lemma UpdateWhilePaused(c: Chart, bytes: seq<Byte>, tick: nat)
    requires Valid(c) && c.state == Inactive
    ensures var r := UpdateSpec(c, bytes, tick);
      var e := Evict(c.slots, c.head, |bytes|);
      r.frame == None && r.chart.state == Inactive && r.chart.recordId == c.recordId &&
      r.chart.lastUpdate == c.lastUpdate && Shown(r.chart) == e.slots[..e.head]
    ensures |bytes| <= Size - c.head ==> Shown(UpdateSpec(c, bytes, tick).chart) == Shown(c)
    ensures Size - c.head < |bytes| <= 2 * Size - c.head ==>
      |Shown(UpdateSpec(c, bytes, tick).chart)| == |bytes| - (Size - c.head)
    ensures |bytes| > 2 * Size - c.head ==> Shown(UpdateSpec(c, bytes, tick).chart) == []
  {
    FinishShown(c, Evict(c.slots, c.head, |bytes|), bytes, tick);
    FinishFrame(c, Evict(c.slots, c.head, |bytes|), bytes, tick);
  }

  /**
   * The corrected `update` on a paused chart: no entry is written and nothing
   * is drawn, and the shown slots shrink to the newest 30 - n.
   */
  lemma KeepNewestWhilePaused(c: Chart, bytes: seq<Byte>, tick: nat)
    requires Valid(c) && c.state == Inactive
    ensures var r := UpdateKeepNewest(c, bytes, tick);
      r.frame == None && r.chart.state == Inactive && r.chart.recordId == c.recordId &&
      Shown(r.chart) == Last(Shown(c), Size - |bytes|)
  {
    FinishShown(c, EvictKeepNewest(c.slots, c.head, |bytes|), bytes, tick);
    FinishFrame(c, EvictKeepNewest(c.slots, c.head, |bytes|), bytes, tick);
  }

  /**
   * Tapping walks the lifecycle: CLEARED stays put, ACTIVE pauses, and a
   * paused chart is cleared; tapping keeps the record id.
   */
  lemma TapCycle(c: Chart)
    requires Valid(c)
    ensures c.state == Active ==> Tap(c).state == Inactive && Shown(Tap(c)) == Shown(c)
    ensures c.state == Inactive ==> Tap(c).state == Cleared && Shown(Tap(c)) == []
    ensures Tap(c).recordId == c.recordId && Tap(c).lastUpdate == c.lastUpdate
  {
  }
}
