# Sensor stream decoder and live chart, in Dafny

This project models the core of an Android app that reads a byte stream from a
TCP sensor and plots it as a live line chart. It has three parts:

- **The protocol decoder** (`DataProtocolParser`). It is a stateful transformer
  from chunks of bytes to chart samples `(id, value)`.
  - Raw mode (data type 0): every byte is one sample, read as a signed byte.
  - Modes 1, 2 and 3 (int16, int32, float32): bytes pile up in a carry buffer.
    As many whole elements as fit are decoded from its front, always
    little-endian. The rest stays in the carry.
  - Ids count up without gaps across chunks.
- **The tcpdataviewer chart widget** (`SensorLineChart`, without drawing):
  - a window that keeps the newest `plotSizeMax` samples;
  - the CLEARED / ACTIVE / INACTIVE lifecycle, driven by single taps;
  - a throttle that draws a frame only when more than `updatePeriod` ms have
    passed since the last one.
- **The older magviewer chart widget**: a fixed array of 30 entry slots, with a
  head cursor that says how many of them are shown. It has the same lifecycle
  and a fixed 100 ms throttle.

Modules:

| module | what it holds |
|---|---|
| `Wrappers` | `Option` and `Result` |
| `Bytes` | Bytes as integers 0..255, signed reading of a byte, little-endian values and encodings, two's complement |
| `Samples` | Sample values, the "newest n" operation `Last`, and the predicates saying ids are consecutive |
| `DataProtocol` | The decoder |
| `Session` | The lifecycle states, the tap rule and the throttle test, shared by both widgets |
| `TcpChart` | The tcpdataviewer widget |
| `MagChart` | The magviewer widget |

Every synchronized method of a widget is one pure step from chart to chart. The
clock reading and the values from the settings store are parameters.
`TcpChart.Run` and `MagChart.Run` replay any sequence of socket and user
events.

The magviewer `update` is modelled twice:
- `MagChart.Update` is the in-place array algorithm, as written, with every
  array access checked.
- `MagChart.UpdateSpec` is a closed-form description of the same algorithm.

The two are proved equal. A bug in its room-making step is described under
Findings. The run model of the magviewer widget uses the corrected step.

## Model

Source paths are relative to the repository root.

| member | source | states |
|---|---|---|
| Bytes.SignedByte | app/src/main/java/ua/dronesapper/tcpdataviewer/DataProtocolParser.kt:32-36 | A byte is read as Kotlin's signed `Byte`. The result lies in [-128, 128) and differs from the unsigned byte by 0 or 256. |
| Bytes.Signed | app/src/main/java/ua/dronesapper/tcpdataviewer/DataProtocolParser.kt:74-83 | An n-byte unsigned value read as two's complement. The result lies in [-2^(8n-1), 2^(8n-1)) and is congruent to the input modulo 256^n. |
| Bytes.LeValueOfEncode | app/src/main/java/ua/dronesapper/tcpdataviewer/DataProtocolParser.kt:70 | Little-endian decoding inverts little-endian encoding, for every value below 256^n. |
| Bytes.LeEncodeOfValue | app/src/main/java/ua/dronesapper/tcpdataviewer/DataProtocolParser.kt:70 | Encoding the little-endian value of any byte sequence gives that sequence back, so the decoding is injective. |
| DataProtocol.ElementTypeOf | app/src/main/java/ua/dronesapper/tcpdataviewer/DataProtocolParser.kt:73-91 | A data type selects an element type exactly when it is 1, 2 or 3. |
| DataProtocol.DecodeElement | app/src/main/java/ua/dronesapper/tcpdataviewer/DataProtocolParser.kt:70-88 | One element read from its bytes always fits its type: an int16 fits 16 bits, an int32 fits 32 bits, a float32 is a 32-bit pattern. |
| DataProtocol.DecodeEncodeElement | app/src/main/java/ua/dronesapper/tcpdataviewer/DataProtocolParser.kt:70-88 | Decoding the little-endian bytes of any value an element can carry returns that value. |
| DataProtocol.EncodeDecodeElement | app/src/main/java/ua/dronesapper/tcpdataviewer/DataProtocolParser.kt:70-88 | Every group of 2 or 4 bytes is the little-endian encoding of the element it decodes to. |
| DataProtocol.ParseBytes | app/src/main/java/ua/dronesapper/tcpdataviewer/DataProtocolParser.kt:30-40 | Raw mode gives one sample per byte, with ids counting up from the current id. |
| DataProtocol.ParseBytesAt | app/src/main/java/ua/dronesapper/tcpdataviewer/DataProtocolParser.kt:30-40 | Raw sample k is byte k read as signed, with id id + k. |
| DataProtocol.ParseBytesAppend | app/src/main/java/ua/dronesapper/tcpdataviewer/DataProtocolParser.kt:30-40 | Raw parsing of a ++ b is raw parsing of a followed by raw parsing of b, whose ids continue after a's. |
| DataProtocol.DecodeElementsCount | app/src/main/java/ua/dronesapper/tcpdataviewer/DataProtocolParser.kt:47-67 | The buffer view yields floor(\|bytes\| / width) elements. |
| DataProtocol.DecodeElementsAt | app/src/main/java/ua/dronesapper/tcpdataviewer/DataProtocolParser.kt:47-67 | Element k is read from bytes [k*w, (k+1)*w) and gets id id + k. |
| DataProtocol.LeftoverAfterWhole | app/src/main/java/ua/dronesapper/tcpdataviewer/DataProtocolParser.kt:93-94 | The kept bytes are exactly those after the last whole element. |
| DataProtocol.DecodeElementsAppend | app/src/main/java/ua/dronesapper/tcpdataviewer/DataProtocolParser.kt:47-96 | Decoding s ++ u gives the elements of s, then the elements of s's leftover ++ u, with ids continuing. |
| DataProtocol.ParseInts | app/src/main/java/ua/dronesapper/tcpdataviewer/DataProtocolParser.kt:69-96 | A data type other than 1, 2 or 3 fails with that type, and the parser stays as it was. Otherwise the ids are consecutive from the current id, the next id advances by the count, the settings stay, and fewer than one element's bytes are kept. |
| DataProtocol.Receive | app/src/main/java/ua/dronesapper/tcpdataviewer/DataProtocolParser.kt:21-28 | A chunk fails exactly when the data type is outside 0..3. A failed chunk has already been appended to the carry. A successful chunk gives samples numbered from the current id, and the next id advances by their count. The settings never change. |
| DataProtocol.ReceiveRaw | app/src/main/java/ua/dronesapper/tcpdataviewer/DataProtocolParser.kt:21-40 | In raw mode, byte k becomes the sample (id + k, signed byte k). Only the id changes, and the carry is not touched. |
| DataProtocol.ReceiveFixed | app/src/main/java/ua/dronesapper/tcpdataviewer/DataProtocolParser.kt:47-96 | In mode 1, 2 or 3 with width w, the count is floor((\|carry\| + \|chunk\|) / w). Element k is decoded from bytes [k*w, (k+1)*w) of carry ++ chunk. The new carry is exactly the bytes after the last whole element, fewer than w of them. |
| DataProtocol.ReceiveSplit | app/src/main/java/ua/dronesapper/tcpdataviewer/DataProtocolParser.kt:21-96 | Receiving a and then b leaves the same parser as receiving a ++ b. It fails exactly when that does, and otherwise gives the same samples with the same ids. |
| DataProtocol.EndianIgnored | app/src/main/java/ua/dronesapper/tcpdataviewer/DataProtocolParser.kt:70 | The byte-order setting never changes samples or carry. |
| DataProtocol.LittleEndianInt16 | app/src/main/java/ua/dronesapper/tcpdataviewer/DataProtocolParser.kt:70-78 | With the big-endian setting in int16 mode, bytes b0 b1 still decode to b0 + 256*b1, read as two's complement. |
| DataProtocol.DecodeEncodeAll | app/src/main/java/ua/dronesapper/tcpdataviewer/DataProtocolParser.kt:47-67 | Decoding the encoding of a run of values returns exactly those values, with consecutive ids. |
| DataProtocol.ReceiveEncoded | app/src/main/java/ua/dronesapper/tcpdataviewer/DataProtocolParser.kt:69-96 | Round trip: with an empty carry, receiving the encoding of whole elements yields those values, leaves the carry empty and advances the id by their count. |
| DataProtocol.Reset | app/src/main/java/ua/dronesapper/tcpdataviewer/DataProtocolParser.kt:42-45 | Ids restart at 0 and the carry is emptied. The protocol settings stay. |
| DataProtocol.LoadProtocol | app/src/main/java/ua/dronesapper/tcpdataviewer/DataProtocolParser.kt:98-103 | The data type is taken unchecked. Byte order is little-endian exactly when its setting is not 0. Ids and carry stay. |
| Samples.LastOfLast | app/src/main/java/ua/dronesapper/tcpdataviewer/SensorLineChart.kt:87-103 | Keeping the newest n twice in a row equals keeping the newest n of everything. |
| Samples.LastEndsBefore | app/src/main/java/ua/dronesapper/tcpdataviewer/SensorLineChart.kt:87-103 | Trimming a window keeps its ids consecutive up to the next id. |
| Session.OnTap | app/src/main/java/ua/dronesapper/tcpdataviewer/SensorLineChart.kt:133-140 | A single tap is ignored exactly when CLEARED, pauses exactly when ACTIVE, and clears exactly when INACTIVE. |
| TcpChart.Create | app/src/main/java/ua/dronesapper/tcpdataviewer/SensorLineChart.kt:71-80 | A new widget is CLEARED, with an empty window, a fresh decoder and the loaded settings, and it satisfies the invariant. |
| TcpChart.TrimEntries | app/src/main/java/ua/dronesapper/tcpdataviewer/SensorLineChart.kt:87-103 | Both eviction branches give the newest plotSizeMax samples of window ++ batch. A negative plotSizeMax gives an empty window, as long as the 32-bit arithmetic does not wrap (see Left out). |
| TcpChart.TrimEntriesBounded | app/src/main/java/ua/dronesapper/tcpdataviewer/SensorLineChart.kt:87-103 | The window size becomes min(\|window\| + \|batch\|, capacity). |
| TcpChart.TrimEntriesTwice | app/src/main/java/ua/dronesapper/tcpdataviewer/SensorLineChart.kt:87-103 | Trimming batch a, then batch b, equals trimming a ++ b. |
| TcpChart.Update | app/src/main/java/ua/dronesapper/tcpdataviewer/SensorLineChart.kt:105-121 | A paused chart is unchanged. A decoder failure draws nothing after the decoder took the bytes. Otherwise the window becomes the newest plotSizeMax of window ++ samples. A frame of the window is drawn exactly when the tick is more than one period past the last frame, and then the chart becomes ACTIVE at that tick. |
| TcpChart.UpdateWhilePaused | app/src/main/java/ua/dronesapper/tcpdataviewer/SensorLineChart.kt:105-109 | A paused chart ignores incoming bytes entirely. |
| TcpChart.Pause | app/src/main/java/ua/dronesapper/tcpdataviewer/SensorLineChart.kt:123-126 | Pausing makes the chart INACTIVE and changes nothing else. |
| TcpChart.Clear | app/src/main/java/ua/dronesapper/tcpdataviewer/SensorLineChart.kt:54-61 | Clearing empties the window, resets the decoder (ids from 0, no carry) and makes the chart CLEARED. It keeps the protocol, the plot settings and the last frame time. |
| TcpChart.Tap | app/src/main/java/ua/dronesapper/tcpdataviewer/SensorLineChart.kt:133-140 | A tap leaves a CLEARED chart alone, pauses an ACTIVE one and clears an INACTIVE one. |
| TcpChart.TapCycle | app/src/main/java/ua/dronesapper/tcpdataviewer/SensorLineChart.kt:133-140 | Pausing by tap keeps the window. Tapping a paused chart empties it, and a second tap changes nothing. A tap never moves the last frame time. |
| TcpChart.OnSettingsUpdated | app/src/main/java/ua/dronesapper/tcpdataviewer/SensorLineChart.kt:199-204 | The new plot settings are installed. The window is emptied, the decoder reset, and the state set to CLEARED. The time of the last frame is kept. |
| TcpChart.OnDataProtocolUpdated | app/src/main/java/ua/dronesapper/tcpdataviewer/SensorLineChart.kt:193-197 | The new data type and byte order are loaded. The window is emptied, ids restart at 0 with an empty carry, and the state is CLEARED. The plot settings and the time of the last frame are kept. |
| TcpChart.Apply | app/src/main/java/ua/dronesapper/tcpdataviewer/SensorLineChart.kt:105-121 | Only data can draw a frame, only when the throttle allows, and a frame records its tick. Other events keep the last frame time, and only a settings change alters the period. |
| TcpChart.ThrottleSpacing | app/src/main/java/ua/dronesapper/tcpdataviewer/SensorLineChart.kt:111-119 | Over any run of events, each frame comes more than one period after the previous frame, or after the last frame before the run. The chart ends up remembering the last frame's time. |
| TcpChart.ThrottlePeriodKept | app/src/main/java/ua/dronesapper/tcpdataviewer/SensorLineChart.kt:112 | Without settings changes, every frame of a run is throttled by the chart's own period. |
| TcpChart.ApplyPreservesWellFormed | app/src/main/java/ua/dronesapper/tcpdataviewer/SensorLineChart.kt:87-121 | Every event keeps the invariant: window ids are consecutive and end just before the decoder's next id, the window is within capacity, and the carry holds no whole element. |
| TcpChart.RunPreservesWellFormed | app/src/main/java/ua/dronesapper/tcpdataviewer/SensorLineChart.kt:87-121 | The invariant holds after any run of events. |
| TcpChart.UpdateSplit | app/src/main/java/ua/dronesapper/tcpdataviewer/SensorLineChart.kt:105-121 | On an active chart with a known data type, two updates with chunks a and b leave the same window and decoder as one update with a ++ b. |
| MagChart.Create | app/src/main/java/ua/dronesapper/magviewer/SensorLineChart.kt:18-26 | A new widget has 30 null slots, cursor 0, id 0 and no frame time, and is CLEARED. |
| MagChart.WriteCount | app/src/main/java/ua/dronesapper/magviewer/SensorLineChart.kt:82 | The number of bytes written never exceeds the bytes received or the free slots. It equals the bytes received unless the slots fill up. |
| MagChart.EvictSlots | app/src/main/java/ua/dronesapper/magviewer/SensorLineChart.kt:69-80 | The in-place shift loop stays in bounds and leaves exactly the slots and cursor of the closed form. |
| MagChart.WriteSlots | app/src/main/java/ua/dronesapper/magviewer/SensorLineChart.kt:82-91 | The write loop stays in bounds. Unless paused, the last bytes that fit go behind the cursor as signed samples with consecutive ids, and the cursor and id advance by their count. |
| MagChart.Update | app/src/main/java/ua/dronesapper/magviewer/SensorLineChart.kt:67-108 | The array algorithm keeps 30 slots with the cursor in range and agrees with the closed form on slots, cursor, ids, state and drawn frame. |
| MagChart.FinishShown | app/src/main/java/ua/dronesapper/magviewer/SensorLineChart.kt:82-91 | After making room, the shown slots are the kept slots followed by the written entries. Ids advance by one per entry, and a paused chart writes nothing. |
| MagChart.FinishFrame | app/src/main/java/ua/dronesapper/magviewer/SensorLineChart.kt:98-107 | A frame is drawn exactly when the chart is not paused and more than 100 ms have passed. It shows slots [0, head) and makes the chart ACTIVE. Otherwise the state and the last frame time stay. |
| MagChart.UpdateShrinksFullWindow | app/src/main/java/ua/dronesapper/magviewer/SensorLineChart.kt:69-80 | As written, a full window plus 5 bytes leaves only 10 slots shown, where keeping the newest 30 would show 30. |
| MagChart.UpdateShowsStale | app/src/main/java/ua/dronesapper/magviewer/SensorLineChart.kt:69-80 | As written, when the overflow `remove` exceeds the cursor, the slots between the old cursor and `remove` become shown unchanged. |
| MagChart.UpdateShowsUnwritten | app/src/main/java/ua/dronesapper/magviewer/SensorLineChart.kt:67-101 | As written, 10 bytes on a new widget and then 35 bytes 101 ms later draw a frame whose slot 10 was never written (null). |
| MagChart.EvictKeepNewest | app/src/main/java/ua/dronesapper/magviewer/SensorLineChart.kt:69-80 | Corrected room-making: the shown slots left are exactly the newest 30 - n of the old ones, or none when n >= 30. |
| MagChart.KeepsNewest | app/src/main/java/ua/dronesapper/magviewer/SensorLineChart.kt:67-91 | With the corrected step, the shown slots after an update are the newest 30 of the old shown slots followed by the last (at most 30) bytes as samples. Ids advance by the count written. |
| MagChart.KeepNewestFilled | app/src/main/java/ua/dronesapper/magviewer/SensorLineChart.kt:67-108 | With the corrected step, an update never makes a null slot visible. |
| MagChart.RunKeepsFilled | app/src/main/java/ua/dronesapper/magviewer/SensorLineChart.kt:67-127 | With the corrected step, over any run of data, pause and tap events, no null slot is ever drawn. |
| MagChart.UpdateWhilePaused | app/src/main/java/ua/dronesapper/magviewer/SensorLineChart.kt:69-91 | As written, while paused nothing is written or drawn, and the ids, state and frame time stay. The room-making step still runs. Bytes that fit leave the shown slots alone. Otherwise the cursor moves to the overflow, or to 0 when the overflow exceeds 30. |
| MagChart.KeepNewestWhilePaused | app/src/main/java/ua/dronesapper/magviewer/SensorLineChart.kt:69-91 | With the corrected step, while paused nothing is written or drawn and ids stay. The shown slots shrink to the newest 30 - n. |
| MagChart.Pause | app/src/main/java/ua/dronesapper/magviewer/SensorLineChart.kt:110-113 | Pausing makes the chart INACTIVE and changes nothing else. |
| MagChart.Clear | app/src/main/java/ua/dronesapper/magviewer/SensorLineChart.kt:50-55 | Clearing shows nothing and makes the chart CLEARED. It keeps the slot contents, the ids and the last frame time. |
| MagChart.Tap | app/src/main/java/ua/dronesapper/magviewer/SensorLineChart.kt:120-127 | A tap leaves a CLEARED chart alone, pauses an ACTIVE one and clears an INACTIVE one. |
| MagChart.TapCycle | app/src/main/java/ua/dronesapper/magviewer/SensorLineChart.kt:120-127 | Pausing by tap keeps the shown slots, and tapping a paused chart hides them all. Ids and the last frame time stay. |
| MagChart.Apply | app/src/main/java/ua/dronesapper/magviewer/SensorLineChart.kt:67-127 | Only data events write. Pause and tap keep the slots and the ids and never grow the shown part. |

## Left out

- The socket, the service that owns it, logging, toasts and all drawing. `setData`, `invalidate` and the data-set objects are reduced to the outcome "this window was drawn".
- The clock and the settings store. The clock reading and the stored settings are parameters of the operations that read them.
- Conversion to `Float`. Sample values stay exact integers, and float32 elements stay raw 32-bit patterns. The precision lost by `toFloat()` on ids above 2^24, or on large int32 values, is not modelled.
- Overflow of the 64-bit `Long` record id and of `mLastUpdate + period`. Both are unbounded integers here.
- `@Synchronized` and threads. Each synchronized method is one atomic step.
- `saveCharts` and the `chartEntries` getter. These only export the window.
- `onDraw`, and every gesture callback other than the single tap. They do nothing.
- The Java variant of the magviewer chart, and the fragments and activities.
- Exceptions. The source throws an exception for an unsupported data type. Here that is an `Err` result, or a `Failed` outcome at the widget, taken after the chunk has been appended to the carry, as in the source.
- Validation at load time. The data type is not validated when loaded, as in the source. A bad type shows up only when the first chunk arrives in a non-raw mode.
- The byte-order setting. It is stored but never read. Elements are always read little-endian, because the decoder hard-codes that byte order.
- A non-strict throttle. The throttle is strict: a frame needs `tick > last + period`, so a tick of exactly one period later draws nothing.
- Re-trimming on a settings change. A settings change clears the window rather than re-trimming it to the new capacity.
- Validation of `plotSizeMax`. A negative `plotSizeMax` keeps nothing, because Kotlin's `slice` over an empty `until` range is empty.
- TcpChart.TrimEntries: does not model the 32-bit `Int` wrap of `available` and `removed`. The setting is parsed from free text, so it can be close to `Int.MIN_VALUE`. When `plotSizeMax` is below about -2^31 + |window| + |batch|, `removed` wraps negative, and the source keeps the whole window and batch where the model keeps nothing. The contract holds for every `plotSizeMax` for which neither subtraction leaves the 32-bit range.
- The corrected magviewer step inside the array algorithm. `MagChart.Update` models `update` as written, room-making step included (see Findings). `MagChart.Apply` and `MagChart.Run` use the corrected step.
- Paused eviction as a defect. A paused magviewer chart still makes room for bytes it then drops. This is kept, both as written (`MagChart.UpdateWhilePaused`) and in the corrected step (`MagChart.KeepNewestWhilePaused`), and is not treated as a defect.

## Findings

| source | as written | input that shows it | evidently intended | confidence | as-written member | corrected member |
|---|---|---|---|---|---|---|
| app/src/main/java/ua/dronesapper/magviewer/SensorLineChart.kt:79 | after shifting the slots down by `remove`, the cursor is set to `remove` | all 30 slots shown, then a 5-byte chunk: the cursor ends at 10, so 20 of the 25 kept entries disappear from the chart | the cursor moves back by `remove` (to 0 when `remove` is at least the cursor), so the newest 30 entries stay shown | not executed | MagChart.UpdateShrinksFullWindow | MagChart.KeepsNewest |
| app/src/main/java/ua/dronesapper/magviewer/SensorLineChart.kt:69-80 | when `remove` exceeds the cursor, the cursor jumps forward to `remove` over slots that hold no current entry | a new widget gets 10 bytes at time 0, then 35 bytes at time 101: slots 10-14 were never written (null), and the frame drawn at time 101 includes them | every shown slot holds an entry | not executed | MagChart.UpdateShowsUnwritten | MagChart.RunKeepsFilled |
