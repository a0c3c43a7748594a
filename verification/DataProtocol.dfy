/**
 * The protocol decoder of tcpdataviewer: a stateful transformer from chunks
 * of bytes to chart samples.  In raw mode every byte is a sample; in the
 * fixed-width modes bytes accumulate in a carry buffer and as many whole
 * elements as fit are decoded from its front, always little-endian.
 */
module DataProtocol {
  import opened Wrappers
  import opened Bytes
  import opened Samples

  /** The byte order setting; stored by the parser but never consulted. */
  datatype ByteOrder = BigEndian | LittleEndian

  /** The fixed-width element types, selected by data type setting 1, 2 and 3. */
  datatype ElementType = Int16 | Int32 | Float32

  /** Why a chunk could not be decoded. */
  datatype DecodeError = UnsupportedDataType(dtype: int)

  /**
   * The decoder's state: the next record id, the protocol settings and the
   * carry of received bytes not yet decoded.  The data type is kept as the
   * integer read from the settings, unchecked.
   */
  datatype Parser = Parser(recordId: nat, endian: ByteOrder, dtype: int, carry: seq<Byte>)

  /** The result of one `receive`: the new state, and the samples or the failure. */
  datatype Received = Received(parser: Parser, samples: Result<seq<Sample>, DecodeError>)

  /** A freshly constructed parser: raw mode, big-endian setting, nothing received. */
  function Init(): (p: Parser)
    ensures p.recordId == 0 && p.carry == [] && p.dtype == 0
  {
    Parser(0, BigEndian, 0, [])
  }

  /** The element type a data type setting selects, if any (0 is raw mode). */
  function ElementTypeOf(dtype: int): (t: Option<ElementType>)
    ensures t.Some? <==> dtype in {1, 2, 3}
  {
    if dtype == 1 then Some(Int16)
    else if dtype == 2 then Some(Int32)
    else if dtype == 3 then Some(Float32)
    else None
  }

  /** Bytes per element: 2 for int16, 4 for int32 and float32. */
  function Width(t: ElementType): (w: nat)
    ensures w == 2 || w == 4
  {
    match t
    case Int16 => 2
    case Int32 => 4
    case Float32 => 4
  }

  /** The values an element of type t can carry. */
  predicate Representable(t: ElementType, v: Value)
  {
    match t
    case Int16 => v.Int? && -0x8000 <= v.n < 0x8000
    case Int32 => v.Int? && -0x8000_0000 <= v.n < 0x8000_0000
    case Float32 => v.Float32Bits? && v.bits < 0x1_0000_0000
  }

  /**
   * One element read from its bytes, little-endian whatever the byte order
   * setting says: two's complement for the integer types, the raw bit pattern
   * for float32.
   */
  function DecodeElement(t: ElementType, bs: seq<Byte>): (v: Value)
    requires |bs| == Width(t)
    ensures Representable(t, v)
  {
    match t
    case Int16 => Int(Signed(LeValue(bs), 2))
    case Int32 => Int(Signed(LeValue(bs), 4))
    case Float32 => Float32Bits(LeValue(bs))
  }

  /** The bytes a little-endian sender puts on the wire for one element. */
  function EncodeElement(t: ElementType, v: Value): (bs: seq<Byte>)
    requires Representable(t, v)
    ensures |bs| == Width(t)
  {
    match t
    case Int16 => LeEncode(Unsigned(v.n, 2), 2)
    case Int32 => LeEncode(Unsigned(v.n, 4), 4)
    case Float32 => LeEncode(v.bits, 4)
  }

  /** Decoding the little-endian encoding of a value gives the value back. */
  lemma DecodeEncodeElement(t: ElementType, v: Value)
    requires Representable(t, v)
    ensures DecodeElement(t, EncodeElement(t, v)) == v
  {
    match t
    case Int16 => LeValueOfEncode(Unsigned(v.n, 2), 2);
    case Int32 => LeValueOfEncode(Unsigned(v.n, 4), 4);
    case Float32 => LeValueOfEncode(v.bits, 4);
  }

  /** Every group of Width(t) bytes is the encoding of the element it decodes to. */
  lemma EncodeDecodeElement(t: ElementType, bs: seq<Byte>)
    requires |bs| == Width(t)
    ensures EncodeElement(t, DecodeElement(t, bs)) == bs
  {
    LeEncodeOfValue(bs);
  }

  /** (n - w) / w + 1 == n / w, for the two element widths. */
  lemma DivStep(n: nat, w: nat)
    requires (w == 2 || w == 4) && n >= w
    ensures (n - w) / w + 1 == n / w
  {
  }

  /**
   * Raw mode (`parseBytes`): one sample per byte, in order, with ids counting
   * up from id; ParseBytesAt gives each sample's value.
   */
  function ParseBytes(data: seq<Byte>, id: nat): (r: seq<Sample>)
    ensures |r| == |data|
    ensures NumberedFrom(r, id)
    decreases |data|
  {
    if |data| == 0 then [] else [Sample(id, Int(SignedByte(data[0])))] + ParseBytes(data[1..], id + 1)
  }

  /** Sample k of raw mode is byte k read as signed, with id id + k. */
  lemma {:induction false} ParseBytesAt(data: seq<Byte>, id: nat, k: nat)
    requires k < |data|
    ensures ParseBytes(data, id)[k] == Sample(id + k, Int(SignedByte(data[k])))
    decreases k
  {
    if k > 0 {
      ParseBytesAt(data[1..], id + 1, k - 1);
    }
  }

  /**
   * Fixed-width mode (`getEntriesFromBuffer` over a typed view of the carry):
   * the whole elements at the front of bs, in order, with ids counting up from
   * id.  DecodeElementsAt says which bytes each one is read from.
   */
  function DecodeElements(t: ElementType, bs: seq<Byte>, id: nat): (r: seq<Sample>)
    ensures NumberedFrom(r, id)
    decreases |bs|
  {
    var w := Width(t);
    if |bs| < w then []
    else [Sample(id, DecodeElement(t, bs[..w]))] + DecodeElements(t, bs[w..], id + 1)
  }

  /** As many elements as fit: floor(|bs| / w). */
  lemma {:induction false} DecodeElementsCount(t: ElementType, bs: seq<Byte>, id: nat)
    ensures |DecodeElements(t, bs, id)| == |bs| / Width(t)
    decreases |bs|
  {
    var w := Width(t);
    if |bs| >= w {
      DecodeElementsCount(t, bs[w..], id + 1);
      DivStep(|bs|, w);
    }
  }

  /** Element k of bs is element k - 1 of what follows its first element. */
  lemma ElementAfterFirst(bs: seq<Byte>, w: nat, k: nat)
    requires (w == 2 || w == 4) && 1 <= k && k * w + w <= |bs|
    ensures (k - 1) * w + w == k * w
    ensures bs[w..][(k - 1) * w..(k - 1) * w + w] == bs[k * w..k * w + w]
  {
  }

  /** Sample k of DecodeElements is read from bytes [k*w, (k+1)*w). */
  lemma {:induction false} DecodeElementsAt(t: ElementType, bs: seq<Byte>, id: nat, k: nat)
    requires k < |DecodeElements(t, bs, id)|
    ensures k * Width(t) + Width(t) <= |bs|
    ensures DecodeElements(t, bs, id)[k]
      == Sample(id + k, DecodeElement(t, bs[k * Width(t)..k * Width(t) + Width(t)]))
    decreases k
  {
    var w := Width(t);
    LeftoverAfterWhole(t, bs, id);
    if k > 0 {
      DecodeElementsAt(t, bs[w..], id + 1, k - 1);
      ElementAfterFirst(bs, w, k);
    }
  }

  /**
   * `parseInts`: decode the whole elements at the front of the carry and keep
   * the bytes after them as the new carry; a data type other than 1, 2 or 3
   * fails, leaving the parser as it was.
   */
  function ParseInts(p: Parser): (r: Received)
    ensures r.parser.dtype == p.dtype && r.parser.endian == p.endian
    ensures r.samples.Err? <==> ElementTypeOf(p.dtype).None?
    ensures r.samples.Err? ==> r.samples.error == UnsupportedDataType(p.dtype) && r.parser == p
    ensures r.samples.Ok? ==>
      NumberedFrom(r.samples.value, p.recordId) &&
      r.parser.recordId == p.recordId + |r.samples.value| &&
      |r.parser.carry| < Width(ElementTypeOf(p.dtype).value)
  {
    match ElementTypeOf(p.dtype)
    case None => Received(p, Err(UnsupportedDataType(p.dtype)))
    case Some(t) =>
      var samples := DecodeElements(t, p.carry, p.recordId);
      LeftoverAfterWhole(t, p.carry, p.recordId);
      Received(p.(recordId := p.recordId + |samples|, carry := p.carry[|samples| * Width(t)..]), Ok(samples))
  }

  /**
   * `receive`: in raw mode the chunk becomes samples directly and the carry is
   * left alone; otherwise the chunk is appended to the carry first and then
   * parsed, so an unknown data type fails after the chunk has been appended.
   */
  function Receive(p: Parser, data: seq<Byte>): (r: Received)
    ensures r.parser.dtype == p.dtype && r.parser.endian == p.endian
    ensures r.samples.Err? <==> p.dtype !in {0, 1, 2, 3}
    ensures r.samples.Err? ==>
      r.samples.error == UnsupportedDataType(p.dtype) &&
      r.parser == p.(carry := p.carry + data)
    ensures r.samples.Ok? ==>
      NumberedFrom(r.samples.value, p.recordId) &&
      r.parser.recordId == p.recordId + |r.samples.value|
  {
    if p.dtype == 0 then
      var samples := ParseBytes(data, p.recordId);
      Received(p.(recordId := p.recordId + |samples|), Ok(samples))
    else
      ParseInts(p.(carry := p.carry + data))
  }

  /** `reset`: ids restart at 0 and the carry is emptied; the settings stay. */
  function Reset(p: Parser): (r: Parser)
    ensures r.recordId == 0 && r.carry == []
    ensures r.dtype == p.dtype && r.endian == p.endian
  {
    p.(recordId := 0, carry := [])
  }

  /**
   * `loadProtocol`, with the two settings passed in: the data type is taken
   * as is, and any byte order setting other than 0 means little-endian.
   */
  function LoadProtocol(p: Parser, dtypeSetting: int, endianSetting: int): (r: Parser)
    ensures r.dtype == dtypeSetting
    ensures r.endian == LittleEndian <==> endianSetting != 0
    ensures r.recordId == p.recordId && r.carry == p.carry
  {
    p.(dtype := dtypeSetting, endian := if endianSetting == 0 then BigEndian else LittleEndian)
  }

  /** In raw mode every byte is one sample, in order, and the carry is not touched. */
  lemma ReceiveRaw(p: Parser, data: seq<Byte>)
    requires p.dtype == 0
    ensures var r := Receive(p, data);
      r.samples.Ok? && |r.samples.value| == |data| &&
      (forall k :: 0 <= k < |data| ==>
        r.samples.value[k] == Sample(p.recordId + k, Int(SignedByte(data[k])))) &&
      r.parser == p.(recordId := p.recordId + |data|)
  {
    forall k | 0 <= k < |data|
      ensures ParseBytes(data, p.recordId)[k] == Sample(p.recordId + k, Int(SignedByte(data[k])))
    {
      ParseBytesAt(data, p.recordId, k);
    }
  }

  /**
   * In a fixed-width mode the count is floor((|carry| + |data|) / w), element k
   * is read from bytes [k*w, (k+1)*w) of carry ++ data, and exactly the bytes
   * after the last whole element stay as carry: fewer than w of them.
   */
  lemma ReceiveFixed(p: Parser, data: seq<Byte>, t: ElementType)
    requires ElementTypeOf(p.dtype) == Some(t)
    ensures var r := Receive(p, data);
      var all := p.carry + data;
      var w := Width(t);
      r.samples.Ok? &&
      |r.samples.value| == |all| / w &&
      (forall k :: 0 <= k < |r.samples.value| ==>
        k * w + w <= |all| &&
        r.samples.value[k] == Sample(p.recordId + k, DecodeElement(t, all[k * w..k * w + w]))) &&
      |r.samples.value| * w <= |all| &&
      r.parser.carry == all[|r.samples.value| * w..] &&
      |r.parser.carry| < w
  {
    ReceiveAsLeftover(p, data, t);
    WholeElements(t, p.carry + data, p.recordId);
  }

  /** Everything about the whole elements at the front of bs, in one place. */
  lemma WholeElements(t: ElementType, bs: seq<Byte>, id: nat)
    ensures var e := DecodeElements(t, bs, id);
      var w := Width(t);
      |e| == |bs| / w &&
      (forall k :: 0 <= k < |e| ==>
        k * w + w <= |bs| && e[k] == Sample(id + k, DecodeElement(t, bs[k * w..k * w + w]))) &&
      |e| * w <= |bs| &&
      Leftover(t, bs) == bs[|e| * w..]
  {
    var e := DecodeElements(t, bs, id);
    DecodeElementsCount(t, bs, id);
    LeftoverAfterWhole(t, bs, id);
    forall k | 0 <= k < |e|
      ensures k * Width(t) + Width(t) <= |bs|
      ensures e[k] == Sample(id + k, DecodeElement(t, bs[k * Width(t)..k * Width(t) + Width(t)]))
    {
      DecodeElementsAt(t, bs, id, k);
    }
  }

  /** Elements n*w.. of s are elements (n-1)*w.. of what follows the first element. */
  lemma DropWhole(s: seq<Byte>, w: nat, n: nat)
    requires (w == 2 || w == 4) && 1 <= n && n * w <= |s|
    ensures s[w..][(n - 1) * w..] == s[n * w..]
  {
    assert (n - 1) * w + w == n * w;
  }

  /** The bytes left over once all whole elements are taken from the front of bs. */
  function Leftover(t: ElementType, bs: seq<Byte>): (r: seq<Byte>)
    ensures |r| < Width(t) && |r| <= |bs|
    decreases |bs|
  {
    if |bs| < Width(t) then bs else Leftover(t, bs[Width(t)..])
  }

  /** The leftover is what follows the bytes of the decoded elements. */
  lemma {:induction false} LeftoverAfterWhole(t: ElementType, bs: seq<Byte>, id: nat)
    ensures var n := |DecodeElements(t, bs, id)|;
      n * Width(t) <= |bs| && Leftover(t, bs) == bs[n * Width(t)..]
    decreases |bs|
  {
    var w := Width(t);
    if |bs| >= w {
      var n := |DecodeElements(t, bs, id)|;
      LeftoverAfterWhole(t, bs[w..], id + 1);
      assert n - 1 == |DecodeElements(t, bs[w..], id + 1)|;
      DropWhole(bs, w, n);
    }
  }

  /**
   * Decoding s ++ u decodes the whole elements of s first, then whatever
   * their leftover bytes form together with u.
   */
  lemma {:induction false} DecodeElementsAppend(t: ElementType, s: seq<Byte>, u: seq<Byte>, id: nat)
    ensures var e := DecodeElements(t, s, id);
      DecodeElements(t, s + u, id) == e + DecodeElements(t, Leftover(t, s) + u, id + |e|)
    decreases |s|
  {
    var w := Width(t);
    if |s| >= w {
      assert (s + u)[..w] == s[..w];
      assert (s + u)[w..] == s[w..] + u;
      DecodeElementsAppend(t, s[w..], u, id + 1);
    }
  }

  /** Taking whole elements from s ++ u leaves what s's leftover and u leave. */
  lemma {:induction false} LeftoverAppend(t: ElementType, s: seq<Byte>, u: seq<Byte>)
    ensures Leftover(t, s + u) == Leftover(t, Leftover(t, s) + u)
    decreases |s|
  {
    var w := Width(t);
    if |s| >= w {
      assert (s + u)[w..] == s[w..] + u;
      LeftoverAppend(t, s[w..], u);
    }
  }

  /** A fixed-width receive, with the new carry described as the leftover. */
  lemma ReceiveAsLeftover(p: Parser, data: seq<Byte>, t: ElementType)
    requires ElementTypeOf(p.dtype) == Some(t)
    ensures var e := DecodeElements(t, p.carry + data, p.recordId);
      Receive(p, data) == Received(
        p.(recordId := p.recordId + |e|, carry := Leftover(t, p.carry + data)), Ok(e))
  {
    LeftoverAfterWhole(t, p.carry + data, p.recordId);
  }

  /** Chunk-boundary independence in a fixed-width mode. */
  lemma ReceiveSplitFixed(p: Parser, a: seq<Byte>, b: seq<Byte>, t: ElementType)
    requires ElementTypeOf(p.dtype) == Some(t)
    ensures var r1 := Receive(p, a);
      var r2 := Receive(r1.parser, b);
      var r := Receive(p, a + b);
      r2.parser == r.parser && r.samples.Ok? && r1.samples.Ok? && r2.samples.Ok? &&
      r.samples.value == r1.samples.value + r2.samples.value
  {
    var id := p.recordId;
    var all1 := p.carry + a;
    var e1 := DecodeElements(t, all1, id);
    ReceiveAsLeftover(p, a, t);
    var p1 := Receive(p, a).parser;
    assert p1.carry + b == Leftover(t, all1) + b;
    ReceiveAsLeftover(p1, b, t);
    ConcatAssoc(p.carry, a, b);
    DecodeElementsAppend(t, all1, b, id);
    LeftoverAppend(t, all1, b);
    ReceiveAsLeftover(p, a + b, t);
  }

  /** Concatenation is associative. */
  lemma ConcatAssoc<T>(x: seq<T>, y: seq<T>, z: seq<T>)
    ensures x + (y + z) == (x + y) + z
  {
  }

  /** Chunk-boundary independence in raw mode. */
  lemma ReceiveSplitRaw(p: Parser, a: seq<Byte>, b: seq<Byte>)
    requires p.dtype == 0
    ensures var r1 := Receive(p, a);
      var r2 := Receive(r1.parser, b);
      var r := Receive(p, a + b);
      r2.parser == r.parser && r.samples.Ok? && r1.samples.Ok? && r2.samples.Ok? &&
      r.samples.value == r1.samples.value + r2.samples.value
  {
    ParseBytesAppend(a, b, p.recordId);
    ReceiveRawIs(p, a);
    ReceiveRawIs(p.(recordId := p.recordId + |a|), b);
    ReceiveRawIs(p, a + b);
  }

  /** A raw-mode receive, spelled out. */
  lemma ReceiveRawIs(p: Parser, data: seq<Byte>)
    requires p.dtype == 0
    ensures Receive(p, data) == Received(p.(recordId := p.recordId + |data|), Ok(ParseBytes(data, p.recordId)))
  {
  }

  /** Raw parsing of a ++ b is raw parsing of a, then of b with the ids that follow. */
  lemma {:induction false} ParseBytesAppend(a: seq<Byte>, b: seq<Byte>, id: nat)
    ensures ParseBytes(a + b, id) == ParseBytes(a, id) + ParseBytes(b, id + |a|)
    decreases |a|
  {
    if |a| == 0 {
      assert a + b == b;
    } else {
      assert (a + b)[1..] == a[1..] + b;
      ParseBytesAppend(a[1..], b, id + 1);
    }
  }

  /**
   * Chunk-boundary independence: receiving a and then b leaves the parser in
   * the same state as receiving a ++ b at once, fails exactly when it does, and
   * otherwise yields the same samples with the same ids.
   */
  lemma ReceiveSplit(p: Parser, a: seq<Byte>, b: seq<Byte>)
    ensures var r1 := Receive(p, a);
      var r2 := Receive(r1.parser, b);
      var r := Receive(p, a + b);
      r2.parser == r.parser &&
      (r.samples.Ok? <==> r1.samples.Ok? && r2.samples.Ok?) &&
      (r.samples.Ok? ==> r.samples.value == r1.samples.value + r2.samples.value)
  {
    if p.dtype == 0 {
      ReceiveSplitRaw(p, a, b);
    } else if ElementTypeOf(p.dtype).Some? {
      ReceiveSplitFixed(p, a, b, ElementTypeOf(p.dtype).value);
    } else {
      assert p.carry + (a + b) == p.carry + a + b;
    }
  }

  /**
   * The byte order setting has no effect: every multi-byte element is read
   * little-endian, so the same chunk yields the same samples and carry under
   * either setting.
   */
  lemma EndianIgnored(p: Parser, data: seq<Byte>, e: ByteOrder)
    ensures var r := Receive(p, data);
      var r' := Receive(p.(endian := e), data);
      r'.samples == r.samples && r'.parser == r.parser.(endian := e)
  {
  }

  /** An int16 is b0 + 256 * b1 read as two's complement, even with the big-endian setting. */
  lemma LittleEndianInt16(b0: Byte, b1: Byte)
    ensures var p := Parser(0, BigEndian, 1, []);
      Receive(p, [b0, b1]).samples == Ok([Sample(0, Int(Signed(b0 + 0x100 * b1, 2)))])
  {
    var p := Parser(0, BigEndian, 1, []);
    var bs := [b0, b1];
    assert LeValue(bs) == b0 + 0x100 * b1 by {
      assert bs[1..] == [b1];
      assert [b1][1..] == [];
    }
    assert p.carry + bs == bs;
    assert bs[..2] == bs && bs[2..] == [];
    assert DecodeElements(Int16, bs, 0) == [Sample(0, DecodeElement(Int16, bs))];
  }

  /** What a little-endian sender puts on the wire for a run of values. */
  function EncodeAll(t: ElementType, vs: seq<Value>): (bs: seq<Byte>)
    requires forall k :: 0 <= k < |vs| ==> Representable(t, vs[k])
    ensures |bs| == |vs| * Width(t)
  {
    if |vs| == 0 then [] else EncodeElement(t, vs[0]) + EncodeAll(t, vs[1..])
  }

  /**
   * Round trip: a parser in a fixed-width mode with an empty carry turns the
   * encoding of a run of values back into exactly those values, with ids
   * counting up, and keeps no carry.
   */
  lemma {:induction false} DecodeEncodeAll(t: ElementType, vs: seq<Value>, id: nat)
    requires forall k :: 0 <= k < |vs| ==> Representable(t, vs[k])
    ensures var e := DecodeElements(t, EncodeAll(t, vs), id);
      |e| == |vs| && forall k :: 0 <= k < |vs| ==> e[k] == Sample(id + k, vs[k])
    decreases |vs|
  {
    if |vs| > 0 {
      var w := Width(t);
      var head := EncodeElement(t, vs[0]);
      var bs := EncodeAll(t, vs);
      assert bs == head + EncodeAll(t, vs[1..]);
      assert bs[..w] == head;
      assert bs[w..] == EncodeAll(t, vs[1..]);
      DecodeEncodeElement(t, vs[0]);
      DecodeEncodeAll(t, vs[1..], id + 1);
      var e := DecodeElements(t, bs, id);
      var rest := DecodeElements(t, bs[w..], id + 1);
      assert e == [Sample(id, DecodeElement(t, bs[..w]))] + rest;
    }
  }

  /** Receiving the encoding of whole elements yields them and leaves the carry empty. */
  lemma ReceiveEncoded(p: Parser, t: ElementType, vs: seq<Value>)
    requires ElementTypeOf(p.dtype) == Some(t) && p.carry == []
    requires forall k :: 0 <= k < |vs| ==> Representable(t, vs[k])
    ensures var r := Receive(p, EncodeAll(t, vs));
      r.samples.Ok? && |r.samples.value| == |vs| &&
      (forall k :: 0 <= k < |vs| ==> r.samples.value[k].value == vs[k]) &&
      r.parser.carry == [] && r.parser.recordId == p.recordId + |vs|
  {
    var bs := EncodeAll(t, vs);
    assert p.carry + bs == bs;
    DecodeEncodeAll(t, vs, p.recordId);
  }
}
