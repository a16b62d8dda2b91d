/** How calibration values are stored: widths, element addresses and the raw bytes of one element
    (src/backend/calibration/map_edit.cpp, scaling_internal.cpp, calibration_service.cpp). */
module CalibrationStorage {
  import opened Results
  import opened Bytes

  datatype StorageType = Uint8 | Uint16 | Uint24 | Uint32 | Int8 | Int16 | Int24 | Int32 | Float | Bloblist

  function StorageByteSize(storage: Option<StorageType>): (w: nat)
    ensures 1 <= w <= 4
  {
    if storage.None? then 1
    else
      match storage.value
      case Uint16 | Int16 => 2
      case Uint24 | Int24 => 3
      case Uint32 | Int32 | Float => 4
      case Uint8 | Int8 | Bloblist => 1
  }

  predicate IsUnsignedStorage(storage: Option<StorageType>) {
    storage.Some? && (storage.value.Uint8? || storage.value.Uint16? || storage.value.Uint24? || storage.value.Uint32?)
  }

  type word64 = w: nat | w < U64

  /** Where a run's elements lie and how they are stored. */
  datatype Layout = Layout(
    address: word64, storage: Option<StorageType>, littleEndian: bool, startPosition: word32, interval: word32)
  {
    function Width(): nat {
      StorageByteSize(storage)
    }

    predicate IsFloat() {
      storage == Some(Float)
    }

    /** Float storage is big-endian whatever the definition says. */
    predicate Little() {
      !IsFloat() && littleEndian
    }

    predicate Numeric() {
      storage.Some? && !storage.value.Bloblist? && startPosition > 0 && interval > 0
    }
  }

  // ---- Addresses --------------------------------------------------------------------------

  function CheckedAdd(l: word64, r: word64): (sum: Option<word64>)
    ensures sum == if l as int + r < U64 then Some(l + r) else None
  {
    if l > U64 - 1 - r then None else Some(l + r)
  }

  function CheckedMultiply(l: word64, r: word64): (product: Option<word64>)
    ensures product == if l as int * r < U64 then Some(l * r) else None
  {
    QuotientBound(l, r);
    if r != 0 && l > (U64 - 1) / r then None else Some(l * r)
  }

  lemma QuotientBound(l: nat, r: nat)
    ensures r > 0 ==> (l > (U64 - 1) / r <==> l * r >= U64)
  {
    if r == 0 {
      return;
    }
    var q, m := (U64 - 1) / r, (U64 - 1) % r;
    assert U64 - 1 == q * r + m;
    if l > q {
      assert l * r >= (q + 1) * r;
    } else {
      assert l * r <= q * r;
    }
  }

  /** Where element `index` starts, in unbounded arithmetic. */
  function ElementAt(layout: Layout, index: nat): nat {
    var start := if layout.startPosition == 0 then 0 else layout.startPosition - 1;
    layout.address as int + start as int * layout.Width() + index * Stride(layout)
  }

  function Stride(layout: Layout): nat {
    layout.Width() * layout.interval as int
  }

  /** The address with every step checked; an overflow gives the largest address, which no ROM
      contains. */
  function ElementByteAddress(layout: Layout, index: word32): (r: word64)
    ensures r == if ElementAt(layout, index) < U64 then ElementAt(layout, index) else U64 - 1
  {
    var start := if layout.startPosition == 0 then 0 else layout.startPosition - 1;
    var startBytes := CheckedMultiply(start, layout.Width());
    var stride := CheckedMultiply(layout.Width(), layout.interval);
    if startBytes.None? || stride.None? then U64 - 1
    else
      var elementOffset := CheckedMultiply(index, stride.value);
      var base := CheckedAdd(layout.address, startBytes.value);
      if elementOffset.None? || base.None? then U64 - 1
      else
        var address := CheckedAdd(base.value, elementOffset.value);
        if address.None? then U64 - 1 else address.value
  }

  /** One past the run's last element. */
  function ElementRunEnd(layout: Layout, count: word32): (r: word64)
    ensures r == if count == 0 then layout.address
                 else if ElementAt(layout, count - 1) + layout.Width() < U64
                 then ElementAt(layout, count - 1) + layout.Width()
                 else U64 - 1
  {
    if count == 0 then layout.address
    else
      var start := if layout.startPosition == 0 then 0 else layout.startPosition - 1;
      var startBytes := CheckedMultiply(start, layout.Width());
      var stride := CheckedMultiply(layout.interval, layout.Width());
      if startBytes.None? || stride.None? then U64 - 1
      else
        var lastOffset := CheckedMultiply(count - 1, stride.value);
        var base := CheckedAdd(layout.address, startBytes.value);
        if lastOffset.None? || base.None? then U64 - 1
        else
          var last := CheckedAdd(base.value, lastOffset.value);
          if last.None? then U64 - 1
          else
            var end := CheckedAdd(last.value, layout.Width());
            if end.None? then U64 - 1 else end.value
  }

  /** Two elements never share a byte. */
  lemma ElementsApart(layout: Layout, i: nat, j: nat)
    requires layout.interval > 0 && i < j
    ensures ElementAt(layout, i) + layout.Width() <= ElementAt(layout, j)
  {
    StridesApart(layout.Width(), layout.interval, i, j);
  }

  lemma StridesApart(width: nat, interval: nat, i: nat, j: nat)
    requires interval > 0 && i < j
    ensures i * (width * interval) + width <= j * (width * interval)
  {
    var stride := width * interval;
    TimesAtLeast(width, interval);
    TimesAtLeast(stride, j - i);
    Distributes(stride, i, j - i);
  }

  lemma TimesAtLeast(x: nat, n: nat)
    requires n > 0
    ensures x * n >= x
  {
    assert x * n == x + x * (n - 1);
  }

  lemma Distributes(x: nat, i: nat, d: nat)
    ensures (i + d) * x == i * x + x * d
  {
  }

  // ---- Raw values -------------------------------------------------------------------------

  /** One past the largest unsigned value of `width` bytes. */
  function Cap(width: nat): (cap: nat)
    ensures cap > 0
  {
    if width == 0 then 1 else if width == 1 then U8 else if width == 2 then U16 else if width == 3 then 0x100_0000 else U32
  }

  /** The byte of weight 256^i. */
  function ByteOf(value: word32, i: nat): byte {
    value / Cap(i) % U8
  }

  /** The element's bytes, in the order of its endianness. */
  function RawBytes(width: nat, little: bool, packed: word32): (b: seq<byte>)
    ensures |b| == width
  {
    seq(width, k requires 0 <= k < width => ByteOf(packed, if little then k else width - 1 - k))
  }

  method WriteRawElement(layout: Layout, raw: int) returns (out: seq<byte>)
    ensures out == RawBytes(layout.Width(), layout.Little(), Wrap32(raw))
  {
    hide ByteOf, StorageByteSize, Wrap32;
    var width := layout.Width();
    var packed := Wrap32(raw);
    var little := layout.Little();
    var buffer := new byte[width](_ => 0);
    for k := 0 to width
      invariant forall i :: 0 <= i < k ==> buffer[i] == ByteOf(packed, if little then i else width - 1 - i)
    {
      buffer[k] := ByteOf(packed, if little then k else width - 1 - k);
    }
    out := buffer[..];
  }

  /** The value of the bytes at `offset`, most significant first; 0 when they do not fit. */
  function ReadUBe(bytes: seq<byte>, offset: nat, width: nat): word32 {
    if width == 1 then (if offset < |bytes| then bytes[offset] else 0)
    else if width == 2 then ReadU16Be(bytes, offset)
    else if width == 3 then
      if !FitsAt(bytes, offset, 3) then 0
      else bytes[offset] as int * 0x1_0000 + bytes[offset + 1] as int * 0x100 + bytes[offset + 2]
    else if width == 4 then ReadU32Be(bytes, offset)
    else 0
  }

  /** The same, least significant first. */
  function ReadULe(bytes: seq<byte>, offset: nat, width: nat): word32 {
    if width == 1 then (if offset < |bytes| then bytes[offset] else 0)
    else if width == 2 then
      if !FitsAt(bytes, offset, 2) then 0 else bytes[offset] as int + bytes[offset + 1] as int * 0x100
    else if width == 3 then
      if !FitsAt(bytes, offset, 3) then 0
      else bytes[offset] as int + bytes[offset + 1] as int * 0x100 + bytes[offset + 2] as int * 0x1_0000
    else if width == 4 then
      if !FitsAt(bytes, offset, 4) then 0
      else
        bytes[offset] as int + bytes[offset + 1] as int * 0x100 + bytes[offset + 2] as int * 0x1_0000
        + bytes[offset + 3] as int * 0x100_0000
    else 0
  }

  function ReadRaw(bytes: seq<byte>, offset: nat, width: nat, little: bool): word32 {
    if little then ReadULe(bytes, offset, width) else ReadUBe(bytes, offset, width)
  }

  /** Reading looks at the element's own bytes only. */
  lemma ReadLocal(bytes: seq<byte>, offset: nat, width: nat, little: bool)
    requires 1 <= width <= 4 && FitsAt(bytes, offset, width)
    ensures ReadRaw(bytes, offset, width, little) == ReadRaw(bytes[offset..offset + width], 0, width, little)
  {
  }

  lemma BytesAddUp(v: word32)
    ensures ByteOf(v, 0) as int == v % U8
    ensures ByteOf(v, 1) as int * 0x100 + ByteOf(v, 0) == v % U16
    ensures ByteOf(v, 2) as int * 0x1_0000 + ByteOf(v, 1) as int * 0x100 + ByteOf(v, 0) == v % 0x100_0000
    ensures ByteOf(v, 3) as int * 0x100_0000 + ByteOf(v, 2) as int * 0x1_0000 + ByteOf(v, 1) as int * 0x100
            + ByteOf(v, 0) == v
  {
    var a, b, c := v / 0x100, v / 0x1_0000, v / 0x100_0000;
    assert v == 0x100 * a + v % 0x100;
    assert a == 0x100 * b + a % 0x100;
    assert b == 0x100 * c + b % 0x100;
    assert v / 1 == v;
  }

  /** Reading back what was written gives the value modulo the width. */
  lemma RawRoundTrip(width: nat, little: bool, packed: word32)
    requires 1 <= width <= 4
    ensures ReadRaw(RawBytes(width, little, packed), 0, width, little) == packed % Cap(width)
  {
    hide ByteOf, RawBytes, ReadUBe, ReadULe, LowBytes;
    LowBytesAre(width, packed);
    if little {
      LittleBytes(width, packed);
    } else {
      BigBytes(width, packed);
    }
  }

  lemma LowBytesAre(width: nat, v: word32)
    requires 1 <= width <= 4
    ensures LowBytes(width, v) == v % Cap(width)
  {
    hide ByteOf;
    BytesAddUp(v);
  }

  lemma LittleBytes(width: nat, v: word32)
    requires 1 <= width <= 4
    ensures ReadULe(RawBytes(width, true, v), 0, width) == LowBytes(width, v)
  {
    hide ByteOf;
  }

  lemma BigBytes(width: nat, v: word32)
    requires 1 <= width <= 4
    ensures ReadUBe(RawBytes(width, false, v), 0, width) == LowBytes(width, v)
  {
    hide ByteOf;
  }

  /** The value of the lowest `width` bytes. */
  function LowBytes(width: nat, v: word32): nat {
    ByteOf(v, 0) as int
    + (if width > 1 then ByteOf(v, 1) as int * 0x100 else 0)
    + (if width > 2 then ByteOf(v, 2) as int * 0x1_0000 else 0)
    + (if width > 3 then ByteOf(v, 3) as int * 0x100_0000 else 0)
  }

  function AsInt32(raw: word32): int {
    if raw >= 0x8000_0000 then raw as int - U32 else raw
  }

  /** A `width`-byte value with its sign carried to the full width. */
  function SignExtend(raw: word32, width: nat): int {
    if width == 0 || width >= 4 then AsInt32(raw)
    else
      var sign := Cap(width) / 2;
      if raw / sign % 2 == 0 then AsInt32(raw) else AsInt32(U32 - Cap(width) + raw % Cap(width))
  }

  /** The integers a storage type holds. */
  function Least(layout: Layout): int {
    if IsUnsignedStorage(layout.storage) then 0 else -(Cap(layout.Width()) / 2)
  }

  function Greatest(layout: Layout): int {
    if IsUnsignedStorage(layout.storage) then Cap(layout.Width()) - 1 else Cap(layout.Width()) / 2 - 1
  }

  /** The number the decoder takes a raw value for. */
  function NumberOf(layout: Layout, raw: word32): int {
    if IsUnsignedStorage(layout.storage) then raw else SignExtend(raw, layout.Width())
  }

  /** Every integer in range is stored and read back exactly. */
  lemma NumberRoundTrip(layout: Layout, v: int)
    requires Least(layout) <= v <= Greatest(layout)
    ensures NumberOf(layout, Wrap32(v) % Cap(layout.Width())) == v
  {
    if IsUnsignedStorage(layout.storage) {
      UnsignedLow(v, layout.Width());
    } else {
      SignedRoundTrip(v, layout.Width());
    }
    hide Cap, SignExtend, Wrap32;
  }

  lemma UnsignedLow(v: int, width: nat)
    requires 1 <= width <= 4 && 0 <= v < Cap(width)
    ensures Wrap32(v) % Cap(width) == v
  {
  }

  lemma SignedRoundTrip(v: int, width: nat)
    requires 1 <= width <= 4 && -(Cap(width) / 2) <= v < Cap(width) / 2
    ensures SignExtend(Wrap32(v) % Cap(width), width) == v
  {
    hide Wrap32, SignExtend, Cap;
    if v >= 0 {
      UnsignedLow(v, width);
    } else {
      NegativeLow(v, width);
    }
    Extends(v, width);
  }

  lemma Extends(v: int, width: nat)
    requires 1 <= width <= 4 && -(Cap(width) / 2) <= v < Cap(width) / 2
    ensures SignExtend(if v >= 0 then v else v + Cap(width), width) == v
  {
    var raw := if v >= 0 then v else v + Cap(width);
    if width == 1 {
      assert raw / 0x80 == if v >= 0 then 0 else 1;
    } else if width == 2 {
      assert raw / 0x8000 == if v >= 0 then 0 else 1;
    } else if width == 3 {
      assert raw / 0x80_0000 == if v >= 0 then 0 else 1;
    }
  }

  lemma NegativeLow(v: int, width: nat)
    requires 1 <= width <= 4 && -(Cap(width) / 2) <= v < 0
    ensures Wrap32(v) % Cap(width) == v + Cap(width)
  {
    assert Wrap32(v) == v + U32;
  }
}
