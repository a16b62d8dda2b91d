/** The stored form told from a layout's fields and the ROM's bytes alone: where an element lies, what
    each of its bytes weighs, which number they stand for and which bytes are written for a number
    (src/backend/calibration/calibration_service.cpp, map_edit.cpp, scaling_internal.cpp). */
module CalibrationBytes {
  import opened Results
  import opened Bytes
  import opened Arithmetic
  import ExpressionParser
  import opened CalibrationStorage
  import opened CalibrationDecode

  /** Element `i` starts `startPosition - 1` elements after the run's address and `i` intervals of the
      storage width on, and the window holds it when it holds those bytes. */
  lemma ElementPlace(rom: Rom, layout: Layout, i: nat)
    requires layout.startPosition > 0
    ensures var s := layout.storage;
            var width := if s in {Some(Uint16), Some(Int16)} then 2 else if s in {Some(Uint24), Some(Int24)} then 3
                         else if s in {Some(Uint32), Some(Int32), Some(Float)} then 4 else 1;
            var start, stride := (layout.startPosition - 1) as int * width, width * layout.interval as int;
            var at := layout.address as int + start + i * stride;
            && layout.Width() == width && ElementAt(layout, i) == at
            && (HoldsElement(rom, layout, i) <==> rom.start <= at && at + width <= rom.start + |rom.data|)
  {
  }

  /** The checked address and run end, in literal 64-bit terms: exact while they fit, and the largest address
      otherwise, which no window reaches. */
  lemma AddressesIn64Bits(rom: Rom, layout: Layout, i: word32, count: word32)
    ensures ElementByteAddress(layout, i) as int
            == if ElementAt(layout, i) <= 0xFFFF_FFFF_FFFF_FFFF then ElementAt(layout, i) else 0xFFFF_FFFF_FFFF_FFFF
    ensures ElementRunEnd(layout, count) as int
            == if count == 0 then layout.address as int
               else if ElementAt(layout, count - 1) + layout.Width() <= 0xFFFF_FFFF_FFFF_FFFF
               then ElementAt(layout, count - 1) + layout.Width()
               else 0xFFFF_FFFF_FFFF_FFFF
    ensures rom.Valid() <==> rom.start + |rom.data| < 0xFFFF_FFFF_FFFF_FFFF
  {
    hide ElementAt, StorageByteSize;
  }

  /** A run decodes when its storage is an integer or a float, its start and interval are not zero and
      its elements lie in the window. */
  lemma DecodableByFields(rom: Rom, run: Run)
    ensures Decodable(rom, run) <==>
            && run.layout.storage in {Some(Uint8), Some(Uint16), Some(Uint24), Some(Uint32), Some(Int8), Some(Int16),
                                      Some(Int24), Some(Int32), Some(Float)}
            && run.layout.startPosition > 0 && run.layout.interval > 0
            && rom.start <= run.layout.address <= rom.start + |rom.data|
            && forall i: nat :: i < run.count ==> HoldsElement(rom, run.layout, i)
  {
    hide ElementAt, StorageByteSize;
    if Decodable(rom, run) {
      forall i: nat | i < run.count
        ensures HoldsElement(rom, run.layout, i)
      {
        ElementInside(rom, run, i);
      }
      if run.count > 0 {
        FromAddress(run.layout, 0);
        assert HoldsElement(rom, run.layout, 0);
      }
    }
  }

  /** The raw value of an element: byte `j` weighs 256^j in a little-endian element that is not a float,
      and 256^(width - 1 - j) in every other. */
  lemma ElementByBytes(rom: Rom, layout: Layout, i: nat)
    requires HoldsElement(rom, layout, i)
    ensures var d, at := rom.data, ElementAt(layout, i) - rom.start;
            var raw := ElementRaw(rom, layout, i) as int;
            && 0 <= at && at + layout.Width() <= |d|
            && if layout.littleEndian && layout.storage != Some(Float)
               then match layout.Width()
                 case 1 => raw == d[at] as int
                 case 2 => raw == d[at] as int + d[at + 1] as int * 0x100
                 case 3 => raw == d[at] as int + d[at + 1] as int * 0x100 + d[at + 2] as int * 0x1_0000
                 case _ => raw == d[at] as int + d[at + 1] as int * 0x100 + d[at + 2] as int * 0x1_0000
                                  + d[at + 3] as int * 0x100_0000
               else match layout.Width()
                 case 1 => raw == d[at] as int
                 case 2 => raw == d[at] as int * 0x100 + d[at + 1] as int
                 case 3 => raw == d[at] as int * 0x1_0000 + d[at + 1] as int * 0x100 + d[at + 2] as int
                 case _ => raw == d[at] as int * 0x100_0000 + d[at + 1] as int * 0x1_0000 + d[at + 2] as int * 0x100
                                  + d[at + 3] as int
  {
    hide ElementAt, StorageByteSize;
    var bytes, at := ElementBytes(rom, layout, i), ElementAt(layout, i) - rom.start;
    assert forall j :: 0 <= j < |bytes| ==> bytes[j] == rom.data[at + j];
  }

  /** The bytes written for a value, by the same weights. */
  lemma WrittenByBytes(layout: Layout, raw: int)
    ensures var packed := raw % 0x1_0000_0000;
            var out := RawBytes(layout.Width(), layout.Little(), Wrap32(raw));
            && |out| == layout.Width()
            && if layout.littleEndian && layout.storage != Some(Float)
               then match layout.Width()
                 case 1 => out == [packed % 0x100]
                 case 2 => out == [packed % 0x100, packed / 0x100 % 0x100]
                 case 3 => out == [packed % 0x100, packed / 0x100 % 0x100, packed / 0x1_0000 % 0x100]
                 case _ => out == [packed % 0x100, packed / 0x100 % 0x100, packed / 0x1_0000 % 0x100, packed / 0x100_0000]
               else match layout.Width()
                 case 1 => out == [packed % 0x100]
                 case 2 => out == [packed / 0x100 % 0x100, packed % 0x100]
                 case 3 => out == [packed / 0x1_0000 % 0x100, packed / 0x100 % 0x100, packed % 0x100]
                 case _ => out == [packed / 0x100_0000, packed / 0x1_0000 % 0x100, packed / 0x100 % 0x100, packed % 0x100]
  {
    hide StorageByteSize;
    var packed := Wrap32(raw);
    assert ByteOf(packed, 0) as int == packed % 0x100 && ByteOf(packed, 1) as int == packed / 0x100 % 0x100;
    assert ByteOf(packed, 2) as int == packed / 0x1_0000 % 0x100 && ByteOf(packed, 3) as int == packed / 0x100_0000;
    hide ByteOf, Wrap32;
  }

  /** What the decoder shows for a raw value: the scaling text evaluated at its number, and zero for a
      selectable element. */
  lemma CellByFields(a: Arithmetic, m: Numerics, run: Run, raw: word32)
    requires a.Valid()
    ensures var value := ExpressionParser.OneShot(a, run.fromByte, RawValue(m, run.layout, raw));
            CellOf(a, m, run, raw)
            == if run.isSelectable then Some(m.zero) else if value.Ok? then Some(value.value) else None
  {
    hide RawValue, Evaluated, ExpressionParser.OneShot;
    EvaluatedIsOneShot(a, run.fromByte, RawValue(m, run.layout, raw));
  }

  /** The number a raw value stands for: itself when the storage is unsigned, two's complement of the
      storage width otherwise. */
  lemma NumberByStorage(m: Numerics, layout: Layout, raw: word32)
    requires layout.storage.Some?
    ensures match layout.storage.value
            case Uint8 | Uint16 | Uint24 | Uint32 => RawValue(m, layout, raw) == m.fromInteger(raw)
            case Int8 => raw < 0x100 ==>
              RawValue(m, layout, raw) == m.fromInteger(if raw < 0x80 then raw else raw as int - 0x100)
            case Int16 => raw < 0x1_0000 ==>
              RawValue(m, layout, raw) == m.fromInteger(if raw < 0x8000 then raw else raw as int - 0x1_0000)
            case Int24 => raw < 0x100_0000 ==>
              RawValue(m, layout, raw) == m.fromInteger(if raw < 0x80_0000 then raw else raw as int - 0x100_0000)
            case Int32 =>
              RawValue(m, layout, raw) == m.fromInteger(if raw < 0x8000_0000 then raw else raw as int - 0x1_0000_0000)
            case Float => RawValue(m, layout, raw) == m.fromFloatBits(raw)
            case Bloblist => true
  {
    hide SignExtend;
    match layout.storage.value
    case Int8 => TwosComplement(raw, 1);
    case Int16 => TwosComplement(raw, 2);
    case Int24 => TwosComplement(raw, 3);
    case Int32 => TwosComplement(raw, 4);
    case _ =>
  }

  lemma TwosComplement(raw: word32, width: nat)
    requires 1 <= width <= 4
    ensures raw < Cap(width) ==> SignExtend(raw, width) == if raw < Cap(width) / 2 then raw else raw as int - Cap(width)
  {
    hide SignExtend;
    if raw < Cap(width) {
      Extends(if raw < Cap(width) / 2 then raw else raw as int - Cap(width), width);
    }
  }

  /** The integers each storage type takes. */
  lemma RangeByStorage(layout: Layout)
    requires layout.storage.Some?
    ensures match layout.storage.value
            case Uint8 => Least(layout) == 0 && Greatest(layout) == 0xFF
            case Uint16 => Least(layout) == 0 && Greatest(layout) == 0xFFFF
            case Uint24 => Least(layout) == 0 && Greatest(layout) == 0xFF_FFFF
            case Uint32 => Least(layout) == 0 && Greatest(layout) == 0xFFFF_FFFF
            case Int8 => Least(layout) == -0x80 && Greatest(layout) == 0x7F
            case Int16 => Least(layout) == -0x8000 && Greatest(layout) == 0x7FFF
            case Int24 => Least(layout) == -0x80_0000 && Greatest(layout) == 0x7F_FFFF
            case Int32 => Least(layout) == -0x8000_0000 && Greatest(layout) == 0x7FFF_FFFF
            case Float | Bloblist => true
  {
  }
}
