/** Reading a numeric run from a ROM window (src/backend/calibration/calibration_service.cpp,
    definition_bytes.h). */
module CalibrationDecode {
  import opened Results
  import opened Bytes
  import opened Arithmetic
  import opened Expression
  import opened ExpressionGrammar
  import ExpressionParser
  import opened CalibrationStorage

  /** The conversions between numbers and stored values, left abstract. Rounding gives an integer. */
  datatype Numerics = Numerics(
    zero: Double,
    one: Double,
    minusOne: Double,
    less: (Double, Double) -> bool,
    same: (Double, Double) -> bool,
    round: Double -> int,
    fromInteger: int -> Double,
    beyondFloat: Double -> bool,
    floatBits: Double -> word32,
    fromFloatBits: word32 -> Double)

  /** The ROM bytes from definition address `start` on. */
  datatype Rom = Rom(start: nat, data: seq<byte>) {

    /** The last two 64-bit addresses lie outside every ROM: an overflowed address is the last. */
    predicate Valid() {
      start + |data| < U64 - 1
    }

    function End(): nat {
      start + |data|
    }

    predicate Holds(address: nat, size: nat) {
      start <= address && address + size <= End()
    }

    function At(address: nat, size: nat): (r: Option<seq<byte>>)
      ensures r.Some? <==> Holds(address, size)
    {
      if address < start then None
      else
        var offset := address - start;
        if offset > |data| || size > |data| - offset then None else Some(data[offset..offset + size])
    }
  }

  /** The value of a text at `x`, as one-shot evaluation gives it. */
  function Evaluated(a: Arithmetic, text: string, x: Double): Option<Double>
    requires a.Valid()
  {
    if !a.isFinite(x) || ParseText(a, text).Err? then None
    else
      var value := Eval(a, ParseText(a, text).value, x);
      if value.Ok? then Some(value.value) else None
  }

  lemma EvaluatedIsOneShot(a: Arithmetic, text: string, x: Double)
    requires a.Valid()
    ensures var value := ExpressionParser.OneShot(a, text, x);
            Evaluated(a, text, x) == if value.Ok? then Some(value.value) else None
  {
    hide ParseText, Folded, Eval;
    if ParseText(a, text).Ok? {
      FoldingKeepsMeaning(a, ParseText(a, text).value, x);
    }
  }

  method Evaluate(a: Arithmetic, text: string, x: Double) returns (r: Option<Double>)
    requires a.Valid()
    ensures r == Evaluated(a, text, x)
  {
    var value := ExpressionParser.EvaluateChecked(a, text, x);
    r := if value.Ok? then Some(value.value) else None;
  }

  datatype Run = Run(layout: Layout, count: word32, fromByte: string, isSelectable: bool)

  /** The element's bytes lie in the window. */
  predicate HoldsElement(rom: Rom, layout: Layout, index: nat) {
    rom.Holds(ElementAt(layout, index), layout.Width())
  }

  function ElementBytes(rom: Rom, layout: Layout, index: nat): (b: seq<byte>)
    requires HoldsElement(rom, layout, index)
    ensures |b| == layout.Width()
  {
    var offset := ElementAt(layout, index) - rom.start;
    rom.data[offset..offset + layout.Width()]
  }

  function ElementRaw(rom: Rom, layout: Layout, index: nat): word32
    requires HoldsElement(rom, layout, index)
  {
    ReadRaw(ElementBytes(rom, layout, index), 0, layout.Width(), layout.Little())
  }

  function RawValue(m: Numerics, layout: Layout, raw: word32): Double {
    if layout.IsFloat() then m.fromFloatBits(raw) else m.fromInteger(NumberOf(layout, raw))
  }

  type Cell = Option<Double>

  /** What the decoder shows for a stored value. */
  function CellOf(a: Arithmetic, m: Numerics, run: Run, raw: word32): Cell
    requires a.Valid()
  {
    if run.isSelectable then Some(m.zero) else Evaluated(a, run.fromByte, RawValue(m, run.layout, raw))
  }

  /** The run is numeric and inside the window. */
  predicate Decodable(rom: Rom, run: Run) {
    && run.layout.Numeric()
    && rom.start <= run.layout.address
    && (if run.count == 0 then run.layout.address <= rom.End() else HoldsElement(rom, run.layout, run.count - 1))
  }

  lemma ElementInside(rom: Rom, run: Run, i: nat)
    requires Decodable(rom, run) && i < run.count
    ensures HoldsElement(rom, run.layout, i)
  {
    hide StorageByteSize, ElementAt;
    FromAddress(run.layout, i);
    if i < run.count - 1 {
      ElementsApart(run.layout, i, run.count - 1);
    }
  }

  /** The run's end is checked in 64 bits, and the check means what it says. */
  lemma WindowCheck(rom: Rom, run: Run)
    requires rom.Valid() && run.layout.Numeric()
    ensures var end := ElementRunEnd(run.layout, run.count);
            && end >= run.layout.address
            && (Decodable(rom, run) <==> rom.Holds(run.layout.address, end - run.layout.address))
  {
    hide StorageByteSize;
    var layout := run.layout;
    assert ElementAt(layout, if run.count == 0 then 0 else run.count - 1) >= layout.address by {
      FromAddress(layout, if run.count == 0 then 0 else run.count - 1);
    }
  }

  lemma FromAddress(layout: Layout, index: nat)
    ensures ElementAt(layout, index) >= layout.address
  {
    assert index * Stride(layout) >= 0;
  }

  method DecodeNumericRun(a: Arithmetic, m: Numerics, rom: Rom, run: Run) returns (r: Option<seq<Cell>>)
    requires a.Valid() && rom.Valid()
    ensures r.Some? <==> Decodable(rom, run)
    ensures r.Some? ==> |r.value| == run.count
    ensures r.Some? ==> forall i :: 0 <= i < run.count ==>
              HoldsElement(rom, run.layout, i) && r.value[i] == CellOf(a, m, run, ElementRaw(rom, run.layout, i))
  {
    hide StorageByteSize, ReadRaw, Evaluated, ElementAt, NumberOf, RunOffset, RawValue, ElementBytes, HoldsElement;
    var layout := run.layout;
    if !layout.Numeric() {
      return None;
    }
    WindowCheck(rom, run);
    var end := ElementRunEnd(layout, run.count);
    var window := rom.At(layout.address, end - layout.address);
    if window.None? {
      return None;
    }
    var cells: seq<Cell> := [];
    for index := 0 to run.count
      invariant |cells| == index
      invariant forall i :: 0 <= i < index ==>
                  HoldsElement(rom, layout, i) && cells[i] == CellOf(a, m, run, ElementRaw(rom, layout, i))
    {
      var offset := RunOffset(layout, index);
      WindowRead(rom, run, window.value, index);
      var raw := ReadRaw(window.value, offset, layout.Width(), layout.Little());
      var number := RawValue(m, layout, raw);
      var value: Cell := Some(m.zero);
      if !run.isSelectable {
        value := Evaluate(a, run.fromByte, number);
      }
      cells := cells + [value];
    }
    r := Some(cells);
  }

  /** The element's distance from the run's address, in wrapping 64-bit arithmetic. */
  function RunOffset(layout: Layout, index: nat): nat
    requires layout.startPosition > 0
  {
    ((layout.startPosition - 1) as int * layout.Width() + index * Stride(layout)) % U64
  }

  /** Reading through the window at the wrapped offset reads the element. */
  lemma WindowRead(rom: Rom, run: Run, window: seq<byte>, index: nat)
    requires rom.Valid() && Decodable(rom, run) && index < run.count
    requires var end := ElementRunEnd(run.layout, run.count);
             end >= run.layout.address && rom.At(run.layout.address, end - run.layout.address) == Some(window)
    ensures HoldsElement(rom, run.layout, index)
    ensures ReadRaw(window, RunOffset(run.layout, index), run.layout.Width(), run.layout.Little())
            == ElementRaw(rom, run.layout, index)
  {
    hide StorageByteSize, ReadRaw;
    var layout := run.layout;
    var w := layout.Width();
    ElementInside(rom, run, index);
    FromAddress(layout, index);
    if index < run.count - 1 {
      ElementsApart(layout, index, run.count - 1);
    }
    var offset := ElementAt(layout, index) - layout.address;
    assert RunOffset(layout, index) == offset;
    assert window[offset..offset + w] == ElementBytes(rom, layout, index);
    ReadLocal(window, offset, w, layout.Little());
  }
}
