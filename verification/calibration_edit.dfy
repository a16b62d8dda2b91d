/** Numeric map edits (src/backend/calibration/numeric_map_edit.cpp): from requested values to byte
    writes, and what the decoder reads after them. */
module CalibrationEdit {
  import opened Results
  import opened Bytes
  import opened Arithmetic
  import opened CalibrationStorage
  import opened CalibrationDecode

  datatype Limits = Limits(minimum: Option<Double>, maximum: Option<Double>)

  /** An element's definition. Its limits come as they parse. */
  datatype Spec = Spec(layout: Layout, toByte: string, minimum: Option<Option<Double>>, maximum: Option<Option<Double>>)

  datatype CellError = NoCurrentValue | NotFinite | InvalidStorage | Unencodable | OutsideStorage | OutsideRom

  datatype EditError = InvalidSelection | InvalidLimits | AtCell(index: nat, error: CellError)

  datatype Selection = Selection(firstRow: int, firstCol: int, lastRow: int, lastCol: int)

  datatype CellWrite = CellWrite(index: nat, address: nat, bytes: seq<byte>)

  datatype NoChange = Changed | Unchanged | BelowStorageResolution | DefinitionLimit | MultipleCauses

  datatype Edit = Edit(writes: seq<CellWrite>, noChange: NoChange)

  predicate ValidSelection(width: nat, count: nat, s: Selection) {
    && width > 0 && 0 < count < U32 && count % width == 0
    && 0 <= s.firstRow <= s.lastRow < count / width
    && 0 <= s.firstCol <= s.lastCol < width
  }

  function LimitsFor(m: Numerics, spec: Spec): Option<Limits> {
    if spec.minimum.None? || spec.maximum.None? then None
    else
      var low, high := spec.minimum.value, spec.maximum.value;
      if low.Some? && high.Some? && m.less(high.value, low.value) then None else Some(Limits(low, high))
  }

  // ---- One cell ---------------------------------------------------------------------------

  /** The integer, or the float's bit pattern, that stands for a value. */
  function EncodedRaw(a: Arithmetic, m: Numerics, spec: Spec, value: Double): (r: Result<int, CellError>)
    requires a.Valid()
    ensures r.Ok? ==> spec.layout.Numeric()
    ensures r.Ok? && !spec.layout.IsFloat() ==> Least(spec.layout) <= r.value <= Greatest(spec.layout)
  {
    var layout := spec.layout;
    if !layout.Numeric() || !a.isFinite(value) then Err(InvalidStorage)
    else
      var encoded := Evaluated(a, spec.toByte, value);
      if encoded.None? then Err(Unencodable)
      else if layout.IsFloat() then
        if m.beyondFloat(encoded.value) then Err(OutsideStorage) else Ok(m.floatBits(encoded.value))
      else
        var rounded := m.round(encoded.value);
        if rounded < Least(layout) || rounded > Greatest(layout) then Err(OutsideStorage) else Ok(rounded)
  }

  function StoredBytes(layout: Layout, raw: int): (b: seq<byte>)
    ensures |b| == layout.Width()
  {
    RawBytes(layout.Width(), layout.Little(), Wrap32(raw))
  }

  method EncodeValue(a: Arithmetic, m: Numerics, spec: Spec, value: Double) returns (r: Result<seq<byte>, CellError>)
    requires a.Valid()
    ensures var raw := EncodedRaw(a, m, spec, value);
            r == if raw.Ok? then Ok(StoredBytes(spec.layout, raw.value)) else Err(raw.error)
  {
    hide Evaluated, RawBytes, StorageByteSize;
    var layout := spec.layout;
    if !layout.Numeric() || !a.isFinite(value) {
      return Err(InvalidStorage);
    }
    var encoded := Evaluate(a, spec.toByte, value);
    if encoded.None? {
      return Err(Unencodable);
    }
    if layout.IsFloat() {
      if m.beyondFloat(encoded.value) {
        return Err(OutsideStorage);
      }
      var bits := WriteRawElement(layout, m.floatBits(encoded.value));
      return Ok(bits);
    }
    var rounded := m.round(encoded.value);
    if rounded < Least(layout) || rounded > Greatest(layout) {
      return Err(OutsideStorage);
    }
    var raw := WriteRawElement(layout, rounded);
    r := Ok(raw);
  }

  function Clamped(m: Numerics, limits: Limits, requested: Double): Double {
    var low := if limits.minimum.Some? && m.less(requested, limits.minimum.value) then limits.minimum.value else requested;
    if limits.maximum.Some? && m.less(limits.maximum.value, low) then limits.maximum.value else low
  }

  /** Accepted limits do not contradict each other, so a clamped value breaks neither. */
  lemma ClampedWithin(m: Numerics, spec: Spec, requested: Double)
    requires LimitsFor(m, spec).Some? && forall x :: !m.less(x, x)
    ensures var limits := LimitsFor(m, spec).value;
            var value := Clamped(m, limits, requested);
            && (limits.minimum.Some? ==> !m.less(value, limits.minimum.value))
            && (limits.maximum.Some? ==> !m.less(limits.maximum.value, value))
  {
  }

  /** What an edit asks of one cell; a paste does not look at the old value. */
  datatype Request = Request(index: word32, wanted: Result<Double, CellError>, oldValue: Option<Cell>)

  datatype Outcome = Write(write: CellWrite) | Keep(reason: NoChange)

  function KeepReason(m: Numerics, requested: Double, clamped: Double, oldValue: Option<Cell>): NoChange {
    if !m.same(clamped, requested) then DefinitionLimit
    else if oldValue.Some? && oldValue.value.Some? && !m.same(oldValue.value.value, clamped) then BelowStorageResolution
    else Unchanged
  }

  /** Why an equal cell stays: a limit moved the value, or the storage cannot tell the new value from the old
      one, or the value was there already. */
  lemma KeepReasonIs(m: Numerics, requested: Double, clamped: Double, oldValue: Option<Cell>)
    ensures var reason := KeepReason(m, requested, clamped, oldValue);
            && (reason == DefinitionLimit <==> !m.same(clamped, requested))
            && (reason == BelowStorageResolution <==>
                  && m.same(clamped, requested) && oldValue.Some? && oldValue.value.Some?
                  && !m.same(oldValue.value.value, clamped))
            && (reason != DefinitionLimit && reason != BelowStorageResolution ==> reason == Unchanged)
  {
  }

  /** The raw value a request stores, after clamping. */
  function RequestedRaw(a: Arithmetic, m: Numerics, spec: Spec, limits: Limits, q: Request): Result<int, CellError>
    requires a.Valid()
  {
    if q.wanted.Err? then Err(q.wanted.error)
    else if !a.isFinite(q.wanted.value) then Err(NotFinite)
    else EncodedRaw(a, m, spec, Clamped(m, limits, q.wanted.value))
  }

  function OutcomeOf(a: Arithmetic, m: Numerics, rom: Rom, spec: Spec, limits: Limits, q: Request)
    : Result<Outcome, CellError>
    requires a.Valid()
  {
    var raw := RequestedRaw(a, m, spec, limits, q);
    if raw.Err? then Err(raw.error)
    else
      var bytes := StoredBytes(spec.layout, raw.value);
      var address := ElementByteAddress(spec.layout, q.index);
      var current := rom.At(address, |bytes|);
      if current.None? then Err(OutsideRom)
      else if current.value == bytes then
        Ok(Keep(KeepReason(m, q.wanted.value, Clamped(m, limits, q.wanted.value), q.oldValue)))
      else Ok(Write(CellWrite(q.index, address, bytes)))
  }

  function Merged(previous: NoChange, next: NoChange): NoChange {
    if next == Unchanged then previous
    else if previous == Unchanged then next
    else if previous != next then MultipleCauses
    else previous
  }

  function Joined(edit: Edit, outcome: Outcome): Edit {
    match outcome
    case Write(write) => edit.(writes := edit.writes + [write])
    case Keep(reason) => edit.(noChange := Merged(edit.noChange, reason))
  }

  method AppendWrite(a: Arithmetic, m: Numerics, rom: Rom, spec: Spec, limits: Limits, edit: Edit, q: Request)
    returns (r: Result<Edit, CellError>)
    requires a.Valid()
    ensures var outcome := OutcomeOf(a, m, rom, spec, limits, q);
            r == if outcome.Ok? then Ok(Joined(edit, outcome.value)) else Err(outcome.error)
  {
    hide EncodedRaw, StoredBytes;
    if q.wanted.Err? {
      return Err(q.wanted.error);
    }
    var requested := q.wanted.value;
    if !a.isFinite(requested) {
      return Err(NotFinite);
    }
    var clamped := requested;
    if limits.minimum.Some? && m.less(clamped, limits.minimum.value) {
      clamped := limits.minimum.value;
    }
    if limits.maximum.Some? && m.less(limits.maximum.value, clamped) {
      clamped := limits.maximum.value;
    }
    var encoded := EncodeValue(a, m, spec, clamped);
    if encoded.Err? {
      return Err(encoded.error);
    }
    var address := ElementByteAddress(spec.layout, q.index);
    var current := rom.At(address, |encoded.value|);
    if current.None? {
      return Err(OutsideRom);
    }
    if current.value == encoded.value {
      r := Ok(edit.(noChange := Merged(edit.noChange, KeepReason(m, requested, clamped, q.oldValue))));
    } else {
      r := Ok(edit.(writes := edit.writes + [CellWrite(q.index, address, encoded.value)]));
    }
  }

  // ---- A whole selection ------------------------------------------------------------------

  /** The requests taken in order, up to the first that fails. */
  function Patched(a: Arithmetic, m: Numerics, rom: Rom, spec: Spec, limits: Limits, requests: seq<Request>)
    : Result<Edit, EditError>
    requires a.Valid()
  {
    if requests == [] then Ok(Edit([], Unchanged))
    else
      var last := requests[|requests| - 1];
      var before := Patched(a, m, rom, spec, limits, requests[..|requests| - 1]);
      if before.Err? then before
      else
        var outcome := OutcomeOf(a, m, rom, spec, limits, last);
        if outcome.Err? then Err(AtCell(last.index, outcome.error)) else Ok(Joined(before.value, outcome.value))
  }

  /** After a failure nothing more is taken. */
  lemma {:induction false} FailureStays(
    a: Arithmetic, m: Numerics, rom: Rom, spec: Spec, limits: Limits, done: seq<Request>, rest: seq<Request>)
    requires a.Valid() && Patched(a, m, rom, spec, limits, done).Err?
    ensures Patched(a, m, rom, spec, limits, done + rest) == Patched(a, m, rom, spec, limits, done)
    decreases |rest|
  {
    hide OutcomeOf, Joined;
    if rest == [] {
      assert done + rest == done;
    } else {
      var shorter := rest[..|rest| - 1];
      FailureStays(a, m, rom, spec, limits, done, shorter);
      assert (done + rest)[..|done + rest| - 1] == done + shorter;
    }
  }

  function Flat(rows: seq<seq<Request>>): seq<Request> {
    if rows == [] then [] else Flat(rows[..|rows| - 1]) + rows[|rows| - 1]
  }

  /** Everything before cell `col` of row `row`, and what follows it. */
  lemma {:induction false} FlatSplit(rows: seq<seq<Request>>, row: nat, col: nat) returns (rest: seq<Request>)
    requires row < |rows| && col <= |rows[row]|
    ensures Flat(rows[..row]) + rows[row][..col] + rest == Flat(rows)
    decreases |rows|
  {
    if row == |rows| - 1 {
      rest := rows[row][col..];
    } else {
      var before := rows[..|rows| - 1];
      assert before[..row] == rows[..row];
      var part := FlatSplit(before, row, col);
      rest := part + rows[|rows| - 1];
    }
  }

  function Finished(edit: Edit): Edit {
    if edit.writes != [] then edit.(noChange := Changed) else edit
  }

  function FinishedPatch(a: Arithmetic, m: Numerics, rom: Rom, spec: Spec, limits: Limits, requests: seq<Request>)
    : Result<Edit, EditError>
    requires a.Valid()
  {
    var patched := Patched(a, m, rom, spec, limits, requests);
    if patched.Ok? then Ok(Finished(patched.value)) else patched
  }

  lemma OneMore(a: Arithmetic, m: Numerics, rom: Rom, spec: Spec, limits: Limits, done: seq<Request>, q: Request)
    requires a.Valid() && Patched(a, m, rom, spec, limits, done).Ok?
    ensures Patched(a, m, rom, spec, limits, done + [q]) ==
            var outcome := OutcomeOf(a, m, rom, spec, limits, q);
            if outcome.Err? then Err(AtCell(q.index, outcome.error))
            else Ok(Joined(Patched(a, m, rom, spec, limits, done).value, outcome.value))
  {
    assert (done + [q])[..|done|] == done;
  }

  /** The loops over rows and columns, shared by the selection edits and the paste. */
  method PatchRows(a: Arithmetic, m: Numerics, rom: Rom, spec: Spec, limits: Limits, rows: seq<seq<Request>>)
    returns (r: Result<Edit, EditError>)
    requires a.Valid()
    ensures r == FinishedPatch(a, m, rom, spec, limits, Flat(rows))
  {
    hide OutcomeOf, Patched, Joined;
    var edit := Edit([], Unchanged);
    NothingPatched(a, m, rom, spec, limits);
    for row := 0 to |rows|
      invariant Patched(a, m, rom, spec, limits, Flat(rows[..row])) == Ok(edit)
    {
      ghost var above := Flat(rows[..row]);
      assert above + rows[row][..0] == above;
      for col := 0 to |rows[row]|
        invariant Patched(a, m, rom, spec, limits, above + rows[row][..col]) == Ok(edit)
      {
        ghost var done := above + rows[row][..col];
        var q := rows[row][col];
        OneMore(a, m, rom, spec, limits, done, q);
        assert done + [q] == above + rows[row][..col + 1];
        var appended := AppendWrite(a, m, rom, spec, limits, edit, q);
        if appended.Err? {
          ghost var rest := FlatSplit(rows, row, col + 1);
          FailureStays(a, m, rom, spec, limits, above + rows[row][..col + 1], rest);
          return Err(AtCell(q.index, appended.error));
        }
        edit := appended.value;
      }
      assert rows[row][..|rows[row]|] == rows[row];
      assert rows[..row + 1][..row] == rows[..row];
    }
    assert rows[..|rows|] == rows;
    if edit.writes != [] {
      edit := edit.(noChange := Changed);
    }
    r := Ok(edit);
  }

  lemma NothingPatched(a: Arithmetic, m: Numerics, rom: Rom, spec: Spec, limits: Limits)
    requires a.Valid()
    ensures Patched(a, m, rom, spec, limits, Flat([])) == Ok(Edit([], Unchanged))
  {
  }
}
