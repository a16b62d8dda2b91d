/** Edits and the decoder agree: applying an edit's writes changes what the decoder shows for the
    selected cells, to the values the edit encoded, and nothing else. */
module CalibrationAgreement {
  import opened Results
  import opened Bytes
  import opened Arithmetic
  import ExpressionParser
  import opened CalibrationStorage
  import opened CalibrationDecode
  import opened CalibrationEdit

  /** The window with the writes made in order. */
  function Overwritten(rom: Rom, writes: seq<CellWrite>): (r: Rom)
    ensures r.start == rom.start && |r.data| == |rom.data|
  {
    if writes == [] then rom
    else
      var last := writes[|writes| - 1];
      var before := Overwritten(rom, writes[..|writes| - 1]);
      if last.address < rom.start then before
      else Rom(rom.start, OverwriteAt(before.data, last.address - rom.start, last.bytes))
  }

  /** No two requests name the same cell. */
  ghost predicate Ascending(requests: seq<Request>) {
    forall i, j :: 0 <= i < j < |requests| ==> requests[i].index < requests[j].index
  }

  /** The address lies in one of the requested cells. */
  ghost predicate Touched(layout: Layout, requests: seq<Request>, address: nat) {
    exists i :: 0 <= i < |requests| && InElement(layout, requests[i].index, address)
  }

  predicate InElement(layout: Layout, index: nat, address: nat) {
    ElementAt(layout, index) <= address < ElementAt(layout, index) + layout.Width()
  }

  /** The request's cell holds the bytes it asked for. */
  ghost predicate Stored(a: Arithmetic, m: Numerics, rom: Rom, spec: Spec, limits: Limits, q: Request)
    requires a.Valid()
  {
    var raw := RequestedRaw(a, m, spec, limits, q);
    && raw.Ok? && HoldsElement(rom, spec.layout, q.index)
    && ElementBytes(rom, spec.layout, q.index) == StoredBytes(spec.layout, raw.value)
  }

  /** A request that succeeds names an element inside the window, and tells whether it differs. */
  lemma OutcomeMeans(a: Arithmetic, m: Numerics, rom: Rom, spec: Spec, limits: Limits, q: Request)
    requires a.Valid() && rom.Valid() && OutcomeOf(a, m, rom, spec, limits, q).Ok?
    ensures var raw := RequestedRaw(a, m, spec, limits, q);
            var outcome := OutcomeOf(a, m, rom, spec, limits, q).value;
            && raw.Ok? && spec.layout.Numeric() && HoldsElement(rom, spec.layout, q.index)
            && (outcome.Keep? <==> ElementBytes(rom, spec.layout, q.index) == StoredBytes(spec.layout, raw.value))
            && (outcome.Write? ==>
                  outcome.write == CellWrite(q.index, ElementAt(spec.layout, q.index), StoredBytes(spec.layout, raw.value)))
  {
    hide StorageByteSize, ElementAt, Evaluated, StoredBytes;
  }

  /** The two windows differ in bytes of one element at most. */
  ghost predicate OnlyElement(rom: Rom, after: Rom, layout: Layout, index: nat) {
    && after.start == rom.start && |after.data| == |rom.data|
    && forall p :: 0 <= p < |rom.data| && !InElement(layout, index, rom.start + p) ==> after.data[p] == rom.data[p]
  }

  /** Making the write, or leaving an equal cell alone, stores the request and changes no byte
      outside its cell. */
  lemma StepStores(a: Arithmetic, m: Numerics, rom: Rom, mid: Rom, spec: Spec, limits: Limits, q: Request,
                   writes: seq<CellWrite>, edit: Edit)
    requires a.Valid() && rom.Valid() && OutcomeOf(a, m, rom, spec, limits, q).Ok?
    requires mid == Overwritten(rom, edit.writes)
    requires HoldsElement(rom, spec.layout, q.index) ==>
               ElementBytes(mid, spec.layout, q.index) == ElementBytes(rom, spec.layout, q.index)
    requires writes == Joined(edit, OutcomeOf(a, m, rom, spec, limits, q).value).writes
    ensures var after := Overwritten(rom, writes);
            && Stored(a, m, after, spec, limits, q)
            && OnlyElement(mid, after, spec.layout, q.index)
  {
    hide StorageByteSize, ElementAt, RequestedRaw, StoredBytes, OutcomeOf, ElementBytes, OnlyElement;
    OutcomeMeans(a, m, rom, spec, limits, q);
    var raw := RequestedRaw(a, m, spec, limits, q).value;
    if OutcomeOf(a, m, rom, spec, limits, q).value.Write? {
      WriteStores(mid, spec.layout, q.index, StoredBytes(spec.layout, raw));
      assert writes[..|writes| - 1] == edit.writes;
    } else {
      NothingDiffers(mid, spec.layout, q.index);
    }
  }

  lemma WriteStores(mid: Rom, layout: Layout, index: nat, bytes: seq<byte>)
    requires HoldsElement(mid, layout, index) && |bytes| == layout.Width()
    ensures var after := Rom(mid.start, OverwriteAt(mid.data, ElementAt(layout, index) - mid.start, bytes));
            && HoldsElement(after, layout, index) && ElementBytes(after, layout, index) == bytes
            && OnlyElement(mid, after, layout, index)
  {
    hide StorageByteSize, ElementAt;
  }

  lemma NothingDiffers(rom: Rom, layout: Layout, index: nat)
    ensures OnlyElement(rom, rom, layout, index)
  {
  }

  /** What is stored stays stored while other cells are written. */
  lemma StaysStored(a: Arithmetic, m: Numerics, mid: Rom, after: Rom, spec: Spec, limits: Limits, q: Request, other: nat)
    requires a.Valid() && Stored(a, m, mid, spec, limits, q) && spec.layout.Numeric() && other != q.index
    requires OnlyElement(mid, after, spec.layout, other)
    ensures Stored(a, m, after, spec, limits, q)
  {
    hide RequestedRaw;
    Disjoint(spec.layout, q.index, other);
    SameElement(mid, after, spec.layout, q.index);
  }

  lemma Disjoint(layout: Layout, i: nat, j: nat)
    requires layout.interval > 0 && i != j
    ensures forall address :: InElement(layout, i, address) ==> !InElement(layout, j, address)
  {
    hide ElementAt;
    if i < j {
      ElementsApart(layout, i, j);
    } else {
      ElementsApart(layout, j, i);
    }
  }

  lemma SameElement(rom: Rom, after: Rom, layout: Layout, index: nat)
    requires HoldsElement(rom, layout, index)
    requires after.start == rom.start && |after.data| == |rom.data|
    requires forall p :: 0 <= p < |rom.data| && InElement(layout, index, rom.start + p) ==> after.data[p] == rom.data[p]
    ensures HoldsElement(after, layout, index)
    ensures ElementBytes(after, layout, index) == ElementBytes(rom, layout, index)
  {
    hide ElementAt, StorageByteSize;
  }

  ghost predicate AllStored(a: Arithmetic, m: Numerics, rom: Rom, spec: Spec, limits: Limits, requests: seq<Request>)
    requires a.Valid()
  {
    forall i :: 0 <= i < |requests| ==> Stored(a, m, rom, spec, limits, requests[i])
  }

  /** Only bytes of the requested cells differ. */
  ghost predicate OnlyTouched(rom: Rom, after: Rom, layout: Layout, requests: seq<Request>) {
    && after.start == rom.start && |after.data| == |rom.data|
    && forall p :: 0 <= p < |rom.data| && !Touched(layout, requests, rom.start + p) ==> after.data[p] == rom.data[p]
  }

  /** After a successful edit each requested cell holds what was asked, and every byte outside those
      cells is as before. */
  lemma {:induction false} PatchStores(a: Arithmetic, m: Numerics, rom: Rom, spec: Spec, limits: Limits,
                                       requests: seq<Request>)
    requires a.Valid() && rom.Valid() && Ascending(requests) && Patched(a, m, rom, spec, limits, requests).Ok?
    ensures var after := Overwritten(rom, Patched(a, m, rom, spec, limits, requests).value.writes);
            && AllStored(a, m, after, spec, limits, requests)
            && OnlyTouched(rom, after, spec.layout, requests)
  {
    hide OutcomeOf, Stored, Joined, Touched;
    if requests != [] {
      var before, last := requests[..|requests| - 1], requests[|requests| - 1];
      assert Ascending(before) && forall i :: 0 <= i < |before| ==> before[i].index < last.index;
      PatchStores(a, m, rom, spec, limits, before);
      assert before + [last] == requests;
      hide AllStored, OnlyTouched, Overwritten, Ascending;
      PatchStep(a, m, rom, spec, limits, before, last, Patched(a, m, rom, spec, limits, before).value);
    }
  }

  lemma PatchStep(a: Arithmetic, m: Numerics, rom: Rom, spec: Spec, limits: Limits, before: seq<Request>,
                  last: Request, edit: Edit)
    requires a.Valid() && rom.Valid() && OutcomeOf(a, m, rom, spec, limits, last).Ok?
    requires forall i :: 0 <= i < |before| ==> before[i].index < last.index
    requires AllStored(a, m, Overwritten(rom, edit.writes), spec, limits, before)
    requires OnlyTouched(rom, Overwritten(rom, edit.writes), spec.layout, before)
    ensures var after := Overwritten(rom, Joined(edit, OutcomeOf(a, m, rom, spec, limits, last).value).writes);
            && AllStored(a, m, after, spec, limits, before + [last])
            && OnlyTouched(rom, after, spec.layout, before + [last])
  {
    hide OutcomeOf, Stored, InElement, Joined, HoldsElement, Touched, OnlyTouched, OnlyElement, AllStored, Overwritten;
    var writes := Joined(edit, OutcomeOf(a, m, rom, spec, limits, last).value).writes;
    var mid, after := Overwritten(rom, edit.writes), Overwritten(rom, writes);
    OutcomeMeans(a, m, rom, spec, limits, last);
    LastUntouched(rom, mid, spec.layout, before, last.index);
    StepStores(a, m, rom, mid, spec, limits, last, writes, edit);
    MoreStored(a, m, mid, after, spec, limits, before, last);
    MoreTouched(rom, mid, after, spec.layout, before, last);
  }

  lemma MoreStored(a: Arithmetic, m: Numerics, mid: Rom, after: Rom, spec: Spec, limits: Limits, before: seq<Request>,
                   last: Request)
    requires a.Valid() && spec.layout.Numeric()
    requires AllStored(a, m, mid, spec, limits, before) && Stored(a, m, after, spec, limits, last)
    requires OnlyElement(mid, after, spec.layout, last.index)
    requires forall i :: 0 <= i < |before| ==> before[i].index < last.index
    ensures AllStored(a, m, after, spec, limits, before + [last])
  {
    hide Stored, OnlyElement;
    forall i | 0 <= i < |before|
      ensures Stored(a, m, after, spec, limits, before[i])
    {
      StaysStored(a, m, mid, after, spec, limits, before[i], last.index);
    }
  }

  lemma MoreTouched(rom: Rom, mid: Rom, after: Rom, layout: Layout, before: seq<Request>, last: Request)
    requires OnlyTouched(rom, mid, layout, before) && OnlyElement(mid, after, layout, last.index)
    ensures OnlyTouched(rom, after, layout, before + [last])
  {
    hide Touched, InElement;
    forall p | 0 <= p < |rom.data| && !Touched(layout, before + [last], rom.start + p)
      ensures after.data[p] == rom.data[p]
    {
      NotTouched(layout, before, last, rom.start + p);
    }
  }

  lemma NotTouched(layout: Layout, before: seq<Request>, last: Request, address: nat)
    requires !Touched(layout, before + [last], address)
    ensures !InElement(layout, last.index, address)
    ensures !Touched(layout, before, address)
  {
    hide InElement;
    var requests := before + [last];
    assert requests[|before|] == last && forall i :: 0 <= i < |before| ==> requests[i] == before[i];
  }

  /** A cell that no earlier request names is still as it was. */
  lemma LastUntouched(rom: Rom, mid: Rom, layout: Layout, before: seq<Request>, index: nat)
    requires HoldsElement(rom, layout, index) && layout.Numeric()
    requires forall i :: 0 <= i < |before| ==> before[i].index != index
    requires OnlyTouched(rom, mid, layout, before)
    ensures HoldsElement(mid, layout, index)
    ensures ElementBytes(mid, layout, index) == ElementBytes(rom, layout, index)
  {
    forall p | 0 <= p < |rom.data| && InElement(layout, index, rom.start + p)
      ensures mid.data[p] == rom.data[p]
    {
      Elsewhere(layout, before, index, rom.start + p);
    }
    SameElement(rom, mid, layout, index);
  }

  lemma Elsewhere(layout: Layout, requests: seq<Request>, index: nat, address: nat)
    requires layout.interval > 0 && InElement(layout, index, address)
    requires forall i :: 0 <= i < |requests| ==> requests[i].index != index
    ensures !Touched(layout, requests, address)
  {
    hide InElement;
    forall i | 0 <= i < |requests|
      ensures !InElement(layout, requests[i].index, address)
    {
      Disjoint(layout, index, requests[i].index);
    }
  }

  // ---- What the decoder shows -------------------------------------------------------------

  /** The stored value the decoder takes element `index` for. */
  function Shown(m: Numerics, rom: Rom, layout: Layout, index: nat): Double
    requires HoldsElement(rom, layout, index)
  {
    RawValue(m, layout, ElementRaw(rom, layout, index))
  }

  /** A stored request reads back as the very integer, or float, it was encoded to. */
  lemma StoredShows(a: Arithmetic, m: Numerics, rom: Rom, spec: Spec, limits: Limits, q: Request)
    requires a.Valid() && Stored(a, m, rom, spec, limits, q)
    ensures var raw := RequestedRaw(a, m, spec, limits, q).value;
            Shown(m, rom, spec.layout, q.index)
            == if spec.layout.IsFloat() then m.fromFloatBits(Wrap32(raw)) else m.fromInteger(raw)
  {
    hide Evaluated, ElementAt, ReadRaw, RawBytes, Wrap32, NumberOf, Least, Greatest;
    var layout := spec.layout;
    var raw := RequestedRaw(a, m, spec, limits, q).value;
    RawRoundTrip(layout.Width(), layout.Little(), Wrap32(raw));
    if layout.IsFloat() {
      FullWidth(Wrap32(raw));
    } else {
      NumberRoundTrip(layout, raw);
    }
  }

  lemma FullWidth(raw: word32)
    ensures raw % Cap(4) == raw
  {
  }

  // ---- What an edit means -----------------------------------------------------------------

  /** The number a stored value is read as. */
  function Reading(m: Numerics, layout: Layout, raw: int): Double {
    if layout.IsFloat() then m.fromFloatBits(Wrap32(raw)) else m.fromInteger(raw)
  }

  /** What the decoder reads once a value has been clamped, encoded and stored. */
  function Encoded(a: Arithmetic, m: Numerics, spec: Spec, limits: Limits, value: Double): Option<Double>
    requires a.Valid()
  {
    var raw := EncodedRaw(a, m, spec, Clamped(m, limits, value));
    if !a.isFinite(value) || raw.Err? then None else Some(Reading(m, spec.layout, raw.value))
  }

  /** The reading, from the definition's fields: the value is moved to the nearer limit it passes, the
      encoding text is evaluated there, and the result is rounded to an integer of the storage's range,
      or taken as a float. */
  lemma EncodedByFields(a: Arithmetic, m: Numerics, spec: Spec, limits: Limits, value: Double)
    requires a.Valid() && LimitsFor(m, spec) == Some(limits)
    ensures var clamped := if limits.minimum.Some? && m.less(value, limits.minimum.value) then limits.minimum.value
                           else if limits.maximum.Some? && m.less(limits.maximum.value, value) then limits.maximum.value
                           else value;
            var encoded := ExpressionParser.OneShot(a, spec.toByte, clamped);
            Encoded(a, m, spec, limits, value)
            == if spec.layout.storage in {None, Some(Bloblist)} || spec.layout.startPosition == 0
                  || spec.layout.interval == 0 || !a.isFinite(value) || !a.isFinite(clamped) || encoded.Err?
               then None
               else if spec.layout.storage == Some(Float)
               then if m.beyondFloat(encoded.value) then None else Some(m.fromFloatBits(m.floatBits(encoded.value)))
               else if Least(spec.layout) <= m.round(encoded.value) <= Greatest(spec.layout)
               then Some(m.fromInteger(m.round(encoded.value)))
               else None
  {
    hide ExpressionParser.OneShot, Evaluated, Least, Greatest;
    EvaluatedIsOneShot(a, spec.toByte, Clamped(m, limits, value));
  }

  /** Limits are accepted when both parse and the maximum is not below the minimum. */
  lemma LimitsByFields(m: Numerics, spec: Spec)
    ensures match LimitsFor(m, spec)
            case Some(limits) =>
              && spec.minimum == Some(limits.minimum) && spec.maximum == Some(limits.maximum)
              && !(limits.minimum.Some? && limits.maximum.Some? && m.less(limits.maximum.value, limits.minimum.value))
            case None =>
              || spec.minimum.None? || spec.maximum.None?
              || (spec.minimum.value.Some? && spec.maximum.value.Some?
                  && m.less(spec.maximum.value.value, spec.minimum.value.value))
  {
  }

  /** For each cell, the value an edit wants in it, or the error in its place; None leaves the cell
      alone. */
  type Wanted = nat -> Option<Result<Double, CellError>>

  /** Why a cell cannot take a wanted value. */
  function Refusal(a: Arithmetic, m: Numerics, rom: Rom, spec: Spec, limits: Limits, k: nat,
                   value: Result<Double, CellError>): Option<CellError>
    requires a.Valid()
  {
    if value.Err? then Some(value.error)
    else if !a.isFinite(value.value) then Some(NotFinite)
    else
      var raw := EncodedRaw(a, m, spec, Clamped(m, limits, value.value));
      if raw.Err? then Some(raw.error)
      else if !HoldsElement(rom, spec.layout, k) then Some(OutsideRom)
      else None
  }

  ghost predicate Refused(a: Arithmetic, m: Numerics, rom: Rom, spec: Spec, limits: Limits, wanted: Wanted, k: nat)
    requires a.Valid()
  {
    wanted(k).Some? && Refusal(a, m, rom, spec, limits, k, wanted(k).value).Some?
  }

  /** A wanted cell shows the encoded value, any other its old raw value. */
  ghost predicate CellShown(a: Arithmetic, m: Numerics, rom: Rom, after: Rom, spec: Spec, limits: Limits, wanted: Wanted,
                            k: nat)
    requires a.Valid()
  {
    match wanted(k)
    case None =>
      HoldsElement(rom, spec.layout, k) ==>
        HoldsElement(after, spec.layout, k) && ElementRaw(after, spec.layout, k) == ElementRaw(rom, spec.layout, k)
    case Some(value) =>
      && HoldsElement(after, spec.layout, k) && value.Ok?
      && Encoded(a, m, spec, limits, value.value) == Some(Shown(m, after, spec.layout, k))
  }

  /** The address belongs to a wanted cell. */
  ghost predicate InWanted(layout: Layout, count: nat, wanted: Wanted, address: nat) {
    exists k: nat :: k < count && wanted(k).Some? && InElement(layout, k, address)
  }

  ghost predicate OnlyWanted(rom: Rom, after: Rom, layout: Layout, count: nat, wanted: Wanted) {
    && after.start == rom.start && |after.data| == |rom.data|
    && forall p :: 0 <= p < |rom.data| && !InWanted(layout, count, wanted, rom.start + p) ==> after.data[p] == rom.data[p]
  }

  /** The edit of `count` cells did what was wanted: the writes store every wanted value and change no
      other byte, and a reason is given exactly when they change nothing; or the first cell that
      refuses its value is reported. */
  ghost predicate Edited(a: Arithmetic, m: Numerics, rom: Rom, spec: Spec, limits: Limits, count: nat, wanted: Wanted,
                         r: Result<Edit, EditError>)
    requires a.Valid()
  {
    match r
    case Ok(edit) =>
      var after := Overwritten(rom, edit.writes);
      && (forall k: nat :: k < count ==> !Refused(a, m, rom, spec, limits, wanted, k))
      && (forall k: nat :: k < count ==> CellShown(a, m, rom, after, spec, limits, wanted, k))
      && OnlyWanted(rom, after, spec.layout, count, wanted)
      && (edit.noChange.Changed? <==> after != rom)
    case Err(error) =>
      exists k: nat ::
        && k < count && Refused(a, m, rom, spec, limits, wanted, k)
        && error == AtCell(k, Refusal(a, m, rom, spec, limits, k, wanted(k).value).value)
        && forall j: nat :: j < k ==> !Refused(a, m, rom, spec, limits, wanted, j)
  }

  /** The requests ask for exactly the wanted cells, in order. */
  ghost predicate Asks(requests: seq<Request>, count: nat, wanted: Wanted) {
    && Ascending(requests)
    && (forall i :: 0 <= i < |requests| ==>
          requests[i].index < count && wanted(requests[i].index) == Some(requests[i].wanted))
    && (forall k: nat :: k < count && wanted(k).Some? ==> exists i :: 0 <= i < |requests| && requests[i].index == k)
  }

  /** A request fails exactly for one of the reasons a cell can refuse its value. */
  lemma OutcomeRefusal(a: Arithmetic, m: Numerics, rom: Rom, spec: Spec, limits: Limits, q: Request)
    requires a.Valid() && rom.Valid()
    ensures var refusal := Refusal(a, m, rom, spec, limits, q.index, q.wanted);
            var outcome := OutcomeOf(a, m, rom, spec, limits, q);
            && (outcome.Ok? <==> refusal.None?)
            && (outcome.Err? ==> refusal == Some(outcome.error))
  {
    hide StorageByteSize, ElementAt, EncodedRaw, StoredBytes, Clamped;
  }

  /** All requests succeeded, or the first to fail is reported. */
  ghost predicate FoldMeans(a: Arithmetic, m: Numerics, rom: Rom, spec: Spec, limits: Limits, requests: seq<Request>,
                            patched: Result<Edit, EditError>)
    requires a.Valid()
  {
    match patched
    case Ok(_) => forall i :: 0 <= i < |requests| ==> OutcomeOf(a, m, rom, spec, limits, requests[i]).Ok?
    case Err(error) => exists i :: FirstFailing(a, m, rom, spec, limits, requests, i, error)
  }

  lemma {:induction false} PatchedOutcome(a: Arithmetic, m: Numerics, rom: Rom, spec: Spec, limits: Limits,
                                          requests: seq<Request>)
    requires a.Valid()
    ensures FoldMeans(a, m, rom, spec, limits, requests, Patched(a, m, rom, spec, limits, requests))
  {
    hide OutcomeOf, Joined;
    if requests != [] {
      var before, last := requests[..|requests| - 1], requests[|requests| - 1];
      PatchedOutcome(a, m, rom, spec, limits, before);
      assert before + [last] == requests;
      FoldStep(a, m, rom, spec, limits, before, last, Patched(a, m, rom, spec, limits, before));
    }
  }

  lemma FoldStep(a: Arithmetic, m: Numerics, rom: Rom, spec: Spec, limits: Limits, before: seq<Request>, last: Request,
                 patched: Result<Edit, EditError>)
    requires a.Valid() && FoldMeans(a, m, rom, spec, limits, before, patched)
    ensures var outcome := OutcomeOf(a, m, rom, spec, limits, last);
            FoldMeans(a, m, rom, spec, limits, before + [last],
                      if patched.Err? then patched
                      else if outcome.Err? then Err(AtCell(last.index, outcome.error))
                      else Ok(Joined(patched.value, outcome.value)))
  {
    hide OutcomeOf, Joined;
    var requests := before + [last];
    if patched.Err? {
      var i :| FirstFailing(a, m, rom, spec, limits, before, i, patched.error);
      assert FirstFailing(a, m, rom, spec, limits, requests, i, patched.error);
    } else if OutcomeOf(a, m, rom, spec, limits, last).Err? {
      var error := AtCell(last.index, OutcomeOf(a, m, rom, spec, limits, last).error);
      assert FirstFailing(a, m, rom, spec, limits, requests, |before|, error);
    }
  }

  ghost predicate FirstFailing(a: Arithmetic, m: Numerics, rom: Rom, spec: Spec, limits: Limits, requests: seq<Request>,
                               i: int, error: EditError)
    requires a.Valid()
  {
    && 0 <= i < |requests|
    && OutcomeOf(a, m, rom, spec, limits, requests[i]).Err?
    && error == AtCell(requests[i].index, OutcomeOf(a, m, rom, spec, limits, requests[i]).error)
    && forall j :: 0 <= j < i ==> OutcomeOf(a, m, rom, spec, limits, requests[j]).Ok?
  }

  /** The main agreement: whatever the requests ask for is what the decoder finds. */
  lemma EditDecodes(a: Arithmetic, m: Numerics, rom: Rom, spec: Spec, limits: Limits, requests: seq<Request>, count: nat,
                    wanted: Wanted)
    requires a.Valid() && rom.Valid() && Asks(requests, count, wanted)
    ensures Edited(a, m, rom, spec, limits, count, wanted, FinishedPatch(a, m, rom, spec, limits, requests))
  {
    hide Patched, OutcomeOf, Refusal, CellShown, OnlyWanted, Overwritten;
    PatchedOutcome(a, m, rom, spec, limits, requests);
    var patched := Patched(a, m, rom, spec, limits, requests);
    if patched.Ok? {
      EditSucceeds(a, m, rom, spec, limits, requests, count, wanted);
    } else {
      var i :| FirstFailing(a, m, rom, spec, limits, requests, i, patched.error);
      EditFails(a, m, rom, spec, limits, requests, count, wanted, i, patched.error);
    }
  }

  lemma EditFails(a: Arithmetic, m: Numerics, rom: Rom, spec: Spec, limits: Limits, requests: seq<Request>, count: nat,
                  wanted: Wanted, i: int, error: EditError)
    requires a.Valid() && rom.Valid() && Asks(requests, count, wanted)
    requires FirstFailing(a, m, rom, spec, limits, requests, i, error)
    ensures Edited(a, m, rom, spec, limits, count, wanted, Err(error))
  {
    hide OutcomeOf, Refusal;
    var k := requests[i].index;
    OutcomeRefusal(a, m, rom, spec, limits, requests[i]);
    forall j: nat | j < k
      ensures !Refused(a, m, rom, spec, limits, wanted, j)
    {
      if wanted(j).Some? {
        var n :| 0 <= n < |requests| && requests[n].index == j;
        assert n < i;
        OutcomeRefusal(a, m, rom, spec, limits, requests[n]);
      }
    }
    assert Refused(a, m, rom, spec, limits, wanted, k);
  }

  lemma EditSucceeds(a: Arithmetic, m: Numerics, rom: Rom, spec: Spec, limits: Limits, requests: seq<Request>, count: nat,
                     wanted: Wanted)
    requires a.Valid() && rom.Valid() && Asks(requests, count, wanted)
    requires Patched(a, m, rom, spec, limits, requests).Ok?
    requires forall i :: 0 <= i < |requests| ==> OutcomeOf(a, m, rom, spec, limits, requests[i]).Ok?
    ensures Edited(a, m, rom, spec, limits, count, wanted, FinishedPatch(a, m, rom, spec, limits, requests))
  {
    hide Patched, OutcomeOf, Refusal, CellShown, OnlyWanted, Overwritten, Asks, AllStored, OnlyTouched;
    var edit := Patched(a, m, rom, spec, limits, requests).value;
    var after := Overwritten(rom, edit.writes);
    AsksAscend(requests, count, wanted);
    PatchStores(a, m, rom, spec, limits, requests);
    NoneRefused(a, m, rom, spec, limits, requests, count, wanted);
    forall k: nat | k < count
      ensures CellShown(a, m, rom, after, spec, limits, wanted, k)
    {
      WantedShown(a, m, rom, after, spec, limits, requests, count, wanted, k);
    }
    TouchedWanted(rom, after, spec.layout, requests, count, wanted);
    ReasonReported(a, m, rom, spec, limits, requests);
    WritesDiffer(a, m, rom, spec, limits, requests);
  }

  lemma AsksAscend(requests: seq<Request>, count: nat, wanted: Wanted)
    requires Asks(requests, count, wanted)
    ensures Ascending(requests)
  {
  }

  lemma NoneRefused(a: Arithmetic, m: Numerics, rom: Rom, spec: Spec, limits: Limits, requests: seq<Request>, count: nat,
                    wanted: Wanted)
    requires a.Valid() && rom.Valid() && Asks(requests, count, wanted)
    requires forall i :: 0 <= i < |requests| ==> OutcomeOf(a, m, rom, spec, limits, requests[i]).Ok?
    ensures forall k: nat :: k < count ==> !Refused(a, m, rom, spec, limits, wanted, k)
  {
    hide OutcomeOf, Refusal, Ascending;
    forall k: nat | k < count
      ensures !Refused(a, m, rom, spec, limits, wanted, k)
    {
      if wanted(k).Some? {
        var i :| 0 <= i < |requests| && requests[i].index == k;
        OutcomeRefusal(a, m, rom, spec, limits, requests[i]);
      }
    }
  }

  /** The writes are none exactly when they change nothing. */
  lemma WritesDiffer(a: Arithmetic, m: Numerics, rom: Rom, spec: Spec, limits: Limits, requests: seq<Request>)
    requires a.Valid() && rom.Valid() && Ascending(requests) && Patched(a, m, rom, spec, limits, requests).Ok?
    ensures var writes := Patched(a, m, rom, spec, limits, requests).value.writes;
            writes == [] <==> Overwritten(rom, writes) == rom
  {
    hide Patched, AllStored, OnlyTouched, Ascending;
    PatchStores(a, m, rom, spec, limits, requests);
    var after := Overwritten(rom, Patched(a, m, rom, spec, limits, requests).value.writes);
    if after == rom {
      RepeatKeeps(a, m, rom, spec, limits, requests);
    }
  }

  lemma TouchedWanted(rom: Rom, after: Rom, layout: Layout, requests: seq<Request>, count: nat, wanted: Wanted)
    requires Asks(requests, count, wanted) && OnlyTouched(rom, after, layout, requests)
    ensures OnlyWanted(rom, after, layout, count, wanted)
  {
    hide InElement, Ascending;
    forall p | 0 <= p < |rom.data| && !InWanted(layout, count, wanted, rom.start + p)
      ensures after.data[p] == rom.data[p]
    {
      assert !Touched(layout, requests, rom.start + p);
    }
  }

  lemma WantedShown(a: Arithmetic, m: Numerics, rom: Rom, after: Rom, spec: Spec, limits: Limits, requests: seq<Request>,
                    count: nat, wanted: Wanted, k: nat)
    requires a.Valid() && rom.Valid() && Asks(requests, count, wanted) && k < count
    requires AllStored(a, m, after, spec, limits, requests) && OnlyTouched(rom, after, spec.layout, requests)
    requires forall i :: 0 <= i < |requests| ==> OutcomeOf(a, m, rom, spec, limits, requests[i]).Ok?
    ensures CellShown(a, m, rom, after, spec, limits, wanted, k)
  {
    hide OutcomeOf, OnlyTouched, Shown, EncodedRaw, ElementRaw, Clamped, Stored, HoldsElement, Ascending;
    if wanted(k).Some? {
      var i :| 0 <= i < |requests| && requests[i].index == k;
      assert Stored(a, m, after, spec, limits, requests[i]);
      StoredEncoded(a, m, after, spec, limits, requests[i]);
    } else if HoldsElement(rom, spec.layout, k) {
      Unwanted(a, m, rom, after, spec, limits, requests, k);
    }
  }

  lemma StoredEncoded(a: Arithmetic, m: Numerics, rom: Rom, spec: Spec, limits: Limits, q: Request)
    requires a.Valid() && Stored(a, m, rom, spec, limits, q)
    ensures q.wanted.Ok? && HoldsElement(rom, spec.layout, q.index)
    ensures Encoded(a, m, spec, limits, q.wanted.value) == Some(Shown(m, rom, spec.layout, q.index))
  {
    hide EncodedRaw, Shown, Clamped, StoredBytes, HoldsElement, ElementBytes;
    StoredShows(a, m, rom, spec, limits, q);
  }

  lemma Unwanted(a: Arithmetic, m: Numerics, rom: Rom, after: Rom, spec: Spec, limits: Limits, requests: seq<Request>,
                 k: nat)
    requires a.Valid() && rom.Valid() && OnlyTouched(rom, after, spec.layout, requests)
    requires HoldsElement(rom, spec.layout, k) && forall i :: 0 <= i < |requests| ==> requests[i].index != k
    requires forall i :: 0 <= i < |requests| ==> OutcomeOf(a, m, rom, spec, limits, requests[i]).Ok?
    ensures HoldsElement(after, spec.layout, k)
    ensures ElementRaw(after, spec.layout, k) == ElementRaw(rom, spec.layout, k)
  {
    hide OutcomeOf, ReadRaw, ElementAt, HoldsElement, ElementBytes;
    if requests == [] {
      NothingTouched(rom, after, spec.layout);
    } else {
      OutcomeMeans(a, m, rom, spec, limits, requests[0]);
      LastUntouched(rom, after, spec.layout, requests, k);
    }
  }

  lemma NothingTouched(rom: Rom, after: Rom, layout: Layout)
    requires OnlyTouched(rom, after, layout, [])
    ensures after == rom
  {
    forall p | 0 <= p < |rom.data|
      ensures after.data[p] == rom.data[p]
    {
      assert !Touched(layout, [], rom.start + p);
    }
  }

  /** What the decoder returns for a cell that has taken a value. */
  function EditedCell(a: Arithmetic, m: Numerics, spec: Spec, limits: Limits, fromByte: string,
                      value: Result<Double, CellError>): Cell
    requires a.Valid()
  {
    if value.Err? then None
    else
      var encoded := Encoded(a, m, spec, limits, value.value);
      if encoded.None? then None else Evaluated(a, fromByte, encoded.value)
  }

  /** What the decoder then returns: a wanted cell is the scaled reading of its encoded value, every
      other cell the one decoded before. */
  lemma EditedCells(a: Arithmetic, m: Numerics, rom: Rom, spec: Spec, limits: Limits, run: Run, wanted: Wanted, edit: Edit,
                    k: nat)
    requires a.Valid() && run.layout == spec.layout && Decodable(rom, run) && k < run.count
    requires Edited(a, m, rom, spec, limits, run.count, wanted, Ok(edit))
    ensures var after := Overwritten(rom, edit.writes);
            && Decodable(after, run)
            && HoldsElement(rom, run.layout, k) && HoldsElement(after, run.layout, k)
            && CellOf(a, m, run, ElementRaw(after, run.layout, k))
               == if wanted(k).None? || run.isSelectable then CellOf(a, m, run, ElementRaw(rom, run.layout, k))
                  else EditedCell(a, m, spec, limits, run.fromByte, wanted(k).value)
  {
    hide Evaluated, Encoded, RawValue, ElementRaw, Refused, ElementAt, Overwritten;
    var after := Overwritten(rom, edit.writes);
    ElementInside(rom, run, k);
    assert CellShown(a, m, rom, after, spec, limits, wanted, k);
  }

  /** Making the same requests of the edited ROM writes nothing. */
  lemma {:induction false} RepeatKeeps(a: Arithmetic, m: Numerics, rom: Rom, spec: Spec, limits: Limits,
                                       requests: seq<Request>)
    requires a.Valid() && rom.Valid()
    requires AllStored(a, m, rom, spec, limits, requests)
    ensures var again := Patched(a, m, rom, spec, limits, requests);
            again.Ok? && again.value.writes == []
  {
    hide OutcomeOf, Stored;
    if requests != [] {
      RepeatKeeps(a, m, rom, spec, limits, requests[..|requests| - 1]);
      StoredKeeps(a, m, rom, spec, limits, requests[|requests| - 1]);
    }
  }

  lemma StoredKeeps(a: Arithmetic, m: Numerics, rom: Rom, spec: Spec, limits: Limits, q: Request)
    requires a.Valid() && rom.Valid() && Stored(a, m, rom, spec, limits, q)
    ensures var outcome := OutcomeOf(a, m, rom, spec, limits, q);
            outcome.Ok? && outcome.value.Keep?
  {
    hide RequestedRaw, ElementAt, StorageByteSize, StoredBytes;
  }

  lemma EditIdempotent(a: Arithmetic, m: Numerics, rom: Rom, spec: Spec, limits: Limits, requests: seq<Request>)
    requires a.Valid() && rom.Valid() && Ascending(requests) && Patched(a, m, rom, spec, limits, requests).Ok?
    ensures var after := Overwritten(rom, Patched(a, m, rom, spec, limits, requests).value.writes);
            var again := Patched(a, m, after, spec, limits, requests);
            again.Ok? && again.value.writes == []
  {
    hide Patched, Stored, Ascending, Touched;
    PatchStores(a, m, rom, spec, limits, requests);
    var after := Overwritten(rom, Patched(a, m, rom, spec, limits, requests).value.writes);
    RepeatKeeps(a, m, after, spec, limits, requests);
  }

  // ---- Why nothing changed ----------------------------------------------------------------

  /** Some request left its cell alone for this reason. */
  ghost predicate Kept(a: Arithmetic, m: Numerics, rom: Rom, spec: Spec, limits: Limits, requests: seq<Request>,
                       reason: NoChange)
    requires a.Valid()
  {
    exists i :: 0 <= i < |requests| && OutcomeOf(a, m, rom, spec, limits, requests[i]) == Ok(Keep(reason))
  }

  lemma KeptStep(a: Arithmetic, m: Numerics, rom: Rom, spec: Spec, limits: Limits, requests: seq<Request>,
                 reason: NoChange)
    requires a.Valid() && requests != []
    ensures Kept(a, m, rom, spec, limits, requests, reason) <==>
            || Kept(a, m, rom, spec, limits, requests[..|requests| - 1], reason)
            || OutcomeOf(a, m, rom, spec, limits, requests[|requests| - 1]) == Ok(Keep(reason))
  {
    hide OutcomeOf;
    var before := requests[..|requests| - 1];
    assert forall i :: 0 <= i < |before| ==> before[i] == requests[i];
  }

  lemma KeepReasons(a: Arithmetic, m: Numerics, rom: Rom, spec: Spec, limits: Limits, q: Request)
    requires a.Valid()
    ensures var outcome := OutcomeOf(a, m, rom, spec, limits, q);
            outcome.Ok? && outcome.value.Keep? ==>
              outcome.value.reason in {Unchanged, BelowStorageResolution, DefinitionLimit}
  {
    hide RequestedRaw, ElementAt, StorageByteSize, StoredBytes, Clamped;
  }

  /** The reason reported is the one cause there is, or that there are several. */
  lemma {:induction false} ReasonReported(a: Arithmetic, m: Numerics, rom: Rom, spec: Spec, limits: Limits,
                                          requests: seq<Request>)
    requires a.Valid() && Patched(a, m, rom, spec, limits, requests).Ok?
    ensures var limit := Kept(a, m, rom, spec, limits, requests, DefinitionLimit);
            var below := Kept(a, m, rom, spec, limits, requests, BelowStorageResolution);
            Patched(a, m, rom, spec, limits, requests).value.noChange
            == if limit && below then MultipleCauses
               else if limit then DefinitionLimit
               else if below then BelowStorageResolution
               else Unchanged
  {
    hide OutcomeOf, Kept;
    if requests == [] {
      NothingKept(a, m, rom, spec, limits);
    } else {
      ReasonReported(a, m, rom, spec, limits, requests[..|requests| - 1]);
      KeptStep(a, m, rom, spec, limits, requests, DefinitionLimit);
      KeptStep(a, m, rom, spec, limits, requests, BelowStorageResolution);
      KeepReasons(a, m, rom, spec, limits, requests[|requests| - 1]);
    }
  }

  lemma NothingKept(a: Arithmetic, m: Numerics, rom: Rom, spec: Spec, limits: Limits)
    requires a.Valid()
    ensures forall reason :: !Kept(a, m, rom, spec, limits, [], reason)
  {
  }
}
