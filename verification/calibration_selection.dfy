/** The edits a user makes: over a selection, by increment or assignment, and by pasting
    (src/backend/calibration/numeric_map_edit.cpp). */
module CalibrationSelection {
  import opened Results
  import opened Bytes
  import opened Arithmetic
  import opened Expression
  import opened ExpressionGrammar
  import opened FormulaScan
  import opened CalibrationDecode
  import opened CalibrationEdit
  import opened CalibrationAgreement

  /** The value wanted in a cell, from its index, row and column. */
  type Candidate = (nat, nat, nat) -> Result<Double, CellError>

  /** Cells are numbered row by row. */
  function CellIndex(width: nat, row: nat, col: nat): nat {
    row * width + col
  }

  /** A selected cell lies in its run, so its index fits 32 bits. */
  lemma IndexInRun(width: nat, count: nat, row: nat, col: nat)
    requires width > 0 && count % width == 0 && row < count / width && col < width
    ensures CellIndex(width, row, col) < count
  {
    assert count == count / width * width;
    assert (count / width - row - 1) * width >= 0;
  }

  function RequestAt(width: nat, cells: seq<Cell>, candidate: Candidate, row: nat, col: nat): Request
    requires width > 0 && |cells| < U32 && |cells| % width == 0 && row < |cells| / width && col < width
  {
    IndexInRun(width, |cells|, row, col);
    var index := CellIndex(width, row, col);
    Request(index, candidate(index, row, col), Some(cells[index]))
  }

  function SelectedRow(width: nat, cells: seq<Cell>, s: Selection, candidate: Candidate, row: nat): (r: seq<Request>)
    requires ValidSelection(width, |cells|, s) && row < |cells| / width
    ensures |r| == s.lastCol - s.firstCol + 1
    ensures forall c :: 0 <= c < |r| ==> r[c] == RequestAt(width, cells, candidate, row, s.firstCol + c)
  {
    seq(s.lastCol - s.firstCol + 1,
      c requires 0 <= c < s.lastCol - s.firstCol + 1 => RequestAt(width, cells, candidate, row, s.firstCol + c))
  }

  function SelectedRows(width: nat, cells: seq<Cell>, s: Selection, candidate: Candidate): (r: seq<seq<Request>>)
    requires ValidSelection(width, |cells|, s)
    ensures |r| == s.lastRow - s.firstRow + 1
    ensures forall k :: 0 <= k < |r| ==> r[k] == SelectedRow(width, cells, s, candidate, s.firstRow + k)
  {
    seq(s.lastRow - s.firstRow + 1,
      k requires 0 <= k < s.lastRow - s.firstRow + 1 => SelectedRow(width, cells, s, candidate, s.firstRow + k))
  }

  function SelectionOutcome(a: Arithmetic, m: Numerics, rom: Rom, spec: Spec, width: nat, cells: seq<Cell>, s: Selection,
                            candidate: Candidate): Result<Edit, EditError>
    requires a.Valid()
  {
    if !ValidSelection(width, |cells|, s) then Err(InvalidSelection)
    else if LimitsFor(m, spec).None? then Err(InvalidLimits)
    else FinishedPatch(a, m, rom, spec, LimitsFor(m, spec).value, Flat(SelectedRows(width, cells, s, candidate)))
  }

  /** The edit of a selection: refused, or what the candidate wants of each selected cell. */
  ghost predicate SelectionEdited(a: Arithmetic, m: Numerics, rom: Rom, spec: Spec, width: nat, cells: seq<Cell>,
                                  s: Selection, candidate: Candidate, r: Result<Edit, EditError>)
    requires a.Valid()
  {
    if !ValidSelection(width, |cells|, s) then r == Err(InvalidSelection)
    else if LimitsFor(m, spec).None? then r == Err(InvalidLimits)
    else
      Edited(a, m, rom, spec, LimitsFor(m, spec).value, |cells|, SelectionWanted(width, |cells|, s, candidate), r)
  }

  method BuildPatch(a: Arithmetic, m: Numerics, rom: Rom, spec: Spec, width: nat, cells: seq<Cell>, s: Selection,
                    candidate: Candidate)
    returns (r: Result<Edit, EditError>)
    requires a.Valid()
    ensures r == SelectionOutcome(a, m, rom, spec, width, cells, s, candidate)
    ensures rom.Valid() ==> SelectionEdited(a, m, rom, spec, width, cells, s, candidate, r)
  {
    hide Edited, FinishedPatch, Flat, SelectedRows;
    if !ValidSelection(width, |cells|, s) {
      return Err(InvalidSelection);
    }
    var limits := LimitsFor(m, spec);
    if limits.None? {
      return Err(InvalidLimits);
    }
    r := PatchRows(a, m, rom, spec, limits.value, SelectedRows(width, cells, s, candidate));
    SelectionAsks(width, cells, s, candidate);
    if rom.Valid() {
      EditDecodes(a, m, rom, spec, limits.value, Flat(SelectedRows(width, cells, s, candidate)), |cells|,
                  SelectionWanted(width, |cells|, s, candidate));
    }
  }

  // ---- The requests of a grid -------------------------------------------------------------

  /** The row's requests ascend within [low, high). */
  ghost predicate Band(row: seq<Request>, low: nat, high: nat) {
    Ascending(row) && forall c :: 0 <= c < |row| ==> low <= row[c].index < high
  }

  /** The row's requests lie in row `r` of a run. */
  ghost predicate InRow(row: seq<Request>, r: nat, width: nat) {
    Band(row, r * width, (r + 1) * width)
  }

  ghost predicate Banded(rows: seq<seq<Request>>, first: nat, width: nat) {
    forall k :: 0 <= k < |rows| ==> InRow(rows[k], first + k, width)
  }

  /** Row by row, the requests ascend throughout. */
  lemma {:induction false} FlatAscends(rows: seq<seq<Request>>, first: nat, width: nat)
    requires Banded(rows, first, width)
    ensures Ascending(Flat(rows))
    ensures forall i :: 0 <= i < |Flat(rows)| ==> Flat(rows)[i].index < (first + |rows|) * width
  {
    if rows != [] {
      var before, last := rows[..|rows| - 1], rows[|rows| - 1];
      FlatAscends(before, first, width);
      assert InRow(last, first + |before|, width);
      Appended(Flat(before), last, (first + |before|) * width, (first + |rows|) * width);
    }
  }

  lemma Appended(before: seq<Request>, last: seq<Request>, low: nat, high: nat)
    requires Ascending(before) && Band(last, low, high) && low <= high
    requires forall i :: 0 <= i < |before| ==> before[i].index < low
    ensures Ascending(before + last)
    ensures forall i :: 0 <= i < |before + last| ==> (before + last)[i].index < high
  {
  }

  lemma {:induction false} InFlat(rows: seq<seq<Request>>, q: Request)
    ensures q in Flat(rows) <==> exists k :: 0 <= k < |rows| && q in rows[k]
  {
    if rows != [] {
      var before, last := rows[..|rows| - 1], rows[|rows| - 1];
      InFlat(before, q);
      assert forall k :: 0 <= k < |before| ==> before[k] == rows[k];
      assert q in Flat(rows) <==> q in Flat(before) || q in last;
    }
  }

  lemma SelectionBanded(width: nat, cells: seq<Cell>, s: Selection, candidate: Candidate)
    requires ValidSelection(width, |cells|, s)
    ensures Banded(SelectedRows(width, cells, s, candidate), s.firstRow, width)
  {
    hide InRow, RequestAt;
    var rows := SelectedRows(width, cells, s, candidate);
    forall k | 0 <= k < |rows|
      ensures InRow(rows[k], s.firstRow + k, width)
    {
      assert rows[k] == SelectedRow(width, cells, s, candidate, s.firstRow + k);
      RowBand(width, cells, s, candidate, s.firstRow + k);
    }
  }

  lemma RowBand(width: nat, cells: seq<Cell>, s: Selection, candidate: Candidate, row: nat)
    requires ValidSelection(width, |cells|, s) && row < |cells| / width
    ensures InRow(SelectedRow(width, cells, s, candidate, row), row, width)
  {
    var base := row * width;
    assert (row + 1) * width == base + width;
    var list := SelectedRow(width, cells, s, candidate, row);
    forall c | 0 <= c < |list|
      ensures list[c].index == base + s.firstCol + c
    {
      assert list[c] == RequestAt(width, cells, candidate, row, s.firstCol + c);
    }
    hide SelectedRow, RequestAt;
  }

  /** Cell `k` of the run lies in the selection. */
  predicate Selected(width: nat, s: Selection, k: nat)
    requires width > 0
  {
    s.firstRow <= k / width <= s.lastRow && s.firstCol <= k % width <= s.lastCol
  }

  function RequestOf(width: nat, cells: seq<Cell>, candidate: Candidate, k: nat): Request
    requires width > 0 && |cells| < U32 && |cells| % width == 0 && k < |cells|
  {
    RowOf(width, |cells|, k);
    RequestAt(width, cells, candidate, k / width, k % width)
  }

  lemma RowOf(width: nat, count: nat, k: nat)
    requires width > 0 && count % width == 0 && k < count
    ensures k / width < count / width
    ensures CellIndex(width, k / width, k % width) == k
  {
    Scales(count / width, k / width, width);
    assert count == count / width * width && k == k / width * width + k % width;
  }

  lemma Scales(n: nat, q: nat, width: nat)
    ensures n <= q ==> n * width <= q * width
  {
    if n <= q {
      assert (q - n) * width >= 0;
    }
  }

  lemma CellPlace(width: nat, row: nat, col: nat)
    requires col < width
    ensures CellIndex(width, row, col) / width == row && CellIndex(width, row, col) % width == col
  {
    var k := CellIndex(width, row, col);
    SamePlace(width, k / width, k % width, row, col);
  }

  lemma SamePlace(width: nat, q: nat, r: nat, row: nat, col: nat)
    requires q * width + r == row * width + col && r < width && col < width
    ensures q == row && r == col
  {
    Scales(row + 1, q, width);
    Scales(q + 1, row, width);
    assert (row + 1) * width == row * width + width && (q + 1) * width == q * width + width;
  }

  /** Each selected cell is requested. */
  lemma SelectedRequested(width: nat, cells: seq<Cell>, s: Selection, candidate: Candidate, k: nat)
    requires ValidSelection(width, |cells|, s) && k < |cells| && Selected(width, s, k)
    ensures RequestOf(width, cells, candidate, k) in Flat(SelectedRows(width, cells, s, candidate))
    ensures RequestOf(width, cells, candidate, k).index == k
  {
    hide CellIndex;
    RowOf(width, |cells|, k);
    var rows := SelectedRows(width, cells, s, candidate);
    var q := RequestOf(width, cells, candidate, k);
    hide RequestAt;
    var i, c := k / width - s.firstRow, k % width - s.firstCol;
    assert rows[i] == SelectedRow(width, cells, s, candidate, k / width);
    assert rows[i][c] == q;
    InFlat(rows, q);
  }

  /** Nothing else is. */
  lemma RequestedSelected(width: nat, cells: seq<Cell>, s: Selection, candidate: Candidate, q: Request)
    requires ValidSelection(width, |cells|, s) && q in Flat(SelectedRows(width, cells, s, candidate))
    ensures q.index < |cells| && Selected(width, s, q.index) && q == RequestOf(width, cells, candidate, q.index)
  {
    hide RequestAt, RequestOf, Flat;
    var rows := SelectedRows(width, cells, s, candidate);
    InFlat(rows, q);
    var i :| 0 <= i < |rows| && q in rows[i];
    var c :| 0 <= c < |rows[i]| && rows[i][c] == q;
    var row, col := s.firstRow + i, s.firstCol + c;
    assert rows[i] == SelectedRow(width, cells, s, candidate, row);
    assert q == RequestAt(width, cells, candidate, row, col);
    PlacedRequest(width, cells, candidate, row, col);
  }

  lemma PlacedRequest(width: nat, cells: seq<Cell>, candidate: Candidate, row: nat, col: nat)
    requires width > 0 && |cells| < U32 && |cells| % width == 0 && row < |cells| / width && col < width
    ensures var q := RequestAt(width, cells, candidate, row, col);
            && q.index < |cells| && q.index / width == row && q.index % width == col
            && q == RequestOf(width, cells, candidate, q.index)
  {
    IndexInRun(width, |cells|, row, col);
    CellPlace(width, row, col);
  }

  /** What a candidate wants of each cell of a run. */
  function SelectionWanted(width: nat, count: nat, s: Selection, candidate: Candidate): Wanted {
    (k: nat) =>
      if width > 0 && k < count && Selected(width, s, k) then Some(candidate(k, k / width, k % width)) else None
  }

  /** The requests of a selection ask for its cells and no other. */
  lemma SelectionAsks(width: nat, cells: seq<Cell>, s: Selection, candidate: Candidate)
    requires ValidSelection(width, |cells|, s)
    ensures Asks(Flat(SelectedRows(width, cells, s, candidate)), |cells|, SelectionWanted(width, |cells|, s, candidate))
  {
    var requests, wanted := Flat(SelectedRows(width, cells, s, candidate)), SelectionWanted(width, |cells|, s, candidate);
    SelectionBanded(width, cells, s, candidate);
    FlatAscends(SelectedRows(width, cells, s, candidate), s.firstRow, width);
    hide Flat, SelectedRows, Ascending, CellIndex, Selected;
    forall i | 0 <= i < |requests|
      ensures requests[i].index < |cells| && wanted(requests[i].index) == Some(requests[i].wanted)
    {
      RequestedSelected(width, cells, s, candidate, requests[i]);
      RowOf(width, |cells|, requests[i].index);
    }
    forall k: nat | k < |cells| && wanted(k).Some?
      ensures exists i :: 0 <= i < |requests| && requests[i].index == k
    {
      SelectedRequested(width, cells, s, candidate, k);
      var i :| 0 <= i < |requests| && requests[i] == RequestOf(width, cells, candidate, k);
    }
  }

  /** After the edit the decoder reads the clamped and encoded value in cell `k`. */
  ghost predicate Takes(a: Arithmetic, m: Numerics, after: Rom, spec: Spec, limits: Limits, k: nat,
                        value: Result<Double, CellError>)
    requires a.Valid()
  {
    && value.Ok? && HoldsElement(after, spec.layout, k)
    && Encoded(a, m, spec, limits, value.value) == Some(Shown(m, after, spec.layout, k))
  }

  lemma SelectedTakes(a: Arithmetic, m: Numerics, rom: Rom, spec: Spec, width: nat, cells: seq<Cell>, s: Selection,
                      candidate: Candidate, edit: Edit, k: nat)
    requires a.Valid() && SelectionEdited(a, m, rom, spec, width, cells, s, candidate, Ok(edit))
    requires ValidSelection(width, |cells|, s) && k < |cells| && Selected(width, s, k)
    ensures LimitsFor(m, spec).Some?
    ensures Takes(a, m, Overwritten(rom, edit.writes), spec, LimitsFor(m, spec).value, k, candidate(k, k / width, k % width))
  {
    hide Encoded, Overwritten, Refused, OnlyWanted, Selected, ElementRaw, Shown, HoldsElement;
    var wanted := SelectionWanted(width, |cells|, s, candidate);
    assert CellShown(a, m, rom, Overwritten(rom, edit.writes), spec, LimitsFor(m, spec).value, wanted, k);
  }

  // ---- Increment and assignment -----------------------------------------------------------

  function CurrentValue(a: Arithmetic, cells: seq<Cell>, index: nat): Result<Double, CellError> {
    if index >= |cells| || cells[index].None? then Err(NoCurrentValue)
    else if !a.isFinite(cells[index].value) then Err(CellError.NotFinite)
    else Ok(cells[index].value)
  }

  function IncrementedCell(a: Arithmetic, cells: seq<Cell>, amount: Double, index: nat): Result<Double, CellError> {
    var current := CurrentValue(a, cells, index);
    if current.Err? then current else Ok(a.add(current.value, amount))
  }

  function Incremented(a: Arithmetic, cells: seq<Cell>, amount: Double): Candidate {
    (index: nat, row: nat, col: nat) => IncrementedCell(a, cells, amount, index)
  }

  datatype IncrementStep = FineUp | FineDown | CoarseUp | CoarseDown

  function Amount(a: Arithmetic, m: Numerics, fine: Double, coarse: Double, step: IncrementStep): Double {
    a.multiply(if step.FineUp? || step.FineDown? then fine else coarse,
               if step.FineDown? || step.CoarseDown? then m.minusOne else m.one)
  }

  /** The step is the fine or the coarse increment, upwards or downwards. */
  lemma AmountIs(a: Arithmetic, m: Numerics, fine: Double, coarse: Double)
    ensures Amount(a, m, fine, coarse, FineUp) == a.multiply(fine, m.one)
    ensures Amount(a, m, fine, coarse, FineDown) == a.multiply(fine, m.minusOne)
    ensures Amount(a, m, fine, coarse, CoarseUp) == a.multiply(coarse, m.one)
    ensures Amount(a, m, fine, coarse, CoarseDown) == a.multiply(coarse, m.minusOne)
  {
  }

  method CalculateIncrement(a: Arithmetic, m: Numerics, rom: Rom, spec: Spec, width: nat, cells: seq<Cell>,
                            s: Selection, fine: Double, coarse: Double, step: IncrementStep)
    returns (r: Option<Result<Edit, EditError>>)
    requires a.Valid()
    ensures var amount := Amount(a, m, fine, coarse, step);
            && (r.None? <==> !a.isFinite(amount) || a.isZero(amount))
            && (r.Some? ==>
                  r.value == SelectionOutcome(a, m, rom, spec, width, cells, s, Incremented(a, cells, amount)))
            && (r.Some? && rom.Valid() ==>
                  && SelectionEdited(a, m, rom, spec, width, cells, s, Incremented(a, cells, amount), r.value)
                  && (r.value.Ok? ==> EachIncremented(a, m, rom, spec, width, cells, s, amount, r.value.value)))
  {
    hide SelectionEdited, SelectionOutcome, EachIncremented;
    var amount := Amount(a, m, fine, coarse, step);
    if !a.isFinite(amount) || a.isZero(amount) {
      return None;
    }
    var edit := BuildPatch(a, m, rom, spec, width, cells, s, Incremented(a, cells, amount));
    if rom.Valid() && edit.Ok? {
      IncrementShown(a, m, rom, spec, width, cells, s, amount, edit.value);
    }
    r := Some(edit);
  }

  /** Each selected cell had a finite value, and now reads as that value plus the amount. */
  ghost predicate EachIncremented(a: Arithmetic, m: Numerics, rom: Rom, spec: Spec, width: nat, cells: seq<Cell>,
                                  s: Selection, amount: Double, edit: Edit)
    requires a.Valid()
  {
    && ValidSelection(width, |cells|, s) && LimitsFor(m, spec).Some?
    && forall k: nat :: k < |cells| && Selected(width, s, k) ==>
         && cells[k].Some? && a.isFinite(cells[k].value)
         && Takes(a, m, Overwritten(rom, edit.writes), spec, LimitsFor(m, spec).value, k, Ok(a.add(cells[k].value, amount)))
  }

  lemma IncrementShown(a: Arithmetic, m: Numerics, rom: Rom, spec: Spec, width: nat, cells: seq<Cell>, s: Selection,
                       amount: Double, edit: Edit)
    requires a.Valid() && SelectionEdited(a, m, rom, spec, width, cells, s, Incremented(a, cells, amount), Ok(edit))
    ensures EachIncremented(a, m, rom, spec, width, cells, s, amount, edit)
  {
    hide Edited, Encoded, Overwritten, Selected, Shown, HoldsElement;
    forall k: nat | k < |cells| && Selected(width, s, k)
      ensures cells[k].Some? && a.isFinite(cells[k].value)
      ensures LimitsFor(m, spec).Some?
      ensures Takes(a, m, Overwritten(rom, edit.writes), spec, LimitsFor(m, spec).value, k,
                    Ok(a.add(cells[k].value, amount)))
    {
      SelectedTakes(a, m, rom, spec, width, cells, s, Incremented(a, cells, amount), edit, k);
    }
  }

  /** The formula's value at `x`. */
  function FormulaValue(a: Arithmetic, formula: string, x: Double): Result<Double, CellError>
    requires a.Valid()
  {
    var value := Evaluated(a, formula, x);
    if value.Some? then Ok(value.value) else Err(Unencodable)
  }

  /** A formula that does not read the cell is evaluated at zero, whatever the cell holds. */
  function Assigned(a: Arithmetic, m: Numerics, cells: seq<Cell>, formula: string, needsInput: bool, index: nat)
    : Result<Double, CellError>
    requires a.Valid()
  {
    var current := if needsInput then CurrentValue(a, cells, index) else Ok(m.zero);
    if current.Err? then current else FormulaValue(a, formula, current.value)
  }

  function Assignment(a: Arithmetic, m: Numerics, cells: seq<Cell>, formula: string, needsInput: bool): Candidate
    requires a.Valid()
  {
    (index: nat, row: nat, col: nat) => Assigned(a, m, cells, formula, needsInput, index)
  }

  method CalculateAssignment(a: Arithmetic, m: Numerics, rom: Rom, spec: Spec, width: nat, cells: seq<Cell>,
                             s: Selection, formula: string)
    returns (r: Option<Result<Edit, EditError>>)
    requires a.Valid()
    ensures r.None? <==> !Blank(formula) && Scan(a, formula).None?
    ensures var needsInput := Blank(formula) || Scan(a, formula) == Some(true);
            var candidate := Assignment(a, m, cells, formula, needsInput);
            r.Some? ==>
              && r.value == SelectionOutcome(a, m, rom, spec, width, cells, s, candidate)
              && (rom.Valid() ==> SelectionEdited(a, m, rom, spec, width, cells, s, candidate, r.value))
    ensures r.Some? && r.value.Ok? && rom.Valid() && a.IgnoresTrailingSpace() && a.isFinite(m.zero) ==>
              EachAssigned(a, m, rom, spec, width, cells, s, formula, r.value.value)
  {
    hide SelectionEdited, SelectionOutcome, EachAssigned, Scan;
    var needsInput := UsesCurrentValue(a, formula);
    if needsInput.None? {
      return None;
    }
    var edit := BuildPatch(a, m, rom, spec, width, cells, s, Assignment(a, m, cells, formula, needsInput.value));
    if rom.Valid() && edit.Ok? && a.IgnoresTrailingSpace() && a.isFinite(m.zero) {
      AssignmentShown(a, m, rom, spec, width, cells, s, formula, needsInput.value, edit.value);
    }
    r := Some(edit);
  }

  /** The formula parses, and each selected cell now reads as its value at the cell's old value; a
      cell without a finite value takes a formula that does not read it. */
  ghost predicate EachAssigned(a: Arithmetic, m: Numerics, rom: Rom, spec: Spec, width: nat, cells: seq<Cell>,
                               s: Selection, formula: string, edit: Edit)
    requires a.Valid()
  {
    && ValidSelection(width, |cells|, s) && LimitsFor(m, spec).Some? && ParseText(a, formula).Ok?
    && forall k: nat :: k < |cells| && Selected(width, s, k) ==>
         var current := CurrentValue(a, cells, k);
         && (current.Err? ==> !UsesInput(ParseText(a, formula).value))
         && Takes(a, m, Overwritten(rom, edit.writes), spec, LimitsFor(m, spec).value, k,
                  FormulaValue(a, formula, if current.Ok? then current.value else m.zero))
  }

  lemma AssignmentShown(a: Arithmetic, m: Numerics, rom: Rom, spec: Spec, width: nat, cells: seq<Cell>, s: Selection,
                        formula: string, needsInput: bool, edit: Edit)
    requires a.Valid() && a.IgnoresTrailingSpace() && a.isFinite(m.zero)
    requires Some(needsInput) == if Blank(formula) then Some(true) else Scan(a, formula)
    requires SelectionEdited(a, m, rom, spec, width, cells, s, Assignment(a, m, cells, formula, needsInput), Ok(edit))
    ensures EachAssigned(a, m, rom, spec, width, cells, s, formula, edit)
  {
    hide Edited, Encoded, Overwritten, Shown, HoldsElement, Scan, ParseText, Eval, Selected, Evaluated;
    forall k: nat | k < |cells| && Selected(width, s, k)
      ensures ParseText(a, formula).Ok? && LimitsFor(m, spec).Some?
      ensures CurrentValue(a, cells, k).Err? ==> !UsesInput(ParseText(a, formula).value)
      ensures var current := CurrentValue(a, cells, k);
              Takes(a, m, Overwritten(rom, edit.writes), spec, LimitsFor(m, spec).value, k,
                    FormulaValue(a, formula, if current.Ok? then current.value else m.zero))
    {
      SelectedTakes(a, m, rom, spec, width, cells, s, Assignment(a, m, cells, formula, needsInput), edit, k);
      Parses(a, m, cells, formula, needsInput, k);
      if CurrentValue(a, cells, k).Ok? {
        AssignmentMeaning(a, m, cells, formula, k);
      } else {
        ScannerAgrees(a, formula);
        InputInstruction(ParseText(a, formula).value);
      }
    }
    SomeSelected(width, |cells|, s);
  }

  lemma Parses(a: Arithmetic, m: Numerics, cells: seq<Cell>, formula: string, needsInput: bool, k: nat)
    requires a.Valid() && Assigned(a, m, cells, formula, needsInput, k).Ok?
    ensures ParseText(a, formula).Ok?
  {
    hide ParseText, Eval;
  }

  /** A valid selection has a cell. */
  lemma SomeSelected(width: nat, count: nat, s: Selection)
    requires ValidSelection(width, count, s)
    ensures exists k: nat :: k < count && Selected(width, s, k)
  {
    IndexInRun(width, count, s.firstRow, s.firstCol);
    CellPlace(width, s.firstRow, s.firstCol);
    assert Selected(width, s, CellIndex(width, s.firstRow, s.firstCol));
  }

  /** The scanner's answer cannot be observed: a cell with a finite value is assigned the formula's
      value there, and a formula the scanner refuses has no value anywhere. */
  lemma AssignmentMeaning(a: Arithmetic, m: Numerics, cells: seq<Cell>, formula: string, index: nat)
    requires a.Valid() && a.IgnoresTrailingSpace() && a.isFinite(m.zero)
    requires CurrentValue(a, cells, index).Ok?
    ensures var x := CurrentValue(a, cells, index).value;
            var scan := if Blank(formula) then Some(true) else Scan(a, formula);
            && (scan.Some? ==> Assigned(a, m, cells, formula, scan.value, index) == FormulaValue(a, formula, x))
            && (scan.None? ==> FormulaValue(a, formula, x).Err?)
  {
    hide ParseText, Eval, Scan;
    if ParseText(a, formula).Ok? {
      ScannerAgrees(a, formula);
      if !Blank(formula) && Scan(a, formula) == Some(false) {
        ConstantFormula(a, formula, m.zero, CurrentValue(a, cells, index).value);
      }
    }
  }

  // ---- Interpolation ----------------------------------------------------------------------

  datatype InterpolationMode = Horizontal | Vertical | Bidirectional

  /** Linear interpolation and the quotient of two counts, left abstract. */
  datatype Blending = Blending(lerp: (Double, Double, Double) -> Double, ratio: (nat, nat) -> Double) {

    /** Interpolation between finite values is exact at both ends. */
    ghost predicate ExactEnds(a: Arithmetic, zero: Double) {
      && (forall n: nat :: n > 0 ==> ratio(0, n) == zero)
      && (forall l, r :: a.isFinite(l) && a.isFinite(r) ==> lerp(l, r, zero) == l)
      && (forall l, r, n: nat :: a.isFinite(l) && a.isFinite(r) && n > 0 ==> lerp(l, r, ratio(n, n)) == r)
    }
  }

  function Fraction(m: Numerics, b: Blending, first: nat, last: nat, at: nat): Double
    requires first <= at && first <= last
  {
    if first == last then m.zero else b.ratio(at - first, last - first)
  }

  function InterpolatePair(a: Arithmetic, b: Blending, cells: seq<Cell>, first: nat, last: nat, fraction: Double)
    : Result<Double, CellError>
  {
    var left := CurrentValue(a, cells, first);
    if left.Err? then left
    else
      var right := CurrentValue(a, cells, last);
      if right.Err? then right else Ok(b.lerp(left.value, right.value, fraction))
  }

  function Interpolated(a: Arithmetic, m: Numerics, b: Blending, cells: seq<Cell>, width: nat, s: Selection,
                        mode: InterpolationMode, row: nat, col: nat): Result<Double, CellError>
    requires ValidSelection(width, |cells|, s) && s.firstRow <= row <= s.lastRow && s.firstCol <= col <= s.lastCol
  {
    var horizontal := Fraction(m, b, s.firstCol, s.lastCol, col);
    var vertical := Fraction(m, b, s.firstRow, s.lastRow, row);
    match mode
    case Horizontal =>
      InterpolatePair(a, b, cells, CellIndex(width, row, s.firstCol), CellIndex(width, row, s.lastCol), horizontal)
    case Vertical =>
      InterpolatePair(a, b, cells, CellIndex(width, s.firstRow, col), CellIndex(width, s.lastRow, col), vertical)
    case Bidirectional =>
      var top :=
        InterpolatePair(a, b, cells, CellIndex(width, s.firstRow, s.firstCol), CellIndex(width, s.firstRow, s.lastCol),
                        horizontal);
      if top.Err? then top
      else
        var bottom :=
          InterpolatePair(a, b, cells, CellIndex(width, s.lastRow, s.firstCol), CellIndex(width, s.lastRow, s.lastCol),
                          horizontal);
        if bottom.Err? then bottom else Ok(b.lerp(top.value, bottom.value, vertical))
  }

  /** The cells a mode interpolates between keep their values: the first and last columns, rows, or
      the four corners. */
  lemma InterpolationKeepsEnds(a: Arithmetic, m: Numerics, b: Blending, cells: seq<Cell>, width: nat, s: Selection,
                               mode: InterpolationMode, row: nat, col: nat)
    requires ValidSelection(width, |cells|, s) && s.firstRow <= row <= s.lastRow && s.firstCol <= col <= s.lastCol
    requires b.ExactEnds(a, m.zero) && Interpolated(a, m, b, cells, width, s, mode, row, col).Ok?
    requires !mode.Vertical? ==> col == s.firstCol || col == s.lastCol
    requires !mode.Horizontal? ==> row == s.firstRow || row == s.lastRow
    ensures Interpolated(a, m, b, cells, width, s, mode, row, col) == CurrentValue(a, cells, CellIndex(width, row, col))
  {
    assert 0 <= s.firstRow <= s.lastRow && 0 <= s.firstCol <= s.lastCol;
    hide InterpolatePair, Fraction, CellIndex, ValidSelection;
    var top, bottom := s.firstRow, s.lastRow;
    match mode
    case Horizontal =>
      PairEnd(a, m, b, cells, CellIndex(width, row, s.firstCol), CellIndex(width, row, s.lastCol),
              s.firstCol, s.lastCol, col);
    case Vertical =>
      PairEnd(a, m, b, cells, CellIndex(width, top, col), CellIndex(width, bottom, col), top, bottom, row);
    case Bidirectional =>
      PairEnd(a, m, b, cells, CellIndex(width, top, s.firstCol), CellIndex(width, top, s.lastCol),
              s.firstCol, s.lastCol, col);
      PairEnd(a, m, b, cells, CellIndex(width, bottom, s.firstCol), CellIndex(width, bottom, s.lastCol),
              s.firstCol, s.lastCol, col);
      var x, y := CurrentValue(a, cells, CellIndex(width, top, col)), CurrentValue(a, cells, CellIndex(width, bottom, col));
      ExactEnd(a, m, b, top, bottom, row, x.value, y.value);
  }

  lemma ExactEnd(a: Arithmetic, m: Numerics, b: Blending, first: nat, last: nat, at: nat, l: Double, r: Double)
    requires b.ExactEnds(a, m.zero) && first <= last && (at == first || at == last)
    requires a.isFinite(l) && a.isFinite(r)
    ensures b.lerp(l, r, Fraction(m, b, first, last, at)) == if at == first then l else r
  {
    assert b.lerp(l, r, m.zero) == l;
  }

  lemma PairEnd(a: Arithmetic, m: Numerics, b: Blending, cells: seq<Cell>, i: nat, j: nat, first: nat, last: nat, at: nat)
    requires b.ExactEnds(a, m.zero) && first <= last && (at == first || at == last)
    ensures var pair := InterpolatePair(a, b, cells, i, j, Fraction(m, b, first, last, at));
            pair.Ok? ==> pair == CurrentValue(a, cells, if at == first then i else j)
  {
    hide Fraction;
    var left, right := CurrentValue(a, cells, i), CurrentValue(a, cells, j);
    if left.Ok? && right.Ok? {
      ExactEnd(a, m, b, first, last, at, left.value, right.value);
    }
  }

  method CalculateInterpolation(a: Arithmetic, m: Numerics, b: Blending, rom: Rom, spec: Spec, width: nat,
                                cells: seq<Cell>, s: Selection, mode: InterpolationMode)
    returns (r: Result<Edit, EditError>)
    requires a.Valid()
    ensures var candidate := Interpolation(a, m, b, cells, width, s, mode);
            && r == SelectionOutcome(a, m, rom, spec, width, cells, s, candidate)
            && (rom.Valid() ==> SelectionEdited(a, m, rom, spec, width, cells, s, candidate, r))
    ensures rom.Valid() && r.Ok? ==> EachInterpolated(a, m, b, rom, spec, width, cells, s, mode, r.value)
    ensures rom.Valid() && r.Ok? ==> EachBlended(a, m, b, rom, spec, width, cells, s, mode, r.value)
    ensures rom.Valid() && r.Ok? && b.ExactEnds(a, m.zero) ==> EndsKept(a, m, rom, spec, width, cells, s, mode, r.value)
  {
    hide SelectionEdited, SelectionOutcome, EachInterpolated, EachBlended, EndsKept;
    r := BuildPatch(a, m, rom, spec, width, cells, s, Interpolation(a, m, b, cells, width, s, mode));
    if rom.Valid() && r.Ok? {
      InterpolationShown(a, m, b, rom, spec, width, cells, s, mode, r.value);
      BlendShown(a, m, b, rom, spec, width, cells, s, mode, r.value);
      if b.ExactEnds(a, m.zero) {
        EndsShown(a, m, b, rom, spec, width, cells, s, mode, r.value);
      }
    }
  }

  /** Each selected cell now reads as its interpolated value. */
  ghost predicate EachInterpolated(a: Arithmetic, m: Numerics, b: Blending, rom: Rom, spec: Spec, width: nat,
                                   cells: seq<Cell>, s: Selection, mode: InterpolationMode, edit: Edit)
    requires a.Valid()
  {
    && ValidSelection(width, |cells|, s) && LimitsFor(m, spec).Some?
    && forall k: nat :: k < |cells| && Selected(width, s, k) ==>
         Takes(a, m, Overwritten(rom, edit.writes), spec, LimitsFor(m, spec).value, k,
               Interpolated(a, m, b, cells, width, s, mode, k / width, k % width))
  }

  lemma InterpolationShown(a: Arithmetic, m: Numerics, b: Blending, rom: Rom, spec: Spec, width: nat, cells: seq<Cell>,
                           s: Selection, mode: InterpolationMode, edit: Edit)
    requires a.Valid()
    requires SelectionEdited(a, m, rom, spec, width, cells, s, Interpolation(a, m, b, cells, width, s, mode), Ok(edit))
    ensures EachInterpolated(a, m, b, rom, spec, width, cells, s, mode, edit)
  {
    hide Edited, Encoded, Overwritten, Shown, HoldsElement, Takes, Interpolated;
    forall k: nat | k < |cells| && Selected(width, s, k)
      ensures LimitsFor(m, spec).Some?
      ensures Takes(a, m, Overwritten(rom, edit.writes), spec, LimitsFor(m, spec).value, k,
                    Interpolated(a, m, b, cells, width, s, mode, k / width, k % width))
    {
      SelectedTakes(a, m, rom, spec, width, cells, s, Interpolation(a, m, b, cells, width, s, mode), edit, k);
    }
  }

  /** The cell has a finite value. */
  predicate HasValue(a: Arithmetic, cells: seq<Cell>, i: int) {
    0 <= i < |cells| && cells[i].Some? && a.isFinite(cells[i].value)
  }

  /** Cell `k` of the selection reads as the blend of the cells at the ends of its row, at the ends of
      its column, or of the blends of the first and last rows' ends; the fraction is the cell's share of
      the way across or down, and zero where there is no way to go. */
  ghost predicate Blends(a: Arithmetic, m: Numerics, b: Blending, after: Rom, spec: Spec, limits: Limits, width: nat,
                         cells: seq<Cell>, s: Selection, mode: InterpolationMode, k: nat)
    requires a.Valid() && ValidSelection(width, |cells|, s) && Selected(width, s, k)
  {
    var row, col := k / width, k % width;
    var across := if s.firstCol == s.lastCol then m.zero else b.ratio(col - s.firstCol, s.lastCol - s.firstCol);
    var down := if s.firstRow == s.lastRow then m.zero else b.ratio(row - s.firstRow, s.lastRow - s.firstRow);
    match mode
    case Horizontal =>
      var left, right := row * width + s.firstCol, row * width + s.lastCol;
      && HasValue(a, cells, left) && HasValue(a, cells, right)
      && Takes(a, m, after, spec, limits, k, Ok(b.lerp(cells[left].value, cells[right].value, across)))
    case Vertical =>
      var top, bottom := s.firstRow * width + col, s.lastRow * width + col;
      && HasValue(a, cells, top) && HasValue(a, cells, bottom)
      && Takes(a, m, after, spec, limits, k, Ok(b.lerp(cells[top].value, cells[bottom].value, down)))
    case Bidirectional =>
      var topLeft, topRight := s.firstRow * width + s.firstCol, s.firstRow * width + s.lastCol;
      var bottomLeft, bottomRight := s.lastRow * width + s.firstCol, s.lastRow * width + s.lastCol;
      && HasValue(a, cells, topLeft) && HasValue(a, cells, topRight)
      && HasValue(a, cells, bottomLeft) && HasValue(a, cells, bottomRight)
      && Takes(a, m, after, spec, limits, k,
               Ok(b.lerp(b.lerp(cells[topLeft].value, cells[topRight].value, across),
                         b.lerp(cells[bottomLeft].value, cells[bottomRight].value, across), down)))
  }

  ghost predicate EachBlended(a: Arithmetic, m: Numerics, b: Blending, rom: Rom, spec: Spec, width: nat,
                              cells: seq<Cell>, s: Selection, mode: InterpolationMode, edit: Edit)
    requires a.Valid()
  {
    && ValidSelection(width, |cells|, s) && LimitsFor(m, spec).Some?
    && forall k: nat :: k < |cells| && Selected(width, s, k) ==>
         Blends(a, m, b, Overwritten(rom, edit.writes), spec, LimitsFor(m, spec).value, width, cells, s, mode, k)
  }

  lemma BlendShown(a: Arithmetic, m: Numerics, b: Blending, rom: Rom, spec: Spec, width: nat, cells: seq<Cell>,
                   s: Selection, mode: InterpolationMode, edit: Edit)
    requires a.Valid() && EachInterpolated(a, m, b, rom, spec, width, cells, s, mode, edit)
    ensures EachBlended(a, m, b, rom, spec, width, cells, s, mode, edit)
  {
    hide Takes, Blends, Interpolated, Overwritten;
    var limits, after := LimitsFor(m, spec).value, Overwritten(rom, edit.writes);
    forall k: nat | k < |cells| && Selected(width, s, k)
      ensures Blends(a, m, b, after, spec, limits, width, cells, s, mode, k)
    {
      assert Takes(a, m, after, spec, limits, k, Interpolated(a, m, b, cells, width, s, mode, k / width, k % width));
      OneBlend(a, m, b, after, spec, limits, width, cells, s, mode, k);
    }
  }

  lemma OneBlend(a: Arithmetic, m: Numerics, b: Blending, after: Rom, spec: Spec, limits: Limits, width: nat,
                 cells: seq<Cell>, s: Selection, mode: InterpolationMode, k: nat)
    requires a.Valid() && ValidSelection(width, |cells|, s) && Selected(width, s, k)
    requires Takes(a, m, after, spec, limits, k, Interpolated(a, m, b, cells, width, s, mode, k / width, k % width))
    ensures Blends(a, m, b, after, spec, limits, width, cells, s, mode, k)
  {
    hide Encoded, Shown, HoldsElement;
  }

  /** The cells a mode interpolates between. */
  predicate AtEnd(width: nat, s: Selection, mode: InterpolationMode, k: nat)
    requires width > 0
  {
    && (!mode.Vertical? ==> k % width == s.firstCol || k % width == s.lastCol)
    && (!mode.Horizontal? ==> k / width == s.firstRow || k / width == s.lastRow)
  }

  /** Those cells read as the values they had. */
  ghost predicate EndsKept(a: Arithmetic, m: Numerics, rom: Rom, spec: Spec, width: nat, cells: seq<Cell>, s: Selection,
                           mode: InterpolationMode, edit: Edit)
    requires a.Valid()
  {
    && ValidSelection(width, |cells|, s) && LimitsFor(m, spec).Some?
    && forall k: nat :: k < |cells| && Selected(width, s, k) && AtEnd(width, s, mode, k) ==>
         Takes(a, m, Overwritten(rom, edit.writes), spec, LimitsFor(m, spec).value, k, CurrentValue(a, cells, k))
  }

  lemma EndsShown(a: Arithmetic, m: Numerics, b: Blending, rom: Rom, spec: Spec, width: nat, cells: seq<Cell>,
                  s: Selection, mode: InterpolationMode, edit: Edit)
    requires a.Valid() && b.ExactEnds(a, m.zero) && EachInterpolated(a, m, b, rom, spec, width, cells, s, mode, edit)
    ensures EndsKept(a, m, rom, spec, width, cells, s, mode, edit)
  {
    hide Encoded, Overwritten, Shown, HoldsElement, Interpolated, CurrentValue, CellIndex, Blending.ExactEnds;
    var limits, after := LimitsFor(m, spec).value, Overwritten(rom, edit.writes);
    forall k: nat | k < |cells| && Selected(width, s, k) && AtEnd(width, s, mode, k)
      ensures Takes(a, m, after, spec, limits, k, CurrentValue(a, cells, k))
    {
      RowOf(width, |cells|, k);
      assert Takes(a, m, after, spec, limits, k, Interpolated(a, m, b, cells, width, s, mode, k / width, k % width));
      InterpolationKeepsEnds(a, m, b, cells, width, s, mode, k / width, k % width);
    }
  }

  /** Only selected cells are ever asked for. */
  function Interpolation(a: Arithmetic, m: Numerics, b: Blending, cells: seq<Cell>, width: nat, s: Selection,
                         mode: InterpolationMode): Candidate
  {
    (index: nat, row: nat, col: nat) =>
      if ValidSelection(width, |cells|, s) && s.firstRow <= row <= s.lastRow && s.firstCol <= col <= s.lastCol
      then Interpolated(a, m, b, cells, width, s, mode, row, col)
      else Err(NoCurrentValue)
  }
}
