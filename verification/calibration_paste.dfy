/** Pasting a block of values (src/backend/calibration/numeric_map_edit.cpp). */
module CalibrationPaste {
  import opened Results
  import opened Bytes
  import opened Arithmetic
  import opened CalibrationDecode
  import opened CalibrationEdit
  import opened CalibrationAgreement
  import opened CalibrationSelection

  function Min(x: nat, y: nat): nat {
    if x <= y then x else y
  }

  /** How many values of a pasted row are used: no more than the first row has, nor than fit. */
  function PasteColumns(width: nat, s: Selection, values: seq<seq<Double>>, row: nat): nat
    requires 0 <= s.firstCol <= width && row < |values|
  {
    Min(Min(|values[0]|, |values[row]|), width - s.firstCol)
  }

  /** The cell a pasted value goes to. */
  function PasteRequest(width: nat, height: nat, row: nat, col: nat, value: Double): (q: Request)
    requires row < height && col < width && height * width < U32
    ensures q.index == CellIndex(width, row, col) && q.wanted == Ok(value) && q.oldValue == None
  {
    PasteFits(width, height, row, col);
    Request(CellIndex(width, row, col), Ok(value), None)
  }

  function PasteRow(width: nat, height: nat, s: Selection, values: seq<seq<Double>>, row: nat): (r: seq<Request>)
    requires ValidSelection(width, height * width, s) && row < |values| && s.firstRow + row < height
    ensures |r| == PasteColumns(width, s, values, row)
    ensures forall c :: 0 <= c < |r| ==>
              r[c] == PasteRequest(width, height, s.firstRow + row, s.firstCol + c, values[row][c])
  {
    seq(PasteColumns(width, s, values, row),
      c requires 0 <= c < PasteColumns(width, s, values, row) =>
        PasteRequest(width, height, s.firstRow + row, s.firstCol + c, values[row][c]))
  }

  lemma PasteFits(width: nat, height: nat, row: nat, col: nat)
    requires row < height && col < width
    ensures CellIndex(width, row, col) < height * width
  {
    Scales(row + 1, height, width);
    assert (row + 1) * width == row * width + width;
  }

  function PasteRows(width: nat, height: nat, s: Selection, values: seq<seq<Double>>): (r: seq<seq<Request>>)
    requires ValidSelection(width, height * width, s)
    ensures |r| == Min(|values|, height - s.firstRow)
    ensures forall k :: 0 <= k < |r| ==> r[k] == PasteRow(width, height, s, values, k)
  {
    HeightRows(width, height);
    seq(Min(|values|, height - s.firstRow),
      k requires 0 <= k < Min(|values|, height - s.firstRow) => PasteRow(width, height, s, values, k))
  }

  lemma HeightRows(width: nat, height: nat)
    requires width > 0
    ensures height * width / width == height
  {
    CellPlace(width, height, 0);
    assert CellIndex(width, height, 0) == height * width;
  }

  /** The value pasted into cell `k` of a run `width` wide: the block's value at the cell's row and
      column from the selection's first cell, where the block has one and the run has room. */
  function PasteWanted(width: nat, count: nat, s: Selection, values: seq<seq<Double>>): Wanted {
    (k: nat) =>
      if width == 0 || k >= count || !(0 <= s.firstRow && 0 <= s.firstCol <= width) then None
      else
        var row, col := k / width - s.firstRow, k % width - s.firstCol;
        if 0 <= row < |values| && 0 <= col < |values[0]| && col < |values[row]| then Some(Ok(values[row][col])) else None
  }

  method CalculatePaste(a: Arithmetic, m: Numerics, rom: Rom, spec: Spec, width: nat, height: nat, s: Selection,
                        values: seq<seq<Double>>)
    returns (r: Result<Edit, EditError>)
    requires a.Valid()
    ensures !ValidSelection(width, height * width, s) ==> r == Err(InvalidSelection)
    ensures ValidSelection(width, height * width, s) && LimitsFor(m, spec).None? ==> r == Err(InvalidLimits)
    ensures ValidSelection(width, height * width, s) && LimitsFor(m, spec).Some? ==>
              && r == FinishedPatch(a, m, rom, spec, LimitsFor(m, spec).value, Flat(PasteRows(width, height, s, values)))
              && (rom.Valid() ==> Edited(a, m, rom, spec, LimitsFor(m, spec).value, height * width,
                                         PasteWanted(width, height * width, s, values), r))
  {
    hide Edited, FinishedPatch, Flat, PasteRows;
    if !ValidSelection(width, height * width, s) {
      return Err(InvalidSelection);
    }
    var limits := LimitsFor(m, spec);
    if limits.None? {
      return Err(InvalidLimits);
    }
    r := PatchRows(a, m, rom, spec, limits.value, PasteRows(width, height, s, values));
    PasteAsks(width, height, s, values);
    if rom.Valid() {
      EditDecodes(a, m, rom, spec, limits.value, Flat(PasteRows(width, height, s, values)), height * width,
                  PasteWanted(width, height * width, s, values));
    }
  }

  /** A paste too names each cell once, so its edit agrees with the decoder. */
  lemma PasteAscends(width: nat, height: nat, s: Selection, values: seq<seq<Double>>)
    requires ValidSelection(width, height * width, s)
    ensures Ascending(Flat(PasteRows(width, height, s, values)))
  {
    hide Flat, Ascending, PasteRows, Banded;
    PasteBanded(width, height, s, values);
    FlatAscends(PasteRows(width, height, s, values), s.firstRow, width);
  }

  lemma PasteBanded(width: nat, height: nat, s: Selection, values: seq<seq<Double>>)
    requires ValidSelection(width, height * width, s)
    ensures Banded(PasteRows(width, height, s, values), s.firstRow, width)
  {
    hide InRow, PasteRow;
    HeightRows(width, height);
    var rows := PasteRows(width, height, s, values);
    forall k | 0 <= k < |rows|
      ensures InRow(rows[k], s.firstRow + k, width)
    {
      PasteBand(width, height, s, values, k);
    }
  }

  lemma PasteBand(width: nat, height: nat, s: Selection, values: seq<seq<Double>>, k: nat)
    requires ValidSelection(width, height * width, s) && k < |values| && s.firstRow + k < height
    ensures InRow(PasteRow(width, height, s, values, k), s.firstRow + k, width)
  {
    var base := (s.firstRow + k) * width;
    assert (s.firstRow + k + 1) * width == base + width;
    var list := PasteRow(width, height, s, values, k);
    assert forall c :: 0 <= c < |list| ==> list[c].index == base + s.firstCol + c;
    hide PasteRow;
  }

  /** Each pasted cell is requested. */
  lemma WantedPasted(width: nat, height: nat, s: Selection, values: seq<seq<Double>>, k: nat)
    requires ValidSelection(width, height * width, s) && k < height * width
    requires PasteWanted(width, height * width, s, values)(k).Some?
    ensures exists q :: q in Flat(PasteRows(width, height, s, values)) && q.index == k
  {
    HeightRows(width, height);
    RowOf(width, height * width, k);
    hide CellIndex, Flat;
    var rows := PasteRows(width, height, s, values);
    var i, c := k / width - s.firstRow, k % width - s.firstCol;
    var q := rows[i][c];
    assert rows[i] == PasteRow(width, height, s, values, i);
    assert q == PasteRequest(width, height, s.firstRow + i, s.firstCol + c, values[i][c]);
    InFlat(rows, q);
  }

  /** And no other cell is. */
  lemma PastedWanted(width: nat, height: nat, s: Selection, values: seq<seq<Double>>, q: Request)
    requires ValidSelection(width, height * width, s) && q in Flat(PasteRows(width, height, s, values))
    ensures q.index < height * width
    ensures PasteWanted(width, height * width, s, values)(q.index) == Some(q.wanted)
  {
    hide CellIndex, Flat, PasteWanted, PasteRows;
    var i, c := PasteOrigin(width, height, s, values, q);
    PlacedPaste(width, height, s, values, i, c);
  }

  lemma PasteOrigin(width: nat, height: nat, s: Selection, values: seq<seq<Double>>, q: Request) returns (i: nat, c: nat)
    requires ValidSelection(width, height * width, s) && q in Flat(PasteRows(width, height, s, values))
    ensures i < |values| && s.firstRow + i < height && c < PasteColumns(width, s, values, i)
    ensures q.index == CellIndex(width, s.firstRow + i, s.firstCol + c) && q.wanted == Ok(values[i][c])
  {
    hide CellIndex, Flat, PasteRow, PasteColumns;
    var rows := PasteRows(width, height, s, values);
    InFlat(rows, q);
    i :| 0 <= i < |rows| && q in rows[i];
    c :| 0 <= c < |rows[i]| && rows[i][c] == q;
    assert rows[i] == PasteRow(width, height, s, values, i);
  }

  lemma PlacedPaste(width: nat, height: nat, s: Selection, values: seq<seq<Double>>, i: nat, c: nat)
    requires 0 <= s.firstRow && 0 <= s.firstCol && i < |values| && c < |values[0]| && c < |values[i]|
    requires s.firstRow + i < height && s.firstCol + c < width
    ensures var k := CellIndex(width, s.firstRow + i, s.firstCol + c);
            && k < height * width
            && PasteWanted(width, height * width, s, values)(k) == Some(Ok(values[i][c]))
  {
    PasteFits(width, height, s.firstRow + i, s.firstCol + c);
    CellPlace(width, s.firstRow + i, s.firstCol + c);
    hide CellIndex;
  }

  lemma PasteAsks(width: nat, height: nat, s: Selection, values: seq<seq<Double>>)
    requires ValidSelection(width, height * width, s)
    ensures Asks(Flat(PasteRows(width, height, s, values)), height * width,
                 PasteWanted(width, height * width, s, values))
  {
    hide Flat, PasteRows, Ascending, ValidSelection, PasteWanted;
    var requests, wanted := Flat(PasteRows(width, height, s, values)), PasteWanted(width, height * width, s, values);
    PasteAscends(width, height, s, values);
    forall i | 0 <= i < |requests|
      ensures requests[i].index < height * width && wanted(requests[i].index) == Some(requests[i].wanted)
    {
      PastedWanted(width, height, s, values, requests[i]);
    }
    forall k: nat | k < height * width && wanted(k).Some?
      ensures exists i :: 0 <= i < |requests| && requests[i].index == k
    {
      WantedPasted(width, height, s, values, k);
      var q :| q in requests && q.index == k;
      var i :| 0 <= i < |requests| && requests[i] == q;
    }
  }
}
