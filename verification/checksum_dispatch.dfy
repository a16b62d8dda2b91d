/** Applying a checksum family to an image (src/backend/checksum/dispatch.cpp). The family itself and
    the route that selects it are parameters. */
module ChecksumDispatch {
  import opened Bytes
  import opened Results
  import opened MemoryMap
  import opened MemorySlices
  import opened MemoryImage
  import opened ChecksumPrimitives

  /** The first changed byte at or after `i` that cannot be written, with its error. */
  function Unwritable(blocks: seq<Block>, start: nat, before: seq<byte>, after: seq<byte>, i: nat): Option<MemoryError>
    requires |before| == |after| && i <= |before|
    decreases |before| - i
  {
    if i == |before| then None
    else
      var error := AddressError(blocks, start + i, true);
      if before[i] != after[i] && error.Some? then Some(MemoryError(error.value, start + i))
      else Unwritable(blocks, start, before, after, i + 1)
  }

  lemma {:induction false} UnwritableIff(blocks: seq<Block>, start: nat, before: seq<byte>, after: seq<byte>, i: nat)
    requires |before| == |after| && i <= |before|
    ensures Unwritable(blocks, start, before, after, i).None? <==>
            forall k :: i <= k < |before| && before[k] != after[k] ==> AddressError(blocks, start + k, true).None?
    decreases |before| - i
  {
    hide AddressError;
    if i < |before| {
      UnwritableIff(blocks, start, before, after, i + 1);
    }
  }

  lemma {:induction false} SkipSame(blocks: seq<Block>, start: nat, before: seq<byte>, after: seq<byte>, i: nat, j: nat)
    requires |before| == |after| && i <= j <= |before|
    requires forall k :: i <= k < j ==> before[k] != after[k]
    ensures var error := FirstError(blocks, start + i, start + j, true);
            Unwritable(blocks, start, before, after, i)
            == if error.Some? then error else Unwritable(blocks, start, before, after, j)
    decreases j - i
  {
    hide AddressError;
    if i < j {
      SkipSame(blocks, start, before, after, i + 1, j);
    }
  }

  /** The image shows `after` below `i` and `before` from `i` on. */
  ghost predicate Mixed(map_: Map, file: seq<byte>, start: nat, before: seq<byte>, after: seq<byte>, i: nat)
    requires |before| == |after|
  {
    forall k :: 0 <= k < |before| ==>
      ByteAt(map_.blocks, file, start + k) == Some(if k < i then after[k] else before[k])
  }

  /** Addresses outside the view show what they showed. */
  ghost predicate KeepsOutside(map_: Map, file: seq<byte>, start: nat, size: nat, file': seq<byte>) {
    forall a: nat :: !(start <= a < start + size) ==>
      ByteAt(map_.blocks, file', a) == ByteAt(map_.blocks, file, a)
  }

  /** Writes each run of changed bytes back through the map. It succeeds exactly when every
      changed byte can be written, and then the view shows `after`. */
  method WriteBack(image: Image, range: AddressRange, before: seq<byte>, after: seq<byte>)
    returns (error: Option<MemoryError>)
    requires image.Valid() && |before| == |after| == range.size
    requires Mixed(image.map_, image.file, range.start, before, after, 0)
    modifies image`file
    ensures image.Valid()
    ensures error == Unwritable(image.map_.blocks, range.start, before, after, 0)
    ensures error.None? ==> Mixed(image.map_, image.file, range.start, before, after, range.size)
    ensures KeepsOutside(image.map_, old(image.file), range.start, range.size, image.file)
  {
    hide ByteAt, FirstError, AddressError, PlacedOnce, ValidLayout;
    var blocks, start := image.map_.blocks, range.start;
    var index := 0;
    while index < |before|
      invariant 0 <= index <= |before| && image.Valid()
      invariant Mixed(image.map_, image.file, start, before, after, index)
      invariant KeepsOutside(image.map_, old(image.file), start, range.size, image.file)
      invariant Unwritable(blocks, start, before, after, index) == Unwritable(blocks, start, before, after, 0)
    {
      if before[index] == after[index] {
        index := index + 1;
        continue;
      }
      var runStart := index;
      while index < |before| && before[index] != after[index]
        invariant runStart <= index <= |before|
        invariant forall k :: runStart <= k < index ==> before[k] != after[k]
      {
        index := index + 1;
      }
      SkipSame(blocks, start, before, after, runStart, index);
      ghost var file := image.file;
      var written := image.Write(start + runStart, after[runStart..index]);
      if written.Some? {
        return written;
      }
      RunWritten(image.map_, file, start, before, after, runStart, index, image.file);
    }
    error := None;
  }

  lemma RunWritten(map_: Map, file: seq<byte>, start: nat, before: seq<byte>, after: seq<byte>, i: nat, j: nat,
                   file': seq<byte>)
    requires |before| == |after| && i < j <= |before|
    requires Mixed(map_, file, start, before, after, i)
    requires Shows(map_, file, start + i, after[i..j], file')
    ensures Mixed(map_, file', start, before, after, j)
    ensures KeepsOutside(map_, file, start, |before|, file')
  {
    hide ByteAt;
    forall k | 0 <= k < |before|
      ensures ByteAt(map_.blocks, file', start + k) == Some(if k < j then after[k] else before[k])
    {
      assert ByteAt(map_.blocks, file, start + k) == Some(if k < i then after[k] else before[k]);
    }
  }

  // ---- The whole correction ---------------------------------------------------------------

  datatype DispatchStatus = UnknownMcuType | BadRomSize | NoModuleForProtocol | FamilyRan

  datatype CorrectionOutcome = CorrectionOutcome(
    status: DispatchStatus,
    familyResult: Option<ChecksumResult>,
    correctedFile: Option<seq<byte>>)

  /** A route: the window its family checksums, and the family, which may decline to run. */
  datatype Route = Route(window: AddressRange, family: seq<byte> -> Option<ChecksumResult>)

  function Span(blocks: seq<Block>): RawRange
    requires blocks != []
  {
    var start, end := blocks[0].range.start, blocks[|blocks| - 1].range.End();
    Range(start, if end < start then 0 else end - start)
  }

  /** The bytes an image shows over a range every address of which some block holds. */
  ghost predicate ShowsRange(map_: Map, file: seq<byte>, range: AddressRange, data: seq<byte>) {
    && |data| == range.size
    && forall i :: 0 <= i < range.size ==> ByteAt(map_.blocks, file, range.start + i) == Some(data[i])
  }

  /** The route's window is exactly what the map spans, with a block holding every address. */
  predicate WindowMatches(map_: Map, window: AddressRange)
    requires map_.blocks != []
  {
    Span(map_.blocks) == window && FirstError(map_.blocks, window.start, window.End(), false).None?
  }

  /** Some block contains the address. */
  ghost predicate Held(blocks: seq<Block>, a: nat) {
    exists i :: 0 <= i < |blocks| && blocks[i].range.start <= a < blocks[i].range.start + blocks[i].range.size
  }

  /** The map's span runs from its first block's start to its last block's end. */
  lemma SpanByBlocks(map_: Map, window: AddressRange)
    requires map_.Valid()
    ensures WindowMatches(map_, window) <==>
            && window.start == map_.blocks[0].range.start
            && window.start + window.size
               == map_.blocks[|map_.blocks| - 1].range.start + map_.blocks[|map_.blocks| - 1].range.size
            && forall a: nat :: window.start <= a < window.start + window.size ==> Held(map_.blocks, a)
  {
    hide PlacedOnce, FirstError;
    var blocks := map_.blocks;
    if |blocks| > 1 {
      BlocksApart(blocks, 0, |blocks| - 1);
    }
    NoErrorAnywhere(blocks, window.start, window.End(), false);
    hide AddressError, Held;
    forall a: nat
      ensures AddressError(blocks, a, false).None? <==> Held(blocks, a)
    {
      HeldSomewhere(blocks, a);
    }
  }

  lemma HeldSomewhere(blocks: seq<Block>, a: nat)
    requires Ordered(blocks)
    ensures AddressError(blocks, a, false).None? <==> Held(blocks, a)
  {
    if i :| 0 <= i < |blocks| && blocks[i].range.start <= a < blocks[i].range.start + blocks[i].range.size {
      BlockAtFinds(blocks, a, i);
    }
  }

  /** The statuses whose bytes are written back. */
  lemma UsableStatuses(result: ChecksumResult, size: nat)
    ensures Usable(Some(result), size) <==> result.status in {Unchanged, Corrected, Disabled} && |result.rom| == size
    ensures !Usable(None, size)
  {
  }

  /** The family's bytes are usable: its result is OK and covers the window. */
  predicate Usable(result: Option<ChecksumResult>, size: nat) {
    result.Some? && result.value.Ok() && |result.value.rom| == size
  }

  /** What applying a route's family to a file gives: the family saw what the file shows, and its
      result is passed on, withheld, or written into a file of the same size. */
  ghost predicate FamilyApplied(map_: Map, file: seq<byte>, route: Route, view: seq<byte>, outcome: CorrectionOutcome) {
    var result := route.family(view);
    && ShowsRange(map_, file, route.window, view)
    && if !Usable(result, |view|) then outcome.familyResult == result && outcome.correctedFile.None?
       else if Unwritable(map_.blocks, route.window.start, view, result.value.rom, 0).Some?
       then && outcome.familyResult == Some(result.value.(status := UnsupportedRom))
            && outcome.correctedFile.None?
       else && outcome.familyResult == result
            && outcome.correctedFile.Some?
            && |outcome.correctedFile.value| == map_.fileSize
            && ShowsRange(map_, outcome.correctedFile.value, route.window, result.value.rom)
            && KeepsOutside(map_, file, route.window.start, |view|, outcome.correctedFile.value)
  }

  /** A corrected file shows exactly the family's bytes through the same map; a usable result is
      withheld exactly when it changes a byte that cannot be written. The image itself keeps
      its file, since nothing but a fresh copy is written. */
  method ApplyChecksumCorrection(image: Image, mcuKnown: bool, flagged: bool, route: Option<Route>)
    returns (outcome: CorrectionOutcome, ghost view: seq<byte>)
    requires image.Valid()
    ensures outcome.status == if !mcuKnown then UnknownMcuType
                              else if !flagged || route.None? then NoModuleForProtocol
                              else if !WindowMatches(image.map_, route.value.window) then BadRomSize
                              else FamilyRan
    ensures !outcome.status.FamilyRan? ==> outcome.familyResult.None? && outcome.correctedFile.None?
    ensures outcome.status.FamilyRan? ==> FamilyApplied(image.map_, image.file, route.value, view, outcome)
  {
    hide FirstError, ByteAt, PlacedOnce;
    view := [];
    if !mcuKnown {
      return CorrectionOutcome(UnknownMcuType, None, None), view;
    }
    if !flagged || route.None? {
      return CorrectionOutcome(NoModuleForProtocol, None, None), view;
    }
    var window := route.value.window;
    if Span(image.map_.blocks) != window {
      return CorrectionOutcome(BadRomSize, None, None), view;
    }
    var rendered := image.Render(window);
    if rendered.Err? {
      return CorrectionOutcome(BadRomSize, None, None), view;
    }
    var before := rendered.value;
    view := before;
    var result := route.value.family(before);
    if !Usable(result, |before|) {
      return CorrectionOutcome(FamilyRan, result, None), view;
    }
    var copy := new Image(image.map_, image.file);
    var error := WriteBack(copy, window, before, result.value.rom);
    if error.Some? {
      return CorrectionOutcome(FamilyRan, Some(result.value.(status := UnsupportedRom)), None), view;
    }
    outcome := CorrectionOutcome(FamilyRan, result, Some(copy.file));
  }

  predicate WritableFileByte(blocks: seq<Block>, address: nat) {
    var b := BlockAt(blocks, address);
    b.Some? && blocks[b.value].backing.FileBacked? && blocks[b.value].writable
  }

  /** A usable result is withheld exactly when some changed byte lies outside the writable
      file-backed blocks. */
  lemma WithheldIff(map_: Map, start: nat, before: seq<byte>, after: seq<byte>)
    requires |before| == |after|
    ensures Unwritable(map_.blocks, start, before, after, 0).Some? <==>
            exists k :: 0 <= k < |before| && before[k] != after[k] && !WritableFileByte(map_.blocks, start + k)
  {
    hide BlockAt;
    UnwritableIff(map_.blocks, start, before, after, 0);
    if k :| 0 <= k < |before| && before[k] != after[k] && AddressError(map_.blocks, start + k, true).Some? {
      assert before[k] != after[k] && !WritableFileByte(map_.blocks, start + k);
    }
  }

  // ---- Families that settle ---------------------------------------------------------------

  /** Every ROM the family yields satisfies `holds`, and the family leaves it as it is. */
  ghost predicate Settling(family: seq<byte> -> Option<ChecksumResult>, holds: seq<byte> -> bool, size: nat) {
    forall view :: |view| == size && Usable(family(view), size) ==>
      var rom := family(view).value.rom;
      holds(rom) && Usable(family(rom), size) && family(rom).value.rom == rom
  }

  /** Through a settling family, a yielded file shows a ROM on which the family's checksums hold, and
      applying the correction to that file yields the same file. */
  lemma CorrectedFileSettled(map_: Map, file: seq<byte>, route: Route, holds: seq<byte> -> bool, view: seq<byte>,
                             first: CorrectionOutcome, view': seq<byte>, second: CorrectionOutcome)
    requires map_.Valid() && |file| == map_.fileSize && Settling(route.family, holds, route.window.size)
    requires FamilyApplied(map_, file, route, view, first) && first.correctedFile.Some?
    requires FamilyApplied(map_, first.correctedFile.value, route, view', second)
    ensures ShowsRange(map_, first.correctedFile.value, route.window, view') && holds(view')
    ensures second.correctedFile == first.correctedFile
  {
    hide ByteAt, AddressError, PlacedOnce;
    var rom := route.family(view).value.rom;
    var once := first.correctedFile.value;
    SameView(map_, once, route.window, rom, view');
    NothingUnwritable(map_.blocks, route.window.start, rom);
    var twice := second.correctedFile.value;
    forall a: nat
      ensures ByteAt(map_.blocks, once, a) == ByteAt(map_.blocks, twice, a)
    {
      SameByte(map_, once, twice, route.window, rom, a);
    }
    FileDetermined(map_, once, twice);
  }

  lemma SameView(map_: Map, file: seq<byte>, window: AddressRange, rom: seq<byte>, view: seq<byte>)
    requires ShowsRange(map_, file, window, rom) && ShowsRange(map_, file, window, view)
    ensures rom == view
  {
    hide ByteAt;
    forall i | 0 <= i < |rom|
      ensures rom[i] == view[i]
    {
      assert ByteAt(map_.blocks, file, window.start + i) == Some(rom[i]);
    }
  }

  lemma NothingUnwritable(blocks: seq<Block>, start: nat, rom: seq<byte>)
    ensures Unwritable(blocks, start, rom, rom, 0).None?
  {
    UnwritableIff(blocks, start, rom, rom, 0);
  }

  lemma SameByte(map_: Map, once: seq<byte>, twice: seq<byte>, window: AddressRange, rom: seq<byte>, a: nat)
    requires ShowsRange(map_, once, window, rom) && ShowsRange(map_, twice, window, rom)
    requires KeepsOutside(map_, once, window.start, |rom|, twice)
    ensures ByteAt(map_.blocks, once, a) == ByteAt(map_.blocks, twice, a)
  {
    hide ByteAt;
    if window.start <= a < window.start + |rom| {
      var i := a - window.start;
      assert ByteAt(map_.blocks, once, window.start + i) == Some(rom[i]);
    }
  }
}
