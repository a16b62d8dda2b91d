/** A ROM file's bytes placed at ECU addresses (src/algorithms/memory/memory_image.cpp). Seen
    through its map, an image is a plain function from addresses to bytes. */
module MemoryImage {
  import opened Bytes
  import opened Results
  import opened MemoryMap
  import opened MemorySlices

  datatype ErrorKind = Unmapped | FillBlock | NotWritable | FileSizeMismatch

  datatype MemoryError = MemoryError(kind: ErrorKind, address: nat)

  // ---- The view by address ----------------------------------------------------------------

  /** What reading or writing one address gives as its error. */
  function BlockError(blocks: seq<Block>, block: Option<nat>, writing: bool): Option<ErrorKind>
    requires block.Some? ==> block.value < |blocks|
  {
    if block.None? then Some(Unmapped)
    else if !writing then None
    else if blocks[block.value].backing.Filled? then Some(FillBlock)
    else if !blocks[block.value].writable then Some(NotWritable)
    else None
  }

  function AddressError(blocks: seq<Block>, address: nat, writing: bool): Option<ErrorKind> {
    BlockError(blocks, BlockAt(blocks, address), writing)
  }

  /** The error of the first address in [address, end) that has one. */
  function FirstError(blocks: seq<Block>, address: nat, end: nat, writing: bool): Option<MemoryError>
    decreases end - address
  {
    if end <= address then None
    else
      var error := AddressError(blocks, address, writing);
      if error.Some? then Some(MemoryError(error.value, address)) else FirstError(blocks, address + 1, end, writing)
  }

  /** The byte an address shows: its fill value, or the file byte it stands for. */
  function ByteAt(blocks: seq<Block>, file: seq<byte>, address: nat): Option<byte> {
    var b := BlockAt(blocks, address);
    if b.None? then None
    else if blocks[b.value].backing.Filled? then Some(blocks[b.value].backing.value)
    else
      var f := blocks[b.value].backing.offset + (address - blocks[b.value].range.start);
      if f < |file| then Some(file[f]) else None
  }

  /** How a write of `size` bytes at `start` is decided, from the map alone. */
  function WriteOutcome(blocks: seq<Block>, start: word32, size: nat): Option<MemoryError> {
    if size == 0 then None
    else if size > U32 - 1 - start then Some(MemoryError(Unmapped, start))
    else FirstError(blocks, start, start + size, true)
  }

  /** What an address shows and what writing it gives, from the block that contains it: the file byte as
      far into the block's part of the file as the address is into the block, or the fill value. */
  lemma ShownByBlock(blocks: seq<Block>, file: seq<byte>, address: nat, i: nat)
    requires Ordered(blocks) && i < |blocks|
    requires blocks[i].range.start <= address < blocks[i].range.start + blocks[i].range.size
    ensures var block := blocks[i];
            match block.backing
            case Filled(value) =>
              && ByteAt(blocks, file, address) == Some(value)
              && AddressError(blocks, address, true) == Some(FillBlock)
            case FileBacked(offset) =>
              var f := offset as int + (address - block.range.start);
              && ByteAt(blocks, file, address) == (if f < |file| then Some(file[f]) else None)
              && OffsetAt(blocks, address) == Some(f)
              && AddressError(blocks, address, true) == (if block.writable then None else Some(NotWritable))
    ensures AddressError(blocks, address, false) == None
  {
    BlockAtFinds(blocks, address, i);
  }

  /** An address in no block shows nothing and can be neither read nor written. */
  lemma ShownNowhere(blocks: seq<Block>, file: seq<byte>, address: nat, writing: bool)
    requires forall i :: 0 <= i < |blocks| ==>
               !(blocks[i].range.start <= address < blocks[i].range.start + blocks[i].range.size)
    ensures ByteAt(blocks, file, address) == None && OffsetAt(blocks, address) == None
    ensures AddressError(blocks, address, writing) == Some(Unmapped)
  {
  }

  /** The error reported is the first address's that has one. */
  lemma {:induction false} FirstErrorIs(blocks: seq<Block>, address: nat, end: nat, writing: bool)
    ensures var error := FirstError(blocks, address, end, writing);
            error.Some? ==>
              && address <= error.value.address < end
              && AddressError(blocks, error.value.address, writing) == Some(error.value.kind)
              && forall a: nat :: address <= a < error.value.address ==> AddressError(blocks, a, writing).None?
    decreases end - address
  {
    hide AddressError;
    if address < end && AddressError(blocks, address, writing).None? {
      FirstErrorIs(blocks, address + 1, end, writing);
    }
  }

  /** A write of nothing is accepted, one past the 32-bit space is unmapped at its start, and any other is
      decided by its first address that cannot be written. */
  lemma WriteOutcomeIs(blocks: seq<Block>, start: word32, size: nat)
    ensures size == 0 ==> WriteOutcome(blocks, start, size) == None
    ensures start as int + size > 0xFFFF_FFFF && size > 0 ==>
              WriteOutcome(blocks, start, size) == Some(MemoryError(Unmapped, start))
    ensures start as int + size <= 0xFFFF_FFFF ==>
              WriteOutcome(blocks, start, size) == FirstError(blocks, start, start as int + size, true)
  {
    hide AddressError;
  }

  lemma {:induction false} NoErrorBefore(blocks: seq<Block>, address: nat, mid: nat, end: nat, writing: bool)
    requires address <= mid <= end && FirstError(blocks, address, mid, writing).None?
    ensures FirstError(blocks, address, end, writing) == FirstError(blocks, mid, end, writing)
    decreases mid - address
  {
    hide AddressError;
    if address < mid {
      NoErrorBefore(blocks, address + 1, mid, end, writing);
    }
  }

  lemma {:induction false} NoErrorAnywhere(blocks: seq<Block>, address: nat, end: nat, writing: bool)
    ensures FirstError(blocks, address, end, writing).None? <==>
            forall a: nat :: address <= a < end ==> AddressError(blocks, a, writing).None?
    decreases end - address
  {
    hide AddressError;
    if address < end {
      NoErrorAnywhere(blocks, address + 1, end, writing);
    }
  }

  /** A slice's own check decides every address in it. */
  lemma SliceChecked(blocks: seq<Block>, slice: BlockSlice, end: nat, writing: bool)
    requires Names(blocks, slice) && slice.range.End() <= end
    ensures slice.block.Some? ==> slice.block.value < |blocks|
    ensures var error := BlockError(blocks, slice.block, writing);
            FirstError(blocks, slice.range.start, end, writing)
            == if error.Some? then Some(MemoryError(error.value, slice.range.start))
               else FirstError(blocks, slice.range.End(), end, writing)
  {
    hide BlockAt;
    var start := slice.range.start;
    assert slice.range.Contains(start) && AddressError(blocks, start, writing) == BlockError(blocks, slice.block, writing);
    if BlockError(blocks, slice.block, writing).None? {
      forall a: nat | start <= a < slice.range.End()
        ensures AddressError(blocks, a, writing).None?
      {
        assert slice.range.Contains(a);
      }
      NoErrorAnywhere(blocks, start, slice.range.End(), writing);
      NoErrorBefore(blocks, start, slice.range.End(), end, writing);
    }
  }

  /** A range's slices, or the error of its first failing address. */
  method CheckedSlices(map_: Map, range: AddressRange, writing: bool) returns (r: Result<seq<BlockSlice>, MemoryError>)
    requires map_.Valid()
    ensures r.Err? <==> FirstError(map_.blocks, range.start, range.End(), writing).Some?
    ensures r.Err? ==> FirstError(map_.blocks, range.start, range.End(), writing) == Some(r.error)
    ensures r.Ok? ==> r.value != [] && Covers(map_.blocks, r.value, range.start, range.End())
  {
    hide FirstError, Names;
    var slices := Slices(map_, range);
    var blocks := map_.blocks;
    for i := 0 to |slices|
      invariant FirstError(blocks, range.start, range.End(), writing)
                == FirstError(blocks, if i < |slices| then slices[i].range.start else range.End(), range.End(), writing)
    {
      SlicesInside(blocks, slices, range, i);
      SliceChecked(blocks, slices[i], range.End(), writing);
      var error := BlockError(blocks, slices[i].block, writing);
      if error.Some? {
        return Err(MemoryError(error.value, slices[i].range.start));
      }
    }
    assert FirstError(blocks, range.End(), range.End(), writing).None? by {
      NoErrorAnywhere(blocks, range.End(), range.End(), writing);
    }
    r := Ok(slices);
  }

  // ---- Copying one slice ------------------------------------------------------------------

  /** Overwriting a file-backed slice's file bytes shows at its addresses and nowhere else. */
  lemma SliceWritten(map_: Map, file: seq<byte>, slice: BlockSlice, piece: seq<byte>, address: nat)
    requires map_.Valid() && |file| == map_.fileSize && Names(map_.blocks, slice) && |piece| == slice.range.size
    requires OffsetAt(map_.blocks, slice.range.start).Some?
    ensures var file' := OverwriteAt(file, OffsetAt(map_.blocks, slice.range.start).value, piece);
            ByteAt(map_.blocks, file', address)
            == if slice.range.Contains(address) then Some(piece[address - slice.range.start])
               else ByteAt(map_.blocks, file, address)
  {
    hide BlockAt;
    var first := slice.range.start;
    var f := OffsetAt(map_.blocks, first).value;
    assert slice.range.Contains(first);
    if slice.range.Contains(address) {
      assert OffsetAt(map_.blocks, address) == Some(f + (address - first));
      OffsetInFile(map_, address);
    } else if OffsetAt(map_.blocks, address).Some? {
      var g := OffsetAt(map_.blocks, address).value;
      OffsetInFile(map_, address);
      if f <= g < f + |piece| {
        var other := first + (g - f);
        assert slice.range.Contains(other);
        OffsetsDistinct(map_, address, other);
      }
    }
  }

  lemma SliceRead(map_: Map, file: seq<byte>, slice: BlockSlice, address: nat)
    requires map_.Valid() && |file| == map_.fileSize && Names(map_.blocks, slice) && slice.range.Contains(address)
    requires slice.block.Some?
    ensures var start := OffsetAt(map_.blocks, slice.range.start);
            && slice.block.value < |map_.blocks|
            && (if start.Some?
                then && map_.blocks[slice.block.value].backing.FileBacked?
                     && start.value + slice.range.size <= |file|
                     && ByteAt(map_.blocks, file, address) == Some(file[start.value + (address - slice.range.start)])
                else && map_.blocks[slice.block.value].backing.Filled?
                     && ByteAt(map_.blocks, file, address) == Some(map_.blocks[slice.block.value].backing.value))
  {
    hide BlockAt;
    assert slice.range.Contains(slice.range.start);
    var last := slice.range.End() - 1;
    assert slice.range.Contains(last);
    if OffsetAt(map_.blocks, last).Some? {
      OffsetInFile(map_, last);
    }
  }

  /** After a write: the new bytes at its addresses, every other address as before. */
  ghost predicate Shows(map_: Map, file: seq<byte>, start: nat, data: seq<byte>, file': seq<byte>) {
    && |file'| == |file|
    && forall a: nat :: ByteAt(map_.blocks, file', a)
                        == if start <= a < start + |data| then Some(data[a - start]) else ByteAt(map_.blocks, file, a)
  }

  lemma ShowsMore(map_: Map, file: seq<byte>, start: nat, data: seq<byte>, done: nat, mid: seq<byte>, slice: BlockSlice)
    requires map_.Valid() && |file| == map_.fileSize && Names(map_.blocks, slice)
    requires done + slice.range.size <= |data| && slice.range.start == start + done
    requires Shows(map_, file, start, data[..done], mid)
    requires OffsetAt(map_.blocks, slice.range.start).Some?
    ensures var piece := data[done..done + slice.range.size];
            Shows(map_, file, start, data[..done + slice.range.size],
                  OverwriteAt(mid, OffsetAt(map_.blocks, slice.range.start).value, piece))
  {
    hide ByteAt, OffsetAt, Names;
    var piece := data[done..done + slice.range.size];
    var file' := OverwriteAt(mid, OffsetAt(map_.blocks, slice.range.start).value, piece);
    var longer := data[..done + slice.range.size];
    forall a: nat
      ensures ByteAt(map_.blocks, file', a)
              == if start <= a < start + |longer| then Some(longer[a - start]) else ByteAt(map_.blocks, file, a)
    {
      SliceWritten(map_, mid, slice, piece, a);
    }
  }

  // ---- The image --------------------------------------------------------------------------

  class Image {
    const map_: Map
    var file: seq<byte>

    ghost predicate Valid()
      reads this
    {
      map_.Valid() && |file| == map_.fileSize
    }

    constructor (map_: Map, file: seq<byte>)
      requires map_.Valid() && |file| == map_.fileSize
      ensures Valid() && this.map_ == map_ && this.file == file
    {
      this.map_ := map_;
      this.file := file;
    }

    /** The bytes a range shows, or the first address in it that no block holds. */
    method Render(range: AddressRange) returns (r: Result<seq<byte>, MemoryError>)
      requires Valid()
      ensures r.Err? <==> FirstError(map_.blocks, range.start, range.End(), false).Some?
      ensures r.Err? ==> FirstError(map_.blocks, range.start, range.End(), false) == Some(r.error)
      ensures r.Ok? ==> |r.value| == range.size
      ensures r.Ok? ==> forall i :: 0 <= i < range.size ==>
                          ByteAt(map_.blocks, file, range.start + i) == Some(r.value[i])
    {
      hide FirstError, BlockAt, Names, PlacedOnce;
      var slices := CheckedSlices(map_, range, false);
      if slices.Err? {
        return Err(slices.error);
      }
      var data := FillSlices(map_, file, range, slices.value);
      r := Ok(data);
    }

    /** Whether a write would succeed, and if not its error, without writing. */
    method CheckWrite(start: word32, size: word32) returns (error: Option<MemoryError>)
      requires Valid()
      ensures error == WriteOutcome(map_.blocks, start, size)
    {
      hide FirstError;
      if size == 0 {
        return None;
      }
      var range := MakeRange(start, size);
      if range.None? {
        return Some(MemoryError(Unmapped, start));
      }
      var slices := CheckedSlices(map_, range.value, true);
      error := if slices.Err? then Some(slices.error) else None;
    }

    /** An accepted write shows at its addresses and nowhere else; a rejected one changes no
        file byte. */
    method Write(start: word32, data: seq<byte>) returns (error: Option<MemoryError>)
      requires Valid()
      modifies this`file
      ensures Valid()
      ensures error == WriteOutcome(map_.blocks, start, |data|)
      ensures if error.None? then Shows(map_, old(file), start, data, file) else file == old(file)
    {
      hide FirstError, ByteAt, OffsetAt, Names, PlacedOnce;
      if data == [] {
        return None;
      }
      var range := if |data| < U32 then MakeRange(start, |data|) else None;
      if range.None? {
        return Some(MemoryError(Unmapped, start));
      }
      var slices := CheckedSlices(map_, range.value, true);
      if slices.Err? {
        return Some(slices.error);
      }
      WritableSlices(map_, slices.value, range.value);
      file := CopySlices(map_, file, range.value, slices.value, data);
      error := None;
    }
  }

  /** Only a file of the map's size becomes an image. */
  method CreateImage(map_: Map, file: seq<byte>) returns (r: Option<Image>)
    requires map_.Valid()
    ensures r.Some? <==> |file| == map_.fileSize
    ensures r.Some? ==> fresh(r.value) && r.value.Valid() && r.value.map_ == map_ && r.value.file == file
  {
    if |file| != map_.fileSize {
      return None;
    }
    var image := new Image(map_, file);
    r := Some(image);
  }

  method FillSlices(map_: Map, file: seq<byte>, range: AddressRange, slices: seq<BlockSlice>) returns (data: seq<byte>)
    requires map_.Valid() && |file| == map_.fileSize
    requires slices != [] && Covers(map_.blocks, slices, range.start, range.End())
    requires FirstError(map_.blocks, range.start, range.End(), false).None?
    ensures |data| == range.size
    ensures forall i :: 0 <= i < range.size ==> ByteAt(map_.blocks, file, range.start + i) == Some(data[i])
  {
    hide FirstError, ByteAt, Names, PlacedOnce, BlockAt, OverwriteAt;
    data := seq(range.size, _ => 0);
    for i := 0 to |slices|
      invariant |data| == range.size
      invariant Rendered(map_, file, range, data, if i < |slices| then slices[i].range.start else range.End())
    {
      var slice := slices[i];
      SlicesInside(map_.blocks, slices, range, i);
      HeldSlice(map_, slice, range);
      var piece := SliceBytes(map_, file, slice);
      RenderedMore(map_, file, range, data, slice, piece);
      data := OverwriteAt(data, slice.range.start - range.start, piece);
    }
  }

  /** The file bytes of a slice, or its fill byte repeated. */
  method SliceBytes(map_: Map, file: seq<byte>, slice: BlockSlice) returns (piece: seq<byte>)
    requires map_.Valid() && |file| == map_.fileSize && Names(map_.blocks, slice)
    requires slice.block.Some? && slice.block.value < |map_.blocks|
    ensures |piece| == slice.range.size
    ensures forall i :: 0 <= i < |piece| ==> ByteAt(map_.blocks, file, slice.range.start + i) == Some(piece[i])
  {
    hide ByteAt, PlacedOnce, OffsetAt;
    FileStartIsOffset(map_.blocks, slice);
    assert slice.range.Contains(slice.range.start);
    SliceRead(map_, file, slice, slice.range.start);
    var start := FileStart(map_.blocks, slice);
    if start.Some? {
      piece := file[start.value..start.value + slice.range.size];
    } else {
      piece := seq(slice.range.size, _ => map_.blocks[slice.block.value].backing.value);
    }
    forall i | 0 <= i < |piece|
      ensures ByteAt(map_.blocks, file, slice.range.start + i) == Some(piece[i])
    {
      SliceRead(map_, file, slice, slice.range.start + i);
    }
  }

  lemma RenderedMore(map_: Map, file: seq<byte>, range: AddressRange, data: seq<byte>, slice: BlockSlice, piece: seq<byte>)
    requires |data| == range.size && |piece| == slice.range.size
    requires range.start <= slice.range.start && slice.range.End() <= range.End()
    requires Rendered(map_, file, range, data, slice.range.start)
    requires forall i :: 0 <= i < |piece| ==> ByteAt(map_.blocks, file, slice.range.start + i) == Some(piece[i])
    ensures Rendered(map_, file, range, OverwriteAt(data, slice.range.start - range.start, piece), slice.range.End())
  {
    hide ByteAt;
    var data' := OverwriteAt(data, slice.range.start - range.start, piece);
    forall i | 0 <= i < range.size && range.start + i < slice.range.End()
      ensures ByteAt(map_.blocks, file, range.start + i) == Some(data'[i])
    {
      if slice.range.start <= range.start + i {
        var k := range.start + i - slice.range.start;
        assert ByteAt(map_.blocks, file, slice.range.start + k) == Some(piece[k]);
      }
    }
  }

  ghost predicate Rendered(map_: Map, file: seq<byte>, range: AddressRange, data: seq<byte>, cursor: nat)
    requires |data| == range.size
  {
    forall i :: 0 <= i < range.size && range.start + i < cursor ==>
      ByteAt(map_.blocks, file, range.start + i) == Some(data[i])
  }

  lemma HeldSlice(map_: Map, slice: BlockSlice, range: AddressRange)
    requires Names(map_.blocks, slice) && range.start <= slice.range.start && slice.range.End() <= range.End()
    requires FirstError(map_.blocks, range.start, range.End(), false).None?
    ensures slice.block.Some? && slice.block.value < |map_.blocks|
  {
    NoErrorAnywhere(map_.blocks, range.start, range.End(), false);
    assert slice.range.Contains(slice.range.start);
    assert AddressError(map_.blocks, slice.range.start, false).None?;
  }

  lemma WritableSlices(map_: Map, slices: seq<BlockSlice>, range: AddressRange)
    requires Covers(map_.blocks, slices, range.start, range.End())
    requires FirstError(map_.blocks, range.start, range.End(), true).None?
    ensures forall i :: 0 <= i < |slices| ==> OffsetAt(map_.blocks, slices[i].range.start).Some?
  {
    hide BlockAt;
    NoErrorAnywhere(map_.blocks, range.start, range.End(), true);
    forall i | 0 <= i < |slices|
      ensures OffsetAt(map_.blocks, slices[i].range.start).Some?
    {
      SlicesInside(map_.blocks, slices, range, i);
      assert AddressError(map_.blocks, slices[i].range.start, true).None?;
    }
  }

  method CopySlices(map_: Map, file: seq<byte>, range: AddressRange, slices: seq<BlockSlice>, data: seq<byte>)
    returns (file': seq<byte>)
    requires map_.Valid() && |file| == map_.fileSize && |data| == range.size
    requires slices != [] && Covers(map_.blocks, slices, range.start, range.End())
    requires forall i :: 0 <= i < |slices| ==> OffsetAt(map_.blocks, slices[i].range.start).Some?
    ensures Shows(map_, file, range.start, data, file')
  {
    hide ByteAt, OffsetAt, Names, PlacedOnce;
    file' := file;
    ghost var done := 0;
    for i := 0 to |slices|
      invariant 0 <= done <= |data|
      invariant range.start + done == if i < |slices| then slices[i].range.start else range.End()
      invariant Shows(map_, file, range.start, data[..done], file')
    {
      var slice := slices[i];
      SlicesInside(map_.blocks, slices, range, i);
      FileStartIsOffset(map_.blocks, slice);
      var offset := slice.range.start - range.start;
      ShowsMore(map_, file, range.start, data, done, file', slice);
      file' := OverwriteAt(file', FileStart(map_.blocks, slice).value, data[offset..offset + slice.range.size]);
      done := done + slice.range.size;
    }
    assert data[..|data|] == data;
  }

  // ---- Histories of writes ----------------------------------------------------------------

  datatype WriteCall = WriteCall(start: word32, data: seq<byte>)

  /** What one call of `Write` does to the file. */
  ghost predicate WriteStep(map_: Map, file: seq<byte>, call: WriteCall, file': seq<byte>) {
    if WriteOutcome(map_.blocks, call.start, |call.data|).None?
    then Shows(map_, file, call.start, call.data, file')
    else file' == file
  }

  /** `files` are the successive file contents over a series of write calls. */
  ghost predicate History(map_: Map, files: seq<seq<byte>>, calls: seq<WriteCall>) {
    && |files| == |calls| + 1
    && forall i :: 0 <= i < |calls| ==> WriteStep(map_, files[i], calls[i], files[i + 1])
  }

  /** The byte the last accepted call that covers an address gave it. */
  function LastAccepted(blocks: seq<Block>, calls: seq<WriteCall>, address: nat): Option<byte> {
    if calls == [] then None
    else
      var call := calls[|calls| - 1];
      if WriteOutcome(blocks, call.start, |call.data|).None? && call.start <= address < call.start + |call.data|
      then Some(call.data[address - call.start])
      else LastAccepted(blocks, calls[..|calls| - 1], address)
  }

  /** Over every series of accepted and rejected writes, each address shows the last byte
      accepted for it, and its original byte if there was none. */
  lemma {:induction false} HistoryShows(map_: Map, files: seq<seq<byte>>, calls: seq<WriteCall>, address: nat)
    requires History(map_, files, calls)
    ensures var last := LastAccepted(map_.blocks, calls, address);
            ByteAt(map_.blocks, files[|calls|], address)
            == if last.Some? then last else ByteAt(map_.blocks, files[0], address)
  {
    hide ByteAt, WriteOutcome;
    if calls != [] {
      var n := |calls| - 1;
      var earlier := files[..n + 1];
      forall i | 0 <= i < n
        ensures WriteStep(map_, earlier[i], calls[..n][i], earlier[i + 1])
      {
        assert WriteStep(map_, files[i], calls[i], files[i + 1]);
      }
      HistoryShows(map_, earlier, calls[..n], address);
      assert WriteStep(map_, files[n], calls[n], files[n + 1]);
    }
  }

  /** An address that cannot be written, in a fill block or a read-only one or in none, has no accepted
      write in any series of calls. */
  lemma {:induction false} FillNeverWritten(map_: Map, calls: seq<WriteCall>, address: nat)
    requires AddressError(map_.blocks, address, true).Some?
    ensures LastAccepted(map_.blocks, calls, address) == None
  {
    hide AddressError;
    if calls != [] {
      var call := calls[|calls| - 1];
      NoErrorAnywhere(map_.blocks, call.start, call.start + |call.data|, true);
      FillNeverWritten(map_, calls[..|calls| - 1], address);
    }
  }

  /** Two files that show the same bytes at every address are the same file. */
  lemma FileDetermined(map_: Map, file: seq<byte>, file': seq<byte>)
    requires map_.Valid() && |file| == |file'| == map_.fileSize
    requires forall a: nat :: ByteAt(map_.blocks, file, a) == ByteAt(map_.blocks, file', a)
    ensures file == file'
  {
    forall f | 0 <= f < |file|
      ensures file[f] == file'[f]
    {
      hide BlockAt;
      var a := OffsetsCovered(map_, f);
      assert ByteAt(map_.blocks, file, a) == ByteAt(map_.blocks, file', a);
    }
  }
}
