/** Addresses, blocks and the memory map that places a ROM file at ECU addresses
    (src/algorithms/memory/address.h, src/algorithms/memory/memory_map.cpp). */
module MemoryMap {
  import opened Bytes
  import opened Results

  datatype RawRange = Range(start: nat, size: nat) {
    function End(): nat {
      start + size
    }

    predicate Contains(address: int) {
      start <= address < End()
    }
  }

  /** Non-empty, and its end is a 32-bit address. */
  type AddressRange = r: RawRange | 0 < r.size && r.start + r.size < 0x1_0000_0000 witness Range(0, 1)

  datatype Backing = FileBacked(offset: word32) | Filled(value: byte)

  datatype Block = Block(range: AddressRange, backing: Backing, writable: bool)

  function MakeRange(start: word32, size: word32): Option<AddressRange> {
    if size == 0 || size > U32 - 1 - start then None else Some(Range(start, size))
  }

  // ---- Layout rules -----------------------------------------------------------------------

  /** Each block starts at or after the end of the one before it. */
  predicate Ordered(blocks: seq<Block>) {
    forall i :: 0 <= i < |blocks| - 1 ==> blocks[i].range.End() <= blocks[i + 1].range.start
  }

  predicate NoWritableFill(blocks: seq<Block>) {
    forall i :: 0 <= i < |blocks| ==> !(blocks[i].backing.Filled? && blocks[i].writable)
  }

  predicate Places(block: Block, f: nat) {
    block.backing.FileBacked? && block.backing.offset <= f < block.backing.offset + block.range.size
  }

  /** How many blocks place ROM file byte `f`. */
  function Placements(blocks: seq<Block>, f: nat): nat {
    if blocks == [] then 0
    else Placements(blocks[..|blocks| - 1], f) + if Places(blocks[|blocks| - 1], f) then 1 else 0
  }

  /** The file-backed blocks place every byte of the file exactly once, and none beyond it. */
  ghost predicate PlacedOnce(blocks: seq<Block>, fileSize: nat) {
    forall f: nat :: Placements(blocks, f) == if f < fileSize then 1 else 0
  }

  /** What `Create` promises of the blocks it accepts. */
  ghost predicate ValidLayout(blocks: seq<Block>, fileSize: nat) {
    && blocks != [] && 0 < fileSize < U32
    && NoWritableFill(blocks) && Ordered(blocks) && PlacedOnce(blocks, fileSize)
  }

  lemma {:induction false} BlocksApart(blocks: seq<Block>, i: nat, j: nat)
    requires Ordered(blocks) && i < j < |blocks|
    ensures blocks[i].range.End() <= blocks[j].range.start
    decreases j
  {
    if i + 1 < j {
      BlocksApart(blocks, i, j - 1);
    }
  }

  // ---- CheckFilePlacement -----------------------------------------------------------------

  datatype FileRange = FileRange(offset: nat, size: nat)

  datatype LayoutError =
    | NoBlocks
    | EmptyFile
    | WritableFill(address: nat)
    | Disorder(address: nat)
    | PlacedTwice(offset: nat)
    | NotPlaced(offset: nat)
    | PastFileRange
    | PastFile

  function Count(ranges: seq<FileRange>, f: nat): nat {
    if ranges == [] then 0
    else Count(ranges[1..], f) + if ranges[0].offset <= f < ranges[0].offset + ranges[0].size then 1 else 0
  }

  predicate Before(a: FileRange, b: FileRange) {
    a.offset < b.offset || (a.offset == b.offset && a.size <= b.size)
  }

  predicate Sorted(ranges: seq<FileRange>) {
    forall i, j :: 0 <= i < j < |ranges| ==> Before(ranges[i], ranges[j])
  }

  predicate NonEmpty(ranges: seq<FileRange>) {
    forall i :: 0 <= i < |ranges| ==> ranges[i].size > 0
  }

  function Insert(range: FileRange, ranges: seq<FileRange>): (r: seq<FileRange>)
    ensures multiset(r) == multiset{range} + multiset(ranges)
  {
    if ranges == [] then [range]
    else if Before(range, ranges[0]) then [range] + ranges
    else
      assert ranges == [ranges[0]] + ranges[1..];
      [ranges[0]] + Insert(range, ranges[1..])
  }

  /** The library sort: the same ranges, in order. */
  function Sort(ranges: seq<FileRange>): (r: seq<FileRange>)
    ensures multiset(r) == multiset(ranges)
  {
    if ranges == [] then []
    else
      assert ranges == [ranges[0]] + ranges[1..];
      Insert(ranges[0], Sort(ranges[1..]))
  }

  lemma {:induction false} InsertSorted(range: FileRange, ranges: seq<FileRange>)
    requires Sorted(ranges)
    ensures Sorted(Insert(range, ranges))
  {
    if ranges != [] && !Before(range, ranges[0]) {
      var rest := Insert(range, ranges[1..]);
      InsertSorted(range, ranges[1..]);
      forall k | 0 <= k < |rest|
        ensures Before(ranges[0], rest[k])
      {
        assert rest[k] in multiset(rest);
        if rest[k] != range {
          assert rest[k] in ranges[1..];
        }
      }
    }
  }

  lemma {:induction false} SortSorted(ranges: seq<FileRange>)
    ensures Sorted(Sort(ranges))
  {
    if ranges != [] {
      SortSorted(ranges[1..]);
      InsertSorted(ranges[0], Sort(ranges[1..]));
    }
  }

  lemma {:induction false} CountInsert(range: FileRange, ranges: seq<FileRange>, f: nat)
    ensures Count(Insert(range, ranges), f)
            == Count(ranges, f) + if range.offset <= f < range.offset + range.size then 1 else 0
  {
    if ranges == [] {
    } else if Before(range, ranges[0]) {
      assert ([range] + ranges)[1..] == ranges;
    } else {
      CountInsert(range, ranges[1..], f);
      assert ([ranges[0]] + Insert(range, ranges[1..]))[1..] == Insert(range, ranges[1..]);
    }
  }

  lemma {:induction false} CountSort(ranges: seq<FileRange>, f: nat)
    ensures Count(Sort(ranges), f) == Count(ranges, f)
  {
    if ranges != [] {
      CountSort(ranges[1..], f);
      CountInsert(ranges[0], Sort(ranges[1..]), f);
    }
  }

  lemma {:induction false} CountAppend(a: seq<FileRange>, b: seq<FileRange>, f: nat)
    ensures Count(a + b, f) == Count(a, f) + Count(b, f)
  {
    if a == [] {
      assert a + b == b;
    } else {
      CountAppend(a[1..], b, f);
      assert (a + b)[1..] == a[1..] + b;
    }
  }

  /** The tiling walk has placed the bytes below `next` once each, and nothing else. */
  ghost predicate Tiled(ranges: seq<FileRange>, next: nat) {
    forall f: nat :: Count(ranges, f) == if f < next then 1 else 0
  }

  ghost predicate Covered(ranges: seq<FileRange>, fileSize: nat) {
    Tiled(ranges, fileSize)
  }

  lemma TiledStep(ranges: seq<FileRange>, i: nat, next: nat)
    requires i < |ranges| && Tiled(ranges[..i], next) && ranges[i].offset == next
    ensures Tiled(ranges[..i + 1], next + ranges[i].size)
  {
    var longer := ranges[..i + 1];
    assert longer == ranges[..i] + [ranges[i]];
    forall f: nat
      ensures Count(longer, f) == if f < next + ranges[i].size then 1 else 0
    {
      CountAppend(ranges[..i], [ranges[i]], f);
    }
  }

  lemma {:induction false} CountsLater(ranges: seq<FileRange>, f: nat)
    requires forall k :: 0 <= k < |ranges| ==> f < ranges[k].offset
    ensures Count(ranges, f) == 0
  {
    if ranges != [] {
      assert forall k :: 0 <= k < |ranges[1..]| ==> ranges[1..][k] == ranges[k + 1];
      CountsLater(ranges[1..], f);
    }
  }

  /** A range that does not continue the tiling exactly, or runs past the file, rules it out. */
  lemma TilingBreaks(ranges: seq<FileRange>, i: nat, next: nat, fileSize: nat)
    requires Sorted(ranges) && NonEmpty(ranges) && i < |ranges| && Tiled(ranges[..i], next)
    requires ranges[i].offset != next || next + ranges[i].size > fileSize
    ensures !Covered(ranges, fileSize)
  {
    var range := ranges[i];
    var before, after := ranges[..i], ranges[i + 1..];
    assert ranges == before + ([range] + after);
    if range.offset > next && next < fileSize {
      forall k | 0 <= k < |[range] + after|
        ensures next < ([range] + after)[k].offset
      {
        if k > 0 {
          assert Before(ranges[i], ranges[i + k]);
        }
      }
      CountsLater([range] + after, next);
      CountAppend(before, [range] + after, next);
      assert Count(ranges, next) == 0;
    } else {
      var f := if range.offset < next then range.offset else range.offset + range.size - 1;
      CountAppend(before, [range] + after, f);
      CountAppend([range], after, f);
      assert Count([range], f) == 1;
      assert Count(ranges, f) >= (if f < next then 2 else 1);
    }
  }

  function FileRanges(blocks: seq<Block>): (ranges: seq<FileRange>)
    ensures NonEmpty(ranges)
  {
    if blocks == [] then []
    else
      var last := blocks[|blocks| - 1];
      FileRanges(blocks[..|blocks| - 1])
      + if last.backing.FileBacked? then [FileRange(last.backing.offset, last.range.size)] else []
  }

  lemma {:induction false} CountIsPlacements(blocks: seq<Block>, f: nat)
    ensures Count(FileRanges(blocks), f) == Placements(blocks, f)
  {
    if blocks != [] {
      var front, last := blocks[..|blocks| - 1], blocks[|blocks| - 1];
      CountIsPlacements(front, f);
      if last.backing.FileBacked? {
        CountAppend(FileRanges(front), [FileRange(last.backing.offset, last.range.size)], f);
      } else {
        assert FileRanges(blocks) == FileRanges(front);
      }
    }
  }

  lemma CoveredIsPlaced(blocks: seq<Block>, fileSize: nat)
    ensures Covered(Sort(FileRanges(blocks)), fileSize) <==> PlacedOnce(blocks, fileSize)
    ensures Sorted(Sort(FileRanges(blocks))) && NonEmpty(Sort(FileRanges(blocks)))
  {
    var ranges := FileRanges(blocks);
    SortSorted(ranges);
    forall f: nat
      ensures Count(Sort(ranges), f) == Placements(blocks, f)
    {
      CountSort(ranges, f);
      CountIsPlacements(blocks, f);
    }
    forall i | 0 <= i < |Sort(ranges)|
      ensures Sort(ranges)[i].size > 0
    {
      assert Sort(ranges)[i] in multiset(ranges);
    }
  }

  /** The tiling check succeeds exactly when the blocks place every file byte once. */
  method CheckFilePlacement(blocks: seq<Block>, fileSize: word32) returns (error: Option<LayoutError>)
    ensures error.None? <==> PlacedOnce(blocks, fileSize)
  {
    var fileRanges: seq<FileRange> := [];
    for i := 0 to |blocks|
      invariant fileRanges == FileRanges(blocks[..i])
    {
      assert blocks[..i + 1][..i] == blocks[..i];
      if blocks[i].backing.FileBacked? {
        fileRanges := fileRanges + [FileRange(blocks[i].backing.offset, blocks[i].range.size)];
      }
    }
    assert blocks[..|blocks|] == blocks;
    CoveredIsPlaced(blocks, fileSize);
    error := CheckTiling(Sort(fileRanges), fileSize);
  }

  method CheckTiling(ranges: seq<FileRange>, fileSize: word32) returns (error: Option<LayoutError>)
    requires Sorted(ranges) && NonEmpty(ranges)
    ensures error.None? <==> Covered(ranges, fileSize)
  {
    hide Count, Sorted;
    var next: nat := 0;
    assert Tiled(ranges[..0], 0) by {
      EmptyTiles(ranges);
    }
    for i := 0 to |ranges|
      invariant Tiled(ranges[..i], next) && next < U32
    {
      var range := ranges[i];
      if range.offset != next || next + range.size > fileSize {
        TilingBreaks(ranges, i, next, fileSize);
      }
      if range.offset < next {
        return Some(PlacedTwice(range.offset));
      }
      if next < range.offset {
        return Some(NotPlaced(next));
      }
      if range.size > U32 - 1 - range.offset {
        return Some(PastFileRange);
      }
      TiledStep(ranges, i, next);
      next := range.offset + range.size;
    }
    assert ranges[..|ranges|] == ranges;
    if next < fileSize {
      assert Count(ranges, next) == 0;
      return Some(NotPlaced(next));
    }
    if fileSize < next {
      assert Count(ranges, fileSize) == 1;
      return Some(PastFile);
    }
    error := None;
  }

  lemma EmptyTiles(ranges: seq<FileRange>)
    ensures Tiled(ranges[..0], 0)
  {
  }

  datatype Map = Map(blocks: seq<Block>, fileSize: nat, definitionBase: nat) {
    ghost predicate Valid() {
      ValidLayout(blocks, fileSize)
    }
  }

  /** A map is created exactly when its layout is valid, and then holds what it was given. */
  method Create(blocks: seq<Block>, fileSize: word32, definitionBase: word32) returns (r: Result<Map, LayoutError>)
    ensures r.Ok? <==> ValidLayout(blocks, fileSize)
    ensures r.Ok? ==> r.value == Map(blocks, fileSize, definitionBase) && r.value.Valid()
  {
    if blocks == [] {
      return Err(NoBlocks);
    }
    if fileSize == 0 {
      return Err(EmptyFile);
    }
    for i := 0 to |blocks|
      invariant NoWritableFill(blocks[..i])
    {
      if blocks[i].backing.Filled? && blocks[i].writable {
        return Err(WritableFill(blocks[i].range.start));
      }
    }
    for i := 0 to |blocks| - 1
      invariant forall k :: 0 <= k < i ==> blocks[k].range.End() <= blocks[k + 1].range.start
    {
      if blocks[i + 1].range.start < blocks[i].range.End() {
        return Err(Disorder(blocks[i + 1].range.start));
      }
    }
    var placement := CheckFilePlacement(blocks, fileSize);
    if placement.Some? {
      return Err(placement.value);
    }
    r := Ok(Map(blocks, fileSize, definitionBase));
  }
}
