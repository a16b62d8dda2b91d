/** Reading a memory map: which block holds an address, how a range splits at block boundaries, and
    where a range lies in the ROM file (src/algorithms/memory/memory_map.cpp). */
module MemorySlices {
  import opened Bytes
  import opened Results
  import opened MemoryMap

  // ---- Block lookup -----------------------------------------------------------------------

  /** The library's upper bound: how many leading blocks start at or before `address`. */
  function StartingBy(blocks: seq<Block>, address: nat): (n: nat)
    ensures n <= |blocks|
    ensures forall i :: 0 <= i < n ==> blocks[i].range.start <= address
    ensures n < |blocks| ==> address < blocks[n].range.start
  {
    if blocks == [] || address < blocks[0].range.start then 0
    else
      var n := 1 + StartingBy(blocks[1..], address);
      assert forall i :: 1 <= i < n ==> blocks[i] == blocks[1..][i - 1];
      n
  }

  /** The block holding an address, by its index. */
  function BlockAt(blocks: seq<Block>, address: nat): (b: Option<nat>)
    ensures b.Some? ==> b.value < |blocks| && blocks[b.value].range.Contains(address)
  {
    var after := StartingBy(blocks, address);
    if after == 0 then None
    else if blocks[after - 1].range.Contains(address) then Some(after - 1)
    else None
  }

  /** The search finds the one block that holds the address, whenever one does. */
  lemma BlockAtFinds(blocks: seq<Block>, address: nat, i: nat)
    requires Ordered(blocks) && i < |blocks|
    ensures BlockAt(blocks, address) == Some(i) <==> blocks[i].range.Contains(address)
  {
    var after := StartingBy(blocks, address);
    if blocks[i].range.Contains(address) {
      if i + 1 < after {
        BlocksApart(blocks, i, after - 1);
      }
      if after <= i {
        if after < i {
          BlocksApart(blocks, after, i);
        }
      }
    }
  }

  // ---- Addresses and file bytes -----------------------------------------------------------

  /** The ROM file byte an address stands for, if its block is file-backed. */
  function OffsetAt(blocks: seq<Block>, address: nat): (f: Option<nat>) {
    var b := BlockAt(blocks, address);
    if b.None? || blocks[b.value].backing.Filled? then None
    else Some(blocks[b.value].backing.offset + (address - blocks[b.value].range.start))
  }

  lemma {:induction false} PlacementsAtLeast(blocks: seq<Block>, f: nat, i: nat)
    requires i < |blocks| && Places(blocks[i], f)
    ensures Placements(blocks, f) >= 1
    ensures forall j :: 0 <= j < |blocks| && j != i && Places(blocks[j], f) ==> Placements(blocks, f) >= 2
  {
    var last := |blocks| - 1;
    var front := blocks[..last];
    if i < last {
      PlacementsAtLeast(front, f, i);
      assert forall j :: 0 <= j < last ==> front[j] == blocks[j];
    } else {
      forall j | 0 <= j < last && Places(blocks[j], f)
        ensures Placements(blocks, f) >= 2
      {
        assert front[j] == blocks[j];
        PlacementsAtLeast(front, f, j);
      }
    }
  }

  lemma {:induction false} PlacedSomewhere(blocks: seq<Block>, f: nat) returns (i: nat)
    requires Placements(blocks, f) >= 1
    ensures i < |blocks| && Places(blocks[i], f)
  {
    var last := |blocks| - 1;
    if Places(blocks[last], f) {
      i := last;
    } else {
      i := PlacedSomewhere(blocks[..last], f);
    }
  }

  /** File byte `f` lies in the part of the file that some block holds. */
  ghost predicate PlacedIn(blocks: seq<Block>, f: nat) {
    exists i :: 0 <= i < |blocks| && Places(blocks[i], f)
  }

  ghost predicate PlacedAtMost(blocks: seq<Block>, f: nat) {
    forall i, j :: 0 <= i < j < |blocks| && Places(blocks[i], f) ==> !Places(blocks[j], f)
  }

  /** An accepted layout, block by block: non-empty, in order, no fill block writable, and the
      file-backed blocks hold exactly the bytes of a non-empty file, no two the same. */
  lemma LayoutByBlocks(blocks: seq<Block>, fileSize: nat)
    ensures ValidLayout(blocks, fileSize) <==>
            && blocks != [] && 0 < fileSize < 0x1_0000_0000
            && (forall i :: 0 <= i < |blocks| - 1 ==>
                  blocks[i].range.start + blocks[i].range.size <= blocks[i + 1].range.start)
            && (forall i :: 0 <= i < |blocks| && blocks[i].backing.Filled? ==> !blocks[i].writable)
            && (forall f: nat :: PlacedIn(blocks, f) <==> f < fileSize)
            && (forall f: nat :: PlacedAtMost(blocks, f))
    ensures forall i, f: nat :: 0 <= i < |blocks| ==>
              (Places(blocks[i], f) <==>
                 && blocks[i].backing.FileBacked?
                 && blocks[i].backing.offset <= f < blocks[i].backing.offset as int + blocks[i].range.size)
  {
    hide Placements, PlacedIn, PlacedAtMost;
    forall f: nat
      ensures PlacedAtMost(blocks, f) ==> Placements(blocks, f) == if PlacedIn(blocks, f) then 1 else 0
      ensures Placements(blocks, f) <= 1 ==> PlacedAtMost(blocks, f)
    {
      PlacedCount(blocks, f);
    }
  }

  lemma {:induction false} PlacedCount(blocks: seq<Block>, f: nat)
    ensures PlacedAtMost(blocks, f) ==> Placements(blocks, f) == if PlacedIn(blocks, f) then 1 else 0
    ensures Placements(blocks, f) <= 1 ==> PlacedAtMost(blocks, f)
  {
    hide Places;
    if blocks != [] {
      var last := |blocks| - 1;
      var front := blocks[..last];
      PlacedCount(front, f);
      assert forall i :: 0 <= i < last ==> front[i] == blocks[i];
      if PlacedAtMost(blocks, f) {
        assert PlacedAtMost(front, f);
        if PlacedIn(front, f) {
          var k :| 0 <= k < last && Places(front[k], f);
          assert Places(blocks[k], f) && !Places(blocks[last], f);
        } else {
          assert PlacedIn(blocks, f) <==> Places(blocks[last], f);
        }
      }
      if Placements(blocks, f) <= 1 {
        forall i, j | 0 <= i < j < |blocks| && Places(blocks[i], f)
          ensures !Places(blocks[j], f)
        {
          assert Places(front[i], f);
          PlacementsAtLeast(front, f, i);
        }
      }
    }
  }

  /** An address in a file-backed block stands for a byte of the file. */
  lemma OffsetInFile(map_: Map, address: nat)
    requires map_.Valid() && OffsetAt(map_.blocks, address).Some?
    ensures OffsetAt(map_.blocks, address).value < map_.fileSize
  {
    var f := OffsetAt(map_.blocks, address).value;
    PlacementsAtLeast(map_.blocks, f, BlockAt(map_.blocks, address).value);
  }

  /** Two addresses never stand for the same file byte. */
  lemma OffsetsDistinct(map_: Map, a: nat, b: nat)
    requires map_.Valid()
    requires OffsetAt(map_.blocks, a).Some? && OffsetAt(map_.blocks, a) == OffsetAt(map_.blocks, b)
    ensures a == b
  {
    var f := OffsetAt(map_.blocks, a).value;
    var i, j := BlockAt(map_.blocks, a).value, BlockAt(map_.blocks, b).value;
    PlacementsAtLeast(map_.blocks, f, i);
    assert Places(map_.blocks[j], f);
    assert Placements(map_.blocks, f) <= 1;
  }

  /** Every file byte has an address. With the two lemmas above, addresses in file-backed blocks
      and file bytes correspond one to one. */
  lemma OffsetsCovered(map_: Map, f: nat) returns (address: nat)
    requires map_.Valid() && f < map_.fileSize
    ensures OffsetAt(map_.blocks, address) == Some(f)
  {
    var i := PlacedSomewhere(map_.blocks, f);
    address := map_.blocks[i].range.start + (f - map_.blocks[i].backing.offset);
    BlockAtFinds(map_.blocks, address, i);
  }

  // ---- Slices -----------------------------------------------------------------------------

  /** The part of a range one block holds, or a gap no block holds. */
  datatype BlockSlice = BlockSlice(block: Option<nat>, range: AddressRange)

  /** `slice` names the block, or the gap, of every address in it. */
  ghost predicate Names(blocks: seq<Block>, slice: BlockSlice) {
    forall address: nat :: slice.range.Contains(address) ==> BlockAt(blocks, address) == slice.block
  }

  /** `slices` cover [start, end) without gap or overlap, in order, each as long as it can be. */
  ghost predicate Covers(blocks: seq<Block>, slices: seq<BlockSlice>, start: nat, end: nat) {
    && (if slices == [] then start == end
        else slices[0].range.start == start && slices[|slices| - 1].range.End() == end)
    && (forall i :: 0 <= i < |slices| - 1 ==>
          slices[i].range.End() == slices[i + 1].range.start && slices[i].block != slices[i + 1].block)
    && (forall i :: 0 <= i < |slices| ==> Names(blocks, slices[i]))
  }

  lemma CoversNothing(blocks: seq<Block>, start: nat)
    ensures Covers(blocks, [], start, start)
  {
  }

  lemma CoversSnoc(blocks: seq<Block>, slices: seq<BlockSlice>, start: nat, cursor: nat, slice: BlockSlice)
    requires Covers(blocks, slices, start, cursor) && slice.range.start == cursor && Names(blocks, slice)
    requires slices != [] ==> slices[|slices| - 1].block != slice.block
    ensures Covers(blocks, slices + [slice], start, slice.range.End())
  {
  }

  /** How many leading blocks end at or before `address`. */
  function EndingBy(blocks: seq<Block>, address: nat): (n: nat)
    ensures n <= |blocks|
    ensures forall i :: 0 <= i < n ==> blocks[i].range.End() <= address
    ensures n < |blocks| ==> address < blocks[n].range.End()
  {
    if blocks == [] || address < blocks[0].range.End() then 0
    else
      var n := 1 + EndingBy(blocks[1..], address);
      assert forall i :: 1 <= i < n ==> blocks[i] == blocks[1..][i - 1];
      n
  }

  /** Block `b` is the first that ends after `cursor`. */
  predicate NextBlock(blocks: seq<Block>, b: nat, cursor: nat) {
    && b <= |blocks|
    && (b > 0 ==> blocks[b - 1].range.End() <= cursor)
    && (b < |blocks| ==> cursor < blocks[b].range.End())
  }

  lemma GapNamed(blocks: seq<Block>, b: nat, cursor: nat, end: nat)
    requires Ordered(blocks) && NextBlock(blocks, b, cursor) && cursor < end < U32
    requires b < |blocks| ==> end <= blocks[b].range.start
    ensures Names(blocks, BlockSlice(None, Range(cursor, end - cursor)))
  {
    forall address: nat | cursor <= address < end
      ensures BlockAt(blocks, address) == None
    {
      var found := BlockAt(blocks, address);
      if found.Some? {
        if found.value < b && found.value + 1 < b {
          BlocksApart(blocks, found.value, b - 1);
        }
        if b < found.value {
          BlocksApart(blocks, b, found.value);
        }
      }
    }
  }

  lemma BlockNamed(blocks: seq<Block>, b: nat, cursor: nat, end: nat)
    requires Ordered(blocks) && b < |blocks|
    requires blocks[b].range.start <= cursor < end <= blocks[b].range.End()
    ensures Names(blocks, BlockSlice(Some(b), Range(cursor, end - cursor)))
  {
    forall address: nat | cursor <= address < end
      ensures BlockAt(blocks, address) == Some(b)
    {
      BlockAtFinds(blocks, address, b);
    }
  }

  /** The slices cover the range up to the cursor, and `block` is the next block to meet. */
  ghost predicate Walked(blocks: seq<Block>, slices: seq<BlockSlice>, range: AddressRange, cursor: nat, block: nat) {
    && range.start <= cursor <= range.End() && block <= |blocks|
    && (cursor < range.End() ==> NextBlock(blocks, block, cursor))
    && Covers(blocks, slices, range.start, cursor)
    && (cursor > range.start ==> slices != [])
    && (slices != [] && slices[|slices| - 1].block.None? && cursor < range.End() ==>
          block < |blocks| && blocks[block].range.start <= cursor)
    && (slices != [] && slices[|slices| - 1].block.Some? ==> slices[|slices| - 1].block.value + 1 == block)
  }

  /** Taking the gap before the next block, or before the range's end. */
  lemma GapTaken(blocks: seq<Block>, slices: seq<BlockSlice>, range: AddressRange, cursor: nat, block: nat, end: nat)
    requires Ordered(blocks) && Walked(blocks, slices, range, cursor, block) && cursor < end <= range.End()
    requires end == range.End() || (block < |blocks| && end == blocks[block].range.start)
    requires block < |blocks| ==> end <= blocks[block].range.start
    ensures Walked(blocks, slices + [BlockSlice(None, Range(cursor, end - cursor))], range, end, block)
  {
    hide Names, Covers, BlockAt;
    GapNamed(blocks, block, cursor, end);
    CoversSnoc(blocks, slices, range.start, cursor, BlockSlice(None, Range(cursor, end - cursor)));
  }

  /** Taking the rest of the next block, or of the range. */
  lemma BlockTaken(blocks: seq<Block>, slices: seq<BlockSlice>, range: AddressRange, cursor: nat, block: nat, end: nat)
    requires Ordered(blocks) && Walked(blocks, slices, range, cursor, block) && cursor < end <= range.End()
    requires block < |blocks| && blocks[block].range.start <= cursor && end <= blocks[block].range.End()
    requires end == range.End() || end == blocks[block].range.End()
    ensures Walked(blocks, slices + [BlockSlice(Some(block), Range(cursor, end - cursor))], range, end, block + 1)
  {
    hide Names, Covers, BlockAt;
    BlockNamed(blocks, block, cursor, end);
    CoversSnoc(blocks, slices, range.start, cursor, BlockSlice(Some(block), Range(cursor, end - cursor)));
  }

  method Slices(map_: Map, range: AddressRange) returns (slices: seq<BlockSlice>)
    requires map_.Valid()
    ensures slices != [] && Covers(map_.blocks, slices, range.start, range.End())
  {
    hide BlockAt, Names, Covers, PlacedOnce, NoWritableFill;
    var blocks := map_.blocks;
    slices := [];
    CoversNothing(blocks, range.start);
    var block: nat := EndingBy(blocks, range.start);
    var cursor := range.start;
    while cursor < range.End()
      invariant Walked(blocks, slices, range, cursor, block)
      decreases range.End() - cursor
    {
      if block == |blocks| || cursor < blocks[block].range.start {
        var gapEnd := if block == |blocks| || range.End() < blocks[block].range.start then range.End()
                      else blocks[block].range.start;
        GapTaken(blocks, slices, range, cursor, block, gapEnd);
        slices := slices + [BlockSlice(None, Range(cursor, gapEnd - cursor))];
        cursor := gapEnd;
      } else {
        var end := if blocks[block].range.End() < range.End() then blocks[block].range.End() else range.End();
        BlockTaken(blocks, slices, range, cursor, block, end);
        slices := slices + [BlockSlice(Some(block), Range(cursor, end - cursor))];
        cursor := end;
        block := block + 1;
      }
    }
  }

  /** Where a slice starts in the ROM file. */
  function FileStart(blocks: seq<Block>, slice: BlockSlice): Option<nat>
    requires slice.block.Some? ==> slice.block.value < |blocks|
    requires slice.block.Some? ==> blocks[slice.block.value].range.start <= slice.range.start
  {
    if slice.block.None? || blocks[slice.block.value].backing.Filled? then None
    else Some(blocks[slice.block.value].backing.offset + (slice.range.start - blocks[slice.block.value].range.start))
  }

  lemma FileStartIsOffset(blocks: seq<Block>, slice: BlockSlice)
    requires Names(blocks, slice)
    ensures slice.block.Some? ==>
              slice.block.value < |blocks| && blocks[slice.block.value].range.start <= slice.range.start
    ensures FileStart(blocks, slice) == OffsetAt(blocks, slice.range.start)
  {
    assert slice.range.Contains(slice.range.start);
  }

  /** One file-backed block holds the whole range. */
  predicate HeldByOneFileBlock(blocks: seq<Block>, range: AddressRange) {
    exists b :: 0 <= b < |blocks| && blocks[b].backing.FileBacked?
                && blocks[b].range.start <= range.start && range.End() <= blocks[b].range.End()
  }

  /** An offset exactly when one file-backed block holds the whole range. */
  method FileOffsetOf(map_: Map, range: AddressRange) returns (offset: Option<nat>)
    requires map_.Valid()
    ensures offset.Some? <==> HeldByOneFileBlock(map_.blocks, range)
    ensures offset.Some? ==> offset == OffsetAt(map_.blocks, range.start)
  {
    hide BlockAt;
    var slices := Slices(map_, range);
    OneSlice(map_.blocks, slices, range);
    FileStartIsOffset(map_.blocks, slices[0]);
    offset := if |slices| == 1 then FileStart(map_.blocks, slices[0]) else None;
  }

  lemma SlicesDiffer(blocks: seq<Block>, slices: seq<BlockSlice>, range: AddressRange)
    requires |slices| > 1 && Covers(blocks, slices, range.start, range.End())
    ensures range.Contains(slices[1].range.start)
    ensures BlockAt(blocks, slices[1].range.start) != BlockAt(blocks, range.start)
  {
    hide BlockAt;
    SlicesInside(blocks, slices, range, 1);
    assert slices[0].block != slices[0 + 1].block;
    assert slices[0].range.Contains(range.start) && slices[1].range.Contains(slices[1].range.start);
  }

  lemma OneSlice(blocks: seq<Block>, slices: seq<BlockSlice>, range: AddressRange)
    requires Ordered(blocks) && slices != [] && Covers(blocks, slices, range.start, range.End())
    ensures HeldByOneFileBlock(blocks, range) <==> |slices| == 1 && OffsetAt(blocks, range.start).Some?
  {
    hide StartingBy;
    if HeldByOneFileBlock(blocks, range) {
      var b :| 0 <= b < |blocks| && blocks[b].backing.FileBacked?
               && blocks[b].range.start <= range.start && range.End() <= blocks[b].range.End();
      BlockNamed(blocks, b, range.start, range.End());
      var whole := BlockSlice(Some(b), Range(range.start, range.End() - range.start));
      assert whole.range.Contains(range.start);
      if |slices| > 1 {
        SlicesDiffer(blocks, slices, range);
      }
    }
    if |slices| == 1 && OffsetAt(blocks, range.start).Some? {
      var last := range.End() - 1;
      assert slices[0].range.Contains(range.start) && slices[0].range.Contains(last);
      assert BlockAt(blocks, last) == BlockAt(blocks, range.start);
    }
  }

  lemma {:induction false} SlicesInside(blocks: seq<Block>, slices: seq<BlockSlice>, range: AddressRange, i: nat)
    requires i < |slices| && Covers(blocks, slices, range.start, range.End())
    ensures range.start <= slices[i].range.start && slices[i].range.End() <= range.End()
  {
    SlicesAfter(blocks, slices, range, i);
    SlicesBefore(blocks, slices, range, i);
  }

  lemma {:induction false} SlicesAfter(blocks: seq<Block>, slices: seq<BlockSlice>, range: AddressRange, i: nat)
    requires i < |slices| && Covers(blocks, slices, range.start, range.End())
    ensures range.start <= slices[i].range.start
  {
    if i > 0 {
      SlicesAfter(blocks, slices, range, i - 1);
      assert slices[i - 1].range.End() == slices[i - 1 + 1].range.start;
    }
  }

  lemma {:induction false} SlicesBefore(blocks: seq<Block>, slices: seq<BlockSlice>, range: AddressRange, i: nat)
    requires i < |slices| && Covers(blocks, slices, range.start, range.End())
    ensures slices[i].range.End() <= range.End()
    decreases |slices| - i
  {
    if i + 1 < |slices| {
      SlicesBefore(blocks, slices, range, i + 1);
    }
  }
}
