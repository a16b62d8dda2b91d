/** The catalog's linear memory layouts (src/backend/config/catalog.h): a ROM file placed from one
    address on, split into writable and read-only stretches. */
module Catalog {
  import opened Bytes
  import opened MemoryMap

  datatype LinearSegment = LinearSegment(start: word32, writable: bool)

  /** Where segment `i` ends: the next segment's start, or the end of the file. */
  function SegmentEnd(segments: seq<LinearSegment>, i: nat, fileEnd: nat): nat
    requires i < |segments|
  {
    if i + 1 < |segments| then segments[i + 1].start else fileEnd
  }

  predicate SegmentsInOrder(segments: seq<LinearSegment>, fileEnd: nat) {
    forall i :: 0 <= i < |segments| ==> segments[i].start < SegmentEnd(segments, i, fileEnd)
  }

  /** What `LinearBlocks` compiles for: other arguments do not compile. */
  predicate LinearArguments(fileSize: nat, segments: seq<LinearSegment>) {
    && segments != [] && fileSize > 0
    && segments[0].start + fileSize < U32
    && SegmentsInOrder(segments, segments[0].start + fileSize)
  }

  lemma {:induction false} SegmentBounds(segments: seq<LinearSegment>, i: nat, fileEnd: nat)
    requires i < |segments| && SegmentsInOrder(segments, fileEnd)
    ensures segments[0].start <= segments[i].start < SegmentEnd(segments, i, fileEnd) <= fileEnd
  {
    SegmentLow(segments, i, fileEnd);
    SegmentHigh(segments, i, fileEnd);
  }

  lemma {:induction false} SegmentLow(segments: seq<LinearSegment>, i: nat, fileEnd: nat)
    requires i < |segments| && SegmentsInOrder(segments, fileEnd)
    ensures segments[0].start <= segments[i].start
  {
    if i > 0 {
      SegmentLow(segments, i - 1, fileEnd);
      assert segments[i - 1].start < SegmentEnd(segments, i - 1, fileEnd);
    }
  }

  lemma {:induction false} SegmentHigh(segments: seq<LinearSegment>, i: nat, fileEnd: nat)
    requires i < |segments| && SegmentsInOrder(segments, fileEnd)
    ensures SegmentEnd(segments, i, fileEnd) <= fileEnd
    decreases |segments| - i
  {
    if i + 1 < |segments| {
      SegmentHigh(segments, i + 1, fileEnd);
      assert segments[i + 1].start < SegmentEnd(segments, i + 1, fileEnd);
    }
  }

  function LinearBlock(fileSize: nat, segments: seq<LinearSegment>, i: nat): Block
    requires LinearArguments(fileSize, segments) && i < |segments|
  {
    var base := segments[0].start;
    SegmentBounds(segments, i, base + fileSize);
    var start := segments[i].start;
    Block(Range(start, SegmentEnd(segments, i, base + fileSize) - start), FileBacked(start - base),
          segments[i].writable)
  }

  /** The blocks of the first `n` segments. */
  function LinearBlocks(fileSize: nat, segments: seq<LinearSegment>, n: nat): (blocks: seq<Block>)
    requires LinearArguments(fileSize, segments) && n <= |segments|
    ensures |blocks| == n
  {
    if n == 0 then [] else LinearBlocks(fileSize, segments, n - 1) + [LinearBlock(fileSize, segments, n - 1)]
  }

  lemma {:induction false} LinearBlockAt(fileSize: nat, segments: seq<LinearSegment>, n: nat, i: nat)
    requires LinearArguments(fileSize, segments) && i < n <= |segments|
    ensures LinearBlocks(fileSize, segments, n)[i] == LinearBlock(fileSize, segments, i)
  {
    if i < n - 1 {
      LinearBlockAt(fileSize, segments, n - 1, i);
    }
  }

  /** Where the furthest-placed file byte ends. */
  function FileEnd(blocks: seq<Block>): nat {
    if blocks == [] then 0
    else
      var before, last := FileEnd(blocks[..|blocks| - 1]), blocks[|blocks| - 1];
      if last.backing.FileBacked? && before < last.backing.offset + last.range.size
      then last.backing.offset + last.range.size else before
  }

  /** No file-backed block ends later, and one ends there unless there is none. */
  lemma {:induction false} FileEndIsFurthest(blocks: seq<Block>)
    ensures forall i :: 0 <= i < |blocks| && blocks[i].backing.FileBacked? ==>
              blocks[i].backing.offset as int + blocks[i].range.size <= FileEnd(blocks)
    ensures FileEnd(blocks) == 0 ||
            exists i :: 0 <= i < |blocks| && blocks[i].backing.FileBacked?
                        && blocks[i].backing.offset as int + blocks[i].range.size == FileEnd(blocks)
  {
    if blocks != [] {
      var last := |blocks| - 1;
      var front := blocks[..last];
      FileEndIsFurthest(front);
      assert forall i :: 0 <= i < last ==> front[i] == blocks[i];
      if FileEnd(front) != 0 {
        var i :| 0 <= i < last && front[i].backing.FileBacked?
                 && front[i].backing.offset as int + front[i].range.size == FileEnd(front);
        assert blocks[i] == front[i];
      }
    }
  }

  /** The linear blocks, one by one: each runs from its segment's start to the next one's, or to the end
      of the file, and holds the file bytes from its distance to the first start on. */
  lemma LinearBlockIs(fileSize: nat, segments: seq<LinearSegment>, i: nat)
    requires LinearArguments(fileSize, segments) && i < |segments|
    ensures var end := if i + 1 < |segments| then segments[i + 1].start as int else segments[0].start as int + fileSize;
            var block := LinearBlocks(fileSize, segments, |segments|)[i];
            && block.range.start == segments[i].start && block.range.start + block.range.size == end
            && segments[0].start <= segments[i].start
            && block.backing == FileBacked(segments[i].start - segments[0].start)
            && block.writable == segments[i].writable
  {
    LinearBlockAt(fileSize, segments, |segments|, i);
    LinearSegmentBounds(fileSize, segments, i);
  }

  /** The arguments that compile: a non-empty file that ends inside the 32-bit space, and segments in
      order that start inside it. */
  lemma LinearArgumentsAre(fileSize: nat, segments: seq<LinearSegment>)
    ensures LinearArguments(fileSize, segments) <==>
            && segments != [] && fileSize > 0 && segments[0].start as int + fileSize <= 0xFFFF_FFFF
            && (forall i :: 0 <= i < |segments| - 1 ==> segments[i].start < segments[i + 1].start)
            && segments[|segments| - 1].start < segments[0].start as int + fileSize
  {
    if LinearArguments(fileSize, segments) {
      forall i | 0 <= i < |segments|
        ensures segments[i].start < SegmentEnd(segments, i, segments[0].start + fileSize)
      {
      }
    }
  }

  method FileSize(blocks: seq<Block>) returns (size: word32)
    ensures size == if FileEnd(blocks) < U32 then FileEnd(blocks) else U32 - 1
  {
    var end: nat := 0;
    for i := 0 to |blocks|
      invariant end == FileEnd(blocks[..i])
    {
      assert blocks[..i + 1][..i] == blocks[..i];
      var block := blocks[i];
      if block.backing.FileBacked? && end < block.backing.offset + block.range.size {
        end := block.backing.offset + block.range.size;
      }
    }
    assert blocks[..|blocks|] == blocks;
    size := if end < U32 then end else U32 - 1;
  }

  /** The first `n` segments place the bytes before their end once each. */
  lemma {:induction false} LinearPlacements(fileSize: nat, segments: seq<LinearSegment>, n: nat, f: nat)
    requires LinearArguments(fileSize, segments) && 0 < n <= |segments|
    ensures var end := SegmentEnd(segments, n - 1, segments[0].start + fileSize) - segments[0].start;
            && Placements(LinearBlocks(fileSize, segments, n), f) == (if f < end then 1 else 0)
            && FileEnd(LinearBlocks(fileSize, segments, n)) == end
  {
    var blocks, last := LinearBlocks(fileSize, segments, n), LinearBlock(fileSize, segments, n - 1);
    LinearSegmentBounds(fileSize, segments, n - 1);
    assert blocks[..n - 1] == LinearBlocks(fileSize, segments, n - 1);
    if n > 1 {
      LinearPlacements(fileSize, segments, n - 1, f);
    }
  }

  lemma LinearSegmentBounds(fileSize: nat, segments: seq<LinearSegment>, i: nat)
    requires LinearArguments(fileSize, segments) && i < |segments|
    ensures segments[0].start <= segments[i].start < SegmentEnd(segments, i, segments[0].start + fileSize)
    ensures SegmentEnd(segments, i, segments[0].start + fileSize) <= segments[0].start + fileSize
  {
    SegmentBounds(segments, i, segments[0].start + fileSize);
  }

  /** Every linear layout, with the file size computed from it, is one `Create` accepts. */
  lemma LinearAccepted(fileSize: nat, segments: seq<LinearSegment>)
    requires LinearArguments(fileSize, segments)
    ensures var blocks := LinearBlocks(fileSize, segments, |segments|);
            FileEnd(blocks) == fileSize && ValidLayout(blocks, fileSize)
  {
    hide LinearBlocks, Placements, FileEnd, SegmentsInOrder;
    var blocks := LinearBlocks(fileSize, segments, |segments|);
    LinearPlacements(fileSize, segments, |segments|, 0);
    forall f: nat
      ensures Placements(blocks, f) == if f < fileSize then 1 else 0
    {
      LinearPlacements(fileSize, segments, |segments|, f);
    }
    forall i | 0 <= i < |blocks|
      ensures blocks[i] == LinearBlock(fileSize, segments, i)
    {
      LinearBlockAt(fileSize, segments, |segments|, i);
    }
    forall i | 0 <= i < |blocks| - 1
      ensures blocks[i].range.End() <= blocks[i + 1].range.start
    {
      assert blocks[i] == LinearBlock(fileSize, segments, i);
      assert blocks[i + 1] == LinearBlock(fileSize, segments, i + 1);
    }
  }
}
