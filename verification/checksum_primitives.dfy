/** The loops behind the checksum folds (src/algorithms/checksum/checksum_primitives.cpp). */
module ChecksumPrimitives {
  import opened Bytes
  import opened BitXor
  import opened ChecksumRules

  datatype Status = Unchanged | Corrected | Disabled | InvalidSize | UnsupportedRom | ParseError

  datatype ChecksumResult = ChecksumResult(status: Status, rom: seq<byte>) {
    predicate Ok() {
      status.Unchanged? || status.Corrected? || status.Disabled?
    }
  }

  /** `sum'` and `xorAll'` continue `sum` and `xorAll` over the words of [start, offset). */
  ghost predicate Folded(rom: seq<byte>, start: nat, offset: nat, sum: nat, xorAll: nat, sum': nat, xorAll': nat) {
    && start <= offset
    && (offset - start) % 4 == 0
    && sum' == Wrap32(sum + UnitSum(rom, start, offset, 4))
    && xorAll' == Xor(xorAll, UnitXor(rom, start, offset, 4))
    && xorAll' < U32
  }

  lemma FoldStart(rom: seq<byte>, start: nat, sum: word32, xorAll: word32)
    ensures Folded(rom, start, start, sum, xorAll, sum, xorAll)
  {
    XorIdentity(xorAll);
  }

  lemma FoldStep(rom: seq<byte>, start: nat, offset: nat, sum: nat, xorAll: nat, sum': nat, xorAll': nat)
    requires offset + 4 <= |rom| && Folded(rom, start, offset, sum, xorAll, sum', xorAll')
    ensures var word := ReadU32Be(rom, offset);
            Folded(rom, start, offset + 4, sum, xorAll, Wrap32(sum' + word), Xor(xorAll', word))
  {
    hide Xor, Wrap32;
    var word, before := ReadU32Be(rom, offset), UnitXor(rom, start, offset, 4);
    WrapsOnce(sum + UnitSum(rom, start, offset, 4), word);
    XorAssociative(xorAll, before, word);
    XorBelow(xorAll', word, 4);
    assert ReadBe(rom, offset, 4) == word;
  }

  method FoldPieceU32Be(sum: word32, xorAll: word32, image: array<byte>, piece: Piece)
    returns (sum': word32, xorAll': word32)
    requires Whole(piece, 4) && piece.end <= image.Length
    ensures Folded(image[..], piece.start, piece.end, sum, xorAll, sum', xorAll')
  {
    sum', xorAll' := sum, xorAll;
    ghost var rom := image[..];
    FoldStart(rom, piece.start, sum, xorAll);
    var offset := piece.start;
    while offset + 4 <= piece.end
      invariant image[..] == rom && offset <= piece.end
      invariant Folded(rom, piece.start, offset, sum, xorAll, sum', xorAll')
    {
      hide ReadU32Be, Wrap32, Xor;
      FoldStep(rom, piece.start, offset, sum, xorAll, sum', xorAll');
      var word := ReadU32Be(image[..], offset);
      sum', xorAll' := Wrap32(sum' + word), Xor(xorAll', word);
      offset := offset + 4;
    }
  }

  /** The 32-bit sum and exclusive or of the words of every piece, one piece after another. */
  method FoldU32Be(image: array<byte>, window: seq<Piece>) returns (sum: word32, xorAll: word32)
    requires Pieces(window, image.Length, 4)
    ensures sum == Wrap32(WindowSum(image[..], window, 4))
    ensures xorAll == WindowXor(image[..], window, 4)
  {
    assert Wrap32(0) == 0;
    hide Xor, Wrap32, UnitSum, UnitXor;
    if window == [] {
      return 0, 0;
    }
    sum, xorAll := FoldU32Be(image, window[..|window| - 1]);
    var piece := window[|window| - 1];
    WrapsOnce(WindowSum(image[..], window[..|window| - 1], 4), UnitSum(image[..], piece.start, piece.end, 4));
    sum, xorAll := FoldPieceU32Be(sum, xorAll, image, piece);
  }

  function SumOutside(rom: seq<byte>, first: nat, last: nat, i: nat): nat
    requires i <= |rom|
  {
    if i == 0 then 0
    else SumOutside(rom, first, last, i - 1) + if i - 1 < first || i - 1 > last then rom[i - 1] else 0
  }

  function XorOutside(rom: seq<byte>, first: nat, last: nat, i: nat): (x: nat)
    requires i <= |rom|
    ensures x < U8
  {
    if i == 0 then 0
    else
      var before := XorOutside(rom, first, last, i - 1);
      XorBelow(before, rom[i - 1], 1);
      if i - 1 < first || i - 1 > last then Xor(before, rom[i - 1]) else before
  }

  lemma {:induction false} OutsideIsTwoPieces(rom: seq<byte>, first: nat, last: nat, i: nat)
    requires first <= last && i <= |rom|
    ensures var head := if i < first then i else first;
            && SumOutside(rom, first, last, i) == UnitSum(rom, 0, head, 1) + UnitSum(rom, last + 1, i, 1)
            && XorOutside(rom, first, last, i) == Xor(UnitXor(rom, 0, head, 1), UnitXor(rom, last + 1, i, 1))
  {
    if i == 0 {
    } else {
      OutsideIsTwoPieces(rom, first, last, i - 1);
      if i - 1 < first {
        XorIdentity(UnitXor(rom, 0, i - 1, 1));
        XorIdentity(UnitXor(rom, 0, i, 1));
      } else if i - 1 > last {
        XorAssociative(UnitXor(rom, 0, first, 1), UnitXor(rom, last + 1, i - 1, 1), rom[i - 1]);
      }
    }
  }

  /** The 8-bit sum and exclusive or of every byte but those from `first` through `last`. */
  method FoldBytesOutside(image: array<byte>, first: nat, last: nat) returns (sum: byte, xorAll: byte)
    requires first <= last < image.Length
    ensures var window := [Piece(0, first), Piece(last + 1, image.Length)];
            && sum == Wrap8(WindowSum(image[..], window, 1))
            && xorAll == WindowXor(image[..], window, 1)
  {
    assert Wrap8(0) == 0;
    hide Xor, Wrap8;
    sum, xorAll := 0, 0;
    ghost var rom := image[..];
    for i := 0 to image.Length
      invariant sum == Wrap8(SumOutside(rom, first, last, i))
      invariant xorAll == XorOutside(rom, first, last, i)
    {
      if i < first || i > last {
        WrapsOnce(SumOutside(rom, first, last, i), image[i]);
        sum := Wrap8(sum as int + image[i]);
        XorBelow(xorAll, image[i], 1);
        xorAll := Xor(xorAll, image[i]);
      }
    }
    OutsideIsTwoPieces(rom, first, last, |rom|);
    TwoPieces(rom, Piece(0, first), Piece(last + 1, |rom|));
  }

  lemma TwoPieces(rom: seq<byte>, a: Piece, b: Piece)
    ensures WindowSum(rom, [a, b], 1) == UnitSum(rom, a.start, a.end, 1) + UnitSum(rom, b.start, b.end, 1)
    ensures WindowXor(rom, [a, b], 1) == Xor(UnitXor(rom, a.start, a.end, 1), UnitXor(rom, b.start, b.end, 1))
  {
    var front := [a];
    assert [a, b][..1] == front && front[..0] == [];
    assert WindowSum(rom, front, 1) == UnitSum(rom, a.start, a.end, 1);
    assert WindowXor(rom, front, 1) == UnitXor(rom, a.start, a.end, 1) by {
      XorIdentity(UnitXor(rom, a.start, a.end, 1));
    }
  }

  method RebalanceU16Be(image: array<byte>, offset: nat, observed: word16, target: word16)
    modifies image
    ensures image[..] == if FitsAt(old(image[..]), offset, 2)
                         then OverwriteAt(old(image[..]), offset,
                                EncodeU16Be((ReadU16Be(old(image[..]), offset) as int + target - observed) % U16))
                         else old(image[..])
  {
    var stored := ReadU16Be(image[..], offset);
    WriteU16Be(image, offset, (stored as int + target - observed) % U16);
  }

  method RebalanceU32Be(image: array<byte>, offset: nat, observed: word32, target: word32)
    modifies image
    ensures image[..] == if FitsAt(old(image[..]), offset, 4)
                         then OverwriteAt(old(image[..]), offset,
                                EncodeU32Be(Wrap32(ReadU32Be(old(image[..]), offset) + target - observed)))
                         else old(image[..])
  {
    var stored := ReadU32Be(image[..], offset);
    WriteU32Be(image, offset, Wrap32(stored + target - observed));
  }

  /** Rule `k` of a layout whose earlier rules are corrected: compares a stored word with the
      value calculated for it and writes it when they differ. */
  method StoreWord(image: array<byte>, rules: seq<Rule>, k: nat, calculated: word32, ghost rom: seq<byte>)
    returns (held: bool)
    requires Layout(rules, |rom|) && k < |rules| && image.Length == |rom|
    requires rules[k].Store? && rules[k].width == 4
    requires image[..] == Run(rules[..k], rom) && calculated == Value(rules[k], image[..])
    modifies image
    ensures held == Holds(rules[k], Run(rules[..k], rom))
    ensures image[..] == Run(rules[..k + 1], rom)
  {
    ghost var before := image[..];
    var stored := ReadU32Be(image[..], rules[k].slot);
    held := calculated == stored;
    if !held {
      WriteU32Be(image, rules[k].slot, calculated);
    }
    assert image[..] == Correct(rules[k], before);
    RunStep(rules, k, rom);
  }

  /** Rule `k` of a layout whose slot is one byte. */
  method StoreByte(image: array<byte>, rules: seq<Rule>, k: nat, calculated: byte, ghost rom: seq<byte>)
    returns (held: bool)
    requires Layout(rules, |rom|) && k < |rules| && image.Length == |rom|
    requires rules[k].Store? && rules[k].width == 1
    requires image[..] == Run(rules[..k], rom) && calculated == Value(rules[k], image[..])
    modifies image
    ensures held == Holds(rules[k], Run(rules[..k], rom))
    ensures image[..] == Run(rules[..k + 1], rom)
  {
    ghost var before := image[..];
    held := calculated == image[rules[k].slot];
    if !held {
      image[rules[k].slot] := calculated;
    }
    assert image[..] == Correct(rules[k], before);
    RunStep(rules, k, rom);
  }

  lemma LowHalf(sum: nat)
    ensures sum % U32 % U16 == sum % U16
    ensures sum % U32 % U32 == sum % U32
  {
  }

  /** Rule `k` of a layout: sums a window and moves its balance slot when the sum misses the
      target. */
  method BalanceSlot(image: array<byte>, rules: seq<Rule>, k: nat, ghost rom: seq<byte>) returns (held: bool)
    requires Layout(rules, |rom|) && k < |rules| && image.Length == |rom|
    requires rules[k].Balance? && image[..] == Run(rules[..k], rom)
    modifies image
    ensures held == Holds(rules[k], Run(rules[..k], rom))
    ensures image[..] == Run(rules[..k + 1], rom)
  {
    hide WindowSum, WindowXor, Run;
    ghost var before := image[..];
    var rule := rules[k];
    var sum, _ := FoldU32Be(image, rule.window);
    LowHalf(WindowSum(before, rule.window, 4));
    if rule.half {
      held := sum % U16 == rule.target;
      if !held {
        RebalanceU16Be(image, rule.slot, sum % U16, rule.target);
      }
    } else {
      held := sum == rule.target;
      if !held {
        RebalanceU32Be(image, rule.slot, sum, rule.target);
      }
    }
    assert image[..] == Correct(rule, before);
    RunStep(rules, k, rom);
  }

  lemma RunNothing(rules: seq<Rule>, rom: seq<byte>, image: seq<byte>)
    requires Layout(rules, |rom|) && |image| == |rom|
    requires forall i :: 0 <= i < |rom| ==> image[i] == rom[i]
    ensures image == rom == Run(rules[..0], rom)
  {
  }

  lemma {:induction false} ZeroUnits(rom: seq<byte>, start: nat, end: nat)
    requires end <= |rom| && forall i :: start <= i < end ==> rom[i] == 0
    ensures UnitSum(rom, start, end, 4) == 0
    decreases end
  {
    if start + 4 <= end {
      ZeroUnits(rom, start, end - 4);
    }
  }

  lemma TwoWordPieces(rom: seq<byte>, a: Piece, b: Piece)
    ensures WindowSum(rom, [a, b], 4) == UnitSum(rom, a.start, a.end, 4) + UnitSum(rom, b.start, b.end, 4)
  {
    var front := [a];
    assert [a, b][..1] == front && front[..0] == [];
    assert WindowSum(rom, front, 4) == UnitSum(rom, a.start, a.end, 4);
  }

  lemma OneWordPiece(rom: seq<byte>, a: Piece)
    ensures WindowSum(rom, [a], 4) == UnitSum(rom, a.start, a.end, 4)
  {
    assert [a][..0] == [];
  }
}
