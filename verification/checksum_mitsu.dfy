/** The Mitsubishi M32R layout (src/algorithms/checksum/checksum_ecu_mitsu_m32r_can.cpp): the word
    sum of an area whose length one ROM byte encodes, taken as though the correction words were
    erased flash, must reach a target; one balance word is adjusted. */
module ChecksumMitsu {
  import opened Bytes
  import opened ChecksumRules
  import opened ChecksumPrimitives

  const TARGET: word32 := 0x5AA55AA5
  const CORRECTION_WORDS: nat := 0x3FFCE
  const CORRECTION_WORD_COUNT: nat := 5
  const BALANCE_SLOT: nat := 0x3FFC0
  const AREA_CODE_OFFSET: nat := 0x3FFCB
  const LAYOUT_END: nat := CORRECTION_WORDS + 2 + CORRECTION_WORD_COUNT * 4

  datatype AreaEnd = Unrecognised | Ends(end: nat)

  function AreaEndFor(code: byte): (area: AreaEnd)
    ensures area.Ends? ==> area.end % 4 == 0 && LAYOUT_END <= area.end
  {
    match code
    case 0x40 => Ends(0x040000)
    case 0x50 => Ends(0x080000)
    case 0x60 => Ends(0x100000)
    case 0x80 => Ends(0x140000)
    case 0xC0 => Ends(0x050000)
    case 0xC2 => Ends(0x060000)
    case 0xC3 => Ends(0x0C0000)
    case _ => Unrecognised
  }

  /** The layout applies: a recognised area code whose area lies inside the ROM. */
  predicate Enabled(rom: seq<byte>) {
    && |rom| >= LAYOUT_END
    && AreaEndFor(rom[AREA_CODE_OFFSET]).Ends?
    && AreaEndFor(rom[AREA_CODE_OFFSET]).end <= |rom|
  }

  function Area(rom: seq<byte>): (end: nat)
    requires Enabled(rom)
    ensures end % 4 == 0 && LAYOUT_END <= end <= |rom|
  {
    AreaEndFor(rom[AREA_CODE_OFFSET]).end
  }

  /** The ROM with its correction halfword and first `k` correction words erased to 0xFF. */
  function Erased(rom: seq<byte>, k: nat): (r: seq<byte>)
    requires |rom| >= LAYOUT_END && k <= CORRECTION_WORD_COUNT
    ensures |r| == |rom|
    ensures forall i :: 0 <= i < |rom| ==>
              r[i] == if CORRECTION_WORDS <= i < CORRECTION_WORDS + 2 + 4 * k then 0xFF else rom[i]
  {
    rom[..CORRECTION_WORDS] + seq(2 + 4 * k, _ => 0xFF) + rom[CORRECTION_WORDS + 2 + 4 * k..]
  }

  /** What the ECU's checker adds up. */
  function EcuSum(rom: seq<byte>): nat
    requires Enabled(rom)
  {
    UnitSum(Erased(rom, CORRECTION_WORD_COUNT), 0, Area(rom), 4)
  }

  predicate MitsuHolds(rom: seq<byte>)
    requires Enabled(rom)
  {
    Wrap32(EcuSum(rom)) == TARGET
  }

  /** The correction halfword and the first `k` correction words, added up. */
  function CorrectionTotal(rom: seq<byte>, k: nat): nat {
    if k == 0 then ReadU16Be(rom, CORRECTION_WORDS)
    else CorrectionTotal(rom, k - 1) + ReadU32Be(rom, CORRECTION_WORDS + 2 + (k - 1) * 4)
  }

  /** Erasing replaces each correction word by 0xFFFFFFFF, one below a full turn. */
  lemma {:induction false} ErasedSum(rom: seq<byte>, k: nat, end: nat)
    requires |rom| >= LAYOUT_END && k <= CORRECTION_WORD_COUNT
    requires end % 4 == 0 && LAYOUT_END <= end <= |rom|
    ensures UnitSum(Erased(rom, k), 0, end, 4)
            == UnitSum(rom, 0, end, 4) - CorrectionTotal(rom, k) + 0xFFFF + k * 0xFFFF_FFFF
  {
    hide UnitSum;
    var r := Erased(rom, k);
    if k == 0 {
      UnitUpdate(rom, r, 0, end, CORRECTION_WORDS - 2);
      HalfOfWord(rom, CORRECTION_WORDS - 2);
      HalfOfWord(r, CORRECTION_WORDS - 2);
    } else {
      ErasedSum(rom, k - 1, end);
      var at := CORRECTION_WORDS + 2 + (k - 1) * 4;
      UnitUpdate(Erased(rom, k - 1), r, 0, end, at);
    }
  }

  /** What one pass leaves. */
  function MitsuPass(rom: seq<byte>): (r: seq<byte>)
    ensures |r| == |rom|
  {
    if !Enabled(rom) || MitsuHolds(rom) then rom
    else OverwriteAt(rom, BALANCE_SLOT,
                     EncodeU32Be(Wrap32(ReadU32Be(rom, BALANCE_SLOT) + TARGET - Wrap32(EcuSum(rom)))))
  }

  /** The checksum over the area, the correction words taken out one by one and put back as
      erased flash. */
  method MitsuChecksum(image: array<byte>, ghost rom: seq<byte>, end: nat) returns (checksum: word32)
    requires image[..] == rom && Enabled(rom) && end == Area(rom)
    ensures checksum == Wrap32(EcuSum(rom))
  {
    hide UnitSum, WindowSum, ReadU16Be, ReadU32Be, AreaEndFor, Wrap32, Erased;
    var sum, _ := FoldU32Be(image, [Piece(0, end)]);
    OneWordPiece(rom, Piece(0, end));
    ghost var total := UnitSum(rom, 0, end, 4);
    WrapsOnce(total, 0 - ReadU16Be(rom, CORRECTION_WORDS) as int);
    checksum := Wrap32(sum - ReadU16Be(image[..], CORRECTION_WORDS));
    for index := 0 to CORRECTION_WORD_COUNT
      invariant image[..] == rom
      invariant checksum == Wrap32(total - CorrectionTotal(rom, index))
    {
      var word := ReadU32Be(image[..], CORRECTION_WORDS + 2 + index * 4);
      WrapsOnce(total - CorrectionTotal(rom, index), 0 - word as int);
      checksum := Wrap32(checksum - word);
    }
    WrapsOnce(total - CorrectionTotal(rom, CORRECTION_WORD_COUNT), 0xFFFF - 5);
    checksum := Wrap32(checksum + 0xFFFF - 5);
    ErasedSum(rom, CORRECTION_WORD_COUNT, end);
    FullTurns(total - CorrectionTotal(rom, CORRECTION_WORD_COUNT) + 0xFFFF - 5);
  }

  method CorrectMitsu(rom: seq<byte>) returns (result: ChecksumResult)
    ensures result.rom == MitsuPass(rom)
    ensures result.status == if |rom| < 0x3FFE4 then InvalidSize
                             else if !Enabled(rom) then Disabled
                             else if MitsuHolds(rom) then Unchanged else Corrected
  {
    hide AreaEndFor, EcuSum, ReadU32Be, EncodeU32Be, Wrap32;
    if |rom| < LAYOUT_END {
      return ChecksumResult(InvalidSize, rom);
    }
    var area := AreaEndFor(rom[AREA_CODE_OFFSET]);
    if area.Unrecognised? || area.end > |rom| {
      return ChecksumResult(Disabled, rom);
    }
    result := CorrectEnabled(rom, area.end);
  }

  method CorrectEnabled(rom: seq<byte>, end: nat) returns (result: ChecksumResult)
    requires Enabled(rom) && end == Area(rom)
    ensures result.rom == MitsuPass(rom)
    ensures result.status == if MitsuHolds(rom) then Unchanged else Corrected
  {
    hide Enabled, Area, EcuSum, ReadU32Be, EncodeU32Be, Wrap32, OverwriteAt;
    var image := new byte[|rom|](i requires 0 <= i < |rom| => rom[i]);
    assert image[..] == rom;
    var checksum := MitsuChecksum(image, rom, end);
    if checksum == TARGET {
      return ChecksumResult(Unchanged, image[..]);
    }
    SlotFits(rom);
    RebalanceU32Be(image, BALANCE_SLOT, checksum, TARGET);
    result := ChecksumResult(Corrected, image[..]);
  }

  lemma SlotFits(rom: seq<byte>)
    requires Enabled(rom)
    ensures FitsAt(rom, BALANCE_SLOT, 4)
  {
  }

  lemma FullTurns(x: int)
    ensures Wrap32(x) == Wrap32(x + 5 * U32)
  {
  }

  /** One pass over a ROM the layout applies to makes the ECU's check succeed, keeps the area it
      covers, and leaves nothing for a second pass to change. */
  lemma MitsuSettled(rom: seq<byte>)
    requires Enabled(rom)
    ensures var r := MitsuPass(rom);
            && Enabled(r) && Area(r) == Area(rom) && MitsuHolds(r) && MitsuPass(r) == r
  {
    hide UnitSum, AreaEndFor, ReadU32Be, EncodeU32Be, Wrap32, EcuSum, Area;
    if !MitsuHolds(rom) {
      var v := Wrap32(ReadU32Be(rom, BALANCE_SLOT) + TARGET - Wrap32(EcuSum(rom)));
      var r := OverwriteAt(rom, BALANCE_SLOT, EncodeU32Be(v));
      assert r == MitsuPass(rom);
      assert r[AREA_CODE_OFFSET] == rom[AREA_CODE_OFFSET];
      EcuSumMoves(rom, r);
      StoredWord(rom, BALANCE_SLOT, v);
      ReachesTarget(EcuSum(rom), ReadU32Be(rom, BALANCE_SLOT), EcuSum(r));
    }
  }

  lemma EcuSumMoves(rom: seq<byte>, r: seq<byte>)
    requires Enabled(rom) && |r| == |rom|
    requires forall i :: 0 <= i < |rom| && !(BALANCE_SLOT <= i < BALANCE_SLOT + 4) ==> r[i] == rom[i]
    ensures Enabled(r) && Area(r) == Area(rom)
    ensures EcuSum(r) == EcuSum(rom) - ReadU32Be(rom, BALANCE_SLOT) + ReadU32Be(r, BALANCE_SLOT)
  {
    hide UnitSum, AreaEndFor, ReadU32Be;
    assert r[AREA_CODE_OFFSET] == rom[AREA_CODE_OFFSET];
    var e, e' := Erased(rom, CORRECTION_WORD_COUNT), Erased(r, CORRECTION_WORD_COUNT);
    UnitUpdate(e, e', 0, Area(rom), BALANCE_SLOT);
    SameWord(e, rom, BALANCE_SLOT);
    SameWord(e', r, BALANCE_SLOT);
  }

  lemma ReachesTarget(sum: nat, stored: nat, sum': int)
    requires sum' == sum - stored + Wrap32(stored + TARGET - Wrap32(sum))
    ensures Wrap32(sum') == TARGET
  {
    MovedToTarget(sum, stored, TARGET, U32, sum');
  }

  lemma SameWord(a: seq<byte>, b: seq<byte>, at: nat)
    requires at + 4 <= |a| && |a| == |b| && forall i :: at <= i < at + 4 ==> a[i] == b[i]
    ensures ReadU32Be(a, at) == ReadU32Be(b, at)
  {
  }

  lemma StoredWord(rom: seq<byte>, at: nat, v: word32)
    requires at + 4 <= |rom|
    ensures ReadU32Be(OverwriteAt(rom, at, EncodeU32Be(v)), at) == v
  {
    ReadAfterEncode(rom, at, v, 4);
  }
}
