/** The fixed Hitachi ECU layouts: M32R over CAN, SH7058 and M32R over K-Line
    (src/algorithms/checksum/checksum_ecu_subaru_hitachi_*.cpp). */
module ChecksumHitachi {
  import opened Bytes
  import opened BitXor
  import opened ChecksumRules
  import opened ChecksumPrimitives

  // ---- M32R CAN ---------------------------------------------------------------------------

  const CAN_SIZE: nat := 0x80000
  const CAN_ALL: seq<Piece> := [Piece(0, 0x10000), Piece(0x10004, 0x7fff0)]
  const CAN_1 := Store(AddUnits, 4, [Piece(0x6000, 0x8000)], 0x7ffe8)
  const CAN_2 := Store(XorUnits, 4, [Piece(0x6000, 0x8000)], 0x7ffec)
  const CAN_3 := Store(AddUnits, 4, CAN_ALL, 0x7fff0)
  const CAN_4 := Store(XorUnits, 4, CAN_ALL, 0x7fff4)
  const CAN_5 := Balance(true, [Piece(0x4000, 0x10000), Piece(0x10004, CAN_SIZE)], 0x7fffa, 0x5aa5)
  const CAN_RULES: seq<Rule> := [CAN_1, CAN_2, CAN_3, CAN_4, CAN_5]

  /** Checksum 6: an 8-bit sum and exclusive or, compared but never written. */
  const CAN_6_WINDOW: seq<Piece> := [Piece(0, 0x10000), Piece(0x10004, CAN_SIZE)]
  const CAN_6_SUM := Store(AddUnits, 1, CAN_6_WINDOW, 0x10000)
  const CAN_6_XOR := Store(XorUnits, 1, CAN_6_WINDOW, 0x10001)

  lemma CanRules()
    ensures WellFormed(CAN_1, CAN_SIZE) && WellFormed(CAN_2, CAN_SIZE) && WellFormed(CAN_3, CAN_SIZE)
    ensures WellFormed(CAN_4, CAN_SIZE) && WellFormed(CAN_5, CAN_SIZE)
    ensures WellFormed(CAN_6_SUM, CAN_SIZE) && WellFormed(CAN_6_XOR, CAN_SIZE)
  {
    assert HoldsWord(CAN_5.window[1], 0x7fff8);
  }

  lemma CanLayout()
    ensures Layout(CAN_RULES, CAN_SIZE) && Ordered(CAN_RULES)
  {
    CanRules();
    assert Layout(CAN_RULES, CAN_SIZE) by {
      hide WellFormed;
    }
    hide WellFormed;
  }

  /** One pass makes checksums 1 to 5 hold at once; a second pass changes no byte. */
  lemma CanSettled(rom: seq<byte>)
    requires |rom| == CAN_SIZE
    ensures Layout(CAN_RULES, |rom|)
    ensures AllHold(CAN_RULES, Run(CAN_RULES, rom))
    ensures Run(CAN_RULES, Run(CAN_RULES, rom)) == Run(CAN_RULES, rom)
  {
    hide WellFormed, Holds, Spares, Run;
    CanLayout();
    RunHolds(CAN_RULES, rom);
    RunIdempotent(CAN_RULES, rom);
  }

  method CorrectM32rCan(rom: seq<byte>) returns (result: ChecksumResult)
    requires |rom| == CAN_SIZE
    ensures Layout(CAN_RULES, |rom|) && result.rom == Run(CAN_RULES, rom)
    ensures WellFormed(CAN_6_SUM, |rom|) && WellFormed(CAN_6_XOR, |rom|)
    ensures result.status == CanStatus(rom)
  {
    hide WellFormed, Holds, Spares, Correct, WindowSum, WindowXor, Run;
    CanRules();
    CanLayout();
    var image := new byte[|rom|](i requires 0 <= i < |rom| => rom[i]);
    RunNothing(CAN_RULES, rom, image[..]);

    var sum1, xor2 := FoldU32Be(image, CAN_1.window);
    ValueKept(CAN_RULES, 0, rom);
    var ok1 := StoreWord(image, CAN_RULES, 0, sum1, rom);
    var ok2 := StoreWord(image, CAN_RULES, 1, xor2, rom);

    var sum3, xor4 := FoldU32Be(image, CAN_ALL);
    ValueKept(CAN_RULES, 2, rom);
    var ok3 := StoreWord(image, CAN_RULES, 2, sum3, rom);
    var ok4 := StoreWord(image, CAN_RULES, 3, xor4, rom);

    var ok5 := BalanceSlot(image, CAN_RULES, 4, rom);
    assert CAN_RULES[..5] == CAN_RULES;
    PassStatus(CAN_RULES, rom, [ok1, ok2, ok3, ok4, ok5]);
    RunUnchanged(CAN_RULES, rom);

    var hi, lo := FoldBytesOutside(image, 0x10000, 0x10003);
    var ok6 := hi as int * 0x100 + lo == ReadU16Be(image[..], 0x10000);
    Checksum6(image[..], hi, lo);
    var ok := ok1 && ok2 && ok3 && ok4 && ok5 && ok6;
    result := ChecksumResult(if ok then Unchanged else Corrected, image[..]);
  }

  lemma Checksum6(rom: seq<byte>, hi: byte, lo: byte)
    requires |rom| == CAN_SIZE
    requires hi == WindowSum(rom, CAN_6_WINDOW, 1) % U8 && lo == WindowXor(rom, CAN_6_WINDOW, 1)
    requires WellFormed(CAN_6_SUM, CAN_SIZE) && WellFormed(CAN_6_XOR, CAN_SIZE)
    ensures hi as int * 0x100 + lo == ReadU16Be(rom, 0x10000) <==> Holds(CAN_6_SUM, rom) && Holds(CAN_6_XOR, rom)
  {
    hide WindowSum, WindowXor, WellFormed;
  }

  /** Whether the stored checksum 6 is the ROM's. */
  predicate CanSixHolds(rom: seq<byte>)
    requires WellFormed(CAN_6_SUM, |rom|) && WellFormed(CAN_6_XOR, |rom|)
  {
    Holds(CAN_6_SUM, rom) && Holds(CAN_6_XOR, rom)
  }

  /** The status the correction reports. */
  function CanStatus(rom: seq<byte>): Status
    requires Layout(CAN_RULES, |rom|) && WellFormed(CAN_6_SUM, |rom|) && WellFormed(CAN_6_XOR, |rom|)
  {
    if AllHold(CAN_RULES, rom) && CanSixHolds(rom) then Unchanged else Corrected
  }

  /** A correction is reported although no byte changed exactly when checksums 1 to 5 hold and 6
      does not; a ROM reported unchanged is unchanged. */
  lemma CanStatusExact(rom: seq<byte>)
    requires |rom| == CAN_SIZE
    ensures Layout(CAN_RULES, |rom|) && WellFormed(CAN_6_SUM, |rom|) && WellFormed(CAN_6_XOR, |rom|)
    ensures CanStatus(rom).Corrected? && Run(CAN_RULES, rom) == rom <==> AllHold(CAN_RULES, rom) && !CanSixHolds(rom)
    ensures CanStatus(rom).Unchanged? ==> Run(CAN_RULES, rom) == rom
  {
    hide WellFormed, Holds, Spares, Run, CanSixHolds;
    CanRules();
    CanLayout();
    RunIdempotent(CAN_RULES, rom);
  }

  /** Whatever ROM a pass has settled, every byte at 0x10000 but one gives such a case: each later pass
      leaves checksum 6 broken and reports a correction again. */
  lemma CanStatusMisleads(rom: seq<byte>, b: byte)
    requires |rom| == CAN_SIZE && Layout(CAN_RULES, |rom|)
    requires WellFormed(CAN_6_SUM, |rom|) && WellFormed(CAN_6_XOR, |rom|)
    requires b as int != Value(CAN_6_SUM, Run(CAN_RULES, rom))
    ensures var dirty := Run(CAN_RULES, rom)[0x10000 := b];
            && AllHold(CAN_RULES, dirty) && !CanSixHolds(dirty)
            && Run(CAN_RULES, dirty) == dirty && CanStatus(dirty).Corrected?
  {
    hide WellFormed, Run, CanStatus;
    var settled := Run(CAN_RULES, rom);
    var dirty := settled[0x10000 := b];
    CanSettled(rom);
    forall k | 0 <= k < |CAN_RULES|
      ensures Holds(CAN_RULES[k], dirty)
    {
      CanUnread(CAN_RULES[k]);
      HoldsFrame(CAN_RULES[k], settled, dirty);
    }
    CanSixBroken(settled, b);
    CanStatusExact(dirty);
    RunUnchanged(CAN_RULES, dirty);
  }

  /** Rules 1 to 5 do not read the byte at 0x10000. */
  lemma CanUnread(rule: Rule)
    requires rule in CAN_RULES
    ensures !Reads(rule, 0x10000)
  {
  }

  lemma CanSixBroken(rom: seq<byte>, b: byte)
    requires |rom| == CAN_SIZE && WellFormed(CAN_6_SUM, |rom|) && b as int != Value(CAN_6_SUM, rom)
    ensures !Holds(CAN_6_SUM, rom[0x10000 := b])
  {
    hide WindowSum;
    WindowFrame(rom, rom[0x10000 := b], CAN_6_WINDOW, 1);
  }

  // ---- SH7058 -----------------------------------------------------------------------------

  const SH_SIZE: nat := 0x100000
  const SH_ALL: seq<Piece> := [Piece(0, 0xffff0), Piece(0xffff8, SH_SIZE)]
  const SH_1 := Store(AddUnits, 4, [Piece(0x18400, 0x1e000)], 0xfffe8)
  const SH_2 := Store(XorUnits, 4, [Piece(0x18400, 0x1e000)], 0xfffec)
  const SH_5 := Balance(false, [Piece(0x4000, 0xffff0), Piece(0xffff8, SH_SIZE)], 0xffff8, 0x5aa5a55a)
  const SH_3 := Store(AddUnits, 4, SH_ALL, 0xffff0)
  const SH_4 := Store(XorUnits, 4, SH_ALL, 0xffff4)
  const SH_RULES: seq<Rule> := [SH_1, SH_2, SH_5, SH_3, SH_4]

  lemma ShRules()
    ensures WellFormed(SH_1, SH_SIZE) && WellFormed(SH_2, SH_SIZE) && WellFormed(SH_3, SH_SIZE)
    ensures WellFormed(SH_4, SH_SIZE) && WellFormed(SH_5, SH_SIZE)
  {
    assert HoldsWord(SH_5.window[1], 0xffff8);
  }

  lemma ShLayout()
    ensures Layout(SH_RULES, SH_SIZE) && Ordered(SH_RULES)
  {
    ShRules();
    hide WellFormed;
  }

  /** One pass makes all five checksums hold at once; a second pass changes no byte. */
  lemma ShSettled(rom: seq<byte>)
    requires |rom| == SH_SIZE
    ensures Layout(SH_RULES, |rom|)
    ensures AllHold(SH_RULES, Run(SH_RULES, rom))
    ensures Run(SH_RULES, Run(SH_RULES, rom)) == Run(SH_RULES, rom)
  {
    hide WellFormed, Holds, Spares, Run;
    ShLayout();
    RunHolds(SH_RULES, rom);
    RunIdempotent(SH_RULES, rom);
  }

  lemma ShSpares()
    ensures Spares(SH_1, SH_2) && Spares(SH_3, SH_4)
  {
  }

  /** The status follows the four stored checksums only, 3 and 4 once the balance is made. */
  function ShStatus(rom: seq<byte>): Status
    requires Layout(SH_RULES, |rom|)
  {
    var balanced := Run(SH_RULES[..3], rom);
    if Holds(SH_RULES[0], rom) && Holds(SH_RULES[1], rom) && Holds(SH_RULES[3], balanced) && Holds(SH_RULES[4], balanced)
    then Unchanged else Corrected
  }

  /** No byte changes exactly when the ROM is reported unchanged and checksum 5 held beforehand: a
      report of a correction is right, one of none only under checksum 5. */
  lemma ShStatusExact(rom: seq<byte>)
    requires |rom| == SH_SIZE
    ensures Layout(SH_RULES, |rom|) && WellFormed(SH_5, |rom|)
    ensures Run(SH_RULES, rom) == rom <==> Holds(SH_5, rom) && ShStatus(rom).Unchanged?
  {
    hide WellFormed, Holds, Spares, Run;
    ShRules();
    ShLayout();
    RunIdempotent(SH_RULES, rom);
    if AllHold(SH_RULES, rom) {
      RunUnchanged(SH_RULES[..3], rom);
      assert SH_RULES[0] == SH_1 && SH_RULES[2] == SH_5;
    }
    if Holds(SH_5, rom) && ShStatus(rom).Unchanged? {
      assert SH_RULES[..3] == [SH_1, SH_2, SH_5];
      RunUnchanged(SH_RULES[..3], rom);
      assert AllHold(SH_RULES, rom);
    }
  }

  /** Every settled ROM has neighbours that are reported unchanged while being rewritten: another
      word in the balance slot. */
  lemma ShStatusMisleads(rom: seq<byte>, word: word32)
    requires |rom| == SH_SIZE && Layout(SH_RULES, |rom|) && AllHold(SH_RULES, rom)
    requires word != ReadU32Be(rom, 0xffff8)
    ensures var dirty := OverwriteAt(rom, 0xffff8, EncodeU32Be(word));
            && dirty != rom && ShStatus(dirty).Unchanged? && Run(SH_RULES, dirty) == rom
  {
    hide WellFormed, Holds, Run, EncodeU32Be, ReadU32Be;
    var dirty := OverwriteAt(rom, 0xffff8, EncodeU32Be(word));
    ShDirty(rom, word);
    assert SH_RULES[0] == SH_1 && SH_RULES[1] == SH_2 && SH_RULES[2] == SH_5;
    ShRebalanced(rom, dirty);
    ShTail(rom, dirty);
  }

  lemma ShDirty(rom: seq<byte>, word: word32)
    requires |rom| == SH_SIZE && word != ReadU32Be(rom, 0xffff8)
    ensures OverwriteAt(rom, 0xffff8, EncodeU32Be(word)) != rom
  {
    var dirty := OverwriteAt(rom, 0xffff8, EncodeU32Be(word));
    assert dirty[0xffff8..0xffffc] == EncodeU32Be(word);
    assert ReadU32Be(dirty, 0xffff8) == ReadU32Be(dirty[0xffff8..0xffffc], 0);
  }

  /** The first three steps put the balance slot back. */
  lemma ShRebalanced(rom: seq<byte>, dirty: seq<byte>)
    requires |rom| == |dirty| == SH_SIZE && Layout(SH_RULES, |rom|) && AllHold(SH_RULES, rom)
    requires forall i :: 0 <= i < |rom| && !(0xffff8 <= i < 0xffffc) ==> dirty[i] == rom[i]
    ensures Holds(SH_RULES[0], dirty) && Holds(SH_RULES[1], dirty) && Run(SH_RULES[..3], dirty) == rom
  {
    hide WellFormed, Holds, Run;
    forall k | 0 <= k < 2
      ensures Holds(SH_RULES[k], dirty)
    {
      HoldsFrame(SH_RULES[k], rom, dirty);
    }
    assert AllHold(SH_RULES[..2], dirty);
    RunUnchanged(SH_RULES[..2], dirty);
    RunStep(SH_RULES, 2, dirty);
    CorrectHolds(SH_5, dirty);
    assert Holds(SH_RULES[2], rom);
    BalanceUnique(SH_5, rom, Correct(SH_5, dirty));
  }

  lemma ShTail(rom: seq<byte>, dirty: seq<byte>)
    requires |rom| == |dirty| == SH_SIZE && Layout(SH_RULES, |rom|) && AllHold(SH_RULES, rom)
    requires Run(SH_RULES[..3], dirty) == rom
    ensures Run(SH_RULES, dirty) == rom
  {
    hide WellFormed, Holds, Run;
    assert SH_RULES == SH_RULES[..3] + SH_RULES[3..];
    RunAppend(SH_RULES[..3], SH_RULES[3..], dirty);
    RunUnchanged(SH_RULES[3..], rom);
  }

  method CorrectSh7058(rom: seq<byte>) returns (result: ChecksumResult)
    requires |rom| == SH_SIZE
    ensures Layout(SH_RULES, |rom|) && result.rom == Run(SH_RULES, rom)
    ensures result.status == ShStatus(rom)
  {
    hide WellFormed, Holds, Spares, Correct, WindowSum, WindowXor, Run;
    ShRules();
    ShLayout();
    var image := new byte[|rom|](i requires 0 <= i < |rom| => rom[i]);
    RunNothing(SH_RULES, rom, image[..]);

    var sum1, xor2 := FoldU32Be(image, SH_1.window);
    ValueKept(SH_RULES, 0, rom);
    var ok1 := StoreWord(image, SH_RULES, 0, sum1, rom);
    var ok2 := StoreWord(image, SH_RULES, 1, xor2, rom);

    var _ := BalanceSlot(image, SH_RULES, 2, rom);

    var sum3, xor4 := FoldU32Be(image, SH_ALL);
    ValueKept(SH_RULES, 3, rom);
    var ok3 := StoreWord(image, SH_RULES, 3, sum3, rom);
    var ok4 := StoreWord(image, SH_RULES, 4, xor4, rom);
    assert SH_RULES[..5] == SH_RULES;
    ShSpares();
    HoldsKept(SH_RULES, 0, rom);
    HoldsKept(SH_RULES, 3, rom);
    result := ChecksumResult(if ok1 && ok2 && ok3 && ok4 then Unchanged else Corrected, image[..]);
  }

  // ---- M32R K-Line ------------------------------------------------------------------------

  const KLINE_SIZE: nat := 0x80000
  const KLINE_BYTES: seq<Piece> := [Piece(0, 0x8100), Piece(0x8102, KLINE_SIZE)]
  const KLINE_1 := Store(AddUnits, 1, KLINE_BYTES, 0x8100)
  const KLINE_2 := Store(XorUnits, 1, KLINE_BYTES, 0x8101)
  const KLINE_3 := Balance(true, [Piece(0x4000, 0x8100), Piece(0x8104, KLINE_SIZE)], 0x7fffa, 0x5aa5)
  const KLINE_RULES: seq<Rule> := [KLINE_1, KLINE_2, KLINE_3]

  lemma KlineRules()
    ensures WellFormed(KLINE_1, KLINE_SIZE) && WellFormed(KLINE_2, KLINE_SIZE) && WellFormed(KLINE_3, KLINE_SIZE)
    ensures Ordered([KLINE_3] + [KLINE_1, KLINE_2])
    ensures KLINE_RULES == [KLINE_1, KLINE_2] + [KLINE_3]
  {
    assert HoldsWord(KLINE_3.window[1], 0x7fff8);
  }

  method CorrectM32rKline(rom: seq<byte>) returns (result: ChecksumResult)
    requires |rom| == KLINE_SIZE
    ensures Layout(KLINE_RULES, |rom|) && result.rom == Run(KLINE_RULES, rom)
    ensures result.status == if AllHold(KLINE_RULES, rom) then Unchanged else Corrected
  {
    hide WellFormed, Holds, Spares, Correct, WindowSum, WindowXor, Run;
    KlineRules();
    var image := new byte[|rom|](i requires 0 <= i < |rom| => rom[i]);
    RunNothing(KLINE_RULES, rom, image[..]);

    var sum1, xor2 := FoldBytesOutside(image, 0x8100, 0x8101);
    ValueKept(KLINE_RULES, 0, rom);
    var ok1 := StoreByte(image, KLINE_RULES, 0, sum1, rom);
    var ok2 := StoreByte(image, KLINE_RULES, 1, xor2, rom);
    var ok3 := BalanceSlot(image, KLINE_RULES, 2, rom);
    assert KLINE_RULES[..3] == KLINE_RULES;
    PassStatus(KLINE_RULES, rom, [ok1, ok2, ok3]);
    result := ChecksumResult(if ok1 && ok2 && ok3 then Unchanged else Corrected, image[..]);
  }

  /** The balance slot lies inside the window of checksums 1 and 2, which are written first:
      one pass always settles checksum 3, and the second settles all three for good. */
  lemma KlineSettled(rom: seq<byte>)
    requires |rom| == KLINE_SIZE
    ensures Layout(KLINE_RULES, |rom|)
    ensures Holds(KLINE_3, Run(KLINE_RULES, rom))
    ensures var twice := Run(KLINE_RULES, Run(KLINE_RULES, rom));
            AllHold(KLINE_RULES, twice) && Run(KLINE_RULES, twice) == twice
  {
    hide WellFormed, Holds, Spares, Run;
    KlineRules();
    var first, second := [KLINE_1, KLINE_2], [KLINE_3];
    TwoPasses(first, second, rom);
    assert second[0] == KLINE_3;
    RunUnchanged(KLINE_RULES, Run(KLINE_RULES, Run(KLINE_RULES, rom)));
  }

  /** Replacing one byte: the sum moves by its change, and the exclusive or with that byte taken
      out stays the same. */
  lemma {:induction false} ByteUpdate(rom: seq<byte>, rom': seq<byte>, start: nat, end: nat, at: nat)
    requires |rom| == |rom'| && start <= at < end <= |rom|
    requires forall i :: start <= i < end && i != at ==> rom[i] == rom'[i]
    ensures UnitSum(rom', start, end, 1) == UnitSum(rom, start, end, 1) - rom[at] + rom'[at]
    ensures Xor(UnitXor(rom', start, end, 1), rom'[at]) == Xor(UnitXor(rom, start, end, 1), rom[at])
    decreases end
  {
    hide Xor;
    var before, before' := UnitXor(rom, start, end - 1, 1), UnitXor(rom', start, end - 1, 1);
    if at + 1 == end {
      UnitFrame(rom, rom', start, at, 1);
      XorCancels(rom[at], before);
      XorCancels(rom'[at], before');
    } else {
      ByteUpdate(rom, rom', start, end - 1, at);
      XorSwap(before, rom[end - 1], rom[at]);
      XorSwap(before', rom[end - 1], rom'[at]);
    }
  }

  lemma XorEqual(a: nat, b: nat, x: nat, y: nat)
    requires Xor(a, x) == Xor(b, y)
    ensures a == b <==> x == y
  {
    hide Xor;
    XorCancels(a, x);
    XorCancels(a, y);
    XorCancels(x, a);
    XorCancels(x, b);
    XorCancels(y, b);
  }

  /** Replacing two neighbouring bytes keeps both byte folds exactly when it keeps the pair's own
      sum and exclusive or. */
  lemma PairUpdate(rom: seq<byte>, rom': seq<byte>, head: Piece, start: nat, end: nat, at: nat)
    requires |rom| == |rom'| && head.end <= start <= at && at + 2 <= end <= |rom|
    requires forall i :: 0 <= i < |rom| && i != at && i != at + 1 ==> rom[i] == rom'[i]
    ensures var window := [head, Piece(start, end)];
            && (Wrap8(WindowSum(rom', window, 1)) == Wrap8(WindowSum(rom, window, 1))
                <==> (rom[at] as int + rom[at + 1]) % U8 == (rom'[at] as int + rom'[at + 1]) % U8)
            && (WindowXor(rom', window, 1) == WindowXor(rom, window, 1)
                <==> Xor(rom[at], rom[at + 1]) == Xor(rom'[at], rom'[at + 1]))
  {
    hide Xor, UnitXor;
    var mid := rom[at := rom'[at]];
    ByteUpdate(rom, mid, start, end, at);
    ByteUpdate(mid, rom', start, end, at + 1);
    UnitFrame(rom, rom', head.start, head.end, 1);
    TwoPieces(rom, head, Piece(start, end));
    TwoPieces(rom', head, Piece(start, end));
    var u, m, u' := UnitXor(rom, start, end, 1), UnitXor(mid, start, end, 1), UnitXor(rom', start, end, 1);
    var a, b, c, d := rom[at], rom[at + 1], rom'[at], rom'[at + 1];
    PairXor(u, m, u', a, b, c, d);
    var front := UnitXor(rom, head.start, head.end, 1);
    XorCancels(front, u);
    XorCancels(front, u');
    SumsAgree(WindowSum(rom, [head, Piece(start, end)], 1), a as int + b, c as int + d);
  }

  lemma PairXor(u: nat, m: nat, u': nat, a: nat, b: nat, c: nat, d: nat)
    requires Xor(m, c) == Xor(u, a) && Xor(u', d) == Xor(m, b)
    ensures u' == u <==> Xor(a, b) == Xor(c, d)
  {
    hide Xor;
    calc {
      Xor(u', Xor(c, d));
      { XorSymmetric(c, d); XorAssociative(u', d, c); }
      Xor(Xor(m, b), c);
      { XorSwap(m, b, c); }
      Xor(Xor(u, a), b);
      { XorAssociative(u, a, b); }
      Xor(u, Xor(a, b));
    }
    XorEqual(u', u, Xor(c, d), Xor(a, b));
  }

  lemma SumsAgree(sum: int, old_: nat, new_: nat)
    ensures Wrap8(sum - old_ + new_) == Wrap8(sum) <==> old_ % U8 == new_ % U8
  {
    WrapsOnce(sum, new_ - old_);
    var q := (new_ - old_) / U8;
    assert new_ - old_ == U8 * q + Wrap8(new_ - old_);
    var a, b := old_ / U8, new_ / U8;
    assert old_ == U8 * a + old_ % U8 && new_ == U8 * b + new_ % U8;
  }

  /** Whether the halfword the balance writes has the byte sum and exclusive or of the one it
      replaces. */
  predicate KlineBalanceKeepsBytes(rom: seq<byte>)
    requires |rom| == KLINE_SIZE && WellFormed(KLINE_3, KLINE_SIZE)
  {
    var v := SlotValue(KLINE_3, rom);
    && (rom[0x7fffa] as int + rom[0x7fffb]) % U8 == (v / 0x100 + v % 0x100) % U8
    && Xor(rom[0x7fffa], rom[0x7fffb]) == Xor(v / 0x100, v % 0x100)
  }

  lemma KlineBalance(rom: seq<byte>)
    requires |rom| == KLINE_SIZE && WellFormed(KLINE_3, KLINE_SIZE)
    ensures Correct(KLINE_3, rom) == OverwriteAt(rom, 0x7fffa, EncodeU16Be(SlotValue(KLINE_3, rom)))
  {
    hide WindowSum;
    if Holds(KLINE_3, rom) {
      LowHalf(WindowSum(rom, KLINE_3.window, 4));
      assert SlotValue(KLINE_3, rom) == ReadU16Be(rom, 0x7fffa);
      EncodeReadU16Be(rom, 0x7fffa);
    }
  }

  /** A single pass suffices exactly when rebalancing keeps the bytes' folds. */
  lemma KlineOnePass(rom: seq<byte>)
    requires |rom| == KLINE_SIZE
    ensures Layout(KLINE_RULES, |rom|) && WellFormed(KLINE_3, KLINE_SIZE)
    ensures AllHold(KLINE_RULES, Run(KLINE_RULES, rom)) <==> KlineBalanceKeepsBytes(rom)
  {
    hide Xor, Run, Correct, SlotValue, WindowSum, WindowXor, WellFormed, Spares;
    KlineRules();
    KlineStored(rom);
    KlineFrame(rom);
    KlineSettled(rom);
    var mid := Run(KLINE_RULES[..2], rom);
    KlineBalance(mid);
    var once := Run(KLINE_RULES, rom);
    PairUpdate(mid, once, KLINE_BYTES[0], 0x8102, KLINE_SIZE, 0x7fffa);
    assert AllHold(KLINE_RULES, once) <==>
      Holds(KLINE_RULES[0], once) && Holds(KLINE_RULES[1], once) && Holds(KLINE_RULES[2], once) by {
      hide Holds;
    }
  }

  /** Before the balance, checksums 1 and 2 hold. */
  lemma KlineStored(rom: seq<byte>)
    requires |rom| == KLINE_SIZE
    ensures Layout(KLINE_RULES, |rom|)
    ensures var mid := Run(KLINE_RULES[..2], rom);
            && WellFormed(KLINE_3, KLINE_SIZE)
            && Run(KLINE_RULES, rom) == Correct(KLINE_3, mid)
            && Holds(KLINE_1, mid) && Holds(KLINE_2, mid)
  {
    hide Run, Correct, Holds, WellFormed, Spares;
    KlineRules();
    var first := KLINE_RULES[..2];
    assert KLINE_RULES[..3] == KLINE_RULES;
    RunStep(KLINE_RULES, 2, rom);
    assert Ordered(first) by {
      var all := [KLINE_3] + [KLINE_1, KLINE_2];
      assert first[0] == all[1] && first[1] == all[2];
    }
    RunHolds(first, rom);
    assert Holds(first[0], Run(first, rom)) && Holds(first[1], Run(first, rom));
  }

  /** Storing them leaves what the balance reads. */
  lemma KlineFrame(rom: seq<byte>)
    requires |rom| == KLINE_SIZE && Layout(KLINE_RULES, |rom|) && WellFormed(KLINE_3, KLINE_SIZE)
    ensures var mid := Run(KLINE_RULES[..2], rom);
            && SlotValue(KLINE_3, mid) == SlotValue(KLINE_3, rom)
            && mid[0x7fffa] == rom[0x7fffa] && mid[0x7fffb] == rom[0x7fffb]
  {
    hide WellFormed, Spares, Run, SlotValue, InPieces;
    KlineRules();
    var all := [KLINE_3] + [KLINE_1, KLINE_2];
    assert Spares(all[1], all[0]) && Spares(all[2], all[0]);
    RunKeepsBytes(KLINE_RULES[..2], KLINE_3, rom);
    assert Reads(KLINE_3, 0x7fffa) && Reads(KLINE_3, 0x7fffb);
  }

  /** An erased-to-zero ROM needs the second pass. */
  lemma KlineOnePassFails(rom: seq<byte>)
    requires |rom| == KLINE_SIZE && forall i :: 0 <= i < |rom| ==> rom[i] == 0
    ensures Layout(KLINE_RULES, |rom|) && !AllHold(KLINE_RULES, Run(KLINE_RULES, rom))
  {
    hide *;
    KlineOnePass(rom);
    KlineZero(rom);
  }

  lemma KlineZero(rom: seq<byte>)
    requires |rom| == KLINE_SIZE && forall i :: 0 <= i < |rom| ==> rom[i] == 0
    requires WellFormed(KLINE_3, KLINE_SIZE)
    ensures !KlineBalanceKeepsBytes(rom)
  {
    hide Xor, WellFormed, UnitSum, WindowSum;
    ZeroUnits(rom, 0x4000, 0x8100);
    ZeroUnits(rom, 0x8104, KLINE_SIZE);
    TwoWordPieces(rom, Piece(0x4000, 0x8100), Piece(0x8104, KLINE_SIZE));
    assert SlotValue(KLINE_3, rom) == 0x5aa5;
  }
}
