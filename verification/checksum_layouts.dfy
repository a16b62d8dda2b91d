/** The fixed layouts told by address: what each checksum reads, what it must be and which bytes a pass
    may write, in literal ROM positions (src/algorithms/checksum). Words and half-words are
    big-endian. */
module ChecksumLayouts {
  import opened Bytes
  import opened BitXor
  import opened ChecksumRules
  import opened ChecksumPrimitives
  import opened ChecksumHitachi
  import opened ChecksumTcu
  import opened ChecksumMitsu

  // ---- Folds ------------------------------------------------------------------------------

  lemma PiecesFold(rom: seq<byte>, a: Piece, b: Piece, width: nat)
    requires width == 1 || width == 4
    ensures WindowSum(rom, [a], width) == UnitSum(rom, a.start, a.end, width)
    ensures WindowXor(rom, [a], width) == UnitXor(rom, a.start, a.end, width)
    ensures WindowSum(rom, [a, b], width) == UnitSum(rom, a.start, a.end, width) + UnitSum(rom, b.start, b.end, width)
    ensures WindowXor(rom, [a, b], width) == Xor(UnitXor(rom, a.start, a.end, width), UnitXor(rom, b.start, b.end, width))
  {
    hide UnitSum, UnitXor, Xor;
    var none: seq<Piece> := [];
    assert [a][..0] == none && [a, b][..1] == [a];
    XorIdentity(UnitXor(rom, a.start, a.end, width));
    assert WindowSum(rom, none, width) == 0 && WindowXor(rom, none, width) == 0;
  }

  /** One word or byte counts once in an exclusive or. */
  lemma {:induction false} XorUpdate(rom: seq<byte>, rom': seq<byte>, start: nat, end: nat, at: nat, width: nat)
    requires width == 1 || width == 4
    requires |rom| == |rom'| && end <= |rom| && start <= at && at + width <= end
    requires (at - start) % width == 0 && (end - start) % width == 0
    requires forall i :: start <= i < end && !(at <= i < at + width) ==> rom[i] == rom'[i]
    ensures Xor(UnitXor(rom', start, end, width), ReadBe(rom', at, width))
            == Xor(UnitXor(rom, start, end, width), ReadBe(rom, at, width))
    decreases end
  {
    hide Xor, ReadBe;
    var last := end - width;
    var x, x' := UnitXor(rom, start, last, width), UnitXor(rom', start, last, width);
    if at == last {
      UnitFrame(rom, rom', start, last, width);
      XorCancels(ReadBe(rom, at, width), x);
      XorCancels(ReadBe(rom', at, width), x');
    } else {
      XorUpdate(rom, rom', start, last, at, width);
      SameUnit(rom, rom', last, width);
      XorSwap(x, ReadBe(rom, last, width), ReadBe(rom, at, width));
      XorSwap(x', ReadBe(rom', last, width), ReadBe(rom', at, width));
    }
  }

  lemma SameUnit(rom: seq<byte>, rom': seq<byte>, at: nat, width: nat)
    requires (width == 1 || width == 4) && |rom| == |rom'| && at + width <= |rom|
    requires forall i :: at <= i < at + width ==> rom[i] == rom'[i]
    ensures ReadBe(rom, at, width) == ReadBe(rom', at, width)
  {
  }

  lemma StoreMeans(rule: Rule, rom: seq<byte>)
    requires rule.Store? && WellFormed(rule, |rom|)
    ensures Holds(rule, rom) <==>
            if rule.width == 4
            then ReadU32Be(rom, rule.slot) as int
                 == (if rule.fold.AddUnits? then WindowSum(rom, rule.window, 4) % 0x1_0000_0000
                     else WindowXor(rom, rule.window, 4))
            else rom[rule.slot] as int == (if rule.fold.AddUnits? then WindowSum(rom, rule.window, 1) % 0x100
                                           else WindowXor(rom, rule.window, 1))
  {
    hide ReadU32Be, WindowSum, WindowXor;
  }

  lemma BalanceMeans(rule: Rule, rom: seq<byte>)
    requires rule.Balance? && WellFormed(rule, |rom|)
    ensures Holds(rule, rom) <==>
            WindowSum(rom, rule.window, 4) % (if rule.half then 0x1_0000 else 0x1_0000_0000) == rule.target
  {
    hide WindowSum;
  }

  // ---- Hitachi M32R CAN -------------------------------------------------------------------

  lemma CanByAddress(rom: seq<byte>)
    requires |rom| == 0x80000
    ensures Layout(CAN_RULES, |rom|)
    ensures AllHold(CAN_RULES, rom) <==>
            && ReadU32Be(rom, 0x7ffe8) == UnitSum(rom, 0x6000, 0x8000, 4) % 0x1_0000_0000
            && ReadU32Be(rom, 0x7ffec) == UnitXor(rom, 0x6000, 0x8000, 4)
            && ReadU32Be(rom, 0x7fff0)
               == (UnitSum(rom, 0, 0x10000, 4) + UnitSum(rom, 0x10004, 0x7fff0, 4)) % 0x1_0000_0000
            && ReadU32Be(rom, 0x7fff4) == Xor(UnitXor(rom, 0, 0x10000, 4), UnitXor(rom, 0x10004, 0x7fff0, 4))
            && (UnitSum(rom, 0x4000, 0x10000, 4) + UnitSum(rom, 0x10004, 0x80000, 4)) % 0x1_0000 == 0x5aa5
  {
    CanRules();
    CanLayout();
    PiecesFold(rom, Piece(0x6000, 0x8000), Piece(0x6000, 0x8000), 4);
    PiecesFold(rom, Piece(0, 0x10000), Piece(0x10004, 0x7fff0), 4);
    PiecesFold(rom, Piece(0x4000, 0x10000), Piece(0x10004, 0x80000), 4);
    hide WellFormed, WindowSum, WindowXor, UnitSum, UnitXor, Xor, ReadU32Be, Holds, AllHold, Layout;
    FiveHold(CAN_RULES, rom);
    StoreMeans(CAN_1, rom);
    StoreMeans(CAN_2, rom);
    StoreMeans(CAN_3, rom);
    StoreMeans(CAN_4, rom);
    BalanceMeans(CAN_5, rom);
  }

  lemma FiveHold(rules: seq<Rule>, rom: seq<byte>)
    requires Layout(rules, |rom|) && |rules| == 5
    ensures AllHold(rules, rom) <==>
            && Holds(rules[0], rom) && Holds(rules[1], rom) && Holds(rules[2], rom)
            && Holds(rules[3], rom) && Holds(rules[4], rom)
  {
    hide Holds, WellFormed;
  }

  /** Checksum 6 compares the byte sum and exclusive or of all but the word at 0x10000. */
  lemma CanSixByAddress(rom: seq<byte>)
    requires |rom| == 0x80000
    ensures WellFormed(CAN_6_SUM, |rom|) && WellFormed(CAN_6_XOR, |rom|)
    ensures CanSixHolds(rom) <==>
            && rom[0x10000] as int == (UnitSum(rom, 0, 0x10000, 1) + UnitSum(rom, 0x10004, 0x80000, 1)) % 0x100
            && rom[0x10001] as int == Xor(UnitXor(rom, 0, 0x10000, 1), UnitXor(rom, 0x10004, 0x80000, 1))
  {
    CanRules();
    PiecesFold(rom, Piece(0, 0x10000), Piece(0x10004, 0x80000), 1);
    hide WellFormed, WindowSum, WindowXor, UnitSum, UnitXor, Xor;
  }

  /** A pass writes the four words from 0x7ffe8 and the half-word at 0x7fffa, and no other byte. */
  lemma CanWrites(rom: seq<byte>, i: nat)
    requires |rom| == 0x80000 && i < |rom|
    requires !(0x7ffe8 <= i < 0x7fff8) && !(0x7fffa <= i < 0x7fffc)
    ensures Layout(CAN_RULES, |rom|) && Run(CAN_RULES, rom)[i] == rom[i]
  {
    CanLayout();
    hide WellFormed, Run;
    RunFrame(CAN_RULES, rom, i);
  }

  // ---- Hitachi SH7058 ---------------------------------------------------------------------

  lemma ShByAddress(rom: seq<byte>)
    requires |rom| == 0x100000
    ensures Layout(SH_RULES, |rom|)
    ensures AllHold(SH_RULES, rom) <==>
            && ReadU32Be(rom, 0xfffe8) == UnitSum(rom, 0x18400, 0x1e000, 4) % 0x1_0000_0000
            && ReadU32Be(rom, 0xfffec) == UnitXor(rom, 0x18400, 0x1e000, 4)
            && (UnitSum(rom, 0x4000, 0xffff0, 4) + UnitSum(rom, 0xffff8, 0x100000, 4)) % 0x1_0000_0000 == 0x5aa5a55a
            && ReadU32Be(rom, 0xffff0)
               == (UnitSum(rom, 0, 0xffff0, 4) + UnitSum(rom, 0xffff8, 0x100000, 4)) % 0x1_0000_0000
            && ReadU32Be(rom, 0xffff4) == Xor(UnitXor(rom, 0, 0xffff0, 4), UnitXor(rom, 0xffff8, 0x100000, 4))
  {
    ShRules();
    ShLayout();
    PiecesFold(rom, Piece(0x18400, 0x1e000), Piece(0x18400, 0x1e000), 4);
    PiecesFold(rom, Piece(0, 0xffff0), Piece(0xffff8, 0x100000), 4);
    PiecesFold(rom, Piece(0x4000, 0xffff0), Piece(0xffff8, 0x100000), 4);
    hide WellFormed, WindowSum, WindowXor, UnitSum, UnitXor, Xor, ReadU32Be, Holds, AllHold, Layout;
    FiveHold(SH_RULES, rom);
    StoreMeans(SH_1, rom);
    StoreMeans(SH_2, rom);
    BalanceMeans(SH_5, rom);
    StoreMeans(SH_3, rom);
    StoreMeans(SH_4, rom);
  }

  /** A pass writes the five words from 0xfffe8, and no other byte. */
  lemma ShWrites(rom: seq<byte>, i: nat)
    requires |rom| == 0x100000 && i < |rom| && !(0xfffe8 <= i < 0xffffc)
    ensures Layout(SH_RULES, |rom|) && Run(SH_RULES, rom)[i] == rom[i]
  {
    ShLayout();
    hide WellFormed, Run;
    RunFrame(SH_RULES, rom, i);
  }

  // ---- Hitachi M32R K-Line ----------------------------------------------------------------

  lemma KlineByAddress(rom: seq<byte>)
    requires |rom| == 0x80000
    ensures Layout(KLINE_RULES, |rom|)
    ensures AllHold(KLINE_RULES, rom) <==>
            && rom[0x8100] as int == (UnitSum(rom, 0, 0x8100, 1) + UnitSum(rom, 0x8102, 0x80000, 1)) % 0x100
            && rom[0x8101] as int == Xor(UnitXor(rom, 0, 0x8100, 1), UnitXor(rom, 0x8102, 0x80000, 1))
            && (UnitSum(rom, 0x4000, 0x8100, 4) + UnitSum(rom, 0x8104, 0x80000, 4)) % 0x1_0000 == 0x5aa5
  {
    KlineRules();
    PiecesFold(rom, Piece(0, 0x8100), Piece(0x8102, 0x80000), 1);
    PiecesFold(rom, Piece(0x4000, 0x8100), Piece(0x8104, 0x80000), 4);
    hide WellFormed, WindowSum, WindowXor, UnitSum, UnitXor, Xor, ReadU32Be, Holds, AllHold;
    ThreeHold(KLINE_RULES, rom);
    StoreMeans(KLINE_1, rom);
    StoreMeans(KLINE_2, rom);
    BalanceMeans(KLINE_3, rom);
  }

  lemma ThreeHold(rules: seq<Rule>, rom: seq<byte>)
    requires Layout(rules, |rom|) && |rules| == 3
    ensures AllHold(rules, rom) <==> Holds(rules[0], rom) && Holds(rules[1], rom) && Holds(rules[2], rom)
  {
    hide Holds, WellFormed;
  }

  /** A pass writes the bytes at 0x8100 and 0x8101 and the half-word at 0x7fffa, and no other byte. */
  lemma KlineWrites(rom: seq<byte>, i: nat)
    requires |rom| == 0x80000 && i < |rom| && !(0x8100 <= i < 0x8102) && !(0x7fffa <= i < 0x7fffc)
    ensures Layout(KLINE_RULES, |rom|) && Run(KLINE_RULES, rom)[i] == rom[i]
  {
    KlineRules();
    hide WellFormed, Run;
    RunFrame(KLINE_RULES, rom, i);
  }

  // ---- Hitachi M32R TCU -------------------------------------------------------------------

  lemma TcuBalanceByAddress(rom: seq<byte>)
    requires |rom| >= 0x8024 && |rom| % 4 == 0
    ensures Accepted(|rom|) && WellFormed(Balanced(|rom|), |rom|)
    ensures Holds(Balanced(|rom|), rom) <==> UnitSum(rom, 0x8020, |rom|, 4) % 0x1_0000_0000 == 0x5aa5a55a
  {
    BalancedRule(|rom|);
    PiecesFold(rom, Piece(0x8020, |rom|), Piece(0x8020, |rom|), 4);
    hide WellFormed, WindowSum, UnitSum, Holds;
    BalanceMeans(Balanced(|rom|), rom);
  }

  /** The field at 0x8000 is the sum of every word outside the two fields, its bytes complemented and the
      lowest negated. */
  lemma TcuFieldByAddress(rom: seq<byte>)
    requires |rom| >= 0x8024 && |rom| % 4 == 0
    ensures var sum := (UnitSum(rom, 0, 0x8000, 4) + UnitSum(rom, 0x8008, |rom|, 4)) % 0x1_0000_0000;
            FieldHolds(rom) <==>
            && rom[0x8000] as int == 0xff - sum / 0x100_0000
            && rom[0x8001] as int == 0xff - sum / 0x1_0000 % 0x100
            && rom[0x8002] as int == 0xff - sum / 0x100 % 0x100
            && rom[0x8003] as int == (0x100 - sum % 0x100) % 0x100
  {
    PiecesFold(rom, Piece(0, 0x8000), Piece(0x8008, |rom|), 4);
    hide WindowSum, UnitSum, FieldOf, ReadU32Be;
    var sum := Wrap32(UnitSum(rom, 0, 0x8000, 4) + UnitSum(rom, 0x8008, |rom|, 4));
    assert sum == (UnitSum(rom, 0, 0x8000, 4) + UnitSum(rom, 0x8008, |rom|, 4)) % 0x1_0000_0000;
    hide Wrap32;
    FieldDigits(sum);
    StoredDigits(rom, FieldOf(sum));
  }

  lemma StoredDigits(rom: seq<byte>, f: word32)
    requires |rom| >= 0x8024
    ensures ReadU32Be(rom, 0x8000) == f <==>
            && rom[0x8000] as int == f / 0x100_0000 && rom[0x8001] as int == f / 0x1_0000 % 0x100
            && rom[0x8002] as int == f / 0x100 % 0x100 && rom[0x8003] as int == f % 0x100
  {
    DigitsOf(rom[0x8000], rom[0x8001], rom[0x8002], rom[0x8003]);
    if rom[0x8000] as int == f / 0x100_0000 && rom[0x8001] as int == f / 0x1_0000 % 0x100
       && rom[0x8002] as int == f / 0x100 % 0x100 && rom[0x8003] as int == f % 0x100 {
      SameDigits(ReadU32Be(rom, 0x8000), f);
    }
  }

  /** Smaller sizes and odd lengths are refused. */
  lemma TcuAccepts(size: nat)
    ensures Accepted(size) <==> size >= 0x8024 && size % 4 == 0
  {
  }

  /** A pass writes the balance word at 0x8020 and the two fields at 0x8000, and no other byte. */
  lemma TcuWrites(rom: seq<byte>, i: nat)
    requires |rom| >= 0x8024 && |rom| % 4 == 0 && i < |rom|
    requires !(0x8000 <= i < 0x8008) && !(0x8020 <= i < 0x8024)
    ensures Accepted(|rom|) && WellFormed(Balanced(|rom|), |rom|) && Pass(rom)[i] == rom[i]
  {
    BalancedRule(|rom|);
    hide WellFormed, Holds, FieldHolds, Field, SlotValue, EncodeBe, EncodeU32Be;
  }

  // ---- Mitsubishi M32R --------------------------------------------------------------------

  /** The byte at 0x3FFCB gives the area's end; the layout applies when the area lies in the ROM. */
  lemma MitsuArea(rom: seq<byte>, end: nat)
    ensures Enabled(rom) && Area(rom) == end <==>
            && |rom| >= 0x3FFE4 && end <= |rom|
            && (rom[0x3FFCB] as int, end) in {(0x40, 0x04_0000), (0x50, 0x08_0000), (0x60, 0x10_0000), (0x80, 0x14_0000),
                                              (0xC0, 0x05_0000), (0xC2, 0x06_0000), (0xC3, 0x0C_0000)}
  {
  }

  /** The word sum of the area must be 0x5AA55AA5 with the bytes from 0x3FFCE to 0x3FFE3 read as 0xFF. */
  lemma MitsuByAddress(rom: seq<byte>, erased: seq<byte>)
    requires Enabled(rom) && |erased| == |rom|
    requires forall i :: 0 <= i < |rom| ==> erased[i] == if 0x3FFCE <= i < 0x3FFE4 then 0xFF else rom[i]
    ensures MitsuHolds(rom) <==> UnitSum(erased, 0, Area(rom), 4) % 0x1_0000_0000 == 0x5AA55AA5
  {
    hide UnitSum, Area;
    assert Erased(rom, 5) == erased;
  }

  /** A pass writes the word at 0x3FFC0, and no other byte. */
  lemma MitsuWrites(rom: seq<byte>, i: nat)
    requires i < |rom| && !(0x3FFC0 <= i < 0x3FFC4)
    ensures MitsuPass(rom)[i] == rom[i]
  {
    hide MitsuHolds, EcuSum, EncodeU32Be;
  }
}
