/** The Hitachi M32R TCU layout (src/algorithms/checksum/checksum_tcu_subaru_hitachi_m32r_can.cpp):
    a balanced word sum from 0x8020 on, and a complemented sum of every word outside the two
    fields at 0x8000, which is rewritten only when it was wrong before the balance. */
module ChecksumTcu {
  import opened Bytes
  import opened ChecksumRules
  import opened ChecksumPrimitives

  predicate Accepted(size: nat) {
    size >= 0x8024 && size % 4 == 0
  }

  function Balanced(size: nat): Rule {
    Balance(false, [Piece(0x8020, size)], 0x8020, 0x5aa5a55a)
  }

  function FieldWindow(size: nat): seq<Piece> {
    [Piece(0, 0x8000), Piece(0x8008, size)]
  }

  /** The sum's bytes complemented one by one, the lowest negated instead. */
  function FieldOf(sum: word32): word32 {
    (0xff - sum / 0x100_0000) * 0x100_0000 + (0xff - sum / 0x1_0000 % 0x100) * 0x1_0000
    + (0xff - sum / 0x100 % 0x100) * 0x100 + (0x100 - sum % 0x100) % 0x100
  }

  function Field(rom: seq<byte>): word32 {
    FieldOf(Wrap32(WindowSum(rom, FieldWindow(|rom|), 4)))
  }

  /** Checksum 2 as the ECU reads it, from the first of its two copies. */
  predicate FieldHolds(rom: seq<byte>) {
    ReadU32Be(rom, 0x8000) == Field(rom)
  }

  function WriteField(rom: seq<byte>, field: word32): (r: seq<byte>)
    ensures |r| == |rom|
  {
    OverwriteAt(OverwriteAt(rom, 0x8000, EncodeU32Be(field)), 0x8004, EncodeU32Be(field))
  }

  /** What one pass leaves in an accepted ROM. */
  function Pass(rom: seq<byte>): (r: seq<byte>)
    requires Accepted(|rom|) && WellFormed(Balanced(|rom|), |rom|)
    ensures |r| == |rom|
  {
    var balanced := Correct(Balanced(|rom|), rom);
    if FieldHolds(rom) then balanced else WriteField(balanced, Field(balanced))
  }

  lemma BalancedRule(size: nat)
    requires Accepted(size)
    ensures WellFormed(Balanced(size), size)
  {
    assert HoldsWord(Balanced(size).window[0], 0x8020);
  }

  method Checksum2Field(image: array<byte>) returns (field: word32)
    requires Accepted(image.Length)
    ensures field == Field(image[..])
  {
    hide FieldOf;
    var sum, _ := FoldU32Be(image, FieldWindow(image.Length));
    field := Complemented(sum);
  }

  method Complemented(sum: word32) returns (field: word32)
    ensures field == FieldOf(sum)
  {
    var b3 := 0xff - sum / 0x100_0000 % 0x100;
    var b2 := 0xff - sum / 0x1_0000 % 0x100;
    var b1 := 0xff - sum / 0x100 % 0x100;
    var b0 := (0x100 - sum % 0x100) % 0x100;
    field := b0 + b1 * 0x100 + b2 * 0x1_0000 + b3 * 0x100_0000;
  }

  method CorrectTcu(rom: seq<byte>) returns (result: ChecksumResult)
    ensures !Accepted(|rom|) ==> result == ChecksumResult(InvalidSize, rom)
    ensures Accepted(|rom|) ==>
              && WellFormed(Balanced(|rom|), |rom|)
              && result.rom == Pass(rom)
              && result.status == if Holds(Balanced(|rom|), rom) && FieldHolds(rom) then Unchanged else Corrected
  {
    if |rom| < 0x8024 || |rom| % 4 != 0 {
      return ChecksumResult(InvalidSize, rom);
    }
    BalancedRule(|rom|);
    hide WellFormed, WindowSum, FieldOf;
    var rule := Balanced(|rom|);
    var rules := [rule];
    var image := new byte[|rom|](i requires 0 <= i < |rom| => rom[i]);
    RunNothing(rules, rom, image[..]);
    var calculated2 := Checksum2Field(image);
    var stored2 := ReadU32Be(image[..], 0x8000);
    var ok1 := BalanceSlot(image, rules, 0, rom);
    RunStep(rules, 0, rom);
    ghost var balanced := image[..];
    assert balanced == Correct(rule, rom);
    var ok2 := calculated2 == stored2;
    if !ok2 {
      var field := Checksum2Field(image);
      WriteU32Be(image, 0x8000, field);
      WriteU32Be(image, 0x8004, field);
    }
    result := ChecksumResult(if ok1 && ok2 then Unchanged else Corrected, image[..]);
  }

  // ---- What passes settle -----------------------------------------------------------------

  /** Writing the fields disturbs neither checksum's window. */
  lemma FieldsFrame(rom: seq<byte>, field: word32)
    requires Accepted(|rom|) && WellFormed(Balanced(|rom|), |rom|)
    ensures var r := WriteField(rom, field);
            && Field(r) == Field(rom)
            && ReadU32Be(r, 0x8000) == field
            && Holds(Balanced(|rom|), r) == Holds(Balanced(|rom|), rom)
  {
    WrittenField(rom, field);
    hide WellFormed, FieldOf, Wrap32, ReadU32Be;
    var r := WriteField(rom, field);
    forall i | 0 <= i < |rom| && !(0x8000 <= i < 0x8008)
      ensures rom[i] == r[i]
    {
    }
    WindowFrame(rom, r, FieldWindow(|rom|), 4);
    HoldsFrame(Balanced(|rom|), rom, r);
  }

  lemma WrittenField(rom: seq<byte>, field: word32)
    requires Accepted(|rom|)
    ensures ReadU32Be(WriteField(rom, field), 0x8000) == field
  {
    var r := WriteField(rom, field);
    assert r[0x8000..0x8004] == EncodeU32Be(field);
    assert ReadU32Be(r, 0x8000) == ReadU32Be(r[0x8000..0x8004], 0);
  }

  lemma FieldInjective(a: word32, b: word32)
    requires FieldOf(a) == FieldOf(b)
    ensures a == b
  {
    FieldDigits(a);
    FieldDigits(b);
    hide FieldOf;
    SameDigits(a, b);
  }

  lemma SameDigits(a: word32, b: word32)
    requires a / 0x100_0000 == b / 0x100_0000 && a / 0x1_0000 % 0x100 == b / 0x1_0000 % 0x100
    requires a / 0x100 % 0x100 == b / 0x100 % 0x100 && a % 0x100 == b % 0x100
    ensures a == b
  {
    hide ReadU32Be;
    assert EncodeU32Be(a) == EncodeU32Be(b);
  }

  lemma FieldDigits(a: word32)
    ensures var f := FieldOf(a);
            && f / 0x100_0000 == 0xff - a / 0x100_0000
            && f / 0x1_0000 % 0x100 == 0xff - a / 0x1_0000 % 0x100
            && f / 0x100 % 0x100 == 0xff - a / 0x100 % 0x100
            && f % 0x100 == (0x100 - a % 0x100) % 0x100
  {
    DigitsOf(0xff - a / 0x100_0000, 0xff - a / 0x1_0000 % 0x100, 0xff - a / 0x100 % 0x100, (0x100 - a % 0x100) % 0x100);
  }

  /** A balance that moves its word moves the field. */
  lemma BalanceMovesField(rom: seq<byte>)
    requires Accepted(|rom|) && WellFormed(Balanced(|rom|), |rom|) && !Holds(Balanced(|rom|), rom)
    ensures Field(Correct(Balanced(|rom|), rom)) != Field(rom)
  {
    var rule := Balanced(|rom|);
    var rom' := Correct(rule, rom);
    var window, fields := rule.window, FieldWindow(|rom|);
    CorrectHolds(rule, rom);
    BothCover(|rom|);
    hide WellFormed, WindowSum, FieldOf, SlotValue, Covers, Wrap32, EncodeBe, ReadU32Be;
    WindowUpdate(rom, rom', window, 0x8020);
    WindowUpdate(rom, rom', fields, 0x8020);
    if Field(rom') == Field(rom) {
      FieldInjective(Wrap32(WindowSum(rom', fields, 4)), Wrap32(WindowSum(rom, fields, 4)));
      SameChange(WindowSum(rom, window, 4), WindowSum(rom', window, 4),
                 WindowSum(rom, fields, 4), WindowSum(rom', fields, 4));
    }
  }

  lemma BothCover(size: nat)
    requires Accepted(size)
    ensures Covers(Balanced(size).window, 0x8020) && Pieces(Balanced(size).window, size, 4)
    ensures Covers(FieldWindow(size), 0x8020) && Pieces(FieldWindow(size), size, 4)
  {
    BalanceCovers(size);
    FieldCovers(size);
    hide Covers, Pieces;
  }

  lemma BalanceCovers(size: nat)
    requires Accepted(size)
    ensures Covers(Balanced(size).window, 0x8020) && Pieces(Balanced(size).window, size, 4)
  {
    assert HoldsWord(Balanced(size).window[0], 0x8020);
  }

  lemma FieldCovers(size: nat)
    requires Accepted(size)
    ensures Covers(FieldWindow(size), 0x8020) && Pieces(FieldWindow(size), size, 4)
  {
    assert HoldsWord(FieldWindow(size)[1], 0x8020);
  }

  lemma SameChange(a: int, a': int, b: int, b': int)
    requires a' - a == b' - b && Wrap32(b') == Wrap32(b)
    ensures a' % U32 == a % U32
  {
    var p, q := b / U32, b' / U32;
    assert a' == a + U32 * (q - p);
  }

  /** One pass always balances checksum 1. It leaves checksum 2 wrong exactly when checksum 2
      was right beforehand and checksum 1 was not. */
  lemma OnePass(rom: seq<byte>)
    requires Accepted(|rom|)
    ensures WellFormed(Balanced(|rom|), |rom|)
    ensures Holds(Balanced(|rom|), Pass(rom))
    ensures FieldHolds(Pass(rom)) <==> !(FieldHolds(rom) && !Holds(Balanced(|rom|), rom))
  {
    BalancedRule(|rom|);
    var rule := Balanced(|rom|);
    hide WellFormed, WindowSum, FieldOf, Holds, Field;
    var balanced := Correct(rule, rom);
    CorrectHolds(rule, rom);
    FieldsFrame(balanced, Field(balanced));
    if FieldHolds(rom) {
      assert ReadU32Be(balanced, 0x8000) == ReadU32Be(rom, 0x8000);
      if !Holds(rule, rom) {
        BalanceMovesField(rom);
      }
    }
  }

  /** Two passes settle both checksums, and every later pass changes no byte. */
  lemma TwoPassesSettle(rom: seq<byte>)
    requires Accepted(|rom|)
    ensures WellFormed(Balanced(|rom|), |rom|)
    ensures var twice := Pass(Pass(rom));
            && Holds(Balanced(|rom|), twice) && FieldHolds(twice) && Pass(twice) == twice
  {
    hide WellFormed, Holds, FieldHolds, WriteField;
    OnePass(rom);
    OnePass(Pass(rom));
    var twice := Pass(Pass(rom));
    assert Correct(Balanced(|rom|), twice) == twice;
  }

  /** The second copy, which no pass compares. */
  predicate SecondCopyHolds(rom: seq<byte>) {
    ReadU32Be(rom, 0x8004) == Field(rom)
  }

  /** After a pass the second copy is right exactly when both copies were rewritten or it already
      held the field of the balanced ROM; with both checksums right beforehand it stays as it was, so
      a wrong second copy is never repaired. */
  lemma SecondCopy(rom: seq<byte>)
    requires Accepted(|rom|)
    ensures WellFormed(Balanced(|rom|), |rom|)
    ensures SecondCopyHolds(Pass(rom)) <==>
            !FieldHolds(rom) || ReadU32Be(rom, 0x8004) == Field(Correct(Balanced(|rom|), rom))
    ensures FieldHolds(rom) && Holds(Balanced(|rom|), rom) ==>
              Pass(rom) == rom && SecondCopyHolds(Pass(rom)) == SecondCopyHolds(rom)
  {
    BalancedRule(|rom|);
    var rule := Balanced(|rom|);
    hide WellFormed, WindowSum, FieldOf, Holds, Field;
    var balanced := Correct(rule, rom);
    FieldsFrame(balanced, Field(balanced));
    WrittenSecond(balanced, Field(balanced));
    BalanceKeepsCopies(rom);
  }

  /** Every settled ROM has neighbours where it stays wrong: any other word in the second copy. */
  lemma SecondCopyStays(rom: seq<byte>, word: word32)
    requires Accepted(|rom|) && WellFormed(Balanced(|rom|), |rom|)
    requires Holds(Balanced(|rom|), rom) && FieldHolds(rom) && word != Field(rom)
    ensures var stale := OverwriteAt(rom, 0x8004, EncodeU32Be(word));
            Pass(stale) == stale && FieldHolds(stale) && !SecondCopyHolds(stale)
  {
    var stale := OverwriteAt(rom, 0x8004, EncodeU32Be(word));
    StaleCopy(rom, word);
    hide WellFormed, WindowSum, FieldOf, ReadU32Be, EncodeU32Be, Wrap32;
    WindowFrame(rom, stale, FieldWindow(|rom|), 4);
    HoldsFrame(Balanced(|rom|), rom, stale);
  }

  lemma StaleCopy(rom: seq<byte>, word: word32)
    requires Accepted(|rom|)
    ensures var stale := OverwriteAt(rom, 0x8004, EncodeU32Be(word));
            && Pieces(FieldWindow(|rom|), |rom|, 4)
            && ReadU32Be(stale, 0x8004) == word && ReadU32Be(stale, 0x8000) == ReadU32Be(rom, 0x8000)
  {
    var stale := OverwriteAt(rom, 0x8004, EncodeU32Be(word));
    assert stale[0x8004..0x8008] == EncodeU32Be(word);
    assert ReadU32Be(stale, 0x8004) == ReadU32Be(stale[0x8004..0x8008], 0);
  }

  lemma WrittenSecond(rom: seq<byte>, field: word32)
    requires Accepted(|rom|)
    ensures ReadU32Be(WriteField(rom, field), 0x8004) == field
  {
    var r := WriteField(rom, field);
    assert r[0x8004..0x8008] == EncodeU32Be(field);
    assert ReadU32Be(r, 0x8004) == ReadU32Be(r[0x8004..0x8008], 0);
  }

  lemma BalanceKeepsCopies(rom: seq<byte>)
    requires Accepted(|rom|) && WellFormed(Balanced(|rom|), |rom|)
    ensures ReadU32Be(Correct(Balanced(|rom|), rom), 0x8004) == ReadU32Be(rom, 0x8004)
  {
    hide WindowSum, WellFormed, SlotValue, EncodeBe;
  }

  /** An erased-to-zero ROM carrying the field value of a zero sum is such a case. */
  lemma OnePassFails(rom: seq<byte>)
    requires Accepted(|rom|)
    requires forall i :: 0 <= i < |rom| ==> rom[i] == if 0x8000 <= i < 0x8003 then 0xff else 0
    ensures WellFormed(Balanced(|rom|), |rom|) && !FieldHolds(Pass(rom))
  {
    hide WellFormed, Pass, UnitSum, WindowSum;
    OnePass(rom);
    ZeroUnits(rom, 0, 0x8000);
    ZeroUnits(rom, 0x8008, |rom|);
    ZeroUnits(rom, 0x8020, |rom|);
    TwoWordPieces(rom, Piece(0, 0x8000), Piece(0x8008, |rom|));
    OneWordPiece(rom, Piece(0x8020, |rom|));
    assert Field(rom) == 0xffffff00;
  }
}
