/** What a checksum layout asks of a ROM, as data: each rule names the window it folds and
    the slot it may rewrite. A layout corrects its rules in order, so a slot can lie inside
    a window folded later. The theorems say when one pass, or two, settles every rule. */
module ChecksumRules {
  import opened Bytes
  import opened BitXor

  /** The bytes [start, end) of a ROM. */
  datatype Piece = Piece(start: nat, end: nat)

  datatype Fold = AddUnits | XorUnits

  /** `Store` keeps the fold of a window in a slot outside it. `Balance` adjusts a slot inside
      the window so that the 32-bit word sum reaches `target`; with `half` only the low 16
      bits of the sum count, and the slot is the low half of a word. */
  datatype Rule =
    | Store(fold: Fold, width: nat, window: seq<Piece>, slot: nat)
    | Balance(half: bool, window: seq<Piece>, slot: nat, target: nat)

  function Modulus(width: nat): nat {
    if width == 1 then U8 else if width == 2 then U16 else U32
  }

  function ReadBe(rom: seq<byte>, offset: nat, width: nat): (v: nat)
    ensures v < Modulus(width)
  {
    if width == 1 then (if offset < |rom| then rom[offset] else 0)
    else if width == 2 then ReadU16Be(rom, offset)
    else ReadU32Be(rom, offset)
  }

  function EncodeBe(v: nat, width: nat): (b: seq<byte>)
    requires v < Modulus(width)
    requires width == 1 || width == 2 || width == 4
    ensures |b| == width
  {
    if width == 1 then [v] else if width == 2 then EncodeU16Be(v) else EncodeU32Be(v)
  }

  lemma ReadAfterEncode(rom: seq<byte>, offset: nat, v: nat, width: nat)
    requires width == 1 || width == 2 || width == 4
    requires v < Modulus(width) && offset + width <= |rom|
    ensures ReadBe(OverwriteAt(rom, offset, EncodeBe(v, width)), offset, width) == v
  {
  }

  // ---- Folding a window -------------------------------------------------------------------

  lemma XorBelow(a: nat, b: nat, width: nat)
    requires a < Modulus(width) && b < Modulus(width)
    ensures Xor(a, b) < Modulus(width)
  {
    Pow2Values();
    XorBound(a, b, if width == 1 then 8 else if width == 2 then 16 else 32);
  }

  /** The unbounded sum of the big-endian units in [start, end), a whole number of them. */
  function UnitSum(rom: seq<byte>, start: nat, end: nat, width: nat): nat
    requires width > 0
    decreases end
  {
    if end < start + width then 0
    else UnitSum(rom, start, end - width, width) + ReadBe(rom, end - width, width)
  }

  function UnitXor(rom: seq<byte>, start: nat, end: nat, width: nat): (x: nat)
    requires width > 0
    ensures x < Modulus(width)
    decreases end
  {
    if end < start + width then 0
    else
      var before, unit := UnitXor(rom, start, end - width, width), ReadBe(rom, end - width, width);
      XorBelow(before, unit, width);
      Xor(before, unit)
  }

  function WindowSum(rom: seq<byte>, window: seq<Piece>, width: nat): nat
    requires width > 0
  {
    if window == [] then 0
    else
      var piece := window[|window| - 1];
      WindowSum(rom, window[..|window| - 1], width) + UnitSum(rom, piece.start, piece.end, width)
  }

  function WindowXor(rom: seq<byte>, window: seq<Piece>, width: nat): (x: nat)
    requires width > 0
    ensures x < Modulus(width)
  {
    if window == [] then 0
    else
      var piece := window[|window| - 1];
      var before := WindowXor(rom, window[..|window| - 1], width);
      var last := UnitXor(rom, piece.start, piece.end, width);
      XorBelow(before, last, width);
      Xor(before, last)
  }

  predicate InPieces(window: seq<Piece>, i: int) {
    exists p :: 0 <= p < |window| && window[p].start <= i < window[p].end
  }

  lemma {:induction false} UnitFrame(rom: seq<byte>, rom': seq<byte>, start: nat, end: nat, width: nat)
    requires width == 1 || width == 4
    requires |rom| == |rom'| && end <= |rom|
    requires forall i :: start <= i < end ==> rom[i] == rom'[i]
    ensures UnitSum(rom, start, end, width) == UnitSum(rom', start, end, width)
    ensures UnitXor(rom, start, end, width) == UnitXor(rom', start, end, width)
    decreases end
  {
    if start + width <= end {
      UnitFrame(rom, rom', start, end - width, width);
    }
  }

  predicate Whole(piece: Piece, width: nat) {
    piece.start <= piece.end && (width == 4 ==> (piece.end - piece.start) % 4 == 0)
  }

  predicate Pieces(window: seq<Piece>, size: nat, width: nat) {
    forall p :: 0 <= p < |window| ==> Whole(window[p], width) && window[p].end <= size
  }

  lemma {:induction false} WindowFrame(rom: seq<byte>, rom': seq<byte>, window: seq<Piece>, width: nat)
    requires width == 1 || width == 4
    requires |rom| == |rom'| && Pieces(window, |rom|, width)
    requires forall i :: 0 <= i < |rom| && InPieces(window, i) ==> rom[i] == rom'[i]
    ensures WindowSum(rom, window, width) == WindowSum(rom', window, width)
    ensures WindowXor(rom, window, width) == WindowXor(rom', window, width)
  {
    if window != [] {
      var last := |window| - 1;
      forall i | 0 <= i < |rom| && InPieces(window[..last], i)
        ensures rom[i] == rom'[i]
      {
        var p :| 0 <= p < last && window[..last][p].start <= i < window[..last][p].end;
        assert window[p].start <= i < window[p].end;
      }
      WindowFrame(rom, rom', window[..last], width);
      UnitFrame(rom, rom', window[last].start, window[last].end, width);
    }
  }

  /** Rewriting one aligned word moves the sum by exactly that word's change. */
  lemma {:induction false} UnitUpdate(rom: seq<byte>, rom': seq<byte>, start: nat, end: nat, at: nat)
    requires |rom| == |rom'| && end <= |rom|
    requires start <= at && at + 4 <= end && (at - start) % 4 == 0 && (end - start) % 4 == 0
    requires forall i :: start <= i < end && !(at <= i < at + 4) ==> rom[i] == rom'[i]
    ensures UnitSum(rom', start, end, 4) == UnitSum(rom, start, end, 4) - ReadU32Be(rom, at) + ReadU32Be(rom', at)
    decreases end
  {
    if at + 4 == end {
      UnitFrame(rom, rom', start, at, 4);
    } else {
      UnitUpdate(rom, rom', start, end - 4, at);
    }
  }

  predicate HoldsWord(piece: Piece, at: nat) {
    piece.start <= at && at + 4 <= piece.end && (at - piece.start) % 4 == 0
  }

  predicate Apart(piece: Piece, at: nat, size: nat) {
    at + size <= piece.start || piece.end <= at
  }

  /** One piece holds the word at `at`; the others do not touch it. */
  predicate Covers(window: seq<Piece>, at: nat) {
    exists p :: 0 <= p < |window| && HoldsWord(window[p], at)
                && forall q :: 0 <= q < |window| && q != p ==> Apart(window[q], at, 4)
  }

  lemma {:induction false} WindowUpdate(rom: seq<byte>, rom': seq<byte>, window: seq<Piece>, at: nat)
    requires |rom| == |rom'| && Pieces(window, |rom|, 4) && Covers(window, at)
    requires forall i :: 0 <= i < |rom| && !(at <= i < at + 4) ==> rom[i] == rom'[i]
    ensures at + 4 <= |rom|
    ensures WindowSum(rom', window, 4) == WindowSum(rom, window, 4) - ReadU32Be(rom, at) + ReadU32Be(rom', at)
  {
    var p :| 0 <= p < |window| && HoldsWord(window[p], at)
             && forall q :: 0 <= q < |window| && q != p ==> Apart(window[q], at, 4);
    var last := |window| - 1;
    var piece := window[last];
    var front := window[..last];
    if p == last {
      forall i | 0 <= i < |rom| && InPieces(front, i)
        ensures rom[i] == rom'[i]
      {
        var q :| 0 <= q < last && front[q].start <= i < front[q].end;
        assert Apart(window[q], at, 4);
      }
      WindowFrame(rom, rom', front, 4);
      UnitUpdate(rom, rom', piece.start, piece.end, at);
    } else {
      assert Apart(piece, at, 4);
      assert front[p] == window[p];
      WindowUpdate(rom, rom', front, at);
      UnitFrame(rom, rom', piece.start, piece.end, 4);
    }
  }

  // ---- Rules ------------------------------------------------------------------------------

  function SlotWidth(rule: Rule): (w: nat) {
    if rule.Store? then rule.width else if rule.half then 2 else 4
  }

  predicate WellFormed(rule: Rule, size: nat) {
    && rule.slot + SlotWidth(rule) <= size
    && match rule
       case Store(_, width, window, slot) =>
         && (width == 1 || width == 4)
         && Pieces(window, size, width)
         && forall p :: 0 <= p < |window| ==> Apart(window[p], slot, width)
       case Balance(half, window, slot, target) =>
         && Pieces(window, size, 4)
         && target < Modulus(SlotWidth(rule))
         && (half ==> slot >= 2)
         && Covers(window, if half then slot - 2 else slot)
  }

  /** The value a `Store` slot must hold. */
  function Value(rule: Rule, rom: seq<byte>): (v: nat)
    requires rule.Store? && WellFormed(rule, |rom|)
    ensures v < Modulus(rule.width)
  {
    if rule.fold.AddUnits? then WindowSum(rom, rule.window, rule.width) % Modulus(rule.width)
    else WindowXor(rom, rule.window, rule.width)
  }

  predicate Holds(rule: Rule, rom: seq<byte>)
    requires WellFormed(rule, |rom|)
  {
    if rule.Store? then ReadBe(rom, rule.slot, rule.width) == Value(rule, rom)
    else WindowSum(rom, rule.window, 4) % Modulus(SlotWidth(rule)) == rule.target
  }

  /** What correcting writes into the slot: the window's fold, or the stored value moved by
      the distance from the observed sum to the target. */
  function SlotValue(rule: Rule, rom: seq<byte>): (v: nat)
    requires WellFormed(rule, |rom|)
    ensures v < Modulus(SlotWidth(rule))
  {
    if rule.Store? then Value(rule, rom)
    else
      var m := Modulus(SlotWidth(rule));
      (ReadBe(rom, rule.slot, SlotWidth(rule)) + rule.target - WindowSum(rom, rule.window, 4) % U32 % m) % m
  }

  function Correct(rule: Rule, rom: seq<byte>): (r: seq<byte>)
    requires WellFormed(rule, |rom|)
    ensures |r| == |rom|
  {
    if Holds(rule, rom) then rom
    else OverwriteAt(rom, rule.slot, EncodeBe(SlotValue(rule, rom), SlotWidth(rule)))
  }

  /** The low half of a word moves with the word. */
  lemma HalfOfWord(rom: seq<byte>, at: nat)
    requires at + 4 <= |rom|
    ensures ReadU32Be(rom, at) == ReadU16Be(rom, at) * U16 + ReadU16Be(rom, at + 2)
  {
  }

  lemma MovedToTarget(sum: int, stored: nat, target: nat, m: nat, sum': int)
    requires m == U16 || m == U32
    requires target < m && sum' == sum - stored + (stored + target - sum % U32 % m) % m
    ensures sum' % m == target
  {
    if m == U32 {
      MovedWord(sum, stored, target);
    } else {
      MovedHalf(sum, stored, target);
    }
  }

  lemma MovedWord(sum: int, stored: nat, target: nat)
    requires target < U32
    ensures (sum - stored + (stored + target - sum % U32) % U32) % U32 == target
  {
    var moved := stored + target - sum % U32;
    var a, b := sum / U32, moved / U32;
    assert sum == U32 * a + sum % U32 && moved == U32 * b + moved % U32;
    assert sum - stored + moved % U32 == U32 * (a - b) + target;
  }

  lemma MovedHalf(sum: int, stored: nat, target: nat)
    requires target < U16
    ensures (sum - stored + (stored + target - sum % U32 % U16) % U16) % U16 == target
  {
    var low := sum % U32;
    var moved := stored + target - low % U16;
    var a, b, c := sum / U32, moved / U16, low / U16;
    assert sum == U32 * a + low && low == U16 * c + low % U16 && moved == U16 * b + moved % U16;
    assert sum - stored + moved % U16 == U16 * (U16 * a + c - b) + target;
  }

  lemma BalanceHolds(rule: Rule, rom: seq<byte>, rom': seq<byte>)
    requires rule.Balance? && WellFormed(rule, |rom|)
    requires rom' == OverwriteAt(rom, rule.slot, EncodeBe(SlotValue(rule, rom), SlotWidth(rule)))
    ensures Holds(rule, rom')
  {
    var v, w := SlotValue(rule, rom), SlotWidth(rule);
    var word := if rule.half then rule.slot - 2 else rule.slot;
    WindowUpdate(rom, rom', rule.window, word);
    ReadAfterEncode(rom, rule.slot, v, w);
    if rule.half {
      HalfOfWord(rom, word);
      HalfOfWord(rom', word);
      assert ReadU16Be(rom, word) == ReadU16Be(rom', word);
    }
    MovedToTarget(WindowSum(rom, rule.window, 4), ReadBe(rom, rule.slot, w), rule.target, Modulus(w),
                  WindowSum(rom', rule.window, 4));
  }

  /** A rule is settled by its own correction. */
  lemma CorrectHolds(rule: Rule, rom: seq<byte>)
    requires WellFormed(rule, |rom|)
    ensures Holds(rule, Correct(rule, rom))
  {
    if !Holds(rule, rom) {
      if rule.Store? {
        ReadAfterEncode(rom, rule.slot, Value(rule, rom), rule.width);
        WindowFrame(rom, Correct(rule, rom), rule.window, rule.width);
      } else {
        BalanceHolds(rule, rom, Correct(rule, rom));
      }
    }
  }

  /** Only one word in the slot balances the rest of the window. */
  lemma BalanceUnique(rule: Rule, rom: seq<byte>, rom': seq<byte>)
    requires rule.Balance? && !rule.half && |rom| == |rom'| && WellFormed(rule, |rom|)
    requires Holds(rule, rom) && Holds(rule, rom')
    requires forall i :: 0 <= i < |rom| && !InSlot(rule, i) ==> rom[i] == rom'[i]
    ensures rom == rom'
  {
    hide WindowSum, ReadU32Be, EncodeU32Be;
    var at := rule.slot;
    WindowUpdate(rom, rom', rule.window, at);
    SameResidue(WindowSum(rom, rule.window, 4), ReadU32Be(rom, at), ReadU32Be(rom', at));
    EncodeReadU32Be(rom, at);
    EncodeReadU32Be(rom', at);
    assert rom == rom[..at] + rom[at..at + 4] + rom[at + 4..];
    assert rom' == rom'[..at] + rom'[at..at + 4] + rom'[at + 4..];
    assert rom[..at] == rom'[..at] && rom[at + 4..] == rom'[at + 4..];
  }

  lemma SameResidue(sum: int, a: word32, b: word32)
    requires sum % U32 == (sum - a as int + b as int) % U32
    ensures a == b
  {
    var p, q := sum / U32, (sum - a as int + b as int) / U32;
    assert b as int - a as int == U32 * (q - p);
  }

  predicate InSlot(rule: Rule, i: int) {
    rule.slot <= i < rule.slot + SlotWidth(rule)
  }

  /** The bytes a rule's truth depends on. */
  predicate Reads(rule: Rule, i: int) {
    InSlot(rule, i) || InPieces(rule.window, i)
  }

  lemma HoldsFrame(rule: Rule, rom: seq<byte>, rom': seq<byte>)
    requires |rom| == |rom'| && WellFormed(rule, |rom|)
    requires forall i :: 0 <= i < |rom| && Reads(rule, i) ==> rom[i] == rom'[i]
    ensures Holds(rule, rom) == Holds(rule, rom')
  {
    WindowFrame(rom, rom', rule.window, if rule.Store? then rule.width else 4);
    assert forall i :: InSlot(rule, i) ==> Reads(rule, i);
  }

  // ---- Layouts ----------------------------------------------------------------------------

  predicate Layout(rules: seq<Rule>, size: nat) {
    forall i :: 0 <= i < |rules| ==> WellFormed(rules[i], size)
  }

  predicate SparesWindow(writer: Rule, reader: Rule) {
    forall p :: 0 <= p < |reader.window| ==> Apart(reader.window[p], writer.slot, SlotWidth(writer))
  }

  /** `writer` leaves alone every byte `reader` depends on. */
  predicate Spares(writer: Rule, reader: Rule) {
    && Apart(Piece(reader.slot, reader.slot + SlotWidth(reader)), writer.slot, SlotWidth(writer))
    && SparesWindow(writer, reader)
  }

  /** No rule's slot is read by a rule corrected before it. */
  predicate Ordered(rules: seq<Rule>) {
    forall i, j :: 0 <= i < j < |rules| ==> Spares(rules[j], rules[i])
  }

  function Run(rules: seq<Rule>, rom: seq<byte>): (r: seq<byte>)
    requires Layout(rules, |rom|)
    ensures |r| == |rom|
  {
    if rules == [] then rom
    else Correct(rules[|rules| - 1], Run(rules[..|rules| - 1], rom))
  }

  predicate AllHold(rules: seq<Rule>, rom: seq<byte>)
    requires Layout(rules, |rom|)
  {
    forall i :: 0 <= i < |rules| ==> Holds(rules[i], rom)
  }

  lemma CorrectSpares(writer: Rule, reader: Rule, rom: seq<byte>)
    requires WellFormed(writer, |rom|) && WellFormed(reader, |rom|) && Spares(writer, reader)
    ensures Holds(reader, Correct(writer, rom)) == Holds(reader, rom)
  {
    HoldsFrame(reader, rom, Correct(writer, rom));
  }

  /** One pass over an ordered layout settles every rule at once. */
  lemma {:induction false} RunHolds(rules: seq<Rule>, rom: seq<byte>)
    requires Layout(rules, |rom|) && Ordered(rules)
    ensures AllHold(rules, Run(rules, rom))
  {
    hide WellFormed, Holds, Correct, Spares;
    if rules != [] {
      var last := |rules| - 1;
      var front, rule := rules[..last], rules[last];
      RunHolds(front, rom);
      var before := Run(front, rom);
      CorrectHolds(rule, before);
      forall i | 0 <= i < last
        ensures Holds(rules[i], Correct(rule, before))
      {
        assert Holds(front[i], before);
        CorrectSpares(rule, rules[i], before);
      }
    }
  }

  /** Correcting a ROM that already satisfies a layout changes no byte. */
  lemma {:induction false} RunUnchanged(rules: seq<Rule>, rom: seq<byte>)
    requires Layout(rules, |rom|)
    ensures AllHold(rules, rom) ==> Run(rules, rom) == rom
  {
    hide WellFormed, Holds;
    if rules != [] && AllHold(rules, rom) {
      var front := rules[..|rules| - 1];
      forall i | 0 <= i < |front|
        ensures Holds(front[i], rom)
      {
        assert front[i] == rules[i];
      }
      RunUnchanged(front, rom);
    }
  }

  lemma RunStep(rules: seq<Rule>, k: nat, rom: seq<byte>)
    requires Layout(rules, |rom|) && k < |rules|
    ensures Run(rules[..k + 1], rom) == Correct(rules[k], Run(rules[..k], rom))
  {
    assert rules[..k + 1][..k] == rules[..k];
  }

  /** Correcting rule `k` outside the window of the next rule leaves the value that rule must
      hold, so two values folded together can be stored one after the other. */
  lemma ValueKept(rules: seq<Rule>, k: nat, rom: seq<byte>)
    requires Layout(rules, |rom|) && k + 1 < |rules| && rules[k + 1].Store?
    requires SparesWindow(rules[k], rules[k + 1])
    ensures Value(rules[k + 1], Run(rules[..k + 1], rom)) == Value(rules[k + 1], Run(rules[..k], rom))
  {
    hide Holds, SlotValue;
    RunStep(rules, k, rom);
    var before := Run(rules[..k], rom);
    WindowFrame(before, Correct(rules[k], before), rules[k + 1].window, rules[k + 1].width);
  }

  lemma HoldsKept(rules: seq<Rule>, k: nat, rom: seq<byte>)
    requires Layout(rules, |rom|) && k + 1 < |rules| && Spares(rules[k], rules[k + 1])
    ensures Holds(rules[k + 1], Run(rules[..k + 1], rom)) == Holds(rules[k + 1], Run(rules[..k], rom))
  {
    hide Holds, Correct, Spares, WellFormed;
    RunStep(rules, k, rom);
    CorrectSpares(rules[k], rules[k + 1], Run(rules[..k], rom));
  }

  /** Each step found its rule holding. */
  predicate EachHeld(rules: seq<Rule>, rom: seq<byte>, held: seq<bool>)
    requires Layout(rules, |rom|) && |held| == |rules|
  {
    forall k :: 0 <= k < |held| ==> held[k] == Holds(rules[k], Run(rules[..k], rom))
  }

  /** Every step of a pass finds its rule holding exactly when every rule holds beforehand. */
  lemma {:induction false} PassStatus(rules: seq<Rule>, rom: seq<byte>, held: seq<bool>)
    requires Layout(rules, |rom|) && |held| == |rules| && EachHeld(rules, rom, held)
    ensures (forall k :: 0 <= k < |held| ==> held[k]) <==> AllHold(rules, rom)
  {
    hide WellFormed, Holds, Correct, Run;
    if forall k :: 0 <= k < |held| ==> held[k] {
      forall k | 0 <= k < |rules|
        ensures Holds(rules[k], rom)
      {
        HeldPrefix(rules, rom, held, k);
        assert held[k];
      }
    }
    if AllHold(rules, rom) {
      forall k | 0 <= k < |held|
        ensures held[k]
      {
        assert AllHold(rules[..k], rom);
        RunUnchanged(rules[..k], rom);
      }
    }
  }

  lemma {:induction false} HeldPrefix(rules: seq<Rule>, rom: seq<byte>, held: seq<bool>, n: nat)
    requires Layout(rules, |rom|) && |held| == |rules| && n <= |rules| && EachHeld(rules, rom, held)
    requires forall k :: 0 <= k < |held| ==> held[k]
    ensures Run(rules[..n], rom) == rom
  {
    hide WellFormed, Holds;
    if n > 0 {
      HeldPrefix(rules, rom, held, n - 1);
      assert held[n - 1];
      RunStep(rules, n - 1, rom);
    }
  }

  /** A second pass changes no byte, and a first pass changes none exactly when the ROM
      satisfied the layout already. */
  lemma RunIdempotent(rules: seq<Rule>, rom: seq<byte>)
    requires Layout(rules, |rom|) && Ordered(rules)
    ensures Run(rules, Run(rules, rom)) == Run(rules, rom)
    ensures Run(rules, rom) == rom <==> AllHold(rules, rom)
  {
    hide WellFormed, Holds, Correct, Spares, Run;
    RunHolds(rules, rom);
    RunUnchanged(rules, Run(rules, rom));
    RunUnchanged(rules, rom);
  }

  /** A pass changes slot bytes only. */
  lemma {:induction false} RunFrame(rules: seq<Rule>, rom: seq<byte>, i: nat)
    requires Layout(rules, |rom|) && i < |rom|
    requires forall k :: 0 <= k < |rules| ==> !InSlot(rules[k], i)
    ensures Run(rules, rom)[i] == rom[i]
  {
    if rules != [] {
      var last := |rules| - 1;
      assert !InSlot(rules[last], i);
      RunFrame(rules[..last], rom, i);
    }
  }

  lemma {:induction false} RunAppend(first: seq<Rule>, second: seq<Rule>, rom: seq<byte>)
    requires Layout(first, |rom|) && Layout(second, |rom|) && Layout(first + second, |rom|)
    ensures Run(first + second, rom) == Run(second, Run(first, rom))
  {
    hide WellFormed, Correct;
    if second == [] {
      assert first + second == first;
    } else {
      var last := |second| - 1;
      assert (first + second)[..|first| + last] == first + second[..last];
      RunAppend(first, second[..last], rom);
    }
  }

  /** Corrections that spare a rule leave every byte it reads, and so what it would write. */
  lemma RunKeepsBytes(writers: seq<Rule>, reader: Rule, rom: seq<byte>)
    requires Layout(writers, |rom|) && WellFormed(reader, |rom|)
    requires forall k :: 0 <= k < |writers| ==> Spares(writers[k], reader)
    ensures forall i :: 0 <= i < |rom| && Reads(reader, i) ==> Run(writers, rom)[i] == rom[i]
    ensures SlotValue(reader, Run(writers, rom)) == SlotValue(reader, rom)
  {
    hide WellFormed, Run;
    var rom' := Run(writers, rom);
    forall i | 0 <= i < |rom| && Reads(reader, i)
      ensures rom'[i] == rom[i]
    {
      forall k | 0 <= k < |writers|
        ensures !InSlot(writers[k], i)
      {
        assert Spares(writers[k], reader);
      }
      RunFrame(writers, rom, i);
    }
    SlotValueFrame(reader, rom, rom');
  }

  lemma SlotValueFrame(rule: Rule, rom: seq<byte>, rom': seq<byte>)
    requires |rom| == |rom'| && WellFormed(rule, |rom|)
    requires forall i :: 0 <= i < |rom| && Reads(rule, i) ==> rom[i] == rom'[i]
    ensures SlotValue(rule, rom) == SlotValue(rule, rom')
  {
    WindowFrame(rom, rom', rule.window, if rule.Store? then rule.width else 4);
    assert ReadBe(rom, rule.slot, SlotWidth(rule)) == ReadBe(rom', rule.slot, SlotWidth(rule)) by {
      assert forall i :: InSlot(rule, i) ==> Reads(rule, i);
    }
    hide WindowSum, WindowXor, ReadBe;
  }

  lemma RunKeeps(writers: seq<Rule>, reader: Rule, rom: seq<byte>)
    requires Layout(writers, |rom|) && WellFormed(reader, |rom|)
    requires forall k :: 0 <= k < |writers| ==> Spares(writers[k], reader)
    ensures Holds(reader, Run(writers, rom)) == Holds(reader, rom)
  {
    hide WellFormed, Holds, Correct, Spares;
    if writers != [] {
      var last := |writers| - 1;
      RunKeeps(writers[..last], reader, rom);
      CorrectSpares(writers[last], reader, Run(writers[..last], rom));
    }
  }

  /** A layout corrected in the wrong order, `first` before `second`, although only the
      opposite order is safe: one pass settles `second`, and two settle everything. */
  lemma TwoPasses(first: seq<Rule>, second: seq<Rule>, rom: seq<byte>)
    requires Layout(first, |rom|) && Layout(second, |rom|) && Layout(first + second, |rom|)
    requires Ordered(second + first)
    ensures AllHold(second, Run(first + second, rom))
    ensures AllHold(first + second, Run(first + second, Run(first + second, rom)))
  {
    hide WellFormed, Correct, Holds, Spares, Run;
    var all := first + second;
    assert Ordered(first) by {
      assert forall k :: 0 <= k < |first| ==> first[k] == (second + first)[|second| + k];
    }
    assert Ordered(second) by {
      assert forall k :: 0 <= k < |second| ==> second[k] == (second + first)[k];
    }
    RunAppend(first, second, rom);
    RunHolds(second, Run(first, rom));
    var once := Run(all, rom);
    var fixed := Run(first, once);
    RunHolds(first, once);
    forall k | 0 <= k < |second|
      ensures Holds(second[k], fixed)
    {
      forall j | 0 <= j < |first|
        ensures Spares(first[j], second[k])
      {
        assert first[j] == (second + first)[|second| + j] && second[k] == (second + first)[k];
      }
      RunKeeps(first, second[k], once);
    }
    RunUnchanged(second, fixed);
    RunAppend(first, second, once);
  }
}
