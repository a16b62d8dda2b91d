/** The statistical half of the key computation (src/algorithms/crypto/subaru_key_recovery.cpp):
    windows, candidate keys and the most biased subkey of each nybble. */
module KeyStatistics {
  import opened Bytes
  import opened BitXor
  import opened SubaruCipher

  type bit = b: nat | b < 2

  function ShiftRight(a: nat, k: nat): nat {
    if k == 0 then a else ShiftRight(a / 2, k - 1)
  }

  /** Bit positions count from 1, the most significant, to 32. */
  function Bit(value: word32, position: nat): bit
    requires 1 <= position <= 32
  {
    ShiftRight(value, 32 - position) % 2
  }

  datatype BitPair = BitPair(a: nat, b: nat)

  predicate InWord(positions: BitPair, offset: nat) {
    1 <= positions.a + offset <= 32 && 1 <= positions.b + offset <= 32
  }

  function Bits(value: word32, positions: BitPair, offset: nat): bit
    requires InWord(positions, offset)
  {
    Parity(Bit(value, positions.a + offset), Bit(value, positions.b + offset))
  }

  function Parity(a: bit, b: bit): bit {
    if a == b then 0 else 1
  }

  function InBits(nybble: nat): (p: BitPair)
    requires nybble < NYBBLES
    ensures InWord(p, 0)
  {
    if nybble == 0 then BitPair(20, 21) else if nybble == 1 then BitPair(24, 25)
    else if nybble == 2 then BitPair(28, 29) else BitPair(32, 17)
  }

  function OutBits(nybble: nat): (p: BitPair)
    requires nybble < NYBBLES
    ensures InWord(p, 0) && InWord(p, 16)
  {
    if nybble == 0 then BitPair(11, 8) else if nybble == 1 then BitPair(15, 12)
    else if nybble == 2 then BitPair(3, 16) else BitPair(7, 4)
  }

  lemma {:induction false} ShiftOfXor(a: nat, b: nat, k: nat)
    ensures ShiftRight(Xor(a, b), k) == Xor(ShiftRight(a, k), ShiftRight(b, k))
  {
    if k > 0 {
      XorHalves(a, b);
      ShiftOfXor(a / 2, b / 2, k - 1);
    }
  }

  lemma {:induction false} ShiftSum(a: nat, i: nat, j: nat)
    ensures ShiftRight(a, i + j) == ShiftRight(ShiftRight(a, i), j)
  {
    if i > 0 {
      ShiftSum(a / 2, i - 1, j);
    }
  }

  /** The tested bits are linear in the exclusive or. */
  lemma BitsLinear(a: word16, b: word16, positions: BitPair, offset: nat)
    requires InWord(positions, offset)
    ensures Bits(Mix(a, b), positions, offset) == Parity(Bits(a, positions, offset), Bits(b, positions, offset))
  {
    BitOfMix(a, b, positions.a + offset);
    BitOfMix(a, b, positions.b + offset);
    hide Bit, Mix;
  }

  lemma BitOfMix(a: word16, b: word16, position: nat)
    requires 1 <= position <= 32
    ensures Bit(Mix(a, b), position) == Parity(Bit(a, position), Bit(b, position))
  {
    hide ShiftRight, Xor;
    ShiftOfXor(a, b, 32 - position);
    XorHalves(ShiftRight(a, 32 - position), ShiftRight(b, 32 - position));
  }

  // ---- Windows and candidates -------------------------------------------------------------

  /** The five bits of `word` that the nybble's S-box reads. */
  function Window(nybble: nat, word: word16): nat
    requires nybble < NYBBLES
  {
    Index(word, 3 - nybble)
  }

  /** The round key a nybble's subkey stands for; nybble 0's fifth bit folds into bit 0. */
  function Candidate(nybble: nat, subkey: nat): word16
    requires nybble < NYBBLES && subkey < SUBKEYS
  {
    var key := subkey * Scale(3 - nybble) % 0x1_0000;
    if nybble == 0 && subkey > 0xF then (key + 1) % 0x1_0000 else key
  }

  lemma WindowOfCandidate(nybble: nat, subkey: nat)
    requires nybble < NYBBLES && subkey < SUBKEYS
    ensures Window(nybble, Candidate(nybble, subkey)) == subkey
  {
    if nybble == 0 {
      FoldedCandidate(subkey);
    } else if nybble == 1 {
      ShiftedCandidate(subkey);
    } else if nybble == 2 {
      NearCandidate(subkey);
    } else {
      LowCandidate(subkey);
    }
  }

  lemma Wraps(subkey: nat)
    requires subkey < SUBKEYS
    ensures (subkey + 0x1_0000 * subkey) % SUBKEYS == subkey
  {
    assert subkey + 0x1_0000 * subkey == subkey + SUBKEYS * (0x800 * subkey);
  }

  lemma ShiftedCandidate(subkey: nat)
    requires subkey < SUBKEYS
    ensures Window(1, Candidate(1, subkey)) == subkey
  {
    assert Candidate(1, subkey) == subkey * 0x100;
    assert Doubled(subkey * 0x100) / 0x100 == subkey + 0x1_0000 * subkey;
    Wraps(subkey);
  }

  lemma NearCandidate(subkey: nat)
    requires subkey < SUBKEYS
    ensures Window(2, Candidate(2, subkey)) == subkey
  {
    assert Candidate(2, subkey) == subkey * 0x10;
    assert Doubled(subkey * 0x10) / 0x10 == subkey + 0x1_0000 * subkey;
    Wraps(subkey);
  }

  lemma LowCandidate(subkey: nat)
    requires subkey < SUBKEYS
    ensures Window(3, Candidate(3, subkey)) == subkey
  {
    assert Candidate(3, subkey) == subkey;
    Wraps(subkey);
  }

  lemma FoldedCandidate(subkey: nat)
    requires subkey < SUBKEYS
    ensures Window(0, Candidate(0, subkey)) == subkey
  {
    if subkey > 0xF {
      var low := subkey - 0x10;
      var key := low * 0x1000 + 1;
      assert Candidate(0, subkey) == key;
      assert Doubled(key) / 0x1000 == low + 0x10 * key;
      assert low + 0x10 * key == subkey + SUBKEYS * (low * 0x800);
    } else {
      assert Candidate(0, subkey) == subkey * 0x1000;
      assert Doubled(subkey * 0x1000) / 0x1000 == subkey + SUBKEYS * (subkey * 0x800);
    }
  }

  /** Mixing words mixes their windows. */
  lemma WindowOfMix(nybble: nat, a: word16, b: word16)
    requires nybble < NYBBLES
    ensures Window(nybble, Mix(a, b)) == Xor(Window(nybble, a), Window(nybble, b))
  {
    hide Xor, ShiftRight, Scale;
    var k := 4 * (3 - nybble);
    var da, db := Doubled(a), Doubled(b);
    Pow2Values();
    XorFields(a, b, a, b, 16);
    hide Pow2;
    assert Doubled(Mix(a, b)) == Xor(da, db);
    ShiftNybbles(da, 3 - nybble);
    ShiftNybbles(db, 3 - nybble);
    ShiftNybbles(Xor(da, db), 3 - nybble);
    ShiftOfXor(da, db, k);
    LowFive(ShiftRight(da, k), ShiftRight(db, k));
    hide Doubled, Mix;
  }

  lemma ShiftOne(a: nat)
    ensures ShiftRight(a, 1) == a / 2
  {
  }

  lemma ShiftTwo(a: nat)
    ensures ShiftRight(a, 2) == a / 4
  {
    ShiftSum(a, 1, 1);
    ShiftOne(a);
    ShiftOne(a / 2);
  }

  lemma ShiftFour(a: nat)
    ensures ShiftRight(a, 4) == a / 0x10
  {
    ShiftSum(a, 2, 2);
    ShiftTwo(a);
    ShiftTwo(a / 4);
  }

  lemma ShiftNybbles(a: nat, n: nat)
    requires n < NYBBLES
    ensures ShiftRight(a, 4 * n) == a / Scale(n)
  {
    hide ShiftRight;
    ShiftFour(a);
    ShiftFour(a / 0x10);
    ShiftFour(a / 0x100);
    ShiftSum(a, 4, 4);
    ShiftSum(a, 8, 4);
    ShiftNone(a);
  }

  lemma ShiftNone(a: nat)
    ensures ShiftRight(a, 0) == a
  {
  }

  lemma LowFive(a: nat, b: nat)
    ensures Xor(a, b) % SUBKEYS == Xor(a % SUBKEYS, b % SUBKEYS)
  {
    hide Xor;
    Pow2Values();
    XorFields(a % SUBKEYS, b % SUBKEYS, a / SUBKEYS, b / SUBKEYS, 5);
    XorBound(a % SUBKEYS, b % SUBKEYS, 5);
    hide Pow2;
  }

  /** What one S-box output contributes to the tested bits. */
  function NibbleParity(nibble: nat): bit
    requires nibble < 0x10
  {
    Parity(nibble / 8, nibble / 4 % 2)
  }

  /** The tested output bits depend on the window alone. */
  lemma WindowDecides(box: SBox, v: word16, nybble: nat)
    requires nybble < NYBBLES
    ensures Bits(F(box, v), InBits(nybble), 0) == NibbleParity(box[Window(nybble, v)])
  {
    hide Index;
    var a, b, c, d := box[Index(v, 0)], box[Index(v, 1)], box[Index(v, 2)], box[Index(v, 3)];
    FourNibbles(box, v);
    RotatedBits(a, b, c, d, nybble);
  }

  lemma RotatedBits(a: nat, b: nat, c: nat, d: nat, nybble: nat)
    requires a < 0x10 && b < 0x10 && c < 0x10 && d < 0x10 && nybble < NYBBLES
    ensures var nibble := if nybble == 0 then d else if nybble == 1 then c else if nybble == 2 then b else a;
            Bits(RotateRight3(a + b * 0x10 + c * 0x100 + d * 0x1000), InBits(nybble), 0) == NibbleParity(nibble)
  {
    Rotated(a, b, c, d);
    hide RotateRight3, ShiftRight;
    RotatedTails(RotateRight3(a + b * 0x10 + c * 0x100 + d * 0x1000), a, b, c, d);
  }

  lemma Rotated(a: nat, b: nat, c: nat, d: nat)
    requires a < 0x10 && b < 0x10 && c < 0x10 && d < 0x10
    ensures RotateRight3(a + b * 0x10 + c * 0x100 + d * 0x1000) == a / 8 + 2 * Above(a, b, c, d)
  {
    var s := a + b * 0x10 + c * 0x100 + d * 0x1000;
    assert s / 8 == a / 8 + 2 * (b + 0x10 * (c + 0x10 * d)) && s % 8 == a % 8;
  }

  /** The rotated nibbles above bit 0. */
  function Above(a: nat, b: nat, c: nat, d: nat): nat {
    b + 0x10 * (c + 0x10 * (d + 0x10 * (a % 8)))
  }

  lemma RotatedTails(r: nat, a: nat, b: nat, c: nat, d: nat)
    requires a < 0x10 && b < 0x10 && c < 0x10 && d < 0x10
    requires r == a / 8 + 2 * Above(a, b, c, d)
    ensures ShiftRight(r, 0) % 2 == a / 8 && ShiftRight(r, 15) % 2 == a / 4 % 2
    ensures ShiftRight(r, 4) % 2 == b / 8 && ShiftRight(r, 3) % 2 == b / 4 % 2
    ensures ShiftRight(r, 8) % 2 == c / 8 && ShiftRight(r, 7) % 2 == c / 4 % 2
    ensures ShiftRight(r, 12) % 2 == d / 8 && ShiftRight(r, 11) % 2 == d / 4 % 2
  {
    hide ShiftRight;
    var top := a % 8;
    var d' := d + 0x10 * top;
    var c' := c + 0x10 * d';
    var b' := b + 0x10 * c';
    LeadingBit(a / 8, b');
    Tail(r, b', 1, b, c');
    Tail(r, c', 5, c, d');
    Tail(r, d', 9, d, top);
    Tail(r, top, 13, top, 0);
  }

  lemma LeadingBit(x: nat, y: nat)
    requires x < 2
    ensures ShiftRight(x + 2 * y, 0) % 2 == x && ShiftRight(x + 2 * y, 1) == y
  {
  }

  /** Once `k` bits are gone, the next nibble is `x` and the rest `y`. */
  lemma Tail(r: nat, t: nat, k: nat, x: nat, y: nat)
    requires ShiftRight(r, k) == t && t == x + 0x10 * y && x < 0x10
    ensures ShiftRight(r, k + 4) == y
    ensures ShiftRight(r, k + 3) % 2 == x / 8
    ensures ShiftRight(r, k + 2) % 2 == x / 4 % 2
  {
    hide ShiftRight;
    ShiftSum(r, k, 2);
    ShiftSum(r, k, 3);
    ShiftSum(r, k, 4);
    Nibble(x, y);
  }

  lemma Nibble(x: nat, y: nat)
    requires x < 0x10
    ensures var t := x + 0x10 * y;
            ShiftRight(t, 4) == y && ShiftRight(t, 3) % 2 == x / 8 && ShiftRight(t, 2) % 2 == x / 4 % 2
  {
    var t := x + 0x10 * y;
    ShiftTwo(t);
    ShiftSum(t, 2, 1);
    ShiftOne(t / 4);
    ShiftFour(t);
    hide ShiftRight;
    assert t / 4 == x / 4 + 4 * y;
    assert t / 4 / 2 == x / 8 + 2 * y;
  }

  // ---- Every bit of the round function ----------------------------------------------------

  /** Bit `i`, counted from the low end. */
  function BitAt(v: nat, i: nat): bit {
    ShiftRight(v, i) % 2
  }

  /** Bit `i` of the window of S-box `n` is bit (4n + i) % 16 of the word. */
  lemma WindowBits(v: word16, n: nat, i: nat)
    requires n < NYBBLES && i < 5
    ensures BitAt(Index(v, n), i) == BitAt(v, (4 * n + i) % 16)
  {
    hide ShiftRight, Doubled;
    var d := Doubled(v);
    ShiftNybbles(d, n);
    LowFiveBits(d / Scale(n), i);
    ShiftSum(d, 4 * n, i);
    DoubledBits(v, 4 * n + i);
  }

  /** The low five bits keep their places. */
  lemma LowFiveBits(a: nat, i: nat)
    requires i < 5
    ensures BitAt(a % SUBKEYS, i) == BitAt(a, i)
  {
    hide ShiftRight;
    Pow2Values();
    BelowField(a % SUBKEYS, a / SUBKEYS, 5, i);
  }

  /** The doubled word repeats after sixteen bits. */
  lemma DoubledBits(v: word16, k: nat)
    requires k < 32
    ensures BitAt(Doubled(v), k) == BitAt(v, k % 16)
  {
    hide ShiftRight;
    Pow2Values();
    if k < 16 {
      BelowField(v, v, 16, k);
    } else {
      AboveField(v, v, 16);
      ShiftSum(Doubled(v), 16, k - 16);
    }
  }

  lemma {:induction false} BelowField(x: nat, y: nat, n: nat, k: nat)
    requires k < n
    ensures BitAt(x + Pow2(n) * y, k) == BitAt(x, k)
    decreases k
  {
    var p := Pow2(n - 1);
    HalfField(x, y, p);
    assert 2 * p * y == Pow2(n) * y;
    if k > 0 {
      BelowField(x / 2, y, n - 1, k - 1);
    }
  }

  lemma {:induction false} AboveField(x: nat, y: nat, n: nat)
    requires x < Pow2(n)
    ensures ShiftRight(x + Pow2(n) * y, n) == y
  {
    if n > 0 {
      var p := Pow2(n - 1);
      HalfField(x, y, p);
      assert 2 * p * y == Pow2(n) * y;
      AboveField(x / 2, y, n - 1);
    }
  }

  /** Five bits determine a window. */
  lemma SameFiveBits(a: nat, b: nat)
    requires a < SUBKEYS && b < SUBKEYS && forall i :: 0 <= i < 5 ==> BitAt(a, i) == BitAt(b, i)
    ensures a == b
  {
    FromFiveBits(a);
    FromFiveBits(b);
    hide ShiftRight;
    assert BitAt(a, 0) == BitAt(b, 0) && BitAt(a, 1) == BitAt(b, 1) && BitAt(a, 2) == BitAt(b, 2);
    assert BitAt(a, 3) == BitAt(b, 3) && BitAt(a, 4) == BitAt(b, 4);
  }

  lemma FromFiveBits(a: nat)
    requires a < SUBKEYS
    ensures a == BitAt(a, 0) as int + 2 * BitAt(a, 1) as int + 4 * BitAt(a, 2) as int + 8 * BitAt(a, 3) as int
                 + 0x10 * BitAt(a, 4) as int
  {
    hide ShiftRight;
    ShiftNone(a);
    ShiftOne(a);
    ShiftTwo(a);
    ShiftSum(a, 2, 1);
    ShiftOne(a / 4);
    ShiftFour(a);
    assert a / 4 / 2 == a / 8 && a / 0x10 == a / 8 / 2;
  }

  /** Bit `j` of the round function's output is bit ((j + 3) % 16) % 4 of the S-box entry named by the
      five bits of the word, wrapping round, from bit 4n on, where n = ((j + 3) % 16) / 4. */
  lemma FBits(box: SBox, v: word16, j: nat, w: nat)
    requires j < 16 && w < SUBKEYS
    requires forall i :: 0 <= i < 5 ==> BitAt(w, i) == BitAt(v, (4 * ((j + 3) % 16 / 4) + i) % 16)
    ensures BitAt(F(box, v), j) == BitAt(box[w], (j + 3) % 16 % 4)
  {
    hide ShiftRight, Index, RotateRight3, Substituted;
    var n := (j + 3) % 16 / 4;
    forall i | 0 <= i < 5
      ensures BitAt(w, i) == BitAt(Index(v, n), i)
    {
      WindowBits(v, n, i);
    }
    SameFiveBits(w, Index(v, n));
    OutputBits(box, v, j);
  }

  lemma OutputBits(box: SBox, v: word16, j: nat)
    requires j < 16
    ensures BitAt(F(box, v), j) == BitAt(box[Index(v, (j + 3) % 16 / 4)], (j + 3) % 16 % 4)
  {
    hide Index, ShiftRight;
    var a, b, c, d := box[Index(v, 0)], box[Index(v, 1)], box[Index(v, 2)], box[Index(v, 3)];
    FourNibbles(box, v);
    Rotated(a, b, c, d);
    RotatedBitsAt(F(box, v), a, b, c, d, j);
  }

  lemma FourNibbles(box: SBox, v: word16)
    ensures Substituted(box, v, 4) == box[Index(v, 0)] + box[Index(v, 1)] * 0x10 + box[Index(v, 2)] * 0x100
                                      + box[Index(v, 3)] * 0x1000
  {
    hide Index;
    var a, b, c := box[Index(v, 0)], box[Index(v, 1)], box[Index(v, 2)];
    assert Substituted(box, v, 1) == a;
    assert Substituted(box, v, 2) == a + b * 0x10;
    assert Substituted(box, v, 3) == a + b * 0x10 + c * 0x100;
  }

  /** The nibble that holds bit `j` of the output once it is rotated back. */
  lemma RotatedBitsAt(r: nat, a: nat, b: nat, c: nat, d: nat, j: nat)
    requires a < 0x10 && b < 0x10 && c < 0x10 && d < 0x10 && j < 16
    requires r == a / 8 + 2 * Above(a, b, c, d)
    ensures var n, i := (j + 3) % 16 / 4, (j + 3) % 16 % 4;
            BitAt(r, j) == BitAt(if n == 0 then a else if n == 1 then b else if n == 2 then c else d, i)
  {
    hide BitAt, Above;
    RotatedPlaces(r, a, b, c, d, j);
    assert j == 0 || 1 <= j <= 4 || 5 <= j <= 8 || 9 <= j <= 12 || 13 <= j < 16;
  }

  lemma RotatedPlaces(r: nat, a: nat, b: nat, c: nat, d: nat, j: nat)
    requires a < 0x10 && b < 0x10 && c < 0x10 && d < 0x10 && j < 16
    requires r == a / 8 + 2 * Above(a, b, c, d)
    ensures BitAt(r, j) == if j == 0 then BitAt(a, 3) else if j <= 4 then BitAt(b, j - 1)
                           else if j <= 8 then BitAt(c, j - 5) else if j <= 12 then BitAt(d, j - 9)
                           else BitAt(a, j - 13)
  {
    hide ShiftRight;
    var top := a % 8;
    var d' := d + 0x10 * top;
    var c' := c + 0x10 * d';
    var b' := b + 0x10 * c';
    LeadingBit(a / 8, b');
    NibbleEnds(a);
    TailsOf(r, a, b, c, d, b', c', d');
    if 1 <= j <= 4 {
      NibbleAt(r, b', 1, b, c', j - 1);
    } else if 5 <= j <= 8 {
      NibbleAt(r, c', 5, c, d', j - 5);
    } else if 9 <= j <= 12 {
      NibbleAt(r, d', 9, d, top, j - 9);
    } else if j > 12 {
      NibbleAt(r, top, 13, top, 0, j - 13);
    }
  }

  lemma TailsOf(r: nat, a: nat, b: nat, c: nat, d: nat, b': nat, c': nat, d': nat)
    requires a < 0x10 && b < 0x10 && c < 0x10 && d < 0x10
    requires d' == d + 0x10 * (a % 8) && c' == c + 0x10 * d' && b' == b + 0x10 * c' && ShiftRight(r, 1) == b'
    ensures ShiftRight(r, 5) == c' && ShiftRight(r, 9) == d' && ShiftRight(r, 13) == a % 8
  {
    hide ShiftRight;
    Tail(r, b', 1, b, c');
    Tail(r, c', 5, c, d');
    Tail(r, d', 9, d, a % 8);
  }

  lemma NibbleAt(r: nat, t: nat, k: nat, x: nat, y: nat, i: nat)
    requires ShiftRight(r, k) == t && t == x + 0x10 * y && x < 0x10 && i < 4
    ensures BitAt(r, k + i) == BitAt(x, i)
  {
    hide ShiftRight;
    ShiftSum(r, k, i);
    Pow2Values();
    BelowField(x, y, 4, i);
  }

  /** A nibble's top bit is its quotient by 8, and its other bits are those of the remainder. */
  lemma NibbleEnds(a: nat)
    requires a < 0x10
    ensures BitAt(a, 3) == a / 8
    ensures forall i :: 0 <= i < 3 ==> BitAt(a, i) == BitAt(a % 8, i)
  {
    hide ShiftRight;
    assert Pow2(3) == 8;
    AboveField(a % 8, a / 8, 3);
    forall i | 0 <= i < 3
      ensures BitAt(a, i) == BitAt(a % 8, i)
    {
      BelowField(a % 8, a / 8, 3, i);
    }
  }

  /** The output bits tested across a round are the outer bits, 0 and 3, of the S-box nibble below the
      nybble's own, wrapping round. */
  lemma OutWindowDecides(box: SBox, v: word16, nybble: nat)
    requires nybble < NYBBLES
    ensures var entry := box[Index(v, (6 - nybble) % 4)];
            Bits(F(box, v), OutBits(nybble), 16) == Parity(BitAt(entry, 0), BitAt(entry, 3))
  {
    hide F, Index, ShiftRight;
    if nybble == 0 {
      OutputBits(box, v, 5);
      OutputBits(box, v, 8);
    } else if nybble == 1 {
      OutputBits(box, v, 1);
      OutputBits(box, v, 4);
    } else if nybble == 2 {
      OutputBits(box, v, 13);
      OutputBits(box, v, 0);
    } else {
      OutputBits(box, v, 9);
      OutputBits(box, v, 12);
    }
  }

  /** In the high half of a word the same positions, without the offset, are tested. */
  lemma OutBitsHigh(word: word32, nybble: nat)
    requires nybble < NYBBLES
    ensures Bits(word, OutBits(nybble), 0) == Bits(High(word), OutBits(nybble), 16)
  {
    hide ShiftRight;
    HighShift(word);
    var p := OutBits(nybble);
    ShiftSum(word, 16, 16 - p.a);
    ShiftSum(word, 16, 16 - p.b);
  }

  lemma HighShift(word: word32)
    ensures ShiftRight(word, 16) == High(word)
  {
    hide ShiftRight;
    Pow2Values();
    AboveField(Low(word), High(word), 16);
  }

  /** The parity under a candidate is that of the group's representative. */
  lemma GroupRepresents(box: SBox, word: word16, nybble: nat, subkey: nat)
    requires nybble < NYBBLES && subkey < SUBKEYS
    ensures var group := Candidate(nybble, Window(nybble, word));
            var key := Candidate(nybble, subkey);
            Bits(F(box, Mix(word, key)), InBits(nybble), 0) == Bits(F(box, Mix(group, key)), InBits(nybble), 0)
  {
    hide F, Mix, Bits, Candidate, Xor;
    var key := Candidate(nybble, subkey);
    var window := Window(nybble, word);
    var group := Candidate(nybble, window);
    WindowOfCandidate(nybble, window);
    WindowOfMix(nybble, word, key);
    WindowOfMix(nybble, group, key);
    WindowDecides(box, Mix(word, key), nybble);
    WindowDecides(box, Mix(group, key), nybble);
  }

  // ---- Counting ---------------------------------------------------------------------------

  datatype WordPair = WordPair(plain: word32, cipher: word32)

  /** A pair's parity under a candidate key is the constant plus the tested bits of F. */
  datatype ParityTerm = ParityTerm(constant: bit, word: word16)

  type Nybble = n: nat | n < NYBBLES

  type Terms = (WordPair, Nybble) -> ParityTerm

  /** What the tested bits are under key `key` for input `word`. */
  function Tested(box: SBox, nybble: nat, word: word16, key: word16): bit
    requires nybble < NYBBLES
  {
    Bits(F(box, Mix(word, key)), InBits(nybble), 0)
  }

  /** Whether the pair's parity is zero under the candidate key. */
  predicate Agrees(box: SBox, term: ParityTerm, nybble: nat, subkey: nat)
    requires nybble < NYBBLES && subkey < SUBKEYS
  {
    Parity(term.constant, Tested(box, nybble, term.word, Candidate(nybble, subkey))) == 0
  }

  /** The reference: the pairs of zero parity, counted one by one. */
  function DirectCount(box: SBox, pairs: seq<WordPair>, term: Terms, nybble: nat, subkey: nat): (count: nat)
    requires nybble < NYBBLES && subkey < SUBKEYS
  {
    if pairs == [] then 0
    else
      DirectCount(box, pairs[..|pairs| - 1], term, nybble, subkey)
      + if Agrees(box, term(pairs[|pairs| - 1], nybble), nybble, subkey) then 1 else 0
  }

  /** How many pairs share a constant and a window. */
  function GroupSize(pairs: seq<WordPair>, term: Terms, nybble: nat, constant: bit, window: nat): nat
    requires nybble < NYBBLES
  {
    if pairs == [] then 0
    else
      var t := term(pairs[|pairs| - 1], nybble);
      GroupSize(pairs[..|pairs| - 1], term, nybble, constant, window)
      + if t.constant == constant && Window(nybble, t.word) == window then 1 else 0
  }

  /** The groups below `windows` that agree with the subkey, counted by their representatives. */
  function GroupedCount(box: SBox, pairs: seq<WordPair>, term: Terms, nybble: nat, subkey: nat, windows: nat): nat
    requires nybble < NYBBLES && subkey < SUBKEYS && windows <= SUBKEYS
  {
    if windows == 0 then 0
    else
      GroupedCount(box, pairs, term, nybble, subkey, windows - 1)
      + GroupSize(pairs, term, nybble, Represented(box, nybble, windows - 1, subkey), windows - 1)
  }

  function Represented(box: SBox, nybble: nat, window: nat, subkey: nat): bit
    requires nybble < NYBBLES && window < SUBKEYS && subkey < SUBKEYS
  {
    Tested(box, nybble, Candidate(nybble, window), Candidate(nybble, subkey))
  }

  lemma {:induction false} OneMorePair(
    box: SBox, pairs: seq<WordPair>, term: Terms, nybble: nat, subkey: nat, windows: nat)
    requires nybble < NYBBLES && subkey < SUBKEYS && windows <= SUBKEYS && pairs != []
    ensures var t := term(pairs[|pairs| - 1], nybble);
            var w := Window(nybble, t.word);
            GroupedCount(box, pairs, term, nybble, subkey, windows)
            == GroupedCount(box, pairs[..|pairs| - 1], term, nybble, subkey, windows)
               + if w < windows && t.constant == Represented(box, nybble, w, subkey) then 1 else 0
    decreases windows
  {
    hide Window, Represented;
    if windows > 0 {
      OneMorePair(box, pairs, term, nybble, subkey, windows - 1);
    }
  }

  /** Counting by groups is counting one by one. */
  lemma {:induction false} GroupedIsDirect(box: SBox, pairs: seq<WordPair>, term: Terms, nybble: nat, subkey: nat)
    requires nybble < NYBBLES && subkey < SUBKEYS
    ensures GroupedCount(box, pairs, term, nybble, subkey, SUBKEYS) == DirectCount(box, pairs, term, nybble, subkey)
  {
    hide Window, Candidate, Tested;
    if pairs == [] {
      NoGroups(box, term, nybble, subkey, SUBKEYS);
    } else {
      GroupedIsDirect(box, pairs[..|pairs| - 1], term, nybble, subkey);
      OneMorePair(box, pairs, term, nybble, subkey, SUBKEYS);
      var t := term(pairs[|pairs| - 1], nybble);
      InWindow(nybble, t.word);
      Represents(box, t.word, nybble, subkey);
    }
  }

  lemma InWindow(nybble: nat, word: word16)
    requires nybble < NYBBLES
    ensures Window(nybble, word) < SUBKEYS
  {
  }

  lemma Represents(box: SBox, word: word16, nybble: nat, subkey: nat)
    requires nybble < NYBBLES && subkey < SUBKEYS
    ensures Window(nybble, word) < SUBKEYS
    ensures Tested(box, nybble, word, Candidate(nybble, subkey))
            == Represented(box, nybble, Window(nybble, word), subkey)
  {
    hide F, Mix, Bits, Candidate;
    GroupRepresents(box, word, nybble, subkey);
  }

  lemma {:induction false} NoGroups(box: SBox, term: Terms, nybble: nat, subkey: nat, windows: nat)
    requires nybble < NYBBLES && subkey < SUBKEYS && windows <= SUBKEYS
    ensures GroupedCount(box, [], term, nybble, subkey, windows) == 0
  {
    if windows > 0 {
      NoGroups(box, term, nybble, subkey, windows - 1);
    }
  }

  /** How far a count strays from half the pairs. */
  function Bias(count: nat, half: nat): nat {
    if count > half then count - half else half - count
  }

  function SubkeyBias(box: SBox, pairs: seq<WordPair>, term: Terms, nybble: nat, subkey: nat): nat
    requires nybble < NYBBLES && subkey < SUBKEYS
  {
    Bias(DirectCount(box, pairs, term, nybble, subkey), |pairs| / 2)
  }

  /** The subkey of greatest bias, the highest on a tie. */
  ghost predicate MostBiased(box: SBox, pairs: seq<WordPair>, term: Terms, nybble: nat, best: nat)
    requires nybble < NYBBLES
  {
    && best < SUBKEYS
    && (forall s: nat :: s < SUBKEYS ==>
          SubkeyBias(box, pairs, term, nybble, s) <= SubkeyBias(box, pairs, term, nybble, best))
    && (forall s: nat :: best < s < SUBKEYS ==>
          SubkeyBias(box, pairs, term, nybble, s) < SubkeyBias(box, pairs, term, nybble, best))
  }

  /** The bias is the distance between the pairs of zero parity and half of all pairs, and a pair has zero
      parity when its constant equals the tested bits' parity. */
  lemma BiasIs(box: SBox, pairs: seq<WordPair>, term: Terms, nybble: nat, subkey: nat, t: ParityTerm)
    requires nybble < NYBBLES && subkey < SUBKEYS
    ensures var count, half := DirectCount(box, pairs, term, nybble, subkey) as int, |pairs| / 2;
            SubkeyBias(box, pairs, term, nybble, subkey) == if count - half >= 0 then count - half else half - count
    ensures Agrees(box, t, nybble, subkey) <==>
            t.constant == Bits(F(box, Mix(t.word, Candidate(nybble, subkey))), InBits(nybble), 0)
  {
    hide DirectCount, F, Mix, Candidate, Bits;
  }

  lemma MostBiasedUnique(box: SBox, pairs: seq<WordPair>, term: Terms, nybble: nat, a: nat, b: nat)
    requires nybble < NYBBLES
    requires MostBiased(box, pairs, term, nybble, a) && MostBiased(box, pairs, term, nybble, b)
    ensures a == b
  {
    hide SubkeyBias;
    var x, y := SubkeyBias(box, pairs, term, nybble, a), SubkeyBias(box, pairs, term, nybble, b);
    assert x <= y && y <= x;
  }

  /** The tally of the groups with one constant. */
  ghost predicate Tallies(pairs: seq<WordPair>, term: Terms, nybble: nat, constant: bit, tally: seq<nat>)
    requires nybble < NYBBLES
  {
    |tally| == SUBKEYS && forall w :: 0 <= w < SUBKEYS ==> tally[w] == GroupSize(pairs, term, nybble, constant, w)
  }

  method Group(pairs: seq<WordPair>, term: Terms, nybble: nat) returns (zeros: seq<nat>, ones: seq<nat>)
    requires nybble < NYBBLES
    ensures Tallies(pairs, term, nybble, 0, zeros) && Tallies(pairs, term, nybble, 1, ones)
  {
    var grouped := new nat[2, SUBKEYS]((_, _) => 0);
    for i := 0 to |pairs|
      invariant forall c: bit, w: nat :: w < SUBKEYS ==> grouped[c, w] == GroupSize(pairs[..i], term, nybble, c, w)
    {
      hide Window;
      var t := term(pairs[i], nybble);
      var w := Window(nybble, t.word);
      InWindow(nybble, t.word);
      assert pairs[..i + 1][..i] == pairs[..i];
      grouped[t.constant, w] := grouped[t.constant, w] + 1;
    }
    assert pairs[..|pairs|] == pairs;
    zeros := seq(SUBKEYS, w requires 0 <= w < SUBKEYS reads grouped => grouped[0, w]);
    ones := seq(SUBKEYS, w requires 0 <= w < SUBKEYS reads grouped => grouped[1, w]);
  }

  method CountAgreeing(
    box: SBox, ghost pairs: seq<WordPair>, ghost term: Terms, nybble: nat, zeros: seq<nat>, ones: seq<nat>, subkey: nat)
    returns (count: nat)
    requires nybble < NYBBLES && subkey < SUBKEYS
    requires Tallies(pairs, term, nybble, 0, zeros) && Tallies(pairs, term, nybble, 1, ones)
    ensures count == DirectCount(box, pairs, term, nybble, subkey)
  {
    hide F, Candidate, Bits, DirectCount, GroupSize;
    count := 0;
    for window := 0 to SUBKEYS
      invariant count == GroupedCount(box, pairs, term, nybble, subkey, window)
    {
      var output := FFunction(box, Candidate(nybble, window), Candidate(nybble, subkey));
      var tested := Bits(output, InBits(nybble), 0);
      assert tested == Represented(box, nybble, window, subkey);
      count := count + if tested == 0 then zeros[window] else ones[window];
    }
    GroupedIsDirect(box, pairs, term, nybble, subkey);
  }

  method Agreeing(box: SBox, pairs: seq<WordPair>, term: Terms, nybble: nat) returns (agreeing: seq<nat>)
    requires nybble < NYBBLES
    ensures |agreeing| == SUBKEYS
    ensures forall s :: 0 <= s < SUBKEYS ==> agreeing[s] == DirectCount(box, pairs, term, nybble, s)
  {
    hide Tallies, DirectCount;
    var zeros, ones := Group(pairs, term, nybble);
    agreeing := [];
    for subkey := 0 to SUBKEYS
      invariant |agreeing| == subkey
      invariant forall s :: 0 <= s < subkey ==> agreeing[s] == DirectCount(box, pairs, term, nybble, s)
    {
      var count := CountAgreeing(box, pairs, term, nybble, zeros, ones, subkey);
      agreeing := agreeing + [count];
    }
  }

  method BestSubkey(box: SBox, pairs: seq<WordPair>, term: Terms, nybble: nat) returns (best: nat)
    requires nybble < NYBBLES
    ensures MostBiased(box, pairs, term, nybble, best)
  {
    hide DirectCount;
    var agreeing := Agreeing(box, pairs, term, nybble);
    var half := |pairs| / 2;
    best := 0;
    var bestBias := 0;
    for subkey := 0 to SUBKEYS
      invariant best < SUBKEYS
      invariant forall s: nat :: s < subkey ==> SubkeyBias(box, pairs, term, nybble, s) <= bestBias
      invariant forall s: nat :: best < s < subkey ==> SubkeyBias(box, pairs, term, nybble, s) < bestBias
      invariant subkey > 0 ==> best < subkey && bestBias == SubkeyBias(box, pairs, term, nybble, best)
      invariant subkey == 0 ==> bestBias == 0
    {
      var bias := Bias(agreeing[subkey], half);
      assert bias == SubkeyBias(box, pairs, term, nybble, subkey);
      if bias >= bestBias {
        best := subkey;
        bestBias := bias;
      }
    }
  }

  /** The key's nibble under the nybble's S-box. */
  function KeyNibble(key: nat, nybble: nat): nat
    requires nybble < NYBBLES
  {
    key / Scale(3 - nybble) % 0x10
  }

  ghost predicate Chosen(box: SBox, pairs: seq<WordPair>, term: Terms, n: nat, key: word16)
    requires n < NYBBLES
  {
    exists best: nat :: MostBiased(box, pairs, term, n, best) && KeyNibble(key, n) == best % 0x10
  }

  /** Each nibble of the key comes from its nybble's most biased subkey. */
  ghost predicate MostBiasedNibbles(box: SBox, pairs: seq<WordPair>, term: Terms, key: word16) {
    forall n :: 0 <= n < NYBBLES ==> Chosen(box, pairs, term, n, key)
  }

  /** The nibble is the low four bits of the key's own window. */
  lemma NibbleOfWindow(key: word16, nybble: nat)
    requires nybble < NYBBLES
    ensures KeyNibble(key, nybble) == Window(nybble, key) % 0x10
  {
    QuotientOfDoubled(key, 3 - nybble);
    hide Scale, Doubled;
    LowNibble(key / Scale(3 - nybble), Doubled(key) / Scale(3 - nybble));
  }

  lemma QuotientOfDoubled(key: word16, n: nat)
    requires n < NYBBLES
    ensures exists y: nat :: Doubled(key) / Scale(n) == key / Scale(n) + 0x10 * y
  {
    var k: nat := key;
    if n == 0 {
      assert Doubled(key) / 1 == k / 1 + 0x10 * (0x1000 * k);
    } else if n == 1 {
      assert Doubled(key) / 0x10 == k / 0x10 + 0x10 * (0x100 * k);
    } else if n == 2 {
      assert Doubled(key) / 0x100 == k / 0x100 + 0x10 * (0x10 * k);
    } else {
      assert Doubled(key) / 0x1000 == k / 0x1000 + 0x10 * k;
    }
  }

  lemma LowNibble(x: nat, z: nat)
    requires exists y: nat :: z == x + 0x10 * y
    ensures z % SUBKEYS % 0x10 == x % 0x10
  {
  }

  lemma Digit(q: nat, x: nat)
    requires x < 0x10
    ensures (0x10 * q + x) % 0x10 == x && (0x10 * q + x) / 0x10 == q
    ensures (0x10 * q + x) / 0x100 == q / 0x10 && (0x10 * q + x) / 0x1000 == q / 0x100
  {
  }

  lemma Cancel(t: nat)
    ensures t * 0x10 / 0x10 == t && t * 0x10 / 0x100 == t / 0x10 && t * 0x10 / 0x1000 == t / 0x100
    ensures t * 0x100 / 0x100 == t && t * 0x100 / 0x1000 == t / 0x10
    ensures t * 0x1000 / 0x1000 == t
  {
  }

  /** Filling in the nibble of nybble `n` leaves those above it. */
  lemma SetNibble(q: nat, n: nat, nibble: nat)
    requires n < NYBBLES && nibble < 0x10 && q < Scale(n)
    ensures var key, after := q * 0x10 * Scale(3 - n), (0x10 * q + nibble) * Scale(3 - n);
            && KeyNibble(after, n) == nibble
            && forall m :: 0 <= m < n ==> KeyNibble(after, m) == KeyNibble(key, m)
  {
    Digit(q, nibble);
    Digit(q, 0);
    Cancel(0x10 * q);
    Cancel(0x10 * q + nibble);
  }

  lemma StillChosen(box: SBox, pairs: seq<WordPair>, term: Terms, n: nat, key: word16, after: word16)
    requires n < NYBBLES && Chosen(box, pairs, term, n, key) && KeyNibble(after, n) == KeyNibble(key, n)
    ensures Chosen(box, pairs, term, n, after)
  {
  }

  method MostBiasedKey(box: SBox, pairs: seq<WordPair>, term: Terms) returns (key: word16)
    ensures MostBiasedNibbles(box, pairs, term, key)
  {
    hide MostBiased, KeyNibble;
    key := 0;
    ghost var q: nat := 0;
    for nybble := 0 to NYBBLES
      invariant q < Scale(nybble) && key == q * Scale(4 - nybble)
      invariant forall n :: 0 <= n < nybble ==> Chosen(box, pairs, term, n, key)
    {
      var best := BestSubkey(box, pairs, term, nybble);
      var nibble := best % 0x10;
      ghost var before := key;
      SetNibble(q, nybble, nibble);
      q := 0x10 * q + nibble;
      key := key + nibble * Scale(3 - nybble);
      forall n | 0 <= n < nybble
        ensures Chosen(box, pairs, term, n, key)
      {
        StillChosen(box, pairs, term, n, before, key);
      }
      assert Chosen(box, pairs, term, nybble, key);
    }
  }
}
