/** The reflash CRC (src/algorithms/checksum/checksum_primitives.cpp): a table-driven loop, and the
    bit-serial shift register it stands for. */
module Crc {
  import opened Bytes
  import opened BitXor

  const POLYNOMIAL: word32 := 0x5AA5A55A
  const ALL_ONES: word32 := 0xFFFF_FFFF

  /** One clock of the shift register: `bit` is compared with the bit shifted out. */
  function Clock(crc: nat, bit: nat): nat {
    if crc % 2 != bit % 2 then Xor(crc / 2, POLYNOMIAL) else crc / 2
  }

  /** The register after the low `n` bits of `data`, lowest first. */
  function Feed(crc: nat, data: nat, n: nat): nat
    decreases n
  {
    if n == 0 then crc else Feed(Clock(crc, data % 2), data / 2, n - 1)
  }

  /** The register after the first `n` bytes of a message. */
  function Register(data: seq<byte>, n: nat): nat
    requires n <= |data|
  {
    if n == 0 then ALL_ONES else Feed(Register(data, n - 1), data[n - 1], 8)
  }

  /** The CRC of a message, one bit at a time. */
  function BitSerial(data: seq<byte>): nat {
    Xor(Register(data, |data|), ALL_ONES)
  }

  lemma Word32Xor(a: word32, b: word32)
    ensures Xor(a, b) < U32
  {
    Pow2Values();
    hide Xor, Pow2;
    XorBound(a, b, 32);
  }

  lemma ClockBound(crc: word32, bit: nat)
    ensures Clock(crc, bit) < U32
  {
    Word32Xor(crc / 2, POLYNOMIAL);
  }

  lemma {:induction false} FeedBound(crc: word32, data: nat, n: nat)
    ensures Feed(crc, data, n) < U32
    decreases n
  {
    if n > 0 {
      ClockBound(crc, data % 2);
      FeedBound(Clock(crc, data % 2), data / 2, n - 1);
    }
  }

  /** Feeding data is clocking zeros through the register with the data mixed in. */
  lemma {:induction false} FeedMixed(crc: nat, data: nat, n: nat)
    requires data < Pow2(n)
    ensures Feed(crc, data, n) == Feed(Xor(crc, data), 0, n)
    decreases n
  {
    hide Xor;
    if n == 0 {
      XorIdentity(crc);
    } else {
      XorHalves(crc, data);
      var c := Clock(crc, data % 2);
      FeedMixed(c, data / 2, n - 1);
      XorSwap(crc / 2, POLYNOMIAL, data / 2);
    }
  }

  /** Clocking zeros is linear. */
  lemma {:induction false} FeedLinear(a: nat, b: nat, n: nat)
    ensures Feed(Xor(a, b), 0, n) == Xor(Feed(a, 0, n), Feed(b, 0, n))
    decreases n
  {
    if n > 0 {
      ClockLinear(a, b);
      FeedLinear(Clock(a, 0), Clock(b, 0), n - 1);
    }
  }

  lemma ClockLinear(a: nat, b: nat)
    ensures Clock(Xor(a, b), 0) == Xor(Clock(a, 0), Clock(b, 0))
  {
    hide Xor;
    var p, q := a / 2, b / 2;
    XorHalves(a, b);
    XorAssociative(p, q, POLYNOMIAL);
    XorSwap(p, q, POLYNOMIAL);
    if a % 2 != 0 && b % 2 != 0 {
      XorSymmetric(q, POLYNOMIAL);
      XorAssociative(p, POLYNOMIAL, Xor(POLYNOMIAL, q));
      XorCancels(POLYNOMIAL, q);
    }
  }

  /** Zeros shift high bits down unchanged. */
  lemma {:induction false} FeedShift(y: nat, n: nat)
    ensures Feed(Pow2(n) * y, 0, n) == y
    decreases n
  {
    if n > 0 {
      hide Xor, Clock;
      var half := Pow2(n - 1) * y;
      TwiceProduct(Pow2(n - 1), y);
      FeedShift(y, n - 1);
      ZeroClock(half);
      assert Feed(2 * half, 0, n) == Feed(Clock(2 * half, 0), 0, n - 1);
    } else {
      assert Pow2(0) * y == y;
    }
  }

  lemma ZeroClock(half: nat)
    ensures Clock(2 * half, 0) == half
  {
    hide Xor;
  }

  /** One table lookup is eight clocks. */
  lemma TableStep(crc: nat, b: byte)
    ensures Feed(crc, b, 8) == Xor(Feed(0, Xor(crc, b) % U8, 8), crc / U8)
  {
    hide Feed, Xor, Pow2;
    Pow2Values();
    var x := Xor(crc, b);
    var low, high := x % U8, x / U8;
    FeedMixed(crc, b, 8);
    FeedMixed(0, low, 8);
    XorIdentity(low);
    SplitByte(low, high);
    FeedLinear(low, U8 * high, 8);
    FeedShift(high, 8);
    HighBits(crc, b);
  }

  lemma SplitByte(low: nat, high: nat)
    requires low < U8
    ensures low + U8 * high == Xor(low, U8 * high)
  {
    hide Xor, Pow2;
    Pow2Values();
    XorFields(low, 0, 0, high, 8);
    XorIdentity(low);
    XorIdentity(high);
  }

  lemma HighBits(crc: nat, b: byte)
    ensures Xor(crc, b) / U8 == crc / U8
  {
    hide Xor, Pow2;
    Pow2Values();
    XorFields(crc % U8, b, crc / U8, 0, 8);
    XorIdentity(crc / U8);
    XorBound(crc % U8, b, 8);
    assert crc == crc % U8 + U8 * (crc / U8);
  }

  /** The eight-step loop behind one table entry. */
  method TableEntry(i: nat) returns (crc: word32)
    ensures crc == Feed(0, i, 8)
  {
    hide Xor;
    crc := 0;
    var c := i;
    for j := 0 to 8
      invariant Feed(crc, c, 8 - j) == Feed(0, i, 8)
    {
      ClockBound(crc, c);
      crc := if crc % 2 != c % 2 then Xor(crc / 2, POLYNOMIAL) else crc / 2;
      c := c / 2;
    }
  }

  method MakeCrcTable() returns (table: array<word32>)
    ensures table.Length == 0x100
    ensures forall i :: 0 <= i < 0x100 ==> table[i] == Feed(0, i, 8)
  {
    hide Feed;
    table := new word32[0x100](_ => 0);
    for i := 0 to 0x100
      invariant forall k :: 0 <= k < i ==> table[k] == Feed(0, k, 8)
    {
      var entry := TableEntry(i);
      table[i] := entry;
    }
  }

  /** The table-driven loop computes the bit-serial CRC of every message. */
  method Crc32(table: array<word32>, data: seq<byte>) returns (crc: word32)
    requires table.Length == 0x100 && forall i :: 0 <= i < 0x100 ==> table[i] == Feed(0, i, 8)
    ensures crc == BitSerial(data)
  {
    hide Xor, Feed;
    crc := ALL_ONES;
    for i := 0 to |data|
      invariant crc == Register(data, i)
    {
      TableStep(crc, data[i]);
      FeedBound(crc, data[i], 8);
      crc := Xor(table[Xor(crc, data[i]) % 0x100], crc / 0x100);
    }
    Word32Xor(crc, ALL_ONES);
    crc := Xor(crc, ALL_ONES);
  }

  // ---- Check values -----------------------------------------------------------------------

  /** A lone top bit leaves the polynomial in the register: entry 0x80 of the table. */
  lemma TopBitEntry()
    ensures Feed(0, 0x80, 8) == 0x5AA5A55A
  {
    hide Xor;
    FeedEven(0x40, 7);
    FeedEven(0x20, 6);
    FeedEven(0x10, 5);
    FeedEven(8, 4);
    FeedEven(4, 3);
    FeedEven(2, 2);
    FeedEven(1, 1);
    XorIdentity(0x5AA5A55A);
    assert Feed(0, 1, 1) == Feed(Clock(0, 1), 0, 0) == Xor(0, 0x5AA5A55A);
  }

  /** Zero bits leave an empty register empty. */
  lemma FeedEven(data: nat, n: nat)
    ensures Feed(0, 2 * data, n + 1) == Feed(0, data, n)
  {
    hide Xor;
    assert Clock(0, 0) == 0;
  }

  /** The empty message has CRC 0, and the byte 0x7F, which meets the initial ones in the top bit alone, the
      polynomial with its top byte turned over. */
  lemma CheckValues()
    ensures BitSerial([]) == 0 && BitSerial([0x7F]) == 0xA5A5A55A
  {
    XorIdentity(0xFFFF_FFFF);
    OneByte();
  }

  lemma OneByte()
    ensures BitSerial([0x7F]) == 0xA5A5A55A
  {
    hide Xor;
    TableStep(0xFFFF_FFFF, 0x7F);
    TopBitEntry();
    assert Xor(0xFFFF_FFFF, 0x7F) % 0x100 == 0x80 && Xor(0x5AA5A55A, 0x00FF_FFFF) == 0x5A5A5AA5
        && Xor(0x5A5A5AA5, 0xFFFF_FFFF) == 0xA5A5A55A by {
      CheckXors();
    }
    var message := [0x7F];
    assert Register(message, 0) == 0xFFFF_FFFF;
    assert Register(message, 1) == Feed(0xFFFF_FFFF, 0x7F, 8) == 0x5A5A5AA5;
  }

  lemma CheckXors()
    ensures Xor(0xFFFF_FFFF, 0x7F) % 0x100 == 0x80
    ensures Xor(0x5AA5A55A, 0x00FF_FFFF) == 0x5A5A5AA5 && Xor(0x5A5A5AA5, 0xFFFF_FFFF) == 0xA5A5A55A
  {
    hide Xor;
    Pow2Values();
    Pow2Sum(8, 16);
    hide Pow2;
    XorOnes(0x7F, 32);
    XorSymmetric(0xFFFF_FFFF, 0x7F);
    XorOnes(0x5A5A5AA5, 32);
    XorOnes(0xA5A55A, 24);
    XorFields(0xA5A55A, 0xFF_FFFF, 0x5A, 0, 24);
    XorIdentity(0x5A);
  }

  lemma {:induction false} XorOnes(x: nat, k: nat)
    requires x < Pow2(k)
    ensures Xor(x, Pow2(k) - 1) == Pow2(k) - 1 - x
  {
    if k > 0 {
      XorOnes(x / 2, k - 1);
      XorHalves(x, Pow2(k) - 1);
    }
  }
}
