/** Byte buffers, their big-endian accessors (src/algorithms/protocol/bytes.h) and the
    bitwise exclusive or. Integers are unbounded here, so every width limit is written
    out, and `|` on disjoint bits, shifts and masks appear as sums, quotients and
    remainders by powers of two. */
module Bytes {

  const U8: nat := 0x100
  const U16: nat := 0x1_0000
  const U32: nat := 0x1_0000_0000
  const U64: nat := 0x1_0000_0000_0000_0000

  type byte = b: nat | b < 0x100
  type word16 = w: nat | w < 0x1_0000
  type word32 = w: nat | w < 0x1_0000_0000

  /** Unsigned arithmetic wraps round. */
  function Wrap8(x: int): byte {
    x % U8
  }

  function Wrap32(x: int): word32 {
    x % U32
  }

  lemma WrapsOnce(a: int, b: int)
    ensures Wrap8(Wrap8(a) + b) == Wrap8(a + b)
    ensures Wrap32(Wrap32(a) + b) == Wrap32(a + b)
  {
    WrapsOnce8(a, b);
    WrapsOnce32(a, b);
  }

  lemma WrapsOnce8(a: int, b: int)
    ensures (a % 0x100 + b) % 0x100 == (a + b) % 0x100
  {
    var q := a / 0x100;
    assert a + b == a % 0x100 + b + 0x100 * q;
  }

  lemma WrapsOnce32(a: int, b: int)
    ensures (a % 0x1_0000_0000 + b) % 0x1_0000_0000 == (a + b) % 0x1_0000_0000
  {
    var q := a / 0x1_0000_0000;
    assert a + b == a % 0x1_0000_0000 + b + 0x1_0000_0000 * q;
  }

  predicate FitsAt(bytes: seq<byte>, offset: nat, count: nat) {
    count <= |bytes| && offset <= |bytes| - count
  }

  /** Out-of-range reads give 0, as the readers promise. */
  function ReadU16Be(bytes: seq<byte>, offset: nat): word16 {
    if !FitsAt(bytes, offset, 2) then 0
    else bytes[offset] as int * 0x100 + bytes[offset + 1]
  }

  function ReadU32Be(bytes: seq<byte>, offset: nat): word32 {
    if !FitsAt(bytes, offset, 4) then 0
    else
      bytes[offset] as int * 0x100_0000 + bytes[offset + 1] as int * 0x1_0000
      + bytes[offset + 2] as int * 0x100 + bytes[offset + 3]
  }

  /** A read that does not fit in the buffer gives 0, and one that does weighs its bytes from the top. */
  lemma ReadsByBytes(bytes: seq<byte>, offset: nat)
    ensures offset + 2 > |bytes| ==> ReadU16Be(bytes, offset) == 0
    ensures offset + 2 <= |bytes| ==>
              ReadU16Be(bytes, offset) as int == bytes[offset] as int * 0x100 + bytes[offset + 1] as int
    ensures offset + 4 > |bytes| ==> ReadU32Be(bytes, offset) == 0
    ensures offset + 4 <= |bytes| ==>
              ReadU32Be(bytes, offset) as int == bytes[offset] as int * 0x100_0000 + bytes[offset + 1] as int * 0x1_0000
                                                 + bytes[offset + 2] as int * 0x100 + bytes[offset + 3] as int
  {
  }

  function EncodeU16Be(v: word16): (b: seq<byte>)
    ensures |b| == 2
    ensures ReadU16Be(b, 0) == v
  {
    [v / 0x100, v % 0x100]
  }

  function EncodeU32Be(v: word32): (b: seq<byte>)
    ensures |b| == 4
    ensures ReadU32Be(b, 0) == v
  {
    assert v / 0x1_0000 == v / 0x100_0000 * 0x100 + v / 0x1_0000 % 0x100;
    assert v / 0x100 == v / 0x1_0000 * 0x100 + v / 0x100 % 0x100;
    [v / 0x100_0000, v / 0x1_0000 % 0x100, v / 0x100 % 0x100, v % 0x100]
  }

  lemma EncodeReadU16Be(bytes: seq<byte>, offset: nat)
    requires FitsAt(bytes, offset, 2)
    ensures EncodeU16Be(ReadU16Be(bytes, offset)) == bytes[offset..offset + 2]
  {
  }

  lemma EncodeReadU32Be(bytes: seq<byte>, offset: nat)
    requires FitsAt(bytes, offset, 4)
    ensures EncodeU32Be(ReadU32Be(bytes, offset)) == bytes[offset..offset + 4]
  {
    DigitsOf(bytes[offset], bytes[offset + 1], bytes[offset + 2], bytes[offset + 3]);
  }

  lemma DigitsOf(a: byte, b: byte, c: byte, d: byte)
    ensures var v := a as int * 0x100_0000 + b as int * 0x1_0000 + c as int * 0x100 + d;
            && v / 0x100_0000 == a && v / 0x1_0000 % 0x100 == b && v / 0x100 % 0x100 == c && v % 0x100 == d
  {
    var v := a as int * 0x100_0000 + b as int * 0x1_0000 + c as int * 0x100 + d;
    assert v / 0x100 == a as int * 0x1_0000 + b as int * 0x100 + c;
    assert v / 0x1_0000 == a as int * 0x100 + b;
  }

  /** The bytes of `payload` from `offset` on, clipped to the buffer. */
  function OverwriteAt(out: seq<byte>, offset: nat, payload: seq<byte>): (r: seq<byte>)
    ensures |r| == |out|
    ensures forall i :: 0 <= i < |out| ==>
              r[i] == if offset <= i < offset + |payload| then payload[i - offset] else out[i]
  {
    if offset >= |out| then out
    else
      var count := if |payload| < |out| - offset then |payload| else |out| - offset;
      out[..offset] + payload[..count] + out[offset + count..]
  }

  method OverwriteInPlace(out: array<byte>, offset: nat, payload: seq<byte>)
    modifies out
    ensures out[..] == OverwriteAt(old(out[..]), offset, payload)
  {
    var i := 0;
    while i < |payload| && offset + i < out.Length
      invariant 0 <= i <= |payload|
      invariant forall k :: 0 <= k < out.Length ==>
                  out[k] == if offset <= k < offset + i then payload[k - offset] else old(out[k])
    {
      out[offset + i] := payload[i];
      i := i + 1;
    }
  }

  method WriteU16Be(out: array<byte>, offset: nat, value: word16)
    modifies out
    ensures out[..] == if FitsAt(old(out[..]), offset, 2)
                       then OverwriteAt(old(out[..]), offset, EncodeU16Be(value)) else old(out[..])
  {
    if !FitsAt(out[..], offset, 2) {
      return;
    }
    out[offset] := value / 0x100;
    out[offset + 1] := value % 0x100;
  }

  method WriteU32Be(out: array<byte>, offset: nat, value: word32)
    modifies out
    ensures out[..] == if FitsAt(old(out[..]), offset, 4)
                       then OverwriteAt(old(out[..]), offset, EncodeU32Be(value)) else old(out[..])
  {
    if !FitsAt(out[..], offset, 4) {
      return;
    }
    out[offset] := value / 0x100_0000;
    out[offset + 1] := value / 0x1_0000 % 0x100;
    out[offset + 2] := value / 0x100 % 0x100;
    out[offset + 3] := value % 0x100;
  }
}

/** Exclusive or as an operation on natural numbers, with the group and bit-field laws the
    ciphers and checksums rest on. */
module BitXor {

  function Xor(a: nat, b: nat): nat {
    if a == 0 && b == 0 then 0
    else (if a % 2 == b % 2 then 0 else 1) + 2 * Xor(a / 2, b / 2)
  }

  function Pow2(k: nat): (p: nat)
    ensures p > 0
  {
    if k == 0 then 1 else 2 * Pow2(k - 1)
  }

  lemma {:induction false} Pow2Sum(a: nat, b: nat)
    ensures Pow2(a + b) == Pow2(a) * Pow2(b)
  {
    if a > 0 {
      Pow2Sum(a - 1, b);
      TwiceProduct(Pow2(a - 1), Pow2(b));
      assert Pow2(a + b) == 2 * Pow2(a - 1 + b);
    }
  }

  lemma TwiceProduct(p: nat, q: nat)
    ensures 2 * (p * q) == (2 * p) * q
  {
  }

  lemma Pow2Values()
    ensures Pow2(4) == 0x10 && Pow2(5) == 0x20 && Pow2(8) == 0x100 && Pow2(16) == 0x1_0000
    ensures Pow2(32) == 0x1_0000_0000
  {
    assert Pow2(4) == 0x10;
    Pow2Sum(4, 4);
    Pow2Sum(8, 8);
    Pow2Sum(16, 16);
  }

  lemma {:induction false} XorSymmetric(a: nat, b: nat)
    ensures Xor(a, b) == Xor(b, a)
  {
    if a != 0 || b != 0 {
      XorSymmetric(a / 2, b / 2);
    }
  }

  lemma XorHalves(a: nat, b: nat)
    ensures Xor(a, b) % 2 == if a % 2 == b % 2 then 0 else 1
    ensures Xor(a, b) / 2 == Xor(a / 2, b / 2)
  {
  }

  lemma {:induction false} XorAssociative(a: nat, b: nat, c: nat)
    ensures Xor(Xor(a, b), c) == Xor(a, Xor(b, c))
    decreases a + b + c
  {
    if a != 0 || b != 0 || c != 0 {
      XorAssociative(a / 2, b / 2, c / 2);
      XorHalves(a, b);
      XorHalves(b, c);
    }
  }

  lemma {:induction false} XorIdentity(a: nat)
    ensures Xor(a, 0) == a
    ensures Xor(0, a) == a
    ensures Xor(a, a) == 0
  {
    if a != 0 {
      XorIdentity(a / 2);
    }
  }

  /** Every term has itself as its inverse. */
  lemma XorCancels(a: nat, b: nat)
    ensures Xor(a, Xor(a, b)) == b
    ensures Xor(Xor(b, a), a) == b
  {
    XorAssociative(a, a, b);
    XorAssociative(b, a, a);
    XorIdentity(a);
    XorIdentity(b);
  }

  lemma XorSwap(a: nat, b: nat, c: nat)
    ensures Xor(Xor(a, b), c) == Xor(Xor(a, c), b)
  {
    XorAssociative(a, b, c);
    XorAssociative(a, c, b);
    XorSymmetric(b, c);
  }

  lemma {:induction false} XorBound(a: nat, b: nat, k: nat)
    requires a < Pow2(k) && b < Pow2(k)
    ensures Xor(a, b) < Pow2(k)
  {
    if k > 0 {
      XorBound(a / 2, b / 2, k - 1);
    }
  }

  /** Xor works on bit fields independently. */
  lemma {:induction false} XorFields(a: nat, b: nat, c: nat, d: nat, k: nat)
    requires a < Pow2(k) && b < Pow2(k)
    ensures Xor(a + Pow2(k) * c, b + Pow2(k) * d) == Xor(a, b) + Pow2(k) * Xor(c, d)
  {
    if k > 0 {
      var p := Pow2(k - 1);
      HalfField(a, c, p);
      HalfField(b, d, p);
      XorFields(a / 2, b / 2, c, d, k - 1);
      DoubleField(Xor(a / 2, b / 2), Xor(c, d), p);
    }
  }

  lemma HalfField(a: nat, c: nat, p: nat)
    ensures (a + 2 * p * c) / 2 == a / 2 + p * c
    ensures (a + 2 * p * c) % 2 == a % 2
  {
    var q := p * c;
    assert 2 * p * c == 2 * q;
  }

  lemma DoubleField(x: nat, y: nat, p: nat)
    ensures 2 * (x + p * y) == 2 * x + 2 * p * y
  {
  }
}
