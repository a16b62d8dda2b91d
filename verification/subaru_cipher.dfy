/** The four-round cipher of Subaru ROM payloads (src/algorithms/crypto/subaru_key_recovery.cpp), for
    any S-box of 32 nibbles. */
module SubaruCipher {
  import opened Bytes
  import opened BitXor

  type SBox = s: seq<nat> | |s| == 0x20 && forall i :: 0 <= i < |s| ==> s[i] < 0x10
    witness seq(0x20, _ => 0)

  const NYBBLES: nat := 4
  const SUBKEYS: nat := 0x20
  const KEY_SPACE: nat := 0x1_0000

  function Mix(a: word16, b: word16): word16 {
    Pow2Values();
    XorBound(a, b, 16);
    Xor(a, b)
  }

  /** 16 to the power `n`. */
  function Scale(n: nat): nat
    requires n <= NYBBLES
  {
    if n == 0 then 1 else if n == 1 then 0x10 else if n == 2 then 0x100 else if n == 3 then 0x1000 else 0x1_0000
  }

  /** A word followed by itself, so that the topmost five-bit window wraps round. */
  function Doubled(v: word16): nat {
    v + 0x1_0000 * v
  }

  /** The five bits that S-box `n`, counted from the low end, reads. */
  function Index(v: word16, n: nat): (i: nat)
    requires n < NYBBLES
    ensures i < SUBKEYS
  {
    Doubled(v) / Scale(n) % SUBKEYS
  }

  /** The nibbles of the first `n` S-boxes in place. */
  function Substituted(box: SBox, v: word16, n: nat): (s: nat)
    requires n <= NYBBLES
    ensures s < Scale(n)
  {
    if n == 0 then 0 else Substituted(box, v, n - 1) + box[Index(v, n - 1)] * Scale(n - 1)
  }

  function RotateRight3(s: word16): word16 {
    s / 8 + s % 8 * 0x2000
  }

  /** The round function depends on the word and the key through their exclusive or alone. */
  function F(box: SBox, v: word16): word16 {
    RotateRight3(Substituted(box, v, NYBBLES))
  }

  method FFunction(box: SBox, word: word16, key: word16) returns (output: word16)
    ensures output == F(box, Mix(word, key))
  {
    var v := Mix(word, key);
    var substituted: nat := 0;
    for n := 0 to NYBBLES
      invariant substituted == Substituted(box, v, n)
    {
      substituted := substituted + box[Index(v, n)] * Scale(n);
    }
    output := RotateRight3(substituted);
  }

  // ---- Encryption -------------------------------------------------------------------------

  function High(word: word32): word16 {
    word / 0x1_0000
  }

  function Low(word: word32): word16 {
    word % 0x1_0000
  }

  function Join(high: word16, low: word16): word32 {
    high as int * 0x1_0000 + low
  }

  lemma Halves(high: word16, low: word16)
    ensures High(Join(high, low)) == high && Low(Join(high, low)) == low
  {
  }

  lemma Joined(word: word32)
    ensures Join(High(word), Low(word)) == word
  {
  }

  datatype Keys = Keys(k1: word16, k2: word16, k3: word16, k4: word16)

  function Round(box: SBox, word: word32, key: word16): word32 {
    Join(Low(word), Mix(High(word), F(box, Mix(Low(word), key))))
  }

  function SwapHalves(word: word32): word32 {
    Join(Low(word), High(word))
  }

  function Encrypted(box: SBox, plain: word32, keys: Keys): word32 {
    SwapHalves(Round(box, Round(box, Round(box, Round(box, plain, keys.k1), keys.k2), keys.k3), keys.k4))
  }

  method Encrypt(box: SBox, plain: word32, keys: Keys) returns (cipher: word32)
    ensures cipher == Encrypted(box, plain, keys)
  {
    hide F, Mix, High, Low, Join;
    var word := plain;
    var order := [keys.k1, keys.k2, keys.k3, keys.k4];
    for i := 0 to 4
      invariant word == Rounds(box, plain, order[..i])
    {
      assert order[..i + 1][..i] == order[..i];
      var f := FFunction(box, Low(word), order[i]);
      word := Join(Low(word), Mix(High(word), f));
    }
    FourRounds(box, plain, keys);
    assert order[..4] == order;
    cipher := Join(Low(word), High(word));
  }

  function Rounds(box: SBox, word: word32, keys: seq<word16>): word32 {
    if keys == [] then word else Round(box, Rounds(box, word, keys[..|keys| - 1]), keys[|keys| - 1])
  }

  lemma FourRounds(box: SBox, plain: word32, keys: Keys)
    ensures Encrypted(box, plain, keys) == SwapHalves(Rounds(box, plain, [keys.k1, keys.k2, keys.k3, keys.k4]))
  {
    hide Round, SwapHalves;
    var o1, o2, o3 := [keys.k1], [keys.k1, keys.k2], [keys.k1, keys.k2, keys.k3];
    var o4 := [keys.k1, keys.k2, keys.k3, keys.k4];
    assert o4[..3] == o3 && o3[..2] == o2 && o2[..1] == o1 && o1[..0] == [];
    assert Rounds(box, plain, o1) == Round(box, plain, keys.k1);
    assert Rounds(box, plain, o2) == Round(box, Rounds(box, plain, o1), keys.k2);
    assert Rounds(box, plain, o3) == Round(box, Rounds(box, plain, o2), keys.k3);
  }

  /** The inverse of one round. */
  function Unround(box: SBox, word: word32, key: word16): word32 {
    Join(Mix(Low(word), F(box, Mix(High(word), key))), High(word))
  }

  lemma RoundInverse(box: SBox, word: word32, key: word16)
    ensures Unround(box, Round(box, word, key), key) == word
    ensures Round(box, Unround(box, word, key), key) == word
  {
    hide F, Xor;
    var h, l := High(word), Low(word);
    var f, g := F(box, Mix(l, key)), F(box, Mix(h, key));
    Halves(l, Mix(h, f));
    Halves(Mix(l, g), h);
    Joined(word);
    hide High, Low, Join;
    XorCancels(f, h);
    XorCancels(g, l);
  }

  function Decrypted(box: SBox, cipher: word32, keys: Keys): word32 {
    Unround(box, Unround(box, Unround(box, Unround(box, SwapHalves(cipher), keys.k4), keys.k3), keys.k2), keys.k1)
  }

  /** Every key set makes encryption a bijection on 32-bit words. */
  lemma EncryptionInverse(box: SBox, word: word32, keys: Keys)
    ensures Decrypted(box, Encrypted(box, word, keys), keys) == word
    ensures Encrypted(box, Decrypted(box, word, keys), keys) == word
  {
    hide Round, Unround, SwapHalves;
    var r1 := Round(box, word, keys.k1);
    var r2 := Round(box, r1, keys.k2);
    var r3 := Round(box, r2, keys.k3);
    SwapsBack(Round(box, r3, keys.k4));
    RoundInverse(box, r3, keys.k4);
    RoundInverse(box, r2, keys.k3);
    RoundInverse(box, r1, keys.k2);
    RoundInverse(box, word, keys.k1);
    var u4 := Unround(box, SwapHalves(word), keys.k4);
    var u3 := Unround(box, u4, keys.k3);
    var u2 := Unround(box, u3, keys.k2);
    RoundInverse(box, u2, keys.k1);
    RoundInverse(box, u3, keys.k2);
    RoundInverse(box, u4, keys.k3);
    RoundInverse(box, SwapHalves(word), keys.k4);
    SwapsBack(word);
  }

  lemma SwapsBack(word: word32)
    ensures SwapHalves(SwapHalves(word)) == word
  {
    Halves(Low(word), High(word));
    Joined(word);
    hide High, Low, Join;
  }

  // ---- The middle rounds ------------------------------------------------------------------

  /** A pair's half after round 1, computed from the plaintext and k1. */
  function AfterRound1(box: SBox, plain: word32, k1: word16): word16 {
    Mix(High(plain), F(box, Mix(Low(plain), k1)))
  }

  /** A pair's half before round 4, computed from the ciphertext and k4. */
  function BeforeRound4(box: SBox, cipher: word32, k4: word16): word16 {
    Mix(High(cipher), F(box, Mix(Low(cipher), k4)))
  }

  /** The equation a pair puts on k2, and the one it puts on k3. */
  predicate SecondEquation(box: SBox, plain: word32, cipher: word32, keys: Keys) {
    F(box, Mix(AfterRound1(box, plain, keys.k1), keys.k2)) == Mix(BeforeRound4(box, cipher, keys.k4), Low(plain))
  }

  predicate ThirdEquation(box: SBox, plain: word32, cipher: word32, keys: Keys) {
    F(box, Mix(BeforeRound4(box, cipher, keys.k4), keys.k3)) == Mix(AfterRound1(box, plain, keys.k1), Low(cipher))
  }

  /** The middle half, as the rounds compute it from the plaintext. */
  function Middle(box: SBox, plain: word32, keys: Keys): word16 {
    Mix(Low(plain), F(box, Mix(AfterRound1(box, plain, keys.k1), keys.k2)))
  }

  /** The ciphertext's halves, written out. */
  lemma CipherHalves(box: SBox, plain: word32, keys: Keys)
    ensures var x2, m := AfterRound1(box, plain, keys.k1), Middle(box, plain, keys);
            var low := Mix(x2, F(box, Mix(m, keys.k3)));
            && Low(Encrypted(box, plain, keys)) == low
            && High(Encrypted(box, plain, keys)) == Mix(m, F(box, Mix(low, keys.k4)))
  {
    hide F, Mix, High, Low, Join;
    var x2, m := AfterRound1(box, plain, keys.k1), Middle(box, plain, keys);
    var low := Mix(x2, F(box, Mix(m, keys.k3)));
    var high := Mix(m, F(box, Mix(low, keys.k4)));
    Halves(Low(plain), x2);
    Halves(x2, m);
    Halves(m, low);
    Halves(low, high);
    Halves(high, low);
  }

  /** The four rounds written out: each new half mixes the round function of the last half and a key
      into the half before it, and the last two halves are the ciphertext, newest first. */
  lemma EncryptedByHalves(box: SBox, plain: word32, keys: Keys)
    ensures var l: word16, r: word16 := plain / 0x1_0000, plain % 0x1_0000;
            var x1 := Mix(l, F(box, Mix(r, keys.k1)));
            var x2 := Mix(r, F(box, Mix(x1, keys.k2)));
            var x3 := Mix(x1, F(box, Mix(x2, keys.k3)));
            var x4 := Mix(x2, F(box, Mix(x3, keys.k4)));
            Encrypted(box, plain, keys) as int == x4 as int * 0x1_0000 + x3
  {
    CipherHalves(box, plain, keys);
    Joined(Encrypted(box, plain, keys));
    hide F, Mix, Encrypted;
  }

  lemma MixLaws(a: word16, b: word16, c: word16)
    ensures Mix(Mix(a, b), b) == a && Mix(a, Mix(a, b)) == b
    ensures Mix(a, b) == Mix(b, a)
    ensures Mix(a, b) == c <==> Mix(a, c) == b
  {
    hide Xor;
    XorCancels(b, a);
    XorCancels(a, b);
    XorCancels(a, c);
    XorSymmetric(a, b);
  }

  /** A pair is reproduced exactly when it satisfies both middle equations. */
  lemma PairEquations(box: SBox, plain: word32, cipher: word32, keys: Keys)
    ensures Encrypted(box, plain, keys) == cipher <==>
            SecondEquation(box, plain, cipher, keys) && ThirdEquation(box, plain, cipher, keys)
  {
    hide F, Mix, Join, Encrypted, AfterRound1;
    CipherHalves(box, plain, keys);
    var x2, m := AfterRound1(box, plain, keys.k1), Middle(box, plain, keys);
    var f2 := F(box, Mix(x2, keys.k2));
    var x3 := BeforeRound4(box, cipher, keys.k4);
    var f3 := F(box, Mix(x3, keys.k3));
    var f4 := F(box, Mix(Low(cipher), keys.k4));
    Joined(cipher);
    Joined(Encrypted(box, plain, keys));
    hide High, Low;
    MixLaws(Low(plain), f2, x3);
    MixLaws(x3, Low(plain), f2);
    MixLaws(x2, f3, Low(cipher));
    MixLaws(m, f4, High(cipher));
    MixLaws(High(cipher), f4, m);
  }
}
