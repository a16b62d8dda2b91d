/** The middle-round votes and the recovery as a whole
    (src/algorithms/crypto/subaru_key_recovery.cpp). */
module KeyRecovery {
  import opened Results
  import opened Bytes
  import opened SubaruCipher
  import opened KeyStatistics
  import FunctionInverse

  const ANALYZED_BYTES: nat := 0x2_0000

  datatype Failure = InputTooShort | NoMatchingKey

  /** F under the zero key, as a function on [0, KEY_SPACE). */
  function KeylessF(box: SBox): nat -> nat {
    (v: nat) => if v < KEY_SPACE then F(box, v) else 0
  }

  // ---- The majority vote ------------------------------------------------------------------

  /** One pair's constraint on a middle-round key. */
  datatype Equation = Equation(input: word16, output: word16)

  predicate Satisfies(box: SBox, equation: Equation, key: word16) {
    F(box, Mix(equation.input, key)) == equation.output
  }

  /** How many of the equations a key satisfies. */
  function Satisfied(box: SBox, equations: seq<Equation>, key: word16): (count: nat)
    ensures count <= |equations|
  {
    if equations == [] then 0
    else
      Satisfied(box, equations[..|equations| - 1], key)
      + if Satisfies(box, equations[|equations| - 1], key) then 1 else 0
  }

  /** An equation's voters are the keys that satisfy it. */
  lemma VotersAre(box: SBox, index: FunctionInverse.Index, equation: Equation, key: word16)
    requires FunctionInverse.Inverts(index, KeylessF(box), KEY_SPACE)
    ensures FunctionInverse.HasRun(index, equation.output)
    ensures Mix(equation.input, key) in FunctionInverse.Lookup(index, equation.output)
            <==> Satisfies(box, equation, key)
  {
    hide F, Mix, FunctionInverse.Lookup;
    FunctionInverse.LookupExact(index, KeylessF(box), KEY_SPACE, equation.output);
    var list := FunctionInverse.Lookup(index, equation.output);
    var v := Mix(equation.input, key);
    if v in list {
      var i :| 0 <= i < |list| && list[i] == v;
    }
  }

  /** Which keys a list of differences votes for. */
  predicate VotedBy(list: seq<nat>, input: word16, key: nat) {
    key < KEY_SPACE && Mix(input, key) in list
  }

  method CastVotes(votes: array<nat>, input: word16, list: seq<nat>)
    requires votes.Length == KEY_SPACE
    requires forall i :: 0 <= i < |list| ==> list[i] < KEY_SPACE
    requires forall i, j :: 0 <= i < j < |list| ==> list[i] < list[j]
    modifies votes
    ensures forall k :: 0 <= k < KEY_SPACE ==>
              votes[k] == old(votes[k]) + if VotedBy(list, input, k) then 1 else 0
  {
    for i := 0 to |list|
      invariant forall k :: 0 <= k < KEY_SPACE ==>
                  votes[k] == old(votes[k]) + if VotedBy(list[..i], input, k) then 1 else 0
    {
      hide Mix;
      var v: word16 := list[i];
      forall k: nat | k < KEY_SPACE
        ensures VotedBy(list[..i + 1], input, k) <==> VotedBy(list[..i], input, k) || k == Mix(input, v)
        ensures k == Mix(input, v) ==> !VotedBy(list[..i], input, k)
      {
        MixLaws(input, v, k);
        MixLaws(input, k, v);
        assert list[..i + 1] == list[..i] + [v];
      }
      votes[Mix(input, v)] := votes[Mix(input, v)] + 1;
    }
    assert list[..|list|] == list;
  }

  method CountVotes(box: SBox, equations: seq<Equation>, index: FunctionInverse.Index) returns (votes: array<nat>)
    requires FunctionInverse.Inverts(index, KeylessF(box), KEY_SPACE)
    ensures votes.Length == KEY_SPACE
    ensures forall k: word16 :: votes[k] == Satisfied(box, equations, k)
  {
    hide Mix, F, FunctionInverse.HasRun, FunctionInverse.Lookup, FunctionInverse.Inverts, Satisfies;
    votes := new nat[KEY_SPACE](_ => 0);
    for i := 0 to |equations|
      invariant forall k: word16 :: votes[k] == Satisfied(box, equations[..i], k)
    {
      var equation := equations[i];
      FunctionInverse.LookupExact(index, KeylessF(box), KEY_SPACE, equation.output);
      var list := FunctionInverse.Lookup(index, equation.output);
      assert equations[..i + 1][..i] == equations[..i];
      CastVotes(votes, equation.input, list);
      forall k: word16
        ensures VotedBy(list, equation.input, k) <==> Satisfies(box, equation, k)
      {
        VotersAre(box, index, equation, k);
      }
    }
    assert equations[..|equations|] == equations;
  }

  /** The key satisfying the most equations, the lowest on a tie. */
  ghost predicate Winner(box: SBox, equations: seq<Equation>, key: word16) {
    && (forall k: word16 :: Satisfied(box, equations, k) <= Satisfied(box, equations, key))
    && (forall k: word16 :: k < key ==> Satisfied(box, equations, k) < Satisfied(box, equations, key))
  }

  ghost predicate Majority(box: SBox, equations: seq<Equation>, key: word16) {
    2 * Satisfied(box, equations, key) > |equations|
  }

  method MajorityKey(box: SBox, equations: seq<Equation>, index: FunctionInverse.Index)
    returns (r: Result<word16, Failure>)
    requires FunctionInverse.Inverts(index, KeylessF(box), KEY_SPACE)
    ensures r.Ok? ==> Winner(box, equations, r.value) && Majority(box, equations, r.value)
    ensures r.Err? ==> r.error == NoMatchingKey && forall k: word16 :: !Majority(box, equations, k)
  {
    hide Satisfied;
    var votes := CountVotes(box, equations, index);
    var winner: word16 := 0;
    for k := 1 to KEY_SPACE
      invariant 0 <= winner < k
      invariant forall j: nat :: j < k ==> votes[j] <= votes[winner]
      invariant forall j: nat :: j < winner ==> votes[j] < votes[winner]
    {
      if votes[k] > votes[winner] {
        winner := k;
      }
    }
    if votes[winner] * 2 <= |equations| {
      r := Err(NoMatchingKey);
    } else {
      r := Ok(winner);
    }
  }

  // ---- Distinct pairs ---------------------------------------------------------------------

  function PairAt(plain: seq<byte>, cipher: seq<byte>, i: nat): WordPair {
    WordPair(ReadU32Be(plain, 4 * i), ReadU32Be(cipher, 4 * i))
  }

  /** The plaintext word at `i` occurs nowhere before it. */
  predicate FirstSeen(plain: seq<byte>, i: nat) {
    forall j: nat :: j < i ==> ReadU32Be(plain, 4 * j) != ReadU32Be(plain, 4 * i)
  }

  /** The pairs among the first `n` words whose plaintext word is new, in order. */
  function NewPairs(plain: seq<byte>, cipher: seq<byte>, n: nat): seq<WordPair> {
    if n == 0 then []
    else if FirstSeen(plain, n - 1) then NewPairs(plain, cipher, n - 1) + [PairAt(plain, cipher, n - 1)]
    else NewPairs(plain, cipher, n - 1)
  }

  /** Every plaintext word of the first `n` is there once, with the ciphertext word of its first
      place. */
  ghost predicate EachOnce(pairs: seq<WordPair>, plain: seq<byte>, cipher: seq<byte>, n: nat) {
    && (forall i, j :: 0 <= i < j < |pairs| ==> pairs[i].plain != pairs[j].plain)
    && (forall p :: p in pairs ==> exists i: nat :: i < n && FirstSeen(plain, i) && p == PairAt(plain, cipher, i))
    && (forall i: nat :: i < n && FirstSeen(plain, i) ==> PairAt(plain, cipher, i) in pairs)
  }

  lemma {:induction false} NewPairsExact(plain: seq<byte>, cipher: seq<byte>, n: nat)
    ensures EachOnce(NewPairs(plain, cipher, n), plain, cipher, n)
  {
    if n > 0 {
      hide ReadU32Be;
      NewPairsExact(plain, cipher, n - 1);
      if FirstSeen(plain, n - 1) {
        var before := NewPairs(plain, cipher, n - 1);
        forall i | 0 <= i < |before|
          ensures before[i].plain != ReadU32Be(plain, 4 * (n - 1))
        {
          assert before[i] in before;
          var k: nat :| k < n - 1 && FirstSeen(plain, k) && before[i] == PairAt(plain, cipher, k);
          assert ReadU32Be(plain, 4 * k) != ReadU32Be(plain, 4 * (n - 1));
        }
      }
    }
  }

  /** The same told from the bytes: every pair is a first occurrence, four bytes apart and most significant
      first, and every first occurrence is a pair. */
  lemma PairsByBytes(plain: seq<byte>, cipher: seq<byte>, i: nat)
    requires 4 * i + 4 <= |plain| && 4 * i + 4 <= |cipher|
    ensures var at := 4 * i;
            var p := plain[at] as int * 0x100_0000 + plain[at + 1] as int * 0x1_0000 + plain[at + 2] as int * 0x100
                     + plain[at + 3] as int;
            var c := cipher[at] as int * 0x100_0000 + cipher[at + 1] as int * 0x1_0000 + cipher[at + 2] as int * 0x100
                     + cipher[at + 3] as int;
            PairAt(plain, cipher, i) == WordPair(p, c)
    ensures FirstSeen(plain, i) <==> forall j: nat :: j < i ==> FourBytes(plain, j) != FourBytes(plain, i)
  {
    forall j: nat | j < i
      ensures ReadU32Be(plain, 4 * j) == ReadU32Be(plain, 4 * i) <==> FourBytes(plain, j) == FourBytes(plain, i)
    {
      SameWord(plain, 4 * j, 4 * i);
    }
    hide ReadU32Be;
    if forall j: nat :: j < i ==> FourBytes(plain, j) != FourBytes(plain, i) {
      forall j: nat | j < i
        ensures ReadU32Be(plain, 4 * j) != ReadU32Be(plain, 4 * i)
      {
        assert FourBytes(plain, j) != FourBytes(plain, i);
      }
    }
  }

  function FourBytes(bytes: seq<byte>, i: nat): seq<byte>
    requires 4 * i + 4 <= |bytes|
  {
    bytes[4 * i..4 * i + 4]
  }

  lemma SameWord(plain: seq<byte>, i: nat, j: nat)
    requires i + 4 <= |plain| && j + 4 <= |plain|
    ensures ReadU32Be(plain, i) == ReadU32Be(plain, j) <==> plain[i..i + 4] == plain[j..j + 4]
  {
    EncodeReadU32Be(plain, i);
    EncodeReadU32Be(plain, j);
    hide EncodeU32Be;
    var a, b := plain[i..i + 4], plain[j..j + 4];
    if a == b {
      assert a[0] == b[0] && a[1] == b[1] && a[2] == b[2] && a[3] == b[3];
    }
  }

  method DistinctPairs(plain: seq<byte>, cipher: seq<byte>) returns (pairs: seq<WordPair>)
    ensures pairs == NewPairs(plain, cipher, 0x8000)
  {
    pairs := [];
    var seen: set<word32> := {};
    var offset: nat := 0;
    while offset < ANALYZED_BYTES
      invariant offset <= ANALYZED_BYTES && offset % 4 == 0
      invariant pairs == NewPairs(plain, cipher, offset / 4)
      invariant forall w: word32 :: w in seen <==> exists j: nat :: j < offset / 4 && ReadU32Be(plain, 4 * j) == w
    {
      hide ReadU32Be;
      ghost var i := offset / 4;
      assert offset == 4 * i;
      var word := ReadU32Be(plain, offset);
      if word !in seen {
        assert FirstSeen(plain, i);
        seen := seen + {word};
        pairs := pairs + [WordPair(word, ReadU32Be(cipher, offset))];
      }
      offset := offset + 4;
      assert offset / 4 == i + 1;
    }
  }

  // ---- The two linear approximations ------------------------------------------------------

  /** A pair's parity term for k4. */
  function LastRoundTerm(pair: WordPair, n: Nybble): ParityTerm {
    var p := Parity(Bits(pair.plain, InBits(n), 0), Bits(pair.plain, OutBits(n), 0));
    var c := Bits(pair.cipher, OutBits(n), 16);
    ParityTerm(Parity(Parity(p, c), Bits(High(pair.cipher), InBits(n), 0)), Low(pair.cipher))
  }

  /** A pair's parity term for k1, once k4 is known. */
  function FirstRoundTerm(box: SBox, k4: word16): Terms {
    (pair: WordPair, n: Nybble) =>
      var x3 := BeforeRound4(box, pair.cipher, k4);
      var p := Bits(pair.plain, OutBits(n), 16);
      var c := Bits(x3, OutBits(n), 16);
      ParityTerm(Parity(Parity(p, c), Bits(High(pair.plain), InBits(n), 0)), Low(pair.plain))
  }

  /** Under a candidate k4 the term's parity is the approximation over the half before round 4. */
  lemma LastRoundParity(box: SBox, pair: WordPair, n: Nybble, key: word16)
    ensures var p := Parity(Bits(pair.plain, InBits(n), 0), Bits(pair.plain, OutBits(n), 0));
            var c := Bits(pair.cipher, OutBits(n), 16);
            var t := LastRoundTerm(pair, n);
            Parity(t.constant, Tested(box, n, t.word, key))
            == Parity(Parity(p, c), Bits(BeforeRound4(box, pair.cipher, key), InBits(n), 0))
  {
    hide F, Mix, Bits, High, Low, InBits, OutBits;
    BitsLinear(High(pair.cipher), F(box, Mix(Low(pair.cipher), key)), InBits(n), 0);
  }

  /** Under a candidate k1 the term's parity is the approximation over the half after round 1. */
  lemma FirstRoundParity(box: SBox, pair: WordPair, n: Nybble, k4: word16, key: word16)
    ensures var p := Bits(pair.plain, OutBits(n), 16);
            var c := Bits(BeforeRound4(box, pair.cipher, k4), OutBits(n), 16);
            var t := FirstRoundTerm(box, k4)(pair, n);
            Parity(t.constant, Tested(box, n, t.word, key))
            == Parity(Parity(p, c), Bits(AfterRound1(box, pair.plain, key), InBits(n), 0))
  {
    hide F, Mix, Bits, High, Low, InBits, OutBits, BeforeRound4;
    BitsLinear(High(pair.plain), F(box, Mix(Low(pair.plain), key)), InBits(n), 0);
  }

  /** k4 and k1 are the statistical choices. */
  ghost predicate OuterKeys(box: SBox, pairs: seq<WordPair>, k1: word16, k4: word16) {
    && MostBiasedNibbles(box, pairs, LastRoundTerm, k4)
    && MostBiasedNibbles(box, pairs, FirstRoundTerm(box, k4), k1)
  }

  /** The statistics leave no choice of k1 and k4. */
  lemma OuterKeysUnique(box: SBox, pairs: seq<WordPair>, k1: word16, k4: word16, k1': word16, k4': word16)
    requires OuterKeys(box, pairs, k1, k4) && OuterKeys(box, pairs, k1', k4')
    ensures k1 == k1' && k4 == k4'
  {
    NibblesUnique(box, pairs, LastRoundTerm, k4, k4');
    NibblesUnique(box, pairs, FirstRoundTerm(box, k4), k1, k1');
  }

  lemma NibblesUnique(box: SBox, pairs: seq<WordPair>, term: Terms, a: word16, b: word16)
    requires MostBiasedNibbles(box, pairs, term, a) && MostBiasedNibbles(box, pairs, term, b)
    ensures a == b
  {
    hide MostBiased;
    forall n | 0 <= n < NYBBLES
      ensures KeyNibble(a, n) == KeyNibble(b, n)
    {
      assert Chosen(box, pairs, term, n, a) && Chosen(box, pairs, term, n, b);
      var s: nat :| MostBiased(box, pairs, term, n, s) && KeyNibble(a, n) == s % 0x10;
      var t: nat :| MostBiased(box, pairs, term, n, t) && KeyNibble(b, n) == t % 0x10;
      MostBiasedUnique(box, pairs, term, n, s, t);
    }
    SameNibbles(a, b);
  }

  lemma SameNibbles(a: word16, b: word16)
    requires forall n :: 0 <= n < NYBBLES ==> KeyNibble(a, n) == KeyNibble(b, n)
    ensures a == b
  {
    FromNibbles(a);
    FromNibbles(b);
    hide KeyNibble;
  }

  lemma FromNibbles(a: word16)
    ensures a as int == KeyNibble(a, 0) * 0x1000 + KeyNibble(a, 1) * 0x100 + KeyNibble(a, 2) * 0x10 + KeyNibble(a, 3)
  {
    assert a / 0x100 == a / 0x1000 * 0x10 + a / 0x100 % 0x10;
    assert a / 0x10 == a / 0x100 * 0x10 + a / 0x10 % 0x10;
  }

  // ---- The middle rounds ------------------------------------------------------------------

  function SecondOf(box: SBox, pair: WordPair, k1: word16, k4: word16): Equation {
    var x2, x3 := AfterRound1(box, pair.plain, k1), BeforeRound4(box, pair.cipher, k4);
    Equation(x2, Mix(x3, Low(pair.plain)))
  }

  function ThirdOf(box: SBox, pair: WordPair, k1: word16, k4: word16): Equation {
    var x2, x3 := AfterRound1(box, pair.plain, k1), BeforeRound4(box, pair.cipher, k4);
    Equation(x3, Mix(x2, Low(pair.cipher)))
  }

  function SecondEquations(box: SBox, pairs: seq<WordPair>, k1: word16, k4: word16): (e: seq<Equation>)
    ensures |e| == |pairs|
  {
    if pairs == [] then []
    else SecondEquations(box, pairs[..|pairs| - 1], k1, k4) + [SecondOf(box, pairs[|pairs| - 1], k1, k4)]
  }

  function ThirdEquations(box: SBox, pairs: seq<WordPair>, k1: word16, k4: word16): (e: seq<Equation>)
    ensures |e| == |pairs|
  {
    if pairs == [] then []
    else ThirdEquations(box, pairs[..|pairs| - 1], k1, k4) + [ThirdOf(box, pairs[|pairs| - 1], k1, k4)]
  }

  /** How many pairs the keys reproduce. */
  function Reproduced(box: SBox, pairs: seq<WordPair>, keys: Keys): (count: nat)
    ensures count <= |pairs|
  {
    if pairs == [] then 0
    else
      var last := pairs[|pairs| - 1];
      Reproduced(box, pairs[..|pairs| - 1], keys) + if Encrypted(box, last.plain, keys) == last.cipher then 1 else 0
  }

  function SecondVotes(box: SBox, pairs: seq<WordPair>, keys: Keys): nat {
    Satisfied(box, SecondEquations(box, pairs, keys.k1, keys.k4), keys.k2)
  }

  function ThirdVotes(box: SBox, pairs: seq<WordPair>, keys: Keys): nat {
    Satisfied(box, ThirdEquations(box, pairs, keys.k1, keys.k4), keys.k3)
  }

  /** One pair's votes, and whether the keys reproduce it. */
  lemma OnePairVotes(box: SBox, pair: WordPair, keys: Keys)
    ensures Encrypted(box, pair.plain, keys) == pair.cipher <==>
            && Satisfies(box, SecondOf(box, pair, keys.k1, keys.k4), keys.k2)
            && Satisfies(box, ThirdOf(box, pair, keys.k1, keys.k4), keys.k3)
  {
    hide F, Mix, Low, Encrypted, AfterRound1, BeforeRound4;
    PairEquations(box, pair.plain, pair.cipher, keys);
  }

  lemma VotesStep(box: SBox, pairs: seq<WordPair>, keys: Keys)
    requires pairs != []
    ensures var before, last := pairs[..|pairs| - 1], pairs[|pairs| - 1];
            && SecondVotes(box, pairs, keys) == SecondVotes(box, before, keys)
               + (if Satisfies(box, SecondOf(box, last, keys.k1, keys.k4), keys.k2) then 1 else 0)
            && ThirdVotes(box, pairs, keys) == ThirdVotes(box, before, keys)
               + (if Satisfies(box, ThirdOf(box, last, keys.k1, keys.k4), keys.k3) then 1 else 0)
  {
    hide Satisfies, SecondOf, ThirdOf;
    var before, last := pairs[..|pairs| - 1], pairs[|pairs| - 1];
    var second, third := SecondEquations(box, pairs, keys.k1, keys.k4), ThirdEquations(box, pairs, keys.k1, keys.k4);
    assert second[..|second| - 1] == SecondEquations(box, before, keys.k1, keys.k4);
    assert third[..|third| - 1] == ThirdEquations(box, before, keys.k1, keys.k4);
  }

  /** The pairs outside both votes are at most the rest, and full votes reproduce every pair. */
  lemma {:induction false} VotesReproduce(box: SBox, pairs: seq<WordPair>, keys: Keys)
    ensures Reproduced(box, pairs, keys) + |pairs| >= SecondVotes(box, pairs, keys) + ThirdVotes(box, pairs, keys)
    ensures Reproduced(box, pairs, keys) <= SecondVotes(box, pairs, keys)
    ensures Reproduced(box, pairs, keys) <= ThirdVotes(box, pairs, keys)
  {
    hide Encrypted, Satisfies, SecondOf, ThirdOf, SecondVotes, ThirdVotes;
    if pairs != [] {
      VotesReproduce(box, pairs[..|pairs| - 1], keys);
      VotesStep(box, pairs, keys);
      OnePairVotes(box, pairs[|pairs| - 1], keys);
    } else {
      NoVotes(box, keys);
    }
  }

  lemma NoVotes(box: SBox, keys: Keys)
    ensures SecondVotes(box, [], keys) == 0 && ThirdVotes(box, [], keys) == 0
  {
  }

  method MiddleEquations(box: SBox, pairs: seq<WordPair>, k1: word16, k4: word16)
    returns (second: seq<Equation>, third: seq<Equation>)
    ensures second == SecondEquations(box, pairs, k1, k4)
    ensures third == ThirdEquations(box, pairs, k1, k4)
  {
    hide F, Mix, High, Low;
    second, third := [], [];
    for i := 0 to |pairs|
      invariant second == SecondEquations(box, pairs[..i], k1, k4)
      invariant third == ThirdEquations(box, pairs[..i], k1, k4)
    {
      var pair := pairs[i];
      assert pairs[..i + 1][..i] == pairs[..i];
      var f1 := FFunction(box, Low(pair.plain), k1);
      var f4 := FFunction(box, Low(pair.cipher), k4);
      var x2, x3 := Mix(High(pair.plain), f1), Mix(High(pair.cipher), f4);
      second := second + [Equation(x2, Mix(x3, Low(pair.plain)))];
      third := third + [Equation(x3, Mix(x2, Low(pair.cipher)))];
    }
    assert pairs[..|pairs|] == pairs;
  }

  method CountReproduced(box: SBox, pairs: seq<WordPair>, keys: Keys) returns (count: nat)
    ensures count == Reproduced(box, pairs, keys)
  {
    hide Encrypted;
    count := 0;
    for i := 0 to |pairs|
      invariant count == Reproduced(box, pairs[..i], keys)
    {
      assert pairs[..i + 1][..i] == pairs[..i];
      var cipher := Encrypt(box, pairs[i].plain, keys);
      if cipher == pairs[i].cipher {
        count := count + 1;
      }
    }
    assert pairs[..|pairs|] == pairs;
  }

  // ---- Recovery ---------------------------------------------------------------------------

  datatype Recovery = Recovery(keys: Keys, distinctPairs: nat, reproducedPairs: nat)

  /** No key satisfies more than half the equations. */
  ghost predicate NoMajority(box: SBox, equations: seq<Equation>) {
    forall k: word16 :: !Majority(box, equations, k)
  }

  /** A success: statistical outer keys, winning middle keys, and an honest count. */
  ghost predicate Succeeded(box: SBox, pairs: seq<WordPair>, r: Recovery) {
    var second, third := SecondEquations(box, pairs, r.keys.k1, r.keys.k4), ThirdEquations(box, pairs, r.keys.k1, r.keys.k4);
    && OuterKeys(box, pairs, r.keys.k1, r.keys.k4)
    && Winner(box, second, r.keys.k2) && Majority(box, second, r.keys.k2)
    && Winner(box, third, r.keys.k3) && Majority(box, third, r.keys.k3)
    && r.distinctPairs == |pairs| && r.reproducedPairs == Reproduced(box, pairs, r.keys)
  }

  ghost predicate Failed(box: SBox, pairs: seq<WordPair>) {
    exists k1, k4 :: OuterKeys(box, pairs, k1, k4) &&
      (NoMajority(box, SecondEquations(box, pairs, k1, k4)) || NoMajority(box, ThirdEquations(box, pairs, k1, k4)))
  }

  method RecoverKeys(box: SBox, plain: seq<byte>, cipher: seq<byte>) returns (r: Result<Recovery, Failure>)
    ensures |plain| < 0x2_0000 || |cipher| < 0x2_0000 <==> r == Err(InputTooShort)
    ensures var pairs := NewPairs(plain, cipher, 0x8000);
            && (r.Ok? ==> Succeeded(box, pairs, r.value))
            && (r == Err(NoMatchingKey) ==> Failed(box, pairs))
  {
    hide F, Mix, MostBiasedNibbles, LastRoundTerm, FirstRoundTerm, NewPairs, Satisfied, Winner, Reproduced;
    hide SecondEquations, ThirdEquations, FunctionInverse.Inverts, KeylessF;
    if |plain| < ANALYZED_BYTES || |cipher| < ANALYZED_BYTES {
      return Err(InputTooShort);
    }
    var pairs := DistinctPairs(plain, cipher);
    var k4 := MostBiasedKey(box, pairs, LastRoundTerm);
    var k1 := MostBiasedKey(box, pairs, FirstRoundTerm(box, k4));
    var second, third := MiddleEquations(box, pairs, k1, k4);
    KeylessInRange(box);
    var index := FunctionInverse.Invert(KeylessF(box), KEY_SPACE);
    var k2 := MajorityKey(box, second, index);
    if k2.Err? {
      return Err(k2.error);
    }
    var k3 := MajorityKey(box, third, index);
    if k3.Err? {
      return Err(k3.error);
    }
    var keys := Keys(k1, k2.value, k3.value, k4);
    var reproduced := CountReproduced(box, pairs, keys);
    r := Ok(Recovery(keys, |pairs|, reproduced));
  }

  lemma KeylessInRange(box: SBox)
    ensures forall v: nat :: v < KEY_SPACE ==> KeylessF(box)(v) < KEY_SPACE
  {
  }

  /** A success reproduces at least the votes' overlap, hence at least one pair. */
  lemma SuccessReproduces(box: SBox, pairs: seq<WordPair>, r: Recovery)
    requires Succeeded(box, pairs, r)
    ensures r.reproducedPairs >= SecondVotes(box, pairs, r.keys) + ThirdVotes(box, pairs, r.keys) - r.distinctPairs >= 1
  {
    hide OuterKeys, Winner, Satisfied, Reproduced;
    VotesReproduce(box, pairs, r.keys);
  }

  lemma PlantedKeys(box: SBox, pairs: seq<WordPair>, planted: Keys, k2: word16, k3: word16)
    requires pairs != []
    requires forall p :: p in pairs ==> Encrypted(box, p.plain, planted) == p.cipher
    ensures var second := SecondEquations(box, pairs, planted.k1, planted.k4);
            var third := ThirdEquations(box, pairs, planted.k1, planted.k4);
            && Majority(box, second, planted.k2) && Majority(box, third, planted.k3)
            && (Winner(box, second, k2) && Winner(box, third, k3) ==>
                  Reproduced(box, pairs, planted.(k2 := k2, k3 := k3)) == |pairs|)
  {
    hide Satisfied, Reproduced, Encrypted, F, Mix;
    AllReproduced(box, pairs, planted);
    VotesReproduce(box, pairs, planted);
    VotesReproduce(box, pairs, planted.(k2 := k2, k3 := k3));
  }

  /** When the ciphertext is the plaintext's encryption and the statistics find k1 and k4, the vote
      succeeds and reproduces every pair. */
  lemma PlantedRecovery(box: SBox, pairs: seq<WordPair>, planted: Keys)
    requires pairs != [] && OuterKeys(box, pairs, planted.k1, planted.k4)
    requires forall p :: p in pairs ==> Encrypted(box, p.plain, planted) == p.cipher
    ensures !Failed(box, pairs)
    ensures forall r :: Succeeded(box, pairs, r) ==> r.reproducedPairs == r.distinctPairs
  {
    hide OuterKeys, Majority, Winner, Reproduced, Encrypted, SecondEquations, ThirdEquations;
    PlantedKeys(box, pairs, planted, 0, 0);
    forall k1, k4 | OuterKeys(box, pairs, k1, k4)
      ensures k1 == planted.k1 && k4 == planted.k4
    {
      OuterKeysUnique(box, pairs, k1, k4, planted.k1, planted.k4);
    }
    forall r | Succeeded(box, pairs, r)
      ensures r.reproducedPairs == r.distinctPairs
    {
      PlantedKeys(box, pairs, planted, r.keys.k2, r.keys.k3);
      assert r.keys == planted.(k2 := r.keys.k2, k3 := r.keys.k3);
    }
  }

  lemma {:induction false} AllReproduced(box: SBox, pairs: seq<WordPair>, keys: Keys)
    requires forall p :: p in pairs ==> Encrypted(box, p.plain, keys) == p.cipher
    ensures Reproduced(box, pairs, keys) == |pairs|
  {
    hide Encrypted;
    if pairs != [] {
      AllReproduced(box, pairs[..|pairs| - 1], keys);
      assert pairs[|pairs| - 1] in pairs;
    }
  }
}
