/** The Denso checksum table (src/algorithms/checksum/denso_checksum_table.cpp) and the diesel
    family built on it (src/algorithms/checksum/checksum_ecu_subaru_denso_sh705x_diesel.cpp). */
module DensoTable {
  import opened Bytes
  import opened ChecksumPrimitives

  const RECORD_LENGTH: nat := 12
  const CHECKSUM_TARGET: word32 := 0x5AA5A55A

  datatype WordOverride = WordOverride(address: word32, value: word32)

  datatype TableSpec = TableSpec(address: word32, length: word32, overrides: seq<WordOverride>, detectDisabled: bool)

  datatype Outcome =
    | TableUnchanged
    | TableCorrected
    | TableDisabled
    | InvalidTableRange
    | InvalidBlockRange
    | MalformedBlockRange
    | InvalidRecordLength

  datatype BlockSum = Summed(sum: word32) | Refused(outcome: Outcome)

  /** The value the first matching override gives an ECU address, or the ROM's own word. */
  function WordAt(rom: seq<byte>, base: word32, address: nat, overrides: seq<WordOverride>): word32
    requires base <= address
  {
    if overrides == [] then ReadU32Be(rom, address - base)
    else if overrides[0].address == address then overrides[0].value
    else WordAt(rom, base, address, overrides[1..])
  }

  predicate EcuAcceptsBlock(start: word32, end: word32) {
    start % 4 == 0 && start <= end && (start == end || end % 4 == 3)
  }

  /** The unbounded sum of the words at ECU addresses [start, limit). */
  function WordSum(rom: seq<byte>, base: word32, start: nat, limit: nat, overrides: seq<WordOverride>): nat
    requires base <= start
    decreases limit
  {
    if limit < start + 4 then 0
    else WordSum(rom, base, start, limit - 4, overrides) + WordAt(rom, base, limit - 4, overrides)
  }

  function BlockSumOf(rom: seq<byte>, base: word32, start: word32, end: word32, overrides: seq<WordOverride>)
    : (r: BlockSum)
    ensures r.Refused? ==> r.outcome.MalformedBlockRange? || r.outcome.InvalidBlockRange?
  {
    if !EcuAcceptsBlock(start, end) then Refused(MalformedBlockRange)
    else if start == end then Summed(0)
    else if start < base || end - base >= |rom| then Refused(InvalidBlockRange)
    else Summed(Wrap32(WordSum(rom, base, start, end + 1, overrides)))
  }

  method SumBlock(rom: array<byte>, base: word32, start: word32, end: word32, overrides: seq<WordOverride>)
    returns (r: BlockSum)
    ensures r == BlockSumOf(rom[..], base, start, end, overrides)
  {
    if !EcuAcceptsBlock(start, end) {
      return Refused(MalformedBlockRange);
    }
    if start == end {
      return Summed(0);
    }
    if start < base || end - base >= rom.Length {
      return Refused(InvalidBlockRange);
    }
    var sum := SumWords(rom, base, start, end + 1, overrides);
    r := Summed(sum);
  }

  method SumWords(rom: array<byte>, base: word32, start: nat, limit: nat, overrides: seq<WordOverride>)
    returns (sum: word32)
    requires base <= start <= limit && (limit - start) % 4 == 0
    ensures sum == Wrap32(WordSum(rom[..], base, start, limit, overrides))
  {
    assert Wrap32(0) == 0;
    hide Wrap32, WordAt;
    ghost var bytes := rom[..];
    sum := 0;
    var address := start;
    while address < limit
      invariant rom[..] == bytes
      invariant start <= address <= limit && (address - start) % 4 == 0
      invariant sum == Wrap32(WordSum(bytes, base, start, address, overrides))
    {
      var word := WordAt(rom[..], base, address, overrides);
      WrapsOnce(WordSum(bytes, base, start, address, overrides), word);
      sum := Wrap32(sum + word);
      address := address + 4;
    }
  }

  // ---- Tables -----------------------------------------------------------------------------

  /** The table lies inside the ROM as a whole number of records. */
  predicate TableFits(size: nat, base: word32, spec: TableSpec) {
    && spec.length % RECORD_LENGTH == 0
    && base <= spec.address
    && spec.address - base + spec.length <= size
  }

  function RecordAt(base: word32, spec: TableSpec, record: nat): int {
    spec.address - base + record * RECORD_LENGTH
  }

  function RecordCount(spec: TableSpec): nat {
    spec.length / RECORD_LENGTH
  }

  function RecordSum(rom: seq<byte>, base: word32, spec: TableSpec, record: nat): BlockSum
    requires TableFits(|rom|, base, spec) && record < RecordCount(spec)
  {
    var at := RecordAt(base, spec, record);
    BlockSumOf(rom, base, ReadU32Be(rom, at), ReadU32Be(rom, at + 4), spec.overrides)
  }

  /** Record 0 is the empty block at 0 holding the target itself: checksums are switched off. */
  predicate MarkedDisabled(rom: seq<byte>, base: word32, spec: TableSpec)
    requires TableFits(|rom|, base, spec)
  {
    && spec.detectDisabled && RecordCount(spec) > 0
    && var at := RecordAt(base, spec, 0);
       ReadU32Be(rom, at) == 0 && ReadU32Be(rom, at + 4) == 0 && ReadU32Be(rom, at + 8) == CHECKSUM_TARGET
  }

  function Expected(sum: word32): word32 {
    Wrap32(CHECKSUM_TARGET - sum)
  }

  /** A record holds: its block's sum and its stored word make the target. */
  predicate RecordHolds(rom: seq<byte>, base: word32, spec: TableSpec, record: nat)
    requires TableFits(|rom|, base, spec) && record < RecordCount(spec)
  {
    var sum := RecordSum(rom, base, spec, record);
    sum.Summed? && Wrap32(sum.sum + ReadU32Be(rom, RecordAt(base, spec, record) + 8)) == CHECKSUM_TARGET
  }

  predicate HoldBelow(rom: seq<byte>, base: word32, spec: TableSpec, n: nat)
    requires TableFits(|rom|, base, spec) && n <= RecordCount(spec)
  {
    forall k :: 0 <= k < n ==> RecordHolds(rom, base, spec, k)
  }

  predicate AllHold(rom: seq<byte>, base: word32, spec: TableSpec)
    requires TableFits(|rom|, base, spec)
  {
    HoldBelow(rom, base, spec, RecordCount(spec))
  }

  /** The first refusal among the records from `k` on, if any. */
  function Refusal(rom: seq<byte>, base: word32, spec: TableSpec, k: nat): (r: BlockSum)
    requires TableFits(|rom|, base, spec) && k <= RecordCount(spec)
    ensures r.Refused? ==> r.outcome.MalformedBlockRange? || r.outcome.InvalidBlockRange?
    decreases RecordCount(spec) - k
  {
    if k == RecordCount(spec) then Summed(0)
    else
      var sum := RecordSum(rom, base, spec, k);
      if sum.Refused? then sum else Refusal(rom, base, spec, k + 1)
  }

  /** The outcome, from the bytes alone. */
  function TableOutcome(rom: seq<byte>, base: word32, spec: TableSpec): Outcome {
    if spec.length % RECORD_LENGTH != 0 then InvalidRecordLength
    else if !TableFits(|rom|, base, spec) then InvalidTableRange
    else if MarkedDisabled(rom, base, spec) then TableDisabled
    else if Refusal(rom, base, spec, 0).Refused? then Refusal(rom, base, spec, 0).outcome
    else if AllHold(rom, base, spec) then TableUnchanged
    else TableCorrected
  }

  lemma {:induction false} NoRefusal(rom: seq<byte>, base: word32, spec: TableSpec, k: nat)
    requires TableFits(|rom|, base, spec) && k <= RecordCount(spec)
    ensures Refusal(rom, base, spec, k).Summed? <==>
            forall j :: k <= j < RecordCount(spec) ==> RecordSum(rom, base, spec, j).Summed?
    decreases RecordCount(spec) - k
  {
    if k < RecordCount(spec) {
      NoRefusal(rom, base, spec, k + 1);
    }
  }

  /** A record in literal terms: twelve bytes, the block's first and last address and the stored word;
      the block is empty or whole words inside the ROM, and its sum and the stored word make
      0x5AA5A55A. */
  lemma RecordByAddress(rom: seq<byte>, base: word32, spec: TableSpec, k: nat)
    requires TableFits(|rom|, base, spec) && k < RecordCount(spec)
    ensures var at := spec.address - base + 12 * k;
            var start, end, stored := ReadU32Be(rom, at), ReadU32Be(rom, at + 4), ReadU32Be(rom, at + 8);
            RecordHolds(rom, base, spec, k) <==>
            || (start == end && start % 4 == 0 && stored == 0x5AA5A55A)
            || (&& start < end && start % 4 == 0 && end % 4 == 3 && base <= start && end - base < |rom|
                && (WordSum(rom, base, start, end + 1, spec.overrides) + stored) % 0x1_0000_0000 == 0x5AA5A55A)
  {
    hide WordSum, ReadU32Be;
    var at := RecordAt(base, spec, k);
    var start, end, stored := ReadU32Be(rom, at), ReadU32Be(rom, at + 4), ReadU32Be(rom, at + 8);
    if start <= end && start >= base {
      WrapsOnce(WordSum(rom, base, start, end as int + 1, spec.overrides), stored);
    }
  }

  /** The table in literal terms: whole twelve-byte records inside the ROM, switched off when the first is
      the empty block at 0 holding the target. */
  lemma TableByAddress(rom: seq<byte>, base: word32, spec: TableSpec)
    ensures TableFits(|rom|, base, spec) <==>
            spec.length % 12 == 0 && base <= spec.address && spec.address - base + spec.length <= |rom|
    ensures RecordCount(spec) == spec.length / 12
    ensures TableFits(|rom|, base, spec) ==>
              var at := spec.address - base;
              MarkedDisabled(rom, base, spec) <==>
              && spec.detectDisabled && spec.length >= 12
              && ReadU32Be(rom, at) == 0 && ReadU32Be(rom, at + 4) == 0 && ReadU32Be(rom, at + 8) == 0x5AA5A55A
  {
    hide ReadU32Be;
  }

  /** The outcome: a broken length, a table out of range and a disabled table come first, then the first
      record whose block is refused, and then whether every record holds. */
  lemma OutcomeByTable(rom: seq<byte>, base: word32, spec: TableSpec)
    ensures var outcome := TableOutcome(rom, base, spec);
            if spec.length % 12 != 0 then outcome == InvalidRecordLength
            else if !TableFits(|rom|, base, spec) then outcome == InvalidTableRange
            else if MarkedDisabled(rom, base, spec) then outcome == TableDisabled
            else
              || (exists k :: FirstRefusal(rom, base, spec, k, outcome))
              || (&& (forall k :: 0 <= k < RecordCount(spec) ==> RecordSum(rom, base, spec, k).Summed?)
                  && outcome == if forall k :: 0 <= k < RecordCount(spec) ==> RecordHolds(rom, base, spec, k)
                                then TableUnchanged else TableCorrected)
  {
    hide RecordSum, RecordHolds, MarkedDisabled;
    if TableFits(|rom|, base, spec) {
      NoRefusal(rom, base, spec, 0);
      RefusalIsFirst(rom, base, spec, 0);
    }
  }

  ghost predicate FirstRefusal(rom: seq<byte>, base: word32, spec: TableSpec, k: int, outcome: Outcome)
    requires TableFits(|rom|, base, spec)
  {
    && 0 <= k < RecordCount(spec) && RecordSum(rom, base, spec, k) == Refused(outcome)
    && forall j :: 0 <= j < k ==> RecordSum(rom, base, spec, j).Summed?
  }

  lemma {:induction false} RefusalIsFirst(rom: seq<byte>, base: word32, spec: TableSpec, k: nat)
    requires TableFits(|rom|, base, spec) && k <= RecordCount(spec)
    requires forall j :: 0 <= j < k ==> RecordSum(rom, base, spec, j).Summed?
    ensures Refusal(rom, base, spec, k).Refused? ==>
              exists i :: FirstRefusal(rom, base, spec, i, Refusal(rom, base, spec, k).outcome)
    decreases RecordCount(spec) - k
  {
    hide RecordSum;
    if k < RecordCount(spec) {
      if RecordSum(rom, base, spec, k).Summed? {
        RefusalIsFirst(rom, base, spec, k + 1);
      } else {
        assert FirstRefusal(rom, base, spec, k, RecordSum(rom, base, spec, k).outcome);
      }
    }
  }

  /** A block is refused as malformed unless it is whole words or empty, and as out of range unless it lies
      in the ROM; an override stands in for the ROM word at its address. */
  lemma BlockByAddress(rom: seq<byte>, base: word32, start: word32, end: word32, overrides: seq<WordOverride>)
    ensures BlockSumOf(rom, base, start, end, overrides)
            == if start % 4 != 0 || end < start || (start < end && end % 4 != 3) then Refused(MalformedBlockRange)
               else if start == end then Summed(0)
               else if start < base || end as int - base >= |rom| then Refused(InvalidBlockRange)
               else Summed(WordSum(rom, base, start, end as int + 1, overrides) % 0x1_0000_0000)
  {
    hide WordSum, ReadU32Be;
  }

  /** A word is the first override's at its address, or the ROM's. */
  lemma WordByAddress(rom: seq<byte>, base: word32, address: nat, overrides: seq<WordOverride>, k: nat)
    requires base <= address
    ensures (forall i :: 0 <= i < |overrides| ==> overrides[i].address != address) ==>
              WordAt(rom, base, address, overrides) == ReadU32Be(rom, address - base)
    ensures k < |overrides| && overrides[k].address == address
            && (forall i :: 0 <= i < k ==> overrides[i].address != address) ==>
              WordAt(rom, base, address, overrides) == overrides[k].value
    decreases overrides
  {
    hide ReadU32Be;
    if overrides != [] {
      var rest := overrides[1..];
      assert forall i :: 1 <= i < |overrides| ==> rest[i - 1] == overrides[i];
      if overrides[0].address != address {
        WordByAddress(rom, base, address, rest, if k == 0 then 0 else k - 1);
      }
    }
  }

  lemma StoredIsExpected(sum: word32, stored: word32)
    ensures stored == Expected(sum) <==> Wrap32(sum + stored) == CHECKSUM_TARGET
  {
  }

  /** The table with the stored words of its first `n` records brought up to date. */
  function CorrectedRecords(rom: seq<byte>, base: word32, spec: TableSpec, n: nat): (r: seq<byte>)
    requires TableFits(|rom|, base, spec) && n <= RecordCount(spec)
    ensures |r| == n * RECORD_LENGTH
  {
    if n == 0 then []
    else
      CorrectedRecords(rom, base, spec, n - 1) + CorrectedRecord(rom, base, spec, n - 1)
  }

  function CorrectedRecord(rom: seq<byte>, base: word32, spec: TableSpec, k: nat): (r: seq<byte>)
    requires TableFits(|rom|, base, spec) && k < RecordCount(spec)
    ensures |r| == RECORD_LENGTH
  {
    var at, sum := RecordAt(base, spec, k), RecordSum(rom, base, spec, k);
    EncodeU32Be(ReadU32Be(rom, at)) + EncodeU32Be(ReadU32Be(rom, at + 4))
    + EncodeU32Be(Expected(if sum.Summed? then sum.sum else 0))
  }

  method CorrectDensoTable(base: word32, rom: array<byte>, spec: TableSpec) returns (outcome: Outcome)
    modifies rom
    ensures outcome == TableOutcome(old(rom[..]), base, spec)
    ensures outcome.TableCorrected? ==> TableFits(rom.Length, base, spec)
    ensures rom[..] == if outcome.TableCorrected?
                       then OverwriteAt(old(rom[..]), RecordAt(base, spec, 0),
                                        CorrectedRecords(old(rom[..]), base, spec, RecordCount(spec)))
                       else old(rom[..])
  {
    hide MarkedDisabled, AllHold, Refusal, CorrectedRecords, OverwriteAt;
    if spec.length % RECORD_LENGTH != 0 {
      return InvalidRecordLength;
    }
    if base > spec.address || spec.address - base > rom.Length || spec.length > rom.Length - (spec.address - base) {
      return InvalidTableRange;
    }
    var corrected, changed := ScanTable(base, rom, spec);
    if corrected.Stopped? {
      return corrected.outcome;
    }
    if !changed {
      return TableUnchanged;
    }
    OverwriteInPlace(rom, spec.address - base, corrected.table);
    outcome := TableCorrected;
  }

  datatype Scan = Stopped(outcome: Outcome) | Scanned(table: seq<byte>)

  /** The pass over the records: sums each block and builds the corrected table. */
  method ScanTable(base: word32, rom: array<byte>, spec: TableSpec) returns (scan: Scan, changed: bool)
    requires TableFits(rom.Length, base, spec)
    ensures scan.Stopped? <==> MarkedDisabled(rom[..], base, spec) || Refusal(rom[..], base, spec, 0).Refused?
    ensures scan.Stopped? ==> scan.outcome == TableOutcome(rom[..], base, spec)
    ensures scan.Scanned? ==> scan.table == CorrectedRecords(rom[..], base, spec, RecordCount(spec))
    ensures scan.Scanned? ==> changed == !AllHold(rom[..], base, spec)
  {
    hide Wrap32, ReadU32Be, EncodeU32Be, BlockSumOf, Expected;
    ghost var bytes := rom[..];
    var table: seq<byte> := [];
    changed := false;
    var k := 0;
    while k < RecordCount(spec)
      invariant rom[..] == bytes && k <= RecordCount(spec)
      invariant table == CorrectedRecords(bytes, base, spec, k)
      invariant k > 0 ==> !MarkedDisabled(bytes, base, spec)
      invariant Refusal(bytes, base, spec, k) == Refusal(bytes, base, spec, 0)
      invariant changed == !HoldBelow(bytes, base, spec, k)
    {
      var position := RecordAt(base, spec, k);
      var start := ReadU32Be(rom[..], position);
      var end := ReadU32Be(rom[..], position + 4);
      var stored := ReadU32Be(rom[..], position + 8);
      if k == 0 && spec.detectDisabled && start == 0 && end == 0 && stored == CHECKSUM_TARGET {
        return Stopped(TableDisabled), changed;
      }
      var sum := SumBlock(rom, base, start, end, spec.overrides);
      if sum.Refused? {
        return Stopped(sum.outcome), changed;
      }
      var expected := Expected(sum.sum);
      StoredIsExpected(sum.sum, stored);
      assert RecordHolds(bytes, base, spec, k) == (stored == expected);
      changed := changed || stored != expected;
      table := table + EncodeU32Be(start) + EncodeU32Be(end) + EncodeU32Be(expected);
      k := k + 1;
    }
    scan := Scanned(table);
  }

  // ---- What a correction establishes ------------------------------------------------------

  /** The corrected ROM, when the outcome is a correction. */
  function Corrected(rom: seq<byte>, base: word32, spec: TableSpec): (r: seq<byte>)
    requires TableFits(|rom|, base, spec)
    ensures |r| == |rom|
  {
    OverwriteAt(rom, RecordAt(base, spec, 0), CorrectedRecords(rom, base, spec, RecordCount(spec)))
  }

  /** ROM position `i` belongs to a record's stored word. */
  predicate InStoredWord(base: word32, spec: TableSpec, i: int) {
    exists k :: 0 <= k < RecordCount(spec) && RecordAt(base, spec, k) + 8 <= i < RecordAt(base, spec, k) + 12
  }

  lemma {:induction false} RecordBytes(rom: seq<byte>, base: word32, spec: TableSpec, n: nat, k: nat)
    requires TableFits(|rom|, base, spec) && k < n <= RecordCount(spec)
    ensures CorrectedRecords(rom, base, spec, n)[12 * k..12 * k + 12] == CorrectedRecord(rom, base, spec, k)
  {
    hide CorrectedRecord, TableFits;
    var table, before := CorrectedRecords(rom, base, spec, n), CorrectedRecords(rom, base, spec, n - 1);
    if k < n - 1 {
      RecordBytes(rom, base, spec, n - 1, k);
      assert before[12 * k..12 * k + 12] == table[12 * k..12 * k + 12];
    }
  }

  predicate AllSummed(rom: seq<byte>, base: word32, spec: TableSpec)
    requires TableFits(|rom|, base, spec)
  {
    forall k :: 0 <= k < RecordCount(spec) ==> RecordSum(rom, base, spec, k).Summed?
  }

  lemma RecordAfter(rom: seq<byte>, base: word32, spec: TableSpec, k: nat)
    requires TableFits(|rom|, base, spec) && AllSummed(rom, base, spec) && k < RecordCount(spec)
    ensures var r, at := Corrected(rom, base, spec), RecordAt(base, spec, k);
            && r[at..at + 4] == rom[at..at + 4] && r[at + 4..at + 8] == rom[at + 4..at + 8]
            && ReadU32Be(r, at) == ReadU32Be(rom, at) && ReadU32Be(r, at + 4) == ReadU32Be(rom, at + 4)
            && ReadU32Be(r, at + 8) == Expected(RecordSum(rom, base, spec, k).sum)
  {
    hide CorrectedRecords, CorrectedRecord, Expected, RecordSum, ReadU32Be, EncodeU32Be;
    var n := RecordCount(spec);
    RecordBytes(rom, base, spec, n, k);
    RecordParts(rom, base, spec, k);
    var r, at := Corrected(rom, base, spec), RecordAt(base, spec, k);
    var record := CorrectedRecord(rom, base, spec, k);
    assert r[at..at + 12] == CorrectedRecords(rom, base, spec, n)[12 * k..12 * k + 12];
    SliceOfSlice(r, at, record, 0);
    SliceOfSlice(r, at, record, 4);
    SliceOfSlice(r, at, record, 8);
    WordOfSlice(r, at, rom[at..at + 4]);
    WordOfSlice(rom, at, rom[at..at + 4]);
    WordOfSlice(r, at + 4, rom[at + 4..at + 8]);
    WordOfSlice(rom, at + 4, rom[at + 4..at + 8]);
    WordOfSlice(r, at + 8, EncodeU32Be(Expected(RecordSum(rom, base, spec, k).sum)));
  }

  /** A corrected record keeps its two addresses. */
  lemma RecordParts(rom: seq<byte>, base: word32, spec: TableSpec, k: nat)
    requires TableFits(|rom|, base, spec) && k < RecordCount(spec) && RecordSum(rom, base, spec, k).Summed?
    ensures var record, at := CorrectedRecord(rom, base, spec, k), RecordAt(base, spec, k);
            && record[0..4] == rom[at..at + 4] && record[4..8] == rom[at + 4..at + 8]
            && record[8..12] == EncodeU32Be(Expected(RecordSum(rom, base, spec, k).sum))
  {
    hide Expected, RecordSum, ReadU32Be, EncodeU32Be;
    var at := RecordAt(base, spec, k);
    EncodeReadU32Be(rom, at);
    EncodeReadU32Be(rom, at + 4);
  }

  lemma SliceOfSlice(a: seq<byte>, at: nat, record: seq<byte>, offset: nat)
    requires at + 12 <= |a| && offset + 4 <= |record| == 12 && a[at..at + 12] == record
    ensures a[at + offset..at + offset + 4] == record[offset..offset + 4]
  {
    assert forall i :: 0 <= i < 12 ==> record[i] == a[at + i];
  }

  lemma WordOfSlice(a: seq<byte>, at: nat, word: seq<byte>)
    requires at + 4 <= |a| && |word| == 4 && a[at..at + 4] == word
    ensures ReadU32Be(a, at) == ReadU32Be(word, 0)
  {
    assert forall i :: 0 <= i < 4 ==> a[at + i] == word[i];
  }

  /** A correction changes stored words and nothing else. */
  lemma OnlyStoredWordsChange(rom: seq<byte>, base: word32, spec: TableSpec, i: nat)
    requires TableFits(|rom|, base, spec) && AllSummed(rom, base, spec)
    requires i < |rom| && !InStoredWord(base, spec, i)
    ensures Corrected(rom, base, spec)[i] == rom[i]
  {
    hide CorrectedRecords, RecordSum;
    var position := RecordAt(base, spec, 0);
    if position <= i < position + spec.length {
      var k := (i - position) / RECORD_LENGTH;
      var at := RecordAt(base, spec, k);
      RecordAfter(rom, base, spec, k);
      var r := Corrected(rom, base, spec);
      assert i < at + 8;
      if i < at + 4 {
        assert r[at..at + 4][i - at] == rom[at..at + 4][i - at];
      } else {
        assert r[at + 4..at + 8][i - at - 4] == rom[at + 4..at + 8][i - at - 4];
      }
    }
  }

  predicate Overridden(address: nat, overrides: seq<WordOverride>) {
    exists k :: 0 <= k < |overrides| && overrides[k].address == address
  }

  /** A word a block reads depends on its own bytes at most, and not on them when overridden. */
  lemma {:induction false} WordAtFrame(rom: seq<byte>, r: seq<byte>, base: word32, address: nat,
                                       overrides: seq<WordOverride>)
    requires base <= address
    requires !Overridden(address, overrides) ==> ReadU32Be(rom, address - base) == ReadU32Be(r, address - base)
    ensures WordAt(rom, base, address, overrides) == WordAt(r, base, address, overrides)
    ensures !Overridden(address, overrides) ==>
              WordAt(rom, base, address, overrides) == ReadU32Be(rom, address - base)
  {
    hide ReadU32Be;
    if overrides != [] && overrides[0].address != address {
      var rest := overrides[1..];
      if Overridden(address, overrides) {
        var k :| 0 <= k < |overrides| && overrides[k].address == address;
        assert rest[k - 1].address == address;
      }
      WordAtFrame(rom, r, base, address, rest);
    }
  }

  // ---- When a correction holds ------------------------------------------------------------

  /** What a correction adds to the ROM byte at position `i`: a byte of a stored word moves to the
      expected word's, any other stays. */
  function ByteChange(rom: seq<byte>, base: word32, spec: TableSpec, i: nat): int
    requires TableFits(|rom|, base, spec) && i < |rom|
  {
    var offset := i - RecordAt(base, spec, 0);
    var k := offset / RECORD_LENGTH;
    if offset < 0 || k >= RecordCount(spec) || offset % RECORD_LENGTH < 8 then 0
    else
      var sum := RecordSum(rom, base, spec, k);
      EncodeU32Be(Expected(if sum.Summed? then sum.sum else 0))[offset % RECORD_LENGTH - 8] as int - rom[i]
  }

  lemma ByteAfter(rom: seq<byte>, base: word32, spec: TableSpec, i: nat)
    requires TableFits(|rom|, base, spec) && AllSummed(rom, base, spec) && i < |rom|
    ensures Corrected(rom, base, spec)[i] as int == rom[i] as int + ByteChange(rom, base, spec, i)
  {
    hide Corrected, RecordSum, ReadU32Be, EncodeU32Be, Expected;
    var offset := i - RecordAt(base, spec, 0);
    var k := offset / RECORD_LENGTH;
    if offset < 0 || k >= RecordCount(spec) || offset % RECORD_LENGTH < 8 {
      NotStored(base, spec, i);
      OnlyStoredWordsChange(rom, base, spec, i);
    } else {
      var r, at := Corrected(rom, base, spec), RecordAt(base, spec, k);
      RecordAfter(rom, base, spec, k);
      EncodeReadU32Be(r, at + 8);
      assert r[at + 8..at + 12][i - at - 8] == r[i];
    }
  }

  lemma NotStored(base: word32, spec: TableSpec, i: nat)
    requires var offset := i - RecordAt(base, spec, 0);
             offset < 0 || offset / RECORD_LENGTH >= RecordCount(spec) || offset % RECORD_LENGTH < 8
    ensures !InStoredWord(base, spec, i)
  {
  }

  /** What a correction adds to the word a block reads at an ECU address, byte by byte: a word need
      not coincide with a stored one to share bytes with it. */
  function ChangeAt(rom: seq<byte>, base: word32, spec: TableSpec, address: nat): int
    requires TableFits(|rom|, base, spec) && base <= address && address - base + 4 <= |rom|
  {
    var at := address - base;
    if Overridden(address, spec.overrides) then 0
    else
      ByteChange(rom, base, spec, at) * 0x100_0000 + ByteChange(rom, base, spec, at + 1) * 0x1_0000
      + ByteChange(rom, base, spec, at + 2) * 0x100 + ByteChange(rom, base, spec, at + 3)
  }

  /** What a correction adds to the sum of the words at [start, limit). */
  function Drift(rom: seq<byte>, base: word32, spec: TableSpec, start: nat, limit: nat): int
    requires TableFits(|rom|, base, spec) && base <= start && limit - base <= |rom|
    decreases limit
  {
    if limit < start + 4 then 0
    else Drift(rom, base, spec, start, limit - 4) + ChangeAt(rom, base, spec, limit - 4)
  }

  /** What a correction adds to the sum of a record's block; an empty block sums no word. */
  function RecordDrift(rom: seq<byte>, base: word32, spec: TableSpec, k: nat): int
    requires TableFits(|rom|, base, spec) && k < RecordCount(spec) && RecordSum(rom, base, spec, k).Summed?
  {
    var at := RecordAt(base, spec, k);
    var start, end := ReadU32Be(rom, at), ReadU32Be(rom, at + 4);
    if start == end then 0 else Drift(rom, base, spec, start, end as int + 1)
  }

  lemma WordChange(rom: seq<byte>, base: word32, spec: TableSpec, address: nat)
    requires TableFits(|rom|, base, spec) && AllSummed(rom, base, spec)
    requires base <= address && address - base + 4 <= |rom|
    ensures WordAt(Corrected(rom, base, spec), base, address, spec.overrides)
            == WordAt(rom, base, address, spec.overrides) + ChangeAt(rom, base, spec, address)
  {
    hide Corrected, RecordSum, WordAt, ByteChange;
    var r, at := Corrected(rom, base, spec), address - base;
    if Overridden(address, spec.overrides) {
      WordAtFrame(rom, r, base, address, spec.overrides);
    } else {
      WordAtFrame(rom, rom, base, address, spec.overrides);
      WordAtFrame(r, r, base, address, spec.overrides);
      ByteAfter(rom, base, spec, at);
      ByteAfter(rom, base, spec, at + 1);
      ByteAfter(rom, base, spec, at + 2);
      ByteAfter(rom, base, spec, at + 3);
    }
  }

  lemma {:induction false} SumChange(rom: seq<byte>, base: word32, spec: TableSpec, start: nat, limit: nat)
    requires TableFits(|rom|, base, spec) && AllSummed(rom, base, spec)
    requires base <= start && limit - base <= |rom|
    ensures WordSum(Corrected(rom, base, spec), base, start, limit, spec.overrides)
            == WordSum(rom, base, start, limit, spec.overrides) + Drift(rom, base, spec, start, limit)
    decreases limit
  {
    hide Corrected, WordAt, ChangeAt, TableFits, AllSummed;
    if start + 4 <= limit {
      WordChange(rom, base, spec, limit - 4);
      SumChange(rom, base, spec, start, limit - 4);
    }
  }

  /** After a correction a record holds exactly when the stored bytes its block covers moved its sum
      by a multiple of 2^32 in all. */
  lemma RecordHoldsIff(rom: seq<byte>, base: word32, spec: TableSpec, k: nat)
    requires TableFits(|rom|, base, spec) && AllSummed(rom, base, spec) && k < RecordCount(spec)
    ensures RecordHolds(Corrected(rom, base, spec), base, spec, k) <==> RecordDrift(rom, base, spec, k) % U32 == 0
  {
    hide Corrected, WordSum, Drift, ReadU32Be, Wrap32;
    var r, at := Corrected(rom, base, spec), RecordAt(base, spec, k);
    RecordAfter(rom, base, spec, k);
    var start, end := ReadU32Be(rom, at), ReadU32Be(rom, at + 4);
    assert RecordSum(rom, base, spec, k).Summed?;
    if start != end {
      var limit := end as int + 1;
      SumChange(rom, base, spec, start, limit);
      TargetMoves(WordSum(rom, base, start, limit, spec.overrides), Drift(rom, base, spec, start, limit));
    } else {
      TargetMoves(0, 0);
    }
  }

  lemma TargetMoves(sum: nat, drift: int)
    ensures Wrap32(Wrap32(sum + drift) as int + Wrap32(CHECKSUM_TARGET - Wrap32(sum))) == CHECKSUM_TARGET
            <==> drift % U32 == 0
    ensures Wrap32(0) == 0
  {
    var moved: int, expected: int := Wrap32(sum + drift), Wrap32(CHECKSUM_TARGET - Wrap32(sum));
    var a, b, c := sum / U32, (sum + drift) / U32, (CHECKSUM_TARGET - Wrap32(sum)) / U32;
    assert sum == U32 * a + Wrap32(sum) && sum + drift == U32 * b + moved;
    assert CHECKSUM_TARGET - Wrap32(sum) == U32 * c + expected;
    assert moved + expected == CHECKSUM_TARGET + drift + U32 * (a - b - c);
    var d := drift / U32;
    assert drift == U32 * d + drift % U32;
    assert moved + expected == CHECKSUM_TARGET + drift % U32 + U32 * (a - b - c + d);
  }

  /** The exact condition for a correction to settle every record. */
  lemma TableHoldsIff(rom: seq<byte>, base: word32, spec: TableSpec)
    requires TableFits(|rom|, base, spec) && AllSummed(rom, base, spec)
    ensures AllHold(Corrected(rom, base, spec), base, spec) <==>
            forall k :: 0 <= k < RecordCount(spec) ==> RecordDrift(rom, base, spec, k) % U32 == 0
  {
    hide Corrected, RecordHolds, RecordDrift;
    forall k | 0 <= k < RecordCount(spec)
      ensures RecordHolds(Corrected(rom, base, spec), base, spec, k) <==> RecordDrift(rom, base, spec, k) % U32 == 0
    {
      RecordHoldsIff(rom, base, spec, k);
    }
  }

  // ---- Blocks clear of the stored words ---------------------------------------------------

  /** A record's block reads the ROM word at an ECU address. */
  predicate BlockReads(rom: seq<byte>, base: word32, spec: TableSpec, k: nat, address: nat)
    requires TableFits(|rom|, base, spec) && k < RecordCount(spec)
  {
    var at := RecordAt(base, spec, k);
    var start, end := ReadU32Be(rom, at), ReadU32Be(rom, at + 4);
    && start != end && start <= address <= end
    && (address - start) % 4 == 0
    && !Overridden(address, spec.overrides)
  }

  /** The ROM word at an ECU address shares no byte with a stored word of the table. */
  ghost predicate WordClear(base: word32, stored: TableSpec, address: nat) {
    forall i :: address - base <= i < address - base + 4 ==> !InStoredWord(base, stored, i)
  }

  /** No word a block of `spec` reads shares a byte with a stored word of `stored`. */
  ghost predicate BlocksClear(rom: seq<byte>, base: word32, spec: TableSpec, stored: TableSpec)
    requires TableFits(|rom|, base, spec)
  {
    forall k, address :: 0 <= k < RecordCount(spec) && BlockReads(rom, base, spec, k, address) ==>
      WordClear(base, stored, address)
  }

  /** No record of `spec` shares a byte with a stored word of `stored`. */
  ghost predicate RecordsClear(base: word32, spec: TableSpec, stored: TableSpec) {
    forall i :: RecordAt(base, spec, 0) <= i < RecordAt(base, spec, 0) + spec.length ==> !InStoredWord(base, stored, i)
  }

  ghost predicate SameWordAt(rom: seq<byte>, r: seq<byte>, base: word32, address: nat) {
    base <= address && ReadU32Be(rom, address - base) == ReadU32Be(r, address - base)
  }

  lemma {:induction false} WordSumFrame(rom: seq<byte>, r: seq<byte>, base: word32, start: nat, limit: nat,
                                        overrides: seq<WordOverride>)
    requires base <= start
    requires forall address | start <= address <= limit - 4 && (limit - address) % 4 == 0
               && !Overridden(address, overrides) :: SameWordAt(rom, r, base, address)
    ensures WordSum(rom, base, start, limit, overrides) == WordSum(r, base, start, limit, overrides)
    decreases limit
  {
    hide ReadU32Be, WordAt, Overridden;
    if start + 4 <= limit {
      WordAtFrame(rom, r, base, limit - 4, overrides);
      WordSumFrame(rom, r, base, start, limit - 4, overrides);
    }
  }

  /** Rewriting only stored words that no block reads leaves a block's sum as it was. */
  lemma SumKept(rom: seq<byte>, r: seq<byte>, base: word32, spec: TableSpec, stored: TableSpec, k: nat)
    requires TableFits(|rom|, base, spec) && |r| == |rom| && k < RecordCount(spec)
    requires BlocksClear(rom, base, spec, stored)
    requires forall i :: 0 <= i < |rom| && !InStoredWord(base, stored, i) ==> r[i] == rom[i]
    requires var at := RecordAt(base, spec, k);
             ReadU32Be(r, at) == ReadU32Be(rom, at) && ReadU32Be(r, at + 4) == ReadU32Be(rom, at + 4)
    ensures RecordSum(r, base, spec, k) == RecordSum(rom, base, spec, k)
  {
    hide ReadU32Be, WordSum, Wrap32, Overridden;
    var at := RecordAt(base, spec, k);
    var start, end := ReadU32Be(rom, at), ReadU32Be(rom, at + 4);
    if EcuAcceptsBlock(start, end) && start != end && start >= base && end - base < |rom| {
      var limit := end as int + 1;
      forall address | start <= address <= limit - 4 && (limit - address) % 4 == 0
                       && !Overridden(address, spec.overrides)
        ensures SameWordAt(rom, r, base, address)
      {
        assert BlockReads(rom, base, spec, k, address);
        assert WordClear(base, stored, address);
        var o := address - base;
        WordOfSlice(rom, o, rom[o..o + 4]);
        assert r[o..o + 4] == rom[o..o + 4];
        WordOfSlice(r, o, rom[o..o + 4]);
      }
      WordSumFrame(rom, r, base, start, limit, spec.overrides);
    }
  }

  /** A correction settles every record when no block reads a stored word. */
  lemma CorrectionHolds(rom: seq<byte>, base: word32, spec: TableSpec)
    requires TableFits(|rom|, base, spec) && AllSummed(rom, base, spec) && BlocksClear(rom, base, spec, spec)
    ensures var r := Corrected(rom, base, spec); AllSummed(r, base, spec) && AllHold(r, base, spec)
  {
    hide Corrected, RecordSum, BlocksClear, InStoredWord, ReadU32Be, Expected, Wrap32;
    var r := Corrected(rom, base, spec);
    forall i | 0 <= i < |rom| && !InStoredWord(base, spec, i)
      ensures r[i] == rom[i]
    {
      OnlyStoredWordsChange(rom, base, spec, i);
    }
    forall k | 0 <= k < RecordCount(spec)
      ensures RecordSum(r, base, spec, k).Summed? && RecordHolds(r, base, spec, k)
    {
      RecordAfter(rom, base, spec, k);
      SumKept(rom, r, base, spec, spec, k);
      StoredIsExpected(RecordSum(rom, base, spec, k).sum, ReadU32Be(r, RecordAt(base, spec, k) + 8));
    }
  }

  /** Correcting again changes nothing: the second outcome is `TableUnchanged`, or
      `TableDisabled` exactly when detection is on and record 0 is the empty block at 0. */
  lemma RerunOutcome(rom: seq<byte>, base: word32, spec: TableSpec)
    requires TableOutcome(rom, base, spec).TableCorrected? && BlocksClear(rom, base, spec, spec)
    ensures var at := RecordAt(base, spec, 0);
            TableOutcome(Corrected(rom, base, spec), base, spec)
            == if spec.detectDisabled && ReadU32Be(rom, at) == 0 && ReadU32Be(rom, at + 4) == 0
               then TableDisabled else TableUnchanged
  {
    hide Corrected, BlocksClear, ReadU32Be, WordSum, RecordHolds;
    var r := Corrected(rom, base, spec);
    NoRefusal(rom, base, spec, 0);
    CorrectionHolds(rom, base, spec);
    NoRefusal(r, base, spec, 0);
    assert RecordCount(spec) > 0;
    RecordAfter(rom, base, spec, 0);
  }

  const SELF_COVERING_ROM: seq<byte> := [0, 0, 0, 8, 0, 0, 0, 11, 0, 0, 0, 0]
  const SELF_COVERING_TABLE: TableSpec := TableSpec(0, 12, [], true)

  lemma SelfCoveringChange()
    requires RecordSum(SELF_COVERING_ROM, 0, SELF_COVERING_TABLE, 0) == Summed(0)
    ensures ChangeAt(SELF_COVERING_ROM, 0, SELF_COVERING_TABLE, 8) == CHECKSUM_TARGET
  {
    hide RecordSum;
    var rom, spec := SELF_COVERING_ROM, SELF_COVERING_TABLE;
    assert Expected(0) == CHECKSUM_TARGET;
    var word := EncodeU32Be(CHECKSUM_TARGET);
    assert word == [0x5A, 0xA5, 0xA5, 0x5A];
    assert ByteChange(rom, 0, spec, 8) == word[0] as int && ByteChange(rom, 0, spec, 9) == word[1] as int;
    assert ByteChange(rom, 0, spec, 10) == word[2] as int && ByteChange(rom, 0, spec, 11) == word[3] as int;
  }

  lemma SelfCoveringSum()
    ensures TableFits(12, 0, SELF_COVERING_TABLE) && RecordCount(SELF_COVERING_TABLE) == 1
    ensures ReadU32Be(SELF_COVERING_ROM, 0) == 8 && ReadU32Be(SELF_COVERING_ROM, 4) == 11
    ensures RecordSum(SELF_COVERING_ROM, 0, SELF_COVERING_TABLE, 0) == Summed(0)
  {
    var rom := SELF_COVERING_ROM;
    assert ReadU32Be(rom, 0) == 8 && ReadU32Be(rom, 4) == 11 && ReadU32Be(rom, 8) == 0;
    hide ReadU32Be;
    assert WordSum(rom, 0, 8, 8, []) == 0 && WordAt(rom, 0, 8, []) == 0;
    assert WordSum(rom, 0, 8, 12, []) == 0;
  }

  lemma SelfCoveringDrift()
    ensures TableFits(12, 0, SELF_COVERING_TABLE) && RecordCount(SELF_COVERING_TABLE) == 1
    ensures RecordSum(SELF_COVERING_ROM, 0, SELF_COVERING_TABLE, 0) == Summed(0)
    ensures RecordDrift(SELF_COVERING_ROM, 0, SELF_COVERING_TABLE, 0) == CHECKSUM_TARGET
  {
    hide ChangeAt, RecordSum, ReadU32Be, Drift, ByteChange;
    var rom, spec := SELF_COVERING_ROM, SELF_COVERING_TABLE;
    SelfCoveringSum();
    SelfCoveringChange();
    OneWordDrift(rom, 0, spec, 8);
    OneWordBlock(rom, 0, spec, 0, 8);
  }

  lemma OneWordBlock(rom: seq<byte>, base: word32, spec: TableSpec, k: nat, start: word32)
    requires TableFits(|rom|, base, spec) && k < RecordCount(spec) && RecordSum(rom, base, spec, k).Summed?
    requires ReadU32Be(rom, RecordAt(base, spec, k)) == start && ReadU32Be(rom, RecordAt(base, spec, k) + 4) == start + 3
    ensures base <= start && start as int + 4 - base <= |rom|
    ensures RecordDrift(rom, base, spec, k) == Drift(rom, base, spec, start, start as int + 4)
  {
    hide Drift, ReadU32Be, WordSum;
  }

  lemma OneWordDrift(rom: seq<byte>, base: word32, spec: TableSpec, start: nat)
    requires TableFits(|rom|, base, spec) && base <= start && start + 4 - base <= |rom|
    ensures Drift(rom, base, spec, start, start + 4) == ChangeAt(rom, base, spec, start)
  {
    hide ChangeAt, TableFits;
    assert Drift(rom, base, spec, start, start) == 0;
  }

  /** A table whose one block is its own stored word is corrected and does not hold afterwards. */
  lemma SelfCoveringFails()
    ensures var rom, spec := SELF_COVERING_ROM, SELF_COVERING_TABLE;
            && TableOutcome(rom, 0, spec).TableCorrected?
            && !AllHold(Corrected(rom, 0, spec), 0, spec)
  {
    hide RecordSum, RecordDrift, Corrected;
    var rom, spec := SELF_COVERING_ROM, SELF_COVERING_TABLE;
    SelfCoveringDrift();
    NoRefusal(rom, 0, spec, 0);
    RecordHoldsIff(rom, 0, spec, 0);
    assert !RecordHolds(rom, 0, spec, 0);
  }

  // ---- The diesel family ------------------------------------------------------------------

  function PrimaryTable(address: word32, length: word32): TableSpec {
    TableSpec(address, length,
              if address == 0x0FFB80 then [WordOverride(0x0FFAFC, 0xFFFFFFFF)]
              else if address == 0x17FB80 then [WordOverride(0x17FAFC, 0xFFFFFFFF)]
              else [],
              true)
  }

  const SECONDARY_TABLE: TableSpec := TableSpec(0x1FF8E8, 24, [], false)

  predicate HasSecondary(address: word32) {
    address == 0x1FF800
  }

  function StatusOf(outcome: Outcome): Status {
    match outcome
    case TableUnchanged => Unchanged
    case TableCorrected => Status.Corrected
    case TableDisabled => Disabled
    case InvalidTableRange | InvalidBlockRange => InvalidSize
    case MalformedBlockRange | InvalidRecordLength => ParseError
  }

  predicate Failed(outcome: Outcome) {
    !outcome.TableUnchanged? && !outcome.TableCorrected? && !outcome.TableDisabled?
  }

  /** The diesel tables: one stale word is read as erased at two addresses, and a third address has a second
      table of two records that cannot be switched off. */
  lemma DieselTables(address: word32, length: word32)
    ensures PrimaryTable(address, length)
            == TableSpec(address, length,
                         if address == 0x0FFB80 then [WordOverride(0x0FFAFC, 0xFFFF_FFFF)]
                         else if address == 0x17FB80 then [WordOverride(0x17FAFC, 0xFFFF_FFFF)] else [], true)
    ensures HasSecondary(address) <==> address == 0x1FF800
    ensures SECONDARY_TABLE == TableSpec(0x1FF8E8, 24, [], false)
    ensures forall outcome :: Failed(outcome) <==>
              outcome in {InvalidTableRange, InvalidBlockRange, MalformedBlockRange, InvalidRecordLength}
  {
  }

  /** What a table's correction leaves, whatever the outcome. */
  function AfterTable(rom: seq<byte>, base: word32, spec: TableSpec): (r: seq<byte>)
    ensures |r| == |rom|
  {
    if TableOutcome(rom, base, spec).TableCorrected? then Corrected(rom, base, spec) else rom
  }

  /** Both tables are corrected, or the ROM comes back as it was given. */
  method CorrectDiesel(rom: seq<byte>, base: word32, address: word32, length: word32) returns (result: ChecksumResult)
    ensures var primary := PrimaryTable(address, length);
            var first := TableOutcome(rom, base, primary);
            var mid := AfterTable(rom, base, primary);
            var second := if HasSecondary(address) then TableOutcome(mid, base, SECONDARY_TABLE) else TableUnchanged;
            if first.TableDisabled? || Failed(first) then result == ChecksumResult(StatusOf(first), rom)
            else if Failed(second) then result == ChecksumResult(StatusOf(second), rom)
            else
              && result.status == (if first.TableCorrected? || second.TableCorrected? then Status.Corrected else Unchanged)
              && result.rom == if HasSecondary(address) then AfterTable(mid, base, SECONDARY_TABLE) else mid
  {
    hide TableOutcome, CorrectedRecords, OverwriteAt;
    var image := new byte[|rom|](i requires 0 <= i < |rom| => rom[i]);
    assert image[..] == rom;
    var primary := PrimaryTable(address, length);
    var first := CorrectDensoTable(base, image, primary);
    if first.TableDisabled? || Failed(first) {
      return ChecksumResult(StatusOf(first), image[..]);
    }
    var second := TableUnchanged;
    if HasSecondary(address) {
      second := CorrectDensoTable(base, image, SECONDARY_TABLE);
      if Failed(second) {
        return ChecksumResult(StatusOf(second), rom);
      }
    }
    result := ChecksumResult(if first.TableCorrected? || second.TableCorrected? then Status.Corrected else Unchanged,
                             image[..]);
  }

  /** Correcting a second table whose stored words the first neither reads nor holds keeps the
      first table settled. */
  lemma SecondTableKeepsFirst(rom: seq<byte>, base: word32, first: TableSpec, second: TableSpec)
    requires TableFits(|rom|, base, first) && AllHold(rom, base, first)
    requires TableFits(|rom|, base, second) && AllSummed(rom, base, second)
    requires BlocksClear(rom, base, first, second) && RecordsClear(base, first, second)
    ensures AllHold(Corrected(rom, base, second), base, first)
  {
    hide Corrected, RecordSum, BlocksClear, InStoredWord, ReadU32Be;
    var r := Corrected(rom, base, second);
    forall i | 0 <= i < |rom| && !InStoredWord(base, second, i)
      ensures r[i] == rom[i]
    {
      OnlyStoredWordsChange(rom, base, second, i);
    }
    forall k | 0 <= k < RecordCount(first)
      ensures RecordHolds(r, base, first, k)
    {
      var at := RecordAt(base, first, k);
      assert RecordHolds(rom, base, first, k);
      assert r[at..at + 12] == rom[at..at + 12];
      RecordWords(rom, r, at);
      SumKept(rom, r, base, first, second, k);
    }
  }

  lemma RecordWords(rom: seq<byte>, r: seq<byte>, at: nat)
    requires at + 12 <= |rom| == |r| && r[at..at + 12] == rom[at..at + 12]
    ensures ReadU32Be(r, at) == ReadU32Be(rom, at)
    ensures ReadU32Be(r, at + 4) == ReadU32Be(rom, at + 4)
    ensures ReadU32Be(r, at + 8) == ReadU32Be(rom, at + 8)
  {
    var record := rom[at..at + 12];
    assert forall i :: 0 <= i < 12 ==> r[at..at + 12][i] == record[i];
    assert forall i :: at <= i < at + 12 ==> r[i] == r[at..at + 12][i - at];
    assert forall i :: at <= i < at + 12 ==> rom[i] == record[i - at];
  }

  // ---- Both diesel tables -----------------------------------------------------------------

  predicate Completed(outcome: Outcome) {
    outcome.TableUnchanged? || outcome.TableCorrected?
  }

  /** The block ranges of a table's records are the same in both ROMs. */
  ghost predicate RangesKept(rom: seq<byte>, r: seq<byte>, base: word32, spec: TableSpec) {
    && |r| == |rom| && TableFits(|rom|, base, spec)
    && forall k :: 0 <= k < RecordCount(spec) ==>
         && ReadU32Be(r, RecordAt(base, spec, k)) == ReadU32Be(rom, RecordAt(base, spec, k))
         && ReadU32Be(r, RecordAt(base, spec, k) + 4) == ReadU32Be(rom, RecordAt(base, spec, k) + 4)
  }

  lemma ClearKept(rom: seq<byte>, r: seq<byte>, base: word32, spec: TableSpec, stored: TableSpec)
    requires RangesKept(rom, r, base, spec) && BlocksClear(rom, base, spec, stored)
    ensures BlocksClear(r, base, spec, stored)
  {
    hide ReadU32Be, WordClear, Overridden;
    forall k, address | 0 <= k < RecordCount(spec) && BlockReads(r, base, spec, k, address)
      ensures WordClear(base, stored, address)
    {
      assert BlockReads(rom, base, spec, k, address);
    }
  }

  /** A table whose pass completes holds afterwards, in the same blocks. */
  lemma TableSettled(rom: seq<byte>, base: word32, spec: TableSpec)
    requires TableFits(|rom|, base, spec) && Completed(TableOutcome(rom, base, spec))
    requires BlocksClear(rom, base, spec, spec)
    ensures var r := AfterTable(rom, base, spec);
            && AllSummed(r, base, spec) && AllHold(r, base, spec) && RangesKept(rom, r, base, spec)
  {
    hide Corrected, RecordSum, BlocksClear, ReadU32Be, RecordHolds;
    NoRefusal(rom, base, spec, 0);
    if TableOutcome(rom, base, spec).TableCorrected? {
      CorrectionHolds(rom, base, spec);
      forall k | 0 <= k < RecordCount(spec)
        ensures ReadU32Be(Corrected(rom, base, spec), RecordAt(base, spec, k)) == ReadU32Be(rom, RecordAt(base, spec, k))
        ensures ReadU32Be(Corrected(rom, base, spec), RecordAt(base, spec, k) + 4)
                == ReadU32Be(rom, RecordAt(base, spec, k) + 4)
      {
        RecordAfter(rom, base, spec, k);
      }
    }
  }

  /** Correcting one table keeps the block ranges of another whose records it does not touch. */
  lemma OtherRanges(rom: seq<byte>, base: word32, spec: TableSpec, other: TableSpec)
    requires TableFits(|rom|, base, spec) && TableFits(|rom|, base, other) && RecordsClear(base, other, spec)
    requires AllSummed(rom, base, spec)
    ensures RangesKept(rom, Corrected(rom, base, spec), base, other)
  {
    hide Corrected, RecordSum, InStoredWord, ReadU32Be;
    var r := Corrected(rom, base, spec);
    forall k | 0 <= k < RecordCount(other)
      ensures ReadU32Be(r, RecordAt(base, other, k)) == ReadU32Be(rom, RecordAt(base, other, k))
      ensures ReadU32Be(r, RecordAt(base, other, k) + 4) == ReadU32Be(rom, RecordAt(base, other, k) + 4)
    {
      var at := RecordAt(base, other, k);
      forall i | at <= i < at + 12
        ensures r[i] == rom[i]
      {
        OnlyStoredWordsChange(rom, base, spec, i);
      }
      assert r[at..at + 12] == rom[at..at + 12];
      RecordWords(rom, r, at);
    }
  }

  /** Two tables that do not overlap touch no record of each other. */
  lemma TablesApart(base: word32, first: TableSpec, second: TableSpec)
    requires first.address as int + first.length <= second.address
    requires first.length % RECORD_LENGTH == 0 && second.length % RECORD_LENGTH == 0
    ensures RecordsClear(base, first, second) && RecordsClear(base, second, first)
  {
  }

  /** When both passes of the diesel form complete and no block reads a stored word it must not, both
      tables hold at the end. */
  lemma DieselHolds(rom: seq<byte>, base: word32, length: word32)
    requires length <= 0xE8 && TableFits(|rom|, base, PrimaryTable(0x1FF800, length))
    requires TableFits(|rom|, base, SECONDARY_TABLE)
    requires var first := PrimaryTable(0x1FF800, length);
             && Completed(TableOutcome(rom, base, first))
             && Completed(TableOutcome(AfterTable(rom, base, first), base, SECONDARY_TABLE))
             && BlocksClear(rom, base, first, first) && BlocksClear(rom, base, first, SECONDARY_TABLE)
             && BlocksClear(rom, base, SECONDARY_TABLE, SECONDARY_TABLE)
    ensures var first := PrimaryTable(0x1FF800, length);
            var r := AfterTable(AfterTable(rom, base, first), base, SECONDARY_TABLE);
            AllHold(r, base, first) && AllHold(r, base, SECONDARY_TABLE)
  {
    hide Corrected, RecordSum, BlocksClear, ReadU32Be, RecordHolds, RecordsClear, RangesKept, AllHold, AllSummed;
    var first, second := PrimaryTable(0x1FF800, length), SECONDARY_TABLE;
    var mid := AfterTable(rom, base, first);
    TablesApart(base, first, second);
    TableSettled(rom, base, first);
    ClearKept(rom, mid, base, first, second);
    SecondRanges(rom, base, first, second);
    ClearKept(rom, mid, base, second, second);
    TableSettled(mid, base, second);
    NoRefusal(mid, base, second, 0);
    if TableOutcome(mid, base, second).TableCorrected? {
      SummedWhenCompleted(mid, base, second);
      SecondTableKeepsFirst(mid, base, first, second);
    }
  }

  lemma SummedWhenCompleted(rom: seq<byte>, base: word32, spec: TableSpec)
    requires TableFits(|rom|, base, spec) && Completed(TableOutcome(rom, base, spec))
    ensures AllSummed(rom, base, spec)
  {
    hide RecordSum, ReadU32Be, RecordHolds;
    NoRefusal(rom, base, spec, 0);
  }

  lemma SecondRanges(rom: seq<byte>, base: word32, first: TableSpec, second: TableSpec)
    requires TableFits(|rom|, base, first) && TableFits(|rom|, base, second) && RecordsClear(base, second, first)
    requires Completed(TableOutcome(rom, base, first))
    ensures RangesKept(rom, AfterTable(rom, base, first), base, second)
  {
    hide Corrected, RecordSum, RecordsClear, ReadU32Be, RecordHolds;
    SummedWhenCompleted(rom, base, first);
    OtherRanges(rom, base, first, second);
  }
}
