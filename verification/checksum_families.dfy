/** The one-pass checksum families as the dispatcher runs them (src/backend/checksum/dispatch.cpp). */
module ChecksumFamilies {
  import opened Bytes
  import opened Results
  import opened ChecksumRules
  import opened ChecksumPrimitives
  import opened ChecksumHitachi
  import opened ChecksumMitsu
  import opened ChecksumDispatch

  /** The M32R CAN family, as CorrectM32rCan computes it; it takes its own size only. */
  function CanFamily(rom: seq<byte>): Option<ChecksumResult> {
    if |rom| != CAN_SIZE then None
    else
      CanRules();
      CanLayout();
      Some(ChecksumResult(CanStatus(rom), Run(CAN_RULES, rom)))
  }

  predicate CanHolds(rom: seq<byte>) {
    Layout(CAN_RULES, |rom|) && AllHold(CAN_RULES, rom)
  }

  /** The SH7058 family, as CorrectSh7058 computes it. */
  function ShFamily(rom: seq<byte>): Option<ChecksumResult> {
    if |rom| != SH_SIZE then None
    else
      ShLayout();
      Some(ChecksumResult(ShStatus(rom), Run(SH_RULES, rom)))
  }

  predicate ShHolds(rom: seq<byte>) {
    Layout(SH_RULES, |rom|) && AllHold(SH_RULES, rom)
  }

  /** The Mitsubishi family, as CorrectMitsu computes it, on ROMs of every size. */
  function MitsuFamily(rom: seq<byte>): Option<ChecksumResult> {
    Some(ChecksumResult(if |rom| < LAYOUT_END then InvalidSize
                        else if !Enabled(rom) then Disabled
                        else if MitsuHolds(rom) then Unchanged else Corrected,
                        MitsuPass(rom)))
  }

  predicate MitsuHoldsIfEnabled(rom: seq<byte>) {
    Enabled(rom) ==> MitsuHolds(rom)
  }

  method RunM32rCan(rom: seq<byte>) returns (result: Option<ChecksumResult>)
    ensures result == CanFamily(rom)
  {
    hide WellFormed, Holds, Run, AllHold;
    if |rom| != CAN_SIZE {
      return None;
    }
    var r := CorrectM32rCan(rom);
    result := Some(r);
  }

  method RunSh7058(rom: seq<byte>) returns (result: Option<ChecksumResult>)
    ensures result == ShFamily(rom)
  {
    hide WellFormed, Holds, Run, AllHold;
    if |rom| != SH_SIZE {
      return None;
    }
    var r := CorrectSh7058(rom);
    result := Some(r);
  }

  method RunMitsu(rom: seq<byte>) returns (result: Option<ChecksumResult>)
    ensures result == MitsuFamily(rom)
  {
    hide Enabled, MitsuHolds, MitsuPass;
    var r := CorrectMitsu(rom);
    result := Some(r);
  }

  /** So a file the dispatcher yields for one of these families is settled, and yields itself again. */
  lemma CanSettling()
    ensures Settling(CanFamily, CanHolds, CAN_SIZE)
  {
    hide WellFormed, Holds, Run, AllHold;
    forall view | |view| == CAN_SIZE && Usable(CanFamily(view), CAN_SIZE)
      ensures var rom := CanFamily(view).value.rom;
              CanHolds(rom) && Usable(CanFamily(rom), CAN_SIZE) && CanFamily(rom).value.rom == rom
    {
      CanSettled(view);
    }
  }

  lemma ShSettling()
    ensures Settling(ShFamily, ShHolds, SH_SIZE)
  {
    hide WellFormed, Holds, Run, AllHold;
    forall view | |view| == SH_SIZE && Usable(ShFamily(view), SH_SIZE)
      ensures var rom := ShFamily(view).value.rom;
              ShHolds(rom) && Usable(ShFamily(rom), SH_SIZE) && ShFamily(rom).value.rom == rom
    {
      ShSettled(view);
    }
  }

  lemma MitsuSettling(size: nat)
    ensures Settling(MitsuFamily, MitsuHoldsIfEnabled, size)
  {
    hide Enabled, MitsuHolds, MitsuPass;
    forall view | |view| == size && Usable(MitsuFamily(view), size)
      ensures var rom := MitsuFamily(view).value.rom;
              MitsuHoldsIfEnabled(rom) && Usable(MitsuFamily(rom), size) && MitsuFamily(rom).value.rom == rom
    {
      MitsuStays(view);
    }
  }

  lemma MitsuStays(rom: seq<byte>)
    ensures var r := MitsuPass(rom);
            MitsuPass(r) == r && Enabled(r) == Enabled(rom) && (Enabled(r) ==> MitsuHolds(r))
  {
    hide MitsuHolds;
    if Enabled(rom) {
      MitsuSettled(rom);
    }
  }
}
