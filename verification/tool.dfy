/**
 * The flag dispatch of `main`: load first; on failure stop with no change;
 * otherwise dump if asked (or if nothing was asked), protect, then
 * activate, and save when anything was changed.
 */
module Tool {
  import opened BootControl
  import opened Codec
  import opened Arbitrator
  import opened Persistence

  /** The mode bits collected from the options. */
  const FLAG_DUMP: nat := 1      // -d
  const FLAG_SET_ACTIVE: nat := 2  // -s <slot>
  const FLAG_PROTECT: nat := 4   // -p <slot>

  /** `mode & flag` is nonzero, for a single-bit flag. */
  predicate HasFlag(mode: nat, flag: nat)
    requires flag > 0
  {
    mode / flag % 2 == 1
  }

  datatype Option<T> = None | Some(value: T)

  /** What one invocation leaves behind: its exit code, whether it reported
      the record as unsupported, the next slot the dump reported (if it
      dumped), the in-memory record, whether it wrote the partition, and the
      partition. */
  datatype Outcome = Outcome(
    exitCode: int,
    unsupported: bool,
    dumped: Option<nat>,
    ctl: BootloaderControl,
    wrote: bool,
    device: Device
  )

  /** The record a successful load yields supports every operation the mode
      asks for without reading or writing outside the record: at most four
      populated slots when the mode dumps or activates (both walk the
      populated slots), and each slot index passed on the command line
      inside `slot_info`.  The tool checks none of this itself. */
  predicate Runnable(mode: nat, protectSlot: int, activeSlot: int, d: Device)
    requires DeviceWellFormed(d)
  {
    Loads(d) ==> SlotsValid(mode, protectSlot, activeSlot, Decode(d.image))
  }

  /** The mode walks the populated slots: it dumps (explicitly or by
      default) or activates. */
  predicate WalksSlots(mode: nat)
  {
    HasFlag(mode, FLAG_DUMP) || mode == 0 || HasFlag(mode, FLAG_SET_ACTIVE)
  }

  /** `c` has at most four populated slots if the mode walks them, and the
      slot indices the mode uses lie inside `slot_info`.  Protecting alone
      touches only the given slot, so it accepts every count of populated
      slots a record can hold. */
  predicate SlotsValid(mode: nat, protectSlot: int, activeSlot: int, c: BootloaderControl)
  {
    && WellFormed(c)
    && (WalksSlots(mode) ==> Supported(c))
    && (HasFlag(mode, FLAG_PROTECT) ==> SlotIndex(protectSlot))
    && (HasFlag(mode, FLAG_SET_ACTIVE) ==> SlotIndex(activeSlot))
  }

  /** The in-memory changes of a run: protect first, then set-active. */
  function Apply(mode: nat, protectSlot: int, activeSlot: int, loaded: BootloaderControl): (r: BootloaderControl)
    requires SlotsValid(mode, protectSlot, activeSlot, loaded)
    ensures WellFormed(r) && (Supported(loaded) ==> Supported(r))
    ensures HasFlag(mode, FLAG_SET_ACTIVE) ==> r.slotInfo[activeSlot].priority == MAX_PRI
    ensures !HasFlag(mode, FLAG_PROTECT) && !HasFlag(mode, FLAG_SET_ACTIVE) ==> r == loaded
  {
    var protected := if HasFlag(mode, FLAG_PROTECT) then Protect(loaded, protectSlot) else loaded;
    if HasFlag(mode, FLAG_SET_ACTIVE) then SetActive(protected, activeSlot) else protected
  }

  /** One run of the tool on the options already parsed into `mode` and the
      two slot indices, with `ctl` the initial value of the global record. */
  function Run(mode: nat, protectSlot: int, activeSlot: int, ctl: BootloaderControl, d: Device): (o: Outcome)
    requires mode < 8 && DeviceWellFormed(d)
    requires Runnable(mode, protectSlot, activeSlot, d)
    ensures DeviceWellFormed(o.device)
    ensures o.exitCode == 0 <==> Loads(d)
    ensures o.exitCode != 0 ==> o.exitCode == -1
    ensures o.unsupported <==> Reachable(d) && !ImageVerified(d.image)
  {
    var rd := ReadBootCtrl(ctl, d);
    if rd.status < 0 then
      Outcome(-1, rd.status == CRC_MISMATCH, None, ctl, false, d)
    else
      var loaded := rd.ctl;
      var dumped := if HasFlag(mode, FLAG_DUMP) || mode == 0 then Some(NextSlot(loaded)) else None;
      var changed := Apply(mode, protectSlot, activeSlot, loaded);
      if mode >= FLAG_SET_ACTIVE then
        var sv := SaveBootCtrl(changed, d);
        Outcome(0, false, dumped, sv.ctl, sv.status == OK, sv.device)
      else
        Outcome(0, false, dumped, changed, false, d)
  }

  /** For the modes the options can build, `mode >= FLAG_SET_ACTIVE` holds
      exactly when protect or set-active was asked for. */
  lemma SaveTestMeansChangeRequested(mode: nat)
    requires mode < 8
    ensures mode >= FLAG_SET_ACTIVE <==> HasFlag(mode, FLAG_SET_ACTIVE) || HasFlag(mode, FLAG_PROTECT)
  {
  }

  /** A failed load stops the run: nothing is dumped, changed or written. */
  lemma FailedLoadChangesNothing(mode: nat, protectSlot: int, activeSlot: int, ctl: BootloaderControl, d: Device)
    requires mode < 8 && DeviceWellFormed(d) && Runnable(mode, protectSlot, activeSlot, d)
    requires !Loads(d)
    ensures var o := Run(mode, protectSlot, activeSlot, ctl, d);
            o.exitCode == -1 && o.dumped == None && o.ctl == ctl && !o.wrote && o.device == d
  {
  }

  /** The partition is written exactly when the load succeeded, protect or
      set-active was asked for, and the partition opens for writing and
      seeks; otherwise it is left as it was. */
  lemma WritesExactlyWhenChangeRequested(mode: nat, protectSlot: int, activeSlot: int, ctl: BootloaderControl, d: Device)
    requires mode < 8 && DeviceWellFormed(d) && Runnable(mode, protectSlot, activeSlot, d)
    ensures var o := Run(mode, protectSlot, activeSlot, ctl, d);
            && (o.wrote <==> Loads(d) && (HasFlag(mode, FLAG_SET_ACTIVE) || HasFlag(mode, FLAG_PROTECT))
                                      && d.writable && d.seekable)
            && (!o.wrote ==> o.device == d)
  {
    SaveTestMeansChangeRequested(mode);
  }

  /** The dump happens exactly when the load succeeded and `-d` was given
      or no option was, and it reports the next slot of the record as
      loaded, before any change. */
  lemma DumpsExactlyWhenAsked(mode: nat, protectSlot: int, activeSlot: int, ctl: BootloaderControl, d: Device)
    requires mode < 8 && DeviceWellFormed(d) && Runnable(mode, protectSlot, activeSlot, d)
    ensures var o := Run(mode, protectSlot, activeSlot, ctl, d);
            && (o.dumped.Some? <==> Loads(d) && (HasFlag(mode, FLAG_DUMP) || mode == 0))
            && (o.dumped.Some? ==> o.dumped.value == NextSlot(Decode(d.image)))
  {
    var rd := ReadBootCtrl(ctl, d);
    assert rd.status == OK <==> Loads(d);
    assert rd.status == OK ==> rd.ctl == Decode(d.image);
  }

  /** After a successful load the record is the loaded one with protect
      applied first and set-active second, then stamped if it was saved. */
  lemma ProtectBeforeActivate(mode: nat, protectSlot: int, activeSlot: int, ctl: BootloaderControl, d: Device)
    requires mode < 8 && DeviceWellFormed(d) && Runnable(mode, protectSlot, activeSlot, d)
    requires Loads(d) && HasFlag(mode, FLAG_PROTECT) && HasFlag(mode, FLAG_SET_ACTIVE)
    requires d.writable && d.seekable
    ensures var loaded := Decode(d.image);
            Run(mode, protectSlot, activeSlot, ctl, d).ctl
              == Stamp(SetActive(Protect(loaded, protectSlot), activeSlot))
  {
    var rd := ReadBootCtrl(ctl, d);
    assert rd.status == OK && rd.ctl == Decode(d.image);
    SaveTestMeansChangeRequested(mode);
  }

  /** Protecting and activating the same slot in one run leaves it with the
      full retry budget (set-active runs last) and without its confirmed
      flag (set-active does not touch it). */
  lemma ProtectAndActivateSameSlot(mode: nat, slot: int, c: BootloaderControl)
    requires SlotsValid(mode, slot, slot, c)
    requires HasFlag(mode, FLAG_PROTECT) && HasFlag(mode, FLAG_SET_ACTIVE)
    ensures var s := Apply(mode, slot, slot, c).slotInfo[slot];
            s.priority == MAX_PRI && s.triesRemaining == MAX_RETRY && !s.successfulBoot
  {
    var p := Protect(c, slot);
    assert !p.slotInfo[slot].successfulBoot;
    assert SetActive(p, slot).slotInfo[slot] == p.slotInfo[slot].(priority := MAX_PRI, triesRemaining := MAX_RETRY);
  }

  /** A run that asks for a change, on a partition that loads and opens for
      writing, writes the stamped result of the changes. */
  lemma ChangedRunWrites(mode: nat, protectSlot: int, activeSlot: int, ctl: BootloaderControl, d: Device)
    requires mode < 8 && DeviceWellFormed(d) && Runnable(mode, protectSlot, activeSlot, d)
    requires Loads(d) && mode >= FLAG_SET_ACTIVE && d.writable && d.seekable
    ensures var o := Run(mode, protectSlot, activeSlot, ctl, d);
            var changed := Apply(mode, protectSlot, activeSlot, Decode(d.image));
            o.wrote && o.ctl == Stamp(changed) && o.device == d.(image := Encode(Stamp(changed)))
  {
    var rd := ReadBootCtrl(ctl, d);
    assert rd.status == OK && rd.ctl == Decode(d.image);
  }

  /** A run with `-p` alone accepts a record with any slot count, even one
      above the four entries of `slot_info`: it writes the record back with
      the protected slot at `MAX_RETRY - 1` tries and `nb_slot` unchanged. */
  lemma ProtectAloneAnySlotCount(protectSlot: int, ctl: BootloaderControl, d: Device)
    requires DeviceWellFormed(d) && Loads(d) && SlotIndex(protectSlot) && d.writable && d.seekable
    ensures Runnable(FLAG_PROTECT, protectSlot, 0, d)
    ensures var o := Run(FLAG_PROTECT, protectSlot, 0, ctl, d);
            && o.exitCode == 0 && o.wrote && o.dumped == None
            && o.ctl.nbSlot == Decode(d.image).nbSlot
            && o.ctl.slotInfo[protectSlot].triesRemaining == MAX_RETRY - 1
  {
    assert !HasFlag(FLAG_PROTECT, FLAG_DUMP) && !HasFlag(FLAG_PROTECT, FLAG_SET_ACTIVE);
    assert HasFlag(FLAG_PROTECT, FLAG_PROTECT);
    var loaded := Decode(d.image);
    assert Apply(FLAG_PROTECT, protectSlot, 0, loaded) == Protect(loaded, protectSlot);
    ChangedRunWrites(FLAG_PROTECT, protectSlot, 0, ctl, d);
  }

  /** A plain run on a partition that holds a stamped, supported record
      reports that record's next slot. */
  lemma DumpOfSaved(c: BootloaderControl, other: BootloaderControl, d: Device)
    requires Supported(c) && DeviceWellFormed(d) && d.readable && d.seekable
    ensures var d' := d.(image := Encode(Stamp(c)));
            Runnable(0, 0, 0, d') && Run(0, 0, 0, other, d').dumped == Some(NextSlot(c))
  {
    var s := Stamp(c);
    var d' := d.(image := Encode(s));
    StampedImageVerifies(c);
    DecodeEncode(s);
    assert Supported(s) && NextSlot(s) == NextSlot(c);
    assert SlotsValid(0, 0, 0, Decode(d'.image));
    var rd := ReadBootCtrl(other, d');
    assert rd.status == OK && rd.ctl == s;
  }

  /** What a run writes is what the next run reads: the partition then
      holds the run's final record, and a plain dump of it reports the
      activated slot. */
  lemma ActivatedSlotBootsNext(mode: nat, protectSlot: int, activeSlot: int, ctl: BootloaderControl, d: Device)
    requires mode < 8 && DeviceWellFormed(d) && Runnable(mode, protectSlot, activeSlot, d)
    requires Loads(d) && HasFlag(mode, FLAG_SET_ACTIVE) && d.writable && d.seekable
    requires activeSlot < Decode(d.image).nbSlot
    ensures var o := Run(mode, protectSlot, activeSlot, ctl, d);
            && o.wrote
            && Runnable(0, 0, 0, o.device)
            && Run(0, 0, 0, o.ctl, o.device).dumped == Some(activeSlot as nat)
  {
    var loaded := Decode(d.image);
    var protected := if HasFlag(mode, FLAG_PROTECT) then Protect(loaded, protectSlot) else loaded;
    var changed := Apply(mode, protectSlot, activeSlot, loaded);
    assert changed == SetActive(protected, activeSlot);
    SetActiveSelectsSlot(protected, activeSlot);
    SaveTestMeansChangeRequested(mode);
    ChangedRunWrites(mode, protectSlot, activeSlot, ctl, d);
    var o := Run(mode, protectSlot, activeSlot, ctl, d);
    DumpOfSaved(changed, o.ctl, d);
  }
}
