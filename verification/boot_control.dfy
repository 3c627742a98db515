/**
 * The A/B metadata record (`struct bootloader_control`) as a value.
 *
 * The record is 32 bytes at a fixed offset of the misc partition.  Its
 * field widths follow the bootloader_control layout of the Android
 * bootloader message: 9 leading bytes (slot suffix, magic, version) that
 * this tool never interprets, three 3-bit counters, seven bits of padding,
 * one reserved byte, four 2-byte slot entries, eight reserved bytes and the
 * little-endian checksum.  Every field is kept, padding included, so that
 * the record and its 32 bytes determine each other.
 */
module BootControl {

  /** `BOOT_CONTROL_MAX_PRI`: the largest value of the 4-bit priority. */
  const MAX_PRI: nat := 15

  /** `BOOT_CONTROL_MAX_RETRY`: the largest value of the 3-bit retry count. */
  const MAX_RETRY: nat := 7

  /** The capacity of `slot_info`; four slot labels exist, `_a` to `_d`. */
  const SLOT_CAPACITY: nat := 4

  /** The bytes before the bit-fields: slot suffix, magic and version. */
  const HEAD_LEN: nat := 9

  /** The reserved bytes between the slot entries and the checksum. */
  const RESERVED1_LEN: nat := 8

  /** One entry of `slot_info`.  The counters are numbers; the reserved
      bits are kept as their raw byte.  `SlotWellFormed` bounds each field
      by its bit width. */
  datatype SlotMetadata = SlotMetadata(
    priority: nat,          // 4 bits; 0 means never chosen automatically
    triesRemaining: nat,    // 3 bits
    successfulBoot: bool,   // 1 bit
    verityCorrupted: bool,  // 1 bit
    reserved: bv8           // 7 bits
  )

  /** The record.  `crc32Le` holds the value that its four little-endian
      bytes denote. */
  datatype BootloaderControl = BootloaderControl(
    head: seq<bv8>,
    nbSlot: nat,                  // 3 bits
    recoveryTriesRemaining: nat,  // 3 bits
    mergeStatus: nat,             // 3 bits
    padding: bv8,                 // the 7 bits that complete the bit-field pair
    reserved0: bv8,
    slotInfo: seq<SlotMetadata>,
    reserved1: seq<bv8>,
    crc32Le: bv32
  )

  /** Every slot field fits its bit width. */
  predicate SlotWellFormed(s: SlotMetadata)
  {
    s.priority <= MAX_PRI && s.triesRemaining <= MAX_RETRY && s.reserved < 128
  }

  /** Every field fits its bit width and every array has its declared
      length. */
  predicate WellFormed(c: BootloaderControl)
  {
    && |c.head| == HEAD_LEN
    && c.nbSlot < 8
    && c.recoveryTriesRemaining < 8
    && c.mergeStatus < 8
    && c.padding < 128
    && |c.slotInfo| == SLOT_CAPACITY
    && (forall i :: 0 <= i < SLOT_CAPACITY ==> SlotWellFormed(c.slotInfo[i]))
    && |c.reserved1| == RESERVED1_LEN
  }

  /** A record whose populated slots all lie inside `slot_info`, so that
      every scan over `nb_slot` stays in bounds.  `dumpSlot` and
      `setActive` read past the array when `nb_slot` exceeds four, so they
      are modelled only on such records; `enterProtect` does not scan and
      accepts every well-formed record. */
  predicate Supported(c: BootloaderControl)
  {
    WellFormed(c) && c.nbSlot <= SLOT_CAPACITY
  }

  /** An index inside `slot_info`: the slot indices protect and set-active
      can write without leaving the record. */
  predicate SlotIndex(slot: int)
  {
    0 <= slot < SLOT_CAPACITY
  }

  /** A populated slot of a supported record. */
  predicate ValidSlot(c: BootloaderControl, slot: int)
  {
    Supported(c) && 0 <= slot < c.nbSlot
  }
}
