/**
 * Loading and saving the record.  The misc partition is a value: whether
 * it opens for reading, whether it opens for writing, whether the seek to
 * the record's offset succeeds, and the 32 bytes found at that offset.
 */
module Persistence {
  import opened Crc32
  import opened BootControl
  import opened Codec

  /** The status `readBootCtrl` and `saveBootCtrl` return. */
  const OK: int := 0
  const IO_FAILURE: int := -1
  const CRC_MISMATCH: int := -2

  /** The misc partition; `image` is the record-sized window at the slot
      suffix offset. */
  datatype Device = Device(readable: bool, writable: bool, seekable: bool, image: seq<bv8>)

  predicate DeviceWellFormed(d: Device)
  {
    |d.image| == RECORD_SIZE
  }

  /** The load reaches the checksum comparison. */
  predicate Reachable(d: Device)
  {
    d.readable && d.seekable
  }

  /** A load succeeds on this device. */
  predicate Loads(d: Device)
    requires DeviceWellFormed(d)
  {
    Reachable(d) && ImageVerified(d.image)
  }

  datatype ReadResult = ReadResult(status: int, ctl: BootloaderControl)

  /** `readBootCtrl`: on success the caller's record becomes the record on
      the device; on any failure it is left as it was. */
  function ReadBootCtrl(ctl: BootloaderControl, d: Device): (r: ReadResult)
    requires DeviceWellFormed(d)
    ensures r.status == OK <==> Loads(d)
    ensures r.status == CRC_MISMATCH <==> Reachable(d) && !ImageVerified(d.image)
    ensures r.status == IO_FAILURE <==> !Reachable(d)
    ensures r.status != OK ==> r.ctl == ctl
    ensures r.status == OK ==> r.ctl == Decode(d.image) && Verified(r.ctl) && Encode(r.ctl) == d.image
  {
    if !d.readable then ReadResult(IO_FAILURE, ctl)
    else if !d.seekable then ReadResult(IO_FAILURE, ctl)
    else
      var buf := Decode(d.image);
      ImageVerifiedIffDecodedVerified(d.image);
      EncodeDecode(d.image);
      if Lecrc(buf) != buf.crc32Le then ReadResult(CRC_MISMATCH, ctl)
      else ReadResult(OK, buf)
  }

  datatype SaveResult = SaveResult(status: int, ctl: BootloaderControl, device: Device)

  /** `saveBootCtrl`: once the partition is open and positioned, the
      record is stamped and its 32 bytes replace the window.  The stamp
      happens after the seek, so a failed open or seek leaves the record
      as well as the device untouched. */
  function SaveBootCtrl(ctl: BootloaderControl, d: Device): (r: SaveResult)
    requires WellFormed(ctl) && DeviceWellFormed(d)
    ensures r.status == OK || r.status == IO_FAILURE
    ensures r.status == OK <==> d.writable && d.seekable
    ensures r.status != OK ==> r.ctl == ctl && r.device == d
    ensures r.status == OK ==> r.ctl == Stamp(ctl) && r.device == d.(image := Encode(r.ctl))
    ensures DeviceWellFormed(r.device) && WellFormed(r.ctl)
  {
    if !d.writable then SaveResult(IO_FAILURE, ctl, d)
    else if !d.seekable then SaveResult(IO_FAILURE, ctl, d)
    else
      var stamped := Stamp(ctl);
      SaveResult(OK, stamped, d.(image := Encode(stamped)))
  }

  /** A saved record loads back: the load succeeds and yields the stamped
      record, whatever the caller's record was. */
  lemma SaveThenLoad(ctl: BootloaderControl, other: BootloaderControl, d: Device)
    requires WellFormed(ctl) && DeviceWellFormed(d) && d.readable
    requires SaveBootCtrl(ctl, d).status == OK
    ensures ReadBootCtrl(other, SaveBootCtrl(ctl, d).device) == ReadResult(OK, Stamp(ctl))
  {
    var d' := SaveBootCtrl(ctl, d).device;
    StampedImageVerifies(ctl);
    DecodeEncode(Stamp(ctl));
  }

  /** Loading a record and saving it unchanged writes back the same bytes:
      a verified record is already stamped. */
  lemma LoadThenSaveRewritesSameBytes(ctl: BootloaderControl, d: Device)
    requires DeviceWellFormed(d) && Loads(d) && d.writable
    ensures SaveBootCtrl(ReadBootCtrl(ctl, d).ctl, d).device == d
  {
    var c := ReadBootCtrl(ctl, d).ctl;
    StampIdempotent(c);
  }

  /** A load of an image with one byte changed since it was saved fails
      with the checksum error and leaves the caller's record alone. */
  lemma CorruptedSaveRejected(ctl: BootloaderControl, other: BootloaderControl, d: Device, k: nat, b: bv8)
    requires WellFormed(ctl) && DeviceWellFormed(d) && d.readable
    requires SaveBootCtrl(ctl, d).status == OK
    requires k < RECORD_SIZE && b != SaveBootCtrl(ctl, d).device.image[k]
    ensures var saved := SaveBootCtrl(ctl, d).device;
            ReadBootCtrl(other, saved.(image := saved.image[k := b])) == ReadResult(CRC_MISMATCH, other)
  {
    var saved := SaveBootCtrl(ctl, d).device;
    StampedImageVerifies(ctl);
    OneByteChangeRejected(saved.image, k, b);
  }

  /** A blank partition (all zero bytes) is rejected as unsupported. */
  lemma BlankDeviceRejected(ctl: BootloaderControl, d: Device)
    requires Reachable(d) && d.image == ZeroBytes(RECORD_SIZE)
    ensures ReadBootCtrl(ctl, d) == ReadResult(CRC_MISMATCH, ctl)
  {
    ZeroImageRejected();
  }
}
