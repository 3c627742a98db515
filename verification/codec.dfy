/**
 * The 32-byte image of the record, its checksum, and the stamp and
 * verification that surround every save and load.
 *
 * The checksum covers the bytes before `crc32_le`.  The field is stored
 * little-endian whatever the host's byte order (`htole32` on the stamping
 * side, the same conversion on the comparing side), so at the level of the
 * image the rule is: the last four bytes, read little-endian, equal the
 * CRC-32 of the first 28.
 *
 * The bit-field values move between `bv8` and `nat` through `Num` and
 * `Byte`, which count one step at a time, rather than through `as` casts:
 * a direct cast between a bit-vector and an integer makes the solver's
 * work on the field round trips far too costly, while the counting
 * functions stay plain function symbols that the sixteen-case lemmas
 * below settle once.
 */
module Codec {
  import opened Crc32
  import opened BootControl

  /** `sizeof(struct bootloader_control)`. */
  const RECORD_SIZE: nat := 32

  /** `offsetof(struct bootloader_control, crc32_le)`: the length of the
      checksummed prefix. */
  const CRC_OFFSET: nat := 28

  // ---------------------------------------------------------------------
  // Little-endian words
  // ---------------------------------------------------------------------

  /** The four little-endian bytes of a word. */
  function LeBytes(w: bv32): (s: seq<bv8>)
    ensures |s| == 4
  {
    [(w & 0xFF) as bv8, ((w >> 8) & 0xFF) as bv8, ((w >> 16) & 0xFF) as bv8, (w >> 24) as bv8]
  }

  /** The word whose little-endian bytes are `b0`, `b1`, `b2`, `b3`. */
  function Pack(b0: bv8, b1: bv8, b2: bv8, b3: bv8): bv32
  {
    (b0 as bv32) | ((b1 as bv32) << 8) | ((b2 as bv32) << 16) | ((b3 as bv32) << 24)
  }

  /** The word that four little-endian bytes denote. */
  function LeWord(s: seq<bv8>): bv32
    requires |s| == 4
  {
    Pack(s[0], s[1], s[2], s[3])
  }

  lemma LeBytesOfPack(b0: bv8, b1: bv8, b2: bv8, b3: bv8)
    ensures LeBytes(Pack(b0, b1, b2, b3)) == [b0, b1, b2, b3]
  {
  }

  lemma LeWordOfLeBytes(w: bv32)
    ensures LeWord(LeBytes(w)) == w
  {
  }

  lemma LeBytesOfLeWord(s: seq<bv8>)
    requires |s| == 4
    ensures LeBytes(LeWord(s)) == s
  {
    LeBytesOfPack(s[0], s[1], s[2], s[3]);
  }

  /** Four bytes that differ denote different words. */
  lemma LeWordInjective(s: seq<bv8>, t: seq<bv8>)
    requires |s| == 4 && |t| == 4 && s != t
    ensures LeWord(s) != LeWord(t)
  {
    LeBytesOfLeWord(s);
    LeBytesOfLeWord(t);
  }

  // ---------------------------------------------------------------------
  // Bit-fields
  // ---------------------------------------------------------------------

  /** A byte as the number it denotes, counted up one at a time so that
      the conversion stays a plain function symbol for the solver. */
  function Num(x: bv8): nat
    decreases x
  {
    if x == 0 then 0 else Num(x - 1) + 1
  }

  /** A field value of at most four bits as a byte. */
  function Byte(n: nat): bv8
    requires n < 16
  {
    if n == 0 then 0 else Byte(n - 1) + 1
  }

  /** `Byte` and `Num` are inverse on four-bit values, and keep the
      three-bit ones below 8. */
  lemma ByteThenNum(n: nat)
    requires n < 16
    ensures Num(Byte(n)) == n && Byte(n) < 16 && (n < 8 ==> Byte(n) < 8)
  {
    assert n == 0 || n == 1 || n == 2 || n == 3 || n == 4 || n == 5 || n == 6 || n == 7 ||
           n == 8 || n == 9 || n == 10 || n == 11 || n == 12 || n == 13 || n == 14 || n == 15;
  }

  lemma NumThenByte(x: bv8)
    requires x < 16
    ensures Num(x) < 16 && Byte(Num(x)) == x && (x < 8 ==> Num(x) < 8)
  {
    assert x == 0 || x == 1 || x == 2 || x == 3 || x == 4 || x == 5 || x == 6 || x == 7 ||
           x == 8 || x == 9 || x == 10 || x == 11 || x == 12 || x == 13 || x == 14 || x == 15;
  }

  /** A one-bit field as a byte. */
  function Bit(b: bool): bv8
  {
    if b then 1 else 0
  }

  /** Fields of 4, 3 and 1 bits packed into a byte, lowest first, and read
      back. */
  lemma Join431(p: bv8, t: bv8, f: bv8)
    requires p < 16 && t < 8 && f < 2
    ensures var x := p | (t << 4) | (f << 7); x & 0xF == p && (x >> 4) & 7 == t && x >> 7 == f
  {
  }

  /** A byte is the packing of its 4-, 3- and 1-bit fields. */
  lemma Split431(x: bv8)
    ensures (x & 0xF) | (((x >> 4) & 7) << 4) | ((x >> 7) << 7) == x
    ensures x >> 7 < 2
  {
  }

  /** Fields of 3, 3 and 2 bits packed into a byte, lowest first, and read
      back. */
  lemma Join332(n: bv8, r: bv8, m: bv8)
    requires n < 8 && r < 8 && m < 4
    ensures var x := n | (r << 3) | (m << 6); x & 7 == n && (x >> 3) & 7 == r && x >> 6 == m
  {
  }

  lemma Split332(x: bv8)
    ensures (x & 7) | (((x >> 3) & 7) << 3) | ((x >> 6) << 6) == x
  {
  }

  /** Fields of 1 and 7 bits packed into a byte, lowest first, and read
      back. */
  lemma Join17(v: bv8, r: bv8)
    requires v < 2 && r < 128
    ensures var x := v | (r << 1); x & 1 == v && x >> 1 == r
  {
  }

  lemma Split17(x: bv8)
    ensures (x & 1) | ((x >> 1) << 1) == x
  {
  }

  /** A 3-bit field split at bit 2, as `merge_status` is across the byte
      boundary, and joined again. */
  lemma Split21(m: bv8)
    requires m < 8
    ensures (m & 3) | ((m >> 2) << 2) == m && m >> 2 < 2
  {
  }

  lemma Join21(lo: bv8, hi: bv8)
    requires lo < 4 && hi < 2
    ensures var m := lo | (hi << 2); m < 8 && m & 3 == lo && m >> 2 == hi
  {
  }

  lemma BitOfFlag(x: bv8)
    requires x < 2
    ensures Bit(x == 1) == x
  {
  }

  /** The first byte of a slot entry: priority in bits 0-3, retries in bits
      4-6, the boot flag in bit 7. */
  function SlotByte0(s: SlotMetadata): bv8
    requires SlotWellFormed(s)
  {
    Byte(s.priority) | (Byte(s.triesRemaining) << 4) | (Bit(s.successfulBoot) << 7)
  }

  /** The second byte of a slot entry: the verity flag in bit 0, the
      reserved bits above it. */
  function SlotByte1(s: SlotMetadata): bv8
    requires SlotWellFormed(s)
  {
    Bit(s.verityCorrupted) | (s.reserved << 1)
  }

  function SlotBytes(s: SlotMetadata): (b: seq<bv8>)
    requires SlotWellFormed(s)
    ensures |b| == 2
  {
    [SlotByte0(s), SlotByte1(s)]
  }

  function ParseSlot(b0: bv8, b1: bv8): (s: SlotMetadata)
    ensures SlotWellFormed(s)
  {
    NumThenByte(b0 & 0xF);
    NumThenByte((b0 >> 4) & 7);
    SlotMetadata(Num(b0 & 0xF), Num((b0 >> 4) & 7), b0 >> 7 == 1, b1 & 1 == 1, b1 >> 1)
  }

  lemma SlotByte0Fields(s: SlotMetadata)
    requires SlotWellFormed(s)
    ensures var x := SlotByte0(s);
      Num(x & 0xF) == s.priority && Num((x >> 4) & 7) == s.triesRemaining && (x >> 7 == 1) == s.successfulBoot
  {
    ByteThenNum(s.priority);
    ByteThenNum(s.triesRemaining);
    Join431(Byte(s.priority), Byte(s.triesRemaining), Bit(s.successfulBoot));
  }

  lemma SlotByte1Fields(s: SlotMetadata)
    requires SlotWellFormed(s)
    ensures var y := SlotByte1(s); (y & 1 == 1) == s.verityCorrupted && y >> 1 == s.reserved
  {
    Join17(Bit(s.verityCorrupted), s.reserved);
  }

  lemma ParseSlotBytes(s: SlotMetadata)
    requires SlotWellFormed(s)
    ensures ParseSlot(SlotByte0(s), SlotByte1(s)) == s
  {
    SlotByte0Fields(s);
    SlotByte1Fields(s);
  }

  lemma SlotBytesOfParse(b0: bv8, b1: bv8)
    ensures SlotByte0(ParseSlot(b0, b1)) == b0
    ensures SlotByte1(ParseSlot(b0, b1)) == b1
  {
    NumThenByte(b0 & 0xF);
    NumThenByte((b0 >> 4) & 7);
    Split431(b0);
    BitOfFlag(b0 >> 7);
    Split17(b1);
    BitOfFlag(b1 & 1);
  }

  /** The first byte of the bit-field pair after the head: `nb_slot` in bits
      0-2, `recovery_tries_remaining` in bits 3-5, the low two bits of
      `merge_status` in bits 6-7. */
  function CounterByte0(c: BootloaderControl): bv8
    requires WellFormed(c)
  {
    Byte(c.nbSlot) | (Byte(c.recoveryTriesRemaining) << 3) | ((Byte(c.mergeStatus) & 3) << 6)
  }

  /** The second byte: the high bit of `merge_status`, then the seven
      padding bits. */
  function CounterByte1(c: BootloaderControl): bv8
    requires WellFormed(c)
  {
    (Byte(c.mergeStatus) >> 2) | (c.padding << 1)
  }

  function CounterBytes(c: BootloaderControl): (b: seq<bv8>)
    requires WellFormed(c)
    ensures |b| == 2
  {
    [CounterByte0(c), CounterByte1(c)]
  }

  /** The counters and padding stored in the bit-field pair `b0`, `b1`, as
      (nb_slot, recovery_tries_remaining, merge_status, padding). */
  function ParseCounters(b0: bv8, b1: bv8): (n: (nat, nat, nat, bv8))
    ensures n.0 < 8 && n.1 < 8 && n.2 < 8 && n.3 < 128
  {
    Join21(b0 >> 6, b1 & 1);
    NumThenByte(b0 & 7);
    NumThenByte((b0 >> 3) & 7);
    NumThenByte((b0 >> 6) | ((b1 & 1) << 2));
    (Num(b0 & 7), Num((b0 >> 3) & 7), Num((b0 >> 6) | ((b1 & 1) << 2)), b1 >> 1)
  }

  lemma ParseCounterBytes(c: BootloaderControl)
    requires WellFormed(c)
    ensures ParseCounters(CounterByte0(c), CounterByte1(c))
         == (c.nbSlot, c.recoveryTriesRemaining, c.mergeStatus, c.padding)
  {
    ByteThenNum(c.nbSlot);
    ByteThenNum(c.recoveryTriesRemaining);
    ByteThenNum(c.mergeStatus);
    var m := Byte(c.mergeStatus);
    Split21(m);
    Join332(Byte(c.nbSlot), Byte(c.recoveryTriesRemaining), m & 3);
    Join17(m >> 2, c.padding);
  }

  /** The counters parsed from a byte pair, as bytes again. */
  lemma ParsedCounterFields(c: BootloaderControl, b0: bv8, b1: bv8)
    requires WellFormed(c)
    requires (c.nbSlot, c.recoveryTriesRemaining, c.mergeStatus, c.padding) == ParseCounters(b0, b1)
    ensures Byte(c.nbSlot) == b0 & 7
    ensures Byte(c.recoveryTriesRemaining) == (b0 >> 3) & 7
    ensures Byte(c.mergeStatus) == (b0 >> 6) | ((b1 & 1) << 2)
    ensures c.padding == b1 >> 1
  {
    Join21(b0 >> 6, b1 & 1);
    NumThenByte(b0 & 7);
    NumThenByte((b0 >> 3) & 7);
    NumThenByte((b0 >> 6) | ((b1 & 1) << 2));
  }

  /** The counter bytes rebuilt from the fields parsed out of them. */
  lemma RepackCounters(n: bv8, r: bv8, m: bv8, b0: bv8, b1: bv8)
    requires n == b0 & 7 && r == (b0 >> 3) & 7 && m == (b0 >> 6) | ((b1 & 1) << 2)
    ensures n | (r << 3) | ((m & 3) << 6) == b0
    ensures (m >> 2) | ((b1 >> 1) << 1) == b1
  {
    Join21(b0 >> 6, b1 & 1);
    Split332(b0);
    Split17(b1);
  }

  lemma CounterBytesOfFields(c: BootloaderControl, b0: bv8, b1: bv8)
    requires WellFormed(c)
    requires Byte(c.nbSlot) == b0 & 7
    requires Byte(c.recoveryTriesRemaining) == (b0 >> 3) & 7
    requires Byte(c.mergeStatus) == (b0 >> 6) | ((b1 & 1) << 2)
    requires c.padding == b1 >> 1
    ensures CounterByte0(c) == b0 && CounterByte1(c) == b1
  {
    RepackCounters(Byte(c.nbSlot), Byte(c.recoveryTriesRemaining), Byte(c.mergeStatus), b0, b1);
  }

  lemma CounterBytesOfParse(c: BootloaderControl, b0: bv8, b1: bv8)
    requires WellFormed(c)
    requires (c.nbSlot, c.recoveryTriesRemaining, c.mergeStatus, c.padding) == ParseCounters(b0, b1)
    ensures CounterByte0(c) == b0 && CounterByte1(c) == b1
  {
    ParsedCounterFields(c, b0, b1);
    CounterBytesOfFields(c, b0, b1);
  }

  // ---------------------------------------------------------------------
  // The whole image
  // ---------------------------------------------------------------------

  function SlotsBytes(s: seq<SlotMetadata>): (b: seq<bv8>)
    requires |s| == SLOT_CAPACITY
    requires forall i :: 0 <= i < SLOT_CAPACITY ==> SlotWellFormed(s[i])
    ensures |b| == 2 * SLOT_CAPACITY
  {
    SlotBytes(s[0]) + SlotBytes(s[1]) + SlotBytes(s[2]) + SlotBytes(s[3])
  }

  function ParseSlots(b: seq<bv8>): (s: seq<SlotMetadata>)
    requires |b| == 2 * SLOT_CAPACITY
    ensures |s| == SLOT_CAPACITY
    ensures forall i :: 0 <= i < SLOT_CAPACITY ==> SlotWellFormed(s[i])
  {
    [ParseSlot(b[0], b[1]), ParseSlot(b[2], b[3]), ParseSlot(b[4], b[5]), ParseSlot(b[6], b[7])]
  }

  lemma ParseSlotsBytes(s: seq<SlotMetadata>)
    requires |s| == SLOT_CAPACITY
    requires forall i :: 0 <= i < SLOT_CAPACITY ==> SlotWellFormed(s[i])
    ensures ParseSlots(SlotsBytes(s)) == s
  {
    var b := SlotsBytes(s);
    forall i | 0 <= i < SLOT_CAPACITY
      ensures ParseSlot(b[2 * i], b[2 * i + 1]) == s[i]
    {
      assert b[2 * i] == SlotBytes(s[i])[0] && b[2 * i + 1] == SlotBytes(s[i])[1];
      ParseSlotBytes(s[i]);
    }
    assert ParseSlots(b)[0] == ParseSlot(b[0], b[1]);
    assert ParseSlots(b)[1] == ParseSlot(b[2], b[3]);
    assert ParseSlots(b)[2] == ParseSlot(b[4], b[5]);
    assert ParseSlots(b)[3] == ParseSlot(b[6], b[7]);
  }

  lemma SlotsBytesOfParse(b: seq<bv8>)
    requires |b| == 2 * SLOT_CAPACITY
    ensures SlotsBytes(ParseSlots(b)) == b
  {
    var s := ParseSlots(b);
    SlotBytesOfParse(b[0], b[1]);
    SlotBytesOfParse(b[2], b[3]);
    SlotBytesOfParse(b[4], b[5]);
    SlotBytesOfParse(b[6], b[7]);
    assert SlotsBytes(s) == [b[0], b[1]] + [b[2], b[3]] + [b[4], b[5]] + [b[6], b[7]];
  }

  /** The checksummed prefix: every field before `crc32_le`, in order. */
  function Prefix(c: BootloaderControl): (p: seq<bv8>)
    requires WellFormed(c)
    ensures |p| == CRC_OFFSET
  {
    c.head + CounterBytes(c) + [c.reserved0] + SlotsBytes(c.slotInfo) + c.reserved1
  }

  /** The 32 bytes written to the partition. */
  function Encode(c: BootloaderControl): (img: seq<bv8>)
    requires WellFormed(c)
    ensures |img| == RECORD_SIZE
  {
    Prefix(c) + LeBytes(c.crc32Le)
  }

  /** The record read from 32 bytes of the partition; any bytes form a
      well-formed record. */
  function Decode(img: seq<bv8>): (c: BootloaderControl)
    requires |img| == RECORD_SIZE
    ensures WellFormed(c)
  {
    var n := ParseCounters(img[9], img[10]);
    BootloaderControl(img[..9], n.0, n.1, n.2, n.3, img[11], ParseSlots(img[12..20]),
                      img[20..28], LeWord(img[28..32]))
  }

  /** Where each field sits in the image. */
  lemma EncodeParts(c: BootloaderControl)
    requires WellFormed(c)
    ensures Encode(c)[..9] == c.head
    ensures Encode(c)[9..11] == CounterBytes(c)
    ensures Encode(c)[11] == c.reserved0
    ensures Encode(c)[12..20] == SlotsBytes(c.slotInfo)
    ensures Encode(c)[20..28] == c.reserved1
    ensures Encode(c)[28..32] == LeBytes(c.crc32Le)
  {
  }

  /** Decoding an encoded record gives the record back. */
  lemma DecodeEncode(c: BootloaderControl)
    requires WellFormed(c)
    ensures Decode(Encode(c)) == c
  {
    var img := Encode(c);
    EncodeParts(c);
    ParseCounterBytes(c);
    ParseSlotsBytes(c.slotInfo);
    LeWordOfLeBytes(c.crc32Le);
  }

  /** An image is the concatenation of its field windows. */
  lemma ImageWindows(img: seq<bv8>)
    requires |img| == RECORD_SIZE
    ensures img == img[..9] + [img[9], img[10]] + [img[11]] + img[12..20] + img[20..28] + img[28..32]
  {
    var w := img[..9] + [img[9], img[10]] + [img[11]] + img[12..20] + img[20..28] + img[28..32];
    assert |w| == RECORD_SIZE;
    forall i | 0 <= i < RECORD_SIZE
      ensures w[i] == img[i]
    {
    }
  }

  /** Encoding a decoded image gives the image back: no byte of the 32 is
      lost, padding and reserved bits included. */
  lemma EncodeDecode(img: seq<bv8>)
    requires |img| == RECORD_SIZE
    ensures Encode(Decode(img)) == img
  {
    var c := Decode(img);
    CounterBytesOfParse(c, img[9], img[10]);
    SlotsBytesOfParse(img[12..20]);
    LeBytesOfLeWord(img[28..32]);
    assert CounterBytes(c) == [img[9], img[10]];
    ImageWindows(img);
  }

  // ---------------------------------------------------------------------
  // Checksum stamp and verification
  // ---------------------------------------------------------------------

  /** `BootloaderControlLECRC`: the CRC-32 of the bytes before `crc32_le`,
      as the value the little-endian field will hold. */
  function Lecrc(c: BootloaderControl): bv32
    requires WellFormed(c)
  {
    Crc(Prefix(c))
  }

  /** The checksum does not depend on the checksum field itself. */
  lemma LecrcIgnoresChecksumField(c: BootloaderControl, w: bv32)
    requires WellFormed(c)
    ensures Lecrc(c.(crc32Le := w)) == Lecrc(c)
  {
    assert Prefix(c.(crc32Le := w)) == Prefix(c);
  }

  /** The record's stored checksum matches its contents. */
  predicate Verified(c: BootloaderControl)
    requires WellFormed(c)
  {
    c.crc32Le == Lecrc(c)
  }

  /** The stamp of `saveBootCtrl`: the checksum field is recomputed and
      nothing else changes. */
  function Stamp(c: BootloaderControl): (r: BootloaderControl)
    requires WellFormed(c)
    ensures WellFormed(r)
    ensures r.(crc32Le := c.crc32Le) == c
    ensures Verified(r)
  {
    LecrcIgnoresChecksumField(c, Lecrc(c));
    c.(crc32Le := Lecrc(c))
  }

  /** The check of `readBootCtrl` on the raw bytes: the last four bytes,
      read little-endian, equal the CRC-32 of the first 28. */
  predicate ImageVerified(img: seq<bv8>)
    requires |img| == RECORD_SIZE
  {
    LeWord(img[CRC_OFFSET..]) == Crc(img[..CRC_OFFSET])
  }

  lemma PrefixOfEncode(c: BootloaderControl)
    requires WellFormed(c)
    ensures Encode(c)[..CRC_OFFSET] == Prefix(c)
    ensures Encode(c)[CRC_OFFSET..] == LeBytes(c.crc32Le)
  {
  }

  /** Checking the raw image is checking the record it decodes to. */
  lemma ImageVerifiedIffDecodedVerified(img: seq<bv8>)
    requires |img| == RECORD_SIZE
    ensures ImageVerified(img) <==> Verified(Decode(img))
  {
    var c := Decode(img);
    EncodeDecode(img);
    PrefixOfEncode(c);
    LeWordOfLeBytes(c.crc32Le);
  }

  /** Checking the image of a record is checking the record. */
  lemma EncodedVerifiedIffVerified(c: BootloaderControl)
    requires WellFormed(c)
    ensures ImageVerified(Encode(c)) <==> Verified(c)
  {
    PrefixOfEncode(c);
    LeWordOfLeBytes(c.crc32Le);
  }

  /** What a save writes passes the check of a later load. */
  lemma StampedImageVerifies(c: BootloaderControl)
    requires WellFormed(c)
    ensures ImageVerified(Encode(Stamp(c)))
  {
    EncodedVerifiedIffVerified(Stamp(c));
  }

  /** Stamping leaves the first 28 bytes of the image as they were: only
      the checksum bytes can change. */
  lemma StampKeepsPrefix(c: BootloaderControl)
    requires WellFormed(c)
    ensures Encode(Stamp(c))[..CRC_OFFSET] == Encode(c)[..CRC_OFFSET]
  {
    PrefixOfEncode(c);
    PrefixOfEncode(Stamp(c));
    assert Prefix(Stamp(c)) == Prefix(c);
  }

  /** Stamping a verified record changes nothing, and stamping twice is
      stamping once. */
  lemma StampIdempotent(c: BootloaderControl)
    requires WellFormed(c)
    ensures Verified(c) ==> Stamp(c) == c
    ensures Stamp(Stamp(c)) == Stamp(c)
  {
  }

  /** Changing any one byte of a verified image, checksum bytes included,
      makes the check fail. */
  lemma OneByteChangeRejected(img: seq<bv8>, k: nat, b: bv8)
    requires |img| == RECORD_SIZE && ImageVerified(img)
    requires k < RECORD_SIZE && b != img[k]
    ensures !ImageVerified(img[k := b])
  {
    var img' := img[k := b];
    if k < CRC_OFFSET {
      assert img'[CRC_OFFSET..] == img[CRC_OFFSET..];
      OneByteChangeDetected(img[..CRC_OFFSET], img'[..CRC_OFFSET], k);
    } else {
      assert img'[..CRC_OFFSET] == img[..CRC_OFFSET];
      assert img'[CRC_OFFSET..][k - CRC_OFFSET] != img[CRC_OFFSET..][k - CRC_OFFSET];
      LeWordInjective(img'[CRC_OFFSET..], img[CRC_OFFSET..]);
    }
  }

  /** `n` zero bytes: an erased or never-written record. */
  function ZeroBytes(n: nat): (z: seq<bv8>)
    ensures |z| == n && forall i :: 0 <= i < n ==> z[i] == 0
  {
    seq(n, _ => 0)
  }

  lemma ZeroStep(r: bv32, r': bv32, z: seq<bv8>, i: nat)
    requires i < |z| && z[i] == 0 && EightSteps(r) == r'
    ensures Register(r, z[i..]) == Register(r', z[i + 1..])
  {
    UpdateOfZero(r);
    BitStepsEight(r);
    RegisterStep(r, z, i);
  }

  lemma ZeroPrefixChunk0()
    ensures Register(0xFFFF_FFFF, ZeroBytes(CRC_OFFSET)[0..]) == Register(0x6293_2081, ZeroBytes(CRC_OFFSET)[7..])
  {
    var z := ZeroBytes(CRC_OFFSET);
    ZeroStep(0xFFFF_FFFF, 0x2DFD_1072, z, 0);
    ZeroStep(0x2DFD_1072, 0xBE26_ED00, z, 1);
    ZeroStep(0xBE26_ED00, 0x00BE_26ED, z, 2);
    ZeroStep(0x00BE_26ED, 0xDEBB_20E3, z, 3);
    ZeroStep(0xDEBB_20E3, 0x39DD_08E2, z, 4);
    ZeroStep(0x39DD_08E2, 0x4E3D_5E5C, z, 5);
    ZeroStep(0x4E3D_5E5C, 0x6293_2081, z, 6);
  }

  lemma ZeroPrefixChunk1()
    ensures Register(0x6293_2081, ZeroBytes(CRC_OFFSET)[7..]) == Register(0x2E44_8638, ZeroBytes(CRC_OFFSET)[14..])
  {
    var z := ZeroBytes(CRC_OFFSET);
    ZeroStep(0x6293_2081, 0x9ADD_2096, z, 7);
    ZeroStep(0x9ADD_2096, 0x19F6_EB51, z, 8);
    ZeroStep(0x19F6_EB51, 0x1C75_9789, z, 9);
    ZeroStep(0x1C75_9789, 0x9478_4E13, z, 10);
    ZeroStep(0x9478_4E13, 0x842A_3990, z, 11);
    ZeroStep(0x842A_3990, 0xF08B_B97D, z, 12);
    ZeroStep(0xF08B_B97D, 0x2E44_8638, z, 13);
  }

  lemma ZeroPrefixChunk2()
    ensures Register(0x2E44_8638, ZeroBytes(CRC_OFFSET)[14..]) == Register(0xBEFB_3A74, ZeroBytes(CRC_OFFSET)[21..])
  {
    var z := ZeroBytes(CRC_OFFSET);
    ZeroStep(0x2E44_8638, 0x282C_FC18, z, 14);
    ZeroStep(0x282C_FC18, 0x1344_B4AA, z, 15);
    ZeroStep(0x1344_B4AA, 0x3610_0E42, z, 16);
    ZeroStep(0x3610_0E42, 0x98E4_30B2, z, 17);
    ZeroStep(0x98E4_30B2, 0x25F7_3690, z, 18);
    ZeroStep(0x25F7_3690, 0xF02A_6472, z, 19);
    ZeroStep(0xF02A_6472, 0xBEFB_3A74, z, 20);
  }

  lemma ZeroPrefixChunk3()
    ensures Register(0xBEFB_3A74, ZeroBytes(CRC_OFFSET)[21..]) == Register(0x7F8F_8816, ZeroBytes(CRC_OFFSET)[28..])
  {
    var z := ZeroBytes(CRC_OFFSET);
    ZeroStep(0xBEFB_3A74, 0x57D6_4E1F, z, 21);
    ZeroStep(0x57D6_4E1F, 0x8D5F_DBBB, z, 22);
    ZeroStep(0x8D5F_DBBB, 0x5C3E_35DF, z, 23);
    ZeroStep(0x5C3E_35DF, 0x1630_F170, z, 24);
    ZeroStep(0x1630_F170, 0x5013_41CD, z, 25);
    ZeroStep(0x5013_41CD, 0xE585_AD4C, z, 26);
    ZeroStep(0xE585_AD4C, 0x7F8F_8816, z, 27);
  }

  /** The register after 28 zero bytes, seven bytes at a time. */
  lemma RegisterOverZeroPrefix()
    ensures Register(0xFFFF_FFFF, ZeroBytes(CRC_OFFSET)) == 0x7F8F_8816
  {
    assert ZeroBytes(CRC_OFFSET)[0..] == ZeroBytes(CRC_OFFSET);
    assert ZeroBytes(CRC_OFFSET)[CRC_OFFSET..] == [];
    ZeroPrefixChunk0();
    ZeroPrefixChunk1();
    ZeroPrefixChunk2();
    ZeroPrefixChunk3();
  }

  /** An all-zero record fails the check: the CRC-32 of 28 zero bytes is
      0x807077E9, not the zero its checksum bytes denote. */
  lemma ZeroImageRejected()
    ensures !ImageVerified(ZeroBytes(RECORD_SIZE))
  {
    var z := ZeroBytes(RECORD_SIZE);
    RegisterOverZeroPrefix();
    assert z[..CRC_OFFSET] == ZeroBytes(CRC_OFFSET);
    assert z[CRC_OFFSET..] == [0, 0, 0, 0];
  }
}
