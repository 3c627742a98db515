# abslot-tool boot-slot metadata, modelled in Dafny

`abtool` edits the A/B slot metadata that an Android-style bootloader keeps
in the misc partition: a 32-byte `bootloader_control` record that holds a
slot count, a recovery retry counter, a merge status, one `slot_metadata`
entry per slot (priority, tries remaining, successful-boot flag, verity
flag) and a trailing CRC-32. A run of the tool works like this:

1. It loads the record and rejects it when the checksum does not match.
2. It dumps the record, the next boot slot included, when `-d` or no option
   was given.
3. It can *protect* a slot (`-p`): the slot loses its confirmed flag and
   gets one retry fewer than the maximum.
4. It can *activate* a slot (`-s`): the slot gets the top priority and the
   full retry budget, and any rival at the top is demoted.
5. When anything was changed, it stamps a fresh checksum and writes the
   record back.

The project has six modules. Each file holds one module.

- `Crc32` (`crc32.dfy`) covers the table-driven CRC-32 of `CRC32`:
  - The lookup table is built once, lazily, and guarded by `crc_table[1]`.
  - The update is `(crc >> 8) ^ table[(crc ^ byte) & 0xFF]`.
  - The register starts at all ones and is complemented at the end.
  - The table is checked against the bit-at-a-time reference (polynomial
    0xEDB88320).
  - The lemmas show that every buffer gets the bitwise CRC and that any
    one-byte change alters the CRC.
- `BootControl` (`boot_control.dfy`) holds the record as a datatype, the
  constants `BOOT_CONTROL_MAX_PRI` = 15 and `BOOT_CONTROL_MAX_RETRY` = 7, and
  the well-formedness predicates.
- `Codec` (`codec.dfy`) maps the record to its 32 bytes and back. It also
  holds the little-endian checksum word (`BootloaderControlLECRC`), the
  stamp of `saveBootCtrl` and the check of `readBootCtrl`.
- `Arbitrator` (`arbitrator.dfy`) holds the next-slot scan of `dumpSlot`,
  `enterProtect` and `setActive`.
- `Persistence` (`persistence.dfy`) holds `readBootCtrl` and `saveBootCtrl`.
  The partition is a value that says whether it opens for reading, whether
  it opens for writing, whether the seek succeeds, and which 32 bytes it
  holds at the record's offset.
- `Tool` (`tool.dfy`) holds the flag dispatch of `main`, once the options
  have been parsed.

The header `boot_control_definition.h` is not part of this model. The
record's byte layout follows the Android `bootloader_control` layout. All
bit-fields are packed from the least significant bit, as GCC does on a
little-endian target:

| bytes | contents |
|---|---|
| 0..8 | slot suffix, magic, version |
| 9..10 | `nb_slot:3`, `recovery_tries_remaining:3`, `merge_status:3` (this field straddles the two bytes), then 7 padding bits |
| 11 | `reserved0` |
| 12..19 | four 2-byte `slot_metadata` entries: `priority:4`, `tries_remaining:3`, `successful_boot:1`, then `verity_corrupted:1`, `reserved:7` |
| 20..27 | `reserved1` |
| 28..31 | `crc32_le` |

Decoding and encoding are mutually inverse on all 32 bytes, padding and
reserved bits included. So a CRC over the raw memory of the struct is a CRC
over the encoding of the first 28 bytes.

Four behaviours of the code are worth stating:

- `main` ignores the status that `saveBootCtrl` returns. A run whose load
  succeeded exits with 0 even when the write could not be made.
- Neither `enterProtect` nor `setActive` checks the slot index. No
  invalid-slot error exists. The model keeps the index inside the four
  `slot_info` entries (`SlotIndex`), which is the range where the C code is
  defined. It allows an index at or above `nb_slot`. Activating such an
  index still demotes a populated slot at `MAX_PRI` to `MAX_PRI - 1`. That
  slot may then lose its place, so `-s` with an unpopulated index can move
  the boot target from one populated slot to another
  (`SetActiveUnpopulatedMovesBoot`). With no populated slot at `MAX_PRI`,
  nothing changes the boot target (`SetActiveUnpopulatedKeepsNextSlot`).
- `nb_slot` = 0 is not rejected. The scan then reports slot 0.
- `setActive` demotes rivals only among the first `nb_slot` slots.

## Model

| member | source | states |
|---|---|---|
| Crc32.ComputeEntry | main.c:25-31 | the inner loop's eight mask-and-shift rounds yield the reference table entry of the index byte |
| Crc32.BuildTable | main.c:23-32 | the outer loop fills all 256 entries, each the reference entry of its index |
| Crc32.BitStepIsConditionalXor | main.c:28-29 | `(crc >> 1) ^ (0xEDB88320 & -(crc & 1))` is "shift right, then xor the polynomial exactly when the dropped bit was 1" |
| Crc32.UnStepsInvert | main.c:26-30 | the bit step can be undone, so any number of rounds loses no information |
| Crc32.BitStepsInjective | main.c:26-30 | two registers that agree after the same number of rounds were equal before them |
| Crc32.TableGuardDistinguishes | main.c:21 | the guard `!crc_table[1]` tells an unfilled table from a filled one: entry 1 of the real table is 0x77073096, never zero; entry 255 is 0x2D02EF8D |
| Crc32.CachedCrc | main.c:16-42 | from either state of the static table (unfilled or filled) the call returns the CRC-32 of the buffer and leaves the table filled |
| Crc32.UpdateIsEightBitSteps | main.c:38 | one table lookup equals eight bitwise rounds applied to the register xored with the byte |
| Crc32.UpdateAgreesWithBitwise | main.c:38 | the table-driven byte update and the bitwise byte update are the same function |
| Crc32.CrcMatchesBitwise | main.c:35-41 | for every buffer the table-driven CRC-32 equals the bit-at-a-time reference CRC-32 |
| Crc32.CrcEmpty | main.c:35-41 | the CRC of no bytes is 0: the all-ones start complemented |
| Crc32.RegisterAppend | main.c:36-39 | the loop can be split anywhere: the register after `xs + ys` continues from the register after `xs` |
| Crc32.UpdateInjectiveInState | main.c:38 | one byte update never maps two registers to the same register |
| Crc32.UpdateInjectiveInByte | main.c:38 | from the same register two different bytes give different registers |
| Crc32.OneByteChangeDetected | main.c:35-41 | two buffers of equal length that differ in exactly one byte have different CRC-32s |
| Codec.LeWordOfLeBytes | main.c:48 | writing a word little-endian and reading it back gives the word |
| Codec.LeBytesOfLeWord | main.c:48 | reading four bytes as a little-endian word and writing it gives the bytes |
| Codec.ParseSlotBytes | main.c:121 | the two bytes of a `slot_metadata` entry give back every field of the entry |
| Codec.SlotBytesOfParse | main.c:121 | any two bytes read as a slot entry are written back unchanged |
| Codec.ParseCounterBytes | main.c:121 | the two bit-field bytes give back `nb_slot`, `recovery_tries_remaining`, `merge_status` and the padding |
| Codec.CounterBytesOfParse | main.c:121 | any two bit-field bytes are written back unchanged, the straddling `merge_status` included |
| Codec.DecodeEncode | main.c:102 | the record written to the partition reads back as the same record |
| Codec.EncodeDecode | main.c:121 | any 32 bytes read from the partition are written back byte for byte, reserved and padding bits included |
| Codec.LecrcIgnoresChecksumField | main.c:46-50 | `BootloaderControlLECRC` reads only the bytes before `crc32_le`, so the checksum field's value does not affect it |
| Codec.PrefixOfEncode | main.c:49 | the checksummed bytes are the first 28 of the image, and the last four hold `crc32_le` little-endian |
| Codec.Stamp | main.c:101 | the stamp changes the checksum field only, and the stamped record passes the check |
| Codec.StampKeepsPrefix | main.c:101 | stamping changes none of the 28 checksummed bytes of the image |
| Codec.StampIdempotent | main.c:101 | a verified record is already stamped; stamping twice is stamping once |
| Codec.ImageVerifiedIffDecodedVerified | main.c:121-122 | the raw-byte check and the record check agree for every 32 bytes, in both directions |
| Codec.EncodedVerifiedIffVerified | main.c:122 | an encoded record passes the check exactly when its checksum field matches |
| Codec.StampedImageVerifies | main.c:101-102 | the bytes a save writes pass the check of a later load |
| Codec.OneByteChangeRejected | main.c:122-127 | changing any one byte of a verified image, a checksum byte included, makes the check fail |
| Codec.ZeroImageRejected | main.c:122-127 | an all-zero record fails the check: the CRC of 28 zero bytes is 0x807077E9, not 0 |
| Arbitrator.NextSlot | main.c:56-63 | the result is the next slot: a populated slot with the top priority and no slot before it at that priority; slot 0 when none is populated |
| Arbitrator.NextSlotUnique | main.c:56-63 | the rule allows exactly one slot, so ties go to the lowest index |
| Arbitrator.NextBootSlot | main.c:56-63 | the strict `>` scan from slot 0 returns exactly the slot the rule selects |
| Arbitrator.Protect | main.c:131-138 | the slot gets `MAX_RETRY - 1` tries and loses its confirmed flag; its priority and flags, every other slot and every counter stay as they were |
| Arbitrator.ProtectKeepsNextSlot | main.c:131-138 | protecting a slot never changes which slot boots next |
| Arbitrator.ProtectIdempotent | main.c:131-138 | protecting the same slot twice is protecting it once |
| Arbitrator.SetActive | main.c:139-155 | the slot gets `MAX_PRI` and `MAX_RETRY`; populated rivals at `MAX_PRI` drop to `MAX_PRI - 1`; all other slots and every counter stay as they were |
| Arbitrator.SetActiveInPlace | main.c:141-153 | the in-place loop, which compares against the slot's already raised priority, computes `SetActive` |
| Arbitrator.SetActiveUniqueTop | main.c:139-155 | afterwards a populated slot holds `MAX_PRI` exactly when it is the activated slot |
| Arbitrator.SetActiveSelectsSlot | main.c:139-155 | afterwards the activated populated slot is the one that boots next |
| Arbitrator.SetActiveUnpopulatedNotChosen | main.c:139-155 | activating an index at or above `nb_slot` demotes every populated slot exactly as a rival is demoted (`MAX_PRI` drops to `MAX_PRI - 1`, all else kept); a populated slot still boots, and the activated index does not |
| Arbitrator.SetActiveUnpopulatedKeepsNextSlot | main.c:139-155 | when no populated slot is at `MAX_PRI`, activating an index at or above `nb_slot` leaves the next slot unchanged |
| Arbitrator.SetActiveUnpopulatedMovesBoot | main.c:139-155 | with two populated slots at priorities 14 and 15, slot 1 boots next; activating the unpopulated slot 3 leaves them at 14 and 14, and slot 0 boots next |
| Arbitrator.SetActiveIdempotent | main.c:139-155 | activating the same slot twice is activating it once |
| Arbitrator.ActivateSecondOfTiedPair | main.c:57-63 | with priorities 10, 10, 0, 0 slot 0 boots next; activating slot 1 gives 10, 15, 0, 0, and slot 1 boots next |
| Persistence.ReadBootCtrl | main.c:106-130 | status 0 exactly when the partition opens, seeks and the checksum matches, and the record then becomes the decoded bytes; -2 exactly on a checksum mismatch; -1 exactly on an open or seek failure; on any failure the caller's record is untouched |
| Persistence.SaveBootCtrl | main.c:87-105 | status 0 exactly when the partition opens for writing and seeks, and then the record is stamped and its bytes replace the window; otherwise -1, with record and partition untouched |
| Persistence.SaveThenLoad | main.c:87-130 | a successful save is read back by a load as the stamped record, whatever the loading side held before |
| Persistence.LoadThenSaveRewritesSameBytes | main.c:101-102 | saving a freshly loaded record unchanged rewrites the same bytes |
| Persistence.CorruptedSaveRejected | main.c:122-127 | a saved image with any one byte changed loads as a checksum mismatch and leaves the caller's record alone |
| Persistence.BlankDeviceRejected | main.c:122-127 | an all-zero partition loads as a checksum mismatch |
| Tool.Apply | main.c:236-243 | protect and then set-active; with neither flag the record is unchanged, with `-s` the activated slot ends at `MAX_PRI`, and a record with at most four populated slots keeps that bound |
| Tool.Run | main.c:218-249 | exit code 0 exactly when the load succeeds, otherwise -1; "unsupported" is reported exactly on a checksum mismatch |
| Tool.SaveTestMeansChangeRequested | main.c:244 | for modes built from the three flags, `mode >= FLAG_SET_ACTIVE` holds exactly when `-s` or `-p` was given |
| Tool.FailedLoadChangesNothing | main.c:222-229 | a failed load exits with -1 and dumps, changes and writes nothing |
| Tool.WritesExactlyWhenChangeRequested | main.c:244-247 | the partition is written exactly when the load succeeds, `-s` or `-p` was given, and the partition opens for writing and seeks; otherwise it is untouched |
| Tool.DumpsExactlyWhenAsked | main.c:232-235 | the dump happens exactly when the load succeeds and `-d` or no option was given, and it reports the next slot of the record as loaded |
| Tool.ProtectBeforeActivate | main.c:236-247 | with both `-p` and `-s`, the saved record is the loaded one, protected, then activated, then stamped |
| Tool.ProtectAndActivateSameSlot | main.c:236-243 | protecting and activating the same slot leaves it at `MAX_PRI` with `MAX_RETRY` tries and without its confirmed flag |
| Tool.ChangedRunWrites | main.c:244-247 | a run that asks for a change on a loadable, writable partition writes the stamped changed record |
| Tool.ProtectAloneAnySlotCount | main.c:236-247 | a loadable run with `-p` alone works for any `nb_slot`, five to seven included: it exits with 0, dumps nothing, writes the record back and leaves the slot count as loaded, with the protected slot at `MAX_RETRY - 1` tries |
| Tool.DumpOfSaved | main.c:222-235 | a plain run on a partition that holds a stamped supported record reports that record's next slot |
| Tool.ActivatedSlotBootsNext | main.c:240-247 | after a run with `-s` on a populated slot, the next plain run loads the written record and reports that slot as the next boot slot |

## Left out

- File I/O is left out: `open`, `lseek`, `read`, `write` and `close`. The
  partition is a value, and open and seek success are inputs.
- Short reads and short writes are left out. A read is modelled as
  delivering all 32 bytes, and a write as replacing all 32.
- The file descriptor that `readBootCtrl` leaves open on success is left
  out. It has no effect on the record.
- Host byte order is left out. `htole32` is modelled as the little-endian
  encoding of the checksum word, that is, a little-endian host.
- The text of the dump, `perror` and `fprintf` is left out: labels, the
  `merge_status` names and the per-slot lines. The model keeps only whether
  a dump happens and which next slot it reports.
- Option parsing is left out: `getopt`, `atoi` and the usage message. So is
  `-h`, which returns before any load. `Run` takes the parsed `mode` (below
  8) and the two slot indices.
- `getMiscPartition` and the `MISC_PARTITION` path are left out. They are
  Android-only path lookup through `readlink`.
- Tool.Run: requires that a loadable record has at most four slots
  (`nb_slot` <= 4) when the run dumps or activates. Both `dumpSlot` and
  `setActive` walk `slot_info` up to `nb_slot`, so with `nb_slot` 5..7 they
  read or write past its four entries. That behaviour is undefined and is
  not modelled. A run with `-p` alone walks no slots and accepts any
  `nb_slot` 0..7, as the code does.
- Tool.Run: requires that every slot index given with `-p` or `-s` lies in
  0..3, for the same reason.
- Tool.Apply: requires the same as `Tool.Run`. It promises at most four
  populated slots afterwards only when the loaded record had at most four;
  the code neither checks nor changes `nb_slot`.
- The dump prints `status[merge_status]` from a table of five names. With
  `merge_status` 5..7 that read is past the table. The dump's text is not
  modelled, so the model puts no bound on `merge_status`.
- Arbitrator.Protect: a slot index outside 0..3 is excluded by `SlotIndex`
  for the same reason. Indices in `nb_slot`..3 are allowed, as in the code.
- Arbitrator.SetActive: a slot index outside 0..3 is excluded by
  `SlotIndex` for the same reason. Indices in `nb_slot`..3 are allowed, as
  in the code.
- The exit status is modelled as the value `main` returns. The -1 becomes
  255 in the shell, which is not modelled.
- Two invocations racing on the partition are left out. Each run is one
  sequential read-modify-write.
