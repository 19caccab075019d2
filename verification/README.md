# Crash-safe A/B updates: a verified model

The repository updates firmware on a device with two image slots. A boot control block says which slot is active,
which one is on trial and how many trial boots it has used. On the STM32F407 that block lives in a log over two NOR
flash sectors. This project models the log, the boot core, the image format and the packer, and proves what they
guarantee when reads fail, programs fail or power goes at any word or erase.

## How it is modelled

* **Flash.** A word is a bit pattern. Programming ANDs, erasing sets bits. A broken program clears some of the bits it
  should, a broken erase sets some of them; which ones is chosen bit by bit (`Faults`).
* **Faults.** Each storage call takes one `Fault`: nothing goes wrong, or operation number `at` breaks half-way and
  the later ones do not happen. The source returns at the first HAL error and after a power cut nothing runs, so both
  leave the same flash. A power cut in a run is a fault followed by a boot.
* **Two layers.** The operations are functions on values (`ControlLog`, `Core`) and, in the source's own form, methods
  on word and byte arrays (`ControlDriver`, `Stm32Storage`, `IapCore`, `MemoryStorage`). Every method's contract
  equates flash, status and outputs with the function; the theorems are about the functions.
* **Sizes.** A log sector has `n` records for any `n >= 1` with `2n < 2^31`; the source has `n` = 2048. Sequence
  numbers are 32 bits in flash and unbounded in the ledger that the proofs keep beside it (`LogHistory`).
* **Numbers.** `uint32_t` sums wrap explicitly (`Words.Add32`). Words and the numbers they stand for are tied together
  by their four bytes.

The files follow the source: `Words`, `Crc`, `Faults`; the log in `ControlLog`, `LogHistory`, `LogTheorems`,
`LogClosedForm`, `LogOrder`, `ControlDriver`; images and layout in `Image`; the boot core in `BootControls`, `Core`,
`BootTheorems`, `BootRuns`, `Outcomes`, `Runs`; installing and packing in `Installs`, `Platform`, `PlatformRuns`,
`Pack`, `Updates`; the storage and core classes in `Stm32Storage`, `IapCore`, `MemoryStorage`. `Formats` says in bytes
and literal numbers what each format in flash accepts; `Outcomes` says field by field what each call answers and
persists.

## Where the log has no gap

The valid records of both sectors carry consecutive sequence numbers, all in view of the scan, as long as the current
sector has room (`LogOrder.RoomIsConsecutive`) and again after every save that returns OK (`LogOrder.OkRestores`).
They do not always. In sectors of every size from two records on, so in the board's 2048 too, once both are full the
erase for the next save can break so that of the older sector only number 0 is left beside all of n to 2n - 1
(`LogOrder.FullLogCanLeaveGap`); with two records a sector that leaves 0, 2 and 3 (`LogOrder.FifthSaveCanLeaveGap`).
`LogOrder.ConsecutiveIff` says exactly which appends can leave such a gap. Reads are not affected: the newest record
is found all the same.

## What a run may assume

* Runs start from two erased control sectors. Arbitrary flash could hide a valid record behind an erased gap.
* Applications reload the control block before they use it, as `examples/stm32f407/src/test_app_main.c:54` and line 77
  do.
* An interrupted erase never turns a committed record into a *different* record that still passes every check
  (`LogHistory.Honest`, asked only of an append that erases, and only of the sector it erases). This is the one
  idealisation of the CRC. That an *uncommitted* record never becomes valid is proved, without it.
* Only the active image installs, into the other slot. `docs/ab-iap-mvp-design.md:9` promises that a bootable fallback
  is always kept. The code does not ensure it: `iap_write_candidate_image` accepts the active slot
  (`src/iap_core.c:445`) and the driver protects the running one
  (`examples/stm32f407/src/stm32_iap_storage.c:375-378`). `Installs.InstallGuardIsExact` shows that the condition is
  exactly the one needed, `Installs.TrialInstallCanBrick` and `Updates.UnguardedInstallBricks` what happens without
  it.

Whether the platform starts an image that it is handed is part of a run, so the theorems of `Runs` hold on every
platform; `PlatformRuns` adds what the STM32's jump checks give.

These assumptions can be met: `Updates.SomethingPacks` gives an image that packs, `Pack.PackInstallBoot` makes it
verify, `Updates.FirstBoot` boots a new device with it, and `Updates.UpdateGoesThrough` is a run they allow.

## Model

| member | source | states |
|---|---|---|
| LogTheorems.LogIsAtomicCell | examples/stm32f407/src/stm32_iap_storage.c:225-324 | From blank flash, through any saves with any faults, the log is one atomic cell: a read gives all ones first; a save that returns OK replaces the value, one that fails or is cut leaves exactly the old or exactly the new value, and one without fault succeeds |
| LogTheorems.RunIsAtomic | examples/stm32f407/src/stm32_iap_storage.c:225-324 | The same from every log that satisfies the ledger invariant |
| LogHistory.AppendKeeps | examples/stm32f407/src/stm32_iap_storage.c:225-298 | Every append under every fault keeps the invariant and adds the new control to the history or nothing |
| LogHistory.ChooseTargetIs | examples/stm32f407/src/stm32_iap_storage.c:225-266 | An append goes to the first erased record of the newest record's sector, or, if there is none, to the start of the other sector after erasing that; with the next sequence number modulo 2^32 |
| LogHistory.WriteErased | examples/stm32f407/src/stm32_iap_storage.c:268-297 | Programming an erased record leaves it without the commit word or leaves exactly the new record, and fails only if an operation breaks |
| LogHistory.ErasedCommitCovers | examples/stm32f407/src/stm32_iap_storage.c:77-84 | A commit word with extra one bits is never made the commit constant by any partial erase |
| LogHistory.NewerIsLater | examples/stm32f407/src/stm32_iap_storage.c:59-62 | The signed difference of wrapped numbers decides the order of unbounded ones less than 2^31 apart |
| LogHistory.ScanIsMax | examples/stm32f407/src/stm32_iap_storage.c:91-113 | A sector scan returns the valid record with the highest history number among those before the first erased record |
| LogHistory.FindLatestIsTop | examples/stm32f407/src/stm32_iap_storage.c:115-124 | The two-sector scan returns the highest reachable record, whichever records survive, as long as they span less than 2^31 |
| LogHistory.FindLatestIsNewest | examples/stm32f407/src/stm32_iap_storage.c:115-124 | Under the invariant it returns the last committed record, or none exactly when nothing was committed |
| LogTheorems.SequencesAreOrdered | examples/stm32f407/src/stm32_iap_storage.c:59-62 | On the valid records the comparison is the order of commitment, a strict total order across wrap-around; records of the current sector are newer than all others and stand in address order |
| LogTheorems.ValidRecordsInWindow | examples/stm32f407/src/stm32_iap_storage.c:91-124 | Every valid record is less than two sectors' worth of commits behind the newest |
| LogTheorems.CurrentSectorIsComplete | examples/stm32f407/src/stm32_iap_storage.c:91-124 | The current sector holds every control committed since its erase, in order, reachable, with consecutive sequence numbers |
| LogOrder.RoomIsConsecutive | examples/stm32f407/src/stm32_iap_storage.c:59-124 | While the current sector has room the valid records of both sectors are exactly one run of consecutive numbers ending at the newest, within two sectors' worth, all of them in view |
| LogOrder.IntactHasNoOther | examples/stm32f407/src/stm32_iap_storage.c:91-124 | Every valid record of an intact log is in view at the place of its number in that run |
| LogOrder.IntactHolds | examples/stm32f407/src/stm32_iap_storage.c:91-124 | Every number of that run has its record, in view, with its sequence number and its control |
| LogOrder.ConsecutiveIff | examples/stm32f407/src/stm32_iap_storage.c:246-266 | After an append the numbers in view have no gap, under every fault, if and only if the append does not erase a sector with a record in view that the other sector does not continue |
| LogOrder.OkRestores | examples/stm32f407/src/stm32_iap_storage.c:225-298 | After every save that returns OK the numbers in view have no gap, and the record before the newest is in view |
| LogOrder.FullLogCanLeaveGap | examples/stm32f407/src/stm32_iap_storage.c:253-265 | For every capacity n from 2 on and any 2n controls: after 2n uninterrupted saves the numbers in view have no gap, the next append meets the condition of `ConsecutiveIff`, and an honest broken erase leaves 0 and n to 2n - 1 in view and nothing else valid |
| LogOrder.FifthSaveCanLeaveGap | examples/stm32f407/src/stm32_iap_storage.c:253-265 | The smallest case of it, n = 2: numbers 0, 2 and 3 are left in view and 1 is gone |
| LogTheorems.AppendSparesNewest | examples/stm32f407/src/stm32_iap_storage.c:246-266 | No append erases the sector of the newest record or changes any written record in it |
| LogTheorems.SwitchStartsAfresh | examples/stm32f407/src/stm32_iap_storage.c:253-265 | When that sector is full, the other is erased whatever was left there, and an append that commits nothing makes the next one erase it again |
| LogTheorems.WrittenIsNotProgrammed | examples/stm32f407/src/stm32_iap_storage.c:126-141 | No append programs a record that is not erased: it stays as it is, or takes its torn form when the erase of its sector breaks |
| LogTheorems.UncommittedStaysUncommitted | examples/stm32f407/src/stm32_iap_storage.c:225-298 | Unless its sector is wiped, one append leaves an uncommitted record as it is or turns it into its torn form, and uncommitted either way |
| LogTheorems.UncommittedStaysInvalid | examples/stm32f407/src/stm32_iap_storage.c:64-89 | Through any run an uncommitted record stays invalid until flash has been erased under it |
| LogTheorems.OneWordChange | examples/stm32f407/src/stm32_iap_storage.c:64-89 | Any change to one word of a valid record makes it invalid and not erased |
| LogTheorems.DamagedRead | examples/stm32f407/src/stm32_iap_storage.c:91-124 | After such damage to any record a read returns the newest control left in reach |
| LogTheorems.OldDamageUnseen | examples/stm32f407/src/stm32_iap_storage.c:91-124 | Damage to a record other than the newest does not change what a read returns |
| LogTheorems.NewDamageFallsBack | examples/stm32f407/src/stm32_iap_storage.c:91-124 | After damage to the newest record the scan finds the record committed just before it, and a read returns that control, if and only if that record is still in view in either sector |
| LogClosedForm.ClosedForm | examples/stm32f407/src/stm32_iap_storage.c:126-298 | After k uninterrupted saves the newest record is at index (k-1) mod n of sector ((k-1) div n) mod 2 with sequence (k-1) mod 2^32, and (k-1) div n erases have happened |
| ControlDriver.RecordIsErased | examples/stm32f407/src/stm32_iap_storage.c:64-75 | The word loop decides whether the record is all ones |
| ControlDriver.RecordIsValid | examples/stm32f407/src/stm32_iap_storage.c:77-89 | Magic, commit word and the CRC of sequence and control |
| ControlDriver.ScanControlSector | examples/stm32f407/src/stm32_iap_storage.c:91-113 | The loop equals the specified scan of the sector's records |
| ControlDriver.FindFreeRecord | examples/stm32f407/src/stm32_iap_storage.c:126-141 | The loop finds the first erased record |
| ControlDriver.ProgramControlWords | examples/stm32f407/src/stm32_iap_storage.c:184-223 | Exactly the given words change, as programming under the fault changes them; success means no break and a matching read-back |
| ControlDriver.HalErase | examples/stm32f407/src/stm32_iap_storage.c:149-169 | The sector becomes blank records or the torn ones |
| ControlDriver.ControlFlash.FindLatestControlRecord | examples/stm32f407/src/stm32_iap_storage.c:115-124 | The two scans in order give the record of `FindLatestIsNewest` |
| ControlDriver.ControlFlash.Read | examples/stm32f407/src/stm32_iap_storage.c:317-324 | The newest control, or all ones |
| ControlDriver.ControlFlash.WriteRecordAt | examples/stm32f407/src/stm32_iap_storage.c:275-297 | One record changes, in two programs and a check, and no other |
| ControlDriver.ControlFlash.AppendControlRecord | examples/stm32f407/src/stm32_iap_storage.c:225-298 | Flash and status after the append equal the specified append under the same fault |
| Crc.Crc32Update | src/iap_core.c:101-123 | The nested loops fold the bytes into the state by eight steps each |
| Crc.ComputeCrc32 | src/iap_core.c:125-128 | Initial value and final complement |
| Crc.TableForm | src/iap_core.c:101-123 | The bit-by-bit form equals, on all inputs, the byte-table form of section 8 of RFC 1952, whose table is given by its eight entries at powers of two as the literals of that RFC |
| Crc.CheckValue | src/iap_core.c:125-128 | The CRC of the nine bytes "123456789" is 0xCBF43926, the check value of CRC-32 |
| Formats.CheckNumber | src/iap_core.c:33-45 | As a number in a header it is that number, and in flash its bytes are 26 39 F4 CB |
| Crc.UpdateConcat | src/iap_core.c:101-123 | The update composes over concatenation |
| Crc.StepsLinear | src/iap_core.c:112-118 | Any number of steps is linear over exclusive or |
| Crc.StepsInjective | src/iap_core.c:112-118 | Any number of steps is invertible |
| Crc.UpdateInjective | src/iap_core.c:101-123 | Reading the same bytes never merges two states |
| Crc.UpdateWord | src/iap_core.c:111-119 | Four bytes act as one word and 32 steps, so they map injectively to the state |
| Crc.BurstDetected | src/iap_core.c:101-128 | Changing any part of up to four consecutive bytes always changes the CRC, for any bytes around them |
| Image.PayloadBurstDetected | src/iap_core.c:222-263 | Such a change to the payload of a verifying image always makes verification fail |
| Image.InitAcceptsIff | src/iap_core.c:141-159 | The layout is accepted if and only if both slots hold more than a header, all three regions end below 2^32 and they are pairwise disjoint |
| Image.ReadsStayInside | src/iap_core.c:33-45 | For an accepted slot anywhere and any header, every read of a verification, the header and each chunk of its loop, lies in the slot; the chunks are the payload piece by piece; the boot address is inside; no sum wraps |
| Image.ChunkReadAt | src/iap_core.c:246-259 | Chunk k of a payload is read at its start plus 64k and is 64 bytes long, or what is left if that is less |
| Formats.HeaderIsValidIff | src/iap_core.c:33-45 | In bytes and literals: exactly which 24 bytes are an accepted header for a slot of a given size |
| Formats.SoundIff | src/iap_core.c:222-263 | In bytes and literals: a slot verifies if and only if it starts with an accepted header and the number at offset 12 is the CRC of its payload |
| Formats.CandidateIff | src/iap_core.c:456-461 | The installer takes an image if and only if it is an accepted header with its padding and a payload of the announced length and CRC, and nothing more |
| Formats.ControlIsValidIff | src/iap_core.c:61-99 | In words and literals: exactly which twelve words are a valid control block |
| Formats.ControlWords | include/iap/iap.h:51-61 | Which word of flash holds which field of the control block |
| Formats.RecordFormat | examples/stm32f407/src/stm32_iap_storage.c:268-273 | A new record is magic, sequence number, the twelve words, the CRC of those thirteen, and the commit word, with their literals |
| Formats.RecordIsValidIff | examples/stm32f407/src/stm32_iap_storage.c:64-89 | With literals: exactly which sixteen words are a valid record, and which an erased one |
| Formats.JumpAcceptsIff | examples/stm32f407/src/stm32_iap_platform.c:31-47 | With literals: exactly which address and which first eight bytes there the platform jumps to |
| Formats.RangeSlotIff | examples/stm32f407/src/stm32_iap_storage.c:29-57 | A range belongs to a slot if and only if it is not empty and lies between that slot's two addresses |
| Formats.BoardMap | examples/stm32f407/include/stm32_iap_config.h:6-19 | The addresses and sizes of the board |
| BootControls.DefaultBootControl | src/iap_core.c:171-185 | The default is valid, has nothing pending or tried, makes the given slot active and alone confirmed, and has the given limit, or 3 for 0 |
| Outcomes.DefaultIsFresh | src/iap_core.c:171-185 | Every field of it, with literals: the limit is the given one or 3, and only its slot is confirmed |
| BootControls.DecodeEncode | src/iap_core.c:210-220 | A control block survives its way to flash words and back |
| BootControls.BlankControlInvalid | src/iap_core.c:61-99 | Erased flash is not a valid control block |
| Core.RolledBack | src/iap_core.c:423-426 | Rolling back keeps the active slot and the limit, drops the pending mark, and keeps validity |
| Core.Marked | src/iap_core.c:364-369 | Marking records the new image beside the other slot's data, keeps the active slot, and keeps validity |
| Core.Confirmed | src/iap_core.c:400-405 | Confirming makes the slot active and alone confirmed, leaves nothing pending, keeps limit, CRCs and sizes, and keeps validity |
| BootTheorems.VerifyMeans | src/iap_core.c:222-263 | Verification says OK only of images that verify and ERR_VERIFY only of ones that do not, whatever read fails |
| BootTheorems.FineVerify | src/iap_core.c:222-263 | Without faults it says one of the two |
| BootTheorems.SaveIsAtomic | src/iap_core.c:210-220 | After a save a load finds the new control, or, if the save failed, possibly still the old one |
| BootTheorems.HealthyStored | src/iap_core.c:61-99 | On a board whose log is in order and holds only controls that were valid when saved, what a load finds passes every check or is erased flash |
| BootTheorems.UpdateReplaces | src/iap_core.c:428-432 | On OK the caller's control is what a load returns; on an error it is unchanged, and flash holds the old or the new one |
| BootTheorems.RollbackReplaces | src/iap_core.c:414-433 | The same for rollback, with the rolled-back control |
| BootTheorems.ConfirmReplaces | src/iap_core.c:378-412 | The same for confirm, and flash changes only if the slot is active or pending and its image verifies in that call |
| BootTheorems.MarkReplaces | src/iap_core.c:343-376 | The same for mark-pending, and flash changes only if the slot is not active and its image verifies in that call |
| BootTheorems.SelectMeans | src/iap_core.c:291-341 | Selecting takes the pending slot exactly if its image verifies and attempts are left, and then that attempt is committed; else the active slot if it verifies, with the pending mark gone; the caller gets back the control that flash holds, on an error possibly the one it came with |
| Outcomes.VerifyAnswers | src/iap_core.c:222-263 | The status of verification in every case: bad slot, failed read of the header or of one of its 64-byte chunks, refused header or CRC, OK |
| Outcomes.BootAddressAnswers | src/iap_core.c:265-289 | The status and the address in every case, with literal slot addresses |
| Outcomes.Refusals | src/iap_core.c:291-433 | Invalid controls, and slots that a call does not take, are refused with ERR_INVALID_ARG before storage is touched |
| Outcomes.VerifyRefusals | src/iap_core.c:343-412 | A mark or confirm whose image does not verify gives the status of the verification and changes neither flash nor control |
| Outcomes.RollbackPersists | src/iap_core.c:414-433 | Field by field: a rollback that returns OK persists the control without its pending mark, attempts and other slot's confirmed flag, and with everything else as it was; one that fails, that or the old control |
| Outcomes.ConfirmPersists | src/iap_core.c:378-412 | Field by field: a confirm that returns OK persists the slot active and confirmed, the other slot not confirmed, and limit, CRCs and sizes as they were; one that fails, that or the old control |
| Outcomes.MarkPersists | src/iap_core.c:343-376 | Field by field: a mark that returns OK persists the slot pending, not confirmed, with no attempt used and the CRC and size from its header bytes, and the other slot as it was; one that fails, that or the old control |
| Outcomes.SelectAnswers | src/iap_core.c:291-341 | Selecting in every case: slot and status (OK, ERR_STORAGE, or ERR_NO_VALID_IMAGE when neither image will do, and without a fault only then an error), and field by field the control left in flash |
| Outcomes.BootAnswers | src/iap_bootloader.c:3-47 | A boot in every case: the control it starts from, where it jumps, why it ends in recovery, and field by field what flash holds after it |
| BootRuns.BootMeans | src/iap_bootloader.c:3-47 | For every placement of faults a boot commits at most the default, one more attempt or the rollback, and jumps only to an image that verifies, at slot address plus header size |
| BootRuns.BootJumpsIff | src/iap_bootloader.c:3-47 | Without a fault a boot jumps if and only if the pending image may be tried or the active one verifies |
| BootRuns.RetryTrace | src/iap_core.c:291-341 | After marking a good image: boots 1 to m select it with attempts 1 to m persisted, boot m+1 rolls back and selects the active one, and later boots select that without writing, for every limit m |
| BootRuns.FallbackReturns | src/iap_bootloader.c:3-47 | From any board in order with a verifying active image, pending image good or bad: after one fault-free boot more than there are attempts left nothing is pending, the active slot is the same, and later boots jump to it without writing |
| Runs.AlwaysComesBack | src/iap_bootloader.c:3-47 | The same for whatever state a run reaches, once nothing fails any more |
| BootRuns.ReadFailureChangesNothing | src/iap_bootloader.c:16-31 | A read failure from the load up to the last chunk of the pending image ends in recovery with flash exactly as it was |
| Runs.StepMeans | src/iap_core.c:291-474 | What each boot, install, mark, confirm or rollback may do to control and slots, under every fault |
| Runs.InstallTouches | src/iap_core.c:435-474 | An install changes nothing but its target slot |
| Runs.ActiveChangesOnlyByConfirm | src/iap_core.c:378-412 | The active slot changes only to the running slot, by a confirm whose image verified |
| Runs.BrickFreedom | src/iap_bootloader.c:3-47 | From blank control sectors and a default slot whose image verifies, for every order of actions, errors and power cuts, on every platform: the active image always verifies, a boot without fault never ends in recovery, and every jump is to the boot address of an image that verifies |
| Runs.SafeRun | src/iap_bootloader.c:3-47 | The same from every board in order whose active image verifies |
| PlatformRuns.Stm32BrickFreedom | examples/stm32f407/src/stm32_iap_platform.c:106-124 | On the STM32, if the default slot also passes the jump checks, the active image and whatever runs always pass them, and a boot that jumps to the active image starts it |
| PlatformRuns.StartableRun | examples/stm32f407/src/stm32_iap_platform.c:106-124 | The same from every safe state whose active and running images pass the jump checks |
| PlatformRuns.StartsIfBootable | examples/stm32f407/src/stm32_iap_platform.c:116-118 | A verifying image that a boot hands over is started by the STM32 exactly if its slot is bootable |
| Runs.TrialsBounded | src/iap_core.c:309-332 | Between two committed marks the bootloader jumps to an unconfirmed image at most as often as attempts are left, so never more often than the limit, whatever power cuts come between |
| Runs.PersistedControls | src/iap_core.c:61-99 | After any run of a new device, with any faults: a load finds erased flash or a control block that passes every check, and every valid record in flash holds such a block |
| Runs.LimitRun | src/iap_core.c:343-433 | No run, with any faults, changes the attempt limit; and while the active slot is the only confirmed one it stays so |
| Runs.PersistedLimit | src/iap_core.c:171-185 | Every control block a new device persists in any run has the configured limit, or 3 if that is 0, its active slot confirmed and the other not |
| Installs.InstallContract | src/iap_core.c:435-474 | OK: the slot is the image followed by erased bytes and verifies. ERR_VERIFY: exactly when the image is no candidate, ERR_INVALID_ARG: exactly for a bad slot, a length below 24 or above 0x40000, or a candidate for the protected slot; both leave flash untouched. Nothing outside the slot ever changes, and without faults every candidate is installed |
| Installs.CutInstall | examples/stm32f407/src/stm32_iap_storage.c:184-223 | An install whose program breaks at operation k, of one for each whole word and one for each byte after them, leaves exactly the first k of them written and flash erased behind operation k |
| Installs.CandidateIsSound | src/iap_core.c:456-473 | The check of the whole buffer before the erase and the check of the slot after the program agree |
| Installs.InstallGuardIsExact | src/iap_core.c:445-448 | Installing keeps the device safe under all faults if and only if the running slot is the active one |
| Installs.TrialInstallCanBrick | examples/stm32f407/src/stm32_iap_storage.c:375-378 | An image on its last trial that installs over the active slot and loses power after the erase leaves a device whose next fault-free boot ends in recovery, with nothing running |
| Updates.UnguardedInstallBricks | examples/stm32f407/src/stm32_iap_storage.c:375-378 | A run to that state: after marking a good image, as many fault-free allowed boots as it has attempts leave it running on its last trial; if it then installs over the active slot and power fails after the erase, the next fault-free boot ends in recovery |
| Platform.VectorsInside | examples/stm32f407/src/stm32_iap_platform.c:106-118 | The vector table read before the jump lies inside the slot whenever the boot address is aligned |
| Pack.PackedImage | tools/pack_image.py:44-67 | Every packed image is header, padding and payload; its header decodes to the right fields and to the device's CRC of the payload |
| Pack.BuildImageIff | tools/pack_image.py:21-56 | With literals: exactly which payloads, header sizes and slots the packer accepts |
| Pack.PackedBytes | tools/pack_image.py:57-67 | Byte by byte what it writes, header numbers, padding of 0xFF and payload, and the CRC, stack pointer and reset handler it reports |
| Pack.PackerCrcAgrees | tools/pack_image.py:57 | The packer's table-driven CRC is the device's |
| Pack.PackHeaderDecodes | tools/pack_image.py:58-65 | The packed header fields come back in the device's header |
| Pack.PackedIsCandidate | tools/pack_image.py:44-67 | Every packed image passes the installer's checks |
| Pack.PackedJumps | examples/stm32f407/src/stm32_iap_platform.c:31-47 | Of the jump checks only header alignment is not already ensured by the packer |
| Pack.PackInstallBoot | tools/pack_image.py:44-67 | Pack, install, boot: the image verifies, boots at slot plus header size, gives back the payload, and is jumped to if and only if the header size is a multiple of 0x200 |
| Updates.UpdateGoesThrough | examples/stm32f407/src/test_app_main.c:45-83 | Install, mark, boot, confirm without faults is an allowed run: the packed image runs from the other slot and has the packed payload; the persisted control has that slot active and alone confirmed, nothing pending, the payload's size and CRC recorded for it, and the old slot's record and the limit kept; the old image is still there; the STM32 takes part if and only if the header is aligned |
| Updates.FirstBoot | src/iap_bootloader.c:16-46 | The first boot of a new device persists a control with the default slot active and alone confirmed, the configured limit or 3, nothing pending, tried or recorded, and hands over to that slot; the STM32 starts it exactly if it is bootable |
| Updates.SomethingPacks | tools/pack_image.py:21-41 | Some payload is accepted for each slot |
| Stm32Storage.ProgramSlotBytes | examples/stm32f407/src/stm32_iap_storage.c:184-223 | Whole words, then single bytes, up to the operation that breaks; exactly the target bytes change; success means no break and a matching read-back |
| Stm32Storage.Stm32Storage.Read | examples/stm32f407/src/stm32_iap_storage.c:300-336 | Control block from the log, both slots as they lie next to each other, range and failure errors |
| Stm32Storage.Stm32Storage.Erase | examples/stm32f407/src/stm32_iap_storage.c:367-403 | Only a whole slot that is not protected is erased; the other slot and the log stay as they are |
| Stm32Storage.Stm32Storage.Write | examples/stm32f407/src/stm32_iap_storage.c:338-365 | The control block goes to the log, aligned data to an unprotected slot, everything else is refused with flash unchanged |
| Stm32Storage.Stm32Storage.constructor | examples/stm32f407/src/stm32_iap_storage.c:405-416 | Takes the flash as it is |
| IapCore.Stm32LayoutAccepted | examples/stm32f407/include/stm32_iap_config.h:12-19 | The board's layout passes iap_init |
| IapCore.IapContext.ReadHeader | src/iap_core.c:47-59 | Decodes the 24 bytes at the start of the slot; one storage call is spent and nothing else changes |
| IapCore.IapContext.SumPayload | src/iap_core.c:246-261 | The 64-byte chunk loop computes the CRC of the whole payload, stops at the first failed read, and makes exactly the listed reads |
| IapCore.IapContext.VerifyImage | src/iap_core.c:222-263 | Ties header read and chunk loop to the one-piece verification of `VerifyMeans`: same status for every fault, flash unchanged; the storage reads it makes are, in order, those of `ReadsStayInside`, all of them unless one fails |
| IapCore.IapContext.GetImageBootAddress | src/iap_core.c:265-289 | Slot address plus header size for an accepted header, the error of the read or ERR_VERIFY otherwise |
| IapCore.IapContext.Load | src/iap_core.c:187-208 | The newest control of the log, refused unless it passes every check; flash unchanged |
| IapCore.IapContext.Save | src/iap_core.c:210-220 | An invalid control is refused before flash is touched; a valid one is appended to the log as `SaveIsAtomic` says |
| IapCore.IapContext.Rollback | src/iap_core.c:414-433 | Ties edit, save and overwrite of the caller's control to the operation of `RollbackReplaces` |
| IapCore.IapContext.MarkPending | src/iap_core.c:343-376 | Ties verify, header read, edit, save and overwrite to the operation of `MarkReplaces` |
| IapCore.IapContext.ConfirmCurrentImage | src/iap_core.c:378-412 | Ties verify, edit, save and overwrite to the operation of `ConfirmReplaces` |
| IapCore.IapContext.SelectBootSlot | src/iap_core.c:291-341 | Ties trial, rollback and fallback to the operation of `SelectMeans`: same flash, status, control and slot |
| IapCore.IapContext.WriteCandidateImage | src/iap_core.c:435-474 | Ties the checks, erase, write and verification through the driver to the operation of `InstallContract` |
| IapCore.IapContext.BootloaderRun | src/iap_bootloader.c:3-47 | Ties load, default, select and boot address to the boot of `BootMeans`: same flash, and the same jump or recovery |
| MemoryStorage.MemoryStorage.constructor | src/iap_memory_storage.c:44-60 | Fills the memory with the erased value |
| MemoryStorage.MemoryStorage.Read | src/iap_memory_storage.c:5-16 | The bytes of the range, or an error outside it |
| MemoryStorage.MemoryStorage.Write | src/iap_memory_storage.c:18-29 | Exactly the range is replaced |
| MemoryStorage.MemoryStorage.Erase | src/iap_memory_storage.c:31-42 | Exactly the range becomes the erased value |
| MemoryStorage.InstallAgrees | src/iap_memory_storage.c:18-42 | Erasing and writing a slot gives the same bytes in flash and in memory, and touches nothing else the core reads |
| MemoryStorage.SaveAgrees | src/iap_memory_storage.c:18-29 | Saving a control block to the log and to memory agree on every range the core reads |
| MemoryStorage.FlashLooksLikeMemory | src/iap_memory_storage.c:5-42 | From the first boot on, flash driver and byte array answer every read of the core alike, whatever is saved and installed; an empty log reads like erased memory |

## Left out

- LogTheorems.LogIsAtomicCell: assumes `Honest` (see above) of interrupted erases, as does every theorem here that
  allows arbitrary faults on the log; a 32-bit CRC cannot rule such a collision out.
- PlatformRuns.Stm32BrickFreedom: a pending image that verifies may still be refused for its vector table; that boot
  ends in the platform's recovery loop with the attempt spent, so `TrialsBounded` limits how often it happens.
- Image.ReadsStayInside: holds for any slot descriptor, while the methods of `IapCore` that make those reads are fixed
  to the STM32's slot addresses and size.
- BootRuns.BootMeans: does not say that the booted image is the one that was marked; the CRC and size in the control
  block are not consulted at boot (`src/iap_core.c:309`).
- Stm32Storage.Stm32Storage.Read: raw reads that leave the two slots (control sectors, bootloader, reserved sector)
  return unspecified bytes of the right length; the core never makes one.
- Stm32Storage.Stm32Storage.constructor: the failure counters and pause points it clears are test instruments; faults
  stand for what they do and for more.
- ControlDriver.ProgramControlWords: `program_words` appears twice, for log words here and for slot bytes in
  `Stm32Storage.ProgramSlotBytes`, because the two flash regions have different element types.
- BootControls.DecodeEncode: slot numbers stay 32 bits wide; a compiler that stores `iap_slot_t` in one byte would
  truncate the casts in `iap_boot_control_is_valid`.
- MemoryStorage.FlashLooksLikeMemory: compares whole control saves and whole installs, the only writes the core makes,
  without faults.
- HAL unlock and lock, flash error flags, watchdog, reset cause, interrupt, vector-table and stack set-up, and the
  jump itself.
- Null-pointer arguments, except the memory storage's missing buffer.
- The command loop of `test_app_main.c`, the RAM test protocol and `iap_test_control.py`.
- Command-line arguments and file access of the tools, and that a payload length beyond 2^32 fails late, in packing
  the header.
- The larger image state machine and the alive and functional flags that the repository's README describes: the code
  has none.
- That a torn image or a damaged header never verifies by chance: a CRC over the payload alone does not ensure it.
