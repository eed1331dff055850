# Kinetis flash-command engine

This project models the flash-command engine of the Kinetis ("Teensy 3")
flashing library and proves properties of the model. The engine drives the
FTFL flash controller through its registers:

- FSTAT is the status register. CCIF (0x80) means the last command is
  complete. ACCERR (0x20), FPVIOL (0x10) and MGSTAT0 (0x01) report errors.
- FCCOB0..FCCOB7 are the command-object registers. FCCOB0 holds the command
  code, FCCOB1..FCCOB3 the flash address, high byte first, and FCCOB4..FCCOB7
  the parameters.

Every command the engine issues follows the same protocol:

1. Wait until CCIF is set.
2. Write 0x30 to FSTAT to clear the error flags.
3. Stage the command code and the address.
4. Stage the parameters.
5. Launch the command by writing CCIF to FSTAT.
6. Wait until the controller sets CCIF again.
7. Report `FSTAT & (ACCERR | FPVIOL | MGSTAT0)`.

The one path that issues no command is `flashProgramWord` on an address in
0x400..0x40C (flashKinetis.cpp:95-96). It returns 0 before step 1 and
touches no register.

The model lives in one module, `FlashKinetis` (`flash_kinetis.dfy`).

- **The register block** is the class `Ftfl`. `fstat` is a field. FCCOB0..FCCOB7
  are an eight-element `array<bv8>`. The five C functions are its methods:
  `Exec`, `InitCommand`, `CheckSectorErased`, `EraseSector` and `ProgramWord`.
  `WaitWhileBusy` is the busy-wait loop at lines 49 and 56, kept as a `while`
  loop.
- **The controller** is a stream of status values, the field `answers`. A
  wait loop's first test sees the status already in FSTAT. Each test after an
  unfinished one reads the next value of the stream.
- **FSTAT writes** are write-1-to-clear: writing `v` clears the bits of `v`.
  That is how the controller treats 0x30 and CCIF.
- **The access log** is a ghost field, `log`. It records every FSTAT write,
  every FCCOB write and every new status the controller presents to a poll,
  in order.
- **Specification functions.** Each method is proved against a pure function
  of the registers taken as a value (`Registers`): `AfterInitCommand`,
  `AfterExec`, `AfterCheck`, `AfterErase`, `AfterProgram` and the result
  functions. The lemmas state what those functions do.

### Where the code and its own comments and names differ

The model follows the code in each case.

- **Alignment.** The macro is named `FLASH_ALIGN` (flashKinetis.cpp:43), but
  `& ~FLASH_SECTOR_SIZE` clears bit 11 only, not the low 11 bits
  (`SectorAlignClearsOneBit`). Its value is also thrown away at
  flashKinetis.cpp:72, :83 and :94, so the caller's address is staged
  unchanged (`DiscardedSectorAlignment`, `DiscardedWordAlignment`).
- **Protected range.** The comment at flashKinetis.cpp:96 says "Make sure not
  to write 0x400 - 0x40F". The test at :95 is `<= 0x40C` on the unaligned
  address, so 0x40D..0x40F are not refused. The refusal returns 0, the same
  value as a successful program (`ProgramWordRefusesConfigField`).
- **Erased check.** The comment at flashKinetis.cpp:70 says "Check if sector
  is erased". The function returns the error bits of the verify, and 0 means
  erased.

## Model

| member | source | states |
|---|---|---|
| FlashKinetis.ErrorBits | flashKinetis.cpp:51 | the result has no bit outside ACCERR, FPVIOL and MGSTAT0, keeps each of those three as FSTAT had it, and is zero exactly when all three are clear |
| FlashKinetis.AddressBytes | flashKinetis.cpp:59-61 | the address is split into exactly three FCCOB bytes |
| FlashKinetis.AddressBytesRoundTrip | flashKinetis.cpp:59-61 | reassembling FCCOB1..FCCOB3 as `(b1<<16)\|(b2<<8)\|b3` gives the address modulo 2^24 |
| FlashKinetis.AddressBytesOfJoin | flashKinetis.cpp:59-61 | splitting a reassembled address gives back the same three bytes (the other direction of the round trip) |
| FlashKinetis.AddressBytesInjective | flashKinetis.cpp:59-61 | two addresses stage the same bytes if and only if their low 24 bits agree |
| FlashKinetis.WordBytes | flashKinetis.cpp:98-101 | the data word is split into exactly four FCCOB bytes |
| FlashKinetis.WordBytesRoundTrip | flashKinetis.cpp:98-101 | reassembling FCCOB4..FCCOB7 as `(b4<<24)\|(b5<<16)\|(b6<<8)\|b7` gives the data word back |
| FlashKinetis.WordBytesOfJoin | flashKinetis.cpp:98-101 | splitting a reassembled word gives back the same four bytes |
| FlashKinetis.WordBytesBigEndian | flashKinetis.cpp:98-101 | 0xAABBCCDD is staged as 0xAA, 0xBB, 0xCC, 0xDD: most significant byte first |
| FlashKinetis.SectionLongwords | flashKinetis.cpp:74-76 | the longword count fills two FCCOB bytes |
| FlashKinetis.SectionLongwordsCoverSector | flashKinetis.cpp:74-76 | FCCOB4 = 0x02 and FCCOB5 = 0x00, which reassemble to FLASH_SECTOR_SIZE / 4 = 0x200 |
| FlashKinetis.SectorAlignClearsOneBit | flashKinetis.cpp:43 | `FLASH_ALIGN(a, 0x800)` clears bit 11 and keeps every other bit, so its result is sector-aligned if and only if `a` already is |
| FlashKinetis.DiscardedSectorAlignment | flashKinetis.cpp:72-73 | staging an assigned sector alignment would differ from staging the caller's address exactly when bit 11 is set |
| FlashKinetis.DiscardedWordAlignment | flashKinetis.cpp:94-97 | staging an assigned word alignment would differ from staging the caller's address exactly when one of the two low bits is set |
| FlashKinetis.FirstDone | flashKinetis.cpp:49 | the index of the first answer with CCIF set: it exists and no earlier answer has CCIF |
| FlashKinetis.CompletionsAfterFirst | flashKinetis.cpp:49 | a wait uses up exactly one of the completions in the answer stream |
| FlashKinetis.AwaitComplete | flashKinetis.cpp:56 | the wait exits with CCIF set; when FSTAT already has CCIF set it takes no new answer from the controller, and otherwise it uses up exactly one completion |
| FlashKinetis.AwaitCompleteStopsAtFirst | flashKinetis.cpp:49 | a busy wait reads the answers up to and including the first with CCIF set, no fewer and no more, and exits with that status |
| FlashKinetis.AfterWait | flashKinetis.cpp:56 | after the poll loop CCIF is set, FCCOB is untouched, and completions are used as above |
| FlashKinetis.WaitPollsUntilComplete | flashKinetis.cpp:56 | when the controller is idle the poll loop changes nothing; otherwise it reads and logs the answers up to the first with CCIF set and exits with that status |
| FlashKinetis.AfterExec | flashKinetis.cpp:45-52 | after `flashExec` CCIF is set, FCCOB is untouched, and exactly one completion is used |
| FlashKinetis.ExecLaunchesThenWaits | flashKinetis.cpp:48-49 | `flashExec` first writes CCIF to FSTAT, then polls until the first answer with CCIF set, and leaves FCCOB alone |
| FlashKinetis.ExecStagesNothing | flashKinetis.cpp:45-52 | `flashExec` writes no command code |
| FlashKinetis.AfterInitCommand | flashKinetis.cpp:54-62 | after `flashInitCommand` CCIF is set and the register file still has eight FCCOB registers |
| FlashKinetis.InitCommandRegisters | flashKinetis.cpp:58-61 | FCCOB0 holds the command and FCCOB1..FCCOB3 hold the address bytes, which reassemble to the address modulo 2^24; FCCOB4..FCCOB7 keep their values |
| FlashKinetis.InitCommandAccesses | flashKinetis.cpp:56-61 | nothing is written until CCIF has been seen; after that, 0x30 is written to FSTAT, then FCCOB0..FCCOB3 in order |
| FlashKinetis.StagingStagesCommand | flashKinetis.cpp:57-61 | of the staging writes, only FCCOB0 carries a command code: the one passed in |
| FlashKinetis.InitCommandStagesCommand | flashKinetis.cpp:54-62 | `flashInitCommand` adds exactly its own command code to the commands issued |
| FlashKinetis.LaunchStagesCommand | flashKinetis.cpp:86-87 | staging and then launching adds exactly the staged command code |
| FlashKinetis.LaunchFromIdle | flashKinetis.cpp:86-87 | on an idle controller, staging and then launching polls nothing before staging; it leaves the command and address in FCCOB0..FCCOB3, logs staging, launch and polls, and ends at the first status with CCIF set |
| FlashKinetis.AfterVerifyParameters | flashKinetis.cpp:74-77 | writing the verify parameters leaves FSTAT and the controller untouched |
| FlashKinetis.AfterStoreWord | flashKinetis.cpp:98-101 | writing the data bytes leaves FSTAT and the controller untouched |
| FlashKinetis.StoreWordRegisters | flashKinetis.cpp:98-101 | FCCOB4..FCCOB7 receive the data bytes, most significant first; FCCOB0..FCCOB3 keep their values |
| FlashKinetis.AfterCheck | flashKinetis.cpp:70-79 | after `flashCheckSectorErased` CCIF is set and the waits used one completion each |
| FlashKinetis.CheckSectorErasedRegisters | flashKinetis.cpp:73-77 | FCCOB0..FCCOB6 hold 0x01, the caller's address bytes, 0x02, 0x00 and 0x00 (normal margin); FCCOB7 is untouched |
| FlashKinetis.CheckSectorErasedAccesses | flashKinetis.cpp:74-78 | after staging, the verify parameters are written, then CCIF is written, then the loop polls; the result is the error bits of the completing status |
| FlashKinetis.CheckSectorErasedStagesVerify | flashKinetis.cpp:70-79 | the only command issued is the section verify, 0x01 |
| FlashKinetis.AfterErase | flashKinetis.cpp:81-90 | after `flashEraseSector` CCIF is set |
| FlashKinetis.EraseSectorSkipsErased | flashKinetis.cpp:84-89 | when the check returns 0, the erase returns 0, nothing happens after the check, and the last command staged is still 0x01 |
| FlashKinetis.EraseSectorStagesVerifyOnly | flashKinetis.cpp:84-89 | when the check returns 0, only the section verify is issued and no erase |
| FlashKinetis.EraseSectorErasesOtherwise | flashKinetis.cpp:84-88 | when the check reports an error bit, 0x09 is staged at the caller's address with no poll first, then launched; the result is the error bits of the erase's completing status |
| FlashKinetis.EraseSectorStagesVerifyThenErase | flashKinetis.cpp:84-88 | when the check reports an error bit, the commands issued are the verify 0x01 and then the erase 0x09 |
| FlashKinetis.AfterProgram | flashKinetis.cpp:92-104 | the register file still has eight FCCOB registers after `flashProgramWord` |
| FlashKinetis.ProgramWordRefusesConfigField | flashKinetis.cpp:95-96 | on 0x400..0x40C, nothing changes (no wait, no staging, no launch) and the result is 0, the same value as a success |
| FlashKinetis.ProgramWordRegisters | flashKinetis.cpp:97-101 | outside that range, FCCOB0..FCCOB7 hold 0x06, the caller's address bytes and the data bytes, and FCCOB4..FCCOB7 reassemble to the data |
| FlashKinetis.ProgramWordAccesses | flashKinetis.cpp:97-102 | after staging, the four data bytes are written, then CCIF, then the loop polls; the result is the error bits of the completing status |
| FlashKinetis.ProgramWordStagesCommands | flashKinetis.cpp:95-102 | the program issues 0x06 outside the configuration field and no command inside it |
| FlashKinetis.Ftfl.StoreStatus | flashKinetis.cpp:57 | a write to FSTAT clears the written bits and is logged |
| FlashKinetis.Ftfl.StoreCommand | flashKinetis.cpp:58 | a write to one FCCOB register changes that register only and is logged |
| FlashKinetis.Ftfl.WaitWhileBusy | flashKinetis.cpp:49 | the `while` loop computes `AfterWait` of the old registers |
| FlashKinetis.Ftfl.Exec | flashKinetis.cpp:45-52 | the new registers are `AfterExec` of the old ones, and the result is the error bits of the final FSTAT |
| FlashKinetis.Ftfl.InitCommand | flashKinetis.cpp:54-62 | the new registers are `AfterInitCommand` of the old ones |
| FlashKinetis.Ftfl.StoreVerifyParameters | flashKinetis.cpp:74-77 | the new registers are `AfterVerifyParameters` of the old ones |
| FlashKinetis.Ftfl.StoreWord | flashKinetis.cpp:98-101 | the new registers are `AfterStoreWord` of the old ones |
| FlashKinetis.Ftfl.CheckSectorErased | flashKinetis.cpp:70-79 | the new registers are `AfterCheck` of the old ones, and the result is `CheckResult` |
| FlashKinetis.Ftfl.EraseSector | flashKinetis.cpp:81-90 | the new registers are `AfterErase` of the old ones, and the result is `EraseResult` |
| FlashKinetis.Ftfl.ProgramWord | flashKinetis.cpp:92-104 | the new registers are `AfterProgram` of the old ones, and the result is `ProgramResult` |

## Left out

- **Interrupt masking and RAM placement.** `__disable_irq`/`__enable_irq` and
  `FASTRUN` are not modelled. They affect timing and placement, not the
  register protocol.
- **FSTAT hardware behaviour.** When and how the controller sets CCIF and the
  error bits is not modelled. It is replaced by the `answers` stream, and FSTAT
  writes are modelled as write-1-to-clear.
- FlashKinetis.Ftfl.WaitWhileBusy: requires a completion in the answer stream
  unless CCIF is already set. The source waits forever on a controller that
  never completes, and a model of that could not be proved to terminate.
- FlashKinetis.AwaitComplete, FlashKinetis.AfterWait: the same requirement,
  for the same reason.
- FlashKinetis.Ftfl.Exec, FlashKinetis.Ftfl.InitCommand,
  FlashKinetis.Ftfl.CheckSectorErased, FlashKinetis.Ftfl.EraseSector,
  FlashKinetis.Ftfl.ProgramWord: require the answer stream to hold one
  completion per wait the operation performs (`CheckReady`, `EraseReady`,
  `ProgramReady`), for the same reason.
- FlashKinetis.AfterExec, FlashKinetis.AfterInitCommand,
  FlashKinetis.AfterCheck, FlashKinetis.AfterErase, FlashKinetis.AfterProgram:
  the same requirement as the methods they specify, for the same reason.
- **Reads of FSTAT that see no new status.** Each poll loop's first test
  (flashKinetis.cpp:49, :56) and the read in `flashExec`'s `return`
  (flashKinetis.cpp:51) are taken to see the status already held in FSTAT.
  The controller presents a new status only to the loop tests that follow an
  unfinished one, and only those are logged. A status change between the
  loop's exit and the read at :51 is not modelled.
- **The access log** is ghost. It records the order of register accesses for
  the proofs and has no counterpart in the program.
- **Result width.** The C `int` results are modelled as `bv8`. Every value
  they can take (a subset of 0x31) fits in eight bits.
- **`*data`.** It is modelled as the long word it points to. Pointer
  dereference and aliasing are not modelled.
- **Header-only declarations.** `flashSetFlexRAM`, `flashSecurityLockBits`,
  `flashQuickUnlockBits` and the `allowFirstSector`/`overrideSafetyForConfig`
  overloads in flashKinetis.h have no definition in the source, so they are
  not part of this model.
- **Device selection.** The build-time choice of device and the confirmation
  guard in flashKinetis.h are not modelled. Only `FLASH_SECTOR_SIZE` = 0x800
  is used.
- **Unused command codes.** Only 0x01, 0x06 and 0x09 are used by the
  operations, so only those are modelled.
- **Flash memory contents.** The source keeps no model of the stored data, so
  an erase, program and read round trip is not stated.
- **Same-sector and repeated checks.** Two checks on addresses in the same
  sector do not necessarily give the same result, and neither do two checks
  in a row. The result depends on the controller's answers, and the code
  stages the unaligned address. So these equalities are not stated.
