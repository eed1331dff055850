/*
 * The flash-command engine of the Kinetis ("Teensy 3") flashing library:
 * a register protocol for the FTFL flash controller. A command is staged
 * into the command-object registers FCCOB0..FCCOB7 once the controller
 * reports command-complete (CCIF), launched by writing CCIF to the status
 * register FSTAT, and its outcome is read back from FSTAT after the
 * controller sets CCIF again.
 *
 * The controller itself is not modelled: it is a stream of status values
 * (`answers`), one of which is presented to each poll of a waiting loop.
 */
module FlashKinetis {

  // ---------------------------------------------------------------------
  // Constants of the protocol
  // ---------------------------------------------------------------------

  /** Command codes written to FCCOB0. */
  const CmdReadOnesSection: bv8 := 0x01
  const CmdProgramLongWord: bv8 := 0x06
  const CmdEraseFlashSector: bv8 := 0x09

  /** Bits of FSTAT. */
  const StatMgstat0: bv8 := 0x01  // error detected during the command sequence
  const StatFpviol: bv8 := 0x10   // flash protection violation
  const StatAccerr: bv8 := 0x20   // flash access error
  const StatCcif: bv8 := 0x80     // command complete

  /** The value written to FSTAT before staging: clears ACCERR and FPVIOL. */
  const ClearErrorFlags: bv8 := 0x30

  /** The bits the operations report to their callers. */
  const ErrorMask: bv8 := StatAccerr | StatFpviol | StatMgstat0

  const ReadMarginNormal: bv8 := 0x00

  /** Erase and verify granularity of the supported devices. */
  const FlashSectorSize: bv32 := 0x800

  // ---------------------------------------------------------------------
  // Status decoding
  // ---------------------------------------------------------------------

  /** The controller has finished the last command (CCIF is set). */
  predicate Done(status: bv8) {
    status & StatCcif != 0
  }

  /** The number of waits for CCIF that a poll loop entered with `status` performs. */
  function Busy(status: bv8): nat {
    if Done(status) then 0 else 1
  }

  /**
   * What `flashExec` returns: the status masked to ACCERR, FPVIOL and
   * MGSTAT0. It is zero exactly when none of the three is set, each of the
   * three is reported as the controller set it, and no other bit survives.
   */
  function ErrorBits(status: bv8): (r: bv8)
    ensures r & !ErrorMask == 0
    ensures r == 0 <==> status & StatAccerr == 0 && status & StatFpviol == 0 && status & StatMgstat0 == 0
    ensures r & StatAccerr == status & StatAccerr
    ensures r & StatFpviol == status & StatFpviol
    ensures r & StatMgstat0 == status & StatMgstat0
  {
    status & ErrorMask
  }

  /** FSTAT's flags are cleared by writing a one to them. */
  function StatusAfterWrite(status: bv8, written: bv8): bv8 {
    status & !written
  }

  // ---------------------------------------------------------------------
  // Splitting values into command bytes
  // ---------------------------------------------------------------------

  /** The `(unsigned char)` conversion: keeps the low eight bits. */
  function LowByte(x: bv32): bv8 {
    (x & 0xFF) as bv8
  }

  /** Reassembles FCCOB1..FCCOB3 into a flash address. */
  function JoinAddress(b: seq<bv8>): bv32
    requires |b| == 3
  {
    ((b[0] as bv32) << 16) | ((b[1] as bv32) << 8) | (b[2] as bv32)
  }

  /** Reassembles four data bytes, most significant first, into a long word. */
  function JoinWord(b: seq<bv8>): bv32
    requires |b| == 4
  {
    ((b[0] as bv32) << 24) | ((b[1] as bv32) << 16) | ((b[2] as bv32) << 8) | (b[3] as bv32)
  }

  /**
   * The address bytes staged into FCCOB1, FCCOB2 and FCCOB3: bits 23..16,
   * 15..8 and 7..0. Bits 31..24 are lost.
   */
  function AddressBytes(address: bv32): (b: seq<bv8>)
    ensures |b| == 3
  {
    [LowByte(address >> 16), LowByte(address >> 8), LowByte(address)]
  }

  /** The data bytes staged into FCCOB4..FCCOB7, most significant first. */
  function WordBytes(data: bv32): (b: seq<bv8>)
    ensures |b| == 4
  {
    [LowByte(data >> 24), LowByte(data >> 16), LowByte(data >> 8), LowByte(data)]
  }

  /** Reassembling the staged address bytes gives the address's low 24 bits. */
  lemma AddressBytesRoundTrip(address: bv32)
    ensures JoinAddress(AddressBytes(address)) == address & 0xFF_FFFF
  {
  }

  /** Reassembling the staged data bytes gives the data word back. */
  lemma WordBytesRoundTrip(data: bv32)
    ensures JoinWord(WordBytes(data)) == data
  {
  }

  /** The three bytes of a reassembled address come back out of it unchanged. */
  lemma SplitJoinAddress(x: bv8, y: bv8, z: bv8)
    ensures var a := JoinAddress([x, y, z]);
      LowByte(a >> 16) == x && LowByte(a >> 8) == y && LowByte(a) == z
  {
  }

  /** The four bytes of a reassembled word come back out of it unchanged. */
  lemma SplitJoinWord(w: bv8, x: bv8, y: bv8, z: bv8)
    ensures var d := JoinWord([w, x, y, z]);
      LowByte(d >> 24) == w && LowByte(d >> 16) == x && LowByte(d >> 8) == y && LowByte(d) == z
  {
  }

  /** Splitting is the inverse of reassembling, for the address bytes. */
  lemma AddressBytesOfJoin(b: seq<bv8>)
    requires |b| == 3
    ensures AddressBytes(JoinAddress(b)) == b
  {
    assert b == [b[0], b[1], b[2]];
    SplitJoinAddress(b[0], b[1], b[2]);
  }

  /** Splitting is the inverse of reassembling, for the data bytes. */
  lemma WordBytesOfJoin(b: seq<bv8>)
    requires |b| == 4
    ensures WordBytes(JoinWord(b)) == b
  {
    assert b == [b[0], b[1], b[2], b[3]];
    SplitJoinWord(b[0], b[1], b[2], b[3]);
  }

  /** Two addresses stage the same bytes exactly when their low 24 bits agree. */
  lemma AddressBytesInjective(a: bv32, c: bv32)
    ensures AddressBytes(a) == AddressBytes(c) <==> a & 0xFF_FFFF == c & 0xFF_FFFF
  {
    AddressBytesRoundTrip(a);
    AddressBytesRoundTrip(c);
    if a & 0xFF_FFFF == c & 0xFF_FFFF {
      assert LowByte(a >> 16) == LowByte(c >> 16);
      assert LowByte(a >> 8) == LowByte(c >> 8);
      assert LowByte(a) == LowByte(c);
    }
  }

  /** The byte order of a programmed word: 0xAABBCCDD is staged as AA, BB, CC, DD. */
  lemma WordBytesBigEndian()
    ensures WordBytes(0xAABB_CCDD) == [0xAA, 0xBB, 0xCC, 0xDD]
  {
  }

  /** The longword count of a section verify, split into FCCOB4 (high) and FCCOB5 (low). */
  function SectionLongwords(): (b: seq<bv8>)
    ensures |b| == 2
  {
    var num := FlashSectorSize >> 2;
    [LowByte(num >> 8), LowByte(num)]
  }

  /** FCCOB4 and FCCOB5 of a section verify count the long words of one whole sector: 0x02, 0x00. */
  lemma SectionLongwordsCoverSector()
    ensures SectionLongwords() == [0x02, 0x00]
    ensures var b := SectionLongwords(); ((b[0] as bv32) << 8) | (b[1] as bv32) == FlashSectorSize / 4
  {
  }

  // ---------------------------------------------------------------------
  // Address alignment and the protected range
  // ---------------------------------------------------------------------

  /** The `FLASH_ALIGN(address, align)` macro: clears the bits of `align`. */
  function FlashAlign(address: bv32, align: bv32): bv32 {
    address & !align
  }

  /**
   * With `align` = FLASH_SECTOR_SIZE the macro clears bit 11 only, so its
   * result is a sector base exactly when the address's low 11 bits are
   * already zero, and every other bit is kept.
   */
  lemma SectorAlignClearsOneBit(a: bv32)
    ensures FlashAlign(a, FlashSectorSize) & 0x800 == 0
    ensures FlashAlign(a, FlashSectorSize) & !0x800 == a & !0x800
    ensures FlashAlign(a, FlashSectorSize) & 0x7FF == 0 <==> a & 0x7FF == 0
  {
  }

  /**
   * `flashCheckSectorErased` and `flashEraseSector` discard the sector
   * alignment and stage the caller's address. Had the alignment been
   * assigned, the staged bytes would differ exactly when bit 11 of the
   * address is set.
   */
  lemma DiscardedSectorAlignment(a: bv32)
    ensures AddressBytes(FlashAlign(a, FlashSectorSize)) == AddressBytes(a) <==> a & 0x800 == 0
  {
    AddressBytesInjective(FlashAlign(a, FlashSectorSize), a);
  }

  /**
   * `flashProgramWord` discards the word alignment and stages the caller's
   * address. Had the alignment been assigned, the staged bytes would differ
   * exactly when one of the two low bits of the address is set.
   */
  lemma DiscardedWordAlignment(a: bv32)
    ensures AddressBytes(FlashAlign(a, 0x03)) == AddressBytes(a) <==> a & 0x03 == 0
  {
    AddressBytesInjective(FlashAlign(a, 0x03), a);
  }

  /** The configuration field the engine refuses to program. */
  predicate InProtectedRange(address: bv32) {
    0x400 <= address <= 0x40C
  }

  // ---------------------------------------------------------------------
  // The controller: a stream of status answers
  // ---------------------------------------------------------------------

  /** How many answers in the stream report command-complete. */
  function Completions(answers: seq<bv8>): nat {
    if answers == [] then 0
    else (if Done(answers[0]) then 1 else 0) + Completions(answers[1..])
  }

  /** The position of the first answer that reports command-complete. */
  function FirstDone(answers: seq<bv8>): (k: nat)
    requires Completions(answers) > 0
    ensures k < |answers| && Done(answers[k])
    ensures forall j :: 0 <= j < k ==> !Done(answers[j])
  {
    if Done(answers[0]) then 0 else 1 + FirstDone(answers[1..])
  }

  /** Waiting for the first completion uses up exactly one of them. */
  lemma {:induction false} CompletionsAfterFirst(answers: seq<bv8>)
    requires Completions(answers) > 0
    ensures Completions(answers[FirstDone(answers) + 1..]) == Completions(answers) - 1
  {
    if !Done(answers[0]) {
      CompletionsAfterFirst(answers[1..]);
      assert answers[FirstDone(answers) + 1..] == answers[1..][FirstDone(answers[1..]) + 1..];
    }
  }

  /** The outcome of a poll loop: the status it exits with, the answers it took, the answers left. */
  datatype Wait = Wait(status: bv8, seen: seq<bv8>, rest: seq<bv8>)

  /**
   * `while (!(FTFL_FSTAT & FTFL_STAT_CCIF)) {;}` entered with `status`:
   * it exits with CCIF set, takes nothing when CCIF is already set, and
   * otherwise uses up exactly one completion.
   */
  function AwaitComplete(status: bv8, answers: seq<bv8>): (w: Wait)
    requires Done(status) || Completions(answers) > 0
    ensures Done(w.status)
    ensures Done(status) ==> w.seen == [] && w.status == status && w.rest == answers
    ensures Completions(w.rest) == Completions(answers) - Busy(status)
  {
    if Done(status) then Wait(status, [], answers)
    else
      var k := FirstDone(answers);
      CompletionsAfterFirst(answers);
      Wait(answers[k], answers[..k + 1], answers[k + 1..])
  }

  /**
   * A busy wait takes the answers up to and including the first that sets
   * CCIF, never fewer and never more, and exits with that answer's status.
   */
  lemma AwaitCompleteStopsAtFirst(status: bv8, answers: seq<bv8>)
    requires !Done(status) && Completions(answers) > 0
    ensures var w := AwaitComplete(status, answers);
      w.seen != [] && w.seen + w.rest == answers && w.status == w.seen[|w.seen| - 1]
      && forall j :: 0 <= j < |w.seen| - 1 ==> !Done(w.seen[j])
  {
    var k := FirstDone(answers);
    assert answers[..k + 1] + answers[k + 1..] == answers;
  }

  /** The status a finished command leaves once the next one is staged and launched. */
  function Launched(status: bv8): bv8 {
    StatusAfterWrite(StatusAfterWrite(status, ClearErrorFlags), StatCcif)
  }

  // ---------------------------------------------------------------------
  // Register accesses, in the order the engine makes them
  // ---------------------------------------------------------------------

  datatype Access =
    | StatusWrite(value: bv8)               // a write to FSTAT
    | CommandWrite(index: nat, value: bv8)  // a write to FCCOB<index>
    | Answer(status: bv8)                   // a new status observed by a poll loop

  function Observed(statuses: seq<bv8>): seq<Access> {
    seq(|statuses|, j requires 0 <= j < |statuses| => Answer(statuses[j]))
  }

  lemma ObservedSnoc(statuses: seq<bv8>, s: bv8)
    ensures Observed(statuses + [s]) == Observed(statuses) + [Answer(s)]
  {
  }

  /** The command code an access writes to FCCOB0, if it writes one. */
  function StagedBy(a: Access): seq<bv8> {
    if a.CommandWrite? && a.index == 0 then [a.value] else []
  }

  /** The command codes written to FCCOB0, in order. */
  function StagedCommands(log: seq<Access>): seq<bv8> {
    if log == [] then [] else StagedBy(log[0]) + StagedCommands(log[1..])
  }

  lemma {:induction false} StagedCommandsAppend(a: seq<Access>, b: seq<Access>)
    ensures StagedCommands(a + b) == StagedCommands(a) + StagedCommands(b)
  {
    if a == [] {
      assert a + b == b;
    } else {
      assert (a + b)[1..] == a[1..] + b;
      StagedCommandsAppend(a[1..], b);
    }
  }

  /** Accesses none of which writes FCCOB0 stage no command. */
  lemma {:induction false} StagedCommandsNone(log: seq<Access>)
    requires forall k :: 0 <= k < |log| ==> !log[k].CommandWrite? || log[k].index != 0
    ensures StagedCommands(log) == []
  {
    if log != [] {
      StagedCommandsNone(log[1..]);
    }
  }

  /** What `flashInitCommand` writes once the controller is idle. */
  function Staging(command: bv8, address: bv32): seq<Access> {
    var b := AddressBytes(address);
    [StatusWrite(ClearErrorFlags), CommandWrite(0, command),
     CommandWrite(1, b[0]), CommandWrite(2, b[1]), CommandWrite(3, b[2])]
  }

  /** Of the writes `flashInitCommand` makes, only FCCOB0 stages a command. */
  lemma StagingStagesCommand(command: bv8, address: bv32)
    ensures StagedCommands(Staging(command, address)) == [command]
  {
    var st := Staging(command, address);
    StagedCommandsNone(st[2..]);
    assert st[1..][1..] == st[2..];
  }

  /** The parameters of a section verify: longword count and margin. */
  function VerifyParameters(): seq<Access> {
    var n := SectionLongwords();
    [CommandWrite(4, n[0]), CommandWrite(5, n[1]), CommandWrite(6, ReadMarginNormal)]
  }

  /** The data of a long-word program. */
  function DataWrites(data: bv32): seq<Access> {
    var b := WordBytes(data);
    [CommandWrite(4, b[0]), CommandWrite(5, b[1]), CommandWrite(6, b[2]), CommandWrite(7, b[3])]
  }

  // ---------------------------------------------------------------------
  // The register block as a value, and what each operation makes of it
  // ---------------------------------------------------------------------

  /**
   * FSTAT, FCCOB0..FCCOB7, the answers the controller has yet to give, and
   * every register access made so far, oldest first.
   */
  datatype Registers = Registers(fstat: bv8, fccob: seq<bv8>, answers: seq<bv8>, log: seq<Access>)

  predicate Wellformed(s: Registers) {
    |s.fccob| == 8
  }

  function WriteStatus(s: Registers, value: bv8): Registers {
    s.(fstat := StatusAfterWrite(s.fstat, value), log := s.log + [StatusWrite(value)])
  }

  function WriteCommand(s: Registers, index: nat, value: bv8): Registers
    requires index < |s.fccob|
  {
    s.(fccob := s.fccob[index := value], log := s.log + [CommandWrite(index, value)])
  }

  /** The registers after a poll loop on CCIF. */
  function AfterWait(s: Registers): (r: Registers)
    requires Done(s.fstat) || Completions(s.answers) > 0
    ensures Done(r.fstat) && r.fccob == s.fccob
    ensures Completions(r.answers) == Completions(s.answers) - Busy(s.fstat)
  {
    var w := AwaitComplete(s.fstat, s.answers);
    s.(fstat := w.status, answers := w.rest, log := s.log + Observed(w.seen))
  }

  /** The registers after `flashInitCommand(command, address)`. */
  function AfterInitCommand(s: Registers, command: bv8, address: bv32): (r: Registers)
    requires Wellformed(s) && (Done(s.fstat) || Completions(s.answers) > 0)
    ensures Wellformed(r) && Done(r.fstat)
    ensures Completions(r.answers) == Completions(s.answers) - Busy(s.fstat)
  {
    var b := AddressBytes(address);
    var idle := WriteStatus(AfterWait(s), ClearErrorFlags);
    WriteCommand(WriteCommand(WriteCommand(WriteCommand(idle, 0, command), 1, b[0]), 2, b[1]), 3, b[2])
  }

  /** The registers after `flashExec()`. */
  function AfterExec(s: Registers): (r: Registers)
    requires Completions(s.answers) > 0
    ensures Done(r.fstat) && r.fccob == s.fccob
    ensures Completions(r.answers) == Completions(s.answers) - 1
  {
    AfterWait(WriteStatus(s, StatCcif))
  }

  /** The registers after the verify parameters are written to FCCOB4..FCCOB6. */
  function AfterVerifyParameters(s: Registers): (r: Registers)
    requires Wellformed(s)
    ensures Wellformed(r) && r.fstat == s.fstat && r.answers == s.answers
  {
    var n := SectionLongwords();
    WriteCommand(WriteCommand(WriteCommand(s, 4, n[0]), 5, n[1]), 6, ReadMarginNormal)
  }

  /** The registers after the data word is written to FCCOB4..FCCOB7. */
  function AfterStoreWord(s: Registers, data: bv32): (r: Registers)
    requires Wellformed(s)
    ensures Wellformed(r) && r.fstat == s.fstat && r.answers == s.answers
  {
    var b := WordBytes(data);
    WriteCommand(WriteCommand(WriteCommand(WriteCommand(s, 4, b[0]), 5, b[1]), 6, b[2]), 7, b[3])
  }

  /** The controller can answer one section verify started in `s`. */
  predicate CheckReady(s: Registers) {
    Wellformed(s) && Completions(s.answers) >= Busy(s.fstat) + 1
  }

  /** The registers after `flashCheckSectorErased(address)`. */
  function AfterCheck(s: Registers, address: bv32): (r: Registers)
    requires CheckReady(s)
    ensures Wellformed(r) && Done(r.fstat)
    ensures Completions(r.answers) == Completions(s.answers) - Busy(s.fstat) - 1
  {
    AfterExec(AfterVerifyParameters(AfterInitCommand(s, CmdReadOnesSection, address)))
  }

  /** What `flashCheckSectorErased(address)` returns. */
  function CheckResult(s: Registers, address: bv32): bv8
    requires CheckReady(s)
  {
    ErrorBits(AfterCheck(s, address).fstat)
  }

  /**
   * The controller can answer what `flashEraseSector(address)` issues in
   * `s`: the verify, and the erase when the verify reports an error bit.
   */
  predicate EraseReady(s: Registers, address: bv32) {
    CheckReady(s)
    && (CheckResult(s, address) != 0 ==> Completions(s.answers) >= Busy(s.fstat) + 2)
  }

  /** The registers after `flashEraseSector(address)`. */
  function AfterErase(s: Registers, address: bv32): (r: Registers)
    requires EraseReady(s, address)
    ensures Wellformed(r) && Done(r.fstat)
  {
    var checked := AfterCheck(s, address);
    if ErrorBits(checked.fstat) != 0 then
      AfterExec(AfterInitCommand(checked, CmdEraseFlashSector, address))
    else
      checked
  }

  /** What `flashEraseSector(address)` returns. */
  function EraseResult(s: Registers, address: bv32): bv8
    requires EraseReady(s, address)
  {
    if CheckResult(s, address) != 0 then ErrorBits(AfterErase(s, address).fstat) else 0
  }

  /** The controller can answer what `flashProgramWord(address, data)` issues in `s`. */
  predicate ProgramReady(s: Registers, address: bv32) {
    Wellformed(s) && (!InProtectedRange(address) ==> Completions(s.answers) >= Busy(s.fstat) + 1)
  }

  /** The registers after `flashProgramWord(address, data)`. */
  function AfterProgram(s: Registers, address: bv32, data: bv32): (r: Registers)
    requires ProgramReady(s, address)
    ensures Wellformed(r)
  {
    if InProtectedRange(address) then s
    else AfterExec(AfterStoreWord(AfterInitCommand(s, CmdProgramLongWord, address), data))
  }

  /** What `flashProgramWord(address, data)` returns. */
  function ProgramResult(s: Registers, address: bv32, data: bv32): bv8
    requires ProgramReady(s, address)
  {
    if InProtectedRange(address) then 0 else ErrorBits(AfterProgram(s, address, data).fstat)
  }

  // ---------------------------------------------------------------------
  // What the operations do, stated about the functions above
  // ---------------------------------------------------------------------

  /**
   * A poll loop on CCIF entered while the controller is idle changes
   * nothing; otherwise it takes the controller's answers up to and
   * including the first that sets CCIF, never fewer and never more, logs
   * each, and exits with that answer as FSTAT.
   */
  lemma WaitPollsUntilComplete(s: Registers)
    requires Done(s.fstat) || Completions(s.answers) > 0
    ensures Done(s.fstat) ==> AfterWait(s) == s
    ensures !Done(s.fstat) ==>
      var r := AfterWait(s);
      var w := AwaitComplete(s.fstat, s.answers);
      w.seen != [] && w.seen + r.answers == s.answers && r.log == s.log + Observed(w.seen)
      && r.fstat == w.seen[|w.seen| - 1]
      && (forall j :: 0 <= j < |w.seen| - 1 ==> !Done(w.seen[j]))
  {
    if !Done(s.fstat) {
      AwaitCompleteStopsAtFirst(s.fstat, s.answers);
    }
  }

  /**
   * `flashExec` writes CCIF to FSTAT first, then polls until the controller
   * sets CCIF, taking no answer past the first that does, and leaves the
   * command registers alone.
   */
  lemma ExecLaunchesThenWaits(s: Registers)
    requires Completions(s.answers) > 0
    ensures var r := AfterExec(s);
      var w := AwaitComplete(StatusAfterWrite(s.fstat, StatCcif), s.answers);
      r.log == s.log + [StatusWrite(StatCcif)] + Observed(w.seen)
      && w.seen != [] && w.seen + r.answers == s.answers
      && r.fstat == w.seen[|w.seen| - 1] && Done(r.fstat)
      && (forall j :: 0 <= j < |w.seen| - 1 ==> !Done(w.seen[j]))
      && r.fccob == s.fccob
  {
    AwaitCompleteStopsAtFirst(StatusAfterWrite(s.fstat, StatCcif), s.answers);
  }

  /**
   * `flashInitCommand` puts the command code in FCCOB0 and the address,
   * high byte first, in FCCOB1..FCCOB3, which reassemble to the address's
   * low 24 bits; FCCOB4..FCCOB7 keep their values.
   */
  lemma InitCommandRegisters(s: Registers, command: bv8, address: bv32)
    requires Wellformed(s) && (Done(s.fstat) || Completions(s.answers) > 0)
    ensures var r := AfterInitCommand(s, command, address);
      r.fccob == [command] + AddressBytes(address) + s.fccob[4..]
      && JoinAddress(r.fccob[1..4]) == address & 0xFF_FFFF
  {
    var b := AddressBytes(address);
    var r := AfterInitCommand(s, command, address);
    assert r.fccob == s.fccob[0 := command][1 := b[0]][2 := b[1]][3 := b[2]];
    assert r.fccob[1..4] == b;
    AddressBytesRoundTrip(address);
  }

  /**
   * `flashInitCommand` stages nothing before it has seen CCIF: its accesses
   * are the polls of the wait (none when the controller is already idle),
   * then the write of 0x30 to FSTAT, then FCCOB0..FCCOB3 in order.
   */
  lemma InitCommandAccesses(s: Registers, command: bv8, address: bv32)
    requires Wellformed(s) && (Done(s.fstat) || Completions(s.answers) > 0)
    ensures var r := AfterInitCommand(s, command, address);
      var w := AwaitComplete(s.fstat, s.answers);
      Done(w.status) && (Done(s.fstat) ==> w.seen == [])
      && r.log == s.log + Observed(w.seen) + Staging(command, address)
      && r.fstat == StatusAfterWrite(w.status, ClearErrorFlags) && r.answers == w.rest
  {
  }

  /**
   * `flashCheckSectorErased` stages command 0x01 at the caller's address
   * with a longword count of FLASH_SECTOR_SIZE / 4 = 0x200 (FCCOB4 = 0x02,
   * FCCOB5 = 0x00) and the normal margin (FCCOB6 = 0x00).
   */
  lemma CheckSectorErasedRegisters(s: Registers, address: bv32)
    requires CheckReady(s)
    ensures AfterCheck(s, address).fccob
      == [CmdReadOnesSection] + AddressBytes(address) + [0x02, 0x00, ReadMarginNormal, s.fccob[7]]
  {
    SectionLongwordsCoverSector();
    InitCommandRegisters(s, CmdReadOnesSection, address);
  }

  /**
   * After staging, `flashCheckSectorErased` writes the verify parameters,
   * launches, and returns the error bits of the status the controller
   * completes with.
   */
  lemma CheckSectorErasedAccesses(s: Registers, address: bv32)
    requires CheckReady(s)
    ensures var i := AfterInitCommand(s, CmdReadOnesSection, address);
      var r := AfterCheck(s, address);
      var w := AwaitComplete(StatusAfterWrite(i.fstat, StatCcif), i.answers);
      r.log == i.log + [CommandWrite(4, 0x02), CommandWrite(5, 0x00), CommandWrite(6, ReadMarginNormal)]
        + [StatusWrite(StatCcif)] + Observed(w.seen)
      && r.fstat == w.status && r.answers == w.rest
      && CheckResult(s, address) == ErrorBits(w.status)
  {
    SectionLongwordsCoverSector();
  }

  /**
   * When the erased check reports 0, `flashEraseSector` returns 0 and
   * issues nothing more: its registers are those the check left, the last
   * staged command is still 0x01, and no erase command was written.
   */
  lemma EraseSectorSkipsErased(s: Registers, address: bv32)
    requires EraseReady(s, address) && CheckResult(s, address) == 0
    ensures EraseResult(s, address) == 0
    ensures AfterErase(s, address) == AfterCheck(s, address)
    ensures AfterErase(s, address).fccob[0] == CmdReadOnesSection
  {
    CheckSectorErasedRegisters(s, address);
  }

  /**
   * `flashInitCommand` followed by `flashExec` on an idle controller: no
   * poll before staging, then the staged command is launched and polled
   * until complete.
   */
  lemma LaunchFromIdle(c: Registers, command: bv8, address: bv32)
    requires Wellformed(c) && Done(c.fstat) && Completions(c.answers) > 0
    ensures var r := AfterExec(AfterInitCommand(c, command, address));
      var w := AwaitComplete(Launched(c.fstat), c.answers);
      r.fccob == [command] + AddressBytes(address) + c.fccob[4..]
      && r.log == c.log + Staging(command, address) + [StatusWrite(StatCcif)] + Observed(w.seen)
      && r.fstat == w.status && r.answers == w.rest
  {
    InitCommandRegisters(c, command, address);
    InitCommandAccesses(c, command, address);
  }

  /**
   * When the erased check reports an error bit, `flashEraseSector` stages
   * command 0x09 at the same address (the controller is idle after the
   * check, so nothing is polled first), launches it, and returns its error
   * bits.
   */
  lemma EraseSectorErasesOtherwise(s: Registers, address: bv32)
    requires EraseReady(s, address) && CheckResult(s, address) != 0
    ensures var c := AfterCheck(s, address);
      var r := AfterErase(s, address);
      var w := AwaitComplete(Launched(c.fstat), c.answers);
      r.fccob == [CmdEraseFlashSector] + AddressBytes(address) + c.fccob[4..]
      && r.log == c.log + Staging(CmdEraseFlashSector, address) + [StatusWrite(StatCcif)] + Observed(w.seen)
      && r.fstat == w.status && r.answers == w.rest
      && EraseResult(s, address) == ErrorBits(w.status)
  {
    LaunchFromIdle(AfterCheck(s, address), CmdEraseFlashSector, address);
  }

  /**
   * `flashProgramWord` on an address in 0x400..0x40C returns 0 and changes
   * nothing: no wait, no staging, no launch. The same 0 is what a
   * successful program returns.
   */
  lemma ProgramWordRefusesConfigField(s: Registers, address: bv32, data: bv32)
    requires ProgramReady(s, address) && InProtectedRange(address)
    ensures AfterProgram(s, address, data) == s
    ensures ProgramResult(s, address, data) == 0 == ErrorBits(StatCcif)
  {
  }

  /** Writing the data word fills FCCOB4..FCCOB7, most significant byte first. */
  lemma StoreWordRegisters(s: Registers, data: bv32)
    requires Wellformed(s)
    ensures AfterStoreWord(s, data).fccob == s.fccob[..4] + WordBytes(data)
  {
    var b := WordBytes(data);
    assert AfterStoreWord(s, data).fccob == s.fccob[4 := b[0]][5 := b[1]][6 := b[2]][7 := b[3]];
  }

  /**
   * Outside the configuration field `flashProgramWord` stages command 0x06
   * at the caller's address and the data most significant byte first in
   * FCCOB4..FCCOB7, which reassemble to the data.
   */
  lemma ProgramWordRegisters(s: Registers, address: bv32, data: bv32)
    requires ProgramReady(s, address) && !InProtectedRange(address)
    ensures var r := AfterProgram(s, address, data);
      r.fccob == [CmdProgramLongWord] + AddressBytes(address) + WordBytes(data)
      && JoinWord(r.fccob[4..]) == data
  {
    var i := AfterInitCommand(s, CmdProgramLongWord, address);
    InitCommandRegisters(s, CmdProgramLongWord, address);
    StoreWordRegisters(i, data);
    WordBytesRoundTrip(data);
  }

  /**
   * After staging, `flashProgramWord` writes the four data bytes, launches,
   * and returns the error bits of the status the controller completes with.
   */
  lemma ProgramWordAccesses(s: Registers, address: bv32, data: bv32)
    requires ProgramReady(s, address) && !InProtectedRange(address)
    ensures var i := AfterInitCommand(s, CmdProgramLongWord, address);
      var r := AfterProgram(s, address, data);
      var w := AwaitComplete(StatusAfterWrite(i.fstat, StatCcif), i.answers);
      r.log == i.log + DataWrites(data) + [StatusWrite(StatCcif)] + Observed(w.seen)
      && r.fstat == w.status && r.answers == w.rest
      && ProgramResult(s, address, data) == ErrorBits(w.status)
  {
  }

  /** `flashInitCommand` stages exactly its own command code. */
  lemma InitCommandStagesCommand(s: Registers, command: bv8, address: bv32)
    requires Wellformed(s) && (Done(s.fstat) || Completions(s.answers) > 0)
    ensures StagedCommands(AfterInitCommand(s, command, address).log) == StagedCommands(s.log) + [command]
  {
    var w := AwaitComplete(s.fstat, s.answers);
    InitCommandAccesses(s, command, address);
    StagingStagesCommand(command, address);
    StagedCommandsNone(Observed(w.seen));
    StagedCommandsAppend(s.log, Observed(w.seen));
    StagedCommandsAppend(s.log + Observed(w.seen), Staging(command, address));
  }

  /** `flashExec` stages no command of its own. */
  lemma ExecStagesNothing(s: Registers)
    requires Completions(s.answers) > 0
    ensures StagedCommands(AfterExec(s).log) == StagedCommands(s.log)
  {
    var w := AwaitComplete(StatusAfterWrite(s.fstat, StatCcif), s.answers);
    ExecLaunchesThenWaits(s);
    StagedCommandsNone([StatusWrite(StatCcif)]);
    StagedCommandsNone(Observed(w.seen));
    StagedCommandsAppend(s.log, [StatusWrite(StatCcif)]);
    StagedCommandsAppend(s.log + [StatusWrite(StatCcif)], Observed(w.seen));
  }

  /** `flashInitCommand` followed by `flashExec` issues exactly the staged command. */
  lemma LaunchStagesCommand(s: Registers, command: bv8, address: bv32)
    requires Wellformed(s) && Completions(s.answers) >= Busy(s.fstat) + 1
    ensures StagedCommands(AfterExec(AfterInitCommand(s, command, address)).log)
      == StagedCommands(s.log) + [command]
  {
    InitCommandStagesCommand(s, command, address);
    ExecStagesNothing(AfterInitCommand(s, command, address));
  }

  /** `flashCheckSectorErased` issues the section verify and no other command. */
  lemma CheckSectorErasedStagesVerify(s: Registers, address: bv32)
    requires CheckReady(s)
    ensures StagedCommands(AfterCheck(s, address).log) == StagedCommands(s.log) + [CmdReadOnesSection]
  {
    var i := AfterInitCommand(s, CmdReadOnesSection, address);
    var v := AfterVerifyParameters(i);
    InitCommandStagesCommand(s, CmdReadOnesSection, address);
    assert v.log == i.log + VerifyParameters();
    StagedCommandsNone(VerifyParameters());
    StagedCommandsAppend(i.log, VerifyParameters());
    ExecStagesNothing(v);
  }

  /** After a check that reports an error bit, `flashEraseSector` stages and launches the erase. */
  lemma EraseFollowsFailedCheck(s: Registers, address: bv32)
    requires EraseReady(s, address) && CheckResult(s, address) != 0
    ensures AfterErase(s, address) == AfterExec(AfterInitCommand(AfterCheck(s, address), CmdEraseFlashSector, address))
  {
  }

  /** When the erased check reports 0, `flashEraseSector` issues the section verify only. */
  lemma EraseSectorStagesVerifyOnly(s: Registers, address: bv32)
    requires EraseReady(s, address) && CheckResult(s, address) == 0
    ensures StagedCommands(AfterErase(s, address).log) == StagedCommands(s.log) + [CmdReadOnesSection]
  {
    CheckSectorErasedStagesVerify(s, address);
  }

  /**
   * When the erased check reports an error bit, `flashEraseSector` issues
   * the section verify and then the sector erase.
   */
  lemma EraseSectorStagesVerifyThenErase(s: Registers, address: bv32)
    requires EraseReady(s, address) && CheckResult(s, address) != 0
    ensures StagedCommands(AfterErase(s, address).log)
      == StagedCommands(s.log) + [CmdReadOnesSection] + [CmdEraseFlashSector]
  {
    var c := AfterCheck(s, address);
    EraseFollowsFailedCheck(s, address);
    CheckSectorErasedStagesVerify(s, address);
    LaunchStagesCommand(c, CmdEraseFlashSector, address);
  }

  /**
   * `flashProgramWord` issues the long-word program, except on the
   * configuration field, where it issues nothing.
   */
  lemma ProgramWordStagesCommands(s: Registers, address: bv32, data: bv32)
    requires ProgramReady(s, address)
    ensures StagedCommands(AfterProgram(s, address, data).log) == StagedCommands(s.log)
      + (if InProtectedRange(address) then [] else [CmdProgramLongWord])
  {
    if !InProtectedRange(address) {
      var i := AfterInitCommand(s, CmdProgramLongWord, address);
      var v := AfterStoreWord(i, data);
      InitCommandStagesCommand(s, CmdProgramLongWord, address);
      assert v.log == i.log + DataWrites(data);
      StagedCommandsNone(DataWrites(data));
      StagedCommandsAppend(i.log, DataWrites(data));
      ExecStagesNothing(v);
    }
  }

  // ---------------------------------------------------------------------
  // The register block and the engine
  // ---------------------------------------------------------------------

  class Ftfl {
    /** FTFL_FSTAT. */
    var fstat: bv8
    /** FTFL_FCCOB0 .. FTFL_FCCOB7. */
    const fccob: array<bv8>
    /** The status values the controller will present to the coming polls. */
    var answers: seq<bv8>
    /** Every register access made so far, oldest first. */
    ghost var log: seq<Access>

    predicate Valid() {
      fccob.Length == 8
    }

    ghost function State(): Registers
      reads this, fccob
    {
      Registers(fstat, fccob[..], answers, log)
    }

    constructor (status: bv8, controller: seq<bv8>)
      ensures Valid() && fresh(fccob)
      ensures State() == Registers(status, [0, 0, 0, 0, 0, 0, 0, 0], controller, [])
    {
      fstat := status;
      fccob := new bv8[8](_ => 0);
      answers := controller;
      log := [];
    }

    /** A write to FSTAT. */
    method StoreStatus(value: bv8)
      modifies this`fstat, this`log
      ensures State() == WriteStatus(old(State()), value)
    {
      fstat := StatusAfterWrite(fstat, value);
      log := log + [StatusWrite(value)];
    }

    /** A write to FCCOB<index>. */
    method StoreCommand(index: nat, value: bv8)
      requires Valid() && index < 8
      modifies this`log, fccob
      ensures State() == WriteCommand(old(State()), index, value)
    {
      fccob[index] := value;
      log := log + [CommandWrite(index, value)];
    }

    /** The busy-wait on CCIF (flashKinetis.cpp lines 49 and 56). */
    method WaitWhileBusy()
      requires Valid() && (Done(fstat) || Completions(answers) > 0)
      modifies this`fstat, this`answers, this`log
      ensures State() == AfterWait(old(State()))
    {
      ghost var s := answers;
      ghost var i := 0;
      while !Done(fstat)
        invariant 0 <= i <= |s|
        invariant answers == s[i..]
        invariant log == old(log) + Observed(s[..i])
        invariant i == 0 ==> fstat == old(fstat)
        invariant i > 0 ==> fstat == s[i - 1]
        invariant Done(old(fstat)) ==> i == 0
        invariant forall j :: 0 <= j < i - 1 ==> !Done(s[j])
        invariant !Done(fstat) ==> Completions(s) > 0 && i <= FirstDone(s)
        decreases |answers|
      {
        fstat := answers[0];
        answers := answers[1..];
        ObservedSnoc(s[..i], s[i]);
        assert s[..i + 1] == s[..i] + [s[i]];
        log := log + [Answer(fstat)];
        i := i + 1;
      }
      assert i > 0 ==> i - 1 == FirstDone(s);
    }

    /**
     * `flashExec`: launch the staged command by writing CCIF, wait until the
     * controller sets CCIF again, and report the error bits of that status.
     */
    method Exec() returns (r: bv8)
      requires Valid() && Completions(answers) > 0
      modifies this`fstat, this`answers, this`log
      ensures State() == AfterExec(old(State()))
      ensures r == ErrorBits(fstat)
    {
      StoreStatus(StatCcif);
      WaitWhileBusy();
      r := ErrorBits(fstat);
    }

    /**
     * `flashInitCommand`: wait until the controller is idle, clear the error
     * flags, and stage the command code and the address, high byte first.
     */
    method InitCommand(command: bv8, address: bv32)
      requires Valid() && (Done(fstat) || Completions(answers) > 0)
      modifies this`fstat, this`answers, this`log, fccob
      ensures State() == AfterInitCommand(old(State()), command, address)
    {
      WaitWhileBusy();
      StoreStatus(ClearErrorFlags);
      StoreCommand(0, command);
      StoreCommand(1, LowByte(address >> 16));
      StoreCommand(2, LowByte(address >> 8));
      StoreCommand(3, LowByte(address));
    }

    /** FCCOB4..FCCOB6 of a section verify: the sector's longword count, high byte first, and the margin. */
    method StoreVerifyParameters()
      requires Valid()
      modifies this`log, fccob
      ensures State() == AfterVerifyParameters(old(State()))
    {
      var num := FlashSectorSize >> 2;
      StoreCommand(4, LowByte(num >> 8));
      StoreCommand(5, LowByte(num));
      StoreCommand(6, ReadMarginNormal);
    }

    /** FCCOB4..FCCOB7 of a long-word program: the data, most significant byte first. */
    method StoreWord(data: bv32)
      requires Valid()
      modifies this`log, fccob
      ensures State() == AfterStoreWord(old(State()), data)
    {
      StoreCommand(4, LowByte(data >> 24));
      StoreCommand(5, LowByte(data >> 16));
      StoreCommand(6, LowByte(data >> 8));
      StoreCommand(7, LowByte(data));
    }

    /**
     * `flashCheckSectorErased`: verify, at normal margin, that the
     * FLASH_SECTOR_SIZE / 4 long words from `address` read as all ones.
     */
    method CheckSectorErased(address: bv32) returns (r: bv8)
      requires Valid() && CheckReady(State())
      modifies this`fstat, this`answers, this`log, fccob
      ensures State() == AfterCheck(old(State()), address)
      ensures r == CheckResult(old(State()), address)
    {
      // FLASH_ALIGN(address, FLASH_SECTOR_SIZE) is evaluated and its value discarded.
      InitCommand(CmdReadOnesSection, address);
      StoreVerifyParameters();
      r := Exec();
    }

    /**
     * `flashEraseSector`: run the erased check; only when it reports an
     * error bit, stage and launch an erase of the same address.
     */
    method EraseSector(address: bv32) returns (r: bv8)
      requires Valid() && EraseReady(State(), address)
      modifies this`fstat, this`answers, this`log, fccob
      ensures State() == AfterErase(old(State()), address)
      ensures r == EraseResult(old(State()), address)
    {
      // FLASH_ALIGN(address, FLASH_SECTOR_SIZE) is evaluated and its value discarded.
      var notErased := CheckSectorErased(address);
      if notErased != 0 {
        InitCommand(CmdEraseFlashSector, address);
        r := Exec();
        return;
      }
      r := 0;
    }

    /**
     * `flashProgramWord`: refuse the configuration field 0x400..0x40C,
     * returning 0 without touching a register; otherwise stage the address
     * and the data, most significant byte first, and launch.
     */
    method ProgramWord(address: bv32, data: bv32) returns (r: bv8)
      requires Valid() && ProgramReady(State(), address)
      modifies this`fstat, this`answers, this`log, fccob
      ensures State() == AfterProgram(old(State()), address, data)
      ensures r == ProgramResult(old(State()), address, data)
    {
      // FLASH_ALIGN(address, 0x03) is evaluated and its value discarded.
      if InProtectedRange(address) {
        return 0;
      }
      InitCommand(CmdProgramLongWord, address);
      StoreWord(data);
      r := Exec();
    }
  }
}
