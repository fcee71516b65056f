/** The bootloader's side of the upgrade: check the flag and the backup, erase the application, copy,
    clear the flag. */
module FwBoot {
  import opened Crc32
  import opened Flash
  import opened FwUpgrade

  datatype BootResult = BootSuccess | SizeError | CrcMismatch | WriteError

  predicate Flagged(words: seq<bv32>)
    requires |words| == WORDS
  {
    words[0] == MAGIC
  }

  function FlagSize(words: seq<bv32>): nat
    requires |words| == WORDS
  {
    words[1] as nat
  }

  /** What FW_BOOT_CopyFirmware checks before it erases anything. */
  predicate Intact(words: seq<bv32>)
    requires |words| == WORDS
  {
    0 < FlagSize(words) <= PARTITION && Crc(BackupBytes(words, FlagSize(words))) == words[2]
  }

  /** The flag is set and matches the backup. */
  predicate Accepted(words: seq<bv32>)
    requires |words| == WORDS
  {
    Flagged(words) && Intact(words)
  }

  function WordsFor(size: nat): nat { (size + 3) / 4 }

  function EraseOps(): (ops: seq<Op>)
    ensures AllInRange(ops) && |ops| == 3
  {
    [Erase(0x0802_0000), Erase(0x0804_0000), Erase(0x0806_0000)]
  }

  /** Copying the first n backup words. */
  function CopyOps(words: seq<bv32>, n: nat): (ops: seq<Op>)
    requires |words| == WORDS && n <= PARTITION_WORDS
    ensures AllInRange(ops) && |ops| == n
  {
    if n == 0 then [] else CopyOps(words, n - 1) + [Program(APP_START + 4 * (n - 1), words[BACKUP + n - 1])]
  }

  function InstallOps(words: seq<bv32>, n: nat): (ops: seq<Op>)
    requires |words| == WORDS && n <= PARTITION_WORDS
    ensures AllInRange(ops) && |ops| == n + 4
  {
    EraseOps() + CopyOps(words, n) + [Erase(FLAG_ADDR)]
  }

  /** The words after the three erases and n copies. */
  function Installing(words: seq<bv32>, n: nat, i: nat): bv32
    requires |words| == WORDS && i < WORDS && n <= PARTITION_WORDS
  {
    if APP <= i < APP + n then words[BACKUP + i - APP]
    else if APP + n <= i < BACKUP then ERASED
    else words[i]
  }

  predicate Installs(after: seq<bv32>, words: seq<bv32>, n: nat) {
    |after| == |words| == WORDS && n <= PARTITION_WORDS &&
    forall i :: 0 <= i < WORDS ==> after[i] == Installing(words, n, i)
  }

  lemma EraseStepAt(before: seq<bv32>, addr: nat)
    requires |before| == WORDS && addr in {0x0802_0000, 0x0804_0000, 0x0806_0000}
    ensures var from := APP + (addr - APP_START) / 4;
            forall i :: 0 <= i < WORDS ==>
              Exec(before, Erase(addr))[i] == if from <= i < from + SECTOR_WORDS then ERASED else before[i]
  {
  }

  lemma ErasesInstall(words: seq<bv32>)
    requires |words| == WORDS
    ensures Installs(Run(words, EraseOps()), words, 0)
  {
    hide Exec, Run;
    var ops := EraseOps();
    RunNothing(words);
    assert ops[..0] == [] && ops[..3] == ops;
    RunNext(words, ops, 0);
    RunNext(words, ops, 1);
    RunNext(words, ops, 2);
    EraseStepAt(words, 0x0802_0000);
    EraseStepAt(Run(words, ops[..1]), 0x0804_0000);
    EraseStepAt(Run(words, ops[..2]), 0x0806_0000);
  }

  /** Copying word n: it is erased, and then it is the backup's. */
  lemma CopyStep(before: seq<bv32>, words: seq<bv32>, n: nat)
    requires Installs(before, words, n) && n < PARTITION_WORDS
    ensures Index(APP_START + 4 * n) == APP + n && before[APP + n] == ERASED && before[BACKUP + n] == words[BACKUP + n]
    ensures Installs(Exec(before, Program(APP_START + 4 * n, words[BACKUP + n])), words, n + 1)
  {
    hide Programmed;
    ProgramsErased(words[BACKUP + n]);
  }

  lemma {:induction false} CopiesInstall(words: seq<bv32>, n: nat)
    requires |words| == WORDS && n <= PARTITION_WORDS
    ensures Installs(Run(words, EraseOps() + CopyOps(words, n)), words, n)
  {
    hide Exec, Run, EraseOps, Installs;
    if n == 0 {
      ErasesInstall(words);
      assert EraseOps() + CopyOps(words, 0) == EraseOps();
    } else {
      var front := EraseOps() + CopyOps(words, n - 1);
      var op := Program(APP_START + 4 * (n - 1), words[BACKUP + n - 1]);
      CopiesInstall(words, n - 1);
      CopyStep(Run(words, front), words, n - 1);
      assert EraseOps() + CopyOps(words, n) == front + [op];
      RunConcat(words, front, [op]);
      RunOne(Run(words, front), op);
    }
  }

  // ---------- The bootloader's methods ----------

  method IsUpdateRequired(chip: Chip) returns (required: bool)
    requires chip.Valid()
    ensures required == Flagged(chip.words)
  {
    var magic := chip.ReadWord(FLAG_ADDR);
    required := magic == MAGIC;
  }

  /** FW_BOOT_CopyFirmware. */
  method CopyFirmware(chip: Chip) returns (result: BootResult)
    requires chip.Valid()
    modifies chip
    ensures chip.Valid() && (result == BootSuccess <==> Intact(old(chip.words)))
    ensures result == SizeError <==> !(0 < FlagSize(old(chip.words)) <= PARTITION)
    ensures result != BootSuccess ==> chip.words == old(chip.words) && chip.log == old(chip.log)
    ensures result == BootSuccess ==>
              var ops := InstallOps(old(chip.words), WordsFor(FlagSize(old(chip.words))));
              chip.words == Run(old(chip.words), ops) && chip.log == old(chip.log) + ops
  {
    hide Run, Exec, BackupBytes, Crc, CopyOps;
    var size := FlagSize(chip.words);
    var recorded := chip.ReadWord(FLAG_ADDR + 8);
    if size == 0 || size > PARTITION { return SizeError; }
    var check := CalculateCrc(BackupBytes(chip.words, size));
    if check != recorded { return CrcMismatch; }
    EraseApp(chip);
    var written := CopyWords(chip, size, old(chip.words));
    result := WriteError;
    if written { result := Clear(chip, old(chip.words), size); }
  }

  /** FW_BOOT_ClearUpgradeFlag. */
  method Clear(chip: Chip, ghost words0: seq<bv32>, ghost size: nat) returns (result: BootResult)
    requires chip.Valid() && 0 < size <= PARTITION && |words0| == WORDS
    requires chip.words == Run(words0, EraseOps() + CopyOps(words0, WordsFor(size)))
    modifies chip
    ensures chip.Valid() && result == BootSuccess
    ensures chip.words == Run(words0, InstallOps(words0, WordsFor(size))) &&
            chip.log == old(chip.log) + [Erase(FLAG_ADDR)]
  {
    hide Run, Exec, CopyOps;
    RunConcat(words0, EraseOps() + CopyOps(words0, WordsFor(size)), [Erase(FLAG_ADDR)]);
    RunOne(chip.words, Erase(FLAG_ADDR));
    chip.EraseSector(FLAG_ADDR);
    return BootSuccess;
  }

  /** Sectors 5 to 7, one after the other. */
  method EraseApp(chip: Chip)
    requires chip.Valid()
    modifies chip
    ensures chip.Valid() && chip.words == Run(old(chip.words), EraseOps()) && chip.log == old(chip.log) + EraseOps()
  {
    hide Run, Exec;
    ghost var words0, log0, ops := chip.words, chip.log, EraseOps();
    RunNothing(words0);
    assert ops[..0] == [] && ops[..3] == ops;
    for sector := 5 to 8
      invariant chip.Valid() && chip.words == Run(words0, ops[..sector - 5]) && chip.log == log0 + ops[..sector - 5]
    {
      RunNext(words0, ops, sector - 5);
      assert ops[..sector - 4] == ops[..sector - 5] + [ops[sector - 5]];
      chip.EraseSector(APP_START + (sector - 5) * SECTOR);
    }
  }

  /** The copy loop, which ends at the first word that cannot be written; there is none. */
  method CopyWords(chip: Chip, size: nat, ghost words0: seq<bv32>) returns (written: bool)
    requires chip.Valid() && 0 < size <= PARTITION && |words0| == WORDS && chip.words == Run(words0, EraseOps())
    modifies chip
    ensures written && chip.Valid() && chip.words == Run(words0, EraseOps() + CopyOps(words0, WordsFor(size)))
    ensures chip.log == old(chip.log) + CopyOps(words0, WordsFor(size))
  {
    hide Run, Exec, EraseOps, Installs;
    ghost var log0 := chip.log;
    assert EraseOps() + CopyOps(words0, 0) == EraseOps();
    var i := 0;
    written := true;
    while i < size && written
      invariant written && i % 4 == 0 && WordsFor(i) == i / 4 && i / 4 <= WordsFor(size) && chip.Valid()
      invariant chip.words == Run(words0, EraseOps() + CopyOps(words0, i / 4))
      invariant chip.log == log0 + CopyOps(words0, i / 4)
    {
      ghost var n := i / 4;
      ghost var op := Program(APP_START + 4 * n, words0[BACKUP + n]);
      CopiesInstall(words0, n);
      CopyStep(chip.words, words0, n);
      RunConcat(words0, EraseOps() + CopyOps(words0, n), [op]);
      RunOne(chip.words, op);
      assert EraseOps() + CopyOps(words0, n + 1) == EraseOps() + CopyOps(words0, n) + [op];
      var word := chip.ReadWord(BACKUP_START + i);
      written := chip.WriteWord(APP_START + i, word);
      i := i + 4;
    }
  }

  /** The test of FW_BOOT_JumpToApp: the first word of an application is its stack pointer. */
  predicate Startable(first: bv32) { first & 0x2FFE_0000 == 0x2000_0000 }

  /** FW_BOOT_JumpToApp, up to the jump. */
  method JumpToApp(chip: Chip) returns (jumped: bool)
    requires chip.Valid()
    ensures jumped == Startable(chip.words[APP])
  {
    var first := chip.ReadWord(APP_START);
    jumped := first & 0x2FFE_0000 == 0x2000_0000;
  }

  /** The boot driver: copy when flagged, and after a successful copy or without a flag start the
      application, if there is one. */
  method Boot(chip: Chip) returns (jumped: bool)
    requires chip.Valid()
    modifies chip
    ensures chip.Valid() && chip.words == Run(old(chip.words), BootOps(old(chip.words)))
    ensures chip.log == old(chip.log) + BootOps(old(chip.words))
    ensures jumped == ((!Flagged(old(chip.words)) || Accepted(old(chip.words))) && Startable(chip.words[APP]))
  {
    hide Run, InstallOps, Flagged, Intact, Startable;
    RunNothing(chip.words);
    assert chip.log + [] == chip.log;
    var required := IsUpdateRequired(chip);
    var ready := true;
    if required {
      var result := CopyFirmware(chip);
      ready := result == BootSuccess;
    }
    jumped := false;
    if ready { jumped := JumpToApp(chip); }
  }

  /** Everything the bootloader does with the flash. */
  function BootOps(words: seq<bv32>): (ops: seq<Op>)
    requires |words| == WORDS
    ensures AllInRange(ops)
  {
    if Accepted(words) then InstallOps(words, WordsFor(FlagSize(words))) else []
  }
}
