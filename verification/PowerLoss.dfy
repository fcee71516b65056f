/** The upgrade as a protocol: power may fail between any two flash operations of the download, the
    flag, the copy and the flag's removal.  The state is the flash, the image installed last, and
    whether the application is running. */
module PowerLoss {
  import opened Crc32
  import opened Flash
  import opened FwDownload
  import opened FwUpgrade
  import opened FwSession
  import opened FwBoot

  datatype Device = Device(words: seq<bv32>, installed: seq<bv32>, running: bool)

  /** Work: the application programs and erases backup sectors.  Flag: it starts the flag write, which
      ends after k operations, by power loss or with the reset after the last one.  PowerLoss: at any
      other time.  Boot: the bootloader runs, and power fails after k operations unless it gets through. */
  datatype Event = Work(ops: seq<Op>) | Flag(size: bv32, crc: bv32, k: nat) | PowerLoss | Boot(k: nat)

  predicate BackupOnly(ops: seq<Op>) {
    forall i :: 0 <= i < |ops| ==> BACKUP_START <= ops[i].addr < BACKUP_END
  }

  function AppOf(words: seq<bv32>): seq<bv32>
    requires |words| == WORDS
  {
    words[APP..BACKUP]
  }

  /** What an accepted flag promises to install: the backup's words, then erased ones. */
  function Promised(words: seq<bv32>): seq<bv32>
    requires |words| == WORDS
  {
    seq(PARTITION_WORDS, j requires 0 <= j < PARTITION_WORDS =>
      if j < WordsFor(FlagSize(words)) then words[BACKUP + j] else ERASED)
  }

  predicate Enabled(d: Device, e: Event) {
    |d.words| == WORDS &&
    match e
    case Work(ops) => d.running && BackupOnly(ops)
    case Flag(_, _, k) => d.running && k <= 4
    case PowerLoss => true
    case Boot(_) => !d.running
  }

  function Next(d: Device, e: Event): (r: Device)
    requires Enabled(d, e)
    ensures |r.words| == WORDS
  {
    match e
    case Work(ops) => d.(words := Run(d.words, ops))
    case Flag(size, crc, k) => d.(words := Run(d.words, FlagOps(size, crc)[..k]), running := false)
    case PowerLoss => d.(running := false)
    case Boot(k) =>
      var ops := BootOps(d.words);
      if k < |ops| then d.(words := Run(d.words, ops[..k]))
      else if Accepted(d.words) then Device(Run(d.words, ops), Promised(d.words), Startable(Run(d.words, ops)[APP]))
      else d.(running := !Flagged(d.words) && Startable(d.words[APP]))
  }

  /** In every state either the application is the image installed last, or the flag still matches the
      backup, so that the next boot copies again.  A running application is intact and unflagged. */
  predicate Safe(d: Device) {
    |d.words| == WORDS && (AppOf(d.words) == d.installed || Accepted(d.words)) &&
    (d.running ==> AppOf(d.words) == d.installed && !Flagged(d.words))
  }

  // ---------- What each kind of operation leaves alone ----------

  lemma {:induction false} WorkKeeps(words: seq<bv32>, ops: seq<Op>)
    requires |words| == WORDS && BackupOnly(ops)
    ensures AllInRange(ops) && forall i :: 0 <= i < BACKUP ==> Run(words, ops)[i] == words[i]
  {
    hide Programmed;
    if ops != [] { WorkKeeps(words, ops[..|ops| - 1]); }
  }

  /** The boot operations before the last leave the flag and the backup alone. */
  predicate InApp(ops: seq<Op>) {
    forall i :: 0 <= i < |ops| ==> APP_START <= ops[i].addr < BACKUP_START
  }

  lemma {:induction false} AppOpsKeep(words: seq<bv32>, ops: seq<Op>)
    requires |words| == WORDS && InApp(ops)
    ensures AllInRange(ops)
    ensures forall i :: 0 <= i < WORDS && !(APP <= i < BACKUP) ==> Run(words, ops)[i] == words[i]
  {
    hide Programmed;
    if ops != [] { AppOpsKeep(words, ops[..|ops| - 1]); }
  }

  lemma {:induction false} CopyOpsInApp(words: seq<bv32>, n: nat)
    requires |words| == WORDS && n <= PARTITION_WORDS
    ensures InApp(CopyOps(words, n))
  {
    if n > 0 { CopyOpsInApp(words, n - 1); }
  }

  lemma InstallPrefixInApp(words: seq<bv32>, n: nat, k: nat)
    requires |words| == WORDS && n <= PARTITION_WORDS && k < n + 4
    ensures InApp(InstallOps(words, n)[..k])
  {
    hide CopyOps;
    CopyOpsInApp(words, n);
    assert InApp(EraseOps() + CopyOps(words, n));
    assert InstallOps(words, n)[..k] == (EraseOps() + CopyOps(words, n))[..k];
  }

  lemma SameSize(a: seq<bv32>, b: seq<bv32>)
    requires |a| == |b| == WORDS && a[1] == b[1]
    ensures FlagSize(a) == FlagSize(b)
  {
  }

  lemma SamePromise(a: seq<bv32>, b: seq<bv32>)
    requires |a| == |b| == WORDS && FlagSize(a) == FlagSize(b) && forall i :: BACKUP <= i < WORDS ==> a[i] == b[i]
    ensures Promised(a) == Promised(b)
  {
    hide FlagSize, WordsFor;
    forall j | 0 <= j < PARTITION_WORDS ensures Promised(a)[j] == Promised(b)[j] {
      assert a[BACKUP + j] == b[BACKUP + j];
    }
  }

  /** Flag and backup decide what is accepted and promised. */
  lemma SameFlagAndBackup(a: seq<bv32>, b: seq<bv32>)
    requires |a| == |b| == WORDS && forall i :: 0 <= i < WORDS && !(APP <= i < BACKUP) ==> a[i] == b[i]
    ensures Flagged(a) == Flagged(b) && Accepted(a) == Accepted(b) && Promised(a) == Promised(b)
  {
    hide Crc, BackupBytes, FlagSize, Promised;
    assert a[0] == b[0] && a[1] == b[1] && a[2] == b[2];
    SameSize(a, b);
    SamePromise(a, b);
    if FlagSize(a) <= PARTITION { SameBackup(a, b, FlagSize(a)); }
  }

  /** A boot that is cut short leaves the flag accepted and the promise unchanged. */
  lemma CutBootKeepsPromise(words: seq<bv32>, k: nat)
    requires |words| == WORDS && k < |BootOps(words)|
    ensures Accepted(words) && AllInRange(BootOps(words)[..k])
    ensures var after := Run(words, BootOps(words)[..k]); Accepted(after) && Promised(after) == Promised(words)
  {
    hide Run, InstallOps, Promised, Crc, BackupBytes;
    var n := WordsFor(FlagSize(words));
    InstallPrefixInApp(words, n, k);
    AppOpsKeep(words, BootOps(words)[..k]);
    SameFlagAndBackup(words, Run(words, BootOps(words)[..k]));
  }

  /** A boot that gets through installs what was promised and clears the flag. */
  lemma FullBootInstalls(words: seq<bv32>)
    requires |words| == WORDS && Accepted(words)
    ensures var after := Run(words, BootOps(words)); AppOf(after) == Promised(words) && !Flagged(after)
  {
    hide Run, Exec, CopyOps, EraseOps, BackupBytes, Crc;
    var n := WordsFor(FlagSize(words));
    var copied := Run(words, EraseOps() + CopyOps(words, n));
    CopiesInstall(words, n);
    RunConcat(words, EraseOps() + CopyOps(words, n), [Erase(FLAG_ADDR)]);
    RunOne(copied, Erase(FLAG_ADDR));
    FlagCleared(copied);
    forall j | 0 <= j < PARTITION_WORDS ensures AppOf(Run(words, BootOps(words)))[j] == Promised(words)[j] {
      assert copied[APP + j] == Installing(words, n, APP + j);
    }
  }

  lemma FlagCleared(words: seq<bv32>)
    requires |words| == WORDS
    ensures var after := Exec(words, Erase(FLAG_ADDR));
            after[0] == ERASED && forall i :: APP <= i < WORDS ==> after[i] == words[i]
  {
  }

  // ---------- Safety over every run ----------

  lemma FlagWriteKeepsApp(words: seq<bv32>, size: bv32, crc: bv32, k: nat)
    requires |words| == WORDS && k <= 4
    ensures AllInRange(FlagOps(size, crc)[..k]) && AppOf(Run(words, FlagOps(size, crc)[..k])) == AppOf(words)
  {
    hide Run, FlagOps;
    FlagLeaves(words, size, crc, k);
  }

  lemma SafeNext(d: Device, e: Event)
    requires Safe(d) && Enabled(d, e)
    ensures Safe(Next(d, e))
  {
    hide Run, BootOps, FlagOps, Promised, Intact, Startable;
    match e
    case Work(ops) => WorkKeeps(d.words, ops);
    case Flag(size, crc, k) => FlagWriteKeepsApp(d.words, size, crc, k);
    case PowerLoss =>
    case Boot(k) =>
      if k < |BootOps(d.words)| {
        CutBootKeepsPromise(d.words, k);
      } else if Accepted(d.words) {
        FullBootInstalls(d.words);
      }
  }

  predicate Possible(d: Device, events: seq<Event>)
    decreases |events|
  {
    events == [] || (Enabled(d, events[0]) && Possible(Next(d, events[0]), events[1..]))
  }

  function After(d: Device, events: seq<Event>): Device
    requires Possible(d, events)
    decreases |events|
  {
    if events == [] then d else After(Next(d, events[0]), events[1..])
  }

  /** Every reachable state is safe. */
  lemma {:induction false} AlwaysSafe(d: Device, events: seq<Event>)
    requires Safe(d) && Possible(d, events)
    ensures Safe(After(d, events))
    decreases |events|
  {
    hide Safe, Next;
    if events != [] {
      SafeNext(d, events[0]);
      AlwaysSafe(Next(d, events[0]), events[1..]);
    }
  }

  // ---------- The promise is kept ----------

  /** Boots cut anywhere, again and again. */
  predicate OnlyCutBoots(d: Device, events: seq<Event>)
    decreases |events|
  {
    events == [] ||
    (events[0].Boot? && Enabled(d, events[0]) && events[0].k < |BootOps(d.words)| &&
        OnlyCutBoots(Next(d, events[0]), events[1..]))
  }

  /** However often the copy is interrupted, the first boot that gets through installs the image that
      was promised, and starts it exactly if its first word passes for a stack pointer. */
  lemma {:induction false} InstallsInTheEnd(d: Device, events: seq<Event>, k: nat)
    requires |d.words| == WORDS && !d.running && Accepted(d.words) && OnlyCutBoots(d, events)
    ensures Possible(d, events)
    ensures var before := After(d, events);
            Enabled(before, Boot(k)) &&
            (k >= |BootOps(before.words)| ==>
              var done := Next(before, Boot(k));
              (done.running <==> Startable(Promised(d.words)[0])) &&
              done.installed == Promised(d.words) && AppOf(done.words) == Promised(d.words))
    decreases |events|
  {
    hide Run, BootOps, Accepted, Promised, AppOf, Startable;
    if events == [] {
      FullBootInstalls(d.words);
      FirstOfApp(Run(d.words, BootOps(d.words)));
    } else {
      CutBootKeepsPromise(d.words, events[0].k);
      InstallsInTheEnd(Next(d, events[0]), events[1..], k);
    }
  }

  lemma FirstOfApp(words: seq<bv32>)
    requires |words| == WORDS
    ensures |AppOf(words)| == PARTITION_WORDS && AppOf(words)[0] == words[APP]
  {
  }

  /** Without a flag, an application whose first word does not pass is never started again: the
      bootloader checks the image's CRC, but not that word, before it replaces the old application. */
  lemma DeadStays(d: Device, e: Event)
    requires |d.words| == WORDS && !d.running && !Flagged(d.words) && !Startable(AppOf(d.words)[0]) && Enabled(d, e)
    ensures Next(d, e) == d
  {
    hide Startable, Intact;
    FirstOfApp(d.words);
  }

  // ---------- A half-written flag ----------

  /** Flagged but not accepted: the bootloader neither copies nor starts the application. */
  predicate Stranded(d: Device) {
    |d.words| == WORDS && !d.running && Flagged(d.words) && !Accepted(d.words)
  }

  /** A half-written flag never starts an erase. */
  lemma StrandedStays(d: Device, e: Event)
    requires Stranded(d) && Enabled(d, e)
    ensures Next(d, e) == d
  {
    hide Intact;
  }

  /** Where the flag write has to be cut for the device to be stranded: right after the magic, or
      after the size unless the CRC happens to be the erased word.  The size is a valid one, and the
      CRC is the backup's. */
  lemma StrandedIff(d: Device, size: bv32, k: nat)
    requires |d.words| == WORDS && d.running && !Flagged(d.words) && k <= 4 && 0 < size as nat <= PARTITION
    ensures var crc := Crc(BackupBytes(d.words, size as nat));
            Stranded(Next(d, Flag(size, crc, k))) <==> k == 2 || (k == 3 && crc != ERASED)
  {
    hide Run, FlagOps, Crc, BackupBytes;
    var crc := Crc(BackupBytes(d.words, size as nat));
    FlagLeaves(d.words, size, crc, k);
    var after := Run(d.words, FlagOps(size, crc)[..k]);
    assert after[0] == FlagWord(d.words, size, crc, k, 0);
    assert after[1] == FlagWord(d.words, size, crc, k, 1);
    assert after[2] == FlagWord(d.words, size, crc, k, 2);
    SameBackup(d.words, after, size as nat);
    ErasedSize();
  }

  lemma ErasedSize()
    ensures ERASED as nat > PARTITION && MAGIC != ERASED
  {
  }

  lemma SameBackup(a: seq<bv32>, b: seq<bv32>, n: nat)
    requires |a| == |b| == WORDS && n <= PARTITION && forall i :: BACKUP <= i < WORDS ==> a[i] == b[i]
    ensures BackupBytes(a, n) == BackupBytes(b, n)
  {
    hide ByteOf;
  }

  // ---------- The application's own operations ----------

  /** The image's words, the rest of the partition erased. */
  function ImageWords(image: seq<bv8>): seq<bv32>
    requires |image| <= PARTITION
  {
    seq(PARTITION_WORDS, j requires 0 <= j < PARTITION_WORDS => DataWord(image, j))
  }

  lemma {:induction false} DownloadIsBackupOnly(data: seq<bv8>, n: nat)
    requires n <= PARTITION_WORDS
    ensures BackupOnly(DownloadOps(data, n))
  {
    hide DataWord;
    if n > 0 { DownloadIsBackupOnly(data, n - 1); }
  }

  /** A refused packet touches the backup sectors only. */
  lemma RefusedIsWork(data: seq<bv8>, received: nat)
    requires received < PARTITION
    ensures BackupOnly(StrayOps(received, data))
  {
    hide DataWord;
  }

  /** What FwUpgrade does with the flash is Work, and then at most the flag write: packets and tails
      touch the backup sectors only. */
  lemma UpgradeIsWork(data: seq<bv8>)
    requires |data| <= PARTITION
    ensures BackupOnly(DownloadOps(data, |data| / 4) + TailOps(data))
  {
    hide DataWord, DownloadOps;
    DownloadIsBackupOnly(data, |data| / 4);
    assert BackupOnly(TailOps(data));
  }

  lemma ErasedDataWord()
    ensures WordOf(0xFF, 0xFF, 0xFF, 0xFF) == ERASED
  {
  }

  /** What a complete session leaves: the flag's three words and the image. */
  lemma SessionLeaves(base: seq<bv32>, image: seq<bv8>, size: bv32)
    requires |base| == WORDS && |image| <= PARTITION && TailWorks(base, image)
    ensures var words := Run(base, SessionOps(image, size));
            words[0] == MAGIC && words[1] == size && words[2] == Crc(image) &&
            (forall j: nat :: 4 * j < |image| ==> words[BACKUP + j] == DataWord(image, j))
  {
    hide Run, DownloadOps, TailOps, FlagOps, Crc, DataWord, TailWorks, BackupBytes;
    var ops := DownloadOps(image, |image| / 4);
    TailDecidedBefore(base, image);
    TailLeaves(base, image);
    RunConcat(base, ops, TailOps(image) + FlagOps(size, Crc(image)));
    RunConcat(Run(base, ops), TailOps(image), FlagOps(size, Crc(image)));
    FlagLeaves(Run(Run(base, ops), TailOps(image)), size, Crc(image), 4);
    assert FlagOps(size, Crc(image))[..4] == FlagOps(size, Crc(image));
  }

  /** After a complete session the flag is accepted, and what it promises is the image. */
  lemma DownloadIsAccepted(base: seq<bv32>, image: seq<bv8>, size: bv32)
    requires |base| == WORDS && 0 < |image| == size as nat <= PARTITION && TailWorks(base, image)
    ensures var words := Run(base, SessionOps(image, size)); Accepted(words) && Promised(words) == ImageWords(image)
  {
    hide Run, SessionOps, Crc, DataWord, TailWorks, BackupBytes, Promised, ImageWords;
    SessionLeaves(base, image, size);
    var words := Run(base, SessionOps(image, size));
    WordsHoldBytes(words, image);
    PromisedImage(words, image);
  }

  lemma PromisedImage(words: seq<bv32>, image: seq<bv8>)
    requires |words| == WORDS && |image| <= PARTITION && FlagSize(words) == |image|
    requires forall j: nat :: 4 * j < |image| ==> words[BACKUP + j] == DataWord(image, j)
    ensures Promised(words) == ImageWords(image)
  {
    hide WordOf;
    ErasedDataWord();
    forall j | 0 <= j < PARTITION_WORDS ensures Promised(words)[j] == ImageWords(image)[j] {
      assert 4 * j < |image| <==> j < WordsFor(|image|);
    }
  }

  /** The device after a complete download and the reset at its end. */
  function AfterSession(d: Device, image: seq<bv8>, size: bv32): Device
    requires |d.words| == WORDS && |image| <= PARTITION
  {
    Device(Run(d.words, SessionOps(image, size)), d.installed, false)
  }

  lemma TwoEvents(d: Device, a: Event, b: Event)
    requires Enabled(d, a) && Enabled(Next(d, a), b)
    ensures Possible(d, [a, b]) && After(d, [a, b]) == Next(Next(d, a), b)
  {
    hide Next, Enabled;
    assert [a, b][1..] == [b] && [b][1..] == [];
    var d1 := Next(d, a);
    var d2 := Next(d1, b);
    assert Possible(d2, []) && After(d2, []) == d2;
    assert Possible(d1, [b]) && After(d1, [b]) == d2;
  }

  /** That is a run: work on the backup, then the whole flag write. */
  lemma SessionIsRun(d: Device, image: seq<bv8>, size: bv32)
    requires |d.words| == WORDS && d.running && |image| <= PARTITION
    ensures var events := [Work(DownloadOps(image, |image| / 4) + TailOps(image)), Flag(size, Crc(image), 4)];
            Possible(d, events) && After(d, events) == AfterSession(d, image, size)
  {
    hide Run, DownloadOps, TailOps, FlagOps, Crc, BackupOnly;
    var ops, flag := DownloadOps(image, |image| / 4) + TailOps(image), FlagOps(size, Crc(image));
    var events := [Work(ops), Flag(size, Crc(image), 4)];
    UpgradeIsWork(image);
    RunConcat(d.words, ops, flag);
    assert flag[..4] == flag;
    Reassociate(DownloadOps(image, |image| / 4), TailOps(image), flag);
    assert SessionOps(image, size) == ops + flag;
    TwoEvents(d, Work(ops), Flag(size, Crc(image), 4));
  }

  /** From a running application through the download and any number of interrupted boots: the first
      boot that gets through has installed the image, and runs it exactly if its first word passes for a
      stack pointer. */
  lemma UpgradeCompletes(d: Device, image: seq<bv8>, size: bv32, cuts: seq<Event>, k: nat)
    requires |d.words| == WORDS && d.running && 0 < |image| == size as nat <= PARTITION && TailWorks(d.words, image)
    requires OnlyCutBoots(AfterSession(d, image, size), cuts)
    ensures Possible(AfterSession(d, image, size), cuts)
    ensures var before := After(AfterSession(d, image, size), cuts);
            Enabled(before, Boot(k)) &&
            (k >= |BootOps(before.words)| ==>
              var done := Next(before, Boot(k));
              (done.running <==> Startable(ImageWords(image)[0])) &&
              done.installed == ImageWords(image) && AppOf(done.words) == ImageWords(image))
  {
    hide Run, BootOps, SessionOps, TailWorks, Accepted, Promised, AppOf, ImageWords, Startable;
    DownloadIsAccepted(d.words, image, size);
    InstallsInTheEnd(AfterSession(d, image, size), cuts, k);
  }
}
