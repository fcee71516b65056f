/** The flash operations of a download, word after word, and the image they leave in the backup
    partition. */
module FwDownload {
  import opened Flash

  /** Sectors erased once n words are programmed. */
  function SectorsFor(n: nat): nat { (n + SECTOR_WORDS - 1) / SECTOR_WORDS }

  /** Programming word n; its sector is erased first when n is the sector's first word. */
  function WordOps(data: seq<bv8>, n: nat): (ops: seq<Op>) {
    (if n % SECTOR_WORDS == 0 then [Erase(BACKUP_START + 4 * n)] else []) +
    [Program(BACKUP_START + 4 * n, DataWord(data, n))]
  }

  function DownloadOps(data: seq<bv8>, n: nat): (ops: seq<Op>)
    requires n <= PARTITION_WORDS
    ensures AllInRange(ops)
  {
    if n == 0 then [] else DownloadOps(data, n - 1) + WordOps(data, n - 1)
  }

  /** Complete words do not depend on the bytes behind them. */
  lemma {:induction false} DownloadOpsOfPrefix(a: seq<bv8>, b: seq<bv8>, n: nat)
    requires n <= PARTITION_WORDS && 4 * n <= |a|
    ensures DownloadOps(a + b, n) == DownloadOps(a, n)
  {
    hide WordOf;
    if n > 0 { DownloadOpsOfPrefix(a, b, n - 1); }
  }

  /** The words after n words of data went into a flash that held `base`: the data, then erased words
      to the end of the last sector touched, then what was there. */
  function Downloaded(base: seq<bv32>, data: seq<bv8>, n: nat, i: nat): bv32
    requires |base| == WORDS && i < WORDS
  {
    if BACKUP <= i < BACKUP + n then DataWord(data, i - BACKUP)
    else if BACKUP + n <= i < BACKUP + SectorsFor(n) * SECTOR_WORDS then ERASED
    else base[i]
  }

  lemma SectorBounds(n: nat)
    requires n < PARTITION_WORDS && n % SECTOR_WORDS == 0
    ensures SectorsFor(n) * SECTOR_WORDS == n && SectorsFor(n + 1) * SECTOR_WORDS == n + SECTOR_WORDS
    ensures SectorFrom(BACKUP_START + 4 * n) == BACKUP + n &&
            SectorTo(BACKUP_START + 4 * n) == BACKUP + n + SECTOR_WORDS
  {
  }

  lemma SectorSame(n: nat)
    requires n % SECTOR_WORDS != 0
    ensures SectorsFor(n + 1) == SectorsFor(n) && n + 1 <= SectorsFor(n) * SECTOR_WORDS
  {
  }

  /** The words are those of a download of n words. */
  predicate Holds(words: seq<bv32>, base: seq<bv32>, data: seq<bv8>, n: nat) {
    |words| == WORDS == |base| && forall i :: 0 <= i < WORDS ==> words[i] == Downloaded(base, data, n, i)
  }

  /** Erasing the next sector leaves everything but that sector. */
  lemma EraseStep(before: seq<bv32>, base: seq<bv32>, data: seq<bv8>, n: nat)
    requires Holds(before, base, data, n) && n < PARTITION_WORDS && n % SECTOR_WORDS == 0
    ensures var after := Exec(before, Erase(BACKUP_START + 4 * n));
            forall i :: 0 <= i < WORDS ==>
              after[i] == if BACKUP + n <= i < BACKUP + n + SECTOR_WORDS then ERASED else Downloaded(base, data, n, i)
  {
    hide DataWord;
    SectorBounds(n);
  }

  lemma ProgramStep(before: seq<bv32>, base: seq<bv32>, data: seq<bv8>, n: nat)
    requires |before| == WORDS == |base| && n < PARTITION_WORDS
    requires forall i :: 0 <= i < WORDS ==>
               before[i] == if BACKUP + n <= i < BACKUP + SectorsFor(n + 1) * SECTOR_WORDS then ERASED
                            else Downloaded(base, data, n, i)
    requires n < SectorsFor(n + 1) * SECTOR_WORDS && SectorsFor(n) * SECTOR_WORDS <= SectorsFor(n + 1) * SECTOR_WORDS
    ensures Holds(Exec(before, Program(BACKUP_START + 4 * n, DataWord(data, n))), base, data, n + 1)
  {
    hide DataWord, SectorsFor;
    ProgramsErased(DataWord(data, n));
    assert Index(BACKUP_START + 4 * n) == BACKUP + n;
  }

  /** The operations of one word take a download of n words to one of n + 1. */
  lemma WordStep(before: seq<bv32>, base: seq<bv32>, data: seq<bv8>, n: nat)
    requires Holds(before, base, data, n) && n < PARTITION_WORDS
    ensures AllInRange(WordOps(data, n)) && Holds(Run(before, WordOps(data, n)), base, data, n + 1)
  {
    hide DataWord, Exec, Run, Holds;
    var program := Program(BACKUP_START + 4 * n, DataWord(data, n));
    if n % SECTOR_WORDS == 0 {
      SectorBounds(n);
      var erase := Erase(BACKUP_START + 4 * n);
      EraseStep(before, base, data, n);
      HoldsAt(before, base, data, n);
      ProgramStep(Exec(before, erase), base, data, n);
      RunTwo(before, erase, program);
    } else {
      SectorSame(n);
      HoldsAt(before, base, data, n);
      ProgramStep(before, base, data, n);
      assert [] + [program] == [program];
      RunOne(before, program);
    }
  }

  lemma HoldsAt(words: seq<bv32>, base: seq<bv32>, data: seq<bv8>, n: nat)
    requires Holds(words, base, data, n)
    ensures |words| == WORDS == |base| && forall i :: 0 <= i < WORDS ==> words[i] == Downloaded(base, data, n, i)
  {
  }

  lemma NothingDownloaded(base: seq<bv32>, data: seq<bv8>)
    requires |base| == WORDS
    ensures Holds(Run(base, []), base, data, 0)
  {
  }

  lemma {:induction false} DownloadLeaves(base: seq<bv32>, data: seq<bv8>, n: nat)
    requires |base| == WORDS && n <= PARTITION_WORDS
    ensures Holds(Run(base, DownloadOps(data, n)), base, data, n)
  {
    hide DataWord, Exec, Holds, WordOps, Downloaded;
    if n == 0 {
      NothingDownloaded(base, data);
    } else {
      DownloadLeaves(base, data, n - 1);
      WordStep(Run(base, DownloadOps(data, n - 1)), base, data, n - 1);
      RunConcat(base, DownloadOps(data, n - 1), WordOps(data, n - 1));
    }
  }

  // ---------- Each sector once, then each word once ----------

  predicate SameSector(a: nat, b: nat) {
    InRange(a) && InRange(b) && SectorFrom(a) == SectorFrom(b)
  }

  predicate ErasedIn(ops: seq<Op>, addr: nat) {
    exists i :: 0 <= i < |ops| && ops[i].Erase? && SameSector(ops[i].addr, addr)
  }

  predicate ProgrammedIn(ops: seq<Op>, addr: nat) {
    exists i :: 0 <= i < |ops| && ops[i].Program? && ops[i].addr == addr
  }

  /** An erase of a sector not erased before, or a program operation on a word whose sector was
      erased before and that was not programmed before. */
  predicate Allowed(prior: seq<Op>, op: Op) {
    match op
    case Erase(addr) => !ErasedIn(prior, addr)
    case Program(addr, _) => ErasedIn(prior, addr) && !ProgrammedIn(prior, addr)
  }

  /** Every sector is erased at most once, before any word in it is programmed, and every word is
      programmed at most once. */
  predicate Disciplined(ops: seq<Op>) {
    forall j :: 0 <= j < |ops| ==> Allowed(ops[..j], ops[j])
  }

  lemma DisciplinedAppend(ops: seq<Op>, op: Op)
    requires Disciplined(ops) && Allowed(ops, op)
    ensures Disciplined(ops + [op])
  {
    var all := ops + [op];
    forall j | 0 <= j < |all| ensures Allowed(all[..j], all[j]) {
      assert all[..j] == if j < |ops| then ops[..j] else ops;
    }
  }

  /** What the first n words touch: the words below n and the sectors up to the last of them. */
  predicate Touches(ops: seq<Op>, n: nat) {
    && (forall j :: 0 <= j < |ops| && ops[j].Program? ==> ops[j].addr < BACKUP_START + 4 * n)
    && (forall j :: 0 <= j < |ops| && ops[j].Erase? ==>
          InRange(ops[j].addr) && SectorTo(ops[j].addr) <= BACKUP + SectorsFor(n) * SECTOR_WORDS)
    && (forall s: nat :: s < SectorsFor(n) && s < 3 ==> ErasedIn(ops, BACKUP_START + SECTOR * s))
  }

  lemma ErasedStays(a: seq<Op>, b: seq<Op>, addr: nat)
    requires ErasedIn(a, addr)
    ensures ErasedIn(a + b, addr)
  {
    var i :| 0 <= i < |a| && a[i].Erase? && SameSector(a[i].addr, addr);
    assert (a + b)[i] == a[i];
  }

  lemma EraseNext(ops: seq<Op>, n: nat)
    requires Disciplined(ops) && Touches(ops, n) && n < PARTITION_WORDS && n % SECTOR_WORDS == 0
    ensures var all := ops + [Erase(BACKUP_START + 4 * n)];
            Disciplined(all) && Touches(all, n + 1) && ErasedIn(all, BACKUP_START + 4 * n) &&
            !ProgrammedIn(all, BACKUP_START + 4 * n)
  {
    var op := Erase(BACKUP_START + 4 * n);
    var all := ops + [op];
    SectorBounds(n);
    DisciplinedAppend(ops, op);
    assert all[|ops|] == op;
    forall s: nat | s < SectorsFor(n + 1) && s < 3 ensures ErasedIn(all, BACKUP_START + SECTOR * s) {
      if s < SectorsFor(n) { ErasedStays(ops, [op], BACKUP_START + SECTOR * s); }
    }
  }

  lemma ProgramNext(ops: seq<Op>, n: nat, value: bv32)
    requires Disciplined(ops) && Touches(ops, n + 1) && n < PARTITION_WORDS
    requires ErasedIn(ops, BACKUP_START + 4 * n) && !ProgrammedIn(ops, BACKUP_START + 4 * n)
    ensures var all := ops + [Program(BACKUP_START + 4 * n, value)];
            Disciplined(all) && Touches(all, n + 1)
  {
    var op := Program(BACKUP_START + 4 * n, value);
    DisciplinedAppend(ops, op);
    forall s: nat | s < SectorsFor(n + 1) && s < 3 ensures ErasedIn(ops + [op], BACKUP_START + SECTOR * s) {
      ErasedStays(ops, [op], BACKUP_START + SECTOR * s);
    }
  }

  lemma SectorOfWord(n: nat)
    requires n < PARTITION_WORDS
    ensures SameSector(BACKUP_START + SECTOR * (n / SECTOR_WORDS), BACKUP_START + 4 * n)
  {
  }

  lemma SameSectorErased(ops: seq<Op>, a: nat, b: nat)
    requires ErasedIn(ops, a) && SameSector(a, b)
    ensures ErasedIn(ops, b)
  {
    var i :| 0 <= i < |ops| && ops[i].Erase? && SameSector(ops[i].addr, a);
    assert SameSector(ops[i].addr, b);
  }

  lemma InErasedSector(ops: seq<Op>, n: nat)
    requires Touches(ops, n) && n < PARTITION_WORDS && n % SECTOR_WORDS != 0
    ensures ErasedIn(ops, BACKUP_START + 4 * n) && !ProgrammedIn(ops, BACKUP_START + 4 * n) && Touches(ops, n + 1)
  {
    SectorSame(n);
    var s := n / SECTOR_WORDS;
    assert s < SectorsFor(n) && s < 3;
    SectorOfWord(n);
    SameSectorErased(ops, BACKUP_START + SECTOR * s, BACKUP_START + 4 * n);
  }

  /** A download erases each sector at most once, before any word in it is programmed, and programs
      each word once. */
  lemma {:induction false} DownloadIsDisciplined(data: seq<bv8>, n: nat)
    requires n <= PARTITION_WORDS
    ensures Disciplined(DownloadOps(data, n)) && Touches(DownloadOps(data, n), n)
  {
    hide DataWord, Touches, Disciplined, ErasedIn, ProgrammedIn;
    if n == 0 {
      NothingTouched();
    } else {
      var ops := DownloadOps(data, n - 1);
      DownloadIsDisciplined(data, n - 1);
      var program := Program(BACKUP_START + 4 * (n - 1), DataWord(data, n - 1));
      if (n - 1) % SECTOR_WORDS == 0 {
        var erase := Erase(BACKUP_START + 4 * (n - 1));
        EraseNext(ops, n - 1);
        ProgramNext(ops + [erase], n - 1, program.value);
        assert ops + ([erase] + [program]) == ops + [erase] + [program];
      } else {
        InErasedSector(ops, n - 1);
        ProgramNext(ops, n - 1, program.value);
        assert [] + [program] == [program];
      }
    }
  }

  lemma NothingTouched()
    ensures Disciplined([]) && Touches([], 0)
  {
  }
}
