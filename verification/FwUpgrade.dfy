/** The application's side of the upgrade: packets go to the backup partition word by word, then the
    upgrade flag is written. */
module FwUpgrade {
  import opened Crc32
  import opened Flash
  import opened FwDownload

  const MAGIC: bv32 := 0x50555746

  datatype State = Idle | Receiving | Done
  datatype Outcome = Success | CheckError | Other

  /** The flag: erase sector 4, then magic, size and CRC. */
  function FlagOps(size: bv32, crc: bv32): (ops: seq<Op>)
    ensures AllInRange(ops) && |ops| == 4
  {
    [Erase(FLAG_ADDR), Program(FLAG_ADDR, MAGIC), Program(FLAG_ADDR + 4, size), Program(FLAG_ADDR + 8, crc)]
  }

  /** The part of a packet that is taken: padding behind the announced size is dropped. */
  function Taken(received: nat, size: nat, len: nat): nat
    requires received <= size
  {
    if received + len > size then size - received else len
  }

  /** When FW_UPG_WriteData stores a packet: it is not empty, data is still expected, and the packet
      starts on a word boundary unless it does not complete the word. */
  predicate Accepts(received: nat, size: nat, len: nat)
    requires received <= size
  {
    len > 0 && received < size && (received % 4 == 0 || received % 4 + Taken(received, size, len) < 4)
  }

  /** A packet that does start off a word boundary and completes a word: a sector may be erased, and
      the word is written to an unaligned address, which fails. */
  function StrayOps(received: nat, data: seq<bv8>): (ops: seq<Op>)
    requires received < PARTITION
    ensures AllInRange(ops)
  {
    (if received / 4 % SECTOR_WORDS == 0 then [Erase(BACKUP_START + received)] else []) +
    [Program(BACKUP_START + received, DataWord(data, received / 4))]
  }

  /** FW_UPG_Finish pads the last incomplete word with 0xFF and writes it without erasing. */
  function TailOps(data: seq<bv8>): (ops: seq<Op>)
    requires |data| <= PARTITION
    ensures AllInRange(ops)
  {
    if |data| % 4 == 0 then [] else [Program(BACKUP_START + |data| / 4 * 4, DataWord(data, |data| / 4))]
  }

  /** When that write succeeds: there is no such word, or it is not the first of its sector, or the
      stale word happens to allow it. */
  predicate TailWorks(words: seq<bv32>, data: seq<bv8>)
    requires |words| == WORDS && |data| <= PARTITION
  {
    |data| % 4 == 0 || |data| / 4 % SECTOR_WORDS != 0 ||
    words[BACKUP + |data| / 4] == ERASED || words[BACKUP + |data| / 4] == DataWord(data, |data| / 4)
  }

  lemma TailWord(base: seq<bv32>, data: seq<bv8>)
    requires |base| == WORDS && |data| <= PARTITION && |data| % 4 != 0
    ensures var n := |data| / 4; var words := Run(base, DownloadOps(data, n));
            Index(BACKUP_START + n * 4) == BACKUP + n < WORDS &&
            (TailWorks(words, data) <==> words[BACKUP + n] == ERASED || words[BACKUP + n] == DataWord(data, n))
  {
    hide DataWord, Run, DownloadOps;
    var n := |data| / 4;
    DownloadLeaves(base, data, n);
    if n % SECTOR_WORDS != 0 { SectorSame(n); }
  }

  lemma TailStep(before: seq<bv32>, data: seq<bv8>)
    requires |before| == WORDS && |data| <= PARTITION
    requires forall j: nat :: j < |data| / 4 ==> before[BACKUP + j] == DataWord(data, j)
    requires |data| % 4 != 0 ==>
               before[BACKUP + |data| / 4] == ERASED || before[BACKUP + |data| / 4] == DataWord(data, |data| / 4)
    ensures var words := Run(before, TailOps(data));
            (forall j: nat :: 4 * j < |data| ==> words[BACKUP + j] == DataWord(data, j)) &&
            (forall i :: 0 <= i < BACKUP ==> words[i] == before[i])
  {
    hide DataWord, Programmed, Run;
    if |data| % 4 == 0 {
      RunNothing(before);
    } else {
      RunOne(before, TailOps(data)[0]);
      ProgramsErased(DataWord(data, |data| / 4));
    }
  }

  /** After the tail the backup partition holds the data, and sectors 4 to 7 are as before. */
  lemma TailLeaves(base: seq<bv32>, data: seq<bv8>)
    requires |base| == WORDS && |data| <= PARTITION
    requires TailWorks(Run(base, DownloadOps(data, |data| / 4)), data)
    ensures var words := Run(Run(base, DownloadOps(data, |data| / 4)), TailOps(data));
            BackupBytes(words, |data|) == data && (forall i :: 0 <= i < BACKUP ==> words[i] == base[i]) &&
            (forall j: nat :: 4 * j < |data| ==> words[BACKUP + j] == DataWord(data, j))
  {
    hide DataWord, DownloadOps, BackupBytes, Downloaded, Run, TailOps, TailWorks, Holds;
    var n := |data| / 4;
    var before := Run(base, DownloadOps(data, n));
    DownloadLeaves(base, data, n);
    HoldsParts(before, base, data, n);
    if |data| % 4 != 0 { TailWord(base, data); }
    TailStep(before, data);
    WordsHoldBytes(Run(before, TailOps(data)), data);
  }

  lemma HoldsParts(words: seq<bv32>, base: seq<bv32>, data: seq<bv8>, n: nat)
    requires Holds(words, base, data, n) && n <= PARTITION_WORDS
    ensures |words| == WORDS == |base|
    ensures forall i: nat :: i < n ==> words[BACKUP + i] == DataWord(data, i)
    ensures forall i: nat :: i < BACKUP ==> words[i] == base[i]
  {
    hide DataWord;
  }

  /** The flag sector after the first k flag operations. */
  function FlagWord(words: seq<bv32>, size: bv32, crc: bv32, k: nat, i: nat): bv32
    requires |words| == WORDS && i < WORDS
  {
    if k == 0 || i >= APP then words[i]
    else if i == 0 && k >= 2 then MAGIC
    else if i == 1 && k >= 3 then size
    else if i == 2 && k >= 4 then crc
    else ERASED
  }

  lemma FlagStep(before: seq<bv32>, words: seq<bv32>, size: bv32, crc: bv32, k: nat)
    requires |before| == |words| == WORDS && k < 4
    requires forall i :: 0 <= i < WORDS ==> before[i] == FlagWord(words, size, crc, k, i)
    ensures var after := Exec(before, FlagOps(size, crc)[k]);
            forall i :: 0 <= i < WORDS ==> after[i] == FlagWord(words, size, crc, k + 1, i)
  {
    hide Programmed;
    ProgramsErased(MAGIC);
    ProgramsErased(size);
    ProgramsErased(crc);
  }

  lemma {:induction false} FlagLeaves(words: seq<bv32>, size: bv32, crc: bv32, k: nat)
    requires |words| == WORDS && k <= 4
    ensures AllInRange(FlagOps(size, crc)[..k])
    ensures var after := Run(words, FlagOps(size, crc)[..k]);
            forall i :: 0 <= i < WORDS ==> after[i] == FlagWord(words, size, crc, k, i)
  {
    hide Run, Exec, FlagWord, FlagOps;
    if k == 0 {
      RunNothing(words);
      FlagUntouched(words, size, crc);
      assert FlagOps(size, crc)[..0] == [];
    } else {
      FlagLeaves(words, size, crc, k - 1);
      RunNext(words, FlagOps(size, crc), k - 1);
      FlagStep(Run(words, FlagOps(size, crc)[..k - 1]), words, size, crc, k - 1);
    }
  }

  lemma FlagUntouched(words: seq<bv32>, size: bv32, crc: bv32)
    requires |words| == WORDS
    ensures forall i :: 0 <= i < WORDS ==> words[i] == FlagWord(words, size, crc, 0, i)
  {
  }

  lemma RunNothing(words: seq<bv32>)
    requires |words| == WORDS
    ensures Run(words, []) == words
  {
  }

  /** What FW_UPG_Finish does with the flash: the tail, and the flag when everything arrived. */
  function FinishOps(words: seq<bv32>, data: seq<bv8>, size: bv32): (ops: seq<Op>)
    requires |words| == WORDS && |data| <= PARTITION
    ensures AllInRange(ops)
  {
    if FinishOutcome(words, data, size) == Success then TailOps(data) + FlagOps(size, Crc(data)) else TailOps(data)
  }

  function FinishOutcome(words: seq<bv32>, data: seq<bv8>, size: bv32): Outcome
    requires |words| == WORDS && |data| <= PARTITION
  {
    if !TailWorks(words, data) then Other
    else if |data| != size as nat then CheckError
    else Success
  }

  class Upgrade {
    const chip: Chip
    const wbuf: array<bv8>
    var state: State
    var fwSize: bv32
    var recvSize: nat
    var crc: bv32
    var erasedAddr: nat
    var wcnt: nat
    /** The bytes received, and the flash and its log when reception started. */
    ghost var got: seq<bv8>
    ghost var base: seq<bv32>
    ghost var startLog: seq<Op>

    constructor (chip: Chip)
      requires chip.Valid()
      ensures this.chip == chip && state == Idle && fresh(wbuf) && Valid()
    {
      this.chip, this.wbuf, this.state := chip, new bv8[4], Idle;
      this.fwSize, this.recvSize, this.crc, this.erasedAddr, this.wcnt := 0, 0, 0, 0, 0;
      this.got, this.base, this.startLog := [], [], [];
    }

    /** The flash after n complete words of data. */
    ghost predicate Stored(data: seq<bv8>, n: nat)
      reads this`base, this`startLog, this`erasedAddr, chip
    {
      n <= PARTITION_WORDS && |base| == WORDS &&
      chip.words == Run(base, DownloadOps(data, n)) && chip.log == startLog + DownloadOps(data, n) &&
      erasedAddr == BACKUP_START + SECTOR * SectorsFor(n)
    }

    /** The write buffer holds the bytes of data before byte m. */
    ghost predicate BufferedAt(data: seq<bv8>, m: nat)
      reads this`wcnt, wbuf
    {
      wbuf.Length == 4 && wcnt < 4 && wcnt <= m <= |data| && wbuf[..wcnt] == data[m - wcnt..m]
    }

    /** The announced size. */
    function Size(): nat
      reads this`fwSize
    {
      fwSize as nat
    }

    ghost predicate Valid()
      reads this, chip, wbuf
    {
      chip.Valid() && wbuf.Length == 4 &&
      (state == Receiving ==>
        0 < Size() <= PARTITION && |got| == recvSize <= Size() && crc == BitCrc(0xFFFFFFFF, got) &&
        BufferedAt(got, recvSize) && wcnt == recvSize % 4 && Stored(got, recvSize / 4))
    }

    method Reset()
      requires chip.Valid() && wbuf.Length == 4
      modifies this, wbuf
      ensures Valid() && state == Idle && fwSize == 0 && recvSize == 0
    {
      state, fwSize, recvSize, crc, erasedAddr, wcnt := Idle, 0, 0, 0, 0, 0;
      wbuf[0], wbuf[1], wbuf[2], wbuf[3] := 0, 0, 0, 0;
    }

    method StartUpdate(size: bv32) returns (ok: bool)
      requires Valid()
      modifies this
      ensures Valid() && ok == (0 < size as nat <= PARTITION)
      ensures ok ==> state == Receiving && fwSize == size && got == [] && base == chip.words && startLog == chip.log
      ensures !ok ==> state == old(state) && got == old(got) && fwSize == old(fwSize)
    {
      hide Run, DownloadOps, SectorsFor, BitCrc;
      StartsEmpty(chip.words, 0xFFFFFFFF);
      ZeroSize(size);
      if size == 0 || size as nat > PARTITION { return false; }
      fwSize, recvSize, crc, wcnt, erasedAddr, state := size, 0, 0xFFFFFFFF, 0, BACKUP_START, Receiving;
      got, base, startLog := [], chip.words, chip.log;
      assert startLog + [] == chip.log;
      return true;
    }

    /** fw_upg_erase_before. */
    method EraseBefore(addr: nat) returns (failed: bool)
      requires chip.Valid() && BACKUP_START <= addr
      modifies this`erasedAddr, chip
      ensures chip.Valid() && failed == (addr >= BACKUP_END)
      ensures failed || addr < old(erasedAddr) ==>
                erasedAddr == old(erasedAddr) && chip.words == old(chip.words) && chip.log == old(chip.log)
      ensures !failed && addr >= old(erasedAddr) ==>
                erasedAddr == addr / SECTOR * SECTOR + SECTOR &&
                chip.words == Exec(old(chip.words), Erase(addr)) && chip.log == old(chip.log) + [Erase(addr)]
    {
      if addr >= BACKUP_END { return true; }
      if addr < erasedAddr { return false; }
      chip.EraseSector(addr);
      erasedAddr := addr / SECTOR * SECTOR + SECTOR;
      return false;
    }

    /** The full buffer is written at an offset of the partition, whose sector is erased first if
        needed.  Off a word boundary the write fails. */
    method StoreWord(offs: nat, ghost data: seq<bv8>) returns (ok: bool)
      requires chip.Valid() && offs < PARTITION && Stored(data, offs / 4) && offs / 4 * 4 + 4 <= |data|
      requires wbuf.Length == 4 && wbuf[..] == data[offs / 4 * 4..offs / 4 * 4 + 4]
      modifies this`erasedAddr, chip
      ensures chip.Valid() && ok == (offs % 4 == 0)
      ensures ok ==> Stored(data, offs / 4 + 1)
      ensures !ok ==> chip.words == Run(old(chip.words), StrayOps(offs, data)) &&
                      chip.log == old(chip.log) + StrayOps(offs, data)
    {
      hide Run, Exec, DownloadOps, DataWord, WordOf, SectorsFor;
      ghost var n, words0, log0 := offs / 4, chip.words, chip.log;
      var addr := BACKUP_START + offs;
      var word := WordOf(wbuf[0], wbuf[1], wbuf[2], wbuf[3]);
      BufferIsWord(data, n, wbuf[..]);
      EraseArithmetic(offs);
      ErasedForWord(base, data, n);
      var failed := EraseBefore(addr);
      ghost var erased := chip.words;
      ok := chip.WriteWord(addr, word);
      if offs % 4 == 0 {
        WordOpsRun(words0, data, n);
        RunConcat(base, DownloadOps(data, n), WordOps(data, n));
        NextOps(data, n);
        LogTwo(log0, Erase(addr), Program(addr, word));
        assert chip.log == log0 + WordOps(data, n);
        assert startLog + (DownloadOps(data, n) + WordOps(data, n))
            == startLog + DownloadOps(data, n) + WordOps(data, n);
      } else {
        StrayOpsRun(words0, data, offs);
        LogTwo(log0, Erase(addr), Program(addr, word));
        assert chip.log == log0 + StrayOps(offs, data);
      }
    }

    lemma StoredGrows(a: seq<bv8>, b: seq<bv8>, n: nat)
      requires Stored(a, n) && 4 * n <= |a|
      ensures Stored(a + b, n)
    {
      hide Run, DownloadOps;
      if n <= PARTITION_WORDS { DownloadOpsOfPrefix(a, b, n); }
    }

    lemma BufferedGrows(a: seq<bv8>, b: seq<bv8>, m: nat)
      requires BufferedAt(a, m)
      ensures BufferedAt(a + b, m)
    {
      assert (a + b)[m - wcnt..m] == a[m - wcnt..m];
    }

    /** One byte of a packet, byte m of all that is received: buffered, and a full buffer is written. */
    method TakeByte(b: bv8, offs: nat, ghost all: seq<bv8>, ghost m: nat) returns (ok: bool, next: nat)
      requires chip.Valid() && offs < PARTITION && offs / 4 == m / 4 && m < |all| && all[m] == b
      requires BufferedAt(all, m) && wcnt == m % 4 && Stored(all, m / 4)
      modifies this`erasedAddr, this`wcnt, chip, wbuf
      ensures chip.Valid() && ok == (m % 4 < 3 || offs % 4 == 0)
      ensures ok ==> BufferedAt(all, m + 1) && wcnt == (m + 1) % 4 && Stored(all, (m + 1) / 4)
      ensures ok ==> next / 4 == (m + 1) / 4 && next % 4 == offs % 4
      ensures m % 4 < 3 ==> chip.words == old(chip.words) && chip.log == old(chip.log) && next == offs
      ensures !ok ==> chip.words == Run(old(chip.words), StrayOps(offs, all)) &&
                      chip.log == old(chip.log) + StrayOps(offs, all)
    {
      hide Run, StrayOps, Stored;
      NextByte(offs, m);
      ok, next := true, offs;
      ghost var before := wbuf[..];
      wbuf[wcnt] := b;
      BufferNext(before, wbuf[..], wcnt, all, m);
      wcnt := wcnt + 1;
      if wcnt == 4 {
        ok := StoreWord(offs, all);
        next := offs + 4;
        wcnt := 0;
      }
    }

    /** The byte loop of a packet, whose bytes end all that is received. */
    method TakeBytes(part: seq<bv8>, ghost all: seq<bv8>) returns (ok: bool)
      requires chip.Valid() && |all| <= PARTITION && |all| == recvSize + |part| && all[recvSize..] == part
      requires BufferedAt(all, recvSize) && wcnt == recvSize % 4 && Stored(all, recvSize / 4)
      modifies this`erasedAddr, this`wcnt, chip, wbuf
      ensures chip.Valid() && ok == (recvSize % 4 == 0 || recvSize % 4 + |part| < 4)
      ensures ok ==> BufferedAt(all, |all|) && wcnt == |all| % 4 && Stored(all, |all| / 4)
      ensures !ok ==> chip.words == Run(old(chip.words), StrayOps(recvSize, all)) &&
                      chip.log == old(chip.log) + StrayOps(recvSize, all)
    {
      hide Run, StrayOps, Stored, BufferedAt;
      var wrOffs := recvSize;
      ok := true;
      for i := 0 to |part|
        invariant BufferedAt(all, recvSize + i) && wcnt == (recvSize + i) % 4
        invariant chip.Valid() && Stored(all, (recvSize + i) / 4)
        invariant wrOffs / 4 == (recvSize + i) / 4 && wrOffs % 4 == recvSize % 4
        invariant recvSize % 4 != 0 ==> recvSize % 4 + i < 4 && wrOffs == recvSize
        invariant recvSize % 4 != 0 ==> chip.words == old(chip.words) && chip.log == old(chip.log)
      {
        assert all[recvSize..][i] == part[i];
        ok, wrOffs := TakeByte(part[i], wrOffs, all, recvSize + i);
        if !ok { return; }
      }
      ok := true;
    }

    /** FW_UPG_WriteData after the checks: the bytes are stored, then CRC and size advance. */
    method StorePacket(part: seq<bv8>) returns (ok: bool)
      requires Valid() && state == Receiving && recvSize + |part| <= Size()
      modifies this, chip, wbuf
      ensures Valid() && ok == (old(recvSize) % 4 == 0 || old(recvSize) % 4 + |part| < 4)
      ensures ok ==> state == Receiving && got == old(got) + part
      ensures fwSize == old(fwSize) && base == old(base) && startLog == old(startLog)
      ensures !ok ==> state == Idle && chip.words == Run(old(chip.words), StrayOps(old(recvSize), old(got) + part)) &&
                      chip.log == old(chip.log) + StrayOps(old(recvSize), old(got) + part)
    {
      hide Run, StrayOps, BitCrc, Stored, BufferedAt, Size, DownloadOps, DataWord, SectorsFor;
      ghost var all := got + part;
      StoredGrows(got, part, recvSize / 4);
      BufferedGrows(got, part, recvSize);
      ok := TakeBytes(part, all);
      if !ok {
        state := Idle;
        return;
      }
      Advance(part);
    }

    /** The bytes of a packet are stored: CRC and received size follow. */
    method Advance(part: seq<bv8>)
      requires chip.Valid() && wbuf.Length == 4 && state == Receiving && 0 < Size() <= PARTITION
      requires |got| == recvSize && recvSize + |part| <= Size() && crc == BitCrc(0xFFFFFFFF, got)
      requires BufferedAt(got + part, |got + part|) && wcnt == |got + part| % 4 && Stored(got + part, |got + part| / 4)
      modifies this`crc, this`recvSize, this`got
      ensures Valid() && got == old(got) + part
    {
      hide BitCrc, Stored, BufferedAt, Size;
      BitCrcOfPackets(0xFFFFFFFF, got, part);
      var updated := UpdateCrc(crc, part);
      crc, recvSize := updated, recvSize + |part|;
      got := got + part;
    }

    /** FW_UPG_WriteData. */
    method WriteData(data: seq<bv8>) returns (ok: bool)
      requires Valid() && |data| < 0xF000_0000
      modifies this, chip, wbuf
      ensures Valid() && ok == (old(state) == Receiving && Accepts(old(recvSize), old(Size()), |data|))
      ensures ok ==> state == Receiving && fwSize == old(fwSize) && base == old(base) && startLog == old(startLog) &&
                     got == old(got) + data[..Taken(old(recvSize), old(Size()), |data|)]
      ensures !ok && !(old(state) == Receiving && |data| > 0 && old(recvSize) < old(Size())) ==>
                state == old(state) && got == old(got) && chip.words == old(chip.words) && chip.log == old(chip.log)
      ensures !ok && old(state) == Receiving && |data| > 0 && old(recvSize) < old(Size()) ==>
                var ops := StrayOps(old(recvSize), old(got) + data[..Taken(old(recvSize), old(Size()), |data|)]);
                state == Idle && chip.words == Run(old(chip.words), ops) && chip.log == old(chip.log) + ops
    {
      hide Run, StrayOps, BitCrc, Stored, BufferedAt, Size;
      if |data| == 0 || state != Receiving { return false; }
      var len := |data|;
      if recvSize + len > Size() {
        if recvSize >= Size() { return false; }
        len := Size() - recvSize;
      }
      ok := StorePacket(data[..len]);
    }

    /** A buffer with some bytes is filled up with 0xFF. */
    method PadBuffer()
      requires wbuf.Length == 4 && wcnt < 4
      modifies this`wcnt, wbuf
      ensures wcnt == if old(wcnt) == 0 then 0 else 4
      ensures wbuf[..old(wcnt)] == old(wbuf[..wcnt]) && forall k :: old(wcnt) <= k < wcnt ==> wbuf[k] == 0xFF
    {
      while wcnt != 0 && wcnt < 4
        decreases 4 - wcnt
        invariant old(wcnt) <= wcnt <= 4 && (wcnt == 0 <==> old(wcnt) == 0)
        invariant wbuf[..old(wcnt)] == old(wbuf[..wcnt])
        invariant forall k :: old(wcnt) <= k < wcnt ==> wbuf[k] == 0xFF
      {
        wbuf[wcnt] := 0xFF;
        wcnt := wcnt + 1;
      }
    }

    /** The incomplete last word, padded, without erasing. */
    method WriteTail() returns (ok: bool)
      requires Valid() && state == Receiving
      modifies this`wcnt, chip, wbuf
      ensures chip.Valid() && ok == TailWorks(old(chip.words), got)
      ensures chip.words == Run(old(chip.words), TailOps(got)) && chip.log == old(chip.log) + TailOps(got)
    {
      hide Run, DownloadOps, DataWord, WordOf, BitCrc, Size, Exec;
      ghost var kept := wcnt;
      ok := true;
      PadBuffer();
      if wcnt == 4 {
        var word := WordOf(wbuf[0], wbuf[1], wbuf[2], wbuf[3]);
        PaddedBuffer(got, wbuf[..], kept);
        TailWord(base, got);
        RunOne(chip.words, Program(BACKUP_START + recvSize / 4 * 4, word));
        ok := chip.WriteWord(BACKUP_START + recvSize / 4 * 4, word);
        wcnt := 0;
      } else {
        RunNothing(chip.words);
        assert chip.log + [] == chip.log;
      }
    }

    /** The read-back of the backup partition. */
    method ReadBack(size: nat) returns (check: bv32)
      requires chip.Valid() && size <= PARTITION
      ensures check == Crc(BackupBytes(chip.words, size))
    {
      hide BitCrc, ByteOf, BackupBytes, Xor;
      ghost var bytes := BackupBytes(chip.words, size);
      NoBytes(0xFFFFFFFF);
      assert bytes[..0] == [];
      check := 0xFFFFFFFF;
      var off := 0;
      while off + 4 <= size
        invariant off % 4 == 0 && off <= size && check == BitCrc(0xFFFFFFFF, bytes[..off])
      {
        var word := chip.ReadWord(BACKUP_START + off);
        var b := [ByteOf(word, 0), ByteOf(word, 1), ByteOf(word, 2), ByteOf(word, 3)];
        BytesOfNextWord(chip.words, size, off, b);
        BitCrcOfPackets(0xFFFFFFFF, bytes[..off], b);
        check := UpdateCrc(check, b);
        off := off + 4;
      }
      if off < size {
        var word := chip.ReadWord(BACKUP_START + off);
        var b := seq(size - off, k requires 0 <= k < size - off => ByteOf(word, k));
        BytesOfNextWord(chip.words, size, off, b);
        BitCrcOfPackets(0xFFFFFFFF, bytes[..off], b);
        check := UpdateCrc(check, b);
      }
      assert bytes[..size] == bytes;
      check := Xor(check, 0xFFFFFFFF);
    }

    method WriteFlag(check: bv32) returns (ok: bool)
      requires chip.Valid()
      modifies chip
      ensures chip.Valid() && ok
      ensures chip.words == Run(old(chip.words), FlagOps(fwSize, check)) &&
              chip.log == old(chip.log) + FlagOps(fwSize, check)
    {
      hide Run, Exec;
      ghost var words0, ops := chip.words, FlagOps(fwSize, check);
      RunNothing(words0);
      assert ops[..0] == [] && ops[..4] == ops;
      RunNext(words0, ops, 0);
      RunNext(words0, ops, 1);
      RunNext(words0, ops, 2);
      RunNext(words0, ops, 3);
      FlagErased(words0, fwSize, check);
      chip.EraseSector(FLAG_ADDR);
      var a := chip.WriteWord(FLAG_ADDR, MAGIC);
      var b := chip.WriteWord(FLAG_ADDR + 4, fwSize);
      var c := chip.WriteWord(FLAG_ADDR + 8, check);
      ok := a && b && c;
    }

    /** FW_UPG_Finish.  `mismatch` says whether the read-back differs, which the source only reports. */
    method Finish() returns (outcome: Outcome, mismatch: bool)
      requires Valid()
      modifies this, chip, wbuf
      ensures Valid()
      ensures old(state) != Receiving ==>
                outcome == Other && state == Idle && chip.words == old(chip.words) && chip.log == old(chip.log)
      ensures old(state) == Receiving ==>
                var ops := FinishOps(old(chip.words), old(got), old(fwSize));
                outcome == FinishOutcome(old(chip.words), old(got), old(fwSize)) &&
                chip.words == Run(old(chip.words), ops) && chip.log == old(chip.log) + ops &&
                state == (if outcome == Success then Done else Idle)
      ensures outcome == Success ==> !mismatch && BackupBytes(chip.words, |old(got)|) == old(got)
    {
      hide Run, DownloadOps, TailOps, TailWorks, FlagOps, BackupBytes, BitCrc, Crc;
      mismatch := false;
      if state != Receiving {
        Reset();
        return Other, false;
      }
      ghost var words0, log0, data := chip.words, chip.log, got;
      var written := WriteTail();
      if !written {
        Reset();
        return Other, false;
      }
      ghost var words1 := chip.words;
      if recvSize != Size() {
        Reset();
        return CheckError, false;
      }
      TailLeaves(base, data);
      var check := Xor(crc, 0xFFFFFFFF);
      var readBack := ReadBack(recvSize);
      mismatch := readBack != check;
      RecordedCrc(data);
      var flagged := WriteFlag(check);
      RunConcat(words0, TailOps(data), FlagOps(fwSize, check));
      assert log0 + (TailOps(data) + FlagOps(fwSize, check)) == log0 + TailOps(data) + FlagOps(fwSize, check);
      FlagKeepsBackup(words1, fwSize, check, |data|);
      state := Done;
      outcome := if flagged then Success else Other;
    }
  }

  lemma RecordedCrc(data: seq<bv8>)
    ensures Crc(data) == Xor(BitCrc(0xFFFFFFFF, data), 0xFFFFFFFF)
  {
  }

  lemma FlagKeepsBackup(words: seq<bv32>, size: bv32, crc: bv32, n: nat)
    requires |words| == WORDS && n <= PARTITION
    ensures BackupBytes(Run(words, FlagOps(size, crc)), n) == BackupBytes(words, n)
  {
    hide Run, ByteOf;
    FlagLeaves(words, size, crc, 4);
    assert FlagOps(size, crc)[..4] == FlagOps(size, crc);
  }

  lemma BytesOfNextWord(words: seq<bv32>, size: nat, off: nat, b: seq<bv8>)
    requires |words| == WORDS && off < size <= PARTITION && off % 4 == 0 && |b| <= 4 && off + |b| <= size
    requires forall k :: 0 <= k < |b| ==> b[k] == ByteOf(words[Index(BACKUP_START + off)], k)
    ensures BackupBytes(words, size)[..off + |b|] == BackupBytes(words, size)[..off] + b
  {
    hide ByteOf;
  }

  lemma PaddedBuffer(data: seq<bv8>, buffer: seq<bv8>, kept: nat)
    requires |buffer| == 4 && 0 < kept == |data| % 4 && buffer[..kept] == data[|data| - kept..]
    requires forall k :: kept <= k < 4 ==> buffer[k] == 0xFF
    ensures WordOf(buffer[0], buffer[1], buffer[2], buffer[3]) == DataWord(data, |data| / 4)
  {
    hide WordOf;
    forall k: nat | k < 4 ensures buffer[k] == PaddedByte(data, |data| / 4 * 4 + k) {
      if k < kept { assert buffer[..kept][k] == data[|data| - kept..][k]; }
    }
  }

  /** Each word of the flag is erased when it is written. */
  lemma FlagErased(words: seq<bv32>, size: bv32, crc: bv32)
    requires |words| == WORDS
    ensures forall k :: 0 < k < 4 ==>
              AllInRange(FlagOps(size, crc)[..k]) && Run(words, FlagOps(size, crc)[..k])[k - 1] == ERASED
  {
    hide Run, FlagOps;
    forall k | 0 < k < 4
      ensures AllInRange(FlagOps(size, crc)[..k]) && Run(words, FlagOps(size, crc)[..k])[k - 1] == ERASED
    {
      FlagLeaves(words, size, crc, k);
    }
  }

  lemma LogTwo(log: seq<Op>, a: Op, b: Op)
    ensures log + ([a] + [b]) == log + [a] + [b] && log + ([] + [b]) == log + [b]
  {
  }

  lemma BufferNext(before: seq<bv8>, after: seq<bv8>, n: nat, all: seq<bv8>, m: nat)
    requires |before| == 4 && n < 4 && n <= m < |all| && before[..n] == all[m - n..m] && after == before[n := all[m]]
    ensures after[..n + 1] == all[m - n..m + 1]
    ensures n == 3 ==> after == all[m - 3..m + 1]
  {
    forall i | 0 <= i <= n ensures after[i] == all[m - n + i] {
      assert i < n ==> before[..n][i] == all[m - n..m][i];
    }
    assert n == 3 ==> after[..n + 1] == after;
  }

  lemma NextByte(offs: nat, m: nat)
    requires offs / 4 == m / 4
    ensures m % 4 < 3 ==> (m + 1) / 4 == m / 4 && (m + 1) % 4 == m % 4 + 1
    ensures m % 4 == 3 ==> (m + 1) / 4 == m / 4 + 1 && (m + 1) % 4 == 0
    ensures (offs + 4) / 4 == m / 4 + 1 && (offs + 4) % 4 == offs % 4 && offs / 4 * 4 == m - m % 4
  {
  }

  lemma StartsEmpty(words: seq<bv32>, crc: bv32)
    requires |words| == WORDS
    ensures DownloadOps([], 0) == [] && Run(words, []) == words && SectorsFor(0) == 0 && BitCrc(crc, []) == crc
  {
  }

  lemma ZeroSize(size: bv32)
    ensures size == 0 <==> size as nat == 0
  {
  }

  /** erased_addr tells whether the word at an offset starts a sector that still has to be erased. */
  lemma EraseArithmetic(offs: nat)
    requires offs < PARTITION
    ensures var addr, n := BACKUP_START + offs, offs / 4;
            addr < BACKUP_END && (addr < BACKUP_START + SECTOR * SectorsFor(n) <==> n % SECTOR_WORDS != 0) &&
            (n % SECTOR_WORDS == 0 ==> addr / SECTOR * SECTOR + SECTOR == BACKUP_START + SECTOR * SectorsFor(n + 1)) &&
            (n % SECTOR_WORDS != 0 ==> SectorsFor(n + 1) == SectorsFor(n))
  {
  }

  lemma StrayOpsRun(words: seq<bv32>, data: seq<bv8>, offs: nat)
    requires |words| == WORDS && offs < PARTITION && offs % 4 != 0
    ensures var erased := if offs / 4 % SECTOR_WORDS == 0 then Exec(words, Erase(BACKUP_START + offs)) else words;
            Run(words, StrayOps(offs, data)) == Exec(erased, Program(BACKUP_START + offs, DataWord(data, offs / 4)))
  {
    hide DataWord, Exec, Run;
    var program, erase := Program(BACKUP_START + offs, DataWord(data, offs / 4)), Erase(BACKUP_START + offs);
    if offs / 4 % SECTOR_WORDS == 0 {
      RunTwo(words, erase, program);
    } else {
      assert [] + [program] == [program];
      RunOne(words, program);
    }
  }

  /** When word n is about to be programmed it is erased. */
  lemma ErasedForWord(base: seq<bv32>, data: seq<bv8>, n: nat)
    requires |base| == WORDS && n < PARTITION_WORDS
    ensures var words := Run(base, DownloadOps(data, n));
            var erased := if n % SECTOR_WORDS == 0 then Exec(words, Erase(BACKUP_START + 4 * n)) else words;
            erased[Index(BACKUP_START + 4 * n)] == ERASED
  {
    hide DataWord, Run;
    DownloadLeaves(base, data, n);
    var words := Run(base, DownloadOps(data, n));
    if n % SECTOR_WORDS == 0 {
      EraseStep(words, base, data, n);
    } else {
      SectorSame(n);
    }
  }

  lemma NextOps(data: seq<bv8>, n: nat)
    requires n < PARTITION_WORDS
    ensures DownloadOps(data, n + 1) == DownloadOps(data, n) + WordOps(data, n)
  {
  }

  lemma WordOpsRun(words: seq<bv32>, data: seq<bv8>, n: nat)
    requires |words| == WORDS && n < PARTITION_WORDS
    ensures AllInRange(WordOps(data, n))
    ensures var erased := if n % SECTOR_WORDS == 0 then Exec(words, Erase(BACKUP_START + 4 * n)) else words;
            Run(words, WordOps(data, n)) == Exec(erased, Program(BACKUP_START + 4 * n, DataWord(data, n)))
  {
    hide DataWord, Exec, Run;
    var program, erase := Program(BACKUP_START + 4 * n, DataWord(data, n)), Erase(BACKUP_START + 4 * n);
    if n % SECTOR_WORDS == 0 {
      RunTwo(words, erase, program);
    } else {
      assert [] + [program] == [program];
      RunOne(words, program);
    }
  }

  lemma BufferIsWord(data: seq<bv8>, n: nat, buffer: seq<bv8>)
    requires 4 * n + 4 <= |data| && buffer == data[4 * n..4 * n + 4]
    ensures WordOf(buffer[0], buffer[1], buffer[2], buffer[3]) == DataWord(data, n)
  {
    hide WordOf;
  }
}
