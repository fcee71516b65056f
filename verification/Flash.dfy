/** The flash the upgrade pipeline works on: the flag sector 4, the application sectors 5-7 and the
    backup sectors 8-10, as words that an erase sets to all ones and a program operation can only
    clear bits of. */
module Flash {
  const FLAG_ADDR: nat := 0x0801_0000
  const APP_START: nat := 0x0802_0000
  const BACKUP_START: nat := 0x0808_0000
  const BACKUP_END: nat := 0x080E_0000
  /** Sectors 5 to 10 are equally large; sector 4 is half of it. */
  const SECTOR: nat := 0x2_0000
  const PARTITION: nat := 0x6_0000

  const ERASED: bv32 := 0xFFFFFFFF

  /** Word indices: all words, the first application word, the first backup word, words of a sector. */
  const WORDS: nat := 0x3_4000
  const APP: nat := 0x4000
  const BACKUP: nat := 0x1_C000
  const SECTOR_WORDS: nat := 0x8000
  const PARTITION_WORDS: nat := 0x1_8000

  datatype Op = Erase(addr: nat) | Program(addr: nat, value: bv32)

  predicate InRange(addr: nat) { FLAG_ADDR <= addr < BACKUP_END }

  function Index(addr: nat): (i: nat)
    requires InRange(addr)
    ensures i < WORDS
  {
    (addr - FLAG_ADDR) / 4
  }

  /** The word indices of the sector that holds an address. */
  function SectorFrom(addr: nat): nat
    requires InRange(addr)
  {
    if addr < APP_START then 0 else (addr / SECTOR * SECTOR - FLAG_ADDR) / 4
  }

  function SectorTo(addr: nat): nat
    requires InRange(addr)
  {
    if addr < APP_START then APP else SectorFrom(addr) + SECTOR_WORDS
  }

  function ErasedSector(words: seq<bv32>, from: nat, to: nat): (r: seq<bv32>)
    ensures |r| == |words|
    ensures forall i {:trigger r[i]} :: 0 <= i < |words| ==> r[i] == if from <= i < to then ERASED else words[i]
  {
    seq(|words|, i requires 0 <= i < |words| => if from <= i < to then ERASED else words[i])
  }

  /** A program operation can only turn ones into zeros. */
  function Programmed(before: bv32, value: bv32): bv32 { before & value }

  /** What one operation makes of the words.  An unaligned program operation does nothing. */
  function Exec(words: seq<bv32>, op: Op): (r: seq<bv32>)
    requires |words| == WORDS && InRange(op.addr)
    ensures |r| == WORDS
  {
    match op
    case Erase(addr) => ErasedSector(words, SectorFrom(addr), SectorTo(addr))
    case Program(addr, value) =>
      if addr % 4 == 0 then words[Index(addr) := Programmed(words[Index(addr)], value)] else words
  }

  predicate AllInRange(ops: seq<Op>) {
    forall i :: 0 <= i < |ops| ==> InRange(ops[i].addr)
  }

  function Run(words: seq<bv32>, ops: seq<Op>): (r: seq<bv32>)
    requires |words| == WORDS && AllInRange(ops)
    ensures |r| == WORDS
  {
    if ops == [] then words else Exec(Run(words, ops[..|ops| - 1]), ops[|ops| - 1])
  }

  lemma {:induction false} RunConcat(words: seq<bv32>, a: seq<Op>, b: seq<Op>)
    requires |words| == WORDS && AllInRange(a) && AllInRange(b)
    ensures AllInRange(a + b) && Run(words, a + b) == Run(Run(words, a), b)
  {
    hide Exec;
    if b == [] {
      assert a + b == a;
    } else {
      var n := |b| - 1;
      RunConcat(words, a, b[..n]);
      assert (a + b)[..|a + b| - 1] == a + b[..n] && (a + b)[|a + b| - 1] == b[n];
    }
  }

  lemma RunOne(words: seq<bv32>, op: Op)
    requires |words| == WORDS && InRange(op.addr)
    ensures AllInRange([op]) && Run(words, [op]) == Exec(words, op)
  {
    hide Exec;
    assert [op][..0] == [];
    assert Run(words, []) == words;
  }

  /** One more operation of a list. */
  lemma RunNext(words: seq<bv32>, ops: seq<Op>, k: nat)
    requires |words| == WORDS && AllInRange(ops) && k < |ops|
    ensures AllInRange(ops[..k]) && AllInRange(ops[..k + 1])
    ensures Run(words, ops[..k + 1]) == Exec(Run(words, ops[..k]), ops[k])
  {
    hide Exec, InRange;
    assert ops[..k + 1][..k] == ops[..k];
  }

  lemma RunTwo(words: seq<bv32>, a: Op, b: Op)
    requires |words| == WORDS && InRange(a.addr) && InRange(b.addr)
    ensures AllInRange([a] + [b]) && Run(words, [a] + [b]) == Exec(Exec(words, a), b)
  {
    hide Exec, Run, InRange;
    RunOne(words, a);
    RunOne(Exec(words, a), b);
    RunConcat(words, [a], [b]);
  }

  /** Programming an erased word stores the value; programming the value again changes nothing. */
  lemma ProgramsErased(value: bv32)
    ensures Programmed(ERASED, value) == value && Programmed(value, value) == value
  {
  }

  class Chip {
    var words: seq<bv32>
    ghost var log: seq<Op>

    constructor (words: seq<bv32>)
      requires |words| == WORDS
      ensures this.words == words && log == []
    {
      this.words, this.log := words, [];
    }

    ghost predicate Valid()
      reads this
    {
      |words| == WORDS
    }

    /** Flash_Write_Word: the address has to be aligned, and the word erased or already the value. */
    method WriteWord(addr: nat, value: bv32) returns (ok: bool)
      requires Valid() && InRange(addr)
      modifies this
      ensures Valid() && words == Exec(old(words), Program(addr, value)) && log == old(log) + [Program(addr, value)]
      ensures ok <==> addr % 4 == 0 && (old(words[Index(addr)]) == ERASED || old(words[Index(addr)]) == value)
    {
      log := log + [Program(addr, value)];
      if addr % 4 != 0 { return false; }
      var before := words[Index(addr)];
      words := words[Index(addr) := Programmed(before, value)];
      ok := before == ERASED || before == value;
    }

    method ReadWord(addr: nat) returns (value: bv32)
      requires Valid() && InRange(addr)
      ensures value == words[Index(addr)]
    {
      value := words[Index(addr)];
    }

    /** Flash_Erase_Sector_By_Addr. */
    method EraseSector(addr: nat)
      requires Valid() && InRange(addr)
      modifies this
      ensures Valid() && words == Exec(old(words), Erase(addr)) && log == old(log) + [Erase(addr)]
    {
      log := log + [Erase(addr)];
      words := ErasedSector(words, SectorFrom(addr), SectorTo(addr));
    }
  }

  // ---------- Bytes and words ----------

  /** Little-endian assembly of a word. */
  function WordOf(b0: bv8, b1: bv8, b2: bv8, b3: bv8): bv32 {
    (b0 as bv32) | ((b1 as bv32) << 8) | ((b2 as bv32) << 16) | ((b3 as bv32) << 24)
  }

  function ByteOf(w: bv32, k: nat): bv8
    requires k < 4
  {
    if k == 0 then (w & 0xFF) as bv8
    else if k == 1 then ((w >> 8) & 0xFF) as bv8
    else if k == 2 then ((w >> 16) & 0xFF) as bv8
    else ((w >> 24) & 0xFF) as bv8
  }

  lemma BytesOfWord(b0: bv8, b1: bv8, b2: bv8, b3: bv8)
    ensures var w := WordOf(b0, b1, b2, b3);
            ByteOf(w, 0) == b0 && ByteOf(w, 1) == b1 && ByteOf(w, 2) == b2 && ByteOf(w, 3) == b3
  {
  }

  /** The first bytes of the backup partition. */
  function BackupBytes(words: seq<bv32>, size: nat): (r: seq<bv8>)
    requires |words| == WORDS && size <= PARTITION
    ensures |r| == size
    ensures forall k {:trigger r[k]} :: 0 <= k < size ==> r[k] == ByteOf(words[BACKUP + k / 4], k % 4)
  {
    seq(size, k requires 0 <= k < size => ByteOf(words[BACKUP + k / 4], k % 4))
  }

  /** Word n of a byte string, padded with 0xFF. */
  function DataWord(data: seq<bv8>, n: nat): bv32 {
    WordOf(PaddedByte(data, 4 * n), PaddedByte(data, 4 * n + 1), PaddedByte(data, 4 * n + 2),
        PaddedByte(data, 4 * n + 3))
  }

  function PaddedByte(data: seq<bv8>, k: nat): bv8 {
    if k < |data| then data[k] else 0xFF
  }

  lemma ByteOfDataWord(data: seq<bv8>, k: nat)
    requires k < |data|
    ensures ByteOf(DataWord(data, k / 4), k % 4) == data[k]
  {
    hide WordOf, ByteOf;
    var n := k / 4;
    BytesOfWord(PaddedByte(data, 4 * n), PaddedByte(data, 4 * n + 1), PaddedByte(data, 4 * n + 2),
        PaddedByte(data, 4 * n + 3));
  }

  /** Backup words that are the data's words hold the data's bytes. */
  lemma WordsHoldBytes(words: seq<bv32>, data: seq<bv8>)
    requires |words| == WORDS && |data| <= PARTITION
    requires forall n: nat :: 4 * n < |data| ==> words[BACKUP + n] == DataWord(data, n)
    ensures BackupBytes(words, |data|) == data
  {
    hide DataWord, ByteOf;
    forall k | 0 <= k < |data| ensures BackupBytes(words, |data|)[k] == data[k] {
      var n := k / 4;
      assert words[BACKUP + n] == DataWord(data, n);
      ByteOfDataWord(data, k);
    }
  }
}
