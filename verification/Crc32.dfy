/** The CRC-32 of the upgrade pipeline: bit by bit in the application, by table in the bootloader. */
module Crc32 {
  const POLYNOMIAL: bv32 := 0xEDB88320

  function Xor(a: bv32, b: bv32): bv32 { a ^ b }

  function Half(c: bv32): bv32 { c >> 1 }

  predicate Odd(c: bv32) { c & 1 == 1 }

  /** One bit of the reflected CRC. */
  function Shift(c: bv32): bv32 {
    if Odd(c) then Xor(Half(c), POLYNOMIAL) else Half(c)
  }

  function Shifts(c: bv32, n: nat): bv32
    decreases n
  {
    if n == 0 then c else Shifts(Shift(c), n - 1)
  }

  function Rows0(row: bv32): (r: seq<bv32>)
    ensures |r| == 8
  {
    if row == 0x00 then [0x00000000, 0x77073096, 0xEE0E612C, 0x990951BA, 0x076DC419, 0x706AF48F, 0xE963A535, 0x9E6495A3]
    else if row == 0x08 then
      [0x0EDB8832, 0x79DCB8A4, 0xE0D5E91E, 0x97D2D988, 0x09B64C2B, 0x7EB17CBD, 0xE7B82D07, 0x90BF1D91]
    else if row == 0x10 then
      [0x1DB71064, 0x6AB020F2, 0xF3B97148, 0x84BE41DE, 0x1ADAD47D, 0x6DDDE4EB, 0xF4D4B551, 0x83D385C7]
    else [0x136C9856, 0x646BA8C0, 0xFD62F97A, 0x8A65C9EC, 0x14015C4F, 0x63066CD9, 0xFA0F3D63, 0x8D080DF5]
  }

  function Rows1(row: bv32): (r: seq<bv32>)
    ensures |r| == 8
  {
    if row == 0x20 then [0x3B6E20C8, 0x4C69105E, 0xD56041E4, 0xA2677172, 0x3C03E4D1, 0x4B04D447, 0xD20D85FD, 0xA50AB56B]
    else if row == 0x28 then
      [0x35B5A8FA, 0x42B2986C, 0xDBBBC9D6, 0xACBCF940, 0x32D86CE3, 0x45DF5C75, 0xDCD60DCF, 0xABD13D59]
    else if row == 0x30 then
      [0x26D930AC, 0x51DE003A, 0xC8D75180, 0xBFD06116, 0x21B4F4B5, 0x56B3C423, 0xCFBA9599, 0xB8BDA50F]
    else [0x2802B89E, 0x5F058808, 0xC60CD9B2, 0xB10BE924, 0x2F6F7C87, 0x58684C11, 0xC1611DAB, 0xB6662D3D]
  }

  function Rows2(row: bv32): (r: seq<bv32>)
    ensures |r| == 8
  {
    if row == 0x40 then [0x76DC4190, 0x01DB7106, 0x98D220BC, 0xEFD5102A, 0x71B18589, 0x06B6B51F, 0x9FBFE4A5, 0xE8B8D433]
    else if row == 0x48 then
      [0x7807C9A2, 0x0F00F934, 0x9609A88E, 0xE10E9818, 0x7F6A0DBB, 0x086D3D2D, 0x91646C97, 0xE6635C01]
    else if row == 0x50 then
      [0x6B6B51F4, 0x1C6C6162, 0x856530D8, 0xF262004E, 0x6C0695ED, 0x1B01A57B, 0x8208F4C1, 0xF50FC457]
    else [0x65B0D9C6, 0x12B7E950, 0x8BBEB8EA, 0xFCB9887C, 0x62DD1DDF, 0x15DA2D49, 0x8CD37CF3, 0xFBD44C65]
  }

  function Rows3(row: bv32): (r: seq<bv32>)
    ensures |r| == 8
  {
    if row == 0x60 then [0x4DB26158, 0x3AB551CE, 0xA3BC0074, 0xD4BB30E2, 0x4ADFA541, 0x3DD895D7, 0xA4D1C46D, 0xD3D6F4FB]
    else if row == 0x68 then
      [0x4369E96A, 0x346ED9FC, 0xAD678846, 0xDA60B8D0, 0x44042D73, 0x33031DE5, 0xAA0A4C5F, 0xDD0D7CC9]
    else if row == 0x70 then
      [0x5005713C, 0x270241AA, 0xBE0B1010, 0xC90C2086, 0x5768B525, 0x206F85B3, 0xB966D409, 0xCE61E49F]
    else [0x5EDEF90E, 0x29D9C998, 0xB0D09822, 0xC7D7A8B4, 0x59B33D17, 0x2EB40D81, 0xB7BD5C3B, 0xC0BA6CAD]
  }

  function Rows4(row: bv32): (r: seq<bv32>)
    ensures |r| == 8
  {
    if row == 0x80 then [0xEDB88320, 0x9ABFB3B6, 0x03B6E20C, 0x74B1D29A, 0xEAD54739, 0x9DD277AF, 0x04DB2615, 0x73DC1683]
    else if row == 0x88 then
      [0xE3630B12, 0x94643B84, 0x0D6D6A3E, 0x7A6A5AA8, 0xE40ECF0B, 0x9309FF9D, 0x0A00AE27, 0x7D079EB1]
    else if row == 0x90 then
      [0xF00F9344, 0x8708A3D2, 0x1E01F268, 0x6906C2FE, 0xF762575D, 0x806567CB, 0x196C3671, 0x6E6B06E7]
    else [0xFED41B76, 0x89D32BE0, 0x10DA7A5A, 0x67DD4ACC, 0xF9B9DF6F, 0x8EBEEFF9, 0x17B7BE43, 0x60B08ED5]
  }

  function Rows5(row: bv32): (r: seq<bv32>)
    ensures |r| == 8
  {
    if row == 0xA0 then [0xD6D6A3E8, 0xA1D1937E, 0x38D8C2C4, 0x4FDFF252, 0xD1BB67F1, 0xA6BC5767, 0x3FB506DD, 0x48B2364B]
    else if row == 0xA8 then
      [0xD80D2BDA, 0xAF0A1B4C, 0x36034AF6, 0x41047A60, 0xDF60EFC3, 0xA867DF55, 0x316E8EEF, 0x4669BE79]
    else if row == 0xB0 then
      [0xCB61B38C, 0xBC66831A, 0x256FD2A0, 0x5268E236, 0xCC0C7795, 0xBB0B4703, 0x220216B9, 0x5505262F]
    else [0xC5BA3BBE, 0xB2BD0B28, 0x2BB45A92, 0x5CB36A04, 0xC2D7FFA7, 0xB5D0CF31, 0x2CD99E8B, 0x5BDEAE1D]
  }

  function Rows6(row: bv32): (r: seq<bv32>)
    ensures |r| == 8
  {
    if row == 0xC0 then [0x9B64C2B0, 0xEC63F226, 0x756AA39C, 0x026D930A, 0x9C0906A9, 0xEB0E363F, 0x72076785, 0x05005713]
    else if row == 0xC8 then
      [0x95BF4A82, 0xE2B87A14, 0x7BB12BAE, 0x0CB61B38, 0x92D28E9B, 0xE5D5BE0D, 0x7CDCEFB7, 0x0BDBDF21]
    else if row == 0xD0 then
      [0x86D3D2D4, 0xF1D4E242, 0x68DDB3F8, 0x1FDA836E, 0x81BE16CD, 0xF6B9265B, 0x6FB077E1, 0x18B74777]
    else [0x88085AE6, 0xFF0F6A70, 0x66063BCA, 0x11010B5C, 0x8F659EFF, 0xF862AE69, 0x616BFFD3, 0x166CCF45]
  }

  function Rows7(row: bv32): (r: seq<bv32>)
    ensures |r| == 8
  {
    if row == 0xE0 then [0xA00AE278, 0xD70DD2EE, 0x4E048354, 0x3903B3C2, 0xA7672661, 0xD06016F7, 0x4969474D, 0x3E6E77DB]
    else if row == 0xE8 then
      [0xAED16A4A, 0xD9D65ADC, 0x40DF0B66, 0x37D83BF0, 0xA9BCAE53, 0xDEBB9EC5, 0x47B2CF7F, 0x30B5FFE9]
    else if row == 0xF0 then
      [0xBDBDF21C, 0xCABAC28A, 0x53B39330, 0x24B4A3A6, 0xBAD03605, 0xCDD70693, 0x54DE5729, 0x23D967BF]
    else [0xB3667A2E, 0xC4614AB8, 0x5D681B02, 0x2A6F2B94, 0xB40BBE37, 0xC30C8EA1, 0x5A05DF1B, 0x2D02EF8D]
  }


  /** Columns of a row are the first column and the columns of row 0. */
  predicate RowAgrees(r: seq<bv32>, row: bv32) {
    var z := Rows0(0);
    |r| == 8 && |z| == 8 && r[0] == Shifts(row, 8)
    && r[1] == Xor(r[0], z[1]) && r[2] == Xor(r[0], z[2]) && r[3] == Xor(r[0], z[3]) && r[4] == Xor(r[0], z[4])
    && r[5] == Xor(r[0], z[5]) && r[6] == Xor(r[0], z[6]) && r[7] == Xor(r[0], z[7])
  }

  lemma Agrees0(row: bv32)
    requires row in {0x00, 0x08, 0x10, 0x18}
    ensures RowAgrees(Rows0(row), row)
  {
  }

  lemma Agrees1(row: bv32)
    requires row in {0x20, 0x28, 0x30, 0x38}
    ensures RowAgrees(Rows1(row), row)
  {
  }

  lemma Agrees2(row: bv32)
    requires row in {0x40, 0x48, 0x50, 0x58}
    ensures RowAgrees(Rows2(row), row)
  {
  }

  lemma Agrees3(row: bv32)
    requires row in {0x60, 0x68, 0x70, 0x78}
    ensures RowAgrees(Rows3(row), row)
  {
  }

  lemma Agrees4(row: bv32)
    requires row in {0x80, 0x88, 0x90, 0x98}
    ensures RowAgrees(Rows4(row), row)
  {
  }

  lemma Agrees5(row: bv32)
    requires row in {0xA0, 0xA8, 0xB0, 0xB8}
    ensures RowAgrees(Rows5(row), row)
  {
  }

  lemma Agrees6(row: bv32)
    requires row in {0xC0, 0xC8, 0xD0, 0xD8}
    ensures RowAgrees(Rows6(row), row)
  {
  }

  lemma Agrees7(row: bv32)
    requires row in {0xE0, 0xE8, 0xF0, 0xF8}
    ensures RowAgrees(Rows7(row), row)
  {
  }

  function Row(row: bv32): (r: seq<bv32>)
    ensures |r| == 8
  {
    if row < 0x20 then Rows0(row) else if row < 0x40 then Rows1(row)
    else if row < 0x60 then Rows2(row) else if row < 0x80 then Rows3(row)
    else if row < 0xA0 then Rows4(row) else if row < 0xC0 then Rows5(row)
    else if row < 0xE0 then Rows6(row) else Rows7(row)
  }

  /** crc32_table, in rows of eight as it is listed. */
  function Table(i: bv32): bv32 { Row(i & 0xF8)[Column(i)] }

  function Column(i: bv32): (k: nat)
    ensures k < 8
  {
    (i & 7) as nat
  }

  // ---------- The table holds eight bit steps of its index ----------

  lemma OddXor(a: bv32, b: bv32)
    ensures Odd(Xor(a, b)) == (Odd(a) != Odd(b))
  {
  }

  lemma HalfXor(a: bv32, b: bv32)
    ensures Half(Xor(a, b)) == Xor(Half(a), Half(b))
  {
  }

  lemma XorAssociates(x: bv32, y: bv32, p: bv32)
    ensures Xor(Xor(x, y), p) == Xor(x, Xor(y, p))
  {
  }

  lemma XorCommutes(x: bv32, y: bv32)
    ensures Xor(x, y) == Xor(y, x)
  {
  }

  lemma XorSwaps(x: bv32, y: bv32, p: bv32)
    ensures Xor(Xor(x, y), p) == Xor(Xor(x, p), y)
  {
    hide Xor;
    XorAssociates(x, y, p);
    XorAssociates(x, p, y);
    XorCommutes(y, p);
  }

  lemma XorCancels(y: bv32, p: bv32)
    ensures Xor(p, Xor(y, p)) == y
  {
  }

  lemma XorLaws(x: bv32, y: bv32, p: bv32)
    ensures Xor(Xor(x, p), Xor(y, p)) == Xor(x, y)
    ensures Xor(Xor(x, y), p) == Xor(Xor(x, p), y) == Xor(x, Xor(y, p))
  {
    hide Xor;
    XorAssociates(x, p, Xor(y, p));
    XorCancels(y, p);
    XorSwaps(x, y, p);
    XorAssociates(x, y, p);
  }

  /** The bit step is linear. */
  lemma ShiftXor(a: bv32, b: bv32)
    ensures Shift(Xor(a, b)) == Xor(Shift(a), Shift(b))
  {
    hide Xor, Half, Odd;
    OddXor(a, b);
    HalfXor(a, b);
    XorLaws(Half(a), Half(b), POLYNOMIAL);
  }

  lemma {:induction false} ShiftsXor(a: bv32, b: bv32, n: nat)
    ensures Shifts(Xor(a, b), n) == Xor(Shifts(a, n), Shifts(b, n))
    decreases n
  {
    hide Xor, Shift;
    if n > 0 {
      ShiftXor(a, b);
      ShiftsXor(Shift(a), Shift(b), n - 1);
    }
  }

  lemma RowsAgree(row: bv32)
    requires row & 7 == 0 && row <= 0xF8
    ensures RowAgrees(Row(row), row)
  {
    hide Rows0, Rows1, Rows2, Rows3, Rows4, Rows5, Rows6, Rows7, RowAgrees;
    if row < 0x20 { Agrees0(row); }
    else if row < 0x40 { Agrees1(row); }
    else if row < 0x60 { Agrees2(row); }
    else if row < 0x80 { Agrees3(row); }
    else if row < 0xA0 { Agrees4(row); }
    else if row < 0xC0 { Agrees5(row); }
    else if row < 0xE0 { Agrees6(row); }
    else { Agrees7(row); }
  }

  lemma FirstRow()
    ensures var z := Rows0(0);
            z[0] == Shifts(0, 8) && z[1] == Shifts(1, 8) && z[2] == Shifts(2, 8) && z[3] == Shifts(3, 8) &&
            z[4] == Shifts(4, 8) && z[5] == Shifts(5, 8) && z[6] == Shifts(6, 8) && z[7] == Shifts(7, 8)
  {
  }

  lemma Split(i: bv32)
    requires i < 256
    ensures i == Xor(i & 0xF8, i & 7) && (i & 0xF8) & 7 == 0 && i & 0xF8 <= 0xF8
    ensures i & 7 in {0, 1, 2, 3, 4, 5, 6, 7}
  {
  }

  lemma Zero(x: bv32)
    ensures Shifts(0, 8) == 0 && Xor(x, 0) == x
  {
  }

  lemma ColumnValue(i: bv32)
    ensures i & 7 == 0 ==> Column(i) == 0
    ensures i & 7 == 1 ==> Column(i) == 1
    ensures i & 7 == 2 ==> Column(i) == 2
    ensures i & 7 == 3 ==> Column(i) == 3
    ensures i & 7 == 4 ==> Column(i) == 4
    ensures i & 7 == 5 ==> Column(i) == 5
    ensures i & 7 == 6 ==> Column(i) == 6
    ensures i & 7 == 7 ==> Column(i) == 7
  {
  }

  lemma ColumnIs(r: seq<bv32>, row: bv32, i: bv32, low: bv32)
    requires RowAgrees(r, row) && low == i & 7 && low in {0, 1, 2, 3, 4, 5, 6, 7}
    ensures r[Column(i)] == Xor(Shifts(row, 8), Shifts(low, 8))
  {
    hide Rows0, Shifts, Column;
    FirstRow();
    ColumnValue(i);
    Zero(r[0]);
  }

  /** crc32_table[i] is what eight bit steps make of i. */
  lemma TableIsShifts(i: bv32)
    requires i < 256
    ensures Table(i) == Shifts(i, 8)
  {
    hide Row, RowAgrees, Column, Shifts, Xor;
    var row, low := i & 0xF8, i & 7;
    Split(i);
    RowsAgree(row);
    ColumnIs(Row(row), row, i, low);
    ShiftsXor(row, low, 8);
  }

  // ---------- One byte ----------

  /** The application's step: eight bit steps after mixing in the byte. */
  function BitByte(crc: bv32, b: bv8): bv32 { Shifts(Xor(crc, b as bv32), 8) }

  function Low(c: bv32): bv32 { c & 0xFF }

  function High(c: bv32): bv32 { c & 0xFFFFFF00 }

  function Rest(c: bv32): bv32 { c >> 8 }

  /** The bootloader's step: a table entry for the low byte, and the other bytes moved down. */
  function TableByte(crc: bv32, b: bv8): bv32 {
    Xor(Table(Low(Xor(crc, b as bv32))), Rest(crc))
  }

  /** Without a set bit among the low eight, eight steps only shift. */
  lemma HighShifts(c: bv32)
    ensures Shifts(High(c), 8) == Rest(c)
  {
  }

  lemma LowHigh(x: bv32)
    ensures x == Xor(Low(x), High(x)) && Low(x) < 256
  {
  }

  lemma RestIgnoresByte(crc: bv32, b: bv8)
    ensures Rest(Xor(crc, b as bv32)) == Rest(crc)
  {
  }

  lemma Combine(x: bv32, low: bv32, high: bv32, half: bv32)
    requires x == Xor(low, high) && low < 256 && Shifts(high, 8) == half
    ensures Xor(Table(low), half) == Shifts(x, 8)
  {
    hide Table, Shifts, Xor;
    TableIsShifts(low);
    ShiftsXor(low, high, 8);
  }

  /** Table step and bit step agree on every byte. */
  lemma ByteStepsAgree(crc: bv32, b: bv8)
    ensures TableByte(crc, b) == BitByte(crc, b)
  {
    hide Table, Shifts, Xor, Low, High, Rest;
    var x := Xor(crc, b as bv32);
    RestIgnoresByte(crc, b);
    LowHigh(x);
    HighShifts(x);
    Combine(x, Low(x), High(x), Rest(crc));
  }

  // ---------- Byte strings ----------

  /** The running CRC of the application after more bytes. */
  function BitCrc(crc: bv32, data: seq<bv8>): bv32 {
    if data == [] then crc else BitByte(BitCrc(crc, data[..|data| - 1]), data[|data| - 1])
  }

  /** The running CRC of the bootloader. */
  function TableCrc(crc: bv32, data: seq<bv8>): bv32 {
    if data == [] then crc else TableByte(TableCrc(crc, data[..|data| - 1]), data[|data| - 1])
  }

  lemma NoBytes(crc: bv32)
    ensures BitCrc(crc, []) == crc
  {
  }

  /** The bootloader computes the application's CRC. */
  lemma {:induction false} CrcsAgree(crc: bv32, data: seq<bv8>)
    ensures TableCrc(crc, data) == BitCrc(crc, data)
  {
    hide TableByte, BitByte;
    if data != [] {
      CrcsAgree(crc, data[..|data| - 1]);
      ByteStepsAgree(BitCrc(crc, data[..|data| - 1]), data[|data| - 1]);
    }
  }

  /** Accumulating packet by packet is accumulating the whole. */
  lemma {:induction false} BitCrcOfPackets(crc: bv32, a: seq<bv8>, b: seq<bv8>)
    ensures BitCrc(crc, a + b) == BitCrc(BitCrc(crc, a), b)
  {
    hide BitByte;
    if b == [] {
      assert a + b == a;
    } else {
      var n := |b| - 1;
      assert (a + b)[..|a + b| - 1] == a + b[..n] && (a + b)[|a + b| - 1] == b[n];
      BitCrcOfPackets(crc, a, b[..n]);
    }
  }

  /** The CRC-32 recorded in the upgrade flag. */
  function Crc(data: seq<bv8>): bv32 { Xor(BitCrc(0xFFFFFFFF, data), 0xFFFFFFFF) }

  // ---------- The loops ----------

  /** fw_upg_crc32_update. */
  method UpdateCrc(start: bv32, data: seq<bv8>) returns (crc: bv32)
    ensures crc == BitCrc(start, data)
  {
    hide Xor, Half, Odd;
    crc := start;
    for i := 0 to |data|
      invariant crc == BitCrc(start, data[..i])
    {
      ghost var before := crc;
      crc := Xor(crc, data[i] as bv32);
      ghost var mixed := crc;
      for j := 0 to 8
        invariant Shifts(crc, 8 - j) == Shifts(mixed, 8)
      {
        if Odd(crc) {
          crc := Xor(Half(crc), POLYNOMIAL);
        } else {
          crc := Half(crc);
        }
      }
      assert crc == BitByte(before, data[i]);
      assert data[..i + 1][..i] == data[..i];
    }
    assert data[..|data|] == data;
  }

  /** FW_BOOT_CalculateCRC32. */
  method CalculateCrc(data: seq<bv8>) returns (crc: bv32)
    ensures crc == Crc(data)
  {
    hide TableByte, BitByte, Xor;
    crc := 0xFFFFFFFF;
    for i := 0 to |data|
      invariant crc == TableCrc(0xFFFFFFFF, data[..i])
    {
      assert data[..i + 1][..i] == data[..i];
      crc := TableByte(crc, data[i]);
    }
    assert data[..|data|] == data;
    CrcsAgree(0xFFFFFFFF, data);
    crc := Xor(crc, 0xFFFFFFFF);
  }

  lemma IndexIsByte(k: nat)
    requires k < 256
    ensures k as bv32 < 256
  {
  }

  /** The generator of the listing: its 256 entries are crc32_table. */
  method GenerateTable() returns (entries: seq<bv32>)
    ensures |entries| == 256 && forall k: nat :: k < 256 ==> entries[k] == Table(k as bv32)
  {
    hide Table, Xor, Half, Odd;
    entries := [];
    for i := 0 to 256
      invariant |entries| == i
      invariant forall k: nat :: k < i ==> entries[k] == Table(k as bv32)
    {
      var crc := i as bv32;
      for j := 0 to 8
        invariant Shifts(crc, 8 - j) == Shifts(i as bv32, 8)
      {
        if Odd(crc) {
          crc := Xor(Half(crc), POLYNOMIAL);
        } else {
          crc := Half(crc);
        }
      }
      IndexIsByte(i);
      TableIsShifts(i as bv32);
      entries := entries + [crc];
    }
  }
}
