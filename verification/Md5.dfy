/** The MD5 digest of RFC 1321, computed incrementally over a 64-byte buffer. */
module Md5 {
  import opened Common

  const BLOCK: nat := 64

  const SINES: seq<bv32> := [
    0xd76aa478, 0xe8c7b756, 0x242070db, 0xc1bdceee,
    0xf57c0faf, 0x4787c62a, 0xa8304613, 0xfd469501,
    0x698098d8, 0x8b44f7af, 0xffff5bb1, 0x895cd7be,
    0x6b901122, 0xfd987193, 0xa679438e, 0x49b40821,
    0xf61e2562, 0xc040b340, 0x265e5a51, 0xe9b6c7aa,
    0xd62f105d, 0x02441453, 0xd8a1e681, 0xe7d3fbc8,
    0x21e1cde6, 0xc33707d6, 0xf4d50d87, 0x455a14ed,
    0xa9e3e905, 0xfcefa3f8, 0x676f02d9, 0x8d2a4c8a,
    0xfffa3942, 0x8771f681, 0x6d9d6122, 0xfde5380c,
    0xa4beea44, 0x4bdecfa9, 0xf6bb4b60, 0xbebfbc70,
    0x289b7ec6, 0xeaa127fa, 0xd4ef3085, 0x04881d05,
    0xd9d4d039, 0xe6db99e5, 0x1fa27cf8, 0xc4ac5665,
    0xf4292244, 0x432aff97, 0xab9423a7, 0xfc93a039,
    0x655b59c3, 0x8f0ccc92, 0xffeff47d, 0x85845dd1,
    0x6fa87e4f, 0xfe2ce6e0, 0xa3014314, 0x4e0811a1,
    0xf7537e82, 0xbd3af235, 0x2ad7d2bb, 0xeb86d391
  ]

  datatype Chain = Chain(a: bv32, b: bv32, c: bv32, d: bv32)

  const INITIAL := Chain(0x67452301, 0xefcdab89, 0x98badcfe, 0x10325476)

  // ---------- The block function ----------

  function Rotation(i: nat): (n: nat)
    requires i < 64
    ensures n < 32
  {
    if i < 16 then [7, 12, 17, 22][i % 4]
    else if i < 32 then [5, 9, 14, 20][i % 4]
    else if i < 48 then [4, 11, 16, 23][i % 4]
    else [6, 10, 15, 21][i % 4]
  }

  function RotateLeft(x: bv32, n: nat): bv32
    requires n < 32
  {
    (x << n) | (x >> (32 - n))
  }

  /** The round function of step i, and the word it takes. */
  function Mixed(i: nat, b: bv32, c: bv32, d: bv32): bv32
    requires i < 64
  {
    if i < 16 then (b & c) | (!b & d)
    else if i < 32 then (b & d) | (c & !d)
    else if i < 48 then b ^ c ^ d
    else c ^ (b | !d)
  }

  function WordIndex(i: nat): (g: nat)
    requires i < 64
    ensures g < 16
  {
    if i < 16 then i
    else if i < 32 then (5 * i + 1) % 16
    else if i < 48 then (3 * i + 5) % 16
    else (7 * i) % 16
  }

  /** The sum of four words, rotated and added to a fifth. */
  function Turned(mixed: bv32, a: bv32, sine: bv32, word: bv32, b: bv32, n: nat): bv32
    requires n < 32
  {
    b + RotateLeft(mixed + a + sine + word, n)
  }

  function Step(s: Chain, i: nat, x: seq<bv32>): Chain
    requires i < 64 && |x| == 16
  {
    Chain(s.d, Turned(Mixed(i, s.b, s.c, s.d), s.a, SINES[i], x[WordIndex(i)], s.b, Rotation(i)), s.b, s.c)
  }

  function Steps(s: Chain, x: seq<bv32>, n: nat): Chain
    requires n <= 64 && |x| == 16
  {
    if n == 0 then s else Step(Steps(s, x, n - 1), n - 1, x)
  }

  function LittleEndian(block: seq<bv8>, i: nat): bv32
    requires 4 * i + 4 <= |block|
  {
    (block[4 * i] as bv32) | ((block[4 * i + 1] as bv32) << 8) |
    ((block[4 * i + 2] as bv32) << 16) | ((block[4 * i + 3] as bv32) << 24)
  }

  function Words(block: seq<bv8>): (x: seq<bv32>)
    requires |block| == BLOCK
    ensures |x| == 16 && forall i :: 0 <= i < 16 ==> x[i] == LittleEndian(block, i)
  {
    seq(16, i requires 0 <= i < 16 => LittleEndian(block, i))
  }

  function Added(s: Chain, t: Chain): Chain { Chain(s.a + t.a, s.b + t.b, s.c + t.c, s.d + t.d) }

  function Transform(s: Chain, block: seq<bv8>): Chain
    requires |block| == BLOCK
  {
    Added(s, Steps(s, Words(block), 64))
  }

  // ---------- The definition: fold over the padded message ----------

  /** The block function folded over whole blocks. */
  function Fold(s: Chain, m: seq<bv8>): Chain
    requires |m| % 64 == 0
  {
    if m == [] then s else Transform(Fold(s, m[..|m| - BLOCK]), m[|m| - BLOCK..])
  }

  lemma FoldNothing(s: Chain)
    ensures Fold(s, []) == s
  {
  }

  lemma FoldLast(s: Chain, m: seq<bv8>, block: seq<bv8>)
    requires |m| % 64 == 0 && |block| == BLOCK
    ensures |m + block| % 64 == 0 && Fold(s, m + block) == Transform(Fold(s, m), block)
  {
    hide Transform;
    var all := m + block;
    assert all[..|all| - BLOCK] == m && all[|all| - BLOCK..] == block;
  }

  lemma {:induction false} FoldConcat(s: Chain, a: seq<bv8>, b: seq<bv8>)
    requires |a| % 64 == 0 && |b| % 64 == 0
    ensures |a + b| % 64 == 0 && Fold(s, a + b) == Fold(Fold(s, a), b)
  {
    hide Fold, Transform;
    if b == [] {
      assert a + b == a;
      FoldNothing(Fold(s, a));
    } else {
      var front, last := b[..|b| - BLOCK], b[|b| - BLOCK..];
      FoldConcat(s, a, front);
      FoldLast(s, a + front, last);
      FoldLast(Fold(s, a), front, last);
      assert a + b == a + front + last && b == front + last;
    }
  }

  lemma FoldOne(s: Chain, block: seq<bv8>)
    requires |block| == BLOCK
    ensures Fold(s, block) == Transform(s, block)
  {
    hide Transform;
    assert block[..0] == [] && block[0..] == block;
    assert Fold(s, []) == s;
  }

  /** Byte i of a number, low byte first. */
  function LengthByte(bits: nat, i: nat): bv8 {
    if i == 0 then Byte(bits) else LengthByte(bits / 256, i - 1)
  }

  function LengthBytes(bits: nat): (r: seq<bv8>)
    ensures |r| == 8 && forall i :: 0 <= i < 8 ==> r[i] == LengthByte(bits, i)
  {
    seq(8, i requires 0 <= i < 8 => LengthByte(bits, i))
  }

  function Byte(n: nat): bv8 { (n % 256) as bv8 }

  function Zeros(n: nat): (r: seq<bv8>)
    ensures |r| == n && forall i :: 0 <= i < n ==> r[i] == 0
  {
    seq(n, _ => 0)
  }

  predicate LeavesRoomForLength(n: nat) { n % 64 == 56 }

  function ZeroCount(n: nat): (k: nat)
    ensures k < BLOCK
  {
    if n % 64 < 56 then 55 - n % 64 else 119 - n % 64
  }

  lemma ModIs(t: nat, q: nat, y: nat)
    requires t == 64 * q + y && y < 64
    ensures t % 64 == y
  {
  }

  /** RFC 1321 section 3.1: after a one bit, as few zeros as make the length 56 modulo 64. */
  lemma ZerosAreLeast(n: nat)
    ensures LeavesRoomForLength(n + 1 + ZeroCount(n))
    ensures forall t :: n + 1 <= t < n + 1 + ZeroCount(n) ==> !LeavesRoomForLength(t)
  {
    var q, r := n / 64, n % 64;
    if r < 56 {
      ModIs(n + 1 + ZeroCount(n), q, 56);
    } else {
      ModIs(n + 1 + ZeroCount(n), q + 1, 56);
    }
    forall t | n + 1 <= t < n + 1 + ZeroCount(n) ensures !LeavesRoomForLength(t) {
      var y := r + (t - n);
      if y < 64 { ModIs(t, q, y); } else { ModIs(t, q + 1, y - 64); }
    }
  }

  /** Section 3.2: the length in bits modulo 2^64. */
  function BitLength(n: nat): nat { 8 * n % 0x1_0000_0000_0000_0000 }

  function Padding(n: nat): (r: seq<bv8>)
    ensures |r| == 1 + ZeroCount(n) + 8
  {
    [0x80 as bv8] + Zeros(ZeroCount(n)) + LengthBytes(BitLength(n))
  }

  /** The padded message ends on a block boundary. */
  lemma PaddedIsBlocks(n: nat)
    ensures (n + |Padding(n)|) % 64 == 0
  {
    hide Padding, ZeroCount;
    ZerosAreLeast(n);
  }

  function WordBytes(w: bv32): (r: seq<bv8>)
    ensures |r| == 4
  {
    [(w & 0xFF) as bv8, ((w >> 8) & 0xFF) as bv8, ((w >> 16) & 0xFF) as bv8, ((w >> 24) & 0xFF) as bv8]
  }

  function Output(s: Chain): (md: seq<bv8>)
    ensures |md| == 16
  {
    WordBytes(s.a) + WordBytes(s.b) + WordBytes(s.c) + WordBytes(s.d)
  }

  lemma WordReads(w: bv32)
    ensures LittleEndian(WordBytes(w), 0) == w
  {
  }

  /** The output is the four registers, low byte first, as the words of a block are read. */
  lemma OutputReads(s: Chain)
    ensures LittleEndian(Output(s), 0) == s.a && LittleEndian(Output(s), 1) == s.b
    ensures LittleEndian(Output(s), 2) == s.c && LittleEndian(Output(s), 3) == s.d
  {
    hide WordBytes;
    WordReads(s.a);
    WordReads(s.b);
    WordReads(s.c);
    WordReads(s.d);
    SameWord(Output(s), 0, WordBytes(s.a));
    SameWord(Output(s), 1, WordBytes(s.b));
    SameWord(Output(s), 2, WordBytes(s.c));
    SameWord(Output(s), 3, WordBytes(s.d));
  }

  lemma SameWord(s: seq<bv8>, i: nat, t: seq<bv8>)
    requires |t| == 4 && 4 * i + 4 <= |s| && s[4 * i..4 * i + 4] == t
    ensures LittleEndian(s, i) == LittleEndian(t, 0)
  {
    assert s[4 * i] == t[0] && s[4 * i + 1] == t[1] && s[4 * i + 2] == t[2] && s[4 * i + 3] == t[3];
  }

  function Padded(m: seq<bv8>): (r: seq<bv8>)
    ensures |r| % 64 == 0
  {
    PaddedIsBlocks(|m|);
    m + Padding(|m|)
  }

  function Digest(m: seq<bv8>): (md: seq<bv8>)
    ensures |md| == 16
  {
    Output(Fold(INITIAL, Padded(m)))
  }

  // ---------- The context ----------

  /** The whole blocks of a message, and what is left. */
  function Whole(n: nat): (k: nat)
    ensures k <= n < k + BLOCK && k % 64 == 0
  {
    n - n % 64
  }

  class Context {
    var chain: Chain
    var low: nat
    var high: nat
    const data: array<bv8>
    var num: nat
    /** Everything that was fed in. */
    ghost var fed: seq<bv8>

    /** The blocks are folded, the rest is in the buffer, and the two counters are the bit length. */
    ghost predicate Valid()
      reads this, data
    {
      data.Length == BLOCK && low < 0x1_0000_0000 && high < 0x1_0000_0000 && Counts(|fed|) && Holds(fed)
    }

    ghost predicate Counts(n: nat)
      reads this`low, this`high
    {
      high * 0x1_0000_0000 + low == BitLength(n)
    }

    ghost predicate Holds(m: seq<bv8>)
      reads this`chain, this`num, data
    {
      data.Length == BLOCK && num == |m| - Whole(|m|) && chain == Fold(INITIAL, m[..Whole(|m|)]) &&
      data[..num] == m[Whole(|m|)..]
    }

    /** MD5_Init. */
    constructor ()
      ensures Valid() && fresh(data) && fed == []
    {
      chain, low, high, num, fed := INITIAL, 0, 0, 0, [];
      data := new bv8[BLOCK];
    }

    /** md5_transform. */
    method Apply(block: seq<bv8>)
      requires |block| == BLOCK
      modifies this`chain
      ensures chain == Transform(old(chain), block)
    {
      hide LittleEndian, Step;
      var x := Words(block);
      var s := chain;
      for i := 0 to 64
        invariant s == Steps(chain, x, i)
      {
        s := Step(s, i, x);
      }
      chain := Added(chain, s);
    }

    /** The bit length in two 32-bit counters. */
    method Count(len: nat)
      requires low < 0x1_0000_0000 && high < 0x1_0000_0000 && len < 0x1_0000_0000 && Counts(|fed|)
      modifies this`low, this`high
      ensures low < 0x1_0000_0000 && high < 0x1_0000_0000 && Counts(|fed| + len)
    {
      hide BitLength;
      var shifted := len * 8 % 0x1_0000_0000;
      var nl := (low + shifted) % 0x1_0000_0000;
      var nh := high;
      if nl < low { nh := (nh + 1) % 0x1_0000_0000; }
      nh := (nh + len / 0x2000_0000) % 0x1_0000_0000;
      CountsOn(low, high, len, |fed|);
      low, high := nl, nh;
    }

    /** memcpy to the end of the buffered bytes. */
    method CopyIn(bytes: seq<bv8>)
      requires data.Length == BLOCK && num + |bytes| <= BLOCK
      modifies this`num, data
      ensures num == old(num) + |bytes| && data[..num] == old(data[..num]) + bytes
    {
      for i := 0 to |bytes|
        invariant num == old(num) && data[..num + i] == old(data[..num]) + bytes[..i]
      {
        data[num + i] := bytes[i];
        assert data[..num + i + 1] == data[..num + i] + [bytes[i]];
        assert bytes[..i + 1] == bytes[..i] + [bytes[i]];
      }
      assert bytes[..|bytes|] == bytes;
      num := num + |bytes|;
    }

    /** MD5_Update. */
    method Update(input: seq<bv8>)
      requires Valid() && |input| < 0x1_0000_0000
      modifies this, data
      ensures Valid() && fed == old(fed) + input
    {
      hide Transform, Fold, BitLength, Whole;
      Count(|input|);
      var part := BLOCK - num;
      ghost var all := fed + input;
      if |input| < part {
        StaysBuffered(fed, input);
        CopyIn(input);
        fed := all;
      } else {
        ghost var k := Whole(|fed|) + BLOCK;
        Fills(fed, input);
        CopyIn(input[..part]);
        assert data[..] == data[..num];
        Apply(data[..]);
        OneMore(all, k - BLOCK, data[..]);
        assert input[part..] == all[k..];
        TakeBlocks(input[part..], all, k);
        fed := all;
      }
    }

    /** The blocks of the rest of the input, and what stays in the buffer. */
    method TakeBlocks(rest: seq<bv8>, ghost all: seq<bv8>, ghost start: nat)
      requires data.Length == BLOCK && start % 64 == 0 && start <= |all| && rest == all[start..] &&
               chain == Fold(INITIAL, all[..start])
      modifies this`chain, this`num, data
      ensures Holds(all)
    {
      hide Transform, Fold, Whole;
      var p := 0;
      while |rest| - p >= BLOCK
        invariant p <= |rest| && p % 64 == 0 && chain == Fold(INITIAL, all[..start + p])
      {
        Apply(rest[p..p + BLOCK]);
        OneMore(all, start + p, rest[p..p + BLOCK]);
        p := p + BLOCK;
      }
      num := 0;
      CopyIn(rest[p..]);
      assert data[..num] == all[start + p..];
      WholeIs(|all|, start + p);
    }

    /** MD5_Final. */
    method Final() returns (md: seq<bv8>)
      requires Valid()
      modifies this, data
      ensures md == Digest(old(fed))
    {
      hide Transform, Fold, BitLength, Padding, Output, LengthByte;
      var bitLength := high * 0x1_0000_0000 + low;
      var pad := if num < BLOCK - 8 then BLOCK - 8 - num else BLOCK + BLOCK - 8 - num;
      var tail := Zeros(72)[0 := 0x80];
      for i := 0 to 8
        invariant |tail| == 72 && tail[0] == 0x80 && (forall j :: 1 <= j < pad ==> tail[j] == 0)
        invariant forall j :: 0 <= j < i ==> tail[pad + j] == LengthByte(bitLength, j)
      {
        tail := tail[pad + i := LengthByte(bitLength, i)];
      }
      TailIsPadding(|fed|, pad, tail);
      PaddedIsBlocks(|fed|);
      Update(tail[..pad + 8]);
      assert fed[..|fed|] == fed;
      md := Output(chain);
      chain, low, high, num := Chain(0, 0, 0, 0), 0, 0, 0;
      forall i | 0 <= i < data.Length { data[i] := 0; }
    }
  }

  lemma WholeIs(n: nat, k: nat)
    requires k % 64 == 0 && k <= n < k + BLOCK
    ensures Whole(n) == k
  {
  }

  lemma StaysBuffered(m: seq<bv8>, input: seq<bv8>)
    requires |m| - Whole(|m|) + |input| < BLOCK
    ensures Whole(|m + input|) == Whole(|m|)
    ensures (m + input)[..Whole(|m|)] == m[..Whole(|m|)] && (m + input)[Whole(|m|)..] == m[Whole(|m|)..] + input
  {
  }

  lemma Fills(m: seq<bv8>, input: seq<bv8>)
    requires |m| - Whole(|m|) + |input| >= BLOCK
    ensures var k := Whole(|m|); var part := BLOCK - (|m| - k); var all := m + input;
            part <= |input| && k + BLOCK <= |all| && k % 64 == 0 && all[..k] == m[..k] &&
            all[k..k + BLOCK] == m[k..] + input[..part] && all[k + BLOCK..] == input[part..]
  {
  }

  /** Folding one more block. */
  lemma OneMore(all: seq<bv8>, k: nat, block: seq<bv8>)
    requires k % 64 == 0 && k + BLOCK <= |all| && block == all[k..k + BLOCK]
    ensures Fold(INITIAL, all[..k + BLOCK]) == Transform(Fold(INITIAL, all[..k]), block)
  {
    hide Transform;
    FoldOne(Fold(INITIAL, all[..k]), block);
    FoldConcat(INITIAL, all[..k], block);
    assert all[..k] + block == all[..k + BLOCK];
  }

  lemma TailIsPadding(n: nat, pad: nat, tail: seq<bv8>)
    requires pad == (if n % 64 < 56 then 56 - n % 64 else 120 - n % 64) && |tail| == 72 && tail[0] == 0x80
    requires forall j :: 1 <= j < pad ==> tail[j] == 0
    requires forall j :: 0 <= j < 8 ==> tail[pad + j] == LengthByte(BitLength(n), j)
    ensures tail[..pad + 8] == Padding(n)
  {
    hide BitLength, LengthByte;
    assert ZeroCount(n) == pad - 1;
    var r := Padding(n);
    forall i | 0 <= i < pad + 8 ensures tail[i] == r[i] {
      if i >= pad { assert tail[pad + (i - pad)] == LengthByte(BitLength(n), i - pad); }
    }
  }

  lemma Remainder(x: nat, q: nat, y: nat)
    requires x == q * 0x1_0000_0000_0000_0000 + y && y < 0x1_0000_0000_0000_0000
    ensures x % 0x1_0000_0000_0000_0000 == y
  {
  }

  /** Adding in two words: the carry out of the low one. */
  lemma AddLow(low: nat, shifted: nat)
    requires low < 0x1_0000_0000 && shifted < 0x1_0000_0000
    ensures var nl := (low + shifted) % 0x1_0000_0000; low + shifted == (if nl < low then 1 else 0) * 0x1_0000_0000 + nl
  {
  }

  lemma AddHigh(high: nat, carry: nat, upper: nat)
    requires high < 0x1_0000_0000 && carry <= 1
    ensures ((high + carry) % 0x1_0000_0000 + upper) % 0x1_0000_0000 == (high + carry + upper) % 0x1_0000_0000
  {
  }

  lemma Shifted(len: nat)
    requires len < 0x1_0000_0000
    ensures len * 8 == len / 0x2000_0000 * 0x1_0000_0000 + len * 8 % 0x1_0000_0000
  {
    var q, r := len / 0x2000_0000, len % 0x2000_0000;
    assert len * 8 == q * 0x1_0000_0000 + 8 * r && 8 * r < 0x1_0000_0000;
  }

  /** Low and high word with carry, and the bits shifted out of the length: the bit count modulo 2^64. */
  lemma CountsOn(low: nat, high: nat, len: nat, n: nat)
    requires low < 0x1_0000_0000 && high < 0x1_0000_0000 && len < 0x1_0000_0000
    requires high * 0x1_0000_0000 + low == BitLength(n)
    ensures var nl := (low + len * 8 % 0x1_0000_0000) % 0x1_0000_0000;
            var carried := if nl < low then (high + 1) % 0x1_0000_0000 else high;
            (carried + len / 0x2000_0000) % 0x1_0000_0000 * 0x1_0000_0000 + nl == BitLength(n + len)
  {
    var shifted, upper := len * 8 % 0x1_0000_0000, len / 0x2000_0000;
    Shifted(len);
    AddLow(low, shifted);
    var nl := (low + shifted) % 0x1_0000_0000;
    var carry := if nl < low then 1 else 0;
    AddHigh(high, carry, upper);
    Summed(n, len, low, high, shifted, upper, nl, carry);
  }

  lemma Summed(n: nat, len: nat, low: nat, high: nat, shifted: nat, upper: nat, nl: nat, carry: nat)
    requires high * 0x1_0000_0000 + low == BitLength(n) && nl < 0x1_0000_0000
    requires len * 8 == upper * 0x1_0000_0000 + shifted && low + shifted == carry * 0x1_0000_0000 + nl
    ensures (high + carry + upper) % 0x1_0000_0000 * 0x1_0000_0000 + nl == BitLength(n + len)
  {
    var sum := high + carry + upper;
    var nh, r := sum % 0x1_0000_0000, sum / 0x1_0000_0000;
    var q := 8 * n / 0x1_0000_0000_0000_0000;
    assert sum == r * 0x1_0000_0000 + nh;
    assert 8 * n == q * 0x1_0000_0000_0000_0000 + high * 0x1_0000_0000 + low;
    Remainder(8 * (n + len), q + r, nh * 0x1_0000_0000 + nl);
  }

  /** The digest of a message fed in any number of pieces. */
  method DigestOf(pieces: seq<seq<bv8>>) returns (md: seq<bv8>)
    requires forall i :: 0 <= i < |pieces| ==> |pieces[i]| < 0x1_0000_0000
    ensures md == Digest(Joined(pieces))
  {
    hide Digest;
    var c := new Context();
    assert pieces[..0] == [];
    for i := 0 to |pieces|
      invariant c.Valid() && fresh(c) && fresh(c.data) && c.fed == Joined(pieces[..i])
    {
      assert pieces[..i + 1][..i] == pieces[..i];
      c.Update(pieces[i]);
    }
    assert pieces[..|pieces|] == pieces;
    md := c.Final();
  }
}
