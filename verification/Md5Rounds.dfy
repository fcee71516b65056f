/** The four rounds of the block function as section 3.4 of RFC 1321 lists them: each operation updates one of
    the four registers in place, and the words and shifts of a round are written out.  The source instead moves
    the registers along and computes the word of each step. */
module Md5Rounds {
  import opened Md5

  const WORD_ORDER: seq<seq<nat>> := [
    [0, 1, 2, 3, 4, 5, 6, 7, 8, 9, 10, 11, 12, 13, 14, 15],
    [1, 6, 11, 0, 5, 10, 15, 4, 9, 14, 3, 8, 13, 2, 7, 12],
    [5, 8, 11, 14, 1, 4, 7, 10, 13, 0, 3, 6, 9, 12, 15, 2],
    [0, 7, 14, 5, 12, 3, 10, 1, 8, 15, 6, 13, 4, 11, 2, 9]
  ]

  /** Bit by bit: y where x is set, and z elsewhere. */
  function Choose(x: bv32, y: bv32, z: bv32): bv32 { z ^ (x & (y ^ z)) }

  /** The auxiliary function of a round. */
  function Auxiliary(round: nat, x: bv32, y: bv32, z: bv32): bv32
    requires round < 4
  {
    if round == 0 then Choose(x, y, z)
    else if round == 1 then Choose(z, x, y)
    else if round == 2 then x ^ y ^ z
    else y ^ (x | !z)
  }

  lemma ChooseIs(x: bv32, y: bv32, z: bv32)
    ensures Choose(x, y, z) == (x & y) | (!x & z)
    ensures Choose(z, x, y) == (x & z) | (y & !z)
  {
  }

  lemma AuxiliaryIsMixed(i: nat, b: bv32, c: bv32, d: bv32)
    requires i < 64
    ensures Auxiliary(i / 16, b, c, d) == Mixed(i, b, c, d)
  {
    hide Choose;
    ChooseIs(b, c, d);
  }

  function Shift(round: nat, k: nat): (n: nat)
    requires round < 4 && k < 4
    ensures n < 32
  {
    [[7, 12, 17, 22], [5, 9, 14, 20], [4, 11, 16, 23], [6, 10, 15, 21]][round][k]
  }

  /** The word of operation k of a round. */
  function Listed(round: nat, k: nat): (g: nat)
    requires round < 4 && k < 16
    ensures g < 16
  {
    WORD_ORDER[round][k]
  }

  lemma ListedIs(round: nat, k: nat)
    requires round < 4 && k < 16
    ensures Listed(round, k) == WordIndex(16 * round + k)
  {
    if round == 0 { First(k); } else if round == 1 { Second(k); } else if round == 2 { Third(k); } else { Fourth(k); }
  }

  lemma First(k: nat)
    requires k < 16
    ensures WORD_ORDER[0][k] == WordIndex(k)
  {
    hide Listed;
    assert k in {0, 1, 2, 3, 4, 5, 6, 7, 8, 9, 10, 11, 12, 13, 14, 15};
  }

  lemma Second(k: nat)
    requires k < 16
    ensures WORD_ORDER[1][k] == WordIndex(16 + k)
  {
    assert k in {0, 1, 2, 3, 4, 5, 6, 7, 8, 9, 10, 11, 12, 13, 14, 15};
  }

  lemma Third(k: nat)
    requires k < 16
    ensures WORD_ORDER[2][k] == WordIndex(32 + k)
  {
    assert k in {0, 1, 2, 3, 4, 5, 6, 7, 8, 9, 10, 11, 12, 13, 14, 15};
  }

  lemma Fourth(k: nat)
    requires k < 16
    ensures WORD_ORDER[3][k] == WordIndex(48 + k)
  {
    assert k in {0, 1, 2, 3, 4, 5, 6, 7, 8, 9, 10, 11, 12, 13, 14, 15};
  }

  /** [abcd k s i]: the new value of register a. */
  function Operation(i: nat, a: bv32, b: bv32, c: bv32, d: bv32, x: seq<bv32>): bv32
    requires i < 64 && |x| == 16
  {
    Turned(Auxiliary(i / 16, b, c, d), a, SINES[i], x[Listed(i / 16, i % 16)], b, Shift(i / 16, i % 4))
  }

  /** A step of the source is that operation, with the registers moved along. */
  lemma StepIsOperation(s: Chain, i: nat, x: seq<bv32>)
    requires i < 64 && |x| == 16
    ensures Step(s, i, x) == Chain(s.d, Operation(i, s.a, s.b, s.c, s.d, x), s.b, s.c)
  {
    hide Turned, Mixed, Auxiliary, Listed, WordIndex, Shift, Rotation;
    AuxiliaryIsMixed(i, s.b, s.c, s.d);
    ListedIs(i / 16, i % 16);
    assert 16 * (i / 16) + i % 16 == i;
    ShiftIs(i);
  }

  lemma ShiftIs(i: nat)
    requires i < 64
    ensures Shift(i / 16, i % 4) == Rotation(i)
  {
  }

  /** Four operations, [ABCD] [DABC] [CDAB] [BCDA], each on the registers the others left. */
  function FourOperations(s: Chain, i: nat, x: seq<bv32>): Chain
    requires i + 4 <= 64 && |x| == 16
  {
    var a := Operation(i, s.a, s.b, s.c, s.d, x);
    var d := Operation(i + 1, s.d, a, s.b, s.c, x);
    var c := Operation(i + 2, s.c, d, a, s.b, x);
    var b := Operation(i + 3, s.b, c, d, a, x);
    Chain(a, b, c, d)
  }

  /** n groups of four operations; sixteen groups are the four rounds. */
  function Rounds(s: Chain, x: seq<bv32>, n: nat): Chain
    requires n <= 16 && |x| == 16
  {
    if n == 0 then s else FourOperations(Rounds(s, x, n - 1), 4 * (n - 1), x)
  }

  lemma {:induction false} StepsAreRounds(s: Chain, x: seq<bv32>, n: nat)
    requires n <= 16 && |x| == 16
    ensures Steps(s, x, 4 * n) == Rounds(s, x, n)
    decreases n
  {
    hide Step, Operation;
    if n > 0 {
      var i := 4 * (n - 1);
      StepsAreRounds(s, x, n - 1);
      var s0 := Steps(s, x, i);
      var s1 := Step(s0, i, x);
      var s2 := Step(s1, i + 1, x);
      var s3 := Step(s2, i + 2, x);
      StepIsOperation(s0, i, x);
      StepIsOperation(s1, i + 1, x);
      StepIsOperation(s2, i + 2, x);
      StepIsOperation(s3, i + 3, x);
      assert Steps(s, x, i + 1) == s1;
      assert Steps(s, x, i + 2) == s2;
      assert Steps(s, x, i + 3) == s3;
    }
  }

  /** The block function is the RFC's: the four rounds, and the old registers added to the new ones. */
  lemma TransformIsRounds(s: Chain, block: seq<bv8>)
    requires |block| == BLOCK
    ensures Transform(s, block) == Added(s, Rounds(s, Words(block), 16))
  {
    hide Steps, Rounds;
    StepsAreRounds(s, Words(block), 16);
  }
}
