/** C strings as sequences of characters without the terminating NUL, and the two comparisons
    cJSON uses on them: strcmp and its tolower variant.  Only the sign of a comparison matters,
    so a string that ends first compares as -1 (or 1). */
module CStrings {

  function Lower(c: char): char {
    if 'A' <= c <= 'Z' then (c as int + 32) as char else c
  }

  function LowerAll(s: string): (r: string)
    ensures |r| == |s|
    ensures forall i :: 0 <= i < |s| ==> r[i] == Lower(s[i])
  {
    seq(|s|, i requires 0 <= i < |s| => Lower(s[i]))
  }

  /** The key a comparison really looks at: the key itself, or its lower-case form. */
  function Norm(s: string, caseSensitive: bool): string {
    if caseSensitive then s else LowerAll(s)
  }

  function Strcmp(a: string, b: string): int {
    if a == [] && b == [] then 0
    else if a == [] then -1
    else if b == [] then 1
    else if a[0] == b[0] then Strcmp(a[1..], b[1..])
    else a[0] as int - b[0] as int
  }

  function CaseInsensitiveStrcmp(a: string, b: string): int {
    if a == [] && b == [] then 0
    else if a == [] then -1
    else if b == [] then 1
    else if Lower(a[0]) == Lower(b[0]) then CaseInsensitiveStrcmp(a[1..], b[1..])
    else Lower(a[0]) as int - Lower(b[0]) as int
  }

  function CompareStrings(a: string, b: string, caseSensitive: bool): int {
    if caseSensitive then Strcmp(a, b) else CaseInsensitiveStrcmp(a, b)
  }

  /** Both comparisons are strcmp on normalised keys. */
  lemma {:induction false} CompareIsNormed(a: string, b: string, caseSensitive: bool)
    ensures CompareStrings(a, b, caseSensitive) == Strcmp(Norm(a, caseSensitive), Norm(b, caseSensitive))
  {
    if !caseSensitive && a != [] && b != [] {
      assert LowerAll(a)[1..] == LowerAll(a[1..]);
      assert LowerAll(b)[1..] == LowerAll(b[1..]);
      CompareIsNormed(a[1..], b[1..], caseSensitive);
    }
  }

  lemma {:induction false} StrcmpZero(a: string, b: string)
    ensures Strcmp(a, b) == 0 <==> a == b
  {
    if a != [] && b != [] {
      StrcmpZero(a[1..], b[1..]);
      assert a == [a[0]] + a[1..] && b == [b[0]] + b[1..];
    }
  }

  lemma {:induction false} StrcmpAntisymmetric(a: string, b: string)
    ensures Strcmp(a, b) == -Strcmp(b, a)
  {
    if a != [] && b != [] { StrcmpAntisymmetric(a[1..], b[1..]); }
  }

  lemma {:induction false} StrcmpTransitive(a: string, b: string, c: string)
    requires Strcmp(a, b) <= 0 && Strcmp(b, c) <= 0
    ensures Strcmp(a, c) <= 0
    ensures Strcmp(a, b) < 0 || Strcmp(b, c) < 0 ==> Strcmp(a, c) < 0
  {
    if a != [] && b != [] && c != [] && a[0] == b[0] == c[0] {
      StrcmpTransitive(a[1..], b[1..], c[1..]);
    }
  }

  /** Comparing equal means naming the same normalised key. */
  lemma CompareZero(a: string, b: string, caseSensitive: bool)
    ensures CompareStrings(a, b, caseSensitive) == 0 <==> Norm(a, caseSensitive) == Norm(b, caseSensitive)
  {
    CompareIsNormed(a, b, caseSensitive);
    StrcmpZero(Norm(a, caseSensitive), Norm(b, caseSensitive));
  }

  lemma ComparisonTransitive(a: string, b: string, c: string, caseSensitive: bool)
    requires CompareStrings(a, b, caseSensitive) <= 0 && CompareStrings(b, c, caseSensitive) <= 0
    ensures CompareStrings(a, c, caseSensitive) <= 0
    ensures CompareStrings(a, b, caseSensitive) < 0 || CompareStrings(b, c, caseSensitive) < 0
            ==> CompareStrings(a, c, caseSensitive) < 0
  {
    CompareIsNormed(a, b, caseSensitive);
    CompareIsNormed(b, c, caseSensitive);
    CompareIsNormed(a, c, caseSensitive);
    StrcmpTransitive(Norm(a, caseSensitive), Norm(b, caseSensitive), Norm(c, caseSensitive));
  }

  lemma ComparisonAntisymmetric(a: string, b: string, caseSensitive: bool)
    ensures CompareStrings(a, b, caseSensitive) == -CompareStrings(b, a, caseSensitive)
  {
    CompareIsNormed(a, b, caseSensitive);
    CompareIsNormed(b, a, caseSensitive);
    StrcmpAntisymmetric(Norm(a, caseSensitive), Norm(b, caseSensitive));
  }
}
