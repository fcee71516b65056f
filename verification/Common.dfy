/** Definitions that several parts share: a value that may be missing, and operations on sequences. */
module Common {
  datatype Option<+T> = None | Some(value: T)

  function InsertAt<T>(s: seq<T>, i: nat, x: T): seq<T>
    requires i <= |s|
  {
    s[..i] + [x] + s[i..]
  }

  function RemoveAt<T>(s: seq<T>, i: nat): seq<T>
    requires i < |s|
  {
    s[..i] + s[i + 1..]
  }

  /** The pieces one after the other. */
  function Joined<T>(pieces: seq<seq<T>>): seq<T> {
    if pieces == [] then [] else Joined(pieces[..|pieces| - 1]) + pieces[|pieces| - 1]
  }

  /** The sequence t stands in s at a position. */
  ghost predicate StandsAt<T>(s: seq<T>, at: nat, t: seq<T>) {
    at + |t| <= |s| && forall i {:trigger t[i]} :: 0 <= i < |t| ==> s[at + i] == t[i]
  }

  lemma StandsApart<T>(s: seq<T>, at: nat, a: seq<T>, b: seq<T>)
    requires StandsAt(s, at, a + b)
    ensures StandsAt(s, at, a) && StandsAt(s, at + |a|, b)
  {
    forall i | 0 <= i < |a| ensures s[at + i] == a[i] { assert (a + b)[i] == a[i]; }
    forall i | 0 <= i < |b| ensures s[at + |a| + i] == b[i] { assert (a + b)[|a| + i] == b[i]; }
  }
}
