/** The cJSON tree as a value, and what the tree means: an object is a map from (normalised)
    member names to values, whatever the order of its sibling list. */
module JsonValue {
  import opened Common
  import opened CStrings
  import opened SortSeq

  type Member = Keyed<Json>

  datatype Json =
    | Invalid
    | False
    | True
    | Null
    | Number(valueint: int, valuedouble: real)
    | Str(valuestring: string)
    | Array(items: seq<Json>)
    | Object(members: seq<Member>)

  datatype Tree =
    | TInvalid
    | TFalse
    | TTrue
    | TNull
    | TNumber(valueint: int, valuedouble: real)
    | TStr(valuestring: string)
    | TArray(items: seq<Tree>)
    | TObject(fields: map<string, Tree>)

  function View(j: Json, cs: bool): Tree {
    match j
    case Invalid => TInvalid
    case False => TFalse
    case True => TTrue
    case Null => TNull
    case Number(i, d) => TNumber(i, d)
    case Str(s) => TStr(s)
    case Array(items) => TArray(ViewItems(items, cs))
    case Object(members) => TObject(ViewMembers(members, cs))
  }

  function ViewItems(items: seq<Json>, cs: bool): (r: seq<Tree>)
    ensures |r| == |items|
    ensures forall i :: 0 <= i < |items| ==> r[i] == View(items[i], cs)
  {
    seq(|items|, i requires 0 <= i < |items| => View(items[i], cs))
  }

  /** The first member of a name wins, as in get_object_item. */
  function ViewMembers(ms: seq<Member>, cs: bool): map<string, Tree> {
    if ms == [] then map[]
    else ViewMembers(ms[1..], cs)[Norm(ms[0].key, cs) := View(ms[0].value, cs)]
  }

  /** Member names are pairwise distinct in every object of the tree. */
  ghost predicate WellFormed(j: Json, cs: bool) {
    match j
    case Array(items) => forall i :: 0 <= i < |items| ==> WellFormed(items[i], cs)
    case Object(ms) => DistinctKeys(ms, cs) && forall i :: 0 <= i < |ms| ==> WellFormed(ms[i].value, cs)
    case _ => true
  }

  /** All member names of the tree lie in the set. */
  ghost predicate NamesIn(j: Json, names: set<string>) {
    match j
    case Array(items) => forall i :: 0 <= i < |items| ==> NamesIn(items[i], names)
    case Object(ms) => MembersIn(ms, names)
    case _ => true
  }

  ghost predicate MembersIn(ms: seq<Member>, names: set<string>) {
    forall i :: 0 <= i < |ms| ==> ms[i].key in names && NamesIn(ms[i].value, names)
  }

  /** get_object_item: index of the first member with this name, or the number of members. */
  function FindIndex(ms: seq<Member>, name: string, cs: bool): (i: nat)
    ensures i <= |ms|
    ensures i < |ms| ==> Norm(ms[i].key, cs) == Norm(name, cs)
    ensures forall k :: 0 <= k < i ==> Norm(ms[k].key, cs) != Norm(name, cs)
  {
    if ms == [] then 0
    else
      CompareZero(name, ms[0].key, cs);
      if CompareStrings(name, ms[0].key, cs) == 0 then 0
      else 1 + FindIndex(ms[1..], name, cs)
  }

  function GetObjectItem(j: Json, name: string, cs: bool): Option<Json> {
    if j.Object? then
      var i := FindIndex(j.members, name, cs);
      if i < |j.members| then Some(j.members[i].value) else None
    else None
  }

  /** Detach the first member of that name, if there is one. */
  function RemoveFirst(ms: seq<Member>, name: string, cs: bool): seq<Member> {
    var i := FindIndex(ms, name, cs);
    if i < |ms| then RemoveAt(ms, i) else ms
  }

  lemma {:induction false} ViewKeys(ms: seq<Member>, cs: bool, k: string)
    ensures k in ViewMembers(ms, cs) <==> exists i :: 0 <= i < |ms| && Norm(ms[i].key, cs) == k
  {
    if ms != [] {
      ViewKeys(ms[1..], cs, k);
      if i :| 0 <= i < |ms| && Norm(ms[i].key, cs) == k {
        if i > 0 { assert ms[1..][i - 1] == ms[i]; }
      }
      if i :| 0 <= i < |ms[1..]| && Norm(ms[1..][i].key, cs) == k {
        assert ms[i + 1] == ms[1..][i];
      }
    }
  }

  /** What an object means at one name: the value of the first member so named. */
  lemma {:induction false} ViewAt(ms: seq<Member>, cs: bool, i: nat)
    requires i < |ms|
    requires forall k :: 0 <= k < i ==> Norm(ms[k].key, cs) != Norm(ms[i].key, cs)
    ensures Norm(ms[i].key, cs) in ViewMembers(ms, cs)
    ensures ViewMembers(ms, cs)[Norm(ms[i].key, cs)] == View(ms[i].value, cs)
  {
    if i > 0 {
      assert ms[1..][i - 1] == ms[i];
      forall k | 0 <= k < i - 1 ensures Norm(ms[1..][k].key, cs) != Norm(ms[1..][i - 1].key, cs) {
        assert ms[1..][k] == ms[k + 1];
      }
      ViewAt(ms[1..], cs, i - 1);
      assert Norm(ms[0].key, cs) != Norm(ms[i].key, cs);
    }
  }

  /** A map that agrees with a distinct-key member list name by name is its meaning. */
  lemma ViewUnique(ms: seq<Member>, cs: bool, m: map<string, Tree>)
    requires DistinctKeys(ms, cs)
    requires forall i :: 0 <= i < |ms| ==> Norm(ms[i].key, cs) in m && m[Norm(ms[i].key, cs)] == View(ms[i].value, cs)
    requires forall k :: k in m ==> exists i :: 0 <= i < |ms| && Norm(ms[i].key, cs) == k
    ensures ViewMembers(ms, cs) == m
  {
    var v := ViewMembers(ms, cs);
    forall k ensures k in v <==> k in m {
      ViewKeys(ms, cs, k);
    }
    forall k | k in m ensures v[k] == m[k] {
      var i :| 0 <= i < |ms| && Norm(ms[i].key, cs) == k;
      ViewAt(ms, cs, i);
    }
  }

  lemma ViewLookup(ms: seq<Member>, name: string, cs: bool)
    ensures FindIndex(ms, name, cs) < |ms| <==> Norm(name, cs) in ViewMembers(ms, cs)
    ensures var i := FindIndex(ms, name, cs);
            i < |ms| ==> ViewMembers(ms, cs)[Norm(name, cs)] == View(ms[i].value, cs)
  {
    ViewKeys(ms, cs, Norm(name, cs));
    var i := FindIndex(ms, name, cs);
    if i < |ms| { ViewAt(ms, cs, i); }
  }

  /** get_object_item reads the map the object stands for. */
  lemma GetObjectItemReadsView(j: Json, name: string, cs: bool)
    requires j.Object?
    ensures var v := View(j, cs).fields;
            match GetObjectItem(j, name, cs)
            case None => Norm(name, cs) !in v
            case Some(x) => Norm(name, cs) in v && v[Norm(name, cs)] == View(x, cs)
  {
    ViewLookup(j.members, name, cs);
  }

  lemma ViewAppend(ms: seq<Member>, m: Member, cs: bool)
    requires DistinctKeys(ms, cs) && Norm(m.key, cs) !in ViewMembers(ms, cs)
    ensures DistinctKeys(ms + [m], cs)
    ensures ViewMembers(ms + [m], cs) == ViewMembers(ms, cs)[Norm(m.key, cs) := View(m.value, cs)]
  {
    ViewKeys(ms, cs, Norm(m.key, cs));
    var r := ms + [m];
    var v := ViewMembers(ms, cs)[Norm(m.key, cs) := View(m.value, cs)];
    forall i | 0 <= i < |r| ensures Norm(r[i].key, cs) in v && v[Norm(r[i].key, cs)] == View(r[i].value, cs) {
      if i < |ms| { ViewAt(ms, cs, i); }
    }
    forall k | k in v ensures exists i :: 0 <= i < |r| && Norm(r[i].key, cs) == k {
      ViewKeys(ms, cs, k);
      if k == Norm(m.key, cs) {
        assert r[|ms|] == m;
      } else {
        var i :| 0 <= i < |ms| && Norm(ms[i].key, cs) == k;
        assert r[i] == ms[i];
      }
    }
    ViewUnique(r, cs, v);
  }

  lemma RemovedFrom(ms: seq<Member>, i: nat, j: nat)
    requires i < |ms| && j < |ms| - 1
    ensures RemoveAt(ms, i)[j] == ms[if j < i then j else j + 1]
  {
  }

  lemma RemainDistinct(ms: seq<Member>, i: nat, cs: bool)
    requires DistinctKeys(ms, cs) && i < |ms|
    ensures |RemoveAt(ms, i)| == |ms| - 1 && DistinctKeys(RemoveAt(ms, i), cs)
  {
    hide Norm;
    var r := RemoveAt(ms, i);
    forall j | 0 <= j < |r| ensures r[j] == ms[if j < i then j else j + 1] { }
  }

  lemma StaysAfterRemoval(ms: seq<Member>, i: nat, k: string, cs: bool)
    requires i < |ms| && k in ViewMembers(ms, cs) && k != Norm(ms[i].key, cs)
    ensures var r := RemoveAt(ms, i); exists j :: 0 <= j < |r| && Norm(r[j].key, cs) == k
  {
    hide View, Norm, ViewMembers;
    ViewKeys(ms, cs, k);
    var j :| 0 <= j < |ms| && Norm(ms[j].key, cs) == k;
    assert RemoveAt(ms, i)[if j < i then j else j - 1] == ms[j];
  }

  lemma ViewRemoveAt(ms: seq<Member>, i: nat, cs: bool)
    requires DistinctKeys(ms, cs) && i < |ms|
    ensures DistinctKeys(RemoveAt(ms, i), cs)
    ensures ViewMembers(RemoveAt(ms, i), cs) == ViewMembers(ms, cs) - {Norm(ms[i].key, cs)}
  {
    hide View, Norm, ViewMembers, RemoveAt;
    var r := RemoveAt(ms, i);
    var v := ViewMembers(ms, cs) - {Norm(ms[i].key, cs)};
    RemainDistinct(ms, i, cs);
    forall j | 0 <= j < |r| ensures Norm(r[j].key, cs) in v && v[Norm(r[j].key, cs)] == View(r[j].value, cs) {
      RemovedFrom(ms, i, j);
      ViewAt(ms, cs, if j < i then j else j + 1);
    }
    forall k | k in v ensures exists j :: 0 <= j < |r| && Norm(r[j].key, cs) == k {
      StaysAfterRemoval(ms, i, k, cs);
    }
    ViewUnique(r, cs, v);
  }

  lemma ViewUpdateAt(ms: seq<Member>, i: nat, x: Json, cs: bool)
    requires DistinctKeys(ms, cs) && i < |ms|
    ensures var r := ms[i := Keyed(ms[i].key, x)];
            DistinctKeys(r, cs) && ViewMembers(r, cs) == ViewMembers(ms, cs)[Norm(ms[i].key, cs) := View(x, cs)]
  {
    var r := ms[i := Keyed(ms[i].key, x)];
    var v := ViewMembers(ms, cs)[Norm(ms[i].key, cs) := View(x, cs)];
    forall j | 0 <= j < |r| ensures Norm(r[j].key, cs) in v && v[Norm(r[j].key, cs)] == View(r[j].value, cs) {
      if j != i { ViewAt(ms, cs, j); }
    }
    forall k | k in v ensures exists j :: 0 <= j < |r| && Norm(r[j].key, cs) == k {
      ViewKeys(ms, cs, k);
      if k == Norm(ms[i].key, cs) {
        assert r[i].key == ms[i].key;
      } else {
        var j :| 0 <= j < |ms| && Norm(ms[j].key, cs) == k;
        assert r[j].key == ms[j].key;
      }
    }
    ViewUnique(r, cs, v);
  }

  /** Sorting an object in place, as the diff functions do, never changes what it means. */
  lemma SortKeepsMeaning(ms: seq<Member>, sortCs: bool, cs: bool)
    requires DistinctKeys(ms, cs)
    ensures ViewMembers(Sort(ms, sortCs), cs) == ViewMembers(ms, cs)
    ensures DistinctKeys(Sort(ms, sortCs), cs)
  {
    var r := Sort(ms, sortCs);
    SortIsSortedPermutation(ms, sortCs);
    PermutationKeepsDistinct(ms, r, cs);
    var v := ViewMembers(ms, cs);
    forall j | 0 <= j < |r| ensures Norm(r[j].key, cs) in v && v[Norm(r[j].key, cs)] == View(r[j].value, cs) {
      var k :| 0 <= k < |ms| && ms[k] == r[j];
      ViewAt(ms, cs, k);
    }
    forall k | k in v ensures exists j :: 0 <= j < |r| && Norm(r[j].key, cs) == k {
      ViewKeys(ms, cs, k);
      var i :| 0 <= i < |ms| && Norm(ms[i].key, cs) == k;
      assert ms[i] in multiset(r);
      var j :| 0 <= j < |r| && r[j] == ms[i];
    }
    ViewUnique(r, cs, v);
  }
}
