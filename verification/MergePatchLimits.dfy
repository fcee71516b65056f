/** Where the merge patch round trip stops holding, exactly.  The generator sorts members by one order
    and walks them by another; for trees over a set of names it works if and only if the two orders
    agree on the set. */
module MergePatchLimits {
  import opened Common
  import opened CStrings
  import opened SortSeq
  import opened JsonValue
  import opened JsonCompare
  import opened MergePatch
  import opened MergePatchRoundTrip

  // ---------- The inputs ----------

  /** No null members along nested objects. */
  ghost predicate NoNulls(j: Json) {
    j.Object? ==> forall i :: 0 <= i < |j.members| ==> !j.members[i].value.Null? && NoNulls(j.members[i].value)
  }

  /** Trees over the names that the mode orders in two ways: below the first level in the
      case-sensitive mode, everywhere in the other. */
  ghost predicate Over(doc: Json, from: Json, to: Json, names: set<string>, cs: bool) {
    if cs then NestedIn(from, names) && NestedIn(to, names)
    else NamesIn(doc, names) && NamesIn(from, names) && NamesIn(to, names)
  }

  ghost predicate Admitted(doc: Json, from: Json, to: Json, names: set<string>, cs: bool) {
    Over(doc, from, to, names, cs) && NoNulls(to) && View(doc, cs) == View(from, cs) &&
    WellFormed(doc, cs) && WellFormed(from, cs) && WellFormed(to, cs)
  }

  /** Generating a patch and merging it restores `to`; without a patch there is nothing to do. */
  ghost predicate Restores(doc: Json, from: Json, to: Json, cs: bool) {
    match Generate(from, to, cs)
    case None => View(from, cs) == View(to, cs)
    case Some(p) => View(Apply(Some(doc), p, cs), cs) == View(to, cs)
  }

  // ---------- Names in the same order ----------

  lemma {:induction false} NoNullsMeansNoNullMembers(j: Json)
    requires NoNulls(j) && WellFormed(j, true)
    ensures NoNullMembers(View(j, true))
  {
    if j.Object? {
      var v := ViewMembers(j.members, true);
      forall k | k in v ensures !v[k].TNull? && NoNullMembers(v[k]) {
        ViewKeys(j.members, true, k);
        var i :| 0 <= i < |j.members| && Norm(j.members[i].key, true) == k;
        ViewAt(j.members, true, i);
        NoNullsMeansNoNullMembers(j.members[i].value);
      }
    }
  }

  /** On names in the same order, both modes accept the same trees. */
  lemma {:induction false} WellFormedAlike(j: Json, names: set<string>)
    requires SameOrder(names) && NamesIn(j, names)
    ensures WellFormed(j, false) == WellFormed(j, true)
  {
    match j
    case Array(items) =>
      forall i | 0 <= i < |items| ensures WellFormed(items[i], false) == WellFormed(items[i], true) {
        WellFormedAlike(items[i], names);
      }
    case Object(ms) =>
      forall i | 0 <= i < |ms| ensures WellFormed(ms[i].value, false) == WellFormed(ms[i].value, true) {
        WellFormedAlike(ms[i].value, names);
      }
      forall i, k | 0 <= i < k < |ms|
        ensures Norm(ms[i].key, false) == Norm(ms[k].key, false) <==> Norm(ms[i].key, true) == Norm(ms[k].key, true)
      {
        ComparesAlike(ms[i].key, ms[k].key, names);
      }
    case _ =>
  }

  /** and find the same trees equal. */
  lemma MeansAlike(a: Json, b: Json, names: set<string>)
    requires SameOrder(names) && NamesIn(a, names) && NamesIn(b, names) && WellFormed(a, true) && WellFormed(b, true)
    ensures View(a, false) == View(b, false) <==> View(a, true) == View(b, true)
  {
    WellFormedAlike(a, names);
    WellFormedAlike(b, names);
    CompareDecidesMeaning(a, b, false);
    CompareDecidesMeaning(a, b, true);
    JsonComparesAlike(a, b, names);
  }

  lemma SameOrderRestores(doc: Json, from: Json, to: Json, names: set<string>, cs: bool)
    requires SameOrder(names) && Admitted(doc, from, to, names, cs)
    ensures Restores(doc, from, to, cs)
  {
    if !cs {
      WellFormedAlike(doc, names);
      WellFormedAlike(from, names);
      WellFormedAlike(to, names);
      MeansAlike(doc, from, names);
      MeansAlike(from, to, names);
    }
    NoNullsMeansNoNullMembers(to);
    NoNullsAreShared(View(from, true), View(to, true));
    MergePatchRoundTripIff(doc, from, to, names, cs);
    if !cs && Generate(from, to, cs).Some? { RestoredNames(doc, from, to, names); }
  }

  lemma RestoredNames(doc: Json, from: Json, to: Json, names: set<string>)
    requires SameOrder(names) && NamesIn(doc, names) && NamesIn(from, names) && NamesIn(to, names)
    requires WellFormed(doc, true) && WellFormed(from, true) && WellFormed(to, true)
    requires Generate(from, to, false).Some?
    ensures var r := Apply(Some(doc), Generate(from, to, false).value, false);
            View(r, false) == View(to, false) <==> View(r, true) == View(to, true)
  {
    hide Generate, Apply, View, WellFormed;
    ModesAgree(doc, from, to, names);
    NamesAreNested(from, names);
    NamesAreNested(to, names);
    GenerateMeansDiff(from, to, names);
    var p := Generate(from, to, true).value;
    ApplyIsMerge(Some(doc), p, true);
    MeansAlike(Apply(Some(doc), p, true), to, names);
  }

  // ---------- Names in different orders ----------

  /** Sorted one way and walked the other, the larger of two names is found in `to` only and then in
      `from` only. */
  lemma PairGenerates(from: Json, x: Member, y: Member)
    requires from.Object? && |from.members| == 2 && Sort(from.members, false) == [x, y]
    requires Strcmp(x.key, y.key) > 0
    ensures Generate(from, Object([y]), false) == Some(Object([y, Keyed(x.key, Null), Keyed(y.key, Null)]))
  {
    var to := Object([y]);
    assert Sort([y], false) == [y];
    assert [x, y][1..] == [y] && [y][1..] == [];
    var w0 := Walk(from, [], [], false);
    var w1 := Walk(from, [y], [], false);
    assert w1 == [Keyed(y.key, Null)] + w0;
    var w2 := Walk(from, [x, y], [], false);
    assert w2 == [Keyed(x.key, Null)] + w1;
    assert Walk(from, [x, y], [y], false) == [y] + w2;
    assert [y] + w2 == [y, Keyed(x.key, Null), Keyed(y.key, Null)];
  }

  lemma Overwrites(ms: seq<Member>, p: Member, i: nat, cs: bool)
    requires i < |ms| && FindIndex(ms, p.key, cs) == i && p.value == True
    ensures ApplyMember(ms, p, cs) == RemoveAt(ms, i) + [p]
  {
    assert p == Keyed(p.key, True);
  }

  lemma Deletes(ms: seq<Member>, p: Member, i: nat, cs: bool)
    requires i < |ms| && FindIndex(ms, p.key, cs) == i && p.value.Null?
    ensures ApplyMember(ms, p, cs) == RemoveAt(ms, i)
  {
  }

  lemma InThree(ms: seq<Member>, p1: Member, p2: Member, p3: Member, cs: bool)
    ensures ApplyMembers(ms, [p1, p2, p3], cs) == ApplyMember(ApplyMember(ApplyMember(ms, p1, cs), p2, cs), p3, cs)
  {
    hide ApplyMember;
    assert [p1, p2, p3][1..] == [p2, p3] && [p2, p3][1..] == [p3] && [p3][1..] == [];
    var m1 := ApplyMember(ms, p1, cs);
    var m2 := ApplyMember(m1, p2, cs);
    assert ApplyMembers(m2, [p3], cs) == ApplyMember(m2, p3, cs);
    assert ApplyMembers(m1, [p2, p3], cs) == ApplyMembers(m2, [p3], cs);
  }

  /** Such a patch deletes both. */
  lemma PairApplies(ms: seq<Member>, x: Member, y: Member, cs: bool)
    requires ms == [x, y] || ms == [y, x]
    requires Norm(x.key, cs) != Norm(y.key, cs) && y.value == True
    ensures ApplyMembers(ms, [y, Keyed(x.key, Null), Keyed(y.key, Null)], cs) == []
  {
    hide ApplyMember, ApplyMembers, Norm;
    var i := if ms == [x, y] then 1 else 0;
    InThree(ms, y, Keyed(x.key, Null), Keyed(y.key, Null), cs);
    Overwrites(ms, y, i, cs);
    assert RemoveAt(ms, i) + [y] == [x, y];
    Deletes([x, y], Keyed(x.key, Null), 0, cs);
    assert RemoveAt([x, y], 0) == [y];
    Deletes([y], Keyed(y.key, Null), 0, cs);
    assert RemoveAt([y], 0) == [];
  }

  lemma OneMemberMeans(m: Member, cs: bool)
    ensures View(Object([m]), cs) == TObject(map[Norm(m.key, cs) := View(m.value, cs)])
    ensures View(Object([]), cs) == TObject(map[])
    ensures View(Object([m]), cs) != View(Object([]), cs)
  {
    hide Norm;
    assert [m][1..] == [] && ViewMembers([], cs) == map[];
    assert ViewMembers([m], cs) == ViewMembers([], cs)[Norm(m.key, cs) := View(m.value, cs)];
    assert Norm(m.key, cs) in ViewMembers([m], cs);
  }

  /** Objects of one or two members that are true. */
  lemma TruesAdmitted(ms: seq<Member>, names: set<string>, cs: bool)
    requires |ms| <= 2 && forall i :: 0 <= i < |ms| ==> ms[i].key in names && ms[i].value == True
    requires |ms| == 2 ==> Norm(ms[0].key, cs) != Norm(ms[1].key, cs)
    ensures NamesIn(Object(ms), names) && WellFormed(Object(ms), cs) && NoNulls(Object(ms))
  {
    hide Norm;
    assert NamesIn(True, names) && WellFormed(True, cs) && NoNulls(True);
  }

  /** In the case-insensitive mode the pair itself is a document that is not restored. */
  lemma PairIsLost(x: Member, y: Member, names: set<string>)
    requires x.key in names && y.key in names && x.value == y.value == True
    requires CompareStrings(x.key, y.key, false) < 0 && Strcmp(x.key, y.key) > 0
    ensures var from, to := Object([x, y]), Object([y]);
            Generate(from, to, false) == Some(Object([y, Keyed(x.key, Null), Keyed(y.key, Null)])) &&
            Apply(Some(from), Generate(from, to, false).value, false) == Object([]) &&
            Admitted(from, from, to, names, false) && !Restores(from, from, to, false)
  {
    hide Generate, ApplyMembers, Walk;
    var from := Object([x, y]);
    CompareZero(x.key, y.key, false);
    assert AlreadySorted([x, y], false);
    PairGenerates(from, x, y);
    PairApplies([x, y], x, y, false);
    TruesAdmitted([x, y], names, false);
    TruesAdmitted([y], names, false);
    OneMemberMeans(y, false);
  }

  /** Why the names must sort alike: sorted without regard to case but walked by strcmp, "a" and "B"
      make the generator miss that "B" is common, and the patch deletes it. */
  lemma MixedCaseLosesMember()
    ensures var from := Object([Keyed("a", True), Keyed("B", True)]);
            var to := Object([Keyed("B", True)]);
            Generate(from, to, false) == Some(Object([Keyed("B", True), Keyed("a", Null), Keyed("B", Null)])) &&
            Apply(Some(from), Generate(from, to, false).value, false) == Object([])
  {
    assert Lower('a') == 'a' && Lower('B') == 'b';
    assert CompareStrings("a", "B", false) < 0;
    assert Strcmp("a", "B") > 0;
    PairIsLost(Keyed("a", True), Keyed("B", True), {"a", "B"});
  }

  /** Names that differ in case only: the deletion of the one in `from` also takes the one in `to`. */
  lemma SpellingIsLost(x: Member, y: Member, names: set<string>)
    requires x.key in names && y.key in names && x.value == y.value == True
    requires CompareStrings(x.key, y.key, false) == 0 && Strcmp(x.key, y.key) > 0
    ensures var from, to := Object([x]), Object([y]);
            Admitted(from, from, to, names, false) && !Restores(from, from, to, false)
  {
    hide Apply, ApplyMember;
    var from, to, gone := Object([x]), Object([y]), Keyed(x.key, Null);
    CompareZero(x.key, y.key, false);
    assert Sort([x], false) == [x] && Sort([y], false) == [y] && [x][1..] == [] && [y][1..] == [];
    assert Walk(from, [x], [], false) == [gone] + Walk(from, [], [], false);
    assert Walk(from, [x], [y], false) == [y] + Walk(from, [x], [], false) == [y, gone];
    assert Generate(from, to, false) == Some(Object([y, gone]));
    SpellingApplies(x, y);
    TruesAdmitted([x], names, false);
    TruesAdmitted([y], names, false);
    OneMemberMeans(y, false);
  }

  lemma SpellingApplies(x: Member, y: Member)
    requires x.value == y.value == True && Norm(x.key, false) == Norm(y.key, false)
    ensures Apply(Some(Object([x])), Object([y, Keyed(x.key, Null)]), false) == Object([])
  {
    hide Walk, Sort, ApplyMember, Norm;
    assert FindIndex([x], y.key, false) == 0 && FindIndex([y], x.key, false) == 0;
    var gone := Keyed(x.key, Null);
    assert [y, gone][1..] == [gone] && [gone][1..] == [];
    Overwrites([x], y, 0, false);
    assert RemoveAt([x], 0) + [y] == [y];
    Deletes([y], gone, 0, false);
    assert RemoveAt([y], 0) == [];
    assert ApplyMembers([y], [gone], false) == [];
  }

  /** In the case-sensitive mode it is not restored below a common member. */
  lemma NestedPairIsLost(ms: seq<Member>, x: Member, y: Member, names: set<string>)
    requires x.key in names && y.key in names && x.value == y.value == True
    requires ms == [x, y] || ms == [y, x]
    requires Sort(ms, false) == [x, y] && Strcmp(x.key, y.key) > 0
    ensures var from, to := Object([Keyed("", Object(ms))]), Object([Keyed("", Object([y]))]);
            Admitted(from, from, to, names, true) && !Restores(from, from, to, true)
  {
    hide Apply, ApplyMembers, Generate, Walk, Sort, NoNulls, WellFormed, NamesIn;
    var f, t: Member := Keyed("", Object(ms)), Keyed("", Object([y]));
    var from, to := Object([f]), Object([t]);
    StrcmpZero(x.key, y.key);
    PairGenerates(f.value, x, y);
    var p := Object([y, Keyed(x.key, Null), Keyed(y.key, Null)]);
    NestedGenerates(f, t, p);
    NestedApplies(f, p, x, y);
    NestedAdmitted(f, names);
    NestedAdmitted(t, names);
    OneMemberMeans(t, true);
    OneMemberMeans(y, true);
    OneMemberMeans(Keyed("", Object([])), true);
    assert View(to, true).fields[""] != View(Object([Keyed("", Object([]))]), true).fields[""];
  }

  lemma NestedAdmitted(f: Member, names: set<string>)
    requires f.key == "" && f.value.Object? && |f.value.members| <= 2
    requires forall i :: 0 <= i < |f.value.members| ==>
               f.value.members[i].key in names && f.value.members[i].value == True
    requires |f.value.members| == 2 ==> f.value.members[0].key != f.value.members[1].key
    ensures NestedIn(Object([f]), names) && WellFormed(Object([f]), true) && NoNulls(Object([f]))
  {
    hide NoNulls, WellFormed, NamesIn;
    TruesAdmitted(f.value.members, names, true);
    AroundOne(f);
  }

  lemma AroundOne(f: Member)
    requires f.value.Object? && WellFormed(f.value, true) && NoNulls(f.value)
    ensures WellFormed(Object([f]), true) && NoNulls(Object([f]))
  {
  }

  lemma NestedGenerates(f: Member, t: Member, p: Json)
    requires f.key == t.key == "" && f.value.Object? && t.value.Object? && |f.value.members| == 2 &&
             |t.value.members| == 1
    requires Generate(f.value, t.value, false) == Some(p)
    ensures Generate(Object([f]), Object([t]), true) == Some(Object([Keyed("", p)]))
  {
    assert Sort([f], true) == [f] && Sort([t], true) == [t] && [f][1..] == [] && [t][1..] == [];
    assert !CompareJson(f.value, t.value, true);
    assert Order([f], [t]) == 0;
    assert Walk(Object([f]), [], [], true) == [];
    assert Walk(Object([f]), [f], [t], true) == [Keyed("", p)] + Walk(Object([f]), [], [], true) == [Keyed("", p)];
    assert f in Object([f]).members;
    assert Generate(Object([f]), Object([t]), true) == Some(Object(Walk(Object([f]), [f], [t], true)));
  }

  lemma NestedApplies(f: Member, p: Json, x: Member, y: Member)
    requires f.key == "" && (f.value == Object([x, y]) || f.value == Object([y, x]))
    requires x.key != y.key && y.value == True && p == Object([y, Keyed(x.key, Null), Keyed(y.key, Null)])
    ensures Apply(Some(Object([f])), Object([Keyed("", p)]), true) == Object([Keyed("", Object([]))])
  {
    PairApplies(f.value.members, x, y, true);
    assert Apply(Some(f.value), p, true) == Object([]);
    assert FindIndex([f], "", true) == 0 && RemoveAt([f], 0) == [];
    assert ApplyMember([f], Keyed("", p), true) == [Keyed("", Object([]))];
    assert [Keyed("", p)][1..] == [];
    assert ApplyMembers([f], [Keyed("", p)], true) == [Keyed("", Object([]))];
  }

  /** In either mode some document over two such names is not restored. */
  lemma OrdersDifferLoses(a: string, b: string, names: set<string>, cs: bool) returns (from: Json, to: Json)
    requires a in names && b in names && CompareStrings(a, b, false) <= 0 && Strcmp(a, b) > 0
    ensures Admitted(from, from, to, names, cs) && !Restores(from, from, to, cs)
  {
    hide Admitted, Restores;
    var x, y: Member := Keyed(a, True), Keyed(b, True);
    var equal := CompareStrings(a, b, false) == 0;
    if cs {
      var ms := if equal then [y, x] else [x, y];
      if equal { EqualNamesSwap(x, y); } else { assert AlreadySorted([x, y], false); }
      NestedPairIsLost(ms, x, y, names);
      return Object([Keyed("", Object(ms))]), Object([Keyed("", Object([y]))]);
    } else if equal {
      SpellingIsLost(x, y, names);
      return Object([x]), Object([y]);
    } else {
      PairIsLost(x, y, names);
      return Object([x, y]), Object([y]);
    }
  }

  /** On equal keys the merge takes the second list first. */
  lemma EqualNamesSwap(x: Member, y: Member)
    requires CompareStrings(x.key, y.key, false) == 0
    ensures Sort([y, x], false) == [x, y]
  {
    ComparisonAntisymmetric(x.key, y.key, false);
    assert !AlreadySorted([y, x], false) by { assert Compare([y, x][0], [y, x][1], false) == 0; }
    assert [y, x][..1] == [y] && [y, x][1..] == [x];
    assert Sort([y], false) == [y] && Sort([x], false) == [x];
    assert Middle(2) == 1;
    assert SortSeq.Merge([y], [], false) == [y];
    assert SortSeq.Merge([y], [x], false) == [x] + SortSeq.Merge([y], [], false);
    assert [x] + [y] == [x, y];
    assert Sort([y, x], false) == SortSeq.Merge(Sort([y], false), Sort([x], false), false);
  }

  // ---------- Exactly when ----------

  /** For trees over a set of names, generating and merging always restores `to` if and only if
      ignoring case does not change the order of the names. */
  lemma MergePatchWorksIff(names: set<string>, cs: bool)
    ensures (forall doc, from, to :: Admitted(doc, from, to, names, cs) ==> Restores(doc, from, to, cs))
            <==> SameOrder(names)
  {
    hide Admitted, Restores, CaseInsensitiveStrcmp, Strcmp;
    if SameOrder(names) {
      forall doc, from, to | Admitted(doc, from, to, names, cs) ensures Restores(doc, from, to, cs) {
        SameOrderRestores(doc, from, to, names, cs);
      }
    } else {
      var a, b :| a in names && b in names && !(CaseInsensitiveStrcmp(a, b) < 0 <==> Strcmp(a, b) < 0);
      ComparisonAntisymmetric(a, b, false);
      ComparisonAntisymmetric(a, b, true);
      OrdersOf(a, b);
      var from, to;
      if Strcmp(a, b) < 0 {
        from, to := OrdersDifferLoses(b, a, names, cs);
      } else {
        from, to := OrdersDifferLoses(a, b, names, cs);
      }
    }
  }

  /** Equal names compare equal in both orders. */
  lemma OrdersOf(a: string, b: string)
    ensures CompareStrings(a, b, true) == Strcmp(a, b) && CompareStrings(a, b, false) == CaseInsensitiveStrcmp(a, b)
    ensures Strcmp(a, b) == 0 ==> CaseInsensitiveStrcmp(a, b) == 0
  {
    CompareZero(a, b, true);
    CompareZero(a, b, false);
  }
}
