/** The round trip itself.  Loop invariant of the object walk: the current document means
    `done`, the names already settled, together with the untouched rest of `from`. */
module JsonPatchRoundTrip {
  import opened Common
  import opened CStrings
  import opened SortSeq
  import opened JsonValue
  import opened JsonPointer
  import opened JsonPatch
  import opened JsonPatchProof

  /** Member i of ms stands for f, and no earlier member matches its name even ignoring case, so
      that both lookups of the code find it. */
  ghost predicate LeadsAt(ms: seq<Member>, i: nat, f: Member, cs: bool) {
    i < |ms| && Norm(ms[i].key, cs) == Norm(f.key, cs) &&
    View(ms[i].value, cs) == View(f.value, cs) && WellFormed(ms[i].value, false) &&
    forall j :: 0 <= j < i ==> LowerAll(ms[j].key) != LowerAll(f.key)
  }

  ghost predicate Leads(ms: seq<Member>, f: Member, cs: bool) { exists i: nat :: LeadsAt(ms, i, f, cs) }

  ghost predicate AllLead(ms: seq<Member>, fs: seq<Member>, cs: bool) {
    forall k :: 0 <= k < |fs| ==> Leads(ms, fs[k], cs)
  }

  lemma NormGivesLower(a: string, b: string, cs: bool)
    requires Norm(a, cs) == Norm(b, cs)
    ensures LowerAll(a) == LowerAll(b)
  {
  }

  lemma LowerDiffersNormDiffers(a: string, b: string, cs: bool)
    requires LowerAll(a) != LowerAll(b)
    ensures Norm(a, cs) != Norm(b, cs)
  {
  }

  /** Both the case-insensitive and the mode's own lookup find the leading member. */
  lemma LeaderIsFound(ms: seq<Member>, i: nat, f: Member, cs: bool)
    requires LeadsAt(ms, i, f, cs)
    ensures FindIndex(ms, f.key, false) == i && FindIndex(ms, f.key, cs) == i
  {
    NormGivesLower(ms[i].key, f.key, cs);
    forall j | 0 <= j < i ensures Norm(ms[j].key, cs) != Norm(f.key, cs) {
      LowerDiffersNormDiffers(ms[j].key, f.key, cs);
    }
  }

  lemma StepFindsMember(ms: seq<Member>, name: string, cs: bool)
    requires Clean(name)
    ensures var i := FindIndex(ms, name, cs);
            Step(Object(ms), name, cs) == if i < |ms| then Some(i) else None
  {
    assert name + [] == name;
    FindCleanToken(ms, name, [], cs);
  }

  lemma LeadsAfterRemove(ms: seq<Member>, i: nat, g: Member, cs: bool)
    requires i < |ms| && Leads(ms, g, cs) && Norm(ms[i].key, cs) != Norm(g.key, cs)
    ensures Leads(RemoveAt(ms, i), g, cs)
  {
    var k: nat :| LeadsAt(ms, k, g, cs);
    var r := RemoveAt(ms, i);
    assert k != i;
    assert LeadsAt(r, if k < i then k else k - 1, g, cs);
  }

  lemma LeadsAfterAppend(ms: seq<Member>, m: Member, g: Member, cs: bool)
    requires Leads(ms, g, cs)
    ensures Leads(ms + [m], g, cs)
  {
    var k: nat :| LeadsAt(ms, k, g, cs);
    assert LeadsAt(ms + [m], k, g, cs);
  }

  lemma LeadsAfterUpdate(ms: seq<Member>, i: nat, x: Json, g: Member, cs: bool)
    requires i < |ms| && Leads(ms, g, cs) && Norm(ms[i].key, cs) != Norm(g.key, cs)
    ensures Leads(ms[i := Keyed(ms[i].key, x)], g, cs)
  {
    var k: nat :| LeadsAt(ms, k, g, cs);
    assert k != i;
    assert LeadsAt(ms[i := Keyed(ms[i].key, x)], k, g, cs);
  }

  /** A missing name: deleting it does nothing. */
  lemma RemoveMissing(ms: seq<Member>, name: string, cs: bool)
    requires Norm(name, cs) !in ViewMembers(ms, cs)
    ensures RemoveFirst(ms, name, cs) == ms
  {
    ViewLookup(ms, name, cs);
  }

  // ---------- One object member ----------

  /** Removing a leading member. */
  lemma RemoveMember(ms: seq<Member>, f: Member, fs: seq<Member>, cs: bool) returns (ms': seq<Member>)
    requires DistinctKeys(ms, cs) && Leads(ms, f, cs) && AllLead(ms, fs, cs)
    requires forall k :: 0 <= k < |fs| ==> Norm(fs[k].key, cs) != Norm(f.key, cs)
    ensures ApplyEdit(Object(ms), Edit("remove", [f.key], None), cs) == Some(Object(ms'))
    ensures DistinctKeys(ms', cs) && AllLead(ms', fs, cs)
    ensures ViewMembers(ms', cs) == ViewMembers(ms, cs) - {Norm(f.key, cs)}
  {
    var i: nat :| LeadsAt(ms, i, f, cs);
    LeaderIsFound(ms, i, f, cs);
    ms' := RemoveAt(ms, i);
    ViewRemoveAt(ms, i, cs);
    forall k | 0 <= k < |fs| ensures Leads(ms', fs[k], cs) { LeadsAfterRemove(ms, i, fs[k], cs); }
  }

  /** Adding a name the object does not have. */
  lemma AddMember(ms: seq<Member>, t: Member, fs: seq<Member>, cs: bool) returns (ms': seq<Member>)
    requires DistinctKeys(ms, cs) && AllLead(ms, fs, cs) && Norm(t.key, cs) !in ViewMembers(ms, cs)
    ensures ApplyEdit(Object(ms), Edit("add", [t.key], Some(t.value)), cs) == Some(Object(ms'))
    ensures DistinctKeys(ms', cs) && AllLead(ms', fs, cs)
    ensures ViewMembers(ms', cs) == ViewMembers(ms, cs)[Norm(t.key, cs) := View(t.value, cs)]
  {
    RemoveMissing(ms, t.key, cs);
    ms' := ms + [Keyed(t.key, t.value)];
    assert t == Keyed(t.key, t.value);
    ViewAppend(ms, t, cs);
    forall k | 0 <= k < |fs| ensures Leads(ms', fs[k], cs) { LeadsAfterAppend(ms, t, fs[k], cs); }
  }

  /** Replacing a leading member: detached where it was, appended at the end. */
  lemma ReplaceMember(ms: seq<Member>, f: Member, x: Json, fs: seq<Member>, cs: bool) returns (ms': seq<Member>)
    requires DistinctKeys(ms, cs) && Leads(ms, f, cs) && AllLead(ms, fs, cs)
    requires forall k :: 0 <= k < |fs| ==> Norm(fs[k].key, cs) != Norm(f.key, cs)
    ensures ApplyEdit(Object(ms), Edit("replace", [f.key], Some(x)), cs) == Some(Object(ms'))
    ensures DistinctKeys(ms', cs) && AllLead(ms', fs, cs)
    ensures ViewMembers(ms', cs) == ViewMembers(ms, cs)[Norm(f.key, cs) := View(x, cs)]
  {
    hide View, Norm, ApplyEdits, ViewMembers;
    var i: nat :| LeadsAt(ms, i, f, cs);
    LeaderIsFound(ms, i, f, cs);
    var rest := RemoveAt(ms, i);
    ViewRemoveAt(ms, i, cs);
    forall k | 0 <= k < |fs| ensures Leads(rest, fs[k], cs) { LeadsAfterRemove(ms, i, fs[k], cs); }
    ms' := AddMember(rest, Keyed(f.key, x), fs, cs);
    var e := Edit("replace", [f.key], Some(x));
    assert ApplyEdit(Object(ms), e, cs) == LeafEdit(Object(ms), "replace", f.key, Some(x), cs);
    assert DetachChild(Object(ms), f.key) == Some((Object(rest), ms[i].value));
    RemoveMissing(rest, f.key, cs);
    ViewAt(ms, cs, i) by {
      forall k | 0 <= k < i ensures Norm(ms[k].key, cs) != Norm(ms[i].key, cs) { }
    }
    assert ViewMembers(ms', cs) == ViewMembers(ms, cs)[Norm(f.key, cs) := View(x, cs)];
  }

  /** Editing the inside of a leading member. */
  lemma EditMember(ms: seq<Member>, i: nat, f: Member, es: seq<Edit>, fs: seq<Member>,
                   cs: bool) returns (ms': seq<Member>)
    requires DistinctKeys(ms, cs) && LeadsAt(ms, i, f, cs) && AllLead(ms, fs, cs) && Clean(f.key)
    requires forall k :: 0 <= k < |fs| ==> Norm(fs[k].key, cs) != Norm(f.key, cs)
    requires Deep(es) && ApplyEdits(ms[i].value, es, cs).Some?
    ensures ApplyEdits(Object(ms), Prepend(f.key, es), cs) == Some(Object(ms'))
    ensures DistinctKeys(ms', cs) && AllLead(ms', fs, cs)
    ensures ViewMembers(ms', cs)
            == ViewMembers(ms, cs)[Norm(f.key, cs) := View(ApplyEdits(ms[i].value, es, cs).value, cs)]
  {
    LeaderIsFound(ms, i, f, cs);
    StepFindsMember(ms, f.key, cs);
    LiftEdits(Object(ms), f.key, i, es, cs);
    var x := ApplyEdits(ms[i].value, es, cs).value;
    ms' := ms[i := Keyed(ms[i].key, x)];
    ViewUpdateAt(ms, i, x, cs);
    forall k | 0 <= k < |fs| ensures Leads(ms', fs[k], cs) { LeadsAfterUpdate(ms, i, x, fs[k], cs); }
  }

  // ---------- Arrays ----------

  lemma TokenIsIndex(i: nat)
    requires i < SIZE_MODULUS
    ensures DecodeArrayIndex(Decimal(i)) == Some(i) && Decimal(i) != "-" && Clean(Decimal(i))
  {
    DecodeIndexOfDecimal(i);
    DecimalIsClean(i);
    assert '0' <= Decimal(i)[0];
  }

  lemma ReplaceElement(items: seq<Json>, i: nat, x: Json, cs: bool)
    requires i < |items| && i < SIZE_MODULUS
    ensures ApplyEdit(Array(items), Edit("replace", [Decimal(i)], Some(x)), cs) == Some(Array(items[i := x]))
  {
    TokenIsIndex(i);
    assert InsertAt(RemoveAt(items, i), i, x) == items[i := x];
  }

  lemma {:induction false} RemoveElements(items: seq<Json>, i: nat, cs: bool)
    requires i <= |items| && i < SIZE_MODULUS
    ensures ApplyEdits(Array(items), RemoveEdits(i, |items| - i), cs) == Some(Array(items[..i]))
    decreases |items| - i
  {
    if i < |items| {
      TokenIsIndex(i);
      var rest := RemoveAt(items, i);
      assert rest[..i] == items[..i];
      assert ApplyEdit(Array(items), Edit("remove", [Decimal(i)], None), cs) == Some(Array(rest));
      RemoveElements(rest, i, cs);
    } else {
      assert items[..i] == items;
    }
  }

  lemma {:induction false} AddElements(items: seq<Json>, ys: seq<Json>, cs: bool)
    ensures ApplyEdits(Array(items), AddEdits(ys), cs) == Some(Array(items + ys))
    decreases |ys|
  {
    if ys != [] {
      assert ApplyEdit(Array(items), Edit("add", ["-"], Some(ys[0])), cs) == Some(Array(items + [ys[0]]));
      AddElements(items + [ys[0]], ys[1..], cs);
      assert items + [ys[0]] + ys[1..] == items + ys;
    } else {
      assert items + ys == items;
    }
  }

  lemma {:induction false} SingleEdit(j: Json, e: Edit, cs: bool)
    requires ApplyEdit(j, e, cs).Some?
    ensures ApplyEdits(j, [e], cs) == ApplyEdit(j, e, cs)
  {
    assert [e][1..] == [];
  }

  lemma PrependReplace(token: string, x: Json)
    ensures Prepend(token, [Edit("replace", [], Some(x))]) == [Edit("replace", [token], Some(x))]
  {
    assert [Edit("replace", [], Some(x))][1..] == [];
    assert [token] + [] == [token];
  }

  /** The inputs of the round trip: the document means what `from` means. */
  ghost predicate Ready(doc: Json, from: Json, to: Json, cs: bool) {
    View(doc, cs) == View(from, cs) && WellFormed(doc, false) &&
    WellFormed(from, cs) && WellFormed(to, cs) && Plain(from) && Plain(to)
  }

  ghost predicate Reaches(doc: Json, es: seq<Edit>, to: Json, cs: bool) {
    ApplyEdits(doc, es, cs).Some? && View(ApplyEdits(doc, es, cs).value, cs) == View(to, cs)
  }

  lemma {:induction false} LowerDistinctIsDistinct(ms: seq<Member>, cs: bool)
    requires DistinctKeys(ms, false)
    ensures DistinctKeys(ms, cs)
  {
    forall i, j | 0 <= i < j < |ms| ensures Norm(ms[i].key, cs) != Norm(ms[j].key, cs) {
      LowerDiffersNormDiffers(ms[i].key, ms[j].key, cs);
    }
  }

  /** At the start every member of `from` leads in the document. */
  lemma InitiallyLeads(ds: seq<Member>, fs: seq<Member>, cs: bool)
    requires ViewMembers(ds, cs) == ViewMembers(fs, cs)
    requires DistinctKeys(ds, false) && DistinctKeys(fs, cs)
    requires forall i :: 0 <= i < |ds| ==> WellFormed(ds[i].value, false)
    ensures AllLead(ds, fs, cs)
  {
    forall k | 0 <= k < |fs| ensures Leads(ds, fs[k], cs) {
      ViewAt(fs, cs, k);
      ViewKeys(ds, cs, Norm(fs[k].key, cs));
      var i: nat :| i < |ds| && Norm(ds[i].key, cs) == Norm(fs[k].key, cs);
      NormGivesLower(ds[i].key, fs[k].key, cs);
      LowerDistinctIsDistinct(ds, cs);
      ViewAt(ds, cs, i);
      assert LeadsAt(ds, i, fs[k], cs);
    }
  }

  lemma StartWalking(doc: Json, from: Json, to: Json, cs: bool)
    requires Ready(doc, from, to, cs) && from.Object? && to.Object?
    ensures doc.Object? && Walking(doc.members, from, Sort(from.members, cs), Sort(to.members, cs), map[], cs)
  {
    var fs, ts := Sort(from.members, cs), Sort(to.members, cs);
    SortIsStrict(from.members, cs);
    SortIsStrict(to.members, cs);
    SortKeepsMeaning(from.members, cs, cs);
    InitiallyLeads(doc.members, fs, cs);
    LowerDistinctIsDistinct(doc.members, cs);
    forall i | 0 <= i < |fs| ensures fs[i] in from.members && Settled(fs[i], cs) { }
    forall i | 0 <= i < |ts| ensures Settled(ts[i], cs) { assert ts[i] in to.members; }
  }

  lemma StartArray(doc: Json, from: Json, to: Json, cs: bool)
    requires Ready(doc, from, to, cs) && from.Array? && to.Array?
    ensures doc.Array? && |doc.items| == |from.items| < SIZE_MODULUS && |to.items| < SIZE_MODULUS
    ensures forall k :: 0 <= k < |from.items| ==>
      View(doc.items[k], cs) == View(from.items[k], cs) && WellFormed(doc.items[k], false)
    ensures forall k :: 0 <= k < |from.items| ==> WellFormed(from.items[k], cs) && Plain(from.items[k])
    ensures forall k :: 0 <= k < |to.items| ==> WellFormed(to.items[k], cs) && Plain(to.items[k])
  {
    assert ViewItems(doc.items, cs) == ViewItems(from.items, cs);
    forall k | 0 <= k < |from.items| ensures View(doc.items[k], cs) == View(from.items[k], cs) {
      assert ViewItems(doc.items, cs)[k] == ViewItems(from.items, cs)[k];
    }
  }

  lemma ScalarReach(doc: Json, from: Json, to: Json, cs: bool)
    requires View(doc, cs) == View(from, cs)
    requires !SameType(from, to) || !(from.Array? || from.Object?)
    ensures Reaches(doc, Edits(from, to, cs), to, cs)
  {
    SingleEdit(doc, Edit("replace", [], Some(to)), cs);
  }

  lemma {:induction false} ArrayCase(doc: Json, from: Json, to: Json, cs: bool)
    requires Ready(doc, from, to, cs) && from.Array? && to.Array?
    ensures Reaches(doc, Edits(from, to, cs), to, cs)
    decreases from, 0, 0, 0
  {
    StartArray(doc, from, to, cs);
    var r := ArrayReach(doc.items, from.items, to.items, 0, cs);
    assert doc == Array(doc.items);
    assert Edits(from, to, cs) == ArrayEdits(from.items, to.items, 0, cs);
    assert View(Array(r), cs) == TArray(ViewItems(r, cs)) && View(to, cs) == TArray(ViewItems(to.items, cs));
  }

  lemma {:induction false} ObjectCase(doc: Json, from: Json, to: Json, cs: bool)
    requires Ready(doc, from, to, cs) && from.Object? && to.Object?
    ensures Reaches(doc, Edits(from, to, cs), to, cs)
    decreases from, 0, |from.members| + |to.members|, 2
  {
    hide Prepend, ApplyEdits, Walking, ObjectEdits, ViewMembers;
    StartWalking(doc, from, to, cs);
    var fs, ts := Sort(from.members, cs), Sort(to.members, cs);
    var ms := ObjectReach(doc.members, from, fs, ts, map[], cs);
    assert WellFormed(to, cs) ==> DistinctKeys(to.members, cs);
    SortKeepsMeaning(to.members, cs, cs);
    assert doc == Object(doc.members);
    assert Edits(from, to, cs) == ObjectEdits(from, fs, ts, cs);
    assert map[] + ViewMembers(ts, cs) == ViewMembers(ts, cs);
    SameFields(ms, to, cs);
  }

  lemma SameFields(ms: seq<Member>, to: Json, cs: bool)
    requires to.Object? && ViewMembers(ms, cs) == ViewMembers(to.members, cs)
    ensures View(Object(ms), cs) == View(to, cs)
  {
  }

  lemma {:induction false} EditsReach(doc: Json, from: Json, to: Json, cs: bool)
    requires Ready(doc, from, to, cs)
    ensures Reaches(doc, Edits(from, to, cs), to, cs)
    decreases from, 1, 0, 0
  {
    if SameType(from, to) && from.Array? {
      ArrayCase(doc, from, to, cs);
    } else if SameType(from, to) && from.Object? {
      ObjectCase(doc, from, to, cs);
    } else {
      ScalarReach(doc, from, to, cs);
    }
  }

  lemma {:induction false} ArrayReach(items: seq<Json>, xs: seq<Json>, ys: seq<Json>, i: nat,
                                      cs: bool) returns (r: seq<Json>)
    requires |items| == |xs| < SIZE_MODULUS && |ys| < SIZE_MODULUS && i <= |xs| && i <= |ys|
    requires forall k :: 0 <= k < i ==> View(items[k], cs) == View(ys[k], cs)
    requires forall k :: i <= k < |xs| ==> View(items[k], cs) == View(xs[k], cs) && WellFormed(items[k], false)
    requires forall k :: 0 <= k < |xs| ==> WellFormed(xs[k], cs) && Plain(xs[k])
    requires forall k :: 0 <= k < |ys| ==> WellFormed(ys[k], cs) && Plain(ys[k])
    ensures ApplyEdits(Array(items), ArrayEdits(xs, ys, i, cs), cs) == Some(Array(r))
    ensures ViewItems(r, cs) == ViewItems(ys, cs)
    decreases xs, 0, |xs| - i
  {
    hide Norm, ApplyEdits, ApplyEdit, Prepend, Decimal, WellFormed, View, Edits, Plain, RemoveEdits, AddEdits;
    if i < |xs| && i < |ys| {
      var es := Edits(xs[i], ys[i], cs);
      EditsReach(items[i], xs[i], ys[i], cs);
      var x := ApplyEdits(items[i], es, cs).value;
      ElementReach(items, i, xs[i], ys[i], cs);
      ApplyEditsAppend(Array(items), Prepend(Decimal(i), es), ArrayEdits(xs, ys, i + 1, cs), cs);
      r := ArrayReach(items[i := x], xs, ys, i + 1, cs);
    } else {
      r := ArrayTail(items, ys, i, cs);
      assert ArrayEdits(xs, ys, i, cs) == RemoveEdits(i, |xs| - i) + AddEdits(ys[i..]);
    }
  }

  /** When one array is used up, what is left is removed or added. */
  lemma ArrayTail(items: seq<Json>, ys: seq<Json>, i: nat, cs: bool) returns (r: seq<Json>)
    requires i <= |items| < SIZE_MODULUS && i <= |ys| && (i == |items| || i == |ys|)
    requires |ys| < SIZE_MODULUS
    requires forall k :: 0 <= k < i ==> View(items[k], cs) == View(ys[k], cs)
    ensures ApplyEdits(Array(items), RemoveEdits(i, |items| - i) + AddEdits(ys[i..]), cs) == Some(Array(r))
    ensures ViewItems(r, cs) == ViewItems(ys, cs)
  {
    hide ApplyEdits, View;
    RemoveElements(items, i, cs);
    AddElements(items[..i], ys[i..], cs);
    ApplyEditsAppend(Array(items), RemoveEdits(i, |items| - i), AddEdits(ys[i..]), cs);
    r := items[..i] + ys[i..];
  }

  /** The patches of one array element rewrite that element. */
  lemma ElementReach(items: seq<Json>, i: nat, x: Json, y: Json, cs: bool)
    requires i < |items| && i < SIZE_MODULUS && Plain(x) && Plain(y)
    requires ApplyEdits(items[i], Edits(x, y, cs), cs).Some?
    ensures ApplyEdits(Array(items), Prepend(Decimal(i), Edits(x, y, cs)), cs)
            == Some(Array(items[i := ApplyEdits(items[i], Edits(x, y, cs), cs).value]))
  {
    var es := Edits(x, y, cs);
    TokenIsIndex(i);
    EditsShape(x, y, cs);
    if es == [Edit("replace", [], Some(y))] {
      PrependReplace(Decimal(i), y);
      ReplaceElement(items, i, y, cs);
      SingleEdit(Array(items), Edit("replace", [Decimal(i)], Some(y)), cs);
      SingleEdit(items[i], Edit("replace", [], Some(y)), cs);
    } else {
      LiftEdits(Array(items), Decimal(i), i, es, cs);
    }
  }

  /** The patches of one common member rewrite that member. */
  lemma MemberReach(ms: seq<Member>, i: nat, f: Member, t: Member, fs: seq<Member>, cs: bool) returns (ms': seq<Member>)
    requires DistinctKeys(ms, cs) && LeadsAt(ms, i, f, cs) && AllLead(ms, fs, cs)
    requires Clean(f.key) && Plain(f.value) && Plain(t.value)
    requires forall k :: 0 <= k < |fs| ==> Norm(fs[k].key, cs) != Norm(f.key, cs)
    requires Reaches(ms[i].value, Edits(f.value, t.value, cs), t.value, cs)
    ensures ApplyEdits(Object(ms), Prepend(f.key, Edits(f.value, t.value, cs)), cs) == Some(Object(ms'))
    ensures DistinctKeys(ms', cs) && AllLead(ms', fs, cs)
    ensures ViewMembers(ms', cs) == ViewMembers(ms, cs)[Norm(f.key, cs) := View(t.value, cs)]
  {
    var es := Edits(f.value, t.value, cs);
    EditsShape(f.value, t.value, cs);
    if es == [Edit("replace", [], Some(t.value))] {
      PrependReplace(f.key, t.value);
      ms' := ReplaceMember(ms, f, t.value, fs, cs);
      SingleEdit(Object(ms), Edit("replace", [f.key], Some(t.value)), cs);
    } else {
      ms' := EditMember(ms, i, f, es, fs, cs);
    }
  }

  ghost predicate KeysOutside(done: map<string, Tree>, s: seq<Member>, cs: bool) {
    forall k :: 0 <= k < |s| ==> Norm(s[k].key, cs) !in done
  }

  lemma TailIsStrict(s: seq<Member>, cs: bool)
    requires s != [] && StrictlyAscending(s, cs) && DistinctKeys(s, cs)
    ensures StrictlyAscending(s[1..], cs) && DistinctKeys(s[1..], cs)
    ensures forall k :: 0 <= k < |s[1..]| ==> Norm(s[1..][k].key, cs) != Norm(s[0].key, cs)
    ensures Norm(s[0].key, cs) !in ViewMembers(s[1..], cs)
    ensures ViewMembers(s, cs) == ViewMembers(s[1..], cs)[Norm(s[0].key, cs) := View(s[0].value, cs)]
  {
    ViewKeys(s[1..], cs, Norm(s[0].key, cs));
  }

  lemma SmallerIsAbsent(x: Member, s: seq<Member>, cs: bool)
    requires StrictlyAscending(s, cs)
    requires s == [] || Compare(x, s[0], cs) < 0
    ensures Norm(x.key, cs) !in ViewMembers(s, cs)
    ensures forall k :: 0 <= k < |s| ==> Norm(s[k].key, cs) != Norm(x.key, cs)
  {
    forall k | 0 <= k < |s| ensures Norm(s[k].key, cs) != Norm(x.key, cs) {
      if k > 0 { ComparisonTransitive(x.key, s[0].key, s[k].key, cs); }
      CompareZero(x.key, s[k].key, cs);
    }
    ViewKeys(s, cs, Norm(x.key, cs));
  }

  lemma MapShift(done: map<string, Tree>, m: map<string, Tree>, k: string, x: Tree, v: Tree)
    requires k !in m
    ensures done[k := v] + m == done + m[k := v]
    ensures (done + m[k := x])[k := v] == done[k := v] + m
    ensures (done + m)[k := v] == done[k := v] + m
    ensures k !in done ==> (done + m[k := x]) - {k} == done + m
  {
    MapAdd(done, m, k, v);
    MapReplace(done, m, k, x, v);
    if k !in done { MapRemove(done, m, k, x); }
  }

  lemma MapAdd(done: map<string, Tree>, m: map<string, Tree>, k: string, v: Tree)
    requires k !in m
    ensures done[k := v] + m == done + m[k := v] == (done + m)[k := v]
  {
  }

  lemma MapReplace(done: map<string, Tree>, m: map<string, Tree>, k: string, x: Tree, v: Tree)
    requires k !in m
    ensures (done + m[k := x])[k := v] == done[k := v] + m
  {
  }

  lemma MapRemove(done: map<string, Tree>, m: map<string, Tree>, k: string, x: Tree)
    requires k !in m && k !in done
    ensures (done + m[k := x]) - {k} == done + m
  {
  }

  /** The state of the object walk: ms is the current member list, fs and ts what is still to be
      walked, done what is settled. */
  ghost predicate Walking(ms: seq<Member>, parent: Json, fs: seq<Member>, ts: seq<Member>, done: map<string, Tree>,
                          cs: bool) {
    parent.Object? && DistinctKeys(ms, cs) && AllLead(ms, fs, cs) &&
    StrictlyAscending(fs, cs) && DistinctKeys(fs, cs) && StrictlyAscending(ts, cs) && DistinctKeys(ts, cs) &&
    (forall i :: 0 <= i < |fs| ==> fs[i] in parent.members && Settled(fs[i], cs)) &&
    (forall i :: 0 <= i < |ts| ==> Settled(ts[i], cs)) &&
    KeysOutside(done, fs, cs) && KeysOutside(done, ts, cs) &&
    ViewMembers(ms, cs) == done + ViewMembers(fs, cs)
  }

  ghost predicate Settled(m: Member, cs: bool) { Clean(m.key) && Plain(m.value) && WellFormed(m.value, cs) }

  lemma {:induction false} ObjectReach(ms: seq<Member>, parent: Json, fs: seq<Member>, ts: seq<Member>,
                                       done: map<string, Tree>, cs: bool)
    returns (r: seq<Member>)
    requires Walking(ms, parent, fs, ts, done, cs)
    ensures ApplyEdits(Object(ms), ObjectEdits(parent, fs, ts, cs), cs) == Some(Object(r))
    ensures ViewMembers(r, cs) == done + ViewMembers(ts, cs)
    decreases parent, 0, |fs| + |ts|, 1
  {
    if fs == [] && ts == [] {
      r := ms;
    } else {
      var diff := Order(fs, ts, cs);
      if diff == 0 {
        r := SharedStep(ms, parent, fs, ts, done, cs);
      } else if diff < 0 {
        r := RemoveStep(ms, parent, fs, ts, done, cs);
      } else {
        r := AddStep(ms, parent, fs, ts, done, cs);
      }
    }
  }

  lemma {:induction false} SharedStep(ms: seq<Member>, parent: Json, fs: seq<Member>, ts: seq<Member>,
                                      done: map<string, Tree>, cs: bool)
    returns (r: seq<Member>)
    requires Walking(ms, parent, fs, ts, done, cs)
    requires fs != [] && ts != [] && Order(fs, ts, cs) == 0
    ensures ApplyEdits(Object(ms), ObjectEdits(parent, fs, ts, cs), cs) == Some(Object(r))
    ensures ViewMembers(r, cs) == done + ViewMembers(ts, cs)
    decreases parent, 0, |fs| + |ts|, 0
  {
    var f, t := fs[0], ts[0];
    assert Settled(f, cs) && Settled(t, cs) && Leads(ms, f, cs);
    var i: nat :| LeadsAt(ms, i, f, cs);
    EditsReach(ms[i].value, f.value, t.value, cs);
    var ms', done' := SharedNext(ms, parent, fs, ts, done, i, cs);
    r := ObjectReach(ms', parent, fs[1..], ts[1..], done', cs);
    ApplyEditsAppend(Object(ms), Prepend(f.key, Edits(f.value, t.value, cs)),
        ObjectEdits(parent, fs[1..], ts[1..], cs), cs);
  }

  lemma SharedNext(ms: seq<Member>, parent: Json, fs: seq<Member>, ts: seq<Member>, done: map<string, Tree>, i: nat,
                   cs: bool)
    returns (ms': seq<Member>, done': map<string, Tree>)
    requires Walking(ms, parent, fs, ts, done, cs)
    requires fs != [] && ts != [] && Order(fs, ts, cs) == 0 && LeadsAt(ms, i, fs[0], cs)
    requires Reaches(ms[i].value, Edits(fs[0].value, ts[0].value, cs), ts[0].value, cs)
    ensures ApplyEdits(Object(ms), Prepend(fs[0].key, Edits(fs[0].value, ts[0].value, cs)), cs) == Some(Object(ms'))
    ensures Walking(ms', parent, fs[1..], ts[1..], done', cs)
    ensures done' + ViewMembers(ts[1..], cs) == done + ViewMembers(ts, cs)
  {
    var f, t := fs[0], ts[0];
    assert Settled(f, cs) && Settled(t, cs);
    CompareZero(f.key, t.key, cs);
    TailIsStrict(fs, cs);
    assert AllLead(ms, fs[1..], cs);
    ms' := MemberReach(ms, i, f, t, fs[1..], cs);
    done' := done[Norm(f.key, cs) := View(t.value, cs)];
    SharedWalks(ms, ms', parent, fs, ts, done, cs);
  }

  /** With a common member rewritten, the walk goes on behind it. */
  lemma SharedWalks(ms: seq<Member>, ms': seq<Member>, parent: Json, fs: seq<Member>, ts: seq<Member>,
                    done: map<string, Tree>, cs: bool)
    requires Walking(ms, parent, fs, ts, done, cs)
    requires fs != [] && ts != [] && Norm(fs[0].key, cs) == Norm(ts[0].key, cs)
    requires DistinctKeys(ms', cs) && AllLead(ms', fs[1..], cs)
    requires ViewMembers(ms', cs) == ViewMembers(ms, cs)[Norm(fs[0].key, cs) := View(ts[0].value, cs)]
    ensures var done' := done[Norm(fs[0].key, cs) := View(ts[0].value, cs)];
            Walking(ms', parent, fs[1..], ts[1..], done', cs) &&
            done' + ViewMembers(ts[1..], cs) == done + ViewMembers(ts, cs)
  {
    var f, t, k := fs[0], ts[0], Norm(fs[0].key, cs);
    TailIsStrict(fs, cs);
    TailIsStrict(ts, cs);
    MapShift(done, ViewMembers(fs[1..], cs), k, View(f.value, cs), View(t.value, cs));
    MapShift(done, ViewMembers(ts[1..], cs), k, View(t.value, cs), View(t.value, cs));
  }

  lemma {:induction false} RemoveStep(ms: seq<Member>, parent: Json, fs: seq<Member>, ts: seq<Member>,
                                      done: map<string, Tree>, cs: bool)
    returns (r: seq<Member>)
    requires Walking(ms, parent, fs, ts, done, cs)
    requires fs != [] && Order(fs, ts, cs) < 0
    ensures ApplyEdits(Object(ms), ObjectEdits(parent, fs, ts, cs), cs) == Some(Object(r))
    ensures ViewMembers(r, cs) == done + ViewMembers(ts, cs)
    decreases parent, 0, |fs| + |ts|, 0
  {
    hide View, Norm, ApplyEdits, ApplyEdit, ViewMembers, DistinctKeys;
    var f := fs[0];
    TailIsStrict(fs, cs);
    assert AllLead(ms, fs[1..], cs);
    assert Leads(ms, f, cs);
    var ms' := RemoveMember(ms, f, fs[1..], cs);
    MapShift(done, ViewMembers(fs[1..], cs), Norm(f.key, cs), View(f.value, cs), View(f.value, cs));
    assert Walking(ms', parent, fs[1..], ts, done, cs);
    r := ObjectReach(ms', parent, fs[1..], ts, done, cs);
    SingleEdit(Object(ms), Edit("remove", [f.key], None), cs);
    ApplyEditsAppend(Object(ms), [Edit("remove", [f.key], None)], ObjectEdits(parent, fs[1..], ts, cs), cs);
  }

  lemma {:induction false} AddStep(ms: seq<Member>, parent: Json, fs: seq<Member>, ts: seq<Member>,
                                   done: map<string, Tree>, cs: bool)
    returns (r: seq<Member>)
    requires Walking(ms, parent, fs, ts, done, cs)
    requires ts != [] && Order(fs, ts, cs) > 0
    ensures ApplyEdits(Object(ms), ObjectEdits(parent, fs, ts, cs), cs) == Some(Object(r))
    ensures ViewMembers(r, cs) == done + ViewMembers(ts, cs)
    decreases parent, 0, |fs| + |ts|, 0
  {
    var t := ts[0];
    var ms', done' := AddNext(ms, parent, fs, ts, done, cs);
    r := ObjectReach(ms', parent, fs, ts[1..], done', cs);
    SingleEdit(Object(ms), Edit("add", [t.key], Some(t.value)), cs);
    ApplyEditsAppend(Object(ms), [Edit("add", [t.key], Some(t.value))], ObjectEdits(parent, fs, ts[1..], cs), cs);
  }

  lemma AddNext(ms: seq<Member>, parent: Json, fs: seq<Member>, ts: seq<Member>, done: map<string, Tree>, cs: bool)
    returns (ms': seq<Member>, done': map<string, Tree>)
    requires Walking(ms, parent, fs, ts, done, cs)
    requires ts != [] && Order(fs, ts, cs) > 0
    ensures ApplyEdit(Object(ms), Edit("add", [ts[0].key], Some(ts[0].value)), cs) == Some(Object(ms'))
    ensures Walking(ms', parent, fs, ts[1..], done', cs)
    ensures done' + ViewMembers(ts[1..], cs) == done + ViewMembers(ts, cs)
  {
    var t := ts[0];
    var k := Norm(t.key, cs);
    TailIsStrict(ts, cs);
    if fs != [] { ComparisonAntisymmetric(fs[0].key, t.key, cs); }
    SmallerIsAbsent(t, fs, cs);
    ms' := AddMember(ms, t, fs, cs);
    done' := done[k := View(t.value, cs)];
    MapShift(done, ViewMembers(fs, cs), k, View(t.value, cs), View(t.value, cs));
    MapShift(done, ViewMembers(ts[1..], cs), k, View(t.value, cs), View(t.value, cs));
  }

  /** Applying what create_patches generated turns every document that means `from` into one that
      means `to`, with status 0: RFC 6902 patches depend only on meaning. */
  lemma PatchRoundTrip(doc: Json, from: Json, to: Json, cs: bool, stale: char)
    requires View(doc, cs) == View(from, cs)
    requires WellFormed(doc, false) && WellFormed(from, cs) && WellFormed(to, cs)
    requires Plain(from) && Plain(to)
    ensures var (r, status) := ApplyAll(doc, CreatePatches("", from, to, cs, stale), cs);
            status == 0 && View(r, cs) == View(to, cs)
  {
    CreateIsRender("", from, to, cs, stale);
    EditsShape(from, to, cs);
    EditsReach(doc, from, to, cs);
    ApplyAllRendered(doc, Edits(from, to, cs), cs);
  }
}
