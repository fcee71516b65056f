/** The parser undoes the printer: parsing what was printed, formatted or not, gives back the very
    same tree. */
module JsonRoundTrip {
  import opened Common
  import opened SortSeq
  import opened JsonValue
  import opened JsonPrint
  import opened JsonParse
  import JsonUnicode

  lemma AtSlice(c: string, q: nat, t: string)
    requires q + |t| <= |c|
    ensures StandsAt(c, q, t) <==> c[q..q + |t|] == t
  {
    if c[q..q + |t|] == t {
      forall i | 0 <= i < |t| ensures c[q + i] == t[i] { assert c[q..q + |t|][i] == c[q + i]; }
    }
  }

  lemma AtFirst(c: string, q: nat, t: string)
    requires StandsAt(c, q, t) && t != []
    ensures q < |c| && c[q] == t[0]
  {
  }

  lemma {:induction false} VisibleFrom(c: string, a: nat, b: nat)
    requires a <= b < |c| && c[b] > ' '
    requires forall i :: a <= i < b ==> c[i] <= ' '
    ensures Skip(c, a) == b && Visible(c, a) == b
    decreases b - a
  {
    if a < b { VisibleFrom(c, a + 1, b); }
  }

  /** White space text between two positions is skipped. */
  ghost predicate Blank(t: string) { forall i :: 0 <= i < |t| ==> t[i] <= ' ' }

  lemma SkipBlank(c: string, a: nat, t: string)
    requires StandsAt(c, a, t) && Blank(t) && a + |t| < |c| && c[a + |t|] > ' '
    ensures Skip(c, a) == a + |t|
  {
    forall i | a <= i < a + |t| ensures c[i] <= ' ' {
      assert c[i] == t[i - a];
    }
    VisibleFrom(c, a, a + |t|);
  }

  // ---------- Strings ----------

  lemma EscapeShape(ch: char)
    requires ch != '\0'
    ensures EscapeLike(EscapeChar(ch)) && |EscapeChar(ch)| in {1, 2, 6} &&
            (|EscapeChar(ch)| == 1 ==> EscapeChar(ch) == [ch])
  {
  }

  /** What EscapeChar produces: a plain character, or a backslash, any character and plain ones. */
  ghost predicate EscapeLike(e: string) {
    e != [] && if |e| == 1 then e[0] != '\"' && e[0] != '\\'
    else e[0] == '\\' && forall i :: 2 <= i < |e| ==> e[i] != '\"' && e[i] != '\\'
  }

  lemma StepsOver(c: string, p: nat, e: string)
    requires EscapeLike(e) && StandsAt(c, p, e)
    ensures FindClose(c, p) == FindClose(c, p + |e|)
  {
    forall i | p <= i < p + |e| ensures c[i] == e[i - p] {
      assert e[i - p] == c[p + (i - p)];
    }
    if |e| > 1 { SkipPlain(c, p + 2, p + |e|); }
  }

  /** The closing quote found is the one after the escaped text. */
  lemma {:induction false} FindsClose(c: string, p: nat, s: string)
    requires '\0' !in s && StandsAt(c, p, Escape(s) + "\"")
    ensures FindClose(c, p) == Some(p + |Escape(s)|)
    decreases |s|
  {
    hide StandsAt, EscapeChar, EscapeLike;
    if s == [] {
      AtFirst(c, p, Escape(s) + "\"");
    } else {
      assert s[0] in s;
      var e, rest := EscapeChar(s[0]), Escape(s[1..]);
      assert Escape(s) == e + rest;
      EscapeShape(s[0]);
      assert e + rest + "\"" == e + (rest + "\"");
      StandsApart(c, p, e, rest + "\"");
      StepsOver(c, p, e);
      FindsClose(c, p + |e|, s[1..]);
    }
  }

  lemma {:induction false} SkipPlain(c: string, a: nat, b: nat)
    requires a <= b <= |c| && forall i :: a <= i < b ==> c[i] != '\"' && c[i] != '\\'
    ensures FindClose(c, a) == FindClose(c, b)
    decreases b - a
  {
    if a < b { SkipPlain(c, a + 1, b); }
  }

  /** A \u escape written by the printer is read back as its one character. */
  lemma ControlRoundTrip(ch: char, rest: string)
    requires ch < ' '
    ensures var e := ['\\', 'u', '0', '0', HexDigit(ch as int / 16), HexDigit(ch as int % 16)];
            Utf16Literal(e + rest) == Some(([ch], 6))
  {
    var e := ['\\', 'u', '0', '0', HexDigit(ch as int / 16), HexDigit(ch as int % 16)];
    var t := (e + rest)[2..];
    JsonUnicode.HexDigitReads(ch as int / 16);
    JsonUnicode.HexDigitReads(ch as int % 16);
    assert t[0] == '0' && t[1] == '0' && t[2] == e[4] && t[3] == e[5];
    assert ParseHex4(t) == ch as int;
    assert Byte(ch as int) == ch;
  }

  lemma UnescapeOne(ch: char, rest: string)
    requires ch != '\0'
    ensures Unescape(EscapeChar(ch) + rest) == Prefixed([ch], Unescape(rest))
  {
    var e := EscapeChar(ch);
    var body := e + rest;
    EscapeShape(ch);
    if |e| == 1 {
      assert body[1..] == rest && body[0] == ch;
    } else if |e| == 2 {
      assert body[2..] == rest && body[0] == e[0] && body[1] == e[1];
    } else {
      ControlRoundTrip(ch, rest);
      assert body[6..] == rest && body[0] == '\\' && body[1] == 'u';
    }
  }

  /** Unescaping undoes escaping. */
  lemma {:induction false} UnescapeUndoesEscape(s: string)
    requires '\0' !in s
    ensures Unescape(Escape(s)) == Some(s)
  {
    if s != [] {
      assert s[0] in s;
      UnescapeUndoesEscape(s[1..]);
      UnescapeOne(s[0], Escape(s[1..]));
      assert s == [s[0]] + s[1..];
    }
  }

  lemma ReadsLiteral(c: string, q: nat, s: string, body: string)
    requires Content(c) && q < |c| && c[q] == '\"' && StandsAt(c, q + 1, body)
    requires FindClose(c, q + 1) == Some(q + 1 + |body|) && Unescape(body) == Some(s)
    ensures ParseString(c, q) == Ok(s, q + 1 + |body| + 1)
  {
    hide Unescape, FindClose;
    AtSlice(c, q + 1, body);
  }

  lemma StringRoundTrip(c: string, q: nat, s: string)
    requires Content(c) && '\0' !in s && StandsAt(c, q, Quote(s)) && q < |c|
    ensures ParseString(c, q) == Ok(s, q + |Quote(s)|)
  {
    hide StandsAt, FindClose, Unescape, ParseString;
    var body := Escape(s);
    assert Quote(s) == "\"" + (body + "\"");
    StandsApart(c, q, "\"", body + "\"");
    AtFirst(c, q, "\"");
    FindsClose(c, q + 1, s);
    StandsApart(c, q + 1, body, "\"");
    UnescapeUndoesEscape(s);
    ReadsLiteral(c, q, s, body);
  }

  // ---------- Numbers ----------

  lemma {:induction false} RunStops(c: string, q: nat, t: string, limit: nat)
    requires Content(c) && StandsAt(c, q, t) && q + |t| < |c| && |t| <= limit
    requires forall i :: 0 <= i < |t| ==> IsNumberChar(t[i])
    requires !IsNumberChar(c[q + |t|])
    ensures NumberRun(c, q, limit) == t
    decreases |t|
  {
    if t != [] {
      AtFirst(c, q, t);
      assert t == [t[0]] + t[1..];
      StandsApart(c, q, [t[0]], t[1..]);
      RunStops(c, q + 1, t[1..], limit - 1);
    }
  }

  // ---------- The trees that round-trip ----------

  /** No invalid item, every string and name a C string, every number carrying the int that
      belongs to its double and a text that is read back, and containers nested at most
      NESTING_LIMIT deep when this tree stands at the given depth. */
  ghost predicate Good(j: Json, depth: nat, nf: NumberFormat)
    decreases j, 2
  {
    match j
    case Invalid => false
    case Number(i, d) => i == Saturate(d) && Inverse(d, nf)
    case Str(s) => '\0' !in s
    case Array(items) => depth < NESTING_LIMIT && GoodItems(items, depth + 1, nf)
    case Object(ms) => depth < NESTING_LIMIT && GoodMembers(ms, depth + 1, nf)
    case _ => true
  }

  ghost predicate GoodItems(items: seq<Json>, depth: nat, nf: NumberFormat)
    decreases items, 1
  {
    forall k :: 0 <= k < |items| ==> Good(items[k], depth, nf)
  }

  ghost predicate GoodMembers(ms: seq<Member>, depth: nat, nf: NumberFormat)
    decreases ms, 1
  {
    forall k :: 0 <= k < |ms| ==> '\0' !in ms[k].key && Good(ms[k].value, depth, nf)
  }

  /** Such a tree meets what the print buffer asks of its trees. */
  lemma {:induction false} GoodIsPrintable(j: Json, depth: nat, nf: NumberFormat)
    requires Good(j, depth, nf)
    ensures Printable(j) && CStringsOnly(j)
  {
    match j
    case Array(items) =>
      forall k | 0 <= k < |items| ensures Printable(items[k]) && CStringsOnly(items[k]) {
        assert Good(items[k], depth + 1, nf);
        GoodIsPrintable(items[k], depth + 1, nf);
      }
    case Object(ms) =>
      forall k | 0 <= k < |ms| ensures '\0' !in ms[k].key && Printable(ms[k].value) && CStringsOnly(ms[k].value) {
        assert Good(ms[k].value, depth + 1, nf);
        GoodIsPrintable(ms[k].value, depth + 1, nf);
      }
    case _ =>
  }

  lemma GoodItemsAreValid(items: seq<Json>, depth: nat, nf: NumberFormat)
    requires GoodItems(items, depth, nf)
    ensures forall k :: 0 <= k < |items| ==> !items[k].Invalid?
  {
    forall k | 0 <= k < |items| ensures !items[k].Invalid? { assert Good(items[k], depth, nf); }
  }

  lemma GoodMembersAreValid(ms: seq<Member>, depth: nat, nf: NumberFormat)
    requires GoodMembers(ms, depth, nf)
    ensures forall k :: 0 <= k < |ms| ==> !ms[k].value.Invalid?
  {
    forall k | 0 <= k < |ms| ensures !ms[k].value.Invalid? { assert Good(ms[k].value, depth, nf); }
  }

  /** What may follow a value: nothing that would extend a number. */
  ghost predicate Stops(c: string, q: nat) { q < |c| && !IsNumberChar(c[q]) }

  lemma FirstIsVisible(j: Json, fmt: bool, pd: nat, nf: NumberFormat)
    requires !j.Invalid? && NumberTexts(nf)
    ensures PrintText(j, fmt, pd, nf) != [] && PrintText(j, fmt, pd, nf)[0] > ' '
    ensures PrintText(j, fmt, pd, nf)[0] != ']' && PrintText(j, fmt, pd, nf)[0] < 0x80 as char
  {
    if j.Number? { assert NumberText(nf.show(j.valuedouble)); }
  }

  lemma WordsDiffer(c: string, q: nat, t: string, word: string)
    requires StandsAt(c, q, t) && t != [] && word != [] && t[0] != word[0]
    ensures !Reads(c, q, word)
  {
    AtFirst(c, q, t);
    assert q + |word| <= |c| ==> c[q..q + |word|][0] == c[q];
  }

  lemma NumberRoundTrip(c: string, q: nat, i: int, d: real, depth: nat, nf: NumberFormat)
    requires Content(c) && NumberTexts(nf) && StandsAt(c, q, nf.show(d)) && Stops(c, q + |nf.show(d)|)
    requires i == Saturate(d) && Inverse(d, nf)
    ensures ParseValue(c, q, depth, nf) == Ok(Number(i, d), q + |nf.show(d)|)
  {
    var t := nf.show(d);
    assert NumberText(t);
    AtFirst(c, q, t);
    WordsDiffer(c, q, t, "null");
    WordsDiffer(c, q, t, "false");
    WordsDiffer(c, q, t, "true");
    RunStops(c, q, t, 63);
  }

  lemma ConstantRoundTrip(c: string, q: nat, j: Json, t: string, depth: nat, nf: NumberFormat)
    requires Content(c) && q < |c| && StandsAt(c, q, t)
    requires (j == Null && t == "null") || (j == False && t == "false") || (j == True && t == "true")
    ensures ParseValue(c, q, depth, nf) == Ok(j, q + |t|)
  {
    hide ParseString, ParseNumber, ParseArray, ParseObject;
    AtSlice(c, q, t);
    if j != Null { WordsDiffer(c, q, t, "null"); }
    if j == True { WordsDiffer(c, q, t, "false"); }
  }

  lemma {:induction false} ParseUndoesPrint(c: string, q: nat, j: Json, fmt: bool, pd: nat, depth: nat,
        nf: NumberFormat)
    requires Content(c) && NumberTexts(nf) && depth <= NESTING_LIMIT && Good(j, depth, nf)
    requires StandsAt(c, q, PrintText(j, fmt, pd, nf)) && Stops(c, q + |PrintText(j, fmt, pd, nf)|)
    ensures ParseValue(c, q, depth, nf) == Ok(j, q + |PrintText(j, fmt, pd, nf)|)
    decreases j, 3
  {
    hide ParseString, ParseNumber, ParseArray, ParseObject, StandsAt, ItemsText, MembersText, Indent, Escape;
    var t := PrintText(j, fmt, pd, nf);
    match j
    case Null => ConstantRoundTrip(c, q, j, t, depth, nf);
    case False => ConstantRoundTrip(c, q, j, t, depth, nf);
    case True => ConstantRoundTrip(c, q, j, t, depth, nf);
    case Number(i, d) => NumberRoundTrip(c, q, i, d, depth, nf);
    case Str(s) =>
      OpensWith(c, q, t, '\"');
      StringRoundTrip(c, q, s);
    case Array(items) =>
      OpensWith(c, q, t, '[');
      ArrayRoundTrip(c, q, items, fmt, pd, depth, nf);
    case Object(ms) =>
      OpensWith(c, q, t, '{');
      ObjectRoundTrip(c, q, ms, fmt, pd, depth, nf);
  }

  lemma OpensWith(c: string, q: nat, t: string, first: char)
    requires StandsAt(c, q, t) && t != [] && t[0] == first && first in {'\"', '[', '{'}
    ensures q < |c| && c[q] == first
    ensures !Reads(c, q, "null") && !Reads(c, q, "false") && !Reads(c, q, "true")
  {
    AtFirst(c, q, t);
    WordsDiffer(c, q, t, "null");
    WordsDiffer(c, q, t, "false");
    WordsDiffer(c, q, t, "true");
  }

  // ---------- Arrays ----------

  lemma SplitThree(c: string, q: nat, a: string, b: string, d: string)
    requires StandsAt(c, q, a + b + d)
    ensures StandsAt(c, q, a) && StandsAt(c, q + |a|, b) && StandsAt(c, q + |a| + |b|, d) &&
            |a + b + d| == |a| + |b| + |d|
  {
    StandsApart(c, q, a + b, d);
    StandsApart(c, q, a, b);
  }

  lemma AtJoin(c: string, q: nat, a: string, b: string)
    requires StandsAt(c, q, a) && StandsAt(c, q + |a|, b)
    ensures StandsAt(c, q, a + b)
  {
    forall i | 0 <= i < |a + b| ensures c[q + i] == (a + b)[i] {
      if i >= |a| { assert b[i - |a|] == c[q + |a| + (i - |a|)]; }
    }
  }

  /** The elements are laid out from q up to a closing bracket at `close`, as a parser walks them. */
  ghost predicate ItemsAt(c: string, q: nat, items: seq<Json>, close: nat, fmt: bool, pd: nat, nf: NumberFormat)
    requires items != []
    decreases |items|
  {
    var t := PrintText(items[0], fmt, pd, nf);
    var p := q + |t|;
    StandsAt(c, q, t) && q < |c| && c[q] > ' ' && c[q] != ']' && Stops(c, p) && c[p] > ' ' &&
    if |items| == 1 then p == close && c[p] == ']'
    else c[p] == ',' && p + 1 < |c| && ItemsAt(c, Skip(c, p + 1), items[1..], close, fmt, pd, nf)
  }

  lemma CommaLeads(c: string, p: nat, fmt: bool)
    requires StandsAt(c, p, Comma(fmt)) && p + |Comma(fmt)| < |c| && c[p + |Comma(fmt)|] > ' '
    ensures c[p] == ',' && Stops(c, p) && Skip(c, p + 1) == p + |Comma(fmt)|
  {
    var blank := if fmt then " " else "";
    assert Comma(fmt) == "," + blank;
    AtFirst(c, p, Comma(fmt));
    StandsApart(c, p, ",", blank);
    SkipBlank(c, p + 1, blank);
  }

  lemma StartsVisibly(c: string, q: nat, j: Json, fmt: bool, pd: nat, nf: NumberFormat)
    requires !j.Invalid? && NumberTexts(nf) && StandsAt(c, q, PrintText(j, fmt, pd, nf))
    ensures q < |c| && c[q] > ' ' && c[q] != ']'
  {
    FirstIsVisible(j, fmt, pd, nf);
    AtFirst(c, q, PrintText(j, fmt, pd, nf));
  }

  lemma StartsWithItem(c: string, q: nat, items: seq<Json>, fmt: bool, pd: nat, nf: NumberFormat)
    requires NumberTexts(nf) && items != [] && !items[0].Invalid? && StandsAt(c, q, ItemsText(items, fmt, pd, nf))
    ensures q < |c| && c[q] > ' ' && c[q] != ']'
  {
    SplitThree(c, q, PrintText(items[0], fmt, pd, nf), if |items| > 1 then Comma(fmt) else "",
      ItemsText(items[1..], fmt, pd, nf));
    StartsVisibly(c, q, items[0], fmt, pd, nf);
  }

  lemma {:induction false} ItemsLaidOut(c: string, q: nat, items: seq<Json>, close: nat, fmt: bool, pd: nat,
        nf: NumberFormat)
    requires NumberTexts(nf) && items != [] && forall k :: 0 <= k < |items| ==> !items[k].Invalid?
    requires StandsAt(c, q, ItemsText(items, fmt, pd, nf)) && close == q + |ItemsText(items, fmt, pd, nf)|
    requires close < |c| && c[close] == ']'
    ensures ItemsAt(c, q, items, close, fmt, pd, nf)
    decreases |items|
  {
    var t, comma := PrintText(items[0], fmt, pd, nf), if |items| > 1 then Comma(fmt) else "";
    var rest := ItemsText(items[1..], fmt, pd, nf);
    SplitThree(c, q, t, comma, rest);
    StartsVisibly(c, q, items[0], fmt, pd, nf);
    if |items| > 1 {
      ItemsLaidOut(c, q + |t| + |comma|, items[1..], close, fmt, pd, nf);
      CommaLeads(c, q + |t|, fmt);
    }
  }

  /** From a position whose white space leads to q, the elements laid out at q are read. */
  lemma {:induction false} ItemsRoundTrip(c: string, at: nat, q: nat, items: seq<Json>, close: nat, fmt: bool,
        pd: nat, depth: nat, nf: NumberFormat)
    requires Content(c) && NumberTexts(nf) && depth <= NESTING_LIMIT && items != [] && GoodItems(items, depth, nf)
    requires at + 1 < |c| && Skip(c, at + 1) == q && ItemsAt(c, q, items, close, fmt, pd, nf)
    ensures ParseItems(c, at, depth, nf) == Ok(items, close)
    decreases items, 4
  {
    hide PrintText, StandsAt, ParseValue;
    var p := q + |PrintText(items[0], fmt, pd, nf)|;
    ParseUndoesPrint(c, q, items[0], fmt, pd, depth, nf);
    VisibleFrom(c, p, p);
    assert ParseItem(c, at, depth, nf) == Ok(items[0], p);
    if |items| > 1 {
      ItemsRoundTrip(c, p, Skip(c, p + 1), items[1..], close, fmt, pd, depth, nf);
      assert items == [items[0]] + items[1..];
    } else {
      assert items == [items[0]];
    }
  }

  lemma {:induction false} ArrayRoundTrip(c: string, q: nat, items: seq<Json>, fmt: bool, pd: nat, depth: nat,
        nf: NumberFormat)
    requires Content(c) && NumberTexts(nf) && depth <= NESTING_LIMIT && Good(Array(items), depth, nf)
    requires StandsAt(c, q, ArrayText(items, fmt, pd, nf)) && q < |c| && c[q] == '['
    ensures ParseArray(c, q, depth, nf) == Ok(Array(items), q + |ArrayText(items, fmt, pd, nf)|)
    decreases items, 5
  {
    hide PrintText, StandsAt, ItemsAt, ParseItems;
    var body := ItemsText(items, fmt, pd + 1, nf);
    SplitThree(c, q, "[", body, "]");
    var close := q + 1 + |body|;
    AtFirst(c, close, "]");
    GoodItemsAreValid(items, depth + 1, nf);
    if items == [] {
      VisibleFrom(c, q + 1, q + 1);
    } else {
      StartsWithItem(c, q + 1, items, fmt, pd + 1, nf);
      VisibleFrom(c, q + 1, q + 1);
      ItemsLaidOut(c, q + 1, items, close, fmt, pd + 1, nf);
      ItemsRoundTrip(c, q, q + 1, items, close, fmt, pd + 1, depth + 1, nf);
    }
  }

  // ---------- Objects ----------

  /** Where the value of a member whose name stands at q ends. */
  ghost function ValueEnd(q: nat, m: Member, fmt: bool, pd: nat, nf: NumberFormat): nat {
    q + |Quote(m.key)| + |Colon(fmt)| + |PrintText(m.value, fmt, pd, nf)|
  }

  /** The name at q, a colon and the value, each where the parser looks for it. */
  ghost predicate MemberAt(c: string, q: nat, m: Member, fmt: bool, pd: nat, nf: NumberFormat) {
    var p := q + |Quote(m.key)|;
    var v := p + |Colon(fmt)|;
    StandsAt(c, q, Quote(m.key)) && v < |c| && Skip(c, p) == p && c[p] == ':' && Skip(c, p + 1) == v &&
    StandsAt(c, v, PrintText(m.value, fmt, pd, nf))
  }

  /** The members are laid out from the first name at q up to a closing brace at `close`. */
  ghost predicate MembersAt(c: string, q: nat, ms: seq<Member>, close: nat, fmt: bool, pd: nat, nf: NumberFormat)
    requires ms != []
    decreases |ms|
  {
    var after := ValueEnd(q, ms[0], fmt, pd, nf);
    MemberAt(c, q, ms[0], fmt, pd, nf) && Stops(c, after) &&
    if |ms| == 1 then close < |c| && Skip(c, after) == close && c[close] == '}'
    else after + 1 < |c| && c[after] == ',' && MembersAt(c, Skip(c, after + 1), ms[1..], close, fmt, pd, nf)
  }

  /** A name, a colon and a value in their places make a member. */
  lemma ReadsMember(c: string, at: nat, q: nat, key: string, p: nat, v: nat, value: Json, after: nat, depth: nat,
                    nf: NumberFormat)
    requires Content(c) && at + 1 < |c| && Skip(c, at + 1) == q && ParseString(c, q) == Ok(key, p)
    requires Skip(c, p) == p && c[p] == ':' && p + 1 < |c| && Skip(c, p + 1) == v &&
             ParseValue(c, v, depth, nf) == Ok(value, after)
    ensures ParseMember(c, at, depth, nf) == Ok(Keyed(key, value), Skip(c, after))
  {
    hide ParseString, ParseValue;
  }

  lemma ReadsLast(c: string, at: nat, m: Member, end: nat, depth: nat, nf: NumberFormat)
    requires Content(c) && at + 1 < |c| && ParseMember(c, at, depth, nf) == Ok(m, end) && c[end] == '}'
    ensures ParseMembers(c, at, depth, nf) == Ok([m], end)
  {
    hide ParseMember;
  }

  lemma ReadsMore(c: string, at: nat, m: Member, end: nat, rest: seq<Member>, last: nat, depth: nat, nf: NumberFormat)
    requires Content(c) && at + 1 < |c| && ParseMember(c, at, depth, nf) == Ok(m, end) && c[end] == ','
    requires end + 1 < |c| && ParseMembers(c, end, depth, nf) == Ok(rest, last)
    ensures ParseMembers(c, at, depth, nf) == Ok([m] + rest, last)
  {
    hide ParseMember;
  }

  /** One member: from white space leading to its name at q, to the first visible character after
      its value. */
  lemma {:induction false} MemberRoundTrip(c: string, at: nat, q: nat, m: Member, fmt: bool, pd: nat, depth: nat,
        nf: NumberFormat)
    requires Content(c) && NumberTexts(nf) && depth <= NESTING_LIMIT && '\0' !in m.key && Good(m.value, depth, nf)
    requires at + 1 < |c| && Skip(c, at + 1) == q && MemberAt(c, q, m, fmt, pd, nf) &&
             Stops(c, ValueEnd(q, m, fmt, pd, nf))
    ensures ParseMember(c, at, depth, nf) == Ok(m, Skip(c, ValueEnd(q, m, fmt, pd, nf)))
    decreases m, 4
  {
    hide PrintText, Quote, Colon, ParseString, ParseValue, ParseMember;
    StringRoundTrip(c, q, m.key);
    var p := q + |Quote(m.key)|;
    var v := p + |Colon(fmt)|;
    ParseUndoesPrint(c, v, m.value, fmt, pd, depth, nf);
    ReadsMember(c, at, q, m.key, p, v, m.value, ValueEnd(q, m, fmt, pd, nf), depth, nf);
  }

  lemma {:induction false} MembersRoundTrip(c: string, at: nat, q: nat, ms: seq<Member>, close: nat, fmt: bool,
        pd: nat, depth: nat, nf: NumberFormat)
    requires Content(c) && NumberTexts(nf) && depth <= NESTING_LIMIT && ms != [] && GoodMembers(ms, depth, nf)
    requires at + 1 < |c| && Skip(c, at + 1) == q && MembersAt(c, q, ms, close, fmt, pd, nf)
    ensures ParseMembers(c, at, depth, nf) == Ok(ms, close)
    decreases ms, 4
  {
    hide PrintText, Quote, Colon, MemberAt, ParseMember, ParseMembers;
    var m, after := ms[0], ValueEnd(q, ms[0], fmt, pd, nf);
    MemberRoundTrip(c, at, q, m, fmt, pd, depth, nf);
    if |ms| > 1 {
      VisibleFrom(c, after, after);
      MembersRoundTrip(c, after, Skip(c, after + 1), ms[1..], close, fmt, pd, depth, nf);
      ReadsMore(c, at, m, after, ms[1..], close, depth, nf);
      assert ms == [m] + ms[1..];
    } else {
      ReadsLast(c, at, m, close, depth, nf);
      assert ms == [m];
    }
  }

  lemma ColonLeads(c: string, p: nat, fmt: bool)
    requires StandsAt(c, p, Colon(fmt)) && p + |Colon(fmt)| < |c| && c[p + |Colon(fmt)|] > ' '
    ensures c[p] == ':' && Skip(c, p) == p && Skip(c, p + 1) == p + |Colon(fmt)|
  {
    var blank := if fmt then "\t" else "";
    assert Colon(fmt) == ":" + blank;
    AtFirst(c, p, Colon(fmt));
    StandsApart(c, p, ":", blank);
    VisibleFrom(c, p, p);
    SkipBlank(c, p + 1, blank);
  }

  /** The line end of formatted text. */
  ghost function LineEnd(fmt: bool): string { if fmt then "\n" else "" }

  /** After one visible character at p: the line end, the indentation and the next visible one. */
  lemma LineLeads(c: string, p: nat, head: string, fmt: bool, pd: nat, next: nat)
    requires |head| <= 1 && StandsAt(c, p, head + LineEnd(fmt)) &&
             StandsAt(c, p + |head| + |LineEnd(fmt)|, Indent(fmt, pd))
    requires next == p + |head| + |LineEnd(fmt)| + |Indent(fmt, pd)| && next < |c| && c[next] > ' '
    ensures Skip(c, p + |head|) == next
  {
    StandsApart(c, p, head, LineEnd(fmt));
    AtJoin(c, p + |head|, LineEnd(fmt), Indent(fmt, pd));
    SkipBlank(c, p + |head|, LineEnd(fmt) + Indent(fmt, pd));
  }

  /** A member's text is its indentation, the member itself and what follows it. */
  lemma MemberLaidOut(c: string, q: nat, m: Member, tail: string, rest: string, fmt: bool, pd: nat, nf: NumberFormat)
      returns (name: nat, after: nat)
    requires NumberTexts(nf) && !m.value.Invalid?
    requires StandsAt(c, q, KeyText(m.key, fmt, pd) + PrintText(m.value, fmt, pd, nf) + tail + rest)
    ensures name == q + |Indent(fmt, pd)| && StandsAt(c, q, Indent(fmt, pd)) && name < |c| && c[name] == '\"'
    ensures after == ValueEnd(name, m, fmt, pd, nf) && MemberAt(c, name, m, fmt, pd, nf)
    ensures StandsAt(c, after, tail) && StandsAt(c, after + |tail|, rest)
    ensures |KeyText(m.key, fmt, pd) + PrintText(m.value, fmt, pd, nf) + tail + rest| == after - q + |tail| + |rest|
  {
    hide PrintText, Escape, Indent, StandsAt, Skip;
    var key, t := KeyText(m.key, fmt, pd), PrintText(m.value, fmt, pd, nf);
    SplitThree(c, q, key + t, tail, rest);
    StandsApart(c, q, key, t);
    SplitThree(c, q, Indent(fmt, pd), Quote(m.key), Colon(fmt));
    name := q + |Indent(fmt, pd)|;
    after := ValueEnd(name, m, fmt, pd, nf);
    AtFirst(c, name, Quote(m.key));
    StartsVisibly(c, q + |key|, m.value, fmt, pd, nf);
    ColonLeads(c, name + |Quote(m.key)|, fmt);
  }

  /** What follows the value of the last member. */
  lemma ClosingLeads(c: string, after: nat, fmt: bool, pd: nat, close: nat)
    requires StandsAt(c, after, LineEnd(fmt)) && StandsAt(c, after + |LineEnd(fmt)|, Indent(fmt, pd))
    requires close == after + |LineEnd(fmt)| + |Indent(fmt, pd)| && close < |c| && c[close] == '}'
    ensures Stops(c, after) && Skip(c, after) == close
  {
    assert "" + LineEnd(fmt) == LineEnd(fmt);
    LineLeads(c, after, "", fmt, pd, close);
    if fmt { AtFirst(c, after, LineEnd(fmt)); }
  }

  lemma {:induction false} MembersLaidOut(c: string, q: nat, ms: seq<Member>, close: nat, fmt: bool, pd: nat,
        nf: NumberFormat)
      returns (name: nat)
    requires NumberTexts(nf) && ms != [] && pd > 0 && forall k :: 0 <= k < |ms| ==> !ms[k].value.Invalid?
    requires StandsAt(c, q, MembersText(ms, fmt, pd, nf))
    requires StandsAt(c, q + |MembersText(ms, fmt, pd, nf)|, Indent(fmt, pd - 1))
    requires close == q + |MembersText(ms, fmt, pd, nf)| + |Indent(fmt, pd - 1)| && close < |c| && c[close] == '}'
    ensures name == q + |Indent(fmt, pd)| && StandsAt(c, q, Indent(fmt, pd)) && name < |c| && c[name] == '\"'
    ensures MembersAt(c, name, ms, close, fmt, pd, nf)
    decreases |ms|
  {
    hide PrintText, Quote, Indent, KeyText, Colon, ValueEnd, MemberAt, StandsAt, Skip;
    var m, tail, rest := ms[0], AfterMember(|ms| > 1, fmt), MembersText(ms[1..], fmt, pd, nf);
    var after;
    name, after := MemberLaidOut(c, q, m, tail, rest, fmt, pd, nf);
    if |ms| == 1 {
      assert tail == LineEnd(fmt) && rest == "";
      ClosingLeads(c, after, fmt, pd - 1, close);
    } else {
      assert tail == "," + LineEnd(fmt);
      AtFirst(c, after, tail);
      var next := MembersLaidOut(c, after + |tail|, ms[1..], close, fmt, pd, nf);
      LineLeads(c, after, ",", fmt, pd, next);
    }
  }

  lemma {:induction false} ObjectRoundTrip(c: string, q: nat, ms: seq<Member>, fmt: bool, pd: nat, depth: nat,
        nf: NumberFormat)
    requires Content(c) && NumberTexts(nf) && depth <= NESTING_LIMIT && Good(Object(ms), depth, nf)
    requires StandsAt(c, q, ObjectText(ms, fmt, pd, nf)) && q < |c| && c[q] == '{'
    ensures ParseObject(c, q, depth, nf) == Ok(Object(ms), q + |ObjectText(ms, fmt, pd, nf)|)
    decreases ms, 5
  {
    hide PrintText, KeyText, AfterMember, Indent, StandsAt, Skip, GoodMembers, MembersAt, ParseMembers;
    var open, body, indent := Opening(fmt), MembersText(ms, fmt, pd + 1, nf), Indent(fmt, pd);
    SplitThree(c, q, open, body, indent + "}");
    var close := q + |open| + |body| + |indent|;
    StandsApart(c, q + |open| + |body|, indent, "}");
    AtFirst(c, close, "}");
    assert open == "{" + LineEnd(fmt);
    if ms == [] {
      LineLeads(c, q, "{", fmt, pd, close);
    } else {
      GoodMembersAreValid(ms, depth + 1, nf);
      var name := MembersLaidOut(c, q + |open|, ms, close, fmt, pd + 1, nf);
      LineLeads(c, q, "{", fmt, pd + 1, name);
      VisibleFrom(c, name, name);
      MembersRoundTrip(c, name - 1, name, ms, close, fmt, pd + 1, depth + 1, nf);
    }
  }

  // ---------- The whole document ----------

  /** cJSON_Parse(cJSON_Print(tree)) is the tree, and parsing consumes the whole text. */
  lemma PrintThenParse(j: Json, fmt: bool, requireNullTerminated: bool, nf: NumberFormat)
    requires NumberTexts(nf) && Good(j, 0, nf)
    ensures ParseWithOpts(PrintText(j, fmt, 0, nf), requireNullTerminated, nf) == Ok(j, |PrintText(j, fmt, 0, nf)|)
  {
    var t := PrintText(j, fmt, 0, nf);
    var c := t + ['\0'];
    FirstIsVisible(j, fmt, 0, nf);
    assert c[0] == t[0] && SkipBom(c) == 0;
    VisibleFrom(c, 0, 0);
    ParseUndoesPrint(c, 0, j, fmt, 0, 0, nf);
    assert Visible(c, |t| + 1) == |c|;
    assert Skip(c, |t|) == |t|;
  }
}
