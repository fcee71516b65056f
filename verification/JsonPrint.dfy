/** The text cJSON prints for a tree, formatted or not.  The conversion between numbers and their
    text (printf and strtod) is a parameter. */
module JsonPrint {
  import opened SortSeq
  import opened JsonValue

  /** show is the printed text of a number; scan is strtod: the value and how much was consumed. */
  datatype NumberFormat = NumberFormat(show: real -> string, scan: string -> (real, nat))

  predicate IsDigit(c: char) { '0' <= c <= '9' }

  /** The characters parse_number collects. */
  predicate IsNumberChar(c: char) { IsDigit(c) || c == '+' || c == '-' || c == 'e' || c == 'E' || c == '.' }

  ghost predicate NumberText(t: string) {
    1 <= |t| <= 25 && (t[0] == '-' || IsDigit(t[0])) && forall i :: 0 <= i < |t| ==> IsNumberChar(t[i])
  }

  /** Every printed number is a short run of number characters that starts like one. */
  ghost predicate NumberTexts(nf: NumberFormat) {
    forall d: real :: NumberText(nf.show(d))
  }

  /** printf and strtod are an inverse pair on this number. */
  ghost predicate Inverse(d: real, nf: NumberFormat) {
    nf.scan(nf.show(d)) == (d, |nf.show(d)|)
  }

  function HexDigit(n: nat): char
    requires n < 16
  {
    if n < 10 then ('0' as int + n) as char else ('a' as int + n - 10) as char
  }

  function EscapeChar(c: char): (r: string)
    ensures r != []
  {
    if c == '\\' then ['\\', '\\']
    else if c == '\"' then ['\\', '\"']
    else if c == 8 as char then ['\\', 'b']
    else if c == 12 as char then ['\\', 'f']
    else if c == '\n' then ['\\', 'n']
    else if c == '\r' then ['\\', 'r']
    else if c == '\t' then ['\\', 't']
    else if c < ' ' then ['\\', 'u', '0', '0', HexDigit(c as int / 16), HexDigit(c as int % 16)]
    else [c]
  }

  function Escape(s: string): string {
    if s == [] then [] else EscapeChar(s[0]) + Escape(s[1..])
  }

  function Quote(s: string): string { "\"" + Escape(s) + "\"" }

  function Tabs(n: nat): (r: string)
    ensures |r| == n && forall i :: 0 <= i < n ==> r[i] == '\t'
  {
    seq(n, _ => '\t')
  }

  function Indent(fmt: bool, n: nat): string { if fmt then Tabs(n) else "" }

  function Colon(fmt: bool): string { if fmt then ":\t" else ":" }

  function Opening(fmt: bool): string { if fmt then "{\n" else "{" }

  function PrintText(j: Json, fmt: bool, depth: nat, nf: NumberFormat): string
    decreases j, 2
  {
    match j
    case Invalid => ""
    case Null => "null"
    case False => "false"
    case True => "true"
    case Number(_, d) => nf.show(d)
    case Str(s) => Quote(s)
    case Array(items) => ArrayText(items, fmt, depth, nf)
    case Object(ms) => ObjectText(ms, fmt, depth, nf)
  }

  function ArrayText(items: seq<Json>, fmt: bool, depth: nat, nf: NumberFormat): string
    decreases items, 1
  {
    "[" + ItemsText(items, fmt, depth + 1, nf) + "]"
  }

  function ObjectText(ms: seq<Member>, fmt: bool, depth: nat, nf: NumberFormat): string
    decreases ms, 1
  {
    Opening(fmt) + MembersText(ms, fmt, depth + 1, nf) + (Indent(fmt, depth) + "}")
  }

  function Comma(fmt: bool): string { if fmt then ", " else "," }

  function ItemsText(items: seq<Json>, fmt: bool, depth: nat, nf: NumberFormat): string
    decreases items, 0
  {
    if items == [] then ""
    else PrintText(items[0], fmt, depth, nf) + (if |items| > 1 then Comma(fmt) else "") +
         ItemsText(items[1..], fmt, depth, nf)
  }

  function KeyText(key: string, fmt: bool, depth: nat): string {
    Indent(fmt, depth) + Quote(key) + Colon(fmt)
  }

  function AfterMember(more: bool, fmt: bool): string {
    (if more then "," else "") + (if fmt then "\n" else "")
  }

  function MembersText(ms: seq<Member>, fmt: bool, depth: nat, nf: NumberFormat): string
    decreases ms, 0
  {
    if ms == [] then ""
    else KeyText(ms[0].key, fmt, depth) + PrintText(ms[0].value, fmt, depth, nf) + AfterMember(|ms| > 1, fmt)
         + MembersText(ms[1..], fmt, depth, nf)
  }

  /** print_value fails on invalid items only. */
  predicate Printable(j: Json)
    decreases j, 2
  {
    match j
    case Invalid => false
    case Array(items) => PrintableItems(items)
    case Object(ms) => PrintableMembers(ms)
    case _ => true
  }

  predicate PrintableItems(items: seq<Json>)
    decreases items, 1
  {
    forall i :: 0 <= i < |items| ==> Printable(items[i])
  }

  predicate PrintableMembers(ms: seq<Member>)
    decreases ms, 1
  {
    forall i :: 0 <= i < |ms| ==> Printable(ms[i].value)
  }

  /** Every string and member name is a C string. */
  ghost predicate CStringsOnly(j: Json)
    decreases j, 2
  {
    match j
    case Str(s) => '\0' !in s
    case Array(items) => CStringItems(items)
    case Object(ms) => CStringMembers(ms)
    case _ => true
  }

  ghost predicate CStringItems(items: seq<Json>)
    decreases items, 1
  {
    forall i :: 0 <= i < |items| ==> CStringsOnly(items[i])
  }

  ghost predicate CStringMembers(ms: seq<Member>)
    decreases ms, 1
  {
    forall i :: 0 <= i < |ms| ==> '\0' !in ms[i].key && CStringsOnly(ms[i].value)
  }

  lemma {:induction false} EscapeHasNoNul(s: string)
    requires '\0' !in s
    ensures '\0' !in Escape(s)
  {
    if s != [] {
      assert s[0] in s;
      EscapeHasNoNul(s[1..]);
    }
  }

  lemma {:induction false} EscapeAppend(s: string, t: string)
    ensures Escape(s + t) == Escape(s) + Escape(t)
  {
    if s == [] {
      assert s + t == t;
    } else {
      assert (s + t)[1..] == s[1..] + t;
      EscapeAppend(s[1..], t);
    }
  }

  /** The text is itself a C string, so that strlen finds its end. */
  lemma {:induction false} TextHasNoNul(j: Json, fmt: bool, depth: nat, nf: NumberFormat)
    requires CStringsOnly(j) && NumberTexts(nf)
    ensures '\0' !in PrintText(j, fmt, depth, nf)
    decreases j, 2
  {
    match j
    case Number(_, d) => assert NumberText(nf.show(d));
    case Str(s) => EscapeHasNoNul(s);
    case Array(items) => ArrayHasNoNul(items, fmt, depth, nf);
    case Object(ms) => ObjectHasNoNul(ms, fmt, depth, nf);
    case _ =>
  }

  lemma {:induction false} ArrayHasNoNul(items: seq<Json>, fmt: bool, depth: nat, nf: NumberFormat)
    requires CStringItems(items) && NumberTexts(nf)
    ensures '\0' !in ArrayText(items, fmt, depth, nf)
    decreases items, 1
  {
    ItemsHaveNoNul(items, fmt, depth + 1, nf);
  }

  lemma {:induction false} ObjectHasNoNul(ms: seq<Member>, fmt: bool, depth: nat, nf: NumberFormat)
    requires CStringMembers(ms) && NumberTexts(nf)
    ensures '\0' !in ObjectText(ms, fmt, depth, nf)
    decreases ms, 1
  {
    MembersHaveNoNul(ms, fmt, depth + 1, nf);
  }

  lemma {:induction false} ItemsHaveNoNul(items: seq<Json>, fmt: bool, depth: nat, nf: NumberFormat)
    requires CStringItems(items) && NumberTexts(nf)
    ensures '\0' !in ItemsText(items, fmt, depth, nf)
    decreases items, 0
  {
    if items != [] {
      TextHasNoNul(items[0], fmt, depth, nf);
      ItemsHaveNoNul(items[1..], fmt, depth, nf);
    }
  }

  lemma {:induction false} MembersHaveNoNul(ms: seq<Member>, fmt: bool, depth: nat, nf: NumberFormat)
    requires CStringMembers(ms) && NumberTexts(nf)
    ensures '\0' !in MembersText(ms, fmt, depth, nf)
    decreases ms, 0
  {
    if ms != [] {
      EscapeHasNoNul(ms[0].key);
      TextHasNoNul(ms[0].value, fmt, depth, nf);
      MembersHaveNoNul(ms[1..], fmt, depth, nf);
    }
  }
}
