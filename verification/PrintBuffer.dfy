/** The growable print buffer and the printing functions that write into it.  `p` is always the
    text before the offset at the call; a call that succeeds leaves p plus its own text. */
module PrintBuffer {
  import opened Common
  import opened SortSeq
  import opened JsonValue
  import opened JsonPrint

  const INT_MAX := 0x7fff_ffff

  class Printer {
    var buffer: array<char>
    var offset: nat
    var depth: nat
    const noalloc: bool
    const format: bool

    ghost predicate Valid()
      reads this
    {
      buffer.Length <= INT_MAX &&
      (offset < buffer.Length || (buffer.Length == 0 && offset == 0 && noalloc))
    }

    /** The most bytes the buffer can ever have. */
    ghost function Cap(): nat
      reads this
    {
      if noalloc then buffer.Length else INT_MAX
    }

    /** The offset stands behind the text p. */
    ghost predicate After(p: string)
      reads this, buffer
    {
      Valid() && offset == |p| && buffer[..offset] == p
    }

    /** The buffer holds the NUL-terminated text t, and the offset is inside its last part. */
    ghost predicate Shows(t: string)
      reads this, buffer
    {
      Valid() && offset <= |t| < buffer.Length && buffer[..|t|] == t && buffer[|t|] == '\0'
    }

    /** The buffer is the same one, or a grown one where growing is allowed. */
    twostate predicate Kept()
      reads this
    {
      Cap() == old(Cap()) && (buffer == old(buffer) || (!noalloc && fresh(buffer)))
    }

    constructor (buffer: array<char>, noalloc: bool, format: bool)
      requires buffer.Length <= INT_MAX && (buffer.Length == 0 ==> noalloc)
      ensures After("") && depth == 0
      ensures this.buffer == buffer && this.noalloc == noalloc && this.format == format
    {
      this.buffer, this.offset, this.depth := buffer, 0, 0;
      this.noalloc, this.format := noalloc, format;
    }

    /** ensure: room for `needed` more bytes and one to spare, growing the buffer when allowed. */
    method Ensure(needed: nat, ghost p: string) returns (ok: bool)
      requires After(p)
      modifies this`buffer
      ensures After(p) && Kept()
      ensures ok <==> offset + needed + 1 <= Cap()
      ensures ok ==> offset + needed + 1 <= buffer.Length
    {
      if buffer.Length > 0 && offset >= buffer.Length { return false; }
      if needed > INT_MAX { return false; }
      var total := needed + offset + 1;
      if total <= buffer.Length { return true; }
      if noalloc { return false; }
      var newSize;
      if total > INT_MAX / 2 {
        if total <= INT_MAX { newSize := INT_MAX; } else { return false; }
      } else {
        newSize := total * 2;
      }
      var grown := new char[newSize];
      forall i | 0 <= i < offset + 1 { grown[i] := buffer[i]; }
      buffer := grown;
      return true;
    }

    /** update_offset: advance to the terminating NUL. */
    method UpdateOffset(ghost t: string)
      requires Shows(t) && '\0' !in t
      modifies this`offset
      ensures After(t)
    {
      forall k | 0 <= k < |t| ensures buffer[k] != '\0' {
        assert buffer[k] == buffer[..|t|][k] == t[k];
        assert t[k] in t;
      }
      while buffer[offset] != '\0'
        invariant Shows(t)
        decreases |t| - offset
      {
        assert offset < |t|;
        offset := offset + 1;
      }
    }

    /** Copy a text into the buffer at a position. */
    method Store(at: nat, text: string)
      requires at + |text| <= buffer.Length
      modifies buffer
      ensures buffer[..at + |text|] == old(buffer[..at]) + text
    {
      forall i | 0 <= i < |text| { buffer[at + i] := text[i]; }
    }

    /** Write a text and its NUL at the offset, the offset staying where it is. */
    method StoreTerminated(text: string, ghost p: string)
      requires After(p) && offset + |text| < buffer.Length
      modifies buffer
      ensures Shows(p + text)
    {
      Store(offset, text);
      buffer[offset + |text|] := '\0';
      assert buffer[..offset + |text|] == p + text;
    }

    /** Write a text at the offset and advance past it. */
    method StoreAdvance(text: string, ghost p: string)
      requires After(p) && offset + |text| < buffer.Length
      modifies this`offset, buffer
      ensures After(p + text) && buffer == old(buffer)
    {
      Store(offset, text);
      offset := offset + |text|;
    }

    method PrintLiteral(text: string, ghost p: string) returns (ok: bool)
      requires After(p)
      modifies this`buffer, buffer
      ensures Valid() && Kept()
      ensures ok <==> |p| + |text| + 2 <= old(Cap())
      ensures ok ==> Shows(p + text)
    {
      ok := Ensure(|text| + 1, p);
      if ok { StoreTerminated(text, p); }
    }

    /** print_number. */
    method PrintNumber(d: real, nf: NumberFormat, ghost p: string) returns (ok: bool)
      requires After(p) && NumberTexts(nf)
      modifies this`buffer, this`offset, buffer
      ensures Valid() && Kept()
      ensures ok <==> |p| + |nf.show(d)| + 2 <= old(Cap())
      ensures ok ==> Shows(p + nf.show(d))
    {
      var text := nf.show(d);
      assert NumberText(text);
      ok := Ensure(|text| + 1, p);
      if ok {
        StoreTerminated(text, p);
        offset := offset + |text|;
      }
    }

    /** Write one escaped character at position q. */
    method WriteEscaped(q: nat, c: char) returns (q': nat)
      requires q + |EscapeChar(c)| < buffer.Length
      modifies buffer
      ensures q' == q + |EscapeChar(c)|
      ensures buffer[..q'] == old(buffer[..q]) + EscapeChar(c)
    {
      hide Escape, HexDigit, Shows, After, Valid;
      if c >= ' ' && c != '\"' && c != '\\' {
        buffer[q] := c;
        q' := q + 1;
      } else {
        buffer[q] := '\\';
        q' := q + 1;
        if c == '\\' { buffer[q'] := '\\'; }
        else if c == '\"' { buffer[q'] := '\"'; }
        else if c == 8 as char { buffer[q'] := 'b'; }
        else if c == 12 as char { buffer[q'] := 'f'; }
        else if c == '\n' { buffer[q'] := 'n'; }
        else if c == '\r' { buffer[q'] := 'r'; }
        else if c == '\t' { buffer[q'] := 't'; }
        else {
          buffer[q'], buffer[q' + 1], buffer[q' + 2] := 'u', '0', '0';
          buffer[q' + 3], buffer[q' + 4] := HexDigit(c as int / 16), HexDigit(c as int % 16);
          buffer[q' + 5] := '\0';
          q' := q' + 4;
        }
        q' := q' + 1;
      }
    }

    /** The sizing pass: how many extra characters escaping needs. */
    method CountEscapes(input: string) returns (extra: nat)
      ensures extra + |input| == |Escape(input)|
    {
      extra := 0;
      var i := 0;
      while i < |input|
        invariant i <= |input| && extra + i == |Escape(input[..i])|
      {
        var c := input[i];
        EscapeSnoc(input, i);
        if c == '\"' || c == '\\' || c == 8 as char || c == 12 as char || c == '\n' || c == '\r' || c == '\t' {
          extra := extra + 1;
        } else if c < ' ' {
          extra := extra + 5;
        }
        i := i + 1;
      }
      assert input[..i] == input;
    }

    /** print_string_ptr: size, reserve, then write either a plain copy or the escaped text. */
    method PrintStringPtr(input: string, ghost p: string) returns (ok: bool)
      requires After(p)
      modifies this`buffer, buffer
      ensures Valid() && Kept()
      ensures ok <==> |p| + |Quote(input)| + 2 <= old(Cap())
      ensures ok ==> Shows(p + Quote(input))
    {
      var extra := CountEscapes(input);
      var outputLength := |input| + extra;
      ok := Ensure(outputLength + 3, p);
      if !ok { return; }
      if extra == 0 {
        NothingToEscape(input);
        StoreTerminated("\"" + input + "\"", p);
        return;
      }
      WriteQuoted(input, outputLength, p);
    }

    /** The writing pass, for a string that needs escapes. */
    method WriteQuoted(input: string, outputLength: nat, ghost p: string)
      requires After(p) && outputLength == |Escape(input)| && offset + outputLength + 4 <= buffer.Length
      modifies buffer
      ensures Shows(p + Quote(input))
    {
      buffer[offset] := '\"';
      var q := offset + 1;
      assert buffer[..q] == p + "\"";
      q := WriteAllEscaped(q, input, p + "\"");
      Assoc3(p, "\"", Escape(input));
      assert buffer[..|p|] == buffer[..q][..|p|] == p;
      StoreEnd(q, outputLength, input, p);
    }

    method WriteAllEscaped(start: nat, input: string, ghost before: string) returns (q: nat)
      requires start == |before| && start + |Escape(input)| < buffer.Length && buffer[..start] == before
      modifies buffer
      ensures q == start + |Escape(input)| && buffer[..q] == before + Escape(input)
    {
      q := start;
      var i := 0;
      while i < |input|
        invariant i <= |input| && |Escape(input[..i])| <= |Escape(input)|
        invariant q == start + |Escape(input[..i])|
        invariant buffer[..q] == before + Escape(input[..i])
      {
        EscapeSnoc(input, i);
        EscapeFits(input, i + 1);
        Assoc3(before, Escape(input[..i]), EscapeChar(input[i]));
        q := WriteEscaped(q, input[i]);
        i := i + 1;
      }
      assert input[..i] == input;
    }

    method StoreEnd(q: nat, outputLength: nat, input: string, ghost p: string)
      requires After(p) && outputLength == |Escape(input)| && q == offset + 1 + outputLength &&
               offset + outputLength + 4 <= buffer.Length
      requires buffer[..q] == p + ("\"" + Escape(input))
      modifies buffer
      ensures Shows(p + Quote(input))
    {
      buffer[offset + outputLength + 1] := '\"';
      buffer[offset + outputLength + 2] := '\0';
      assert buffer[..q] == old(buffer[..q]);
      assert buffer[..q + 1] == buffer[..q] + ['\"'];
      assert p + ("\"" + Escape(input)) + ['\"'] == p + Quote(input);
      assert buffer[..|p|] == buffer[..q][..|p|] == p;
    }

    /** One array element and the comma after it. */
    method PrintElement(item: Json, more: bool, nf: NumberFormat, ghost p: string) returns (ok: bool)
      requires After(p) && '\0' !in p && CStringsOnly(item) && NumberTexts(nf)
      modifies this, buffer
      ensures Valid() && Kept()
      ensures var text := ElementText(item, more, format, old(depth), nf);
              (ok <==> Printable(item) && |p| + |text| + 2 <= old(Cap())) &&
              (ok ==> depth == old(depth) && After(p + text) && '\0' !in p + text)
      decreases item, 3
    {
      hide PrintText, Quote;
      ghost var value := PrintText(item, format, depth, nf);
      TextHasNoNul(item, format, depth, nf);
      ok := PrintValue(item, nf, p);
      if !ok { return; }
      UpdateOffset(p + value);
      if more {
        var comma := Comma(format);
        ok := Ensure(|comma| + 1, p + value);
        if !ok { return; }
        StoreTerminated(comma, p + value);
        offset := offset + |comma|;
        Assoc3(p, value, comma);
      } else {
        assert p + value == p + (value + "");
      }
    }

    /** The elements of an array. */
    method PrintElements(items: seq<Json>, nf: NumberFormat, ghost p: string) returns (ok: bool)
      requires After(p) && '\0' !in p && CStringItems(items) && NumberTexts(nf)
      modifies this, buffer
      ensures Valid() && Kept()
      ensures var text := ItemsText(items, format, old(depth), nf);
              (ok ==> PrintableItems(items) && depth == old(depth) && After(p + text) && '\0' !in p + text) &&
              (!ok ==> !PrintableItems(items) || |p| + |text| + 2 > old(Cap()))
      decreases items, 0
    {
      ghost var all := ItemsText(items, format, depth, nf);
      ok := true;
      var i := 0;
      ghost var done := p;
      assert items[0..] == items;
      while i < |items|
        invariant i <= |items| && depth == old(depth) && Kept()
        invariant After(done) && '\0' !in done
        invariant done + ItemsText(items[i..], format, depth, nf) == p + all
        invariant forall k :: 0 <= k < i ==> Printable(items[k])
      {
        ghost var text := ElementText(items[i], i + 1 < |items|, format, depth, nf);
        ItemsAdvance(items, i, format, depth, nf, done, p + all);
        ok := PrintElement(items[i], i + 1 < |items|, nf, done);
        if !ok { return; }
        done := done + text;
        i := i + 1;
      }
      assert done == p + all;
    }

    /** print_array. */
    method PrintArray(items: seq<Json>, nf: NumberFormat, ghost p: string) returns (ok: bool)
      requires After(p) && '\0' !in p && CStringItems(items) && NumberTexts(nf)
      modifies this, buffer
      ensures Valid() && Kept()
      ensures var text := ArrayText(items, format, old(depth), nf);
              (ok <==> PrintableItems(items) && |p| + |text| + 2 <= old(Cap())) &&
              (ok ==> depth == old(depth) && Shows(p + text))
      decreases items, 1
    {
      hide ItemsText, PrintableItems, CStringItems;
      ghost var all := ItemsText(items, format, depth + 1, nf);
      ok := Ensure(1, p);
      if !ok { return; }
      StoreAdvance("[", p);
      depth := depth + 1;
      ok := PrintElements(items, nf, p + "[");
      if !ok { return; }
      ghost var done := p + "[" + all;
      Assoc4(p, "[", all, "]");
      ok := Ensure(2, done);
      if !ok { return; }
      StoreTerminated("]", done);
      depth := depth - 1;
    }

    method PrintIndent(ghost p: string) returns (ok: bool)
      requires After(p) && '\0' !in p
      modifies this`buffer, this`offset, buffer
      ensures Valid() && Kept()
      ensures ok ==> After(p + Indent(format, depth)) && '\0' !in p + Indent(format, depth)
      ensures !ok ==> |p| + |Indent(format, depth)| + 1 > old(Cap())
    {
      ok := true;
      if format {
        ok := Ensure(depth, p);
        if ok { StoreAdvance(Tabs(depth), p); }
      } else {
        assert p + "" == p;
      }
    }

    /** The name of a member, then the colon. */
    method PrintName(key: string, ghost p: string) returns (ok: bool)
      requires After(p) && '\0' !in p && '\0' !in key
      modifies this`buffer, this`offset, buffer
      ensures Valid() && Kept()
      ensures var text := Quote(key) + Colon(format);
              (ok ==> After(p + text) && '\0' !in p + text) && (!ok ==> |p| + |text| + 1 > old(Cap()))
    {
      EscapeHasNoNul(key);
      ok := PrintStringPtr(key, p);
      if !ok { return; }
      UpdateOffset(p + Quote(key));
      ok := Ensure(|Colon(format)|, p + Quote(key));
      if !ok { return; }
      StoreAdvance(Colon(format), p + Quote(key));
      Assoc3(p, Quote(key), Colon(format));
    }

    /** The value of a member, then the comma and line end. */
    method PrintMemberValue(value: Json, more: bool, nf: NumberFormat, ghost p: string) returns (ok: bool)
      requires After(p) && '\0' !in p && CStringsOnly(value) && NumberTexts(nf)
      modifies this, buffer
      ensures Valid() && Kept()
      ensures var text := PrintText(value, format, old(depth), nf) + AfterMember(more, format);
              (ok <==> Printable(value) && |p| + |text| + 2 <= old(Cap())) &&
              (ok ==> depth == old(depth) && After(p + text) && '\0' !in p + text)
      decreases value, 3
    {
      ghost var text := PrintText(value, format, depth, nf);
      TextHasNoNul(value, format, depth, nf);
      ok := PrintValue(value, nf, p);
      if !ok { return; }
      UpdateOffset(p + text);
      var tail := AfterMember(more, format);
      ok := Ensure(|tail| + 1, p + text);
      if !ok { return; }
      StoreTerminated(tail, p + text);
      offset := offset + |tail|;
      Assoc3(p, text, tail);
    }

    /** One object member with what follows it. */
    method PrintMember(m: Member, more: bool, nf: NumberFormat, ghost p: string) returns (ok: bool)
      requires After(p) && '\0' !in p && '\0' !in m.key && CStringsOnly(m.value) && NumberTexts(nf)
      modifies this, buffer
      ensures Valid() && Kept()
      ensures var text := MemberText(m, more, format, old(depth), nf);
              (ok <==> Printable(m.value) && |p| + |text| + 2 <= old(Cap())) &&
              (ok ==> depth == old(depth) && After(p + text) && '\0' !in p + text)
      decreases m, 4
    {
      hide PrintText, Quote, Indent, Colon, AfterMember;
      ghost var a, b := Indent(format, depth), Quote(m.key) + Colon(format);
      ghost var c := PrintText(m.value, format, depth, nf) + AfterMember(more, format);
      assert MemberText(m, more, format, depth, nf) == a + b + c;
      ok := PrintIndent(p);
      if !ok { return; }
      ok := PrintName(m.key, p + a);
      if !ok { return; }
      ok := PrintMemberValue(m.value, more, nf, p + a + b);
      Assoc4(p, a, b, c);
    }

    /** The members of an object. */
    method PrintMembers(ms: seq<Member>, nf: NumberFormat, ghost p: string) returns (ok: bool)
      requires After(p) && '\0' !in p && CStringMembers(ms) && NumberTexts(nf)
      modifies this, buffer
      ensures Valid() && Kept()
      ensures var text := MembersText(ms, format, old(depth), nf);
              (ok ==> PrintableMembers(ms) && depth == old(depth) && After(p + text) && '\0' !in p + text) &&
              (!ok ==> !PrintableMembers(ms) || |p| + |text| + 2 > old(Cap()))
      decreases ms, 0
    {
      hide PrintText, Quote, KeyText, Colon, AfterMember, Indent;
      ghost var all := MembersText(ms, format, depth, nf);
      ok := true;
      var i := 0;
      ghost var done := p;
      assert ms[0..] == ms;
      while i < |ms|
        invariant i <= |ms| && depth == old(depth) && Kept()
        invariant After(done) && '\0' !in done
        invariant done + MembersText(ms[i..], format, depth, nf) == p + all
        invariant forall k :: 0 <= k < i ==> Printable(ms[k].value)
      {
        ghost var text := MemberText(ms[i], i + 1 < |ms|, format, depth, nf);
        MembersAdvance(ms, i, format, depth, nf, done, p + all);
        ok := PrintMember(ms[i], i + 1 < |ms|, nf, done);
        if !ok { return; }
        done := done + text;
        i := i + 1;
      }
      assert done == p + all;
    }

    /** print_object. */
    method PrintObject(ms: seq<Member>, nf: NumberFormat, ghost p: string) returns (ok: bool)
      requires After(p) && '\0' !in p && CStringMembers(ms) && NumberTexts(nf)
      modifies this, buffer
      ensures Valid() && Kept()
      ensures var text := ObjectText(ms, format, old(depth), nf);
              (ok <==> PrintableMembers(ms) && |p| + |text| + 2 <= old(Cap())) &&
              (ok ==> depth == old(depth) && Shows(p + text))
      decreases ms, 1
    {
      hide MembersText, PrintText, Indent, Opening, PrintableMembers, CStringMembers;
      ghost var all, text := MembersText(ms, format, depth + 1, nf), ObjectText(ms, format, depth, nf);
      ghost var open, close := Opening(format), Indent(format, depth) + "}";
      ObjectTextParts(ms, format, depth, nf, p);
      ok := PrintOpening(p);
      if !ok { return; }
      ok := PrintMembers(ms, nf, p + open);
      if !ok { return; }
      ok := PrintClosing(p + open + all);
      depth := depth - 1;
    }

    method PrintOpening(ghost p: string) returns (ok: bool)
      requires After(p) && '\0' !in p
      modifies this`buffer, this`offset, this`depth, buffer
      ensures Valid() && Kept()
      ensures ok <==> |p| + |Opening(format)| + 2 <= old(Cap())
      ensures ok ==> depth == old(depth) + 1 && After(p + Opening(format)) && '\0' !in p + Opening(format)
    {
      ok := Ensure(|Opening(format)| + 1, p);
      if !ok { return; }
      StoreAdvance(Opening(format), p);
      depth := depth + 1;
    }

    /** The closing brace, indented one level less than the members. */
    method PrintClosing(ghost p: string) returns (ok: bool)
      requires After(p) && depth > 0
      modifies this`buffer, buffer
      ensures Valid() && Kept()
      ensures var text := Indent(format, depth - 1) + "}";
              (ok <==> |p| + |text| + 2 <= old(Cap())) && (ok ==> Shows(p + text))
    {
      ok := Ensure(if format then depth + 1 else 2, p);
      if ok { StoreTerminated(Indent(format, depth - 1) + "}", p); }
    }

    /** print_value: succeeds exactly when the item is printable and its text and two more bytes
        fit; then the text stands behind p, NUL-terminated. */
    method PrintValue(item: Json, nf: NumberFormat, ghost p: string) returns (ok: bool)
      requires After(p) && '\0' !in p && CStringsOnly(item) && NumberTexts(nf)
      modifies this, buffer
      ensures Valid() && Kept()
      ensures var text := PrintText(item, format, old(depth), nf);
              (ok <==> Printable(item) && |p| + |text| + 2 <= old(Cap())) &&
              (ok ==> depth == old(depth) && Shows(p + text))
      decreases item, 2
    {
      match item
      case Null => ok := PrintLiteral("null", p);
      case False => ok := PrintLiteral("false", p);
      case True => ok := PrintLiteral("true", p);
      case Number(_, d) => ok := PrintNumber(d, nf, p);
      case Str(s) => ok := PrintStringPtr(s, p);
      case Array(items) => ok := PrintArray(items, nf, p);
      case Object(ms) => ok := PrintObject(ms, nf, p);
      case Invalid => ok := false;
    }
  }

  /** cJSON_Print and cJSON_PrintUnformatted: the text, unless it cannot be represented. */
  method PrintItem(item: Json, format: bool, nf: NumberFormat) returns (r: Option<string>)
    requires CStringsOnly(item) && NumberTexts(nf)
    ensures var text := PrintText(item, format, 0, nf);
            r == if Printable(item) && |text| + 2 <= INT_MAX then Some(text) else None
  {
    var initial := new char[256];
    var printer := new Printer(initial, false, format);
    ghost var text := PrintText(item, format, 0, nf);
    assert "" + text == text;
    TextHasNoNul(item, format, 0, nf);
    var ok := printer.PrintValue(item, nf, "");
    if !ok { return None; }
    printer.UpdateOffset(text);
    return Some(printer.buffer[..printer.offset]);
  }

  /** cJSON_PrintPreallocated into a caller's buffer.  The header advises five bytes more than the
      text and its NUL; one more is exactly enough. */
  method PrintPreallocated(item: Json, buffer: array<char>, format: bool, nf: NumberFormat) returns (ok: bool)
    requires CStringsOnly(item) && NumberTexts(nf) && buffer.Length <= INT_MAX
    modifies buffer
    ensures var text := PrintText(item, format, 0, nf);
            (ok <==> Printable(item) && |text| + 2 <= buffer.Length) &&
            (ok ==> buffer[..|text| + 1] == text + ['\0'])
  {
    var printer := new Printer(buffer, true, format);
    ghost var text := PrintText(item, format, 0, nf);
    assert "" + text == text;
    ok := printer.PrintValue(item, nf, "");
    assert printer.Cap() == buffer.Length;
  }

  lemma Assoc3(a: string, b: string, c: string)
    ensures a + b + c == a + (b + c)
  {
  }

  lemma Assoc4(a: string, b: string, c: string, d: string)
    ensures a + b + c + d == a + (b + c + d)
  {
  }

  function MemberText(m: Member, more: bool, fmt: bool, depth: nat, nf: NumberFormat): string {
    KeyText(m.key, fmt, depth) + PrintText(m.value, fmt, depth, nf) + AfterMember(more, fmt)
  }

  function ElementText(item: Json, more: bool, fmt: bool, depth: nat, nf: NumberFormat): string {
    PrintText(item, fmt, depth, nf) + (if more then Comma(fmt) else "")
  }

  lemma ObjectTextParts(ms: seq<Member>, fmt: bool, depth: nat, nf: NumberFormat, p: string)
    ensures var open, all, close := Opening(fmt), MembersText(ms, fmt, depth + 1, nf), Indent(fmt, depth) + "}";
            p + ObjectText(ms, fmt, depth, nf) == p + open + all + close &&
            |ObjectText(ms, fmt, depth, nf)| == |open| + |all| + |close|
  {
    Assoc4(p, Opening(fmt), MembersText(ms, fmt, depth + 1, nf), Indent(fmt, depth) + "}");
  }

  lemma ItemsAdvance(items: seq<Json>, i: nat, fmt: bool, depth: nat, nf: NumberFormat, done: string, goal: string)
    requires i < |items| && done + ItemsText(items[i..], fmt, depth, nf) == goal
    ensures var text := ElementText(items[i], i + 1 < |items|, fmt, depth, nf);
            done + text + ItemsText(items[i + 1..], fmt, depth, nf) == goal && |done| + |text| <= |goal|
  {
    assert items[i..][1..] == items[i + 1..];
    Assoc3(done, ElementText(items[i], i + 1 < |items|, fmt, depth, nf), ItemsText(items[i + 1..], fmt, depth, nf));
  }

  lemma MembersAdvance(ms: seq<Member>, i: nat, fmt: bool, depth: nat, nf: NumberFormat, done: string, goal: string)
    requires i < |ms| && done + MembersText(ms[i..], fmt, depth, nf) == goal
    ensures var text := MemberText(ms[i], i + 1 < |ms|, fmt, depth, nf);
            done + text + MembersText(ms[i + 1..], fmt, depth, nf) == goal && |done| + |text| <= |goal|
  {
    assert ms[i..][1..] == ms[i + 1..];
    Assoc3(done, MemberText(ms[i], i + 1 < |ms|, fmt, depth, nf), MembersText(ms[i + 1..], fmt, depth, nf));
  }

  lemma EscapeSnoc(s: string, i: nat)
    requires i < |s|
    ensures Escape(s[..i + 1]) == Escape(s[..i]) + EscapeChar(s[i])
  {
    assert s[..i + 1] == s[..i] + [s[i]];
    EscapeAppend(s[..i], [s[i]]);
    assert [s[i]][1..] == [];
  }

  lemma EscapeFits(s: string, i: nat)
    requires i <= |s|
    ensures |Escape(s[..i])| <= |Escape(s)|
  {
    assert s == s[..i] + s[i..];
    EscapeAppend(s[..i], s[i..]);
  }

  lemma {:induction false} NothingToEscape(s: string)
    requires |Escape(s)| == |s|
    ensures Escape(s) == s
  {
    if s != [] {
      EscapeNotShorter(s[1..]);
      NothingToEscape(s[1..]);
    }
  }

  lemma {:induction false} EscapeNotShorter(s: string)
    ensures |Escape(s)| >= |s|
  {
    if s != [] { EscapeNotShorter(s[1..]); }
  }
}
