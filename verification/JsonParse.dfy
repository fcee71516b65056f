/** cJSON's parser.  First as functions on the buffer content and an offset, then as the parse
    buffer whose methods advance `offset` and `depth`; the methods compute the functions. */
module JsonParse {
  import opened Common
  import opened SortSeq
  import opened JsonValue
  import opened JsonPrint

  const NESTING_LIMIT := 1000

  datatype Parsed<+T> = Fail | Ok(value: T, next: nat)

  /** The content handed to the parser ends with the terminating NUL. */
  ghost predicate Content(c: string) { c != [] && c[|c| - 1] == '\0' }

  function Visible(c: string, offset: nat): (r: nat)
    requires offset <= |c|
    ensures offset <= r <= |c|
    decreases |c| - offset
  {
    if offset < |c| && c[offset] <= ' ' then Visible(c, offset + 1) else offset
  }

  /** buffer_skip_whitespace: at the end of the buffer it steps back onto the last byte. */
  function Skip(c: string, offset: nat): (r: nat)
    requires c != [] && offset <= |c|
    ensures r < |c| && (offset < |c| ==> offset <= r)
  {
    var r := Visible(c, offset);
    if r == |c| then r - 1 else r
  }

  // ---------- Strings ----------

  function HexValue(c: char): Option<nat> {
    if '0' <= c <= '9' then Some(c as int - '0' as int)
    else if 'A' <= c <= 'F' then Some(10 + c as int - 'A' as int)
    else if 'a' <= c <= 'f' then Some(10 + c as int - 'a' as int)
    else None
  }

  /** parse_hex4: an invalid digit makes the whole number 0. */
  function ParseHex4(t: string): nat
    requires |t| >= 4
  {
    match (HexValue(t[0]), HexValue(t[1]), HexValue(t[2]), HexValue(t[3]))
    case (Some(a), Some(b), Some(c), Some(d)) => ((a * 16 + b) * 16 + c) * 16 + d
    case _ => 0
  }

  function Byte(n: nat): char { (n % 256) as char }

  /** The UTF-8 encoding of a code point, up to four bytes. */
  function Utf8(cp: nat): Option<string> {
    if cp < 0x80 then Some([Byte(cp)])
    else if cp < 0x800 then Some([Byte(0xC0 + cp / 0x40), Byte(0x80 + cp % 0x40)])
    else if cp < 0x10000 then
      Some([Byte(0xE0 + cp / 0x1000), Byte(0x80 + cp / 0x40 % 0x40), Byte(0x80 + cp % 0x40)])
    else if cp <= 0x10FFFF then
      Some([Byte(0xF0 + cp / 0x40000), Byte(0x80 + cp / 0x1000 % 0x40), Byte(0x80 + cp / 0x40 % 0x40),
          Byte(0x80 + cp % 0x40)])
    else None
  }

  /** utf16_literal_to_utf8 on the rest of a literal: the bytes and how much was consumed. */
  function Utf16Literal(body: string): (r: Option<(string, nat)>)
    ensures r.Some? ==> 6 <= r.value.1 <= |body|
  {
    if |body| < 6 then None
    else
      var first := ParseHex4(body[2..]);
      if 0xDC00 <= first <= 0xDFFF then None
      else if 0xD800 <= first <= 0xDBFF then
        if |body| < 12 || body[6] != '\\' || body[7] != 'u' then None
        else
          var second := ParseHex4(body[8..]);
          if second < 0xDC00 || second > 0xDFFF then None
          else
            match Utf8(0x10000 + (first % 0x400) * 0x400 + second % 0x400)
            case None => None
            case Some(bytes) => Some((bytes, 12))
      else
        match Utf8(first)
        case None => None
        case Some(bytes) => Some((bytes, 6))
  }

  /** The character a two-character escape stands for. */
  function SimpleEscape(c: char): Option<char> {
    if c == 'b' then Some(8 as char)
    else if c == 'f' then Some(12 as char)
    else if c == 'n' then Some('\n')
    else if c == 'r' then Some('\r')
    else if c == 't' then Some('\t')
    else if c == '\"' || c == '\\' || c == '/' then Some(c)
    else None
  }

  function Unescape(body: string): Option<string>
    decreases |body|
  {
    if body == [] then Some("")
    else if body[0] != '\\' then Prefixed([body[0]], Unescape(body[1..]))
    else if |body| < 2 then None
    else if body[1] == 'u' then
      match Utf16Literal(body)
      case None => None
      case Some((bytes, n)) => Prefixed(bytes, Unescape(body[n..]))
    else
      match SimpleEscape(body[1])
      case None => None
      case Some(ch) => Prefixed([ch], Unescape(body[2..]))
  }

  function Prefixed(head: string, rest: Option<string>): Option<string> {
    match rest case None => None case Some(t) => Some(head + t)
  }

  /** Where the literal starting at p closes, stepping over escaped characters. */
  function FindClose(c: string, p: nat): (r: Option<nat>)
    requires p <= |c|
    ensures r.Some? ==> p <= r.value < |c| && c[r.value] == '\"'
    decreases |c| - p
  {
    if p == |c| then None
    else if c[p] == '\"' then Some(p)
    else if c[p] == '\\' then (if p + 1 >= |c| then None else FindClose(c, p + 2))
    else FindClose(c, p + 1)
  }

  function ParseString(c: string, offset: nat): (r: Parsed<string>)
    requires Content(c) && offset < |c|
    ensures r.Ok? ==> offset < r.next < |c|
  {
    if c[offset] != '\"' then Fail
    else
      match FindClose(c, offset + 1)
      case None => Fail
      case Some(end) =>
        match Unescape(c[offset + 1..end])
        case None => Fail
        case Some(s) => Ok(s, end + 1)
  }

  // ---------- Numbers ----------

  function NumberRun(c: string, offset: nat, limit: nat): (r: string)
    requires Content(c) && offset < |c|
    ensures offset + |r| < |c| && |r| <= limit
    decreases |c| - offset
  {
    if limit == 0 || !IsNumberChar(c[offset]) then []
    else [c[offset]] + NumberRun(c, offset + 1, limit - 1)
  }

  /** The int stored beside the double: saturated, truncated toward zero. */
  function Saturate(d: real): int {
    if d >= 2147483647.0 then 2147483647
    else if d <= -2147483648.0 then -2147483648
    else if d >= 0.0 then d.Floor
    else -((-d).Floor)
  }

  function Scan(nf: NumberFormat, text: string): (real, nat) { nf.scan(text) }

  function ParseNumber(c: string, offset: nat, nf: NumberFormat): (r: Parsed<Json>)
    requires Content(c) && offset < |c|
    ensures r.Ok? ==> offset < r.next < |c|
  {
    var run := NumberRun(c, offset, 63);
    var (d, n) := Scan(nf, run);
    if 0 < n <= |run| then Ok(Number(Saturate(d), d), offset + n) else Fail
  }

  // ---------- Values ----------

  predicate Reads(c: string, offset: nat, word: string) {
    offset + |word| <= |c| && c[offset..offset + |word|] == word
  }

  function ParseValue(c: string, offset: nat, depth: nat, nf: NumberFormat): (r: Parsed<Json>)
    requires Content(c) && offset < |c|
    ensures r.Ok? ==> offset < r.next < |c|
    decreases |c| - offset, 1
  {
    if Reads(c, offset, "null") then assert c[offset + 3] == 'l'; Ok(Null, offset + 4)
    else if Reads(c, offset, "false") then assert c[offset + 4] == 'e'; Ok(False, offset + 5)
    else if Reads(c, offset, "true") then assert c[offset + 3] == 'e'; Ok(True, offset + 4)
    else if c[offset] == '\"' then
      match ParseString(c, offset) case Fail => Fail case Ok(s, next) => Ok(Str(s), next)
    else if c[offset] == '-' || IsDigit(c[offset]) then ParseNumber(c, offset, nf)
    else if c[offset] == '[' then ParseArray(c, offset, depth, nf)
    else if c[offset] == '{' then ParseObject(c, offset, depth, nf)
    else Fail
  }

  function ParseArray(c: string, offset: nat, depth: nat, nf: NumberFormat): (r: Parsed<Json>)
    requires Content(c) && offset < |c| && c[offset] == '['
    ensures r.Ok? ==> offset < r.next < |c|
    decreases |c| - offset, 0
  {
    if depth >= NESTING_LIMIT then Fail
    else
      var first := Skip(c, offset + 1);
      if c[first] == ']' then Ok(Array([]), first + 1)
      else
        Closed(ParseItems(c, first - 1, depth + 1, nf), c)
  }

  /** The array, if its elements are followed by the closing bracket. */
  function Closed(r: Parsed<seq<Json>>, c: string): Parsed<Json> {
    match r
    case Fail => Fail
    case Ok(items, end) => if end < |c| && c[end] == ']' then Ok(Array(items), end + 1) else Fail
  }

  /** One element after position `at`. */
  function ParseItem(c: string, at: nat, depth: nat, nf: NumberFormat): (r: Parsed<Json>)
    requires Content(c) && at + 1 < |c|
    ensures r.Ok? ==> at < r.next < |c|
    decreases |c| - at - 1, 2
  {
    match ParseValue(c, Skip(c, at + 1), depth, nf)
    case Fail => Fail
    case Ok(item, next) => Ok(item, Skip(c, next))
  }

  /** The elements after position `at`, up to the first one not followed by a comma. */
  function ParseItems(c: string, at: nat, depth: nat, nf: NumberFormat): (r: Parsed<seq<Json>>)
    requires Content(c) && at + 1 < |c|
    ensures r.Ok? ==> at < r.next < |c|
    decreases |c| - at - 1, 3
  {
    match ParseItem(c, at, depth, nf)
    case Fail => Fail
    case Ok(item, end) =>
      if c[end] == ',' then
        match ParseItems(c, end, depth, nf)
        case Fail => Fail
        case Ok(rest, last) => Ok([item] + rest, last)
      else Ok([item], end)
  }

  function ParseObject(c: string, offset: nat, depth: nat, nf: NumberFormat): (r: Parsed<Json>)
    requires Content(c) && offset < |c| && c[offset] == '{'
    ensures r.Ok? ==> offset < r.next < |c|
    decreases |c| - offset, 0
  {
    if depth >= NESTING_LIMIT then Fail
    else
      var first := Skip(c, offset + 1);
      if c[first] == '}' then Ok(Object([]), first + 1)
      else
        match ParseMembers(c, first - 1, depth + 1, nf)
        case Fail => Fail
        case Ok(ms, end) => if c[end] == '}' then Ok(Object(ms), end + 1) else Fail
  }

  /** One member after position `at`. */
  function ParseMember(c: string, at: nat, depth: nat, nf: NumberFormat): (r: Parsed<Member>)
    requires Content(c) && at + 1 < |c|
    ensures r.Ok? ==> at < r.next < |c|
    decreases |c| - at - 1, 2
  {
    match ParseString(c, Skip(c, at + 1))
    case Fail => Fail
    case Ok(key, next) =>
      var colon := Skip(c, next);
      if c[colon] != ':' then Fail
      else
        match ParseValue(c, Skip(c, colon + 1), depth, nf)
        case Fail => Fail
        case Ok(value, after) => Ok(Keyed(key, value), Skip(c, after))
  }

  function ParseMembers(c: string, at: nat, depth: nat, nf: NumberFormat): (r: Parsed<seq<Member>>)
    requires Content(c) && at + 1 < |c|
    ensures r.Ok? ==> at < r.next < |c|
    decreases |c| - at - 1, 3
  {
    match ParseMember(c, at, depth, nf)
    case Fail => Fail
    case Ok(m, end) =>
      if c[end] == ',' then
        match ParseMembers(c, end, depth, nf)
        case Fail => Fail
        case Ok(rest, last) => Ok([m] + rest, last)
      else Ok([m], end)
  }

  function SkipBom(c: string): nat {
    if 4 < |c| && c[0] == 0xEF as char && c[1] == 0xBB as char && c[2] == 0xBF as char then 3 else 0
  }

  /** cJSON_ParseWithOpts: the tree and where parsing ended. */
  function ParseWithOpts(value: string, requireNullTerminated: bool, nf: NumberFormat): Parsed<Json> {
    var c := value + ['\0'];
    match ParseValue(c, Skip(c, SkipBom(c)), 0, nf)
    case Fail => Fail
    case Ok(j, next) =>
      if !requireNullTerminated then Ok(j, next)
      else
        var end := Skip(c, next);
        if c[end] == '\0' then Ok(j, end) else Fail
  }

  // ---------- The parse buffer ----------

  class ParseBuffer {
    const content: string
    const nf: NumberFormat
    var offset: nat
    var depth: nat

    constructor (content: string, nf: NumberFormat, offset: nat)
      ensures this.content == content && this.nf == nf && this.offset == offset && depth == 0
    {
      this.content, this.nf, this.offset, this.depth := content, nf, offset, 0;
    }

    ghost predicate Valid()
      reads this
    {
      Content(content) && offset < |content|
    }

    method SkipWhitespace()
      requires Content(content) && offset <= |content|
      modifies this`offset
      ensures Valid() && offset == Skip(content, old(offset))
    {
      while offset < |content| && content[offset] <= ' '
        invariant offset <= |content| && Visible(content, offset) == Visible(content, old(offset))
      {
        offset := offset + 1;
      }
      if offset == |content| { offset := offset - 1; }
    }

    method ParseStringAt() returns (ok: bool, s: string)
      requires Valid()
      modifies this`offset
      ensures Valid() && ok == ParseString(content, old(offset)).Ok?
      ensures ok ==> Ok(s, offset) == ParseString(content, old(offset))
    {
      ok, s := false, "";
      if content[offset] != '\"' { return; }
      var end := offset + 1;
      while end < |content| && content[end] != '\"'
        invariant offset < end <= |content| && FindClose(content, end) == FindClose(content, offset + 1)
        decreases |content| - end
      {
        if content[end] == '\\' {
          if end + 1 >= |content| { return; }
          end := end + 1;
        }
        end := end + 1;
      }
      if end >= |content| { return; }
      ok, s := UnescapeLoop(content[offset + 1..end]);
      if ok { offset := end + 1; }
    }

    /** The copying loop of parse_string. */
    static method UnescapeLoop(body: string) returns (ok: bool, s: string)
      ensures Unescape(body) == if ok then Some(s) else None
    {
      s := "";
      var i := 0;
      NothingPrefixed(Unescape(body));
      assert body[0..] == body;
      while i < |body|
        invariant i <= |body|
        invariant Prefixed(s, Unescape(body[i..])) == Unescape(body)
      {
        var rest := body[i..];
        var piece, n;
        if body[i] != '\\' {
          piece, n := [body[i]], 1;
        } else if i + 1 >= |body| {
          return false, s;
        } else if body[i + 1] == 'u' {
          var literal := Utf16Literal(rest);
          if literal.None? { return false, s; }
          piece, n := literal.value.0, literal.value.1;
        } else {
          var ch := SimpleEscape(body[i + 1]);
          if ch.None? { return false, s; }
          piece, n := [ch.value], 2;
        }
        assert rest[n..] == body[i + n..];
        assert Unescape(rest) == Prefixed(piece, Unescape(rest[n..]));
        PrefixedTwice(s, piece, Unescape(rest[n..]));
        s := s + piece;
        i := i + n;
      }
      assert Unescape(body[i..]) == Some("") && s + "" == s;
      ok := true;
    }

    /** Collect at most 63 number characters. */
    method NumberRunLoop() returns (run: string)
      requires Valid()
      ensures run == NumberRun(content, offset, 63)
    {
      run := [];
      var i := offset;
      while |run| < 63 && i < |content| && IsNumberChar(content[i])
        invariant i == offset + |run| < |content| && |run| <= 63
        invariant run + NumberRun(content, i, 63 - |run|) == NumberRun(content, offset, 63)
      {
        run := run + [content[i]];
        i := i + 1;
      }
    }

    method ParseNumberAt() returns (ok: bool, item: Json)
      requires Valid()
      modifies this`offset
      ensures Valid() && ok == ParseNumber(content, old(offset), nf).Ok?
      ensures ok ==> Ok(item, offset) == ParseNumber(content, old(offset), nf)
    {
      var run := NumberRunLoop();
      var (d, n) := Scan(nf, run);
      item := Number(Saturate(d), d);
      ok := 0 < n <= |run|;
      if ok { offset := offset + n; }
    }

    /** parse_value. */
    method ParseValueAt() returns (ok: bool, item: Json)
      requires Valid()
      modifies this
      ensures Valid() && ok == ParseValue(content, old(offset), old(depth), nf).Ok?
      ensures ok ==> Ok(item, offset) == ParseValue(content, old(offset), old(depth), nf) && depth == old(depth)
      decreases |content| - offset, 1
    {
      ok, item := true, Null;
      if Reads(content, offset, "null") {
        offset := offset + 4;
      } else if Reads(content, offset, "false") {
        item, offset := False, offset + 5;
      } else if Reads(content, offset, "true") {
        item, offset := True, offset + 4;
      } else if content[offset] == '\"' {
        var s;
        ok, s := ParseStringAt();
        item := Str(s);
      } else if content[offset] == '-' || IsDigit(content[offset]) {
        ok, item := ParseNumberAt();
      } else if content[offset] == '[' {
        ok, item := ParseArrayAt();
      } else if content[offset] == '{' {
        ok, item := ParseObjectAt();
      } else {
        ok := false;
      }
    }

    /** parse_array. */
    method ParseArrayAt() returns (ok: bool, item: Json)
      requires Valid() && content[offset] == '['
      modifies this
      ensures Valid() && ok == ParseArray(content, old(offset), old(depth), nf).Ok?
      ensures ok ==> Ok(item, offset) == ParseArray(content, old(offset), old(depth), nf) && depth == old(depth)
      decreases |content| - offset, 0
    {
      hide ParseItems, Skip;
      ok, item := false, Array([]);
      if depth >= NESTING_LIMIT { return; }
      ghost var first := Skip(content, offset + 1);
      ghost var spec := ParseArray(content, offset, depth, nf);
      assert spec == if content[first] == ']' then Ok(Array([]), first + 1)
                     else Closed(ParseItems(content, first - 1, depth + 1, nf), content);
      depth := depth + 1;
      offset := offset + 1;
      SkipWhitespace();
      if content[offset] == ']' {
        depth, offset := depth - 1, offset + 1;
        return true, item;
      }
      offset := offset - 1;
      var items;
      ok, items := ParseItemsAt();
      if !ok || content[offset] != ']' { return false, item; }
      depth, offset := depth - 1, offset + 1;
      item := Array(items);
    }

    method ParseItemAt() returns (ok: bool, item: Json)
      requires Content(content) && offset + 1 < |content|
      modifies this
      ensures Valid() && ok == ParseItem(content, old(offset), old(depth), nf).Ok?
      ensures ok ==> Ok(item, offset) == ParseItem(content, old(offset), old(depth), nf) && depth == old(depth)
      decreases |content| - offset - 1, 2
    {
      hide ParseValue, Skip;
      offset := offset + 1;
      SkipWhitespace();
      ok, item := ParseValueAt();
      if ok { SkipWhitespace(); }
    }

    /** The element loop of parse_array. */
    method ParseItemsAt() returns (ok: bool, items: seq<Json>)
      requires Content(content) && offset + 1 < |content|
      modifies this
      ensures Valid() && ok == ParseItems(content, old(offset), old(depth), nf).Ok?
      ensures ok ==> Ok(items, offset) == ParseItems(content, old(offset), old(depth), nf) && depth == old(depth)
      decreases |content| - offset - 1, 3
    {
      hide ParseItem, Skip;
      items := [];
      ghost var all := ParseItems(content, offset, depth, nf);
      BehindNothing(all);
      while true
        invariant offset + 1 < |content| && old(offset) <= offset && depth == old(depth)
        invariant all == Behind(items, ParseItems(content, offset, depth, nf))
        decreases |content| - offset
      {
        ghost var at := offset;
        var item;
        ok, item := ParseItemAt();
        if !ok { return; }
        BehindOne(items, item, offset, content[offset] == ',', ParseItems(content, at, depth, nf),
                  if offset + 1 < |content| then ParseItems(content, offset, depth, nf) else Fail);
        items := items + [item];
        if content[offset] != ',' { return true, items; }
      }
    }

    /** parse_object. */
    method ParseObjectAt() returns (ok: bool, item: Json)
      requires Valid() && content[offset] == '{'
      modifies this
      ensures Valid() && ok == ParseObject(content, old(offset), old(depth), nf).Ok?
      ensures ok ==> Ok(item, offset) == ParseObject(content, old(offset), old(depth), nf) && depth == old(depth)
      decreases |content| - offset, 0
    {
      hide ParseMembers, Skip;
      ok, item := false, Object([]);
      if depth >= NESTING_LIMIT { return; }
      depth := depth + 1;
      offset := offset + 1;
      SkipWhitespace();
      if content[offset] == '}' {
        depth, offset := depth - 1, offset + 1;
        return true, item;
      }
      offset := offset - 1;
      var ms;
      ok, ms := ParseMembersAt();
      if !ok || content[offset] != '}' { return false, item; }
      depth, offset := depth - 1, offset + 1;
      item := Object(ms);
    }

    method ParseMemberAt() returns (ok: bool, m: Member)
      requires Content(content) && offset + 1 < |content|
      modifies this
      ensures Valid() && ok == ParseMember(content, old(offset), old(depth), nf).Ok?
      ensures ok ==> Ok(m, offset) == ParseMember(content, old(offset), old(depth), nf) && depth == old(depth)
      decreases |content| - offset - 1, 2
    {
      hide ParseString, ParseValue, Skip;
      m := Keyed("", Null);
      offset := offset + 1;
      SkipWhitespace();
      var key;
      ok, key := ParseStringAt();
      if !ok { return; }
      SkipWhitespace();
      if content[offset] != ':' { return false, m; }
      offset := offset + 1;
      SkipWhitespace();
      var value;
      ok, value := ParseValueAt();
      if !ok { return; }
      SkipWhitespace();
      m := Keyed(key, value);
    }

    /** The member loop of parse_object. */
    method ParseMembersAt() returns (ok: bool, ms: seq<Member>)
      requires Content(content) && offset + 1 < |content|
      modifies this
      ensures Valid() && ok == ParseMembers(content, old(offset), old(depth), nf).Ok?
      ensures ok ==> Ok(ms, offset) == ParseMembers(content, old(offset), old(depth), nf) && depth == old(depth)
      decreases |content| - offset - 1, 3
    {
      hide ParseMember, Skip;
      ms := [];
      ghost var all := ParseMembers(content, offset, depth, nf);
      BehindNothing(all);
      while true
        invariant offset + 1 < |content| && old(offset) <= offset && depth == old(depth)
        invariant all == Behind(ms, ParseMembers(content, offset, depth, nf))
        decreases |content| - offset
      {
        ghost var at := offset;
        var m;
        ok, m := ParseMemberAt();
        if !ok { return; }
        BehindOne(ms, m, offset, content[offset] == ',', ParseMembers(content, at, depth, nf),
                  if offset + 1 < |content| then ParseMembers(content, offset, depth, nf) else Fail);
        ms := ms + [m];
        if content[offset] != ',' { return true, ms; }
      }
    }
  }

  /** A result with more elements in front. */
  ghost function Behind<T>(front: seq<T>, r: Parsed<seq<T>>): Parsed<seq<T>> {
    match r case Fail => Fail case Ok(s, next) => Ok(front + s, next)
  }

  lemma BehindNothing<T>(r: Parsed<seq<T>>)
    ensures Behind([], r) == r
  {
    if r.Ok? { assert [] + r.value == r.value; }
  }

  lemma BehindOne<T>(front: seq<T>, x: T, end: nat, more: bool, r: Parsed<seq<T>>, rest: Parsed<seq<T>>)
    requires r == if more then Behind([x], rest) else Ok([x], end)
    ensures Behind(front, r) == if more then Behind(front + [x], rest) else Ok(front + [x], end)
  {
    if rest.Ok? { assert front + ([x] + rest.value) == front + [x] + rest.value; }
  }

  lemma NothingPrefixed(r: Option<string>)
    ensures Prefixed("", r) == r
  {
    if r.Some? { assert "" + r.value == r.value; }
  }

  lemma PrefixedTwice(a: string, b: string, r: Option<string>)
    ensures Prefixed(a, Prefixed(b, r)) == Prefixed(a + b, r)
  {
    if r.Some? { assert a + (b + r.value) == a + b + r.value; }
  }

  /** cJSON_ParseWithOpts. */
  method Parse(value: string, requireNullTerminated: bool, nf: NumberFormat) returns (r: Parsed<Json>)
    ensures r == ParseWithOpts(value, requireNullTerminated, nf)
  {
    var buffer := new ParseBuffer(value + ['\0'], nf, SkipBom(value + ['\0']));
    buffer.SkipWhitespace();
    var ok, item := buffer.ParseValueAt();
    if !ok { return Fail; }
    if requireNullTerminated {
      buffer.SkipWhitespace();
      if buffer.content[buffer.offset] != '\0' { return Fail; }
    }
    return Ok(item, buffer.offset);
  }
}
