/** JSON pointers as cJSON_Utils reads and writes them: the escaping of member names, the
    decoding of array indexes, and the walk from a root to an item.  An item inside a tree is
    named by its location, the child positions leading to it. */
module JsonPointer {
  import opened Common
  import opened CStrings
  import opened SortSeq
  import opened JsonValue

  const SIZE_MODULUS := 0x1_0000_0000

  /** The text up to the first NUL. */
  function CText(s: string): string {
    if s == [] || s[0] == '\0' then [] else [s[0]] + CText(s[1..])
  }

  /** encode_string_as_pointer: '~' becomes "~1", and for '/' only the '1' is stored, so that the
      byte before it keeps whatever the destination held. */
  function EncodeAsPointer(source: string, stale: char): string {
    if source == [] then []
    else if source[0] == '/' then [stale, '1'] + EncodeAsPointer(source[1..], stale)
    else if source[0] == '~' then ['~', '1'] + EncodeAsPointer(source[1..], stale)
    else [source[0]] + EncodeAsPointer(source[1..], stale)
  }

  /** decode_pointer_inplace with its write position d and read position s: plain characters are
      skipped over, never copied down. */
  function DecodeFrom(text: string, d: nat, s: nat): string
    requires d <= s <= |text|
    decreases |text| - s
  {
    if s == |text| then text[..d]
    else if text[s] != '~' then DecodeFrom(text, d + 1, s + 1)
    else if s + 1 < |text| && text[s + 1] == '0' then DecodeFrom(text[d := '~'], d + 1, s + 2)
    else if s + 1 < |text| && text[s + 1] == '1' then DecodeFrom(text[d + 1 := '/'], d + 1, s + 2)
    else text
  }

  function DecodePointer(text: string): string { DecodeFrom(text, 0, 0) }

  /** compare_pointers: does the next token of the pointer name this member? */
  predicate ComparePointers(name: string, pointer: string, cs: bool)
    decreases |name|
  {
    if name != [] && pointer != [] && pointer[0] != '/' then
      if pointer[0] == '~' then
        var c := if |pointer| > 1 then pointer[1] else '\0';
        if (c != '0' || name[0] != '~') && (c != '1' || name[0] != '/') then false
        else ComparePointers(name[1..], pointer[2..], cs)
      else if (!cs && Lower(name[0]) != Lower(pointer[0])) || (cs && name[0] != pointer[0]) then false
      else ComparePointers(name[1..], pointer[1..], cs)
    else
      (pointer != [] && pointer[0] != '/') == (name != [])
  }

  /** The digit loop tests the first character, not the current one, against '9'. */
  function DigitsFrom(pointer: string, position: nat, parsed: nat): (r: (nat, nat))
    requires position <= |pointer|
    ensures position <= r.0 <= |pointer|
    decreases |pointer| - position
  {
    if position < |pointer| && pointer[position] >= '0' && pointer[0] <= '9' then
      DigitsFrom(pointer, position + 1, (10 * parsed + (pointer[position] as int - '0' as int)) % SIZE_MODULUS)
    else (position, parsed)
  }

  function DecodeArrayIndex(pointer: string): Option<nat> {
    if |pointer| > 1 && pointer[0] == '0' && pointer[1] != '/' then None
    else
      var (position, parsed) := DigitsFrom(pointer, 0, 0);
      if position < |pointer| && pointer[position] != '/' then None else Some(parsed)
  }

  function SkipToken(pointer: string): (r: string)
    ensures |r| <= |pointer|
  {
    if pointer == [] || pointer[0] == '/' then pointer else SkipToken(pointer[1..])
  }

  type Location = seq<nat>

  predicate HasChild(j: Json, i: nat) {
    (j.Array? && i < |j.items|) || (j.Object? && i < |j.members|)
  }

  function Child(j: Json, i: nat): Json
    requires HasChild(j, i)
  {
    if j.Array? then j.items[i] else j.members[i].value
  }

  function WithChild(j: Json, i: nat, x: Json): (r: Json)
    requires HasChild(j, i)
    ensures HasChild(r, i) && Child(r, i) == x
  {
    if j.Array? then Array(j.items[i := x])
    else Object(j.members[i := Keyed(j.members[i].key, x)])
  }

  predicate ValidLocation(j: Json, at: Location) {
    at == [] || (HasChild(j, at[0]) && ValidLocation(Child(j, at[0]), at[1..]))
  }

  function Get(j: Json, at: Location): Json
    requires ValidLocation(j, at)
  {
    if at == [] then j else Get(Child(j, at[0]), at[1..])
  }

  function Put(j: Json, at: Location, x: Json): Json
    requires ValidLocation(j, at)
  {
    if at == [] then x else WithChild(j, at[0], Put(Child(j, at[0]), at[1..], x))
  }

  function FindByPointer(ms: seq<Member>, pointer: string, cs: bool): (i: nat)
    ensures i <= |ms|
  {
    if ms == [] then 0
    else if ComparePointers(ms[0].key, pointer, cs) then 0
    else 1 + FindByPointer(ms[1..], pointer, cs)
  }

  /** The child the next token selects, if any. */
  function Step(j: Json, token: string, cs: bool): (r: Option<nat>)
    ensures r.Some? ==> HasChild(j, r.value)
  {
    if j.Array? then
      match DecodeArrayIndex(token)
      case None => None
      case Some(i) => if i < |j.items| then Some(i) else None
    else if j.Object? then
      var i := FindByPointer(j.members, token, cs);
      if i < |j.members| then Some(i) else None
    else None
  }

  /** get_item_from_pointer. */
  function Locate(j: Json, pointer: string, cs: bool): (r: Option<Location>)
    ensures r.Some? ==> ValidLocation(j, r.value)
    decreases |pointer|
  {
    if pointer == [] || pointer[0] != '/' then Some([])
    else
      match Step(j, pointer[1..], cs)
      case None => None
      case Some(i) =>
        match Locate(Child(j, i), SkipToken(pointer[1..]), cs)
        case None => None
        case Some(rest) => assert ([i] + rest)[1..] == rest; Some([i] + rest)
  }

  /** The path split at its last '/', as strrchr does. */
  function SplitLast(path: string): (r: Option<(string, string)>)
    ensures r.Some? ==> path == r.value.0 + "/" + r.value.1 && '/' !in r.value.1
    ensures r.None? <==> '/' !in path
  {
    if path == [] then None
    else if path[|path| - 1] == '/' then Some((path[..|path| - 1], ""))
    else
      match SplitLast(path[..|path| - 1])
      case None => None
      case Some((p, c)) => Some((p, c + [path[|path| - 1]]))
  }

  /** The "%lu" text of an index. */
  function Decimal(n: nat): (r: string)
    ensures r != []
    decreases n
  {
    var digit := [('0' as int + n % 10) as char];
    if n < 10 then digit else Decimal(n / 10) + digit
  }

  // ---------- Member names free of '/' , '~' and NUL ----------

  predicate Clean(s: string) { forall i :: 0 <= i < |s| ==> s[i] != '/' && s[i] != '~' && s[i] != '\0' }

  lemma {:induction false} EncodeClean(s: string, stale: char)
    requires Clean(s)
    ensures EncodeAsPointer(s, stale) == s
  {
    if s != [] { EncodeClean(s[1..], stale); }
  }

  lemma {:induction false} CTextKeepsAbsent(s: string, c: char)
    requires c !in s
    ensures c !in CText(s)
  {
    if s != [] && s[0] != '\0' {
      assert s == [s[0]] + s[1..];
      CTextKeepsAbsent(s[1..], c);
    }
  }

  lemma {:induction false} CTextOfClean(s: string)
    requires '\0' !in s
    ensures CText(s) == s
  {
    if s != [] { CTextOfClean(s[1..]); }
  }

  lemma {:induction false} DecodeSkipsClean(text: string, i: nat, d: nat)
    requires d <= i <= |text| && forall k :: d <= k < i ==> text[k] != '~'
    ensures DecodeFrom(text, d, d) == DecodeFrom(text, i, i)
    decreases i - d
  {
    if d < i { DecodeSkipsClean(text, i, d + 1); }
  }

  lemma DecodeClean(s: string)
    requires Clean(s)
    ensures DecodePointer(s) == s
  {
    DecodeSkipsClean(s, |s|, 0);
  }

  /** The rest of a pointer after a token. */
  predicate EndsToken(rest: string) { rest == [] || rest[0] == '/' }

  lemma {:induction false} CompareCleanToken(name: string, token: string, rest: string, cs: bool)
    requires Clean(token) && EndsToken(rest)
    ensures ComparePointers(name, token + rest, cs) <==> Norm(name, cs) == Norm(token, cs)
  {
    hide Norm, LowerAll;
    NormLength(name, cs);
    NormLength(token, cs);
    if name != [] && token != [] {
      assert (token + rest)[1..] == token[1..] + rest;
      CompareCleanToken(name[1..], token[1..], rest, cs);
      NormSplits(name, token, cs);
    } else if token == [] {
      assert token + rest == rest;
    }
  }

  lemma NormLength(s: string, cs: bool)
    ensures |Norm(s, cs)| == |s|
  {
  }

  /** Names are the same in a mode when their first characters and their rests are. */
  lemma NormSplits(a: string, b: string, cs: bool)
    requires a != [] && b != []
    ensures Norm(a, cs) == Norm(b, cs) <==>
            (if cs then a[0] == b[0] else Lower(a[0]) == Lower(b[0])) && Norm(a[1..], cs) == Norm(b[1..], cs)
  {
    hide Lower;
    var x, y := Norm(a, cs), Norm(b, cs);
    assert x[1..] == Norm(a[1..], cs) && y[1..] == Norm(b[1..], cs);
    assert x == [x[0]] + x[1..] && y == [y[0]] + y[1..];
  }

  lemma {:induction false} FindCleanToken(ms: seq<Member>, token: string, rest: string, cs: bool)
    requires Clean(token) && EndsToken(rest)
    ensures FindByPointer(ms, token + rest, cs) == FindIndex(ms, token, cs)
  {
    if ms != [] {
      CompareCleanToken(ms[0].key, token, rest, cs);
      CompareZero(token, ms[0].key, cs);
      FindCleanToken(ms[1..], token, rest, cs);
    }
  }

  lemma {:induction false} SkipCleanToken(token: string, rest: string)
    requires Clean(token) && EndsToken(rest)
    ensures SkipToken(token + rest) == rest
  {
    if token != [] {
      assert (token + rest)[1..] == token[1..] + rest;
      SkipCleanToken(token[1..], rest);
    } else {
      assert token + rest == rest;
    }
  }

  lemma {:induction false} DigitsIgnoreRest(token: string, rest: string, position: nat, parsed: nat)
    requires token != [] && EndsToken(rest) && position <= |token|
    ensures DigitsFrom(token + rest, position, parsed) == DigitsFrom(token, position, parsed)
    decreases |token| - position
  {
    if position < |token| && token[position] >= '0' && token[0] <= '9' {
      DigitsIgnoreRest(token, rest, position + 1,
        (10 * parsed + (token[position] as int - '0' as int)) % SIZE_MODULUS);
    }
  }

  lemma DecodeIndexIgnoresRest(token: string, rest: string)
    requires Clean(token) && EndsToken(rest)
    ensures DecodeArrayIndex(token + rest) == DecodeArrayIndex(token)
  {
    if token != [] {
      DigitsIgnoreRest(token, rest, 0, 0);
      var (position, parsed) := DigitsFrom(token, 0, 0);
      assert position < |token| ==> (token + rest)[position] == token[position];
      assert |token| > 1 ==> (token + rest)[1] == token[1];
    } else {
      assert token + rest == rest;
      if rest != [] {
        assert DigitsFrom(rest, 0, 0) == (0, 0);
      }
    }
  }

  lemma StepIgnoresRest(j: Json, token: string, rest: string, cs: bool)
    requires Clean(token) && EndsToken(rest)
    ensures Step(j, token + rest, cs) == Step(j, token, cs)
  {
    DecodeIndexIgnoresRest(token, rest);
    if j.Object? {
      FindCleanToken(j.members, token, rest, cs);
      assert token + [] == token;
      FindCleanToken(j.members, token, [], cs);
    }
  }

  // ---------- Array indexes ----------

  lemma {:induction false} DecimalIsClean(n: nat)
    ensures forall i :: 0 <= i < |Decimal(n)| ==> '0' <= Decimal(n)[i] <= '9'
    ensures n > 0 ==> Decimal(n)[0] != '0'
    decreases n
  {
    if n >= 10 { DecimalIsClean(n / 10); }
  }

  lemma DigitsStep(text: string, position: nat, parsed: nat, n: nat)
    requires position < |text| && text[0] <= '9' && n < SIZE_MODULUS && parsed == n / 10
    requires text[position] == ('0' as int + n % 10) as char
    ensures DigitsFrom(text, position, parsed) == DigitsFrom(text, position + 1, n)
  {
  }

  lemma {:induction false} DigitsOfDecimal(n: nat, rest: string)
    requires n < SIZE_MODULUS
    ensures DigitsFrom(Decimal(n) + rest, 0, 0) == DigitsFrom(Decimal(n) + rest, |Decimal(n)|, n)
    decreases n
  {
    var digit := [('0' as int + n % 10) as char];
    var text := Decimal(n) + rest;
    assert text[0] == Decimal(n)[0];
    DecimalIsClean(n);
    if n < 10 {
      DigitsStep(text, 0, 0, n);
    } else {
      var p := Decimal(n / 10);
      assert text == p + (digit + rest);
      DigitsOfDecimal(n / 10, digit + rest);
      DigitsStep(text, |p|, n / 10, n);
    }
  }

  /** Reading back a printed array index gives the index. */
  lemma DecodeIndexOfDecimal(n: nat)
    requires n < SIZE_MODULUS
    ensures DecodeArrayIndex(Decimal(n)) == Some(n)
  {
    DecimalIsClean(n);
    DigitsOfDecimal(n, []);
    assert Decimal(n) + [] == Decimal(n);
    if n == 0 { assert Decimal(0) == "0"; }
  }

  // ---------- Pointers made of clean tokens ----------

  function Join(tokens: seq<string>): string {
    if tokens == [] then [] else "/" + tokens[0] + Join(tokens[1..])
  }

  predicate AllClean(tokens: seq<string>) { forall i :: 0 <= i < |tokens| ==> Clean(tokens[i]) }

  function LocateTokens(j: Json, tokens: seq<string>, cs: bool): (r: Option<Location>)
    ensures r.Some? ==> ValidLocation(j, r.value)
    decreases |tokens|
  {
    if tokens == [] then Some([])
    else
      match Step(j, tokens[0], cs)
      case None => None
      case Some(i) =>
        match LocateTokens(Child(j, i), tokens[1..], cs)
        case None => None
        case Some(rest) => assert ([i] + rest)[1..] == rest; Some([i] + rest)
  }

  /** Walking the pointer text is walking its tokens. */
  lemma {:induction false} LocateJoin(j: Json, tokens: seq<string>, cs: bool)
    requires AllClean(tokens)
    ensures Locate(j, Join(tokens), cs) == LocateTokens(j, tokens, cs)
    decreases |tokens|
  {
    if tokens != [] {
      var rest := Join(tokens[1..]);
      assert Join(tokens)[1..] == tokens[0] + rest;
      StepIgnoresRest(j, tokens[0], rest, cs);
      SkipCleanToken(tokens[0], rest);
      match Step(j, tokens[0], cs)
      case None =>
      case Some(i) => LocateJoin(Child(j, i), tokens[1..], cs);
    }
  }

  lemma {:induction false} SplitAppended(p: string, c: string)
    requires '/' !in c
    ensures SplitLast(p + "/" + c) == Some((p, c))
    decreases |c|
  {
    var path := p + "/" + c;
    if c == [] {
      assert path[..|path| - 1] == p;
    } else {
      var shorter := c[..|c| - 1];
      SplitAppended(p, shorter);
      assert path[..|path| - 1] == p + "/" + shorter;
      assert c == shorter + [c[|c| - 1]];
    }
  }

  lemma {:induction false} JoinAppend(tokens: seq<string>, last: string)
    ensures Join(tokens + [last]) == Join(tokens) + "/" + last
  {
    if tokens == [] {
      assert [last][1..] == [];
      assert tokens + [last] == [last];
      assert Join([last]) == "/" + last + Join([]);
    } else {
      assert (tokens + [last])[1..] == tokens[1..] + [last];
      JoinAppend(tokens[1..], last);
      assert (tokens + [last])[0] == tokens[0];
      assert Join(tokens + [last]) == "/" + tokens[0] + (Join(tokens[1..]) + "/" + last);
    }
  }

  /** Changing the item at a location does not change the walk to it. */
  lemma {:induction false} LocateAfterPut(j: Json, tokens: seq<string>, x: Json, cs: bool)
    requires LocateTokens(j, tokens, cs).Some?
    ensures LocateTokens(Put(j, LocateTokens(j, tokens, cs).value, x), tokens, cs) == LocateTokens(j, tokens, cs)
    decreases |tokens|
  {
    if tokens != [] {
      var i := Step(j, tokens[0], cs).value;
      var rest := LocateTokens(Child(j, i), tokens[1..], cs).value;
      assert ([i] + rest)[1..] == rest;
      LocateAfterPut(Child(j, i), tokens[1..], x, cs);
      StepAfterWithChild(j, tokens[0], i, Put(Child(j, i), rest, x), cs);
    }
  }

  lemma StepAfterWithChild(j: Json, token: string, i: nat, x: Json, cs: bool)
    requires HasChild(j, i)
    ensures Step(WithChild(j, i, x), token, cs) == Step(j, token, cs)
  {
    if j.Object? { FindIgnoresValues(j.members, WithChild(j, i, x).members, token, cs); }
  }

  lemma {:induction false} FindIgnoresValues(ms: seq<Member>, ns: seq<Member>, pointer: string, cs: bool)
    requires |ms| == |ns| && forall i :: 0 <= i < |ms| ==> ms[i].key == ns[i].key
    ensures FindByPointer(ms, pointer, cs) == FindByPointer(ns, pointer, cs)
  {
    if ms != [] { FindIgnoresValues(ms[1..], ns[1..], pointer, cs); }
  }

  lemma {:induction false} GetAfterPut(j: Json, at: Location, x: Json)
    requires ValidLocation(j, at)
    ensures ValidLocation(Put(j, at, x), at) && Get(Put(j, at, x), at) == x
  {
    if at != [] { GetAfterPut(Child(j, at[0]), at[1..], x); }
  }

  lemma {:induction false} PutTwice(j: Json, at: Location, x: Json, y: Json)
    requires ValidLocation(j, at)
    ensures ValidLocation(Put(j, at, x), at) && Put(Put(j, at, x), at, y) == Put(j, at, y)
  {
    if at != [] { PutTwice(Child(j, at[0]), at[1..], x, y); }
  }

  // ---------- Exactly which names survive the escaping ----------

  predicate TildeOnlyLast(s: string) { forall i :: 0 <= i < |s| - 1 ==> s[i] != '~' }

  lemma {:induction false} EncodePrefix(s: string, i: nat, stale: char)
    requires i <= |s| && forall k :: 0 <= k < i ==> s[k] != '~' && s[k] != '/'
    ensures EncodeAsPointer(s, stale) == s[..i] + EncodeAsPointer(s[i..], stale)
  {
    hide EncodeAsPointer;
    if i > 0 {
      EncodePrefix(s[1..], i - 1, stale);
      EncodePlain(s, stale);
      assert s[1..][i - 1..] == s[i..];
      assert s[..i] == [s[0]] + s[1..][..i - 1];
    } else {
      assert s[0..] == s && s[..0] == [];
    }
  }

  lemma EncodePlain(s: string, stale: char)
    requires s != [] && s[0] != '~' && s[0] != '/'
    ensures EncodeAsPointer(s, stale) == [s[0]] + EncodeAsPointer(s[1..], stale)
  {
  }

  ghost predicate TildesPaired(text: string, start: nat) {
    forall i :: start <= i < |text| && text[i] == '~' ==> i + 1 < |text| && text[i + 1] == '1'
  }

  lemma {:induction false} EncodedTildes(s: string, stale: char)
    requires '/' !in s || stale != '~'
    ensures TildesPaired(EncodeAsPointer(s, stale), 0)
  {
    hide TildesPaired;
    if s == [] {
      NothingPaired();
    } else {
      assert s == [s[0]] + s[1..];
      EncodedTildes(s[1..], stale);
      var head := if s[0] == '~' then ['~', '1'] else if s[0] == '/' then [stale, '1'] else [s[0]];
      TildesBehind(head, EncodeAsPointer(s[1..], stale));
    }
  }

  lemma NothingPaired()
    ensures TildesPaired("", 0)
  {
  }

  lemma TildesBehind(head: string, rest: string)
    requires TildesPaired(rest, 0) && 0 < |head| <= 2
    requires head[0] == '~' ==> |head| == 2 && head[1] == '1'
    requires |head| == 2 ==> head[1] == '1'
    ensures TildesPaired(head + rest, 0)
  {
    var e := head + rest;
    forall i | 0 <= i < |e| && e[i] == '~' ensures i + 1 < |e| && e[i + 1] == '1' {
      if i >= |head| { assert rest[i - |head|] == '~'; }
    }
  }

  /** Once the write position lags, what it has passed stays, because "~0" never occurs. */
  lemma {:induction false} LaggingDecodeKeeps(text: string, d: nat, s: nat, k: nat)
    requires k < d < s <= |text|
    requires TildesPaired(text, s)
    ensures |DecodeFrom(text, d, s)| >= d && DecodeFrom(text, d, s)[k] == text[k]
    decreases |text| - s
  {
    if s < |text| {
      if text[s] != '~' {
        LaggingDecodeKeeps(text, d + 1, s + 1, k);
      } else {
        var t := text[d + 1 := '/'];
        assert forall i :: s + 2 <= i < |t| ==> t[i] == text[i];
        LaggingDecodeKeeps(t, d + 1, s + 2, k);
      }
    }
  }

  lemma DecodeAfterTilde(text: string, i: nat)
    requires i + 1 < |text| && text[i] == '~' && text[i + 1] == '1'
    requires TildesPaired(text, 0)
    ensures |text| == i + 2 ==> DecodeFrom(text, i, i) == text[..i + 1]
    ensures |text| > i + 2 ==> |DecodeFrom(text, i, i)| > i + 1 && DecodeFrom(text, i, i)[i + 1] == '/'
  {
    var t := text[i + 1 := '/'];
    assert DecodeFrom(text, i, i) == DecodeFrom(t, i + 1, i + 2);
    if |text| > i + 2 {
      if t[i + 2] != '~' {
        LaggingDecodeKeeps(t, i + 2, i + 3, i + 1);
      } else {
        assert text[i + 2] == '~' && text[i + 3] == '1';
        var u := t[i + 2 := '/'];
        assert forall k :: i + 4 <= k < |u| ==> u[k] == text[k];
        LaggingDecodeKeeps(u, i + 2, i + 4, i + 1);
      }
    }
  }

  function FirstTilde(s: string): (i: nat)
    ensures i <= |s| && forall k :: 0 <= k < i ==> s[k] != '~'
    ensures i < |s| ==> s[i] == '~'
  {
    if s == [] || s[0] == '~' then 0 else 1 + FirstTilde(s[1..])
  }

  /** Escaping then unescaping a name without '/' gives the name back exactly when '~' occurs, if
      at all, only as its last character. */
  lemma EscapeSurvivesIff(s: string, stale: char)
    requires '/' !in s
    ensures DecodePointer(EncodeAsPointer(s, stale)) == s <==> TildeOnlyLast(s)
    ensures !TildeOnlyLast(s) ==> '/' in DecodePointer(EncodeAsPointer(s, stale))
  {
    var i := FirstTilde(s);
    var text := EncodeAsPointer(s, stale);
    EncodePrefix(s, i, stale);
    EncodedTildes(s, stale);
    if i == |s| {
      assert text == s;
      DecodeSkipsClean(text, |s|, 0);
    } else {
      assert text[i] == '~' && text[i + 1] == '1';
      assert forall k :: 0 <= k < i ==> text[k] == s[k];
      DecodeSkipsClean(text, i, 0);
      DecodeAfterTilde(text, i);
      if i == |s| - 1 {
        assert s == s[..i] + ['~'];
        assert text[..i + 1] == s;
      } else {
        assert !TildeOnlyLast(s);
        EncodeNotShorter(s[i + 1..], stale);
      }
    }
  }

  lemma {:induction false} EncodeNotShorter(s: string, stale: char)
    ensures |EncodeAsPointer(s, stale)| >= |s|
    ensures '/' in s ==> |EncodeAsPointer(s, stale)| > |s|
    ensures '~' !in s && stale != '~' ==> '~' !in EncodeAsPointer(s, stale)
    ensures '\0' !in s && (stale != '\0' || '/' !in s) ==> '\0' !in EncodeAsPointer(s, stale)
    ensures '/' !in s || stale != '/' ==> '/' !in EncodeAsPointer(s, stale)
  {
    if s != [] {
      EncodeNotShorter(s[1..], stale);
      assert s == [s[0]] + s[1..];
    }
  }

  function Count(s: string, c: char): nat {
    if s == [] then 0 else (if s[0] == c then 1 else 0) + Count(s[1..], c)
  }

  lemma {:induction false} CountAbsent(s: string, c: char)
    ensures Count(s, c) == 0 <==> c !in s
  {
    if s != [] {
      CountAbsent(s[1..], c);
      assert s == [s[0]] + s[1..];
    }
  }

  /** Decoding makes a text shorter by one character for each escape. */
  lemma {:induction false} DecodedLength(text: string, d: nat, s: nat)
    requires d <= s <= |text| && TildesPaired(text, s)
    ensures |DecodeFrom(text, d, s)| == d + |text| - s - Count(text[s..], '~')
    decreases |text| - s
  {
    if s < |text| {
      assert text[s..][1..] == text[s + 1..];
      if text[s] != '~' {
        DecodedLength(text, d + 1, s + 1);
      } else {
        var t := text[d + 1 := '/'];
        assert text[s + 1..][1..] == text[s + 2..] == t[s + 2..];
        assert forall i :: s + 2 <= i < |t| ==> t[i] == text[i];
        DecodedLength(t, d + 1, s + 2);
      }
    }
  }

  /** Encoding makes a name longer by one character for each '/' and '~'. */
  lemma {:induction false} EncodedLength(s: string, stale: char)
    requires stale != '~'
    ensures |EncodeAsPointer(s, stale)| == |s| + Count(s, '/') + Count(s, '~')
    ensures Count(EncodeAsPointer(s, stale), '~') == Count(s, '~')
  {
    if s != [] {
      EncodedLength(s[1..], stale);
      var e := EncodeAsPointer(s, stale);
      if s[0] == '/' || s[0] == '~' {
        assert e[1..][1..] == EncodeAsPointer(s[1..], stale);
      } else {
        assert e[1..] == EncodeAsPointer(s[1..], stale);
      }
    }
  }

  function FirstSlash(s: string): (i: nat)
    ensures i <= |s| && '/' !in s[..i]
    ensures '/' in s ==> i < |s|
  {
    if s == [] || s[0] == '/' then 0
    else
      var i := 1 + FirstSlash(s[1..]);
      assert s[..i] == [s[0]] + s[1..][..i - 1] && s == [s[0]] + s[1..];
      i
  }

  /** An unwritten byte that happens to be NUL ends the text at the first '/'. */
  lemma {:induction false} CTextStopsAtSlash(s: string)
    requires '/' in s && '\0' !in s
    ensures CText(EncodeAsPointer(s, '\0')) == EncodeAsPointer(s[..FirstSlash(s)], '\0')
  {
    var e, i := EncodeAsPointer(s, '\0'), FirstSlash(s);
    if s[0] != '/' {
      assert s == [s[0]] + s[1..];
      CTextStopsAtSlash(s[1..]);
      assert s[..i][1..] == s[1..][..i - 1];
      if s[0] == '~' {
        assert e[1..][1..] == EncodeAsPointer(s[1..], '\0');
      } else {
        assert e[1..] == EncodeAsPointer(s[1..], '\0');
      }
    }
  }

  /** Exactly which names survive escaping and unescaping, whatever byte the encoder left unwritten
      (other than '~'). */
  lemma NameSurvivesIff(s: string, stale: char)
    requires '\0' !in s && stale != '~'
    ensures DecodePointer(CText(EncodeAsPointer(s, stale))) == s <==> '/' !in s && TildeOnlyLast(s)
    ensures '/' in s ==> |DecodePointer(CText(EncodeAsPointer(s, stale)))| != |s|
  {
    var text := EncodeAsPointer(s, stale);
    EncodeNotShorter(s, stale);
    CountAbsent(s, '/');
    if '/' !in s || stale != '\0' {
      CTextOfClean(text);
      if '/' !in s {
        EscapeSurvivesIff(s, stale);
      } else {
        EscapedIsLonger(s, stale);
      }
    } else {
      CTextStopsAtSlash(s);
      EscapedIsLonger(s[..FirstSlash(s)], stale);
      CountAbsent(s[..FirstSlash(s)], '/');
    }
  }

  lemma EscapedIsLonger(s: string, stale: char)
    requires stale != '~'
    ensures |DecodePointer(EncodeAsPointer(s, stale))| == |s| + Count(s, '/')
  {
    var text := EncodeAsPointer(s, stale);
    EncodedTildes(s, stale);
    EncodedLength(s, stale);
    assert text[0..] == text;
    DecodedLength(text, 0, 0);
  }

  /** In the middle of a pointer an escaped name finds its member exactly when it has no '~'. */
  lemma {:induction false} EncodedNameMatchesIff(s: string, stale: char, cs: bool)
    requires '/' !in s
    ensures ComparePointers(s, EncodeAsPointer(s, stale), cs) <==> '~' !in s
  {
    if s != [] {
      assert s == [s[0]] + s[1..];
      if s[0] != '~' {
        assert EncodeAsPointer(s, stale)[1..] == EncodeAsPointer(s[1..], stale);
        EncodedNameMatchesIff(s[1..], stale, cs);
      }
    }
  }
}
