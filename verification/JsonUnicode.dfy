/** The \u escapes of the parser, against the definitions of UTF-16 and UTF-8: a literal made of escaped code
    points is read as the UTF-8 text of those code points. */
module JsonUnicode {
  import opened Common
  import opened JsonPrint
  import opened JsonParse

  predicate Surrogate(n: nat) { 0xD800 <= n <= 0xDFFF }

  /** A Unicode scalar value. */
  predicate Scalar(cp: nat) { cp <= 0x10FFFF && !Surrogate(cp) }

  // ---------- UTF-8, as section 3 of RFC 3629 defines its decoding ----------

  predicate Continues(s: string, i: nat) { i < |s| && 0x80 <= s[i] as int < 0xC0 }

  /** The six bits of a continuation byte. */
  function Six(s: string, i: nat): (n: nat)
    requires Continues(s, i)
    ensures n < 0x40
  {
    s[i] as int - 0x80
  }

  /** The first code point of a text and its number of bytes; only the shortest form of a scalar value counts. */
  function DecodeUtf8(s: string): (r: Option<(nat, nat)>)
    ensures r.Some? ==> Scalar(r.value.0) && 0 < r.value.1 <= |s|
  {
    if s == [] then None
    else
      var b := s[0] as int;
      if b < 0x80 then Some((b, 1))
      else if 0xC0 <= b < 0xE0 && Continues(s, 1) then Shortest((b - 0xC0) * 0x40 + Six(s, 1), 2, 0x80)
      else if 0xE0 <= b < 0xF0 && Continues(s, 1) && Continues(s, 2) then
        Shortest((b - 0xE0) * 0x1000 + Six(s, 1) * 0x40 + Six(s, 2), 3, 0x800)
      else if 0xF0 <= b < 0xF8 && Continues(s, 1) && Continues(s, 2) && Continues(s, 3) then
        Shortest((b - 0xF0) * 0x40000 + Six(s, 1) * 0x1000 + Six(s, 2) * 0x40 + Six(s, 3), 4, 0x10000)
      else None
  }

  function Shortest(cp: nat, length: nat, least: nat): Option<(nat, nat)> {
    if least <= cp && Scalar(cp) then Some((cp, length)) else None
  }

  function DecodeAll(s: string): Option<seq<nat>>
    decreases |s|
  {
    if s == [] then Some([])
    else
      match DecodeUtf8(s)
      case None => None
      case Some((cp, n)) =>
        match DecodeAll(s[n..])
        case None => None
        case Some(rest) => Some([cp] + rest)
  }

  /** The parser writes the UTF-8 form of every scalar value. */
  lemma Utf8Decodes(cp: nat, rest: string)
    requires Scalar(cp)
    ensures Utf8(cp).Some? && DecodeUtf8(Utf8(cp).value + rest) == Some((cp, |Utf8(cp).value|))
  {
    if cp < 0x80 {
      ByteIs(cp);
    } else if cp < 0x800 {
      TwoBytes(cp, rest);
    } else if cp < 0x10000 {
      ThreeBytes(cp, rest);
    } else {
      FourBytes(cp, rest);
    }
  }

  lemma ByteIs(n: nat)
    requires n < 256
    ensures Byte(n) as int == n
  {
  }

  lemma TwoBytes(cp: nat, rest: string)
    requires 0x80 <= cp < 0x800
    ensures Utf8(cp).Some? && DecodeUtf8(Utf8(cp).value + rest) == Some((cp, 2))
  {
    hide Byte;
    var s := Utf8(cp).value + rest;
    ByteIs(0xC0 + cp / 0x40);
    ByteIs(0x80 + cp % 0x40);
    assert s[0] == Byte(0xC0 + cp / 0x40) && s[1] == Byte(0x80 + cp % 0x40);
  }

  lemma ThreeBytes(cp: nat, rest: string)
    requires 0x800 <= cp < 0x10000 && Scalar(cp)
    ensures Utf8(cp).Some? && DecodeUtf8(Utf8(cp).value + rest) == Some((cp, 3))
  {
    hide Byte;
    var s := Utf8(cp).value + rest;
    ByteIs(0xE0 + cp / 0x1000);
    ByteIs(0x80 + cp / 0x40 % 0x40);
    ByteIs(0x80 + cp % 0x40);
    assert s[0] == Byte(0xE0 + cp / 0x1000) && s[1] == Byte(0x80 + cp / 0x40 % 0x40) && s[2] == Byte(0x80 + cp % 0x40);
    Digits64(cp);
  }

  lemma FourBytes(cp: nat, rest: string)
    requires 0x10000 <= cp <= 0x10FFFF
    ensures Utf8(cp).Some? && DecodeUtf8(Utf8(cp).value + rest) == Some((cp, 4))
  {
    hide Byte;
    var s := Utf8(cp).value + rest;
    ByteIs(0xF0 + cp / 0x40000);
    ByteIs(0x80 + cp / 0x1000 % 0x40);
    ByteIs(0x80 + cp / 0x40 % 0x40);
    ByteIs(0x80 + cp % 0x40);
    assert s[0] == Byte(0xF0 + cp / 0x40000) && s[1] == Byte(0x80 + cp / 0x1000 % 0x40) &&
           s[2] == Byte(0x80 + cp / 0x40 % 0x40) && s[3] == Byte(0x80 + cp % 0x40);
    Digits64(cp);
  }

  lemma Digits64(cp: nat)
    ensures cp == cp / 0x1000 * 0x1000 + cp / 0x40 % 0x40 * 0x40 + cp % 0x40
    ensures cp / 0x1000 == cp / 0x40000 * 0x40 + cp / 0x1000 % 0x40
  {
  }

  // ---------- UTF-16 escapes ----------

  function HexEscape(n: nat): (e: string)
    requires n < 0x10000
    ensures |e| == 6
  {
    ['\\', 'u', HexDigit(n / 0x1000), HexDigit(n / 0x100 % 16), HexDigit(n / 16 % 16), HexDigit(n % 16)]
  }

  /** One escape, or two for a surrogate pair, as section 2.1 of RFC 2781 forms it. */
  function UnicodeEscape(cp: nat): (e: string)
    requires Scalar(cp)
    ensures |e| == if cp < 0x10000 then 6 else 12
  {
    if cp < 0x10000 then HexEscape(cp)
    else HexEscape(0xD800 + (cp - 0x10000) / 0x400) + HexEscape(0xDC00 + (cp - 0x10000) % 0x400)
  }

  lemma HexDigitReads(n: nat)
    requires n < 16
    ensures HexValue(HexDigit(n)) == Some(n)
  {
  }

  lemma HexReads(n: nat, rest: string)
    requires n < 0x10000
    ensures ParseHex4(HexEscape(n)[2..] + rest) == n
  {
    hide HexValue, HexDigit;
    var a, b, c, d := n / 0x1000, n / 0x100 % 16, n / 16 % 16, n % 16;
    HexDigitReads(a);
    HexDigitReads(b);
    HexDigitReads(c);
    HexDigitReads(d);
    var t := HexEscape(n)[2..] + rest;
    assert t[0] == HexDigit(a) && t[1] == HexDigit(b) && t[2] == HexDigit(c) && t[3] == HexDigit(d);
    FourDigits(n);
  }

  lemma FourDigits(n: nat)
    ensures ((n / 0x1000 * 16 + n / 0x100 % 16) * 16 + n / 16 % 16) * 16 + n % 16 == n
  {
    assert n / 0x100 / 16 == n / 0x1000 && n / 16 / 16 == n / 0x100;
  }

  /** A single escape that no second one follows is read exactly when it is not half of a surrogate pair. */
  lemma LoneEscapeReadIff(n: nat, rest: string)
    requires n < 0x10000 && (|rest| < 2 || rest[0] != '\\' || rest[1] != 'u')
    ensures Utf16Literal(HexEscape(n) + rest) ==
            if Surrogate(n) then None else Some((Utf8(n).value, 6))
  {
    hide ParseHex4, HexDigit;
    var body := HexEscape(n) + rest;
    assert body[2..] == HexEscape(n)[2..] + rest;
    HexReads(n, rest);
    assert |rest| >= 2 ==> body[6] == rest[0] && body[7] == rest[1];
  }

  /** An escaped scalar value is read as its UTF-8 form. */
  lemma UnicodeEscapeReads(cp: nat, rest: string)
    requires Scalar(cp)
    ensures Utf8(cp).Some? && Utf16Literal(UnicodeEscape(cp) + rest) == Some((Utf8(cp).value, |UnicodeEscape(cp)|))
  {
    hide ParseHex4, HexDigit, HexEscape, Utf8;
    Utf8Exists(cp);
    if cp < 0x10000 {
      assert (HexEscape(cp) + rest)[2..] == HexEscape(cp)[2..] + rest;
      HexReads(cp, rest);
    } else {
      var high, low := 0xD800 + (cp - 0x10000) / 0x400, 0xDC00 + (cp - 0x10000) % 0x400;
      PairReads(high, low, rest);
      assert cp == 0x10000 + (high % 0x400) * 0x400 + low % 0x400;
    }
  }

  lemma Utf8Exists(cp: nat)
    requires cp <= 0x10FFFF
    ensures Utf8(cp).Some?
  {
  }

  lemma PairReads(high: nat, low: nat, rest: string)
    requires 0xD800 <= high <= 0xDBFF && 0xDC00 <= low <= 0xDFFF
    ensures var cp := 0x10000 + (high % 0x400) * 0x400 + low % 0x400;
            Utf8(cp).Some? && Utf16Literal(HexEscape(high) + HexEscape(low) + rest) == Some((Utf8(cp).value, 12))
  {
    hide ParseHex4, HexDigit, HexEscape, Utf8;
    var body := HexEscape(high) + HexEscape(low) + rest;
    assert body[2..] == HexEscape(high)[2..] + (HexEscape(low) + rest);
    assert body[8..] == HexEscape(low)[2..] + rest;
    HexReads(high, HexEscape(low) + rest);
    HexReads(low, rest);
    Marks(low);
    assert body[6] == HexEscape(low)[0] && body[7] == HexEscape(low)[1];
    Utf8Exists(0x10000 + (high % 0x400) * 0x400 + low % 0x400);
  }

  lemma Marks(n: nat)
    requires n < 0x10000
    ensures HexEscape(n)[0] == '\\' && HexEscape(n)[1] == 'u'
  {
  }

  /** Of two escapes in a row, the second counts only as the low half of a pair that the first begins. */
  lemma TwoEscapesRead(n: nat, m: nat, rest: string)
    requires n < 0x10000 && m < 0x10000
    ensures Utf16Literal(HexEscape(n) + HexEscape(m) + rest) ==
            if !Surrogate(n) then Some((Utf8(n).value, 6))
            else if n < 0xDC00 <= m <= 0xDFFF then Some((Utf8(0x10000 + (n % 0x400) * 0x400 + m % 0x400).value, 12))
            else None
  {
    hide ParseHex4, HexDigit, HexEscape, Utf8;
    if n <= 0xDBFF && 0xD800 <= n && 0xDC00 <= m <= 0xDFFF {
      PairReads(n, m, rest);
    } else {
      var body := HexEscape(n) + HexEscape(m) + rest;
      assert body[2..] == HexEscape(n)[2..] + (HexEscape(m) + rest);
      assert body[8..] == HexEscape(m)[2..] + rest;
      HexReads(n, HexEscape(m) + rest);
      HexReads(m, rest);
      Utf8Exists(n);
    }
  }

  function EscapeAll(cps: seq<nat>): string
    requires forall i :: 0 <= i < |cps| ==> Scalar(cps[i])
  {
    if cps == [] then [] else UnicodeEscape(cps[0]) + EscapeAll(cps[1..])
  }

  /** A literal of escaped code points is read as a text, and that text decodes to the code points. */
  lemma {:induction false} EscapedTextReads(cps: seq<nat>)
    requires forall i :: 0 <= i < |cps| ==> Scalar(cps[i])
    ensures Unescape(EscapeAll(cps)).Some? && DecodeAll(Unescape(EscapeAll(cps)).value) == Some(cps)
  {
    hide UnicodeEscape, Utf8, Unescape, DecodeAll;
    if cps == [] {
      NothingReads();
    } else {
      var rest := EscapeAll(cps[1..]);
      EscapedTextReads(cps[1..]);
      EscapeFirst(cps[0], rest);
      var text := Unescape(rest).value;
      DecodeFirst(cps[0], text);
      assert cps == [cps[0]] + cps[1..];
    }
  }

  lemma NothingReads()
    ensures Unescape("") == Some("") && DecodeAll("") == Some([])
  {
  }

  lemma EscapeFirst(cp: nat, rest: string)
    requires Scalar(cp)
    ensures Utf8(cp).Some? && Unescape(UnicodeEscape(cp) + rest) == Prefixed(Utf8(cp).value, Unescape(rest))
  {
    hide Utf16Literal, Utf8, HexEscape;
    UnicodeEscapeReads(cp, rest);
    var body := UnicodeEscape(cp) + rest;
    Marks(if cp < 0x10000 then cp else 0xD800 + (cp - 0x10000) / 0x400);
    assert body[0] == '\\' && body[1] == 'u';
    assert body[|UnicodeEscape(cp)|..] == rest;
  }

  lemma DecodeFirst(cp: nat, text: string)
    requires Scalar(cp)
    ensures Utf8(cp).Some? &&
            DecodeAll(Utf8(cp).value + text) ==
            match DecodeAll(text) case None => None case Some(cps) => Some([cp] + cps)
  {
    hide DecodeUtf8, Utf8;
    Utf8Decodes(cp, text);
    var bytes := Utf8(cp).value;
    assert (bytes + text)[|bytes|..] == text;
    assert bytes + text != [] by {
      assert |bytes + text| == |bytes| + |text|;
    }
  }
}
