/** parse_string: unescaping with brace counting, and the sizing pass in front of it. */
module Unescaping {
  import opened CText
  import opened Escape

  predicate IsHex(c: char) {
    '0' <= c <= '9' || 'A' <= c <= 'F' || 'a' <= c <= 'f'
  }

  function HexVal(c: char): (h: nat)
    requires IsHex(c)
    ensures h < 16
  {
    if '0' <= c <= '9' then c as int - '0' as int
    else if 'A' <= c <= 'F' then 10 + (c as int - 'A' as int)
    else 10 + (c as int - 'a' as int)
  }

  /** Printing and reading hex digits by the same table. */
  lemma HexTable(c: char, d: nat)
    ensures IsHex(c) ==> c == "0123456789abcdef"[HexVal(c)] || c == "0123456789ABCDEF"[HexVal(c)]
    ensures d < 16 ==> HexDigit(d) == "0123456789abcdef"[d]
  {
  }

  /** `parse_hex4`: zero when one of the four characters is no hex digit. */
  function Hex4(s: string, i: nat): (h: nat)
    ensures h < 0x10000
  {
    if IsHex(At(s, i)) && IsHex(At(s, i + 1)) && IsHex(At(s, i + 2)) && IsHex(At(s, i + 3)) then
      0x1000 * HexVal(At(s, i)) + 0x100 * HexVal(At(s, i + 1)) + 0x10 * HexVal(At(s, i + 2)) + HexVal(At(s, i + 3))
    else 0
  }

  /** The UTF-8 octets of a Unicode scalar value (section 3 of RFC 3629). */
  function Utf8(c: nat): (t: string)
    requires c < 0x110000
    ensures 1 <= |t| <= 4
  {
    if c < 0x80 then [c as char]
    else if c < 0x800 then [(0xC0 + c / 0x40) as char, (0x80 + c % 0x40) as char]
    else if c < 0x10000 then
      [(0xE0 + c / 0x1000) as char, (0x80 + c / 0x40 % 0x40) as char, (0x80 + c % 0x40) as char]
    else
      [(0xF0 + c / 0x40000) as char, (0x80 + c / 0x1000 % 0x40) as char, (0x80 + c / 0x40 % 0x40) as char,
       (0x80 + c % 0x40) as char]
  }

  predicate IsHighSurrogate(u: nat) { 0xD800 <= u <= 0xDBFF }

  predicate IsLowSurrogate(u: nat) { 0xDC00 <= u <= 0xDFFF }

  function Combine(hi: nat, lo: nat): (c: nat)
    requires IsHighSurrogate(hi) && IsLowSurrogate(lo)
    ensures 0x10000 <= c < 0x110000
  {
    0x10000 + hi % 0x400 * 0x400 + lo % 0x400
  }

  /** What one escape contributes and the offset after it. */
  datatype Piece = Piece(out: string, next: nat)

  /** The escape whose backslash is at `i`. A `\u` escape always steps over
      four characters, a high surrogate over a following `\uXXXX` too. */
  function Unescape(s: string, i: nat): (r: Piece)
    ensures i + 2 <= r.next
  {
    match At(s, i + 1)
    case 'b' => Piece("\U{8}", i + 2)
    case 'f' => Piece("\U{c}", i + 2)
    case 'n' => Piece("\n", i + 2)
    case 'r' => Piece("\r", i + 2)
    case 't' => Piece("\t", i + 2)
    case 'u' => UnescapeUnicode(s, i)
    case c => Piece([c], i + 2)
  }

  function UnescapeUnicode(s: string, i: nat): (r: Piece)
    ensures i + 6 <= r.next
  {
    var uc := Hex4(s, i + 2);
    if IsLowSurrogate(uc) || uc == 0 then Piece("", i + 6)
    else if !IsHighSurrogate(uc) then Piece(Utf8(uc), i + 6)
    else if At(s, i + 6) != '\\' || At(s, i + 7) != 'u' then Piece("", i + 6)
    else
      var uc2 := Hex4(s, i + 8);
      if IsLowSurrogate(uc2) then Piece(Utf8(Combine(uc, uc2)), i + 12) else Piece("", i + 12)
  }

  /** The decoded string and the offset after it; Overrun when an escape would
      step past the terminator, where C leaves the text. */
  datatype Decoded = Decoded(out: string, end: nat) | Overrun

  /** A decoded prefix put in front of what the rest decodes to. */
  function Prepend(t: string, r: Decoded): Decoded {
    match r
    case Overrun => Overrun
    case Decoded(out, end) => Decoded(t + out, end)
  }

  function Nest(c: char, nest: int): int {
    if c == '{' then nest + 1 else if c == '}' then nest - 1 else nest
  }

  /** The second loop of parse_string: a quote ends the string only while no brace is open. */
  function Decode(s: string, i: nat, nest: int): (r: Decoded)
    requires i <= |s|
    ensures r.Decoded? ==> i <= r.end <= |s|
    decreases |s| - i
  {
    if At(s, i) == '\0' then Decoded("", i)
    else if At(s, i) == '"' && nest == 0 then Decoded("", i + 1)
    else if At(s, i) != '\\' then
      Prepend([At(s, i)], Decode(s, i + 1, Nest(At(s, i), nest)))
    else
      var piece := Unescape(s, i);
      if piece.next > |s| then Overrun else Prepend(piece.out, Decode(s, piece.next, nest))
  }

  datatype Sized = Sized(len: nat) | Unsized

  /** The first loop of parse_string: one per character or escape up to the first raw quote. */
  function Scan(s: string, i: nat): Sized
    requires i <= |s|
    decreases |s| - i
  {
    if At(s, i) == '"' || At(s, i) == '\0' then Sized(0)
    else
      var next := if At(s, i) == '\\' then i + 2 else i + 1;
      if next > |s| then Unsized
      else match Scan(s, next)
        case Unsized => Unsized
        case Sized(n) => Sized(n + 1)
  }

  /** A string body as JSON writes it: escapes complete, `\u` with four hex
      digits, and no brace open at the closing quote. It may be cut off by the
      end of the text. */
  predicate Body(s: string, i: nat, nest: int)
    requires i <= |s|
    decreases |s| - i
  {
    if At(s, i) == '\0' then true
    else if At(s, i) == '"' then nest == 0
    else if At(s, i) != '\\' then Body(s, i + 1, Nest(At(s, i), nest))
    else if At(s, i + 1) == '\0' then false
    else if At(s, i + 1) == 'u' then
      && IsHex(At(s, i + 2)) && IsHex(At(s, i + 3)) && IsHex(At(s, i + 4)) && IsHex(At(s, i + 5))
      && Body(s, i + 6, nest)
    else Body(s, i + 2, nest)
  }

  /** For every well-formed body the sizing pass bounds what decoding writes. */
  lemma {:induction false} BodyFits(s: string, i: nat, nest: int)
    requires i <= |s| && Body(s, i, nest)
    ensures Scan(s, i).Sized? && Decode(s, i, nest).Decoded?
    ensures |Decode(s, i, nest).out| <= Scan(s, i).len
    decreases |s| - i
  {
    hide UnescapeUnicode, Hex4;
    if At(s, i) == '\0' || At(s, i) == '"' {
    } else if At(s, i) != '\\' {
      BodyFits(s, i + 1, Nest(At(s, i), nest));
    } else if At(s, i + 1) != 'u' {
      BodyFits(s, i + 2, nest);
    } else {
      ScanFour(s, i + 2);
      UnicodeWidth(s, i);
      if Unescape(s, i).next == i + 6 {
        BodyFits(s, i + 6, nest);
      } else {
        ScanFour(s, i + 8);
        BodyFits(s, i + 12, nest);
      }
    }
  }

  /** A `\u` escape or pair writes fewer characters than it has digits. */
  lemma UnicodeWidth(s: string, i: nat)
    ensures var piece := UnescapeUnicode(s, i);
            if piece.next == i + 6 then |piece.out| <= 3
            else piece.next == i + 12 && |piece.out| <= 4 && At(s, i + 6) == '\\' && At(s, i + 7) == 'u'
  {
    hide Hex4;
  }

  lemma ScanFour(s: string, i: nat)
    requires IsHex(At(s, i)) && IsHex(At(s, i + 1)) && IsHex(At(s, i + 2)) && IsHex(At(s, i + 3))
    ensures i + 4 <= |s|
    ensures Scan(s, i).Sized? <==> Scan(s, i + 4).Sized?
    ensures Scan(s, i).Sized? ==> Scan(s, i).len == Scan(s, i + 4).len + 4
  {
    assert Scan(s, i + 3).Sized? <==> Scan(s, i + 4).Sized?;
    assert Scan(s, i + 2).Sized? <==> Scan(s, i + 3).Sized?;
    assert Scan(s, i + 1).Sized? <==> Scan(s, i + 2).Sized?;
  }

  /** One character's escape is read back as that character. */
  lemma UnescapeChar(s: string, i: nat, c: char)
    requires Has(s, i, EscapeChar(c)) && c != '\0' && !IsPlain(c)
    ensures At(s, i) == '\\' && Unescape(s, i) == Piece([c], i + |EscapeChar(c)|)
    ensures (|EscapeChar(c)| == 2 && At(s, i + 1) != 'u' && At(s, i + 1) != '\0') || |EscapeChar(c)| == 6
    ensures |EscapeChar(c)| == 6 ==>
              At(s, i + 1) == 'u' && IsHex(At(s, i + 2)) && IsHex(At(s, i + 3)) && IsHex(At(s, i + 4)) && IsHex(At(s, i + 5))
  {
    var e := EscapeChar(c);
    HasAt(s, i, e, 0);
    HasAt(s, i, e, 1);
    if ShortEscape(c) == '\0' {
      UnescapeControl(s, i, c);
    }
  }

  lemma UnescapeControl(s: string, i: nat, c: char)
    requires Has(s, i, EscapeChar(c)) && c != '\0' && !IsPlain(c) && ShortEscape(c) == '\0'
    ensures |EscapeChar(c)| == 6 && At(s, i + 1) == 'u' && Unescape(s, i) == Piece([c], i + 6)
    ensures IsHex(At(s, i + 2)) && IsHex(At(s, i + 3)) && IsHex(At(s, i + 4)) && IsHex(At(s, i + 5))
  {
    var e, n := EscapeChar(c), c as int;
    assert e == ['\\', 'u', '0', '0', HexDigit(n / 16), HexDigit(n % 16)];
    HasAt(s, i, e, 1);
    HasAt(s, i, e, 2);
    HasAt(s, i, e, 3);
    HasAt(s, i, e, 4);
    HasAt(s, i, e, 5);
    assert Hex4(s, i + 2) == 16 * (n / 16) + n % 16 == n;
  }

  lemma PrependTwice(a: string, b: string, r: Decoded, ab: string)
    requires ab == a + b
    ensures Prepend(a, Prepend(b, r)) == Prepend(ab, r)
  {
    if r.Decoded? {
      assert a + (b + r.out) == (a + b) + r.out;
    }
  }

  /** Decoding across one escape. */
  lemma DecodeEscape(s: string, i: nat, nest: int, piece: Piece)
    requires At(s, i) == '\\' && Unescape(s, i) == piece && piece.next <= |s|
    ensures Decode(s, i, nest) == Prepend(piece.out, Decode(s, piece.next, nest))
  {
  }

  lemma DecodeChar(s: string, i: nat, c: char, nest: int)
    requires Has(s, i, EscapeChar(c)) && c != '\0'
    ensures i + |EscapeChar(c)| <= |s|
    ensures Decode(s, i, nest) == Prepend([c], Decode(s, i + |EscapeChar(c)|, Nest(c, nest)))
  {
    if IsPlain(c) {
      HasFirst(s, i, EscapeChar(c));
    } else {
      UnescapeChar(s, i, c);
      DecodeEscape(s, i, nest, Piece([c], i + |EscapeChar(c)|));
    }
  }

  /** Decoding runs through an escaped string, counting its braces. */
  lemma {:induction false} DecodeEscaped(s: string, i: nat, x: string, nest: int, end: nat, nest': int)
    requires Has(s, i, EscapeAll(x)) && '\0' !in x
    requires end == i + |EscapeAll(x)| && nest' == nest + Count(x, '{') - Count(x, '}')
    ensures end <= |s| && Decode(s, i, nest) == Prepend(x, Decode(s, end, nest'))
    decreases |x|, 1
  {
    hide EscapeChar;
    if x == "" {
      PrependNothing(Decode(s, i, nest));
      assert end == i && nest' == nest;
    } else {
      DecodeEscapedStep(s, i, x[0], x[1..], nest, end, nest', x);
    }
  }

  lemma {:induction false} DecodeEscapedStep(s: string, i: nat, c: char, xs: string, nest: int, end: nat, nest': int, x: string)
    requires x == [c] + xs && Has(s, i, EscapeAll(x)) && '\0' !in x
    requires end == i + |EscapeAll(x)| && nest' == nest + Count(x, '{') - Count(x, '}')
    ensures end <= |s| && Decode(s, i, nest) == Prepend(x, Decode(s, end, nest'))
    decreases |x|, 0
  {
    hide EscapeChar, Decode, Prepend;
    assert x[0] == c && x[1..] == xs;
    HasConcat(s, i, EscapeChar(c), EscapeAll(xs));
    DecodeChar(s, i, c, nest);
    DecodeEscaped(s, i + |EscapeChar(c)|, xs, Nest(c, nest), end, nest');
    PrependTwice([c], xs, Decode(s, end, nest'), x);
  }

  lemma PrependNothing(r: Decoded)
    ensures Prepend("", r) == r
  {
    if r.Decoded? {
      assert "" + r.out == r.out;
    }
  }

  lemma BodyChar(s: string, i: nat, c: char, nest: int)
    requires Has(s, i, EscapeChar(c)) && c != '\0'
    ensures i + |EscapeChar(c)| <= |s| && Body(s, i, nest) == Body(s, i + |EscapeChar(c)|, Nest(c, nest))
  {
    if IsPlain(c) {
      HasFirst(s, i, EscapeChar(c));
    } else {
      UnescapeChar(s, i, c);
    }
  }

  lemma {:induction false} BodyEscaped(s: string, i: nat, x: string, nest: int)
    requires Has(s, i, EscapeAll(x)) && '\0' !in x
    ensures i + |EscapeAll(x)| <= |s|
    ensures Body(s, i, nest) == Body(s, i + |EscapeAll(x)|, nest + Count(x, '{') - Count(x, '}'))
    decreases |x|
  {
    hide EscapeChar, Body;
    if x == "" {
      assert i + |EscapeAll(x)| == i;
    } else {
      HasConcat(s, i, EscapeChar(x[0]), EscapeAll(x[1..]));
      BodyChar(s, i, x[0], nest);
      BodyEscaped(s, i + |EscapeChar(x[0])|, x[1..], Nest(x[0], nest));
    }
  }
}
