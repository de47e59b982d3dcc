/** String escaping: what print_string_ptr writes, and how it sizes it. */
module Escape {

  function HexDigit(d: nat): (c: char)
    requires d < 16
  {
    if d < 10 then (d + '0' as int) as char else (d - 10 + 'a' as int) as char
  }

  /** `%04x` of a character below 32. */
  function Hex4Text(n: nat): (t: string)
    requires n < 256
    ensures |t| == 4
  {
    ['0', '0', HexDigit(n / 16), HexDigit(n % 16)]
  }

  /** The letter of a two-character escape, or NUL for none. */
  function ShortEscape(c: char): char {
    match c
    case '\\' => '\\'
    case '"' => '"'
    case '\U{8}' => 'b'
    case '\U{c}' => 'f'
    case '\n' => 'n'
    case '\r' => 'r'
    case '\t' => 't'
    case _ => '\0'
  }

  /** A character the writing pass copies as it is. */
  predicate IsPlain(c: char) {
    c > '\U{1f}' && c != '"' && c != '\\'
  }

  function EscapeChar(c: char): (t: string)
    ensures |t| > 0
  {
    if IsPlain(c) then [c]
    else if ShortEscape(c) != '\0' then ['\\', ShortEscape(c)]
    else ['\\', 'u'] + Hex4Text(c as int)
  }

  function EscapeAll(s: string): string {
    if s == "" then "" else EscapeChar(s[0]) + EscapeAll(s[1..])
  }

  /** The text of a string or key. */
  function Quote(s: string): (t: string)
    ensures |t| == |EscapeAll(s)| + 2
    ensures t[0] == '"'
  {
    "\"" + EscapeAll(s) + "\""
  }

  lemma EscapeAllCons(c: char, s: string)
    ensures EscapeAll([c] + s) == EscapeChar(c) + EscapeAll(s)
    ensures s == "" ==> EscapeAll(s) == ""
  {
    hide EscapeChar;
    assert ([c] + s)[1..] == s;
  }

  lemma Associate(a: string, b: string, c: string)
    ensures a + (b + c) == a + b + c
  {
  }

  lemma {:induction false} EscapeAllSnoc(s: string, c: char)
    ensures EscapeAll(s + [c]) == EscapeAll(s) + EscapeChar(c)
  {
    hide EscapeChar;
    if s == "" {
      EscapeAllCons(c, "");
      assert s + [c] == [c] + "";
    } else {
      EscapeAllSnoc(s[1..], c);
      EscapeAllCons(s[0], s[1..]);
      EscapeAllCons(s[0], s[1..] + [c]);
      hide EscapeAll;
      assert s == [s[0]] + s[1..] && s + [c] == [s[0]] + (s[1..] + [c]);
      Associate(EscapeChar(s[0]), EscapeAll(s[1..]), EscapeChar(c));
    }
  }

  lemma {:induction false} EscapeAllConcat(a: string, b: string)
    ensures EscapeAll(a + b) == EscapeAll(a) + EscapeAll(b)
  {
    hide EscapeChar;
    if a == "" {
      assert a + b == b;
    } else {
      EscapeAllConcat(a[1..], b);
      EscapeAllCons(a[0], a[1..]);
      EscapeAllCons(a[0], a[1..] + b);
      hide EscapeAll;
      assert a == [a[0]] + a[1..] && a + b == [a[0]] + (a[1..] + b);
      Associate(EscapeChar(a[0]), EscapeAll(a[1..]), EscapeAll(b));
    }
  }

  /** The fast path: without a character to escape, the text is the string itself. */
  lemma {:induction false} EscapeAllPlain(s: string)
    requires forall k :: 0 <= k < |s| ==> IsPlain(s[k])
    ensures EscapeAll(s) == s
  {
    if s != "" {
      EscapeAllPlain(s[1..]);
      assert s == [s[0]] + s[1..];
    }
  }

  /** Escaped text never shows a raw blank, quote or control character outside an escape. */
  lemma {:induction false} EscapeAllVisible(s: string)
    ensures forall k :: 0 <= k < |EscapeAll(s)| ==> EscapeAll(s)[k] > '\U{1f}'
  {
    if s != "" {
      EscapeAllVisible(s[1..]);
    }
  }
}
