/** Exactly when parse_string overruns the block that its first loop sized. */
module Overrun {
  import opened CText
  import opened JsonValue
  import opened Escape
  import opened PrintText
  import opened Unescaping
  import opened ParseText
  import RoundTrip

  /** The escape whose backslash is at `i` is complete: a character behind the
      backslash, four hex digits behind a `u`, also in the second half of a pair. */
  predicate Whole(s: string, i: nat) {
    && At(s, i + 1) != '\0'
    && (At(s, i + 1) == 'u' ==> FourHex(s, i + 2))
    && (At(s, i + 1) == 'u' && Unescape(s, i).next == i + 12 ==> FourHex(s, i + 8))
  }

  predicate FourHex(s: string, i: nat) {
    IsHex(At(s, i)) && IsHex(At(s, i + 1)) && IsHex(At(s, i + 2)) && IsHex(At(s, i + 3))
  }

  /** Where the two loops can first part: the first raw quote, the first incomplete
      escape, or the end of the text. */
  function Stop(s: string, i: nat): (q: nat)
    requires i <= |s|
    ensures i <= q <= |s|
    ensures At(s, q) == '\0' || At(s, q) == '"' || (At(s, q) == '\\' && !Whole(s, q))
    decreases |s| - i
  {
    if At(s, i) == '\0' || At(s, i) == '"' then i
    else if At(s, i) != '\\' then Stop(s, i + 1)
    else if !Whole(s, i) then i
    else
      WholePiece(s, i);
      Stop(s, Unescape(s, i).next)
  }

  /** The brace count there. */
  function Open(s: string, i: nat, nest: int): int
    requires i <= |s|
    decreases |s| - i
  {
    if At(s, i) == '\0' || At(s, i) == '"' then nest
    else if At(s, i) != '\\' then Open(s, i + 1, Nest(At(s, i), nest))
    else if !Whole(s, i) then nest
    else
      WholePiece(s, i);
      Open(s, Unescape(s, i).next, nest)
  }

  /** A `\u` escape is sized as five characters, a surrogate pair as ten; what it
      does not write of them is left over. */
  function Slack(s: string, i: nat): (n: nat)
    requires i <= |s|
    decreases |s| - i
  {
    if At(s, i) == '\0' || At(s, i) == '"' then 0
    else if At(s, i) != '\\' then Slack(s, i + 1)
    else if !Whole(s, i) then 0
    else
      var piece := Unescape(s, i);
      WholePiece(s, i);
      (if At(s, i + 1) == 'u' then piece.next - i - (if piece.next == i + 6 then 1 else 2) - |piece.out| else 0)
      + Slack(s, piece.next)
  }

  /** The characters written up to there. */
  function Before(s: string, i: nat): string
    requires i <= |s|
    decreases |s| - i
  {
    if At(s, i) == '\0' || At(s, i) == '"' then ""
    else if At(s, i) != '\\' then [At(s, i)] + Before(s, i + 1)
    else if !Whole(s, i) then ""
    else
      WholePiece(s, i);
      Unescape(s, i).out + Before(s, Unescape(s, i).next)
  }

  /** What a complete escape takes and writes. */
  lemma WholePiece(s: string, i: nat)
    requires i <= |s| && At(s, i) == '\\' && Whole(s, i)
    ensures var piece := Unescape(s, i);
            && i < piece.next <= |s|
            && (At(s, i + 1) != 'u' ==> piece.next == i + 2 && |piece.out| == 1)
            && (At(s, i + 1) == 'u' ==> (piece.next == i + 6 && |piece.out| <= 3) || (piece.next == i + 12 && |piece.out| <= 4))
  {
  }

  /** The sizing loop over one complete escape. */
  lemma PieceSized(s: string, i: nat)
    requires i <= |s| && At(s, i) == '\\' && Whole(s, i)
    ensures var next := Unescape(s, i).next;
            && next <= |s|
            && (Scan(s, i).Sized? <==> Scan(s, next).Sized?)
            && (Scan(s, next).Sized? ==>
                  Scan(s, i) == Sized(Scan(s, next).len + if At(s, i + 1) != 'u' then 1 else next - i - (if next == i + 12 then 2 else 1)))
  {
    WholePiece(s, i);
    if At(s, i + 1) == 'u' {
      ScanFour(s, i + 2);
      if Unescape(s, i).next == i + 12 {
        PairMarks(s, i);
        ScanFour(s, i + 8);
      }
    }
  }

  lemma PairMarks(s: string, i: nat)
    requires At(s, i + 1) == 'u' && Unescape(s, i).next == i + 12
    ensures At(s, i + 6) == '\\' && At(s, i + 7) == 'u'
  {
  }

  /** Up to the stop both loops walk over the same characters: the block has room for
      what is written, the slack, and what is sized from there on. */
  lemma {:induction false} Walk(s: string, i: nat, nest: int)
    requires i <= |s|
    ensures var q := Stop(s, i);
            && (Scan(s, i).Sized? <==> Scan(s, q).Sized?)
            && (Scan(s, q).Sized? ==> Scan(s, i).len == |Before(s, i)| + Slack(s, i) + Scan(s, q).len)
            && Decode(s, i, nest) == Prepend(Before(s, i), Decode(s, q, Open(s, i, nest)))
    decreases |s| - i
  {
    hide Unescape, Whole;
    var q := Stop(s, i);
    if At(s, i) == '\0' || At(s, i) == '"' {
      PrependNothing(Decode(s, i, nest));
    } else if At(s, i) != '\\' {
      var nest' := Nest(At(s, i), nest);
      Walk(s, i + 1, nest');
      PrependTwice([At(s, i)], Before(s, i + 1), Decode(s, q, Open(s, i, nest)), Before(s, i));
    } else if !Whole(s, i) {
      PrependNothing(Decode(s, i, nest));
    } else {
      var piece := Unescape(s, i);
      WholePiece(s, i);
      PieceSized(s, i);
      Walk(s, piece.next, nest);
      DecodeEscape(s, i, nest, piece);
      PrependTwice(piece.out, Before(s, piece.next), Decode(s, q, Open(s, i, nest)), Before(s, i));
    }
  }

  /** For every literal: parse_string stays inside its block and the text if and only
      if what the second loop still writes from the stop on fits into the slack and
      what the first loop still sizes there. At a raw quote that is nothing. */
  lemma ReadsExactly(s: string, i: nat)
    requires i < |s| && s[i] == '"'
    ensures ParseString(s, i) != Undefined
       <==> var q := Stop(s, i + 1);
            var rest := Decode(s, q, Open(s, i + 1, 0));
            Scan(s, q).Sized? && rest.Decoded? && |rest.out| <= Slack(s, i + 1) + Scan(s, q).len
  {
    hide Scan, Decode, Stop, Open, Slack, Before;
    Walk(s, i + 1, 0);
  }

  /** Every escape up to the first raw quote, or the end of the text, is complete. */
  predicate Complete(s: string, i: nat)
    requires i <= |s|
  {
    At(s, Stop(s, i)) != '\\'
  }

  /** parse_string stays inside its block and the text if and only if what the second
      loop still writes from the first raw quote on fits into the slack. */
  lemma OverrunsExactly(s: string, i: nat)
    requires i < |s| && s[i] == '"' && Complete(s, i + 1)
    ensures ParseString(s, i) != Undefined
       <==> var rest := Decode(s, Stop(s, i + 1), Open(s, i + 1, 0));
            rest.Decoded? && |rest.out| <= Slack(s, i + 1)
  {
    hide Decode, Stop, Open, Slack;
    ReadsExactly(s, i);
  }

  /** A backslash at the very end of the text, or a `\u` escape with a missing digit that
      has fewer than four characters behind it, always takes the reader out of the
      text. With four characters the second loop writes nothing for the escape and
      steps over them, whatever they are. */
  lemma StopsIncomplete(s: string, i: nat)
    requires i < |s| && s[i] == '"' && '\0' !in s && !Complete(s, i + 1)
    ensures var q := Stop(s, i + 1);
            && q < |s| && s[q] == '\\'
            && (q + 1 == |s| || (At(s, q + 1) == 'u' && q + 6 > |s|) ==> ParseString(s, i) == Undefined)
            && (q + 1 < |s| && !FourHex(s, q + 2) ==> s[q + 1] == 'u' && Unescape(s, q) == Piece("", q + 6))
  {
    hide Stop, Open, Slack;
    ReadsExactly(s, i);
    var q := Stop(s, i + 1);
    assert Decode(s, q, Open(s, i + 1, 0)).Decoded? ==> Unescape(s, q).next <= |s|;
  }

  /** Such an input: the literal holding nothing but `\u`. */
  lemma IncompleteInput()
    ensures ParseString("\"\\u\"", 0) == Undefined
  {
    assert Stop("\"\\u\"", 1) == 1;
    StopsIncomplete("\"\\u\"", 0);
  }

  /** Some escape up to the stop is a `\u`. */
  predicate HasUnicode(s: string, i: nat)
    requires i <= |s|
    decreases |s| - i
  {
    if At(s, i) == '\0' || At(s, i) == '"' then false
    else if At(s, i) != '\\' then HasUnicode(s, i + 1)
    else if !Whole(s, i) then false
    else
      WholePiece(s, i);
      At(s, i + 1) == 'u' || HasUnicode(s, Unescape(s, i).next)
  }

  lemma {:induction false} NoSlack(s: string, i: nat)
    requires i <= |s|
    ensures Slack(s, i) == 0 <==> !HasUnicode(s, i)
    decreases |s| - i
  {
    hide Unescape, Whole;
    if At(s, i) == '\0' || At(s, i) == '"' {
    } else if At(s, i) != '\\' {
      NoSlack(s, i + 1);
    } else if Whole(s, i) {
      WholePiece(s, i);
      NoSlack(s, Unescape(s, i).next);
    }
  }

  /** Without `\u` escapes in front of it: the first raw quote must find a brace
      count of 0, or be missing. */
  lemma OverrunsWithoutUnicode(s: string, i: nat)
    requires i < |s| && s[i] == '"' && Complete(s, i + 1) && !HasUnicode(s, i + 1)
    ensures ParseString(s, i) != Undefined
       <==> Open(s, i + 1, 0) == 0 || At(s, Stop(s, i + 1)) == '\0'
  {
    hide Stop, Open, Slack, HasUnicode;
    OverrunsExactly(s, i);
    NoSlack(s, i + 1);
    QuoteWrites(s, Stop(s, i + 1), Open(s, i + 1, 0));
  }

  /** From a raw quote on nothing is written if and only if the quote ends the string. */
  lemma QuoteWrites(s: string, q: nat, nest: int)
    requires q <= |s| && (At(s, q) == '"' || At(s, q) == '\0')
    ensures var rest := Decode(s, q, nest);
            rest.Decoded? && |rest.out| <= 0 <==> nest == 0 || At(s, q) == '\0'
  {
  }

  // ----- printed strings

  /** The characters of `x` that print as `\u00XX`. */
  function Unicodes(x: string): nat {
    if x == "" then 0 else (if !IsPlain(x[0]) && ShortEscape(x[0]) == '\0' then 1 else 0) + Unicodes(x[1..])
  }

  lemma CharWalk(s: string, i: nat, c: char, nest: int)
    requires Has(s, i, EscapeChar(c)) && c != '\0'
    ensures var e := i + |EscapeChar(c)|;
            && e <= |s| && Stop(s, i) == Stop(s, e) && Open(s, i, nest) == Open(s, e, Nest(c, nest))
            && Slack(s, i) == Slack(s, e) + 4 * Unicodes([c])
  {
    assert [c][1..] == "";
    if IsPlain(c) {
      HasFirst(s, i, EscapeChar(c));
    } else {
      UnescapeChar(s, i, c);
    }
  }

  /** An escaped string is walked over to its end; each `\u00XX` leaves a slack of four. */
  lemma {:induction false} EscapedWalk(s: string, i: nat, x: string, nest: int)
    requires Has(s, i, EscapeAll(x)) && '\0' !in x
    ensures var e := i + |EscapeAll(x)|;
            && e <= |s| && Stop(s, i) == Stop(s, e)
            && Open(s, i, nest) == Open(s, e, nest + Count(x, '{') - Count(x, '}'))
            && Slack(s, i) == Slack(s, e) + 4 * Unicodes(x)
    decreases |x|
  {
    hide EscapeChar, Stop, Open, Slack;
    if x == "" {
      assert i + |EscapeAll(x)| == i;
    } else {
      HasConcat(s, i, EscapeChar(x[0]), EscapeAll(x[1..]));
      CharWalk(s, i, x[0], nest);
      EscapedWalk(s, i + |EscapeChar(x[0])|, x[1..], Nest(x[0], nest));
      assert [x[0]][1..] == "";
    }
  }

  /** Reading a printed string back overruns the block if and only if its braces are
      not balanced and what is read on behind its closing quote, that quote included,
      is more than four characters for each `\u00XX` in it. */
  lemma PrintedOverruns(s: string, i: nat, x: string)
    requires Has(s, i, Quote(x)) && IsCString(x)
    ensures i + 1 + |EscapeAll(x)| < |s|
    ensures ParseString(s, i) == Undefined
       <==> var rest := Decode(s, i + 1 + |EscapeAll(x)|, Count(x, '{') - Count(x, '}'));
            !BalancedText(x) && (rest.Overrun? || |rest.out| > 4 * Unicodes(x))
  {
    hide EscapeAll, Scan, Unicodes, Stop, Open, Slack, ParseString;
    RoundTrip.QuoteParts(s, i, x);
    var e := i + 1 + |EscapeAll(x)|;
    RawQuote(s, e, Count(x, '{') - Count(x, '}'));
    EscapedWalk(s, i + 1, x, 0);
    OverrunsExactly(s, i);
  }

  lemma RawQuote(s: string, q: nat, nest: int)
    requires q < |s| && s[q] == '"'
    ensures Stop(s, q) == q && Open(s, q, nest) == nest && Slack(s, q) == 0
    ensures Decode(s, q, 0) == Decoded("", q + 1)
  {
  }

  /** A string printed by itself: with unbalanced braces and no `\u00XX` it always
      overruns the block it is read back into. */
  lemma PrintedAlone(x: string, fmt: bool, requireEnd: bool)
    requires IsCString(x)
    ensures ParseDocument(Print(Str(x), 0, fmt), requireEnd) == Undefined <==> !BalancedText(x) && Unicodes(x) == 0
  {
    hide EscapeAll, Scan, Unicodes, ParseString;
    var s := Quote(x);
    var e := 1 + |EscapeAll(x)|;
    assert Has(s, 0, s) && s[e] == '"' && |s| == e + 1;
    StaysPut(s, 0);
    PrintedOverruns(s, 0, x);
    if !BalancedText(x) {
      var nest := Count(x, '{') - Count(x, '}');
      assert Decode(s, e + 1, nest) == Decoded("", e + 1);
      assert Decode(s, e, nest).out == "\"";
    }
    QuotedValue(s, requireEnd);
  }

  lemma QuotedValue(s: string, requireEnd: bool)
    requires s != "" && s[0] == '"'
    ensures ParseDocument(s, requireEnd) == Undefined <==> ParseString(s, 0) == Undefined
  {
    hide ParseString;
    StaysPut(s, 0);
    RoundTrip.NotLiteral(s, 0);
  }
}
