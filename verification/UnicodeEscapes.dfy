/** Texts written in \uXXXX escapes decode to the UTF-8 of the characters they spell. */
module UnicodeEscapes {
  import opened CText
  import opened Escape
  import opened Unescaping
  import opened ParseText

  /** A Unicode scalar value other than NUL. */
  predicate IsScalar(c: nat) {
    0 < c < 0x110000 && !(0xD800 <= c <= 0xDFFF)
  }

  ghost predicate AllScalar(cs: seq<nat>) {
    forall k :: 0 <= k < |cs| ==> IsScalar(cs[k])
  }

  /** One \uXXXX group naming the 16-bit unit `u`, in either letter case (section 7 of RFC 8259). */
  predicate NamesUnit(t: string, u: nat) {
    && |t| == 6 && t[0] == '\\' && t[1] == 'u'
    && IsHex(t[2]) && IsHex(t[3]) && IsHex(t[4]) && IsHex(t[5])
    && u == 0x1000 * HexVal(t[2]) + 0x100 * HexVal(t[3]) + 0x10 * HexVal(t[4]) + HexVal(t[5])
  }

  function HighUnit(c: nat): nat
    requires c >= 0x10000
  {
    0xD800 + (c - 0x10000) / 0x400
  }

  function LowUnit(c: nat): nat
    requires c >= 0x10000
  {
    0xDC00 + (c - 0x10000) % 0x400
  }

  /** How many characters the escape of `c` takes: one group, or a surrogate pair. */
  function Width(c: nat): nat {
    if c < 0x10000 then 6 else 12
  }

  predicate SpellsOne(t: string, c: nat)
    requires |t| == Width(c)
  {
    if c < 0x10000 then NamesUnit(t, c) else NamesUnit(t[..6], HighUnit(c)) && NamesUnit(t[6..], LowUnit(c))
  }

  /** `t` writes the characters `cs`, every one as an escape. */
  predicate Spells(t: string, cs: seq<nat>) {
    if cs == [] then t == ""
    else
      && |t| >= Width(cs[0])
      && SpellsOne(t[..Width(cs[0])], cs[0])
      && Spells(t[Width(cs[0])..], cs[1..])
  }

  ghost function Utf8All(cs: seq<nat>): string
    requires AllScalar(cs)
  {
    if cs == [] then "" else Utf8(cs[0]) + Utf8All(cs[1..])
  }

  lemma NamedUnit(s: string, i: nat, t: string, u: nat)
    requires Has(s, i, t) && NamesUnit(t, u)
    ensures At(s, i) == '\\' && At(s, i + 1) == 'u' && Hex4(s, i + 2) == u
    ensures IsHex(At(s, i + 2)) && IsHex(At(s, i + 3)) && IsHex(At(s, i + 4)) && IsHex(At(s, i + 5))
  {
    HasAt(s, i, t, 0);
    HasAt(s, i, t, 1);
    HasAt(s, i, t, 2);
    HasAt(s, i, t, 3);
    HasAt(s, i, t, 4);
    HasAt(s, i, t, 5);
  }

  lemma PairCombines(c: nat)
    requires 0x10000 <= c < 0x110000
    ensures IsHighSurrogate(HighUnit(c)) && IsLowSurrogate(LowUnit(c))
    ensures Combine(HighUnit(c), LowUnit(c)) == c
  {
    var d := c - 0x10000;
    assert (0xD800 + d / 0x400) % 0x400 == d / 0x400;
    assert (0xDC00 + d % 0x400) % 0x400 == d % 0x400;
  }

  /** One character's escape is replaced by its UTF-8 octets. */
  lemma UnescapeScalar(s: string, i: nat, t: string, c: nat)
    requires IsScalar(c) && |t| == Width(c) && SpellsOne(t, c) && Has(s, i, t)
    ensures At(s, i) == '\\' && Unescape(s, i) == Piece(Utf8(c), i + Width(c))
    ensures forall nest :: Body(s, i, nest) == Body(s, i + Width(c), nest)
  {
    hide Utf8;
    if c < 0x10000 {
      NamedUnit(s, i, t, c);
    } else {
      assert t == t[..6] + t[6..];
      HasConcat(s, i, t[..6], t[6..]);
      NamedUnit(s, i, t[..6], HighUnit(c));
      NamedUnit(s, i + 6, t[6..], LowUnit(c));
      PairCombines(c);
    }
  }

  lemma {:induction false} DecodeSpelled(s: string, i: nat, t: string, cs: seq<nat>)
    requires AllScalar(cs)
    requires Spells(t, cs) && Has(s, i, t)
    ensures i + |t| <= |s|
    ensures Decode(s, i, 0) == Prepend(Utf8All(cs), Decode(s, i + |t|, 0))
    ensures Body(s, i, 0) == Body(s, i + |t|, 0)
    decreases |cs|
  {
    hide Unescape, UnescapeUnicode, Utf8, SpellsOne, Body, Decode, Prepend;
    if cs == [] {
      PrependNothing(Decode(s, i, 0));
      assert i + |t| == i;
    } else {
      var c, w := cs[0], Width(cs[0]);
      assert t == t[..w] + t[w..];
      HasConcat(s, i, t[..w], t[w..]);
      UnescapeScalar(s, i, t[..w], c);
      DecodeEscape(s, i, 0, Piece(Utf8(c), i + w));
      DecodeSpelled(s, i + w, t[w..], cs[1..]);
      PrependTwice(Utf8(c), Utf8All(cs[1..]), Decode(s, i + |t|, 0), Utf8All(cs));
    }
  }

  /** parse_string turns every spelled sequence of scalar values into exactly
      its UTF-8 encoding. */
  lemma ParseSpelled(s: string, i: nat, t: string, cs: seq<nat>)
    requires AllScalar(cs)
    requires Spells(t, cs) && Has(s, i, "\"" + (t + "\""))
    ensures ParseString(s, i) == Ok(Utf8All(cs), i + |t| + 2)
  {
    hide Spells, Utf8All;
    HasThree(s, i, "\"", t, "\"", "\"" + (t + "\""));
    HasFirst(s, i, "\"");
    HasFirst(s, i + 1 + |t|, "\"");
    DecodeSpelled(s, i + 1, t, cs);
    assert Utf8All(cs) + "" == Utf8All(cs);
    BodyFits(s, i + 1, 0);
  }

  // ----- every sequence can be spelled

  function SpellUnit(u: nat): (t: string)
    requires u < 0x10000
    ensures |t| == 6
  {
    ['\\', 'u', HexDigit(u / 0x1000), HexDigit(u / 0x100 % 0x10), HexDigit(u / 0x10 % 0x10), HexDigit(u % 0x10)]
  }

  function SpellOne(c: nat): (t: string)
    requires IsScalar(c)
    ensures |t| == Width(c)
  {
    if c < 0x10000 then SpellUnit(c) else SpellUnit(HighUnit(c)) + SpellUnit(LowUnit(c))
  }

  ghost function Spell(cs: seq<nat>): string
    requires AllScalar(cs)
  {
    if cs == [] then "" else SpellOne(cs[0]) + Spell(cs[1..])
  }

  lemma SpellUnitNames(u: nat)
    requires u < 0x10000
    ensures NamesUnit(SpellUnit(u), u)
  {
    hide HexDigit, HexVal, IsHex;
    FourDigits(u);
    HexDigitReads(u / 0x1000);
    HexDigitReads(u / 0x100 % 0x10);
    HexDigitReads(u / 0x10 % 0x10);
    HexDigitReads(u % 0x10);
  }

  lemma FourDigits(u: nat)
    ensures u == 0x1000 * (u / 0x1000) + 0x100 * (u / 0x100 % 0x10) + 0x10 * (u / 0x10 % 0x10) + u % 0x10
  {
    var v := u / 0x10;
    var w := v / 0x10;
    assert w == u / 0x100 && w / 0x10 == u / 0x1000;
  }

  lemma HexDigitReads(d: nat)
    requires d < 16
    ensures IsHex(HexDigit(d)) && HexVal(HexDigit(d)) == d
  {
  }

  lemma {:induction false} SpellSpells(cs: seq<nat>)
    requires AllScalar(cs)
    ensures Spells(Spell(cs), cs)
  {
    hide NamesUnit, SpellUnit;
    if cs != [] {
      var c, t := cs[0], SpellOne(cs[0]);
      if c < 0x10000 {
        SpellUnitNames(c);
      } else {
        PairCombines(c);
        SpellUnitNames(HighUnit(c));
        SpellUnitNames(LowUnit(c));
        assert t[..6] == SpellUnit(HighUnit(c)) && t[6..] == SpellUnit(LowUnit(c));
      }
      SpellSpells(cs[1..]);
      assert Spell(cs)[..Width(c)] == t && Spell(cs)[Width(c)..] == Spell(cs[1..]);
    }
  }

  // ----- the octets determine the character

  /** Reading the first character of a UTF-8 text (section 3 of RFC 3629). */
  function FromUtf8(t: string): nat
    requires |t| >= 1
    requires t[0] as int >= 0xC0 ==> |t| >= 2
    requires t[0] as int >= 0xE0 ==> |t| >= 3
    requires t[0] as int >= 0xF0 ==> |t| >= 4
  {
    var b := t[0] as int;
    if b < 0xC0 then b
    else if b < 0xE0 then b % 0x20 * 0x40 + t[1] as int % 0x40
    else if b < 0xF0 then b % 0x10 * 0x1000 + t[1] as int % 0x40 * 0x40 + t[2] as int % 0x40
    else b % 8 * 0x40000 + t[1] as int % 0x40 * 0x1000 + t[2] as int % 0x40 * 0x40 + t[3] as int % 0x40
  }

  lemma Utf8Reads(c: nat, rest: string)
    requires IsScalar(c)
    ensures var t := Utf8(c) + rest;
            && (t[0] as int >= 0xC0 ==> |t| >= 2)
            && (t[0] as int >= 0xE0 ==> |t| >= 3)
            && (t[0] as int >= 0xF0 ==> |t| >= 4)
            && FromUtf8(t) == c
  {
    var u := Utf8(c);
    var t := u + rest;
    assert t[..|u|] == u;
    assert forall k :: 0 <= k < |u| ==> t[k] == u[k];
    if c < 0x800 {
      ReadsTwo(c);
    } else if c < 0x10000 {
      ReadsThree(c);
    } else {
      ReadsFour(c);
    }
  }

  lemma ReadsTwo(c: nat)
    requires c < 0x800
    ensures c >= 0x80 ==> (0xC0 + c / 0x40) % 0x20 * 0x40 + (0x80 + c % 0x40) % 0x40 == c && c / 0x40 < 0x20
  {
  }

  lemma ReadsThree(c: nat)
    requires c < 0x10000
    ensures c / 0x1000 < 0x10
    ensures (0xE0 + c / 0x1000) % 0x10 * 0x1000 + (0x80 + c / 0x40 % 0x40) % 0x40 * 0x40 + (0x80 + c % 0x40) % 0x40 == c
  {
    var x, y := c / 0x40, c / 0x1000;
    assert x / 0x40 == y;
    LowBits(x, y, y / 0x40);
    LowBits(c, x, y);
  }

  lemma ReadsFour(c: nat)
    requires c < 0x110000
    ensures c / 0x40000 < 8
    ensures (0xF0 + c / 0x40000) % 8 * 0x40000 + (0x80 + c / 0x1000 % 0x40) % 0x40 * 0x1000
          + (0x80 + c / 0x40 % 0x40) % 0x40 * 0x40 + (0x80 + c % 0x40) % 0x40 == c
  {
    var x, y, z := c / 0x40, c / 0x1000, c / 0x40000;
    assert x / 0x40 == y && y / 0x40 == z;
    LowBits(x, y, z);
    LowBits(c, x, y);
  }

  lemma LowBits(x: nat, y: nat, z: nat)
    requires y == x / 0x40 && z == y / 0x40
    ensures (0x80 + x % 0x40) % 0x40 == x % 0x40 && (0x80 + y % 0x40) % 0x40 == y % 0x40
    ensures z < 8 ==> (0xF0 + z) % 8 == z
    ensures y < 0x10 ==> (0xE0 + y) % 0x10 == y
  {
  }
}
