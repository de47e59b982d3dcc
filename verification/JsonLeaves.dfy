/** What parse_string and parse_number make of any literal and numeral, also of those
    the JSON grammar does not allow: unknown and incomplete escapes, surrogates
    without a partner, leading zeros, a missing exponent. */
module JsonLeaves {
  import opened CText
  import opened JsonValue
  import opened Numeral
  import opened Unescaping
  import opened ParseText
  import opened JsonGrammar
  import JsonLax

  // ----- numerals

  /** One zero may stand in front of the integer part, which may be missing, and the
      exponent may have no digits. */
  datatype LaxNumber = LaxNumber(minus: bool, zero: bool, whole: string, frac: string, exp: Exponent)

  function LaxNumberText(n: LaxNumber): string {
    (if n.minus then "-" else "") + ((if n.zero then "0" else "") + (n.whole + (FractionText(n.frac) + ExponentText(n.exp))))
  }

  /** Digits that start with no zero and go on as far as they can. */
  predicate WholeAt(s: string, i: nat, t: string) {
    && Has(s, i, t) && AllDigits(t)
    && if t == "" then !('1' <= At(s, i) <= '9') else t[0] != '0' && !IsDigit(At(s, i + |t|))
  }

  /** A point with digits behind it, as far as they go. */
  predicate FractionAt(s: string, i: nat, t: string) {
    && Has(s, i, FractionText(t)) && AllDigits(t)
    && if t == "" then !(At(s, i) == '.' && IsDigit(At(s, i + 1))) else !IsDigit(At(s, i + 1 + |t|))
  }

  /** A letter, a sign if there is one, and the digits behind it, if any. */
  predicate ExponentAt(s: string, i: nat, x: Exponent) {
    Has(s, i, ExponentText(x)) &&
    match x
    case NoExponent => At(s, i) != 'e' && At(s, i) != 'E'
    case Exponent(mark, sign, digits) =>
      && (mark == 'e' || mark == 'E') && AllDigits(digits) && !IsDigit(At(s, i + 1 + |sign| + |digits|))
      && (sign == "+" || sign == "-" || (sign == "" && At(s, i + 1) != '+' && At(s, i + 1) != '-'))
  }

  predicate NumberAt(s: string, i: nat, n: LaxNumber) {
    var i1 := if n.minus then i + 1 else i;
    var i2 := if n.zero then i1 + 1 else i1;
    var f := i2 + |n.whole|;
    && (n.minus <==> At(s, i) == '-') && (n.zero <==> At(s, i1) == '0')
    && WholeAt(s, i2, n.whole) && FractionAt(s, f, n.frac) && ExponentAt(s, f + |FractionText(n.frac)|, n.exp)
  }

  function ExponentPower(x: Exponent): int
    requires x.Exponent? ==> AllDigits(x.digits)
  {
    if x.NoExponent? then 0
    else if x.sign == "-" then -(DigitsValue(x.digits, 0) as int)
    else DigitsValue(x.digits, 0)
  }

  /** All digits as one integer, scaled by the exponent less the fraction's length. */
  function LaxNumberValue(n: LaxNumber): real
    requires AllDigits(n.whole) && AllDigits(n.frac) && (n.exp.Exponent? ==> AllDigits(n.exp.digits))
  {
    var all := DigitsValue(n.frac, DigitsValue(n.whole, 0));
    (if n.minus then -(all as real) else all as real) * Pow10(ExponentPower(n.exp) - |n.frac|)
  }

  lemma {:induction false} DigitsAre(s: string, i: nat, acc: nat)
    requires i <= |s|
    ensures var r := Digits(s, i, acc);
            AllDigits(s[i..r.end]) && r.n == DigitsValue(s[i..r.end], acc) && !IsDigit(At(s, r.end))
    decreases |s| - i
  {
    if IsDigit(At(s, i)) {
      DigitsAre(s, i + 1, acc * 10 + DigitVal(s[i]));
      var end := Digits(s, i, acc).end;
      assert s[i..end][0] == s[i] && s[i..end][1..] == s[i + 1..end];
      FirstDigit(s[i..end]);
    }
  }

  lemma FirstDigit(t: string)
    requires t != "" && IsDigit(t[0]) && AllDigits(t[1..])
    ensures AllDigits(t)
  {
    forall k | 0 <= k < |t|
      ensures IsDigit(t[k])
    {
      if k > 0 {
        assert t[k] == t[1..][k - 1];
      }
    }
  }

  lemma ExponentStands(s: string, i: nat, d: nat, end: nat, x: Exponent)
    requires (At(s, i) == 'e' || At(s, i) == 'E') && i < d <= end <= |s|
    requires d == if At(s, i + 1) == '+' || At(s, i + 1) == '-' then i + 2 else i + 1
    requires AllDigits(s[d..end]) && !IsDigit(At(s, end)) && x == Exponent(s[i], s[i + 1..d], s[d..end])
    ensures ExponentAt(s, i, x) && |ExponentText(x)| == end - i && (x.sign == "-" <==> At(s, i + 1) == '-')
  {
    assert d == i + 2 ==> x.sign == [s[i + 1]];
    JsonLax.MarkStands(s, i, s[i]);
    JsonLax.SliceStands(s, i + 1, d);
    JsonLax.SliceStands(s, d, end);
    hide Has, AllDigits, IsDigit;
    JsonLax.Surrounded(s, i, [s[i]], x.sign, x.digits);
  }

  lemma ExponentRead(s: string, i: nat, d: nat)
    requires (At(s, i) == 'e' || At(s, i) == 'E') && i < d <= |s|
    requires d == if At(s, i + 1) == '+' || At(s, i + 1) == '-' then i + 2 else i + 1
    ensures var r := Digits(s, d, 0);
            ParseExponent(s, i) == (if At(s, i + 1) == '-' then -(r.n as int) else r.n, r.end)
  {
    hide Digits;
  }

  lemma NoExponentIs(s: string, i: nat)
    requires i <= |s| && At(s, i) != 'e' && At(s, i) != 'E'
    ensures ExponentAt(s, i, NoExponent) && ParseExponent(s, i) == (0, i) && ExponentText(NoExponent) == ""
  {
  }

  lemma ExponentIs(s: string, i: nat) returns (x: Exponent)
    requires i <= |s|
    ensures ExponentAt(s, i, x) && (x.Exponent? ==> AllDigits(x.digits))
    ensures ParseExponent(s, i) == (ExponentPower(x), i + |ExponentText(x)|)
  {
    hide Digits, DigitsValue, AllDigits, ExponentAt, ExponentText, ParseExponent;
    if At(s, i) == 'e' || At(s, i) == 'E' {
      var d := if At(s, i + 1) == '+' || At(s, i + 1) == '-' then i + 2 else i + 1;
      DigitsAre(s, d, 0);
      var end := Digits(s, d, 0).end;
      x := Exponent(s[i], s[i + 1..d], s[d..end]);
      ExponentStands(s, i, d, end, x);
      ExponentRead(s, i, d);
    } else {
      x := NoExponent;
      NoExponentIs(s, i);
    }
  }

  /** The integer part and the fraction as the code reads them. */
  function ReadFraction(s: string, whole: Run): (r: Run)
    requires whole.end <= |s|
    ensures whole.end <= r.end <= |s|
  {
    if At(s, whole.end) == '.' && IsDigit(At(s, whole.end + 1)) then Digits(s, whole.end + 1, whole.n) else whole
  }

  function ReadInteger(s: string, i: nat): (r: Run)
    requires i <= |s|
    ensures i <= r.end <= |s|
  {
    if '1' <= At(s, i) <= '9' then Digits(s, i, 0) else Run(0, i)
  }

  lemma IntegerIs(s: string, i: nat) returns (t: string)
    requires i <= |s|
    ensures WholeAt(s, i, t) && AllDigits(t) && ReadInteger(s, i) == Run(DigitsValue(t, 0), i + |t|)
  {
    DigitsAre(s, i, 0);
    t := s[i..ReadInteger(s, i).end];
    hide Digits;
  }

  lemma FractionIs(s: string, i: nat, n: nat) returns (t: string)
    requires i <= |s|
    ensures FractionAt(s, i, t) && AllDigits(t)
              && ReadFraction(s, Run(n, i)) == Run(DigitsValue(t, n), i + |FractionText(t)|)
  {
    if At(s, i) == '.' && IsDigit(At(s, i + 1)) {
      DigitsAre(s, i + 1, n);
      hide Digits, DigitsValue;
      t := s[i + 1..ReadFraction(s, Run(n, i)).end];
      assert s[i..i + 1 + |t|] == "." + t;
    } else {
      t := "";
    }
  }

  function Signed(minus: bool, n: nat): real {
    if minus then -(n as real) else n as real
  }

  lemma NumberRead(s: string, i: nat, i1: nat, i2: nat, whole: Run, frac: Run, scale: nat, exp: (int, nat))
    requires i <= |s| && i1 == (if At(s, i) == '-' then i + 1 else i) && i2 == (if At(s, i1) == '0' then i1 + 1 else i1)
    requires i2 <= |s| && whole == ReadInteger(s, i2) && frac == ReadFraction(s, whole)
    requires scale == if frac.end == whole.end then 0 else frac.end - whole.end - 1
    requires exp == ParseExponent(s, frac.end)
    ensures ParseNumber(s, i) == Number(Signed(At(s, i) == '-', frac.n) * Pow10(exp.0 - scale), exp.1)
  {
    hide Digits, ParseExponent, Pow10;
  }

  lemma NumberMeans(n: LaxNumber, all: nat, exp: int)
    requires AllDigits(n.whole) && AllDigits(n.frac) && (n.exp.Exponent? ==> AllDigits(n.exp.digits))
    requires all == DigitsValue(n.frac, DigitsValue(n.whole, 0))
    requires exp == ExponentPower(n.exp)
    ensures LaxNumberValue(n) == Signed(n.minus, all) * Pow10(exp - |n.frac|)
  {
    hide DigitsValue, Pow10, AllDigits, ExponentPower;
  }

  /** Whatever stands there, parse_number takes the longest such numeral and gives its value. */
  lemma NumeralIs(s: string, i: nat) returns (n: LaxNumber)
    requires i <= |s|
    ensures NumberAt(s, i, n) && AllDigits(n.whole) && AllDigits(n.frac)
              && (n.exp.Exponent? ==> AllDigits(n.exp.digits))
    ensures ParseNumber(s, i) == Number(LaxNumberValue(n), i + |LaxNumberText(n)|)
  {
    hide Digits, DigitsValue, ParseExponent, WholeAt, FractionAt, ExponentAt, ExponentText, FractionText, AllDigits;
    hide LaxNumberValue, ParseNumber, Pow10, ReadInteger, ReadFraction, ExponentPower;
    var i1 := if At(s, i) == '-' then i + 1 else i;
    var i2 := if At(s, i1) == '0' then i1 + 1 else i1;
    var whole := IntegerIs(s, i2);
    var f := i2 + |whole|;
    var frac := FractionIs(s, f, DigitsValue(whole, 0));
    var g := f + |FractionText(frac)|;
    var exp := ExponentIs(s, g);
    n := LaxNumber(At(s, i) == '-', At(s, i1) == '0', whole, frac, exp);
    FractionScale(frac);
    var all := DigitsValue(frac, DigitsValue(whole, 0));
    NumberRead(s, i, i1, i2, Run(DigitsValue(whole, 0), f), Run(all, g), |frac|, ParseExponent(s, g));
    NumberMeans(n, all, ParseExponent(s, g).0);
  }

  lemma FractionScale(frac: string)
    ensures |FractionText(frac)| == if frac == "" then 0 else 1 + |frac|
  {
  }

  // ----- literals

  /** A piece of a literal's body: a character as it is, a backslash and a character,
      a \u group of any four characters, or two groups that are taken together. */
  datatype Part = Same(c: char) | Letter(c: char) | Group(first: string) | Both(first: string, second: string)

  function PartText(e: Part): string {
    match e
    case Same(c) => [c]
    case Letter(c) => ['\\', c]
    case Group(d) => "\\u" + d
    case Both(d, f) => "\\u" + (d + ("\\u" + f))
  }

  /** The unit four characters name; anything but four hex digits names zero. */
  function Unit(d: string): nat
    requires |d| == 4
  {
    if IsHex(d[0]) && IsHex(d[1]) && IsHex(d[2]) && IsHex(d[3]) then
      0x1000 * HexVal(d[0]) + 0x100 * HexVal(d[1]) + 0x10 * HexVal(d[2]) + HexVal(d[3])
    else 0
  }

  /** The first of two groups is always the first half of a surrogate pair. */
  predicate PartOk(e: Part) {
    match e
    case Same(c) => c != '\0' && c != '\\'
    case Letter(c) => c != '\0' && c != 'u'
    case Group(d) => |d| == 4
    case Both(d, f) => |d| == 4 && |f| == 4 && 0xD800 <= Unit(d) <= 0xDBFF
  }

  /** Zero and half a pair stand for nothing, any other escaped character for itself. */
  function PartValue(e: Part): string
    requires PartOk(e)
  {
    match e
    case Same(c) => [c]
    case Letter(c) =>
      if c == 'b' then "\U{8}" else if c == 'f' then "\U{c}" else if c == 'n' then "\n"
      else if c == 'r' then "\r" else if c == 't' then "\t" else [c]
    case Group(d) =>
      var u := Unit(d);
      if u == 0 || 0xD800 <= u <= 0xDFFF || u >= 0x10000 then "" else Utf8(u)
    case Both(d, f) =>
      if 0xDC00 <= Unit(f) <= 0xDFFF then Utf8(0x10000 + (Unit(d) - 0xD800) * 0x400 + (Unit(f) - 0xDC00)) else ""
  }

  function PartsText(es: seq<Part>): string {
    if es == [] then "" else PartText(es[0]) + PartsText(es[1..])
  }

  function PartsValue(es: seq<Part>): string
    requires forall e :: e in es ==> PartOk(e)
  {
    if es == [] then "" else PartValue(es[0]) + PartsValue(es[1..])
  }

  /** Only braces that stand as they are count. */
  function NestAfter(e: Part, nest: int): int {
    if e == Same('{') then nest + 1 else if e == Same('}') then nest - 1 else nest
  }

  /** The body at `i`, with `nest` braces open: no quote stands in it while no brace is
      open, and half a pair stands alone only where no group follows. */
  predicate PartsAt(s: string, i: nat, nest: int, es: seq<Part>)
    decreases |es|
  {
    es == [] ||
    var e := es[0];
    var next := i + |PartText(e)|;
    && PartOk(e) && Has(s, i, PartText(e)) && (e == Same('"') ==> nest != 0)
    && (e.Group? && 0xD800 <= Unit(e.first) <= 0xDBFF ==> !Has(s, next, "\\u"))
    && PartsAt(s, next, NestAfter(e, nest), es[1..])
  }

  function After(es: seq<Part>, nest: int): int {
    if es == [] then nest
    else After(es[1..], NestAfter(es[0], nest))
  }

  /** The first piece of a body. */
  lemma FirstPart(s: string, i: nat, nest: int) returns (e: Part)
    requires i < |s| && '\0' !in s && !(s[i] == '"' && nest == 0) && Decode(s, i, nest).Decoded?
    ensures PartOk(e) && Has(s, i, PartText(e)) && (e == Same('"') ==> nest != 0)
    ensures e.Group? && 0xD800 <= Unit(e.first) <= 0xDBFF ==> !Has(s, i + |PartText(e)|, "\\u")
    ensures var next := i + |PartText(e)|;
            && i < next <= |s|
            && Decode(s, i, nest) == Prepend(PartValue(e),
                 Decode(s, next, NestAfter(e, nest)))
  {
    hide Decode, Unescape, PartValue, PartText, PartOk, Unit, Has;
    assert s[i] in s;
    if s[i] != '\\' {
      e := Same(s[i]);
      FirstSame(s, i, nest);
    } else {
      StaysInside(s, i, nest);
      e := FirstEscape(s, i);
      DecodeEscape(s, i, nest, Unescape(s, i));
    }
  }

  lemma StaysInside(s: string, i: nat, nest: int)
    requires i < |s| && s[i] == '\\' && Decode(s, i, nest).Decoded?
    ensures Unescape(s, i).next <= |s|
  {
  }

  lemma FirstSame(s: string, i: nat, nest: int)
    requires i < |s| && s[i] != '\0' && s[i] != '\\' && !(s[i] == '"' && nest == 0)
    ensures var e := Same(s[i]);
            && PartOk(e) && PartText(e) == [s[i]] && Has(s, i, [s[i]])
            && Decode(s, i, nest) == Prepend(PartValue(e), Decode(s, i + 1, NestAfter(e, nest)))
  {
  }

  lemma FirstEscape(s: string, i: nat) returns (e: Part)
    requires i < |s| && '\0' !in s && s[i] == '\\' && Unescape(s, i).next <= |s|
    ensures PartOk(e) && Has(s, i, PartText(e)) && !e.Same?
    ensures e.Group? && 0xD800 <= Unit(e.first) <= 0xDBFF ==> !Has(s, i + |PartText(e)|, "\\u")
    ensures Unescape(s, i) == Piece(PartValue(e), i + |PartText(e)|)
  {
    assert s[i + 1] in s;
    if s[i + 1] != 'u' {
      e := Letter(s[i + 1]);
      assert s[i..i + 2] == PartText(e);
    } else {
      e := FirstGroup(s, i);
    }
  }

  lemma FirstGroup(s: string, i: nat) returns (e: Part)
    requires i + 1 < |s| && s[i] == '\\' && s[i + 1] == 'u' && UnescapeUnicode(s, i).next <= |s|
    ensures PartOk(e) && Has(s, i, PartText(e)) && (e.Group? || e.Both?)
    ensures e.Group? && 0xD800 <= Unit(e.first) <= 0xDBFF ==> !Has(s, i + |PartText(e)|, "\\u")
    ensures UnescapeUnicode(s, i) == Piece(PartValue(e), i + |PartText(e)|)
  {
    var d := s[i + 2..i + 6];
    UnitIs(s, i + 2, d);
    GroupStands(s, i, d);
    FollowedBy(s, i + 6);
    if UnescapeUnicode(s, i).next == i + 6 {
      e := Group(d);
      GroupMeans(s, i, d);
      hide UnescapeUnicode, Unit, PartValue, Has;
    } else {
      var f := s[i + 8..i + 12];
      UnitIs(s, i + 8, f);
      GroupStands(s, i + 6, f);
      e := Both(d, f);
      BothMean(s, i, d, f);
      hide UnescapeUnicode, Unit, PartValue, Has;
      BothStand(s, i, d, f);
    }
  }

  lemma GroupMeans(s: string, i: nat, d: string)
    requires |d| == 4 && Hex4(s, i + 2) == Unit(d) && UnescapeUnicode(s, i).next == i + 6
    ensures UnescapeUnicode(s, i).out == PartValue(Group(d))
    ensures 0xD800 <= Unit(d) <= 0xDBFF ==> At(s, i + 6) != '\\' || At(s, i + 7) != 'u'
  {
    hide Hex4, Unit, Utf8;
  }

  lemma BothMean(s: string, i: nat, d: string, f: string)
    requires |d| == |f| == 4 && Hex4(s, i + 2) == Unit(d) && UnescapeUnicode(s, i).next != i + 6
    ensures 0xD800 <= Unit(d) <= 0xDBFF && At(s, i + 6) == '\\' && At(s, i + 7) == 'u'
    ensures UnescapeUnicode(s, i).next == i + 12
    ensures Hex4(s, i + 8) == Unit(f) ==> UnescapeUnicode(s, i).out == PartValue(Both(d, f))
  {
    hide Hex4, Unit, Utf8;
    if IsLowSurrogate(Unit(f)) && IsHighSurrogate(Unit(d)) {
      CombineIs(Unit(d), Unit(f));
    }
    hide Combine;
  }

  lemma CombineIs(hi: nat, lo: nat)
    requires IsHighSurrogate(hi) && IsLowSurrogate(lo)
    ensures Combine(hi, lo) == 0x10000 + (hi - 0xD800) * 0x400 + (lo - 0xDC00)
  {
    assert hi % 0x400 == hi - 0xD800 && lo % 0x400 == lo - 0xDC00;
  }

  lemma GroupStands(s: string, i: nat, d: string)
    requires i + 6 <= |s| && At(s, i) == '\\' && At(s, i + 1) == 'u' && d == s[i + 2..i + 6]
    ensures Has(s, i, "\\u" + d) && |"\\u" + d| == 6
  {
  }

  lemma BothStand(s: string, i: nat, d: string, f: string)
    requires Has(s, i, "\\u" + d) && Has(s, i + 6, "\\u" + f) && |d| == |f| == 4
    ensures Has(s, i, PartText(Both(d, f))) && |PartText(Both(d, f))| == 12
  {
    HasConcat(s, i, "\\u", d);
    JsonLax.Surrounded(s, i, "\\u", d, "\\u" + f);
  }

  lemma FollowedBy(s: string, k: nat)
    ensures Has(s, k, "\\u") <==> At(s, k) == '\\' && At(s, k + 1) == 'u'
  {
    if At(s, k) == '\\' && At(s, k + 1) == 'u' {
      assert s[k..k + 2] == "\\u";
    }
    if Has(s, k, "\\u") {
      HasAt(s, k, "\\u", 0);
      HasAt(s, k, "\\u", 1);
    }
  }

  lemma UnitIs(s: string, i: nat, d: string)
    requires i + 4 <= |s| && d == s[i..i + 4]
    ensures Hex4(s, i) == Unit(d) < 0x10000
  {
    assert d[0] == s[i] && d[1] == s[i + 1] && d[2] == s[i + 2] && d[3] == s[i + 3];
  }

  lemma BodyEnds(s: string, i: nat, nest: int)
    requires i <= |s| && (i == |s| || (s[i] == '"' && nest == 0))
    ensures Decode(s, i, nest) == Decoded("", if i == |s| then i else i + 1)
  {
  }

  /** Whatever stands in a body that parse_string gets through, it is pieces with this
      meaning, up to a quote with no brace open or to the end of the text. */
  lemma {:induction false} BodyIs(s: string, i: nat, nest: int) returns (es: seq<Part>)
    requires i <= |s| && '\0' !in s && Decode(s, i, nest).Decoded?
    ensures PartsAt(s, i, nest, es) && Has(s, i, PartsText(es)) && forall e :: e in es ==> PartOk(e)
    ensures var q := i + |PartsText(es)|;
            && (q == |s| || (s[q] == '"' && After(es, nest) == 0))
            && Decode(s, i, nest) == Decoded(PartsValue(es), if q == |s| then q else q + 1)
    decreases |s| - i
  {
    hide Decode, PartText, PartValue, NestAfter, PartOk;
    if i == |s| || (s[i] == '"' && nest == 0) {
      es := [];
      BodyEnds(s, i, nest);
    } else {
      var e := FirstPart(s, i, nest);
      var rest := BodyIs(s, i + |PartText(e)|, NestAfter(e, nest));
      es := [e] + rest;
      PartsCons(s, i, nest, e, rest);
    }
  }

  lemma PartsCons(s: string, i: nat, nest: int, e: Part, rest: seq<Part>)
    requires PartOk(e) && Has(s, i, PartText(e)) && (e == Same('"') ==> nest != 0)
    requires e.Group? && 0xD800 <= Unit(e.first) <= 0xDBFF ==> !Has(s, i + |PartText(e)|, "\\u")
    requires PartsAt(s, i + |PartText(e)|, NestAfter(e, nest), rest) && Has(s, i + |PartText(e)|, PartsText(rest))
    requires forall e :: e in rest ==> PartOk(e)
    ensures var es := [e] + rest;
            && PartsAt(s, i, nest, es) && Has(s, i, PartsText(es)) && (forall e :: e in es ==> PartOk(e))
            && |PartsText(es)| == |PartText(e)| + |PartsText(rest)|
            && After(es, nest) == After(rest, NestAfter(e, nest)) && PartsValue(es) == PartValue(e) + PartsValue(rest)
  {
    hide PartText, PartOk, PartValue, NestAfter, Unit, Has;
    var es := [e] + rest;
    assert es[0] == e && es[1..] == rest;
    HasConcat(s, i, PartText(e), PartsText(rest));
  }
}
