/** Every text of the JSON grammar (RFC 8259), with any blanks, escapes, fractions
    and exponents, is parsed to the value it writes. */
module JsonGrammar {
  import opened CText
  import opened JsonValue
  import opened Numeral
  import opened PrintText
  import opened Escape
  import opened Unescaping
  import opened ParseText
  import opened UnicodeEscapes
  import RoundTrip

  // ----- strings (section 7)

  /** One character of a literal: as it is, as a two-character escape, or in \u groups. */
  datatype Elem = Raw(c: char) | Short(letter: char) | Coded(code: nat, text: string)

  predicate ElemOk(e: Elem) {
    match e
    case Raw(c) => c >= ' ' && c != '"' && c != '\\'
    case Short(c) => c == '"' || c == '\\' || c == '/' || c == 'b' || c == 'f' || c == 'n' || c == 'r' || c == 't'
    case Coded(c, t) => IsScalar(c) && |t| == Width(c) && SpellsOne(t, c)
  }

  function ElemText(e: Elem): string {
    match e
    case Raw(c) => [c]
    case Short(c) => ['\\', c]
    case Coded(_, t) => t
  }

  /** The octets it stands for. */
  function ElemValue(e: Elem): string
    requires ElemOk(e)
  {
    match e
    case Raw(c) => [c]
    case Short(c) =>
      if c == 'b' then "\U{8}" else if c == 'f' then "\U{c}" else if c == 'n' then "\n"
      else if c == 'r' then "\r" else if c == 't' then "\t" else [c]
    case Coded(c, _) => Utf8(c)
  }

  /** Only raw braces count. */
  function ElemNest(e: Elem, nest: int): int {
    if e.Raw? then Nest(e.c, nest) else nest
  }

  predicate ElemsOk(es: seq<Elem>) {
    forall e :: e in es ==> ElemOk(e)
  }

  function ElemsText(es: seq<Elem>): string {
    if es == [] then "" else ElemText(es[0]) + ElemsText(es[1..])
  }

  function ElemsValue(es: seq<Elem>): string
    requires ElemsOk(es)
  {
    if es == [] then "" else ElemValue(es[0]) + ElemsValue(es[1..])
  }

  function ElemsNest(es: seq<Elem>, nest: int): int {
    if es == [] then nest else ElemsNest(es[1..], ElemNest(es[0], nest))
  }

  /** The literal, and the condition that its raw braces are balanced. */
  function LiteralText(es: seq<Elem>): string {
    "\"" + (ElemsText(es) + "\"")
  }

  predicate LiteralOk(es: seq<Elem>) {
    ElemsOk(es) && ElemsNest(es, 0) == 0
  }

  lemma ReadElem(s: string, i: nat, e: Elem, nest: int)
    requires ElemOk(e) && Has(s, i, ElemText(e))
    ensures i + |ElemText(e)| <= |s|
    ensures Decode(s, i, nest) == Prepend(ElemValue(e), Decode(s, i + |ElemText(e)|, ElemNest(e, nest)))
    ensures Body(s, i, nest) == Body(s, i + |ElemText(e)|, ElemNest(e, nest))
  {
    hide Utf8, SpellsOne;
    match e
    case Raw(c) =>
      HasAt(s, i, [c], 0);
    case Short(c) =>
      HasAt(s, i, ['\\', c], 0);
      HasAt(s, i, ['\\', c], 1);
      DecodeEscape(s, i, nest, Unescape(s, i));
    case Coded(c, t) =>
      UnescapeScalar(s, i, t, c);
      DecodeEscape(s, i, nest, Piece(Utf8(c), i + Width(c)));
  }

  lemma {:induction false} ReadElems(s: string, i: nat, es: seq<Elem>, nest: int)
    requires ElemsOk(es) && Has(s, i, ElemsText(es))
    ensures i + |ElemsText(es)| <= |s|
    ensures Decode(s, i, nest) == Prepend(ElemsValue(es), Decode(s, i + |ElemsText(es)|, ElemsNest(es, nest)))
    ensures Body(s, i, nest) == Body(s, i + |ElemsText(es)|, ElemsNest(es, nest))
    decreases |es|
  {
    hide ElemOk, ElemText, ElemValue, ElemNest, Decode, Body, Prepend;
    if es == [] {
      PrependNothing(Decode(s, i, nest));
      assert i + |ElemsText(es)| == i;
    } else {
      var t := ElemText(es[0]);
      HasConcat(s, i, t, ElemsText(es[1..]));
      ReadElem(s, i, es[0], nest);
      ReadElems(s, i + |t|, es[1..], ElemNest(es[0], nest));
      PrependTwice(ElemValue(es[0]), ElemsValue(es[1..]),
                   Decode(s, i + |ElemsText(es)|, ElemsNest(es, nest)), ElemsValue(es));
    }
  }

  /** parse_string on any literal of the grammar with balanced raw braces. */
  lemma ReadLiteral(s: string, i: nat, es: seq<Elem>)
    requires LiteralOk(es) && Has(s, i, LiteralText(es))
    ensures ParseString(s, i) == Ok(ElemsValue(es), i + |LiteralText(es)|)
  {
    hide ElemsText, ElemsValue, ElemsNest, Scan, ElemOk;
    var t := ElemsText(es);
    HasThree(s, i, "\"", t, "\"", LiteralText(es));
    hide Has;
    HasFirst(s, i, "\"");
    HasFirst(s, i + 1 + |t|, "\"");
    ReadElems(s, i + 1, es, 0);
    ClosingQuote(s, i + 1 + |t|);
    hide Decode, Body;
    assert ElemsValue(es) + "" == ElemsValue(es);
    BodyFits(s, i + 1, 0);
  }

  lemma ClosingQuote(s: string, e: nat)
    requires e < |s| && s[e] == '"'
    ensures Decode(s, e, 0) == Decoded("", e + 1) && Body(s, e, 0)
  {
  }

  /** print_string_ptr writes every character in the shortest spelling a literal has
      for it; where that takes a \u group, the hex digits are lower-case. */
  lemma ShortestSpelling(c: char, e: Elem)
    requires c != '\0'
    requires ElemOk(e) && ElemValue(e) == [c]
    ensures |EscapeChar(c)| <= |ElemText(e)|
    ensures |EscapeChar(c)| == 1 ==> EscapeChar(c) == [c]
    ensures |EscapeChar(c)| == 2 ==> exists l :: EscapeChar(c) == ElemText(Short(l)) && ElemOk(Short(l)) && ElemValue(Short(l)) == [c]
    ensures |EscapeChar(c)| > 2 ==>
              c < '\U{20}' && EscapeChar(c) == "\\u00" + ["0123456789abcdef"[c as int / 16], "0123456789abcdef"[c as int % 16]]
  {
    hide Utf8, SpellsOne;
    HexTable(c, c as int / 16 % 16);
    HexTable(c, c as int % 16);
    if |EscapeChar(c)| == 2 {
      assert EscapeChar(c) == ElemText(Short(ShortEscape(c)));
    }
  }

  // ----- numbers (section 6)

  datatype Exponent = NoExponent | Exponent(mark: char, sign: string, digits: string)

  /** `frac` is empty when there is no fraction. */
  datatype NumberSyntax = NumberSyntax(minus: bool, whole: string, frac: string, exp: Exponent)

  predicate AllDigits(t: string) {
    forall k :: 0 <= k < |t| ==> IsDigit(t[k])
  }

  predicate ExponentOk(x: Exponent) {
    x.Exponent? ==>
      && (x.mark == 'e' || x.mark == 'E') && (x.sign == "" || x.sign == "+" || x.sign == "-")
      && x.digits != "" && AllDigits(x.digits)
  }

  predicate NumberOk(n: NumberSyntax) {
    && n.whole != "" && AllDigits(n.whole) && (n.whole[0] == '0' ==> |n.whole| == 1)
    && AllDigits(n.frac) && ExponentOk(n.exp)
  }

  function ExponentText(x: Exponent): string {
    if x.NoExponent? then "" else [x.mark] + (x.sign + x.digits)
  }

  function FractionText(frac: string): string {
    if frac == "" then "" else "." + frac
  }

  function NumberText(n: NumberSyntax): string {
    (if n.minus then "-" else "") + (n.whole + (FractionText(n.frac) + ExponentText(n.exp)))
  }

  /** A digit string read on from `acc`. */
  function DigitsValue(t: string, acc: nat): nat
    requires AllDigits(t)
  {
    if t == "" then acc else DigitsValue(t[1..], acc * 10 + DigitVal(t[0]))
  }

  function ExponentValue(x: Exponent): int
    requires ExponentOk(x)
  {
    if x.NoExponent? then 0
    else if x.sign == "-" then -(DigitsValue(x.digits, 0) as int)
    else DigitsValue(x.digits, 0)
  }

  /** All digits as one integer, scaled by the exponent less the fraction's length. */
  function NumberValue(n: NumberSyntax): real
    requires NumberOk(n)
  {
    var all := DigitsValue(n.frac, DigitsValue(n.whole, 0));
    (if n.minus then -(all as real) else all as real) * Pow10(ExponentValue(n.exp) - |n.frac|)
  }

  lemma {:induction false} DigitsMore(t: string, c: char, acc: nat)
    requires AllDigits(t) && IsDigit(c)
    ensures AllDigits(t + [c]) && DigitsValue(t + [c], acc) == DigitsValue(t, acc) * 10 + DigitVal(c)
    decreases |t|
  {
    if t == "" {
      assert t + [c] == [c] && [c][1..] == "";
    } else {
      assert (t + [c])[0] == t[0] && (t + [c])[1..] == t[1..] + [c];
      DigitsMore(t[1..], c, acc * 10 + DigitVal(t[0]));
    }
  }

  lemma {:induction false} DecimalNumeral(n: nat)
    ensures AllDigits(Decimal(n)) && DigitsValue(Decimal(n), 0) == n
  {
    if n >= 10 {
      DecimalNumeral(n / 10);
      DigitsMore(Decimal(n / 10), DigitChar(n % 10), 0);
    } else {
      DigitsMore("", DigitChar(n), 0);
      assert "" + [DigitChar(n)] == [DigitChar(n)];
    }
  }

  /** What print_number writes for an integer: the numeral without fraction, exponent
      or leading zeros whose digits have its magnitude. */
  lemma IntTextNumeral(n: int)
    ensures var m: nat := if n < 0 then -n else n;
            var x := NumberSyntax(n < 0, Decimal(m), "", NoExponent);
            NumberOk(x) && IntText(n) == NumberText(x) && DigitsValue(x.whole, 0) == m
  {
    var m: nat := if n < 0 then -n else n;
    DecimalNumeral(m);
    hide DigitsValue;
    assert Decimal(m) + ("" + "") == Decimal(m);
    assert m < 10 ==> Decimal(m) == [DigitChar(m)];
    hide Decimal;
  }

  lemma {:induction false} ReadDigits(s: string, i: nat, t: string, acc: nat)
    requires AllDigits(t) && Has(s, i, t) && !IsDigit(At(s, i + |t|))
    ensures i + |t| <= |s| && Digits(s, i, acc) == Run(DigitsValue(t, acc), i + |t|)
    decreases |t|
  {
    if t != "" {
      HasFirst(s, i, t);
      ReadDigits(s, i + 1, t[1..], acc * 10 + DigitVal(t[0]));
    }
  }

  lemma ReadExponent(s: string, i: nat, x: Exponent)
    requires ExponentOk(x) && Has(s, i, ExponentText(x)) && EndsNumber(At(s, i + |ExponentText(x)|))
    ensures i + |ExponentText(x)| <= |s|
    ensures ParseExponent(s, i) == (ExponentValue(x), i + |ExponentText(x)|)
  {
    hide Digits, DigitsValue, ExponentText, Has;
    if x.Exponent? {
      ExponentPlaces(s, i, x);
      ReadDigits(s, i + 1 + |x.sign|, x.digits, 0);
      ExponentRun(s, i, |x.sign|, DigitsValue(x.digits, 0), i + 1 + |x.sign| + |x.digits|);
    } else {
      NoMark(s, i, x);
    }
  }

  lemma NoMark(s: string, i: nat, x: Exponent)
    requires x.NoExponent? && Has(s, i, ExponentText(x)) && EndsNumber(At(s, i + |ExponentText(x)|))
    ensures i <= |s| && ParseExponent(s, i) == (0, i) && |ExponentText(x)| == 0
  {
  }

  /** The exponent as the code reads it, with `k` characters of sign. */
  lemma ExponentRun(s: string, i: nat, k: nat, n: nat, end: nat)
    requires i + 1 + k <= |s| && (At(s, i) == 'e' || At(s, i) == 'E')
    requires k == if At(s, i + 1) == '+' || At(s, i + 1) == '-' then 1 else 0
    requires Digits(s, i + 1 + k, 0) == Run(n, end)
    ensures ParseExponent(s, i) == (if At(s, i + 1) == '-' then -(n as int) else n, end)
  {
    hide Digits;
  }

  lemma ExponentPlaces(s: string, i: nat, x: Exponent)
    requires ExponentOk(x) && x.Exponent? && Has(s, i, ExponentText(x))
    ensures (At(s, i) == 'e' || At(s, i) == 'E') && (x.sign == "-" <==> At(s, i + 1) == '-')
    ensures |x.sign| == if At(s, i + 1) == '+' || At(s, i + 1) == '-' then 1 else 0
    ensures Has(s, i + 1 + |x.sign|, x.digits) && i + 1 + |x.sign| + |x.digits| == i + |ExponentText(x)| <= |s|
  {
    HasThree(s, i, [x.mark], x.sign, x.digits, ExponentText(x));
    hide Has, ExponentText;
    HasFirst(s, i, [x.mark]);
    HasFirst(s, i + 1 + |x.sign|, x.digits);
    if x.sign != "" {
      HasFirst(s, i + 1, x.sign);
    }
  }

  lemma FractionPlace(s: string, e: nat, frac: string)
    requires frac != "" && Has(s, e, FractionText(frac))
    ensures At(s, e) == '.' && Has(s, e + 1, frac)
  {
    HasConcat(s, e, ".", frac);
    HasFirst(s, e, ".");
  }

  lemma ExponentStart(s: string, f: nat, x: Exponent)
    requires ExponentOk(x) && Has(s, f, ExponentText(x)) && EndsNumber(At(s, f + |ExponentText(x)|))
    ensures !IsDigit(At(s, f)) && At(s, f) != '.'
  {
    if x.Exponent? {
      HasFirst(s, f, ExponentText(x));
    }
  }

  /** What stands behind the integer part: `e` is where the fraction would begin, `f`
      where it ends. */
  lemma TailPlaces(s: string, e: nat, n: NumberSyntax, f: nat)
    requires NumberOk(n) && f == e + |FractionText(n.frac)|
    requires Has(s, e, FractionText(n.frac)) && Has(s, f, ExponentText(n.exp)) && EndsNumber(At(s, f + |ExponentText(n.exp)|))
    ensures !IsDigit(At(s, e)) && !IsDigit(At(s, f)) && (At(s, e) == '.' <==> n.frac != "")
    ensures n.frac != "" ==> Has(s, e + 1, n.frac) && f == e + 1 + |n.frac| && IsDigit(At(s, e + 1))
    ensures n.frac == "" ==> f == e
  {
    hide Has, ExponentText;
    ExponentStart(s, f, n.exp);
    if n.frac != "" {
      FractionPlace(s, e, n.frac);
      HasFirst(s, e + 1, n.frac);
    }
  }

  lemma WholePlace(s: string, i: nat, n: NumberSyntax)
    requires NumberOk(n) && Has(s, i, NumberText(n))
    ensures var i1 := if n.minus then i + 1 else i;
            var e := i1 + |n.whole|;
            var f := e + |FractionText(n.frac)|;
            && (n.minus <==> At(s, i) == '-') && Has(s, i1, n.whole) && At(s, i1) == n.whole[0]
            && Has(s, e, FractionText(n.frac)) && Has(s, f, ExponentText(n.exp))
            && f + |ExponentText(n.exp)| == i + |NumberText(n)| <= |s|
  {
    var sign := if n.minus then "-" else "";
    var i1 := i + |sign|;
    NumberPieces(s, i, sign, n.whole, FractionText(n.frac), ExponentText(n.exp), NumberText(n));
    hide FractionText, ExponentText, Has, NumberText, ExponentOk;
    HasFirst(s, i1, n.whole);
    if n.minus {
      HasFirst(s, i, sign);
    }
  }

  lemma NumberPieces(s: string, i: nat, sign: string, whole: string, frac: string, exp: string, all: string)
    requires all == sign + (whole + (frac + exp)) && Has(s, i, all)
    ensures Has(s, i, sign) && Has(s, i + |sign|, whole) && Has(s, i + |sign| + |whole|, frac)
    ensures Has(s, i + |sign| + |whole| + |frac|, exp)
    ensures i + |sign| + |whole| + |frac| + |exp| == i + |all| <= |s|
  {
    HasThree(s, i, sign, whole, frac + exp, all);
    hide Has;
    HasConcat(s, i + |sign| + |whole|, frac, exp);
  }

  /** The integer part as the code reads it: one zero stepped over, or digits. */
  lemma ReadWhole(s: string, i: nat, whole: string)
    requires whole != "" && AllDigits(whole) && (whole[0] == '0' ==> |whole| == 1)
    requires Has(s, i, whole) && !IsDigit(At(s, i + |whole|))
    ensures i + |whole| <= |s|
    ensures var i2 := if At(s, i) == '0' then i + 1 else i;
            (if '1' <= At(s, i2) <= '9' then Digits(s, i2, 0) else Run(0, i2)) == Run(DigitsValue(whole, 0), i + |whole|)
  {
    hide Digits;
    HasFirst(s, i, whole);
    ReadDigits(s, i, whole, 0);
    if whole[0] == '0' {
      assert DigitsValue(whole[1..], 0) == 0;
    }
  }

  /** parse_number on any numeral of the grammar. */
  lemma ReadNumber(s: string, i: nat, n: NumberSyntax)
    requires NumberOk(n) && Has(s, i, NumberText(n)) && EndsNumber(At(s, i + |NumberText(n)|))
    ensures ParseNumber(s, i) == Number(NumberValue(n), i + |NumberText(n)|)
    ensures At(s, i) == '-' || IsDigit(At(s, i))
  {
    hide FractionText, ExponentText, ParseExponent, Pow10, Digits, DigitsValue, ExponentValue, NumberText, Has, ExponentOk;
    hide ParseNumber, EndsNumber;
    WholePlace(s, i, n);
    var i1 := if n.minus then i + 1 else i;
    var e := i1 + |n.whole|;
    var f := e + |FractionText(n.frac)|;
    var end := f + |ExponentText(n.exp)|;
    TailPlaces(s, e, n, f);
    ReadWhole(s, i1, n.whole);
    ReadExponent(s, f, n.exp);
    var whole := DigitsValue(n.whole, 0);
    if n.frac != "" {
      ReadDigits(s, e + 1, n.frac, whole);
    } else {
      NoDigits(whole);
    }
    Assemble(s, i, n.minus, e, f, end, whole, DigitsValue(n.frac, whole), ExponentValue(n.exp));
  }

  /** parse_number from its parts: `whole` read up to `e`, `all` up to `f`. */
  lemma Assemble(s: string, i: nat, minus: bool, e: nat, f: nat, end: nat, whole: nat, all: nat, ev: int)
    requires i <= e <= f <= |s| && (minus <==> At(s, i) == '-') && (minus ==> i + 1 <= |s|)
    requires var i1 := if minus then i + 1 else i;
             var i2 := if At(s, i1) == '0' then i1 + 1 else i1;
             (if '1' <= At(s, i2) <= '9' then Digits(s, i2, 0) else Run(0, i2)) == Run(whole, e)
    requires var dot := At(s, e) == '.' && IsDigit(At(s, e + 1));
             && (if dot then Digits(s, e + 1, whole) else Run(whole, e)) == Run(all, f)
             && (!dot ==> f == e)
    requires ParseExponent(s, f) == (ev, end)
    ensures ParseNumber(s, i)
         == Number((if minus then -(all as real) else all as real) * Pow10(ev - if f == e then 0 else f - (e + 1)), end)
  {
    hide Digits, ParseExponent, Pow10;
  }

  lemma NoDigits(acc: nat)
    ensures DigitsValue("", acc) == acc
  {
  }

  // ----- values (sections 2 to 5)

  /** A JSON text as it is written. `blank` is what an empty array or object holds;
      the blanks around items and members are kept with them. */
  datatype Syntax =
    | Word(v: Json)
    | Numeral(n: NumberSyntax)
    | Literal(es: seq<Elem>)
    | Array(blank: string, items: seq<Item>)
    | Object(blank: string, members: seq<Pair>)

  datatype Item = Item(before: string, val: Syntax, after: string)

  datatype Pair = Pair(before: string, key: seq<Elem>, colon: string, mid: string, val: Syntax, after: string)

  /** Well-formed, with balanced raw braces in every literal. */
  predicate SyntaxOk(x: Syntax)
    decreases x, 0
  {
    match x
    case Word(v) => v.Null? || v.False? || v.True?
    case Numeral(n) => NumberOk(n)
    case Literal(es) => LiteralOk(es)
    case Array(blank, items) => AllBlank(blank) && ItemsOk(items)
    case Object(blank, members) => AllBlank(blank) && PairsOk(members)
  }

  predicate ItemsOk(items: seq<Item>)
    decreases items, 1
  {
    items == [] || (AllBlank(items[0].before) && SyntaxOk(items[0].val) && AllBlank(items[0].after) && ItemsOk(items[1..]))
  }

  predicate PairsOk(ps: seq<Pair>)
    decreases ps, 1
  {
    ps == [] ||
    (&& AllBlank(ps[0].before) && LiteralOk(ps[0].key) && AllBlank(ps[0].colon) && AllBlank(ps[0].mid)
     && SyntaxOk(ps[0].val) && AllBlank(ps[0].after) && PairsOk(ps[1..]))
  }

  function SyntaxText(x: Syntax): string
    decreases x, 0
  {
    match x
    case Word(v) => if v.Null? then "null" else if v.False? then "false" else "true"
    case Numeral(n) => NumberText(n)
    case Literal(es) => LiteralText(es)
    case Array(blank, items) => "[" + ((if items == [] then blank else ItemsText(items)) + "]")
    case Object(blank, members) => "{" + ((if members == [] then blank else PairsText(members)) + "}")
  }

  function ItemsText(items: seq<Item>): string
    decreases items, 1
  {
    if items == [] then ""
    else items[0].before + (SyntaxText(items[0].val) + (items[0].after + Rest("," + ItemsText(items[1..]), |items| > 1)))
  }

  function Rest(t: string, more: bool): string {
    if more then t else ""
  }

  function PairKey(p: Pair): string {
    p.before + (LiteralText(p.key) + (p.colon + (":" + p.mid)))
  }

  function PairsText(ps: seq<Pair>): string
    decreases ps, 1
  {
    if ps == [] then ""
    else PairKey(ps[0]) + (SyntaxText(ps[0].val) + (ps[0].after + Rest("," + PairsText(ps[1..]), |ps| > 1)))
  }

  /** The value a text writes. */
  function Meaning(x: Syntax): Json
    requires SyntaxOk(x)
    decreases x, 0
  {
    match x
    case Word(v) => v
    case Numeral(n) => Num(NumberValue(n))
    case Literal(es) => Str(ElemsValue(es))
    case Array(_, items) => Arr(ItemsMeaning(items))
    case Object(_, members) => Obj(PairsMeaning(members))
  }

  function ItemsMeaning(items: seq<Item>): seq<Json>
    requires ItemsOk(items)
    decreases items, 1
  {
    if items == [] then [] else [Meaning(items[0].val)] + ItemsMeaning(items[1..])
  }

  function PairsMeaning(ps: seq<Pair>): seq<Member>
    requires PairsOk(ps)
    decreases ps, 1
  {
    if ps == [] then [] else [Member(ElemsValue(ps[0].key), Meaning(ps[0].val))] + PairsMeaning(ps[1..])
  }

  lemma ReadWord(s: string, i: nat, v: Json)
    requires v.Null? || v.False? || v.True?
    requires Has(s, i, SyntaxText(Word(v)))
    ensures ParseValue(s, i) == Ok(v, i + |SyntaxText(Word(v))|)
  {
    assert SyntaxText(Word(v)) == Print(v, 0, false);
    RoundTrip.ParseLiteral(s, i, v, 0, false);
  }

  lemma ReadNum(s: string, i: nat, n: NumberSyntax)
    requires NumberOk(n) && Has(s, i, NumberText(n)) && EndsNumber(At(s, i + |NumberText(n)|))
    ensures ParseValue(s, i) == Ok(Num(NumberValue(n)), i + |NumberText(n)|)
  {
    hide NumberOk, NumberText, ParseNumber;
    ReadNumber(s, i, n);
    RoundTrip.NotLiteral(s, i);
  }

  lemma ReadStr(s: string, i: nat, es: seq<Elem>)
    requires LiteralOk(es) && Has(s, i, LiteralText(es))
    ensures ParseValue(s, i) == Ok(Str(ElemsValue(es)), i + |LiteralText(es)|)
    ensures At(s, i) == '"'
  {
    hide LiteralOk, ParseString, ParseNumber;
    HasFirst(s, i, LiteralText(es));
    RoundTrip.NotLiteral(s, i);
    ReadLiteral(s, i, es);
  }

  /** A value's text is not blank and does not begin like a closing bracket. */
  lemma SyntaxStart(s: string, i: nat, x: Syntax)
    requires SyntaxOk(x) && Has(s, i, SyntaxText(x))
    ensures i < |s| && Skip(s, i) == i && At(s, i) != ']' && At(s, i) != '}' && SyntaxText(x) != ""
  {
    hide ItemsText, PairsText, NumberText, ElemsText;
    match x
    case Numeral(n) => NumberStart(s, i, n);
    case _ =>
      HasFirst(s, i, SyntaxText(x));
  }

  lemma NumberStart(s: string, i: nat, n: NumberSyntax)
    requires NumberOk(n) && Has(s, i, NumberText(n))
    ensures i < |s| && (At(s, i) == '-' || IsDigit(At(s, i))) && NumberText(n) != ""
  {
    hide ExponentText, FractionText, NumberText, Has, ExponentOk;
    WholePlace(s, i, n);
  }

  /** parse_value on any text of the grammar. */
  lemma {:induction false} ReadSyntax(s: string, i: nat, x: Syntax)
    requires SyntaxOk(x) && Has(s, i, SyntaxText(x)) && EndsNumber(At(s, i + |SyntaxText(x)|))
    ensures ParseValue(s, i) == Ok(Meaning(x), i + |SyntaxText(x)|)
    decreases x, 0
  {
    hide ParseValue, Has, LiteralOk, LiteralText, NumberText, NumberOk, ItemsText, PairsText;
    match x
    case Word(v) => ReadWord(s, i, v);
    case Numeral(n) => ReadNum(s, i, n);
    case Literal(es) => ReadStr(s, i, es);
    case Array(blank, items) => ReadArray(s, i, blank, items);
    case Object(blank, members) => ReadObject(s, i, blank, members);
  }

  /** Between the brackets. */
  lemma Between(s: string, i: nat, open: string, t: string, close: string)
    requires |open| == 1 && |close| == 1 && Has(s, i, open + (t + close))
    ensures At(s, i) == open[0] && Has(s, i + 1, t) && At(s, i + 1 + |t|) == close[0] && i + 2 + |t| <= |s|
  {
    HasThree(s, i, open, t, close, open + (t + close));
    HasFirst(s, i, open);
    HasFirst(s, i + 1 + |t|, close);
  }

  lemma {:induction false} ReadArray(s: string, i: nat, blank: string, items: seq<Item>)
    requires AllBlank(blank) && ItemsOk(items) && Has(s, i, SyntaxText(Array(blank, items)))
    ensures ParseValue(s, i) == Ok(Arr(ItemsMeaning(items)), i + |SyntaxText(Array(blank, items))|)
    decreases items, 2
  {
    hide Has, ItemsText, ParseValue, ParseItems, Skip, AllBlank;
    var t := if items == [] then blank else ItemsText(items);
    Between(s, i, "[", t, "]");
    RoundTrip.EntersArray(s, i);
    if items == [] {
      SkipOver(s, i + 1, blank);
      StaysPut(s, i + 1 + |t|);
    } else {
      ItemsStart(s, i + 1, items);
      ReadItems(s, Skip(s, i + 1), i + 1, items);
    }
  }

  /** The first item behind its blanks. */
  lemma ItemPlaces(s: string, i: nat, items: seq<Item>)
    requires items != [] && ItemsOk(items) && Has(s, i, ItemsText(items))
    ensures var x := items[0];
            var v := i + |x.before|;
            var e := v + |SyntaxText(x.val)|;
            var c := e + |x.after|;
            && Skip(s, i) == v < |s| && Skip(s, v) == v && At(s, v) != ']' && Has(s, v, SyntaxText(x.val))
            && e <= |s| && Skip(s, e) == Skip(s, c) && AllBlank(x.after) && Has(s, e, x.after)
            && (if |items| > 1 then At(s, c) == ',' && Has(s, c + 1, ItemsText(items[1..])) && c < |s|
                                    && c + 1 + |ItemsText(items[1..])| == i + |ItemsText(items)|
                else c == i + |ItemsText(items)|)
  {
    hide Skip, SyntaxText, AllBlank, SyntaxOk, Has, ItemsText;
    var x := items[0];
    ItemsUnfold(items);
    var rest := Rest("," + ItemsText(items[1..]), |items| > 1);
    Pieces(s, i, x.before, SyntaxText(x.val), x.after, rest);
    SkipOver(s, i, x.before);
    SyntaxStart(s, i + |x.before|, x.val);
    SkipOver(s, i + |x.before| + |SyntaxText(x.val)|, x.after);
    if |items| > 1 {
      var c := i + |x.before| + |SyntaxText(x.val)| + |x.after|;
      HasConcat(s, c, ",", ItemsText(items[1..]));
      HasFirst(s, c, ",");
    }
  }

  lemma ItemsUnfold(items: seq<Item>)
    requires items != []
    ensures ItemsText(items)
         == items[0].before + (SyntaxText(items[0].val) + (items[0].after + Rest("," + ItemsText(items[1..]), |items| > 1)))
  {
    hide SyntaxText;
  }

  lemma Pieces(s: string, i: nat, a: string, b: string, c: string, d: string)
    requires Has(s, i, a + (b + (c + d)))
    ensures Has(s, i, a) && Has(s, i + |a|, b) && Has(s, i + |a| + |b|, c) && Has(s, i + |a| + |b| + |c|, d)
    ensures i + |a| + |b| + |c| + |d| <= |s|
  {
    HasThree(s, i, a, b, c + d, a + (b + (c + d)));
    HasConcat(s, i + |a| + |b|, c, d);
  }

  lemma ItemsStart(s: string, i: nat, items: seq<Item>)
    requires items != [] && ItemsOk(items) && Has(s, i, ItemsText(items))
    ensures i <= |s| && At(s, Skip(s, i)) != ']' && Skip(s, Skip(s, i)) == Skip(s, i)
  {
    hide SyntaxText, AllBlank, SyntaxOk, Skip, ItemsText, ItemsOk;
    ItemPlaces(s, i, items);
  }

  /** A blank or a mark ends a numeral. */
  lemma BlankEnds(s: string, e: nat, after: string)
    requires Has(s, e, after) && AllBlank(after) && EndsNumber(At(s, e + |after|))
    ensures EndsNumber(At(s, e))
  {
    if after != "" {
      HasFirst(s, e, after);
    }
  }

  lemma MarksEnd()
    ensures EndsNumber(',') && EndsNumber(']') && EndsNumber('}')
  {
  }

  lemma MeaningUnfold(items: seq<Item>)
    requires items != [] && ItemsOk(items)
    ensures ItemsMeaning(items) == [Meaning(items[0].val)] + ItemsMeaning(items[1..])
    ensures |items| == 1 ==> ItemsMeaning(items) == [Meaning(items[0].val)]
  {
    hide Meaning, SyntaxOk, AllBlank;
    if |items| == 1 {
      assert items[1..] == [];
    }
  }

  lemma PairsMeaningUnfold(ps: seq<Pair>)
    requires ps != [] && PairsOk(ps)
    ensures PairsMeaning(ps) == [Member(ElemsValue(ps[0].key), Meaning(ps[0].val))] + PairsMeaning(ps[1..])
    ensures |ps| == 1 ==> PairsMeaning(ps) == [Member(ElemsValue(ps[0].key), Meaning(ps[0].val))]
  {
    hide Meaning, SyntaxOk, AllBlank, ElemsValue;
    if |ps| == 1 {
      assert ps[1..] == [];
    }
  }

  lemma {:induction false} ReadItems(s: string, k: nat, i: nat, items: seq<Item>)
    requires items != [] && ItemsOk(items) && Has(s, i, ItemsText(items)) && At(s, i + |ItemsText(items)|) == ']'
    requires k <= |s| && i <= |s| && Skip(s, k) == Skip(s, i)
    ensures ParseItems(s, k) == Ok(ItemsMeaning(items), i + |ItemsText(items)| + 1)
    decreases items, 1
  {
    hide ParseValue, ParseItems, Skip, SyntaxText, ItemsText, Has, AllBlank, ItemsMeaning, Meaning, SyntaxOk, EndsNumber;
    hide Rest;
    MarksEnd();
    MeaningUnfold(items);
    ItemPlaces(s, i, items);
    var x := items[0];
    var v := i + |x.before|;
    var e := v + |SyntaxText(x.val)|;
    var c := e + |x.after|;
    StaysPut(s, c);
    BlankEnds(s, e, x.after);
    ReadSyntax(s, v, x.val);
    if |items| > 1 {
      ReadItems(s, c + 1, c + 1, items[1..]);
      RoundTrip.ItemsStep(s, k, Meaning(x.val), e, ItemsMeaning(items[1..]));
    } else {
      RoundTrip.ItemsStep(s, k, Meaning(x.val), e, []);
    }
  }

  lemma {:induction false} ReadObject(s: string, i: nat, blank: string, ps: seq<Pair>)
    requires AllBlank(blank) && PairsOk(ps) && Has(s, i, SyntaxText(Object(blank, ps)))
    ensures ParseValue(s, i) == Ok(Obj(PairsMeaning(ps)), i + |SyntaxText(Object(blank, ps))|)
    decreases ps, 2
  {
    hide Has, PairsText, ParseValue, ParseMembers, Skip, AllBlank;
    var t := if ps == [] then blank else PairsText(ps);
    Between(s, i, "{", t, "}");
    RoundTrip.EntersObject(s, i);
    if ps == [] {
      SkipOver(s, i + 1, blank);
      StaysPut(s, i + 1 + |t|);
    } else {
      PairsStart(s, i + 1, ps);
      ReadPairs(s, Skip(s, i + 1), i + 1, ps);
      RoundTrip.ObjectStep(s, i);
    }
  }

  /** The first key behind its blanks, up to its value. */
  lemma KeyPlaces(s: string, i: nat, p: Pair)
    requires AllBlank(p.before) && AllBlank(p.colon) && AllBlank(p.mid) && Has(s, i, PairKey(p))
    ensures var q := i + |p.before|;
            var e := q + |LiteralText(p.key)|;
            var c := e + |p.colon|;
            && Skip(s, i) == q < |s| && At(s, q) == '"' && Has(s, q, LiteralText(p.key))
            && e <= |s| && Skip(s, e) == c < |s| && At(s, c) == ':'
            && i + |PairKey(p)| <= |s| && Skip(s, c + 1) == Skip(s, i + |PairKey(p)|)
  {
    hide Skip, LiteralText, AllBlank, Has;
    var q := i + |p.before|;
    var e := q + |LiteralText(p.key)|;
    var c := e + |p.colon|;
    Pieces(s, i, p.before, LiteralText(p.key), p.colon, ":" + p.mid);
    HasConcat(s, c, ":", p.mid);
    HasFirst(s, c, ":");
    QuoteFirst(s, q, p.key);
    StaysPut(s, q);
    StaysPut(s, c);
    SkipOver(s, i, p.before);
    SkipOver(s, e, p.colon);
    SkipOver(s, c + 1, p.mid);
  }

  lemma QuoteFirst(s: string, q: nat, key: seq<Elem>)
    requires Has(s, q, LiteralText(key))
    ensures q < |s| && At(s, q) == '"'
  {
    HasFirst(s, q, LiteralText(key));
  }

  lemma PairPlaces(s: string, i: nat, ps: seq<Pair>)
    requires ps != [] && PairsOk(ps) && Has(s, i, PairsText(ps))
    ensures var p := ps[0];
            var v := i + |PairKey(p)|;
            var e := v + |SyntaxText(p.val)|;
            var c := e + |p.after|;
            && i <= |s| && Has(s, i, PairKey(p)) && v < |s| && Skip(s, v) == v && Has(s, v, SyntaxText(p.val))
            && e <= |s| && Skip(s, e) == Skip(s, c) && Has(s, e, p.after)
            && (if |ps| > 1 then At(s, c) == ',' && Has(s, c + 1, PairsText(ps[1..])) && c < |s|
                                 && c + 1 + |PairsText(ps[1..])| == i + |PairsText(ps)|
                else c == i + |PairsText(ps)|)
  {
    hide Skip, SyntaxText, AllBlank, SyntaxOk, PairKey, LiteralOk, Has, PairsText;
    var p := ps[0];
    PairsUnfold(ps);
    var rest := Rest("," + PairsText(ps[1..]), |ps| > 1);
    Pieces(s, i, PairKey(p), SyntaxText(p.val), p.after, rest);
    SyntaxStart(s, i + |PairKey(p)|, p.val);
    SkipOver(s, i + |PairKey(p)| + |SyntaxText(p.val)|, p.after);
    if |ps| > 1 {
      var c := i + |PairKey(p)| + |SyntaxText(p.val)| + |p.after|;
      HasConcat(s, c, ",", PairsText(ps[1..]));
      HasFirst(s, c, ",");
    }
  }

  lemma PairsUnfold(ps: seq<Pair>)
    requires ps != []
    ensures PairsText(ps)
         == PairKey(ps[0]) + (SyntaxText(ps[0].val) + (ps[0].after + Rest("," + PairsText(ps[1..]), |ps| > 1)))
  {
    hide SyntaxText, PairKey;
  }

  lemma PairsStart(s: string, i: nat, ps: seq<Pair>)
    requires ps != [] && PairsOk(ps) && Has(s, i, PairsText(ps))
    ensures i <= |s| && At(s, Skip(s, i)) != '}' && Skip(s, Skip(s, i)) == Skip(s, i)
  {
    hide SyntaxText, AllBlank, SyntaxOk, Skip, PairsText, PairKey;
    PairPlaces(s, i, ps);
    KeyPlaces(s, i, ps[0]);
    StaysPut(s, i + |ps[0].before|);
  }

  lemma {:induction false} ReadPairs(s: string, k: nat, i: nat, ps: seq<Pair>)
    requires ps != [] && PairsOk(ps) && Has(s, i, PairsText(ps)) && At(s, i + |PairsText(ps)|) == '}'
    requires k <= |s| && i <= |s| && Skip(s, k) == Skip(s, i)
    ensures ParseMembers(s, k) == Ok(PairsMeaning(ps), i + |PairsText(ps)| + 1)
    decreases ps, 1
  {
    hide ParseValue, ParseMember, ParseMembers, Skip, SyntaxText, PairsText, Has, AllBlank, PairKey, ElemsNest;
    hide Rest, PairsMeaning, Meaning, SyntaxOk, EndsNumber, ElemOk, ElemsValue;
    MarksEnd();
    PairsMeaningUnfold(ps);
    PairPlaces(s, i, ps);
    var p := ps[0];
    var v := i + |PairKey(p)|;
    var e := v + |SyntaxText(p.val)|;
    var c := e + |p.after|;
    StaysPut(s, c);
    BlankEnds(s, e, p.after);
    ReadSyntax(s, v, p.val);
    ReadPair(s, k, i, p, e);
    var m := Member(ElemsValue(p.key), Meaning(p.val));
    if |ps| > 1 {
      ReadPairs(s, c + 1, c + 1, ps[1..]);
      RoundTrip.MembersStep(s, k, m, e, PairsMeaning(ps[1..]));
    } else {
      RoundTrip.MembersStep(s, k, m, e, []);
    }
  }

  lemma ReadPair(s: string, k: nat, i: nat, p: Pair, e: nat)
    requires LiteralOk(p.key) && AllBlank(p.before) && AllBlank(p.colon) && AllBlank(p.mid) && SyntaxOk(p.val)
    requires k <= |s| && i <= |s| && Skip(s, k) == Skip(s, i) && Has(s, i, PairKey(p))
    requires i + |PairKey(p)| <= |s| && Skip(s, i + |PairKey(p)|) == i + |PairKey(p)|
    requires ParseValue(s, i + |PairKey(p)|) == Ok(Meaning(p.val), e)
    ensures ParseMember(s, k) == Ok(Member(ElemsValue(p.key), Meaning(p.val)), e)
  {
    hide ParseValue, ParseString, Skip, PairKey, LiteralText, SyntaxOk, LiteralOk, Meaning, ElemsValue;
    KeyPlaces(s, i, p);
    ReadLiteral(s, i + |p.before|, p.key);
  }

  /** cJSON_ParseWithOpts accepts every text of the grammar with brace-balanced
      literals, in any blanks, consumes it and gives the value it writes. */
  lemma AcceptsGrammar(before: string, x: Syntax, after: string, requireEnd: bool)
    requires SyntaxOk(x) && AllBlank(before) && AllBlank(after)
    ensures var s := before + (SyntaxText(x) + after);
            ParseDocument(s, requireEnd) == Ok(Meaning(x), if requireEnd then |s| else |s| - |after|)
  {
    hide SyntaxOk, SyntaxText, ParseValue, Skip, AllBlank, Meaning, Has;
    var t := SyntaxText(x);
    var s := before + (t + after);
    var e := |before| + |t|;
    InPlace(before, t, after, s);
    SkipOver(s, 0, before);
    SyntaxStart(s, |before|, x);
    BlankEnds(s, e, after);
    ReadSyntax(s, |before|, x);
    SkipOver(s, e, after);
    StaysPut(s, |s|);
  }

  lemma InPlace(before: string, t: string, after: string, s: string)
    requires s == before + (t + after)
    ensures Has(s, 0, before) && Has(s, |before|, t) && Has(s, |before| + |t|, after) && |s| == |before| + |t| + |after|
  {
    assert Has(s, 0, s);
    HasThree(s, 0, before, t, after, s);
  }
}
