/** cJSON_Minify: what it keeps of a text, and that it turns formatted into unformatted text. */
module MinifyText {
  import opened CText
  import opened JsonValue
  import opened Numeral
  import opened Escape
  import opened PrintText

  /** What is kept, or Overrun when a literal or comment is not closed and the
      C code steps past the terminator. */
  datatype Minified = Kept(out: string) | Overrun

  function Put(t: string, r: Minified): Minified {
    match r
    case Overrun => Overrun
    case Kept(out) => Kept(t + out)
  }

  predicate IsSpace(c: char) {
    c == ' ' || c == '\t' || c == '\r' || c == '\n'
  }

  /** The end of a `//` comment. */
  function LineEnd(s: string, i: nat): (j: nat)
    requires i <= |s|
    ensures i <= j <= |s|
    decreases |s| - i
  {
    if At(s, i) == '\0' || At(s, i) == '\n' then i else LineEnd(s, i + 1)
  }

  /** The star that closes a block comment, or the end of the text. */
  function CommentEnd(s: string, i: nat): (j: nat)
    requires i <= |s|
    ensures i <= j <= |s|
    decreases |s| - i
  {
    if At(s, i) == '\0' || (At(s, i) == '*' && At(s, i + 1) == '/') then i else CommentEnd(s, i + 1)
  }

  /** After the closing quote of a literal whose opening quote is before `i`;
      beyond the text when it is not closed. */
  function LiteralEnd(s: string, i: nat): (j: nat)
    requires i <= |s|
    ensures i < j <= |s| + 1
    decreases |s| - i
  {
    if At(s, i) == '\0' then |s| + 1
    else if At(s, i) == '"' then i + 1
    else if At(s, i) != '\\' then LiteralEnd(s, i + 1)
    else if At(s, i + 1) == '\0' then |s| + 1
    else LiteralEnd(s, i + 2)
  }

  function Minify(s: string, i: nat): Minified
    requires i <= |s|
    decreases |s| - i
  {
    if At(s, i) == '\0' then Kept("")
    else if IsSpace(s[i]) then Minify(s, i + 1)
    else if s[i] == '/' && At(s, i + 1) == '/' then Minify(s, LineEnd(s, i + 2))
    else if s[i] == '/' && At(s, i + 1) == '*' then
      var j := CommentEnd(s, i + 1);
      if j + 2 > |s| then Overrun else Minify(s, j + 2)
    else if s[i] == '"' then
      var j := LiteralEnd(s, i + 1);
      if j > |s| then Overrun else Put(s[i..j], Minify(s, j))
    else Put([s[i]], Minify(s, i + 1))
  }

  lemma PutTwice(a: string, b: string, r: Minified, ab: string)
    requires ab == a + b
    ensures Put(a, Put(b, r)) == Put(ab, r)
  {
    if r.Kept? {
      assert a + (b + r.out) == (a + b) + r.out;
    }
  }

  lemma PutNothing(r: Minified)
    ensures Put("", r) == r
  {
    if r.Kept? {
      assert "" + r.out == r.out;
    }
  }

  // ----- printed text

  /** At `i` stands `t`, and minifying from there keeps `kept` of it. */
  ghost predicate Keeps(s: string, i: nat, t: string, kept: string) {
    i + |t| <= |s| && Minify(s, i) == Put(kept, Minify(s, i + |t|))
  }

  lemma KeepsBoth(s: string, i: nat, a: string, b: string, ab: string, ka: string, kb: string, kab: string)
    requires Keeps(s, i, a, ka) && Keeps(s, i + |a|, b, kb) && ab == a + b && kab == ka + kb
    ensures Keeps(s, i, ab, kab)
  {
    hide Minify;
    PutTwice(ka, kb, Minify(s, i + |ab|), kab);
    assert i + |a| + |b| == i + |ab|;
  }

  predicate IsInert(c: char) {
    !IsSpace(c) && c != '\0' && c != '/' && c != '"'
  }

  ghost predicate AllInert(t: string) {
    forall k :: 0 <= k < |t| ==> IsInert(t[k])
  }

  predicate AllSpace(t: string) {
    t == "" || (IsSpace(t[0]) && AllSpace(t[1..]))
  }

  lemma {:induction false} KeepsInert(s: string, i: nat, t: string)
    requires Has(s, i, t) && AllInert(t)
    ensures Keeps(s, i, t, t)
    decreases |t|
  {
    if t == "" {
      assert i + |t| == i;
      PutNothing(Minify(s, i));
    } else {
      HasFirst(s, i, t);
      KeepsInert(s, i + 1, t[1..]);
      assert Keeps(s, i, [t[0]], [t[0]]);
      KeepsBoth(s, i, [t[0]], t[1..], t, [t[0]], t[1..], t);
    }
  }

  lemma {:induction false} KeepsSpace(s: string, i: nat, t: string)
    requires Has(s, i, t) && AllSpace(t)
    ensures Keeps(s, i, t, "")
    decreases |t|
  {
    if t == "" {
      assert i + |t| == i;
      PutNothing(Minify(s, i));
    } else {
      HasFirst(s, i, t);
      KeepsSpace(s, i + 1, t[1..]);
    }
  }

  lemma TabsSpace(n: int)
    ensures AllSpace(Tabs(n))
    decreases if n > 0 then n else 0
  {
    if n > 0 {
      TabsSpace(n - 1);
      assert Tabs(n)[1..] == Tabs(n - 1);
    }
  }

  lemma {:induction false} DecimalInert(n: nat)
    ensures AllInert(Decimal(n))
  {
    if n >= 10 {
      DecimalInert(n / 10);
    }
  }

  lemma IntTextInert(n: int)
    ensures AllInert(IntText(n))
  {
    DecimalInert(if n < 0 then -n else n);
    if n < 0 {
      assert IntText(n)[1..] == Decimal(-n);
    }
  }

  /** A literal's escaped body is passed over whole. */
  lemma {:induction false} LiteralBody(s: string, i: nat, x: string)
    requires Has(s, i, EscapeAll(x)) && IsCString(x)
    ensures i + |EscapeAll(x)| <= |s| && LiteralEnd(s, i) == LiteralEnd(s, i + |EscapeAll(x)|)
    decreases |x|
  {
    hide EscapeChar;
    if x == "" {
      assert i + |EscapeAll(x)| == i;
    } else {
      HasConcat(s, i, EscapeChar(x[0]), EscapeAll(x[1..]));
      LiteralChar(s, i, x[0]);
      LiteralBody(s, i + |EscapeChar(x[0])|, x[1..]);
    }
  }

  lemma LiteralChar(s: string, i: nat, c: char)
    requires Has(s, i, EscapeChar(c)) && c != '\0'
    ensures i + |EscapeChar(c)| <= |s| && LiteralEnd(s, i) == LiteralEnd(s, i + |EscapeChar(c)|)
  {
    var e := EscapeChar(c);
    HasAt(s, i, e, 0);
    if !IsPlain(c) {
      HasAt(s, i, e, 1);
      if ShortEscape(c) == '\0' {
        LiteralHex(s, i, c);
      }
    }
  }

  lemma LiteralHex(s: string, i: nat, c: char)
    requires !IsPlain(c) && c != '\0' && ShortEscape(c) == '\0' && Has(s, i, EscapeChar(c))
    ensures i + 6 <= |s| && LiteralEnd(s, i) == LiteralEnd(s, i + 6)
  {
    var e := EscapeChar(c);
    HasAt(s, i, e, 0);
    HasAt(s, i, e, 1);
    HasAt(s, i, e, 2);
    HasAt(s, i, e, 3);
    HasAt(s, i, e, 4);
    HasAt(s, i, e, 5);
    assert LiteralEnd(s, i) == LiteralEnd(s, i + 2);
    assert LiteralEnd(s, i + 2) == LiteralEnd(s, i + 3);
    assert LiteralEnd(s, i + 3) == LiteralEnd(s, i + 4);
    assert LiteralEnd(s, i + 4) == LiteralEnd(s, i + 5);
  }

  lemma KeepsQuote(s: string, i: nat, x: string)
    requires Has(s, i, Quote(x)) && IsCString(x)
    ensures Keeps(s, i, Quote(x), Quote(x))
  {
    hide EscapeAll;
    HasThree(s, i, "\"", EscapeAll(x), "\"", Quote(x));
    HasFirst(s, i, "\"");
    HasFirst(s, i + 1 + |EscapeAll(x)|, "\"");
    LiteralBody(s, i + 1, x);
    assert LiteralEnd(s, i + 1) == i + |Quote(x)|;
    assert s[i..i + |Quote(x)|] == Quote(x);
  }

  lemma KeepsOptSpace(s: string, i: nat, cond: bool, t: string)
    requires Has(s, i, Opt(cond, t)) && AllSpace(t)
    ensures Keeps(s, i, Opt(cond, t), "")
  {
    hide Minify;
    KeepsSpace(s, i, Opt(cond, t));
  }

  /** Minifying the text of a value, in either format, keeps its unformatted text. */
  lemma {:induction false} KeepsPrint(s: string, i: nat, v: Json, depth: nat, fmt: bool)
    requires Printable(v) && Has(s, i, Print(v, depth, fmt))
    ensures Keeps(s, i, Print(v, depth, fmt), Print(v, depth, false))
    decreases v, 0
  {
    hide Minify, Quote, IntText, PrintItems, PrintMembers, Has, Keeps, Tabs;
    match v
    case Num(d) =>
      IntTextInert(d.Floor);
      KeepsInert(s, i, IntText(d.Floor));
    case Str(x) => KeepsQuote(s, i, x);
    case Arr(items) => KeepsArray(s, i, items, depth, fmt);
    case Obj(members) =>
      if members == [] {
        KeepsEmptyObject(s, i, depth, fmt, Print(v, depth, fmt));
      } else {
        KeepsObject(s, i, members, depth, fmt, Print(v, depth, fmt), Print(v, depth, false));
      }
    case _ => KeepsInert(s, i, Print(v, depth, fmt));
  }

  lemma {:induction false} KeepsArray(s: string, i: nat, items: seq<Json>, depth: nat, fmt: bool)
    requires forall x :: x in items ==> Printable(x)
    requires Has(s, i, "[" + PrintItems(items, depth + 1, fmt) + "]")
    ensures Keeps(s, i, "[" + PrintItems(items, depth + 1, fmt) + "]", "[" + PrintItems(items, depth + 1, false) + "]")
    decreases items, 2
  {
    hide Minify, Has, Keeps, Print, PrintItems;
    var t, k := PrintItems(items, depth + 1, fmt), PrintItems(items, depth + 1, false);
    assert "[" + t + "]" == "[" + (t + "]");
    HasThree(s, i, "[", t, "]", "[" + t + "]");
    KeepsInert(s, i, "[");
    KeepsItems(s, i + 1, items, depth + 1, fmt);
    KeepsBoth(s, i, "[", t, "[" + t, "[", k, "[" + k);
    KeepsInert(s, i + 1 + |t|, "]");
    KeepsBoth(s, i, "[" + t, "]", "[" + t + "]", "[" + k, "]", "[" + k + "]");
  }

  lemma KeepsComma(s: string, i: nat, more: bool, fmt: bool)
    requires Has(s, i, Comma(more, fmt))
    ensures Keeps(s, i, Comma(more, fmt), Comma(more, false))
  {
    hide Minify, Has, Keeps;
    if more && fmt {
      assert ", " == "," + " ";
      HasConcat(s, i, ",", " ");
      KeepsInert(s, i, ",");
      KeepsSpace(s, i + 1, " ");
      KeepsBoth(s, i, ",", " ", ", ", ",", "", ",");
    } else {
      KeepsInert(s, i, Comma(more, fmt));
    }
  }

  lemma {:induction false} KeepsItems(s: string, i: nat, items: seq<Json>, depth: nat, fmt: bool)
    requires forall x :: x in items ==> Printable(x)
    requires Has(s, i, PrintItems(items, depth, fmt))
    ensures Keeps(s, i, PrintItems(items, depth, fmt), PrintItems(items, depth, false))
    decreases items, 1
  {
    hide Minify, Has, Keeps, Print, Comma;
    if items == [] {
      KeepsInert(s, i, "");
    } else {
      var t, c, rest := Print(items[0], depth, fmt), Comma(|items| > 1, fmt), PrintItems(items[1..], depth, fmt);
      var kt, kc, krest := Print(items[0], depth, false), Comma(|items| > 1, false), PrintItems(items[1..], depth, false);
      HasThree(s, i, t, c, rest, PrintItems(items, depth, fmt));
      KeepsPrint(s, i, items[0], depth, fmt);
      KeepsComma(s, i + |t|, |items| > 1, fmt);
      KeepsItems(s, i + |t| + |c|, items[1..], depth, fmt);
      KeepsBoth(s, i + |t|, c, rest, c + rest, kc, krest, kc + krest);
      KeepsBoth(s, i, t, c + rest, t + (c + rest), kt, kc + krest, kt + (kc + krest));
    }
  }

  lemma KeepsEmptyObject(s: string, i: nat, depth: nat, fmt: bool, all: string)
    requires all == "{" + (Opt(fmt, "\n" + Tabs(depth - 1)) + "}") && Has(s, i, all)
    ensures Keeps(s, i, all, "{" + (Opt(false, "\n" + Tabs(depth - 1)) + "}"))
  {
    hide Minify, Has, Keeps, Tabs;
    var tabs := Opt(fmt, "\n" + Tabs(depth - 1));
    HasThree(s, i, "{", tabs, "}", all);
    KeepsInert(s, i, "{");
    TabsSpace(depth - 1);
    assert ("\n" + Tabs(depth - 1))[1..] == Tabs(depth - 1);
    KeepsOptSpace(s, i + 1, fmt, "\n" + Tabs(depth - 1));
    KeepsInert(s, i + 1 + |tabs|, "}");
    KeepsBoth(s, i + 1, tabs, "}", tabs + "}", "", "}", "}");
    assert "{" + ("" + "}") == "{" + "}";
    KeepsBoth(s, i, "{", tabs + "}", all, "{", "}", "{" + ("" + "}"));
  }

  lemma {:induction false} KeepsObject(s: string, i: nat, members: seq<Member>, depth: nat, fmt: bool, all: string, kept: string)
    requires forall m :: m in members ==> IsCString(m.key) && Printable(m.val)
    requires all == "{" + (Opt(fmt, "\n") + (PrintMembers(members, depth + 1, fmt) + (Opt(fmt, Tabs(depth)) + "}")))
    requires kept == "{" + (Opt(false, "\n") + (PrintMembers(members, depth + 1, false) + (Opt(false, Tabs(depth)) + "}")))
    requires Has(s, i, all)
    ensures Keeps(s, i, all, kept)
    decreases members, 2
  {
    hide Minify, Has, Keeps, Tabs, PrintMembers;
    var nl, t, tabs := Opt(fmt, "\n"), PrintMembers(members, depth + 1, fmt), Opt(fmt, Tabs(depth));
    var k := PrintMembers(members, depth + 1, false);
    HasThree(s, i, "{", nl, t + (tabs + "}"), all);
    HasThree(s, i + 1 + |nl|, t, tabs, "}", t + (tabs + "}"));
    KeepsInert(s, i, "{");
    KeepsOptSpace(s, i + 1, fmt, "\n");
    KeepsMembers(s, i + 1 + |nl|, members, depth + 1, fmt);
    TabsSpace(depth);
    var z := i + 1 + |nl| + |t|;
    KeepsOptSpace(s, z, fmt, Tabs(depth));
    KeepsInert(s, z + |tabs|, "}");
    KeepsBoth(s, z, tabs, "}", tabs + "}", "", "}", "}");
    KeepsBoth(s, i + 1 + |nl|, t, tabs + "}", t + (tabs + "}"), k, "}", k + "}");
    KeepsBoth(s, i + 1, nl, t + (tabs + "}"), nl + (t + (tabs + "}")), "", k + "}", k + "}");
    KeepsBoth(s, i, "{", nl + (t + (tabs + "}")), all, "{", k + "}", kept);
  }

  lemma KeepsKey(s: string, i: nat, key: string, depth: nat, fmt: bool)
    requires Has(s, i, KeyText(key, depth, fmt)) && IsCString(key)
    ensures Keeps(s, i, KeyText(key, depth, fmt), KeyText(key, depth, false))
  {
    hide Minify, Has, Keeps, Tabs, Quote;
    var tabs, quote, tab := Opt(fmt, Tabs(depth)), Quote(key), Opt(fmt, "\t");
    HasThree(s, i, tabs, quote, ":" + tab, KeyText(key, depth, fmt));
    var c := i + |tabs| + |quote|;
    HasConcat(s, c, ":", tab);
    TabsSpace(depth);
    KeepsOptSpace(s, i, fmt, Tabs(depth));
    KeepsQuote(s, i + |tabs|, key);
    KeepsInert(s, c, ":");
    KeepsOptSpace(s, c + 1, fmt, "\t");
    KeepsBoth(s, c, ":", tab, ":" + tab, ":", "", ":");
    KeepsBoth(s, i + |tabs|, quote, ":" + tab, quote + (":" + tab), quote, ":", quote + ":");
    assert KeyText(key, depth, false) == quote + ":";
    KeepsBoth(s, i, tabs, quote + (":" + tab), KeyText(key, depth, fmt), "", quote + ":", quote + ":");
  }

  lemma KeepsMemberEnd(s: string, i: nat, more: bool, fmt: bool)
    requires Has(s, i, MemberEnd(more, fmt))
    ensures Keeps(s, i, MemberEnd(more, fmt), MemberEnd(more, false))
  {
    hide Minify, Has, Keeps;
    var c, nl := Opt(more, ","), Opt(fmt, "\n");
    HasConcat(s, i, c, nl);
    KeepsInert(s, i, c);
    KeepsOptSpace(s, i + |c|, fmt, "\n");
    KeepsBoth(s, i, c, nl, c + nl, c, "", c);
    assert MemberEnd(more, false) == c;
  }

  lemma {:induction false} KeepsMembers(s: string, i: nat, members: seq<Member>, depth: nat, fmt: bool)
    requires forall m :: m in members ==> IsCString(m.key) && Printable(m.val)
    requires Has(s, i, PrintMembers(members, depth, fmt))
    ensures Keeps(s, i, PrintMembers(members, depth, fmt), PrintMembers(members, depth, false))
    decreases members, 1
  {
    hide Minify, Has, Keeps, Print, KeyText, MemberEnd;
    if members == [] {
      KeepsInert(s, i, "");
    } else {
      var m, more := members[0], |members| > 1;
      var key, val, end, rest := KeyText(m.key, depth, fmt), Print(m.val, depth, fmt), MemberEnd(more, fmt), PrintMembers(members[1..], depth, fmt);
      var kkey, kval, kend, krest := KeyText(m.key, depth, false), Print(m.val, depth, false), MemberEnd(more, false), PrintMembers(members[1..], depth, false);
      HasThree(s, i, key, val, end + rest, PrintMembers(members, depth, fmt));
      var v := i + |key|;
      HasConcat(s, v + |val|, end, rest);
      KeepsKey(s, i, m.key, depth, fmt);
      KeepsPrint(s, v, m.val, depth, fmt);
      KeepsMemberEnd(s, v + |val|, more, fmt);
      KeepsMembers(s, v + |val| + |end|, members[1..], depth, fmt);
      KeepsBoth(s, v + |val|, end, rest, end + rest, kend, krest, kend + krest);
      KeepsBoth(s, v, val, end + rest, val + (end + rest), kval, kend + krest, kval + (kend + krest));
      KeepsBoth(s, i, key, val + (end + rest), key + (val + (end + rest)),
                kkey, kval + (kend + krest), kkey + (kval + (kend + krest)));
    }
  }

  /** Minifying either printed form of a value gives its unformatted text. */
  lemma MinifyPrint(v: Json, fmt: bool)
    requires Printable(v)
    ensures Minify(Print(v, 0, fmt), 0) == Kept(Print(v, 0, false))
  {
    hide Print;
    var t, k := Print(v, 0, fmt), Print(v, 0, false);
    KeepsPrint(t, 0, v, 0, fmt);
    assert Minify(t, |t|) == Kept("");
    assert k + "" == k;
  }

  // ----- texts on which minifying is defined

  /** Where a scanner is: in the text, in a line or block comment, in a literal. */
  datatype Mode = Plain | Line | Block | Literal

  /** Every block comment and every literal that is opened is closed again. The star
      that opens a block comment may also close it. */
  predicate Closed(s: string, i: nat, mode: Mode)
    requires i <= |s|
    decreases |s| - i, if mode.Line? then 1 else 0
  {
    if At(s, i) == '\0' then mode.Plain? || mode.Line?
    else
      match mode
      case Plain =>
        if s[i] == '/' && At(s, i + 1) == '/' then Closed(s, i + 2, Line)
        else if s[i] == '/' && At(s, i + 1) == '*' then Closed(s, i + 1, Block)
        else if s[i] == '"' then Closed(s, i + 1, Literal)
        else Closed(s, i + 1, Plain)
      case Line => if s[i] == '\n' then Closed(s, i, Plain) else Closed(s, i + 1, Line)
      case Block => if s[i] == '*' && At(s, i + 1) == '/' then Closed(s, i + 2, Plain) else Closed(s, i + 1, Block)
      case Literal =>
        if s[i] == '"' then Closed(s, i + 1, Plain)
        else if s[i] != '\\' then Closed(s, i + 1, Literal)
        else At(s, i + 1) != '\0' && Closed(s, i + 2, Literal)
  }

  lemma {:induction false} ClosedLine(s: string, i: nat)
    requires i <= |s| && '\0' !in s
    ensures Closed(s, i, Line) == Closed(s, LineEnd(s, i), Plain)
    decreases |s| - i
  {
    if At(s, i) != '\0' && At(s, i) != '\n' {
      ClosedLine(s, i + 1);
    }
  }

  lemma {:induction false} ClosedBlock(s: string, i: nat)
    requires i <= |s| && '\0' !in s
    ensures var j := CommentEnd(s, i);
            Closed(s, i, Block) == (j + 2 <= |s| && Closed(s, j + 2, Plain))
    decreases |s| - i
  {
    if At(s, i) != '\0' && !(At(s, i) == '*' && At(s, i + 1) == '/') {
      ClosedBlock(s, i + 1);
    }
  }

  lemma {:induction false} ClosedLiteral(s: string, i: nat)
    requires i <= |s| && '\0' !in s
    ensures var j := LiteralEnd(s, i);
            Closed(s, i, Literal) == (j <= |s| && Closed(s, j, Plain))
    decreases |s| - i
  {
    if At(s, i) == '\0' || At(s, i) == '"' {
    } else if At(s, i) != '\\' {
      ClosedLiteral(s, i + 1);
    } else if At(s, i + 1) != '\0' {
      ClosedLiteral(s, i + 2);
    }
  }

  /** cJSON_Minify stays inside a text if and only if its block comments and literals
      are closed; otherwise it steps past the terminator. */
  lemma {:induction false} MinifyDefined(s: string, i: nat)
    requires i <= |s| && '\0' !in s
    ensures Minify(s, i).Kept? <==> Closed(s, i, Plain)
    decreases |s| - i
  {
    hide LineEnd, CommentEnd, LiteralEnd;
    if At(s, i) == '\0' {
    } else if s[i] == '/' && At(s, i + 1) == '/' {
      ClosedLine(s, i + 2);
      MinifyDefined(s, LineEnd(s, i + 2));
    } else if s[i] == '/' && At(s, i + 1) == '*' {
      ClosedBlock(s, i + 1);
      if CommentEnd(s, i + 1) + 2 <= |s| {
        MinifyDefined(s, CommentEnd(s, i + 1) + 2);
      }
    } else if s[i] == '"' {
      ClosedLiteral(s, i + 1);
      if LiteralEnd(s, i + 1) <= |s| {
        MinifyDefined(s, LiteralEnd(s, i + 1));
      }
    } else {
      MinifyDefined(s, i + 1);
    }
  }

  // ----- which characters are kept

  /** Character by character: literals are kept whole, comments dropped whole, and of
      everything else the spaces, tabs, carriage returns and line feeds. */
  function Filter(s: string, i: nat, mode: Mode): string
    requires i <= |s|
    decreases |s| - i, if mode.Line? then 1 else 0
  {
    if i == |s| then ""
    else
      var c, d := s[i], At(s, i + 1);
      match mode
      case Plain =>
        if c == ' ' || c == '\t' || c == '\r' || c == '\n' then Filter(s, i + 1, Plain)
        else if c == '/' && d == '/' then Filter(s, i + 2, Line)
        else if c == '/' && d == '*' then Filter(s, i + 1, Block)
        else [c] + Filter(s, i + 1, if c == '"' then Literal else Plain)
      case Line => if c == '\n' then Filter(s, i, Plain) else Filter(s, i + 1, Line)
      case Block => if c == '*' && d == '/' then Filter(s, i + 2, Plain) else Filter(s, i + 1, Block)
      case Literal =>
        if c == '\\' && i + 1 < |s| then [c, d] + Filter(s, i + 2, Literal)
        else [c] + Filter(s, i + 1, if c == '"' then Plain else Literal)
  }

  lemma {:induction false} FilterLine(s: string, i: nat)
    requires i <= |s| && '\0' !in s
    ensures Filter(s, i, Line) == Filter(s, LineEnd(s, i), Plain)
    decreases |s| - i
  {
    if i < |s| {
      assert s[i] in s;
      if s[i] != '\n' {
        FilterLine(s, i + 1);
      }
    }
  }

  lemma {:induction false} FilterBlock(s: string, i: nat)
    requires i <= |s| && '\0' !in s && CommentEnd(s, i) + 2 <= |s|
    ensures Filter(s, i, Block) == Filter(s, CommentEnd(s, i) + 2, Plain)
    decreases |s| - i
  {
    if !(At(s, i) == '*' && At(s, i + 1) == '/') {
      FilterBlock(s, i + 1);
    }
  }

  lemma {:induction false} FilterLiteral(s: string, i: nat)
    requires i <= |s| && '\0' !in s && LiteralEnd(s, i) <= |s|
    ensures Filter(s, i, Literal) == s[i..LiteralEnd(s, i)] + Filter(s, LiteralEnd(s, i), Plain)
    decreases |s| - i
  {
    var j := LiteralEnd(s, i);
    if s[i] == '"' {
      assert s[i..j] == [s[i]];
    } else {
      var next := if s[i] == '\\' then i + 2 else i + 1;
      FilterLiteral(s, next);
      LiteralTail(s, i, next, j, Filter(s, j, Plain));
    }
  }

  lemma LiteralTail(s: string, i: nat, k: nat, j: nat, rest: string)
    requires i <= k <= j <= |s|
    ensures s[i..j] + rest == s[i..k] + (s[k..j] + rest)
    ensures k == i + 1 ==> s[i..k] == [s[i]]
    ensures k == i + 2 ==> s[i..k] == [s[i], s[i + 1]]
  {
    assert s[i..j] == s[i..k] + s[k..j];
  }

  /** Where minifying stays inside the text it keeps exactly those characters. */
  lemma {:induction false} MinifyKeeps(s: string, i: nat)
    requires i <= |s| && '\0' !in s && Minify(s, i).Kept?
    ensures Minify(s, i) == Kept(Filter(s, i, Plain))
    decreases |s| - i
  {
    hide LineEnd, CommentEnd, LiteralEnd;
    if i < |s| {
      assert s[i] in s;
      if IsSpace(s[i]) {
        MinifyKeeps(s, i + 1);
      } else if s[i] == '/' && At(s, i + 1) == '/' {
        FilterLine(s, i + 2);
        MinifyKeeps(s, LineEnd(s, i + 2));
      } else if s[i] == '/' && At(s, i + 1) == '*' {
        FilterBlock(s, i + 1);
        MinifyKeeps(s, CommentEnd(s, i + 1) + 2);
      } else if s[i] == '"' {
        FilterLiteral(s, i + 1);
        MinifyKeeps(s, LiteralEnd(s, i + 1));
        LiteralTail(s, i, i + 1, LiteralEnd(s, i + 1), Filter(s, LiteralEnd(s, i + 1), Plain));
      } else {
        MinifyKeeps(s, i + 1);
      }
    }
  }
}
