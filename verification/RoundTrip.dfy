/** Parsing the printed text gives the value back exactly when its strings are brace-balanced. */
module RoundTrip {
  import opened CText
  import opened JsonValue
  import opened Numeral
  import opened Escape
  import opened Unescaping
  import opened PrintText
  import opened ParseText

  // ----- strings

  lemma QuoteParts(s: string, i: nat, x: string)
    requires Has(s, i, Quote(x))
    ensures At(s, i) == '"' && Has(s, i + 1, EscapeAll(x))
    ensures i + |Quote(x)| <= |s| && At(s, i + 1 + |EscapeAll(x)|) == '"'
  {
    hide EscapeAll;
    assert Quote(x) == "\"" + (EscapeAll(x) + "\"");
    HasThree(s, i, "\"", EscapeAll(x), "\"", Quote(x));
    HasFirst(s, i, "\"");
    HasFirst(s, i + 1 + |EscapeAll(x)|, "\"");
  }

  lemma ParseQuote(s: string, i: nat, x: string)
    requires Has(s, i, Quote(x)) && IsCString(x) && BalancedText(x)
    ensures ParseString(s, i) == Ok(x, i + |Quote(x)|)
  {
    hide EscapeAll, Scan;
    QuoteParts(s, i, x);
    var e := i + 1 + |EscapeAll(x)|;
    DecodeEscaped(s, i + 1, x, 0, e, 0);
    assert Decode(s, e, 0) == Decoded("", e + 1);
    assert x + "" == x;
    BodyEscaped(s, i + 1, x, 0);
    BodyFits(s, i + 1, 0);
  }

  /** With unequal braces the closing quote is taken for part of the string. */
  lemma ParseQuoteOnly(s: string, i: nat, x: string)
    requires Has(s, i, Quote(x)) && IsCString(x) && !BalancedText(x)
    ensures ParseString(s, i).Ok? ==> ParseString(s, i).value != x
  {
    hide EscapeAll, Scan, Quote;
    QuoteParts(s, i, x);
    var e := i + 1 + |EscapeAll(x)|;
    var nest := Count(x, '{') - Count(x, '}');
    DecodeEscaped(s, i + 1, x, 0, e, nest);
    QuoteRead(s, e, nest);
  }

  lemma QuoteRead(s: string, e: nat, nest: int)
    requires e < |s| && s[e] == '"' && nest != 0
    ensures Decode(s, e, nest).Decoded? ==> |Decode(s, e, nest).out| > 0
  {
  }

  // ----- which branch of parse_value a text takes

  lemma NotLiteral(s: string, i: nat)
    requires At(s, i) != 'n' && At(s, i) != 'f' && At(s, i) != 't'
    ensures !Has(s, i, "null") && !Has(s, i, "false") && !Has(s, i, "true")
  {
    if Has(s, i, "null") { HasFirst(s, i, "null"); }
    if Has(s, i, "false") { HasFirst(s, i, "false"); }
    if Has(s, i, "true") { HasFirst(s, i, "true"); }
  }

  lemma ParseLiteral(s: string, i: nat, v: Json, depth: nat, fmt: bool)
    requires v.Null? || v.False? || v.True?
    requires Has(s, i, Print(v, depth, fmt))
    ensures ParseValue(s, i) == Ok(v, i + |Print(v, depth, fmt)|)
  {
    HasFirst(s, i, Print(v, depth, fmt));
    if Has(s, i, "null") { HasFirst(s, i, "null"); }
    if Has(s, i, "false") { HasFirst(s, i, "false"); }
  }

  lemma ParseNum(s: string, i: nat, n: int)
    requires Has(s, i, IntText(n)) && EndsNumber(At(s, i + |IntText(n)|))
    ensures ParseValue(s, i) == Ok(Num(n as real), i + |IntText(n)|)
  {
    HasFirst(s, i, IntText(n));
    NotLiteral(s, i);
    ParseIntText(s, i, n);
    hide IntText, ParseNumber;
  }

  lemma ParseStr(s: string, i: nat, x: string)
    requires Has(s, i, Quote(x)) && IsCString(x)
    ensures BalancedText(x) ==> ParseValue(s, i) == Ok(Str(x), i + |Quote(x)|)
    ensures !BalancedText(x) ==> ParseValue(s, i).Ok? ==> ParseValue(s, i).value != Str(x)
  {
    hide EscapeAll, Quote, ParseNumber, ParseString;
    QuoteParts(s, i, x);
    NotLiteral(s, i);
    if BalancedText(x) {
      ParseQuote(s, i, x);
    } else {
      ParseQuoteOnly(s, i, x);
    }
  }

  // ----- arrays

  /** A value's text followed by something that ends a numeral. */
  ghost predicate Closed(s: string, i: nat, t: string) {
    Has(s, i, t) && EndsNumber(At(s, i + |t|))
  }

  lemma Bracketed(s: string, i: nat, t: string, all: string)
    requires all == "[" + (t + "]") && Has(s, i, all)
    ensures i + |all| <= |s| && |all| == |t| + 2
    ensures At(s, i) == '[' && Has(s, i + 1, t) && At(s, i + 1 + |t|) == ']'
  {
    HasThree(s, i, "[", t, "]", all);
    HasFirst(s, i, "[");
    HasFirst(s, i + 1 + |t|, "]");
  }

  lemma EntersArray(s: string, i: nat)
    requires i <= |s| && At(s, i) == '['
    ensures ParseValue(s, i) == ParseArray(s, i)
  {
    hide ParseNumber, ParseString, ParseArray;
    NotLiteral(s, i);
  }

  lemma StartsHere(s: string, i: nat, t: string)
    requires Has(s, i, t) && |t| > 0 && StartsValue(t[0])
    ensures i < |s| && Skip(s, i) == i && At(s, i) == t[0]
  {
    HasFirst(s, i, t);
  }

  /** An item list up to its closing bracket: the first item, then either the
      bracket or a separator and the rest. */
  lemma ItemParts(s: string, i: nat, t: string, fmt: bool, more: bool, rest: string, all: string)
    requires all == t + (Comma(more, fmt) + rest) && Has(s, i, all) && At(s, i + |all|) == ']'
    requires |t| > 0 && StartsValue(t[0])
    requires if more then |rest| > 0 && StartsValue(rest[0]) else rest == ""
    ensures Closed(s, i, t) && Skip(s, i) == i && i < |s|
    ensures var e := i + |t|;
            var next := e + |Comma(more, fmt)|;
            && e <= |s| && Skip(s, e) == e && next + |rest| == i + |all|
            && (if more then At(s, e) == ',' && Has(s, next, rest) && Skip(s, e + 1) == next
                else At(s, e) == ']' && next == e)
  {
    CommaParts(more, fmt);
    hide Comma, Has, Skip, AllBlank;
    var c := Comma(more, fmt);
    HasThree(s, i, t, c, rest, all);
    StartsHere(s, i, t);
    if more {
      HasFirst(s, i + |t|, c);
      StartsHere(s, i + |t| + |c|, rest);
      SkipOver(s, i + |t| + 1, c[1..]);
    }
    StaysPut(s, i + |t|);
  }

  lemma CommaParts(more: bool, fmt: bool)
    ensures var c := Comma(more, fmt);
            (more ==> |c| > 0 && c[0] == ',' && AllBlank(c[1..])) && (!more ==> c == "")
  {
    assert ", "[1..] == " " && ","[1..] == "";
  }

  lemma ItemsStart(items: seq<Json>, depth: nat, fmt: bool)
    requires items != []
    ensures |PrintItems(items, depth, fmt)| > 0
    ensures PrintItems(items, depth, fmt)[0] == Print(items[0], depth, fmt)[0]
    ensures StartsValue(PrintItems(items, depth, fmt)[0])
  {
    hide Print;
    PrintStart(items[0], depth, fmt);
  }

  /** The first item of a printed list, its separator, the rest. */
  lemma PrintedItem(s: string, i: nat, items: seq<Json>, depth: nat, fmt: bool)
    requires items != [] && Has(s, i, PrintItems(items, depth, fmt))
    requires At(s, i + |PrintItems(items, depth, fmt)|) == ']'
    ensures Closed(s, i, Print(items[0], depth, fmt)) && Skip(s, i) == i && i < |s|
    ensures var e := i + |Print(items[0], depth, fmt)|;
            var next := e + |Comma(|items| > 1, fmt)|;
            var rest := PrintItems(items[1..], depth, fmt);
            && e <= |s| && Skip(s, e) == e && next + |rest| == i + |PrintItems(items, depth, fmt)|
            && (if |items| > 1 then At(s, e) == ',' && Has(s, next, rest) && Skip(s, e + 1) == next
                else At(s, e) == ']' && next == e)
  {
    hide Print, PrintItems, Has, Closed, Skip, StartsValue, Comma, At;
    PrintStart(items[0], depth, fmt);
    if |items| > 1 {
      ItemsStart(items[1..], depth, fmt);
    }
    FirstItem(items, depth, fmt);
    ItemParts(s, i, Print(items[0], depth, fmt), fmt, |items| > 1, PrintItems(items[1..], depth, fmt),
              PrintItems(items, depth, fmt));
  }

  lemma FirstItem(items: seq<Json>, depth: nat, fmt: bool)
    requires items != []
    ensures PrintItems(items, depth, fmt)
         == Print(items[0], depth, fmt) + (Comma(|items| > 1, fmt) + PrintItems(items[1..], depth, fmt))
    ensures |items| == 1 ==> PrintItems(items[1..], depth, fmt) == ""
  {
    hide Print;
  }

  /** Parsing the text of a balanced value. */
  lemma {:induction false} ParsePrint(s: string, i: nat, v: Json, depth: nat, fmt: bool)
    requires Printable(v) && Balanced(v)
    requires Closed(s, i, Print(v, depth, fmt))
    ensures ParseValue(s, i) == Ok(v, i + |Print(v, depth, fmt)|)
    decreases v, 0
  {
    hide ParseValue, Quote, IntText, PrintItems, PrintMembers, Has;
    match v
    case Num(d) => ParseNum(s, i, d.Floor);
    case Str(x) => ParseStr(s, i, x);
    case Arr(items) => ParsePrintArray(s, i, items, depth, fmt);
    case Obj(members) =>
      if members == [] {
        ParseEmptyObject(s, i, depth, fmt, Print(v, depth, fmt));
      } else {
        ParsePrintObject(s, i, members, depth, fmt, Print(v, depth, fmt));
      }
    case _ => ParseLiteral(s, i, v, depth, fmt);
  }

  lemma {:induction false} ParsePrintArray(s: string, i: nat, items: seq<Json>, depth: nat, fmt: bool)
    requires forall x :: x in items ==> Printable(x) && Balanced(x)
    requires Has(s, i, "[" + PrintItems(items, depth + 1, fmt) + "]")
    ensures ParseValue(s, i) == Ok(Arr(items), i + |PrintItems(items, depth + 1, fmt)| + 2)
    decreases items, 2
  {
    hide Print, Has, ParseItems, PrintItems, Skip, StartsValue, ParseValue;
    var t := PrintItems(items, depth + 1, fmt);
    assert "[" + t + "]" == "[" + (t + "]");
    Bracketed(s, i, t, "[" + t + "]");
    EntersArray(s, i);
    if items != [] {
      ItemsStart(items, depth + 1, fmt);
      StartsHere(s, i + 1, t);
      MarksNoBracket(t[0]);
      ParsePrintItems(s, i + 1, i + 1, items, depth + 1, fmt);
    } else {
      PrintNoItems(items, depth + 1, fmt);
      StaysPut(s, i + 1);
    }
  }

  lemma MarksNoBracket(c: char)
    requires StartsValue(c)
    ensures c != ']' && c != '}'
  {
  }

  lemma {:induction false} ParsePrintItems(s: string, k: nat, i: nat, items: seq<Json>, depth: nat, fmt: bool)
    requires forall x :: x in items ==> Printable(x) && Balanced(x)
    requires items != [] && Has(s, i, PrintItems(items, depth, fmt))
    requires At(s, i + |PrintItems(items, depth, fmt)|) == ']'
    requires k <= |s| && Skip(s, k) == i
    ensures ParseItems(s, k) == Ok(items, i + |PrintItems(items, depth, fmt)| + 1)
    decreases items, 1
  {
    hide Print, ParseValue, ParseItems, Skip, PrintItems, Has;
    PrintedItem(s, i, items, depth, fmt);
    ParsePrint(s, i, items[0], depth, fmt);
    var e := i + |Print(items[0], depth, fmt)|;
    if |items| > 1 {
      ParsePrintItems(s, e + 1, e + |Comma(true, fmt)|, items[1..], depth, fmt);
      ItemsStep(s, k, items[0], e, items[1..]);
      assert items == [items[0]] + items[1..];
    } else {
      PrintNoItems(items[1..], depth, fmt);
      ItemsStep(s, k, items[0], e, []);
      assert items == [items[0]];
    }
  }

  /** One turn of parse_array's loop. */
  lemma ItemsStep(s: string, k: nat, v: Json, e: nat, rest: seq<Json>)
    requires k <= |s| && ParseValue(s, Skip(s, k)) == Ok(v, e)
    requires At(s, Skip(s, e)) == ',' || At(s, Skip(s, e)) == ']'
    ensures At(s, Skip(s, e)) == ']' ==> ParseItems(s, k) == Ok([v], Skip(s, e) + 1)
    ensures At(s, Skip(s, e)) == ',' ==>
              var r := ParseItems(s, Skip(s, e) + 1);
              r.Ok? && r.value == rest ==> ParseItems(s, k) == Ok([v] + rest, r.end)
  {
    hide ParseValue, Skip;
  }

  lemma PrintNoItems(items: seq<Json>, depth: nat, fmt: bool)
    requires items == []
    ensures PrintItems(items, depth, fmt) == ""
  {
  }

  // ----- objects

  lemma OptBlank(s: string, i: nat, cond: bool, t: string)
    requires Has(s, i, Opt(cond, t)) && AllBlank(t)
    ensures i + |Opt(cond, t)| <= |s|
    ensures Skip(s, i) == Skip(s, i + |Opt(cond, t)|)
  {
    SkipOver(s, i, Opt(cond, t));
  }

  lemma EntersObject(s: string, i: nat)
    requires i <= |s| && At(s, i) == '{'
    ensures ParseValue(s, i) == ParseObject(s, i)
  {
    hide ParseNumber, ParseString, ParseObject;
    NotLiteral(s, i);
  }

  lemma ParseEmptyObject(s: string, i: nat, depth: nat, fmt: bool, all: string)
    requires all == "{" + (Opt(fmt, "\n" + Tabs(depth - 1)) + "}") && Has(s, i, all)
    ensures ParseValue(s, i) == Ok(Obj([]), i + |all|)
  {
    var tabs := Opt(fmt, "\n" + Tabs(depth - 1));
    HasThree(s, i, "{", tabs, "}", all);
    HasFirst(s, i, "{");
    HasFirst(s, i + 1 + |tabs|, "}");
    TabsBlank(depth - 1);
    assert ("\n" + Tabs(depth - 1))[1..] == Tabs(depth - 1);
    OptBlank(s, i + 1, fmt, "\n" + Tabs(depth - 1));
    EntersObject(s, i);
  }

  /** The text of a non-empty object around its member list `t`. */
  lemma Braced(s: string, i: nat, t: string, depth: nat, fmt: bool, all: string)
    requires all == "{" + (Opt(fmt, "\n") + (t + (Opt(fmt, Tabs(depth)) + "}"))) && Has(s, i, all)
    ensures i + |all| <= |s| && At(s, i) == '{'
    ensures var body := i + 1 + |Opt(fmt, "\n")|;
            && body + |t| <= |s|
            && Has(s, body, t) && Skip(s, i + 1) == Skip(s, body)
            && Skip(s, body + |t|) == i + |all| - 1
            && At(s, i + |all| - 1) == '}'
  {
    TabsBlank(depth);
    assert AllBlank("\n") && AllBlank("");
    hide Has, Skip, Tabs, AllBlank;
    BetweenBraces(s, i, t, Opt(fmt, "\n"), Opt(fmt, Tabs(depth)), all);
  }

  lemma BetweenBraces(s: string, i: nat, t: string, nl: string, tabs: string, all: string)
    requires all == "{" + (nl + (t + (tabs + "}"))) && Has(s, i, all) && AllBlank(nl) && AllBlank(tabs)
    ensures i + |all| <= |s| && At(s, i) == '{'
    ensures var body := i + 1 + |nl|;
            && body + |t| <= |s|
            && Has(s, body, t) && Skip(s, i + 1) == Skip(s, body)
            && Skip(s, body + |t|) == i + |all| - 1
            && At(s, i + |all| - 1) == '}'
  {
    hide Has, Skip, AllBlank;
    HasThree(s, i, "{", nl, t + (tabs + "}"), all);
    HasThree(s, i + 1 + |nl|, t, tabs, "}", t + (tabs + "}"));
    var last := i + 1 + |nl| + |t| + |tabs|;
    HasFirst(s, last, "}");
    StaysPut(s, last);
    HasFirst(s, i, "{");
    SkipOver(s, i + 1, nl);
    SkipOver(s, i + 1 + |nl| + |t|, tabs);
  }

  /** A key with its indentation and colon, in front of a value's text. */
  lemma KeyParts(s: string, i: nat, key: string, depth: nat, fmt: bool)
    requires Has(s, i, KeyText(key, depth, fmt))
    ensures var q := i + |Opt(fmt, Tabs(depth))|;
            var c := q + |Quote(key)|;
            && i <= |s| && Skip(s, i) == q && At(s, q) == '"' && Has(s, q, Quote(key))
            && c + 1 <= |s| && At(s, c) == ':' && Skip(s, c) == c
            && i + |KeyText(key, depth, fmt)| <= |s|
            && Skip(s, c + 1) == Skip(s, i + |KeyText(key, depth, fmt)|)
  {
    var tabs, quote, tab := Opt(fmt, Tabs(depth)), Quote(key), Opt(fmt, "\t");
    KeyPieces(key, depth, fmt);
    hide EscapeAll, Quote, Tabs, KeyText, Opt, Has;
    HasThree(s, i, tabs, quote, ":" + tab, KeyText(key, depth, fmt));
    HasConcat(s, i + |tabs| + |quote|, ":", tab);
    HasFirst(s, i + |tabs|, quote);
    HasFirst(s, i + |tabs| + |quote|, ":");
    TabsBlank(depth);
    OptBlank(s, i, fmt, Tabs(depth));
    OptBlank(s, i + |tabs| + |quote| + 1, fmt, "\t");
  }

  lemma KeyPieces(key: string, depth: nat, fmt: bool)
    ensures KeyText(key, depth, fmt) == Opt(fmt, Tabs(depth)) + (Quote(key) + (":" + Opt(fmt, "\t")))
    ensures AllBlank("\t")
  {
    hide Quote, Tabs;
  }

  /** What stands between a member's value and the next member or the end. */
  lemma EndParts(s: string, e: nat, more: bool, fmt: bool)
    requires Has(s, e, MemberEnd(more, fmt)) && e <= |s|
    requires more || At(s, Skip(s, e + |MemberEnd(more, fmt)|)) == '}'
    ensures EndsNumber(At(s, e))
    ensures var next := e + |MemberEnd(more, fmt)|;
            && next <= |s|
            && (if more then At(s, e) == ',' && Skip(s, e) == e && Skip(s, e + 1) == Skip(s, next)
                else Skip(s, e) == Skip(s, next))
  {
    HasConcat(s, e, Opt(more, ","), Opt(fmt, "\n"));
    if more {
      HasFirst(s, e, ",");
      OptBlank(s, e + 1, fmt, "\n");
    } else {
      OptBlank(s, e, fmt, "\n");
      if fmt {
        HasFirst(s, e, "\n");
      }
    }
  }

  /** The first member of a printed list: key, value, separator, the rest. */
  lemma PrintedMember(s: string, i: nat, members: seq<Member>, depth: nat, fmt: bool)
    requires members != [] && Has(s, i, PrintMembers(members, depth, fmt))
    requires At(s, Skip(s, i + |PrintMembers(members, depth, fmt)|)) == '}'
    ensures var v := i + |KeyText(members[0].key, depth, fmt)|;
            var e := v + |Print(members[0].val, depth, fmt)|;
            var next := e + |MemberEnd(|members| > 1, fmt)|;
            var rest := PrintMembers(members[1..], depth, fmt);
            && v <= e <= next <= |s|
            && Has(s, i, KeyText(members[0].key, depth, fmt))
            && Skip(s, v) == v && Closed(s, v, Print(members[0].val, depth, fmt))
            && next + |rest| == i + |PrintMembers(members, depth, fmt)|
            && (if |members| > 1 then At(s, e) == ',' && Skip(s, e) == e && Skip(s, e + 1) == Skip(s, next) && Has(s, next, rest)
                else Skip(s, e) == Skip(s, next) && rest == "")
  {
    hide KeyText, MemberEnd, Print, Has, Skip;
    var key, val := KeyText(members[0].key, depth, fmt), Print(members[0].val, depth, fmt);
    var end, rest := MemberEnd(|members| > 1, fmt), PrintMembers(members[1..], depth, fmt);
    var v := i + |key|;
    HasThree(s, i, key, val, end + rest, PrintMembers(members, depth, fmt));
    HasConcat(s, v + |val|, end, rest);
    PrintStart(members[0].val, depth, fmt);
    StartsHere(s, v, val);
    EndParts(s, v + |val|, |members| > 1, fmt);
  }

  lemma {:induction false} ParsePrintObject(s: string, i: nat, members: seq<Member>, depth: nat, fmt: bool, all: string)
    requires forall m :: m in members ==> IsCString(m.key) && BalancedText(m.key) && Printable(m.val) && Balanced(m.val)
    requires members != []
    requires all == "{" + (Opt(fmt, "\n") + (PrintMembers(members, depth + 1, fmt) + (Opt(fmt, Tabs(depth)) + "}")))
    requires Has(s, i, all)
    ensures ParseValue(s, i) == Ok(Obj(members), i + |all|)
    decreases members, 2
  {
    hide PrintMembers, Has, ParseMembers, ParseObject, ParseValue, Skip, KeyText, Tabs;
    var body := i + 1 + |Opt(fmt, "\n")|;
    Braced(s, i, PrintMembers(members, depth + 1, fmt), depth, fmt, all);
    FirstKey(s, body, members, depth + 1, fmt);
    EntersObject(s, i);
    ObjectStep(s, i);
    ParsePrintMembers(s, Skip(s, i + 1), body, members, depth + 1, fmt);
  }

  lemma FirstKey(s: string, i: nat, members: seq<Member>, depth: nat, fmt: bool)
    requires members != [] && Has(s, i, PrintMembers(members, depth, fmt))
    requires At(s, Skip(s, i + |PrintMembers(members, depth, fmt)|)) == '}'
    ensures i <= |s| && At(s, Skip(s, i)) == '"' && Skip(s, Skip(s, i)) == Skip(s, i)
  {
    hide PrintMembers, Has, KeyText, Tabs, Skip, MemberEnd, Closed, Print, EndsNumber;
    PrintedMember(s, i, members, depth, fmt);
    KeyParts(s, i, members[0].key, depth, fmt);
    StaysPut(s, Skip(s, i));
  }

  lemma ObjectStep(s: string, i: nat)
    requires i < |s| && s[i] == '{' && At(s, Skip(s, i + 1)) != '}'
    ensures var r := ParseMembers(s, Skip(s, i + 1));
            r.Ok? ==> ParseObject(s, i) == Ok(Obj(r.value), r.end)
  {
    hide ParseMembers, Skip;
  }

  lemma ParsePrintedMember(s: string, k: nat, i: nat, m: Member, depth: nat, fmt: bool)
    requires k <= |s| && i <= |s| && Skip(s, k) == Skip(s, i)
    requires Has(s, i, KeyText(m.key, depth, fmt)) && IsCString(m.key) && BalancedText(m.key)
    requires var v := i + |KeyText(m.key, depth, fmt)|;
             && v <= |s| && Skip(s, v) == v
             && ParseValue(s, v) == Ok(m.val, v + |Print(m.val, depth, fmt)|)
    ensures ParseMember(s, k) == Ok(m, i + |KeyText(m.key, depth, fmt)| + |Print(m.val, depth, fmt)|)
  {
    hide KeyText, Print, ParseValue, ParseString, Has, Skip, Quote, Tabs;
    KeyParts(s, i, m.key, depth, fmt);
    ParseQuote(s, Skip(s, k), m.key);
  }

  lemma {:induction false} ParsePrintMembers(s: string, k: nat, i: nat, members: seq<Member>, depth: nat, fmt: bool)
    requires forall m :: m in members ==> IsCString(m.key) && BalancedText(m.key) && Printable(m.val) && Balanced(m.val)
    requires members != [] && Has(s, i, PrintMembers(members, depth, fmt))
    requires i <= |s|
    requires At(s, Skip(s, i + |PrintMembers(members, depth, fmt)|)) == '}'
    requires k <= |s| && Skip(s, k) == Skip(s, i)
    ensures ParseMembers(s, k) == Ok(members, Skip(s, i + |PrintMembers(members, depth, fmt)|) + 1)
    decreases members, 1
  {
    hide KeyText, Print, ParseValue, ParseMember, ParseMembers, PrintMembers, Skip, Has, MemberEnd;
    var m := members[0];
    var e := i + |KeyText(m.key, depth, fmt)| + |Print(m.val, depth, fmt)|;
    PrintedMember(s, i, members, depth, fmt);
    ParsePrint(s, i + |KeyText(m.key, depth, fmt)|, m.val, depth, fmt);
    ParsePrintedMember(s, k, i, m, depth, fmt);
    if |members| > 1 {
      ParsePrintMembers(s, e + 1, e + |MemberEnd(true, fmt)|, members[1..], depth, fmt);
      MembersStep(s, k, m, e, members[1..]);
      assert members == [m] + members[1..];
    } else {
      MembersStep(s, k, m, e, []);
      assert members == [m];
    }
  }

  /** One turn of parse_object's loop. */
  lemma MembersStep(s: string, k: nat, m: Member, e: nat, rest: seq<Member>)
    requires k <= |s| && ParseMember(s, k) == Ok(m, e)
    requires At(s, Skip(s, e)) == ',' || At(s, Skip(s, e)) == '}'
    ensures At(s, Skip(s, e)) == '}' ==> ParseMembers(s, k) == Ok([m], Skip(s, e) + 1)
    ensures At(s, Skip(s, e)) == ',' ==>
              var r := ParseMembers(s, Skip(s, e) + 1);
              r.Ok? && r.value == rest ==> ParseMembers(s, k) == Ok([m] + rest, r.end)
  {
    hide ParseMember, Skip;
  }

  // ----- only balanced values come back

  lemma ItemsInverse(s: string, k: nat) returns (e: nat)
    requires k <= |s| && ParseItems(s, k).Ok?
    ensures var items := ParseItems(s, k).value;
            && items != [] && ParseValue(s, Skip(s, k)) == Ok(items[0], e) && e <= |s|
            && (|items| > 1 ==>
                  && ParseItems(s, Skip(s, e) + 1).Ok? && At(s, Skip(s, e)) == ','
                  && ParseItems(s, Skip(s, e) + 1).value == items[1..])
  {
    hide ParseValue, Skip;
    e := ParseValue(s, Skip(s, k)).end;
  }

  lemma MembersInverse(s: string, k: nat) returns (e: nat)
    requires k <= |s| && ParseMembers(s, k).Ok?
    ensures var members := ParseMembers(s, k).value;
            && members != [] && ParseMember(s, k) == Ok(members[0], e) && e <= |s|
            && (|members| > 1 ==>
                  && ParseMembers(s, Skip(s, e) + 1).Ok? && At(s, Skip(s, e)) == ','
                  && ParseMembers(s, Skip(s, e) + 1).value == members[1..])
  {
    hide ParseMember, Skip;
    e := ParseMember(s, k).end;
  }

  /** A printed value that parses back to itself is balanced. */
  lemma {:induction false} ParsePrintOnly(s: string, i: nat, v: Json, depth: nat, fmt: bool)
    requires Printable(v)
    requires Closed(s, i, Print(v, depth, fmt))
    requires i <= |s| && ParseValue(s, i).Ok? && ParseValue(s, i).value == v
    ensures Balanced(v)
    decreases v, 0
  {
    hide ParseValue, Quote, IntText, PrintItems, PrintMembers, Has;
    match v
    case Str(x) => ParseStr(s, i, x);
    case Arr(items) =>
      if items != [] {
        ParsePrintOnlyArray(s, i, items, depth, fmt);
      }
    case Obj(members) =>
      if members != [] {
        ParsePrintOnlyObject(s, i, members, depth, fmt, Print(v, depth, fmt));
      }
    case _ =>
  }

  lemma {:induction false} ParsePrintOnlyArray(s: string, i: nat, items: seq<Json>, depth: nat, fmt: bool)
    requires forall x :: x in items ==> Printable(x)
    requires items != [] && Has(s, i, "[" + PrintItems(items, depth + 1, fmt) + "]")
    requires i <= |s| && ParseValue(s, i).Ok? && ParseValue(s, i).value == Arr(items)
    ensures forall x :: x in items ==> Balanced(x)
    decreases items, 2
  {
    hide Print, Has, ParseItems;
    var t := PrintItems(items, depth + 1, fmt);
    assert "[" + t + "]" == "[" + (t + "]");
    Bracketed(s, i, t, "[" + t + "]");
    EntersArray(s, i);
    ItemsStart(items, depth + 1, fmt);
    StartsHere(s, i + 1, t);
    ParsePrintOnlyItems(s, i + 1, i + 1, items, depth + 1, fmt);
  }

  lemma {:induction false} ParsePrintOnlyItems(s: string, k: nat, i: nat, items: seq<Json>, depth: nat, fmt: bool)
    requires forall x :: x in items ==> Printable(x)
    requires items != [] && Has(s, i, PrintItems(items, depth, fmt))
    requires At(s, i + |PrintItems(items, depth, fmt)|) == ']'
    requires k <= |s| && Skip(s, k) == i
    requires ParseItems(s, k).Ok? && ParseItems(s, k).value == items
    ensures forall x :: x in items ==> Balanced(x)
    decreases items, 1
  {
    hide Print, ParseValue, ParseItems, Skip, PrintItems, Has;
    PrintedItem(s, i, items, depth, fmt);
    var e := ItemsInverse(s, k);
    ParsePrintOnly(s, i, items[0], depth, fmt);
    ParsePrint(s, i, items[0], depth, fmt);
    if |items| > 1 {
      ParsePrintOnlyItems(s, e + 1, e + |Comma(true, fmt)|, items[1..], depth, fmt);
    }
    assert forall x :: x in items ==> x == items[0] || x in items[1..];
  }

  lemma {:induction false} ParsePrintOnlyObject(s: string, i: nat, members: seq<Member>, depth: nat, fmt: bool, all: string)
    requires forall m :: m in members ==> IsCString(m.key) && Printable(m.val)
    requires members != []
    requires all == "{" + (Opt(fmt, "\n") + (PrintMembers(members, depth + 1, fmt) + (Opt(fmt, Tabs(depth)) + "}")))
    requires Has(s, i, all) && i <= |s|
    requires ParseValue(s, i).Ok? && ParseValue(s, i).value == Obj(members)
    ensures forall m :: m in members ==> BalancedText(m.key) && Balanced(m.val)
    decreases members, 2
  {
    hide PrintMembers, Has, ParseMembers, ParseValue, Skip, KeyText, Tabs;
    var t := PrintMembers(members, depth + 1, fmt);
    var body := i + 1 + |Opt(fmt, "\n")|;
    Braced(s, i, t, depth, fmt, all);
    StaysPut(s, Skip(s, i + 1));
    EntersObject(s, i);
    ParsePrintOnlyMembers(s, Skip(s, i + 1), body, members, depth + 1, fmt);
  }

  lemma OnlyMember(s: string, k: nat, i: nat, m: Member, depth: nat, fmt: bool, e: nat)
    requires k <= |s| && i <= |s| && Skip(s, k) == Skip(s, i)
    requires Has(s, i, KeyText(m.key, depth, fmt)) && IsCString(m.key)
    requires ParseMember(s, k) == Ok(m, e)
    ensures BalancedText(m.key)
    ensures var v := i + |KeyText(m.key, depth, fmt)|;
            v <= |s| && (Skip(s, v) == v ==> ParseValue(s, v) == Ok(m.val, e))
  {
    hide KeyText, Print, ParseValue, ParseString, Has, Skip, Quote, Tabs, Count, Opt;
    KeyParts(s, i, m.key, depth, fmt);
    if !BalancedText(m.key) {
      ParseQuoteOnly(s, Skip(s, k), m.key);
    } else {
      ParseQuote(s, Skip(s, k), m.key);
    }
  }

  lemma {:induction false} ParsePrintOnlyMembers(s: string, k: nat, i: nat, members: seq<Member>, depth: nat, fmt: bool)
    requires forall m :: m in members ==> IsCString(m.key) && Printable(m.val)
    requires members != [] && Has(s, i, PrintMembers(members, depth, fmt))
    requires i <= |s|
    requires At(s, Skip(s, i + |PrintMembers(members, depth, fmt)|)) == '}'
    requires k <= |s| && Skip(s, k) == Skip(s, i)
    requires ParseMembers(s, k).Ok? && ParseMembers(s, k).value == members
    ensures forall m :: m in members ==> BalancedText(m.key) && Balanced(m.val)
    decreases members, 1
  {
    hide KeyText, Print, ParseValue, ParseMember, ParseMembers, PrintMembers, Skip, Has, MemberEnd;
    var m := members[0];
    var v := i + |KeyText(m.key, depth, fmt)|;
    PrintedMember(s, i, members, depth, fmt);
    var e := MembersInverse(s, k);
    OnlyMember(s, k, i, m, depth, fmt, e);
    ParsePrintOnly(s, v, m.val, depth, fmt);
    ParsePrint(s, v, m.val, depth, fmt);
    if |members| > 1 {
      ParsePrintOnlyMembers(s, e + 1, e + |MemberEnd(true, fmt)|, members[1..], depth, fmt);
    }
    assert forall x :: x in members ==> x == m || x in members[1..];
  }

  // ----- whole documents

  lemma PrintIsDocument(v: Json, fmt: bool)
    requires Printable(v)
    ensures var t := Print(v, 0, fmt);
            Closed(t, 0, t) && Skip(t, 0) == 0 && Skip(t, |t|) == |t|
  {
    hide Print;
    var t := Print(v, 0, fmt);
    PrintStart(v, 0, fmt);
    StartsHere(t, 0, t);
  }

  /** cJSON_Parse after cJSON_Print or cJSON_PrintUnformatted gives the value
      back, with the whole text consumed, exactly when every string and key has
      as many opening as closing braces. */
  lemma ParseUndoesPrint(v: Json, fmt: bool, requireEnd: bool)
    requires Printable(v)
    ensures var t := Print(v, 0, fmt);
            ParseDocument(t, requireEnd) == Ok(v, |t|) <==> Balanced(v)
  {
    hide Print, ParseValue, Skip;
    var t := Print(v, 0, fmt);
    PrintIsDocument(v, fmt);
    if Balanced(v) {
      ParsePrint(t, 0, v, 0, fmt);
    }
    if ParseDocument(t, requireEnd) == Ok(v, |t|) {
      ParsePrintOnly(t, 0, v, 0, fmt);
    }
  }
}
