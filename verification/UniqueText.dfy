/** One text stands for one value: what cJSON_Print and cJSON_PrintUnformatted write
    can be told apart, whatever braces the strings hold. */
module UniqueText {
  import opened CText
  import opened JsonValue
  import opened Numeral
  import opened Escape
  import opened Unescaping
  import opened PrintText
  import MinifyText

  // ----- strings

  lemma EscapeStart(c: char)
    ensures EscapeChar(c)[0] != '"' && (EscapeChar(c)[0] == '\\' <==> !IsPlain(c))
  {
  }

  lemma HasFront(t: string, a: string)
    ensures Has(t + a, 0, t)
  {
    assert (t + a)[0..|t|] == t;
  }

  /** No escape is the beginning of another one. */
  lemma CharUnique(c: char, d: char, a: string, b: string)
    requires EscapeChar(c) + a == EscapeChar(d) + b && c != '\0' && d != '\0'
    ensures c == d && a == b
  {
    var s := EscapeChar(c) + a;
    assert s[0] == EscapeChar(c)[0] == EscapeChar(d)[0];
    EscapeStart(c);
    EscapeStart(d);
    if !IsPlain(c) {
      HasFront(EscapeChar(c), a);
      HasFront(EscapeChar(d), b);
      hide EscapeChar, Unescape;
      UnescapeChar(s, 0, c);
      UnescapeChar(s, 0, d);
    }
    assert s[|EscapeChar(c)|..] == a && s[|EscapeChar(d)|..] == b;
  }

  lemma EscapeCons(x: string, t: string)
    requires x != ""
    ensures EscapeAll(x) + t == EscapeChar(x[0]) + (EscapeAll(x[1..]) + t)
  {
  }

  /** The first raw quote ends a string. */
  lemma {:induction false} StringUnique(x: string, y: string, a: string, b: string)
    requires EscapeAll(x) + ("\"" + a) == EscapeAll(y) + ("\"" + b) && IsCString(x) && IsCString(y)
    ensures x == y && a == b
    decreases |x|
  {
    hide EscapeChar, EscapeAll;
    var p, q := "\"" + a, "\"" + b;
    FirstMark(x, p);
    FirstMark(y, q);
    if x == "" {
      assert p[1..] == a && q[1..] == b;
    } else {
      EscapeCons(x, p);
      EscapeCons(y, q);
      CharUnique(x[0], y[0], EscapeAll(x[1..]) + p, EscapeAll(y[1..]) + q);
      StringUnique(x[1..], y[1..], a, b);
      assert x == [x[0]] + x[1..] && y == [y[0]] + y[1..];
    }
  }

  /** A raw quote comes first only behind an empty string. */
  lemma FirstMark(x: string, t: string)
    requires t != "" && t[0] == '"'
    ensures EscapeAll(x) + t != "" && ((EscapeAll(x) + t)[0] == '"' <==> x == "")
    ensures x == "" ==> EscapeAll(x) + t == t
  {
    if x != "" {
      EscapeStart(x[0]);
      EscapeCons(x, t);
    }
  }

  lemma QuoteUnique(x: string, y: string, a: string, b: string)
    requires Quote(x) + a == Quote(y) + b && IsCString(x) && IsCString(y)
    ensures x == y && a == b
  {
    hide EscapeAll;
    assert (Quote(x) + a)[1..] == EscapeAll(x) + ("\"" + a);
    assert (Quote(y) + b)[1..] == EscapeAll(y) + ("\"" + b);
    StringUnique(x, y, a, b);
  }

  // ----- values

  /** What can stand behind a value: nothing, or the next mark of the list it is in. */
  predicate Behind(a: string) {
    a == "" || a[0] == ',' || a[0] == ']' || a[0] == '}'
  }

  lemma IntUnique(n: int, m: int, a: string, b: string)
    requires IntText(n) + a == IntText(m) + b && Behind(a) && Behind(b)
    ensures n == m && a == b
  {
    hide IntText, ParseNumber;
    var s := IntText(n) + a;
    HasFront(IntText(n), a);
    HasFront(IntText(m), b);
    assert a != "" ==> s[|IntText(n)|] == a[0];
    assert b != "" ==> s[|IntText(m)|] == b[0];
    ParseIntText(s, 0, n);
    ParseIntText(s, 0, m);
    assert s[|IntText(n)|..] == a && s[|IntText(m)|..] == b;
  }

  /** The first character of a value's text names its kind. */
  lemma KindUnique(v: Json, w: Json, depth: nat, a: string, b: string)
    requires Print(v, depth, false) + a == Print(w, depth, false) + b
    ensures v.Null? == w.Null? && v.False? == w.False? && v.True? == w.True? && v.Num? == w.Num?
    ensures v.Str? == w.Str? && v.Arr? == w.Arr? && v.Obj? == w.Obj?
  {
    var c := (Print(v, depth, false) + a)[0];
    LiteralStart(v, depth);
    LiteralStart(w, depth);
    PrintStart(v, depth, false);
    PrintStart(w, depth, false);
    hide Print;
    assert c == Print(v, depth, false)[0] && c == Print(w, depth, false)[0];
  }

  lemma LiteralStart(v: Json, depth: nat)
    ensures v.Null? ==> Print(v, depth, false) == "null"
    ensures v.False? ==> Print(v, depth, false) == "false"
    ensures v.True? ==> Print(v, depth, false) == "true"
  {
  }

  /** The text of a value is not the beginning of another value's text. */
  lemma {:induction false} ValueUnique(v: Json, w: Json, depth: nat, a: string, b: string)
    requires Print(v, depth, false) + a == Print(w, depth, false) + b && Behind(a) && Behind(b)
    requires Printable(v) && Printable(w)
    ensures v == w && a == b
    decreases v, 0
  {
    hide Quote, IntText, PrintItems, PrintMembers, Behind;
    KindUnique(v, w, depth, a, b);
    match v
    case Num(d) => IntUnique(d.Floor, w.d.Floor, a, b);
    case Str(x) => QuoteUnique(x, w.s, a, b);
    case Arr(items) =>
      ArrayText(items, depth, a);
      ArrayText(w.items, depth, b);
      ItemsUnique(items, w.items, depth + 1, a, b);
    case Obj(members) =>
      ObjectText(members, depth, a);
      ObjectText(w.members, depth, b);
      MembersUnique(members, w.members, depth + 1, a, b);
    case _ =>
      LiteralStart(v, depth);
      LiteralStart(w, depth);
      var t := Print(v, depth, false);
      assert (t + a)[|t|..] == a && (t + b)[|t|..] == b;
  }

  lemma ArrayText(items: seq<Json>, depth: nat, a: string)
    ensures (Print(Arr(items), depth, false) + a)[1..] == PrintItems(items, depth + 1, false) + ("]" + a)
  {
    hide PrintItems;
    var all := PrintItems(items, depth + 1, false);
    assert "[" + all + "]" + a == "[" + (all + ("]" + a));
  }

  lemma ObjectText(members: seq<Member>, depth: nat, a: string)
    ensures (Print(Obj(members), depth, false) + a)[1..] == PrintMembers(members, depth + 1, false) + ("}" + a)
  {
    hide PrintMembers;
    var all := PrintMembers(members, depth + 1, false);
    if members == [] {
      EmptyMembers(depth + 1);
      assert Print(Obj(members), depth, false) == "{}";
    } else {
      assert Print(Obj(members), depth, false) == "{" + (all + "}");
    }
  }

  lemma EmptyMembers(depth: nat)
    ensures PrintMembers([], depth, false) == ""
  {
  }

  // ----- lists

  lemma ItemsText(items: seq<Json>, depth: nat, t: string) returns (r: string)
    requires items != []
    ensures r == if |items| > 1 then "," + (PrintItems(items[1..], depth, false) + t) else t
    ensures PrintItems(items, depth, false) + t == Print(items[0], depth, false) + r
  {
    r := if |items| > 1 then "," + (PrintItems(items[1..], depth, false) + t) else t;
    ItemsUnfold(items, depth);
    hide Print, PrintItems;
    var mark, rest := if |items| > 1 then "," else "", PrintItems(items[1..], depth, false);
    Associate(Print(items[0], depth, false), mark, rest, t);
  }

  lemma ItemsUnfold(items: seq<Json>, depth: nat)
    requires items != []
    ensures PrintItems(items, depth, false)
         == Print(items[0], depth, false) + ((if |items| > 1 then "," else "") + PrintItems(items[1..], depth, false))
    ensures |items| == 1 ==> PrintItems(items[1..], depth, false) == ""
  {
    hide Print;
  }

  lemma Associate(a: string, b: string, c: string, t: string)
    ensures (a + (b + c)) + t == a + (b + (c + t))
    ensures "" + ("" + t) == t
  {
  }

  lemma {:induction false} ItemsUnique(xs: seq<Json>, ys: seq<Json>, depth: nat, a: string, b: string)
    requires PrintItems(xs, depth, false) + ("]" + a) == PrintItems(ys, depth, false) + ("]" + b)
    requires (forall x :: x in xs ==> Printable(x)) && (forall y :: y in ys ==> Printable(y))
    ensures xs == ys && a == b
    decreases xs, 1
  {
    hide Print, PrintItems, Printable;
    var p, q := "]" + a, "]" + b;
    if xs == [] || ys == [] {
      OneEmpty(xs, ys, depth, a, b);
    } else {
      var r := ItemsText(xs, depth, p);
      var s := ItemsText(ys, depth, q);
      ValueUnique(xs[0], ys[0], depth, r, s);
      if |xs| > 1 {
        MarkUnique(',', PrintItems(xs[1..], depth, false) + p, if |ys| > 1 then ',' else ']',
                   if |ys| > 1 then PrintItems(ys[1..], depth, false) + q else b);
        ItemsUnique(xs[1..], ys[1..], depth, a, b);
      } else {
        MarkUnique(']', a, if |ys| > 1 then ',' else ']', if |ys| > 1 then PrintItems(ys[1..], depth, false) + q else b);
      }
      SameHead(xs, ys);
    }
  }

  /** Equal texts behind equal marks. */
  lemma MarkUnique(c: char, a: string, d: char, b: string)
    requires [c] + a == [d] + b
    ensures c == d && a == b
  {
    assert ([c] + a)[0] == c && ([d] + b)[0] == d;
    assert ([c] + a)[1..] == a && ([d] + b)[1..] == b;
  }

  lemma SameHead<T>(xs: seq<T>, ys: seq<T>)
    requires xs != [] && ys != [] && xs[0] == ys[0] && ((|xs| > 1 && |ys| > 1 && xs[1..] == ys[1..]) || |xs| == |ys| == 1)
    ensures xs == ys
  {
    if |xs| > 1 {
      assert xs == [xs[0]] + xs[1..] && ys == [ys[0]] + ys[1..];
    }
  }

  lemma EmptyItems(depth: nat)
    ensures PrintItems([], depth, false) == ""
  {
  }

  lemma OneEmpty(xs: seq<Json>, ys: seq<Json>, depth: nat, a: string, b: string)
    requires PrintItems(xs, depth, false) + ("]" + a) == PrintItems(ys, depth, false) + ("]" + b)
    requires xs == [] || ys == []
    ensures xs == ys && a == b
  {
    hide Print;
    EmptyItems(depth);
    var t := PrintItems(xs, depth, false) + ("]" + a);
    assert t[0] == ']';
    if xs != [] {
      PrintStart(xs[0], depth, false);
    }
    if ys != [] {
      PrintStart(ys[0], depth, false);
    }
    assert t == "]" + a && t == "]" + b;
    assert t[1..] == a && t[1..] == b;
  }

  lemma MembersText(members: seq<Member>, depth: nat, t: string) returns (r: string)
    requires members != []
    ensures r == if |members| > 1 then "," + (PrintMembers(members[1..], depth, false) + t) else t
    ensures PrintMembers(members, depth, false) + t
         == Quote(members[0].key) + (":" + (Print(members[0].val, depth, false) + r))
  {
    hide Print, Quote, KeyText;
    r := if |members| > 1 then "," + (PrintMembers(members[1..], depth, false) + t) else t;
    if |members| == 1 {
      EmptyMembers(depth);
      assert members[1..] == [];
    }
    var key, val := Quote(members[0].key), Print(members[0].val, depth, false);
    var end, rest := MemberEnd(|members| > 1, false), PrintMembers(members[1..], depth, false);
    PlainKey(members[0].key, depth);
    Regroup(key, val, end, rest, t, r);
  }

  lemma PlainKey(key: string, depth: nat)
    ensures KeyText(key, depth, false) == Quote(key) + ":"
  {
    hide Quote;
  }

  lemma Regroup(key: string, val: string, end: string, rest: string, t: string, r: string)
    requires end + (rest + t) == r
    ensures (key + ":") + (val + (end + rest)) + t == key + (":" + (val + r))
  {
    assert end + rest + t == r;
  }

  lemma {:induction false} MembersUnique(xs: seq<Member>, ys: seq<Member>, depth: nat, a: string, b: string)
    requires PrintMembers(xs, depth, false) + ("}" + a) == PrintMembers(ys, depth, false) + ("}" + b)
    requires forall x :: x in xs ==> IsCString(x.key) && Printable(x.val)
    requires forall y :: y in ys ==> IsCString(y.key) && Printable(y.val)
    ensures xs == ys && a == b
    decreases xs, 1
  {
    hide Print, PrintMembers, Printable, Quote;
    var p, q := "}" + a, "}" + b;
    if xs == [] || ys == [] {
      OneEmptyObject(xs, ys, depth, a, b);
    } else {
      var r := MembersText(xs, depth, p);
      var s := MembersText(ys, depth, q);
      var u, v := Print(xs[0].val, depth, false) + r, Print(ys[0].val, depth, false) + s;
      QuoteUnique(xs[0].key, ys[0].key, ":" + u, ":" + v);
      MarkUnique(':', u, ':', v);
      ValueUnique(xs[0].val, ys[0].val, depth, r, s);
      if |xs| > 1 {
        MarkUnique(',', PrintMembers(xs[1..], depth, false) + p, if |ys| > 1 then ',' else '}',
                   if |ys| > 1 then PrintMembers(ys[1..], depth, false) + q else b);
        MembersUnique(xs[1..], ys[1..], depth, a, b);
      } else {
        MarkUnique('}', a, if |ys| > 1 then ',' else '}', if |ys| > 1 then PrintMembers(ys[1..], depth, false) + q else b);
      }
      SameHead(xs, ys);
    }
  }

  lemma OneEmptyObject(xs: seq<Member>, ys: seq<Member>, depth: nat, a: string, b: string)
    requires PrintMembers(xs, depth, false) + ("}" + a) == PrintMembers(ys, depth, false) + ("}" + b)
    requires xs == [] || ys == []
    ensures xs == ys && a == b
  {
    hide Print, Quote;
    var t := PrintMembers(xs, depth, false) + ("}" + a);
    assert t[0] == '}';
    if xs != [] {
      var r := MembersText(xs, depth, "}" + a);
    }
    if ys != [] {
      var r := MembersText(ys, depth, "}" + b);
    }
    assert t == "}" + a && t == "}" + b;
    assert t[1..] == a && t[1..] == b;
  }

  /** Two printable values with the same text, formatted or not, are equal. */
  lemma PrintIsInjective(v: Json, w: Json, fmt: bool, fmt': bool)
    requires Printable(v) && Printable(w) && Print(v, 0, fmt) == Print(w, 0, fmt')
    ensures v == w
  {
    hide Print, Printable;
    Unformatted(v, w, fmt, fmt');
    var t, u := Print(v, 0, false), Print(w, 0, false);
    assert t + "" == t && u + "" == u;
    ValueUnique(v, w, 0, "", "");
  }

  lemma Unformatted(v: Json, w: Json, fmt: bool, fmt': bool)
    requires Printable(v) && Printable(w) && Print(v, 0, fmt) == Print(w, 0, fmt')
    ensures Print(v, 0, false) == Print(w, 0, false)
  {
    hide Print;
    MinifyText.MinifyPrint(v, fmt);
    MinifyText.MinifyPrint(w, fmt');
  }
}
