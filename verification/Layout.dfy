/** Where the blanks of formatted text stand: it is the unformatted text, passed once
    from left to right by a scanner that knows nothing of values, only of the
    brackets that are open. */
module Layout {
  import opened CText
  import opened JsonValue
  import opened Numeral
  import opened Escape
  import opened PrintText

  /** Outside a literal, inside one, or behind the backslash of an escape. */
  datatype Mode = Outside | Inside | Escaped

  /** The brackets that are open, the innermost one last. */
  datatype Place = Place(i: nat, open: seq<char>, mode: Mode)

  /** A line break and `n` tabs. */
  function Line(n: int): string {
    "\n" + seq(if n > 0 then n else 0, _ => '\t')
  }

  function Inner(open: seq<char>): char {
    if open == [] then '\0' else open[|open| - 1]
  }

  function Outer(open: seq<char>): seq<char> {
    if open == [] then [] else open[..|open| - 1]
  }

  /** What is written for the character at a place, and where the scanner is then. */
  datatype Step = Step(out: string, to: Place)

  /** Inside an object every member starts on a line of its own, with one tab for each
      bracket that is open, and its value stands one tab behind the colon; the closing
      brace stands on its own line with one tab less, and that of an empty object with
      two tabs less. Arrays stay on one line. Literals are copied. */
  function Next(s: string, p: Place): (r: Step)
    requires p.i < |s|
    ensures p.i < r.to.i <= |s|
  {
    var c, next, depth := s[p.i], p.i + 1, |p.open|;
    match p.mode
    case Escaped => Step([c], Place(next, p.open, Inside))
    case Inside => Step([c], Place(next, p.open, if c == '"' then Outside else if c == '\\' then Escaped else Inside))
    case Outside => (
      match c
      case '"' => Step([c], Place(next, p.open, Inside))
      case '[' => Step([c], Place(next, p.open + ['['], Outside))
      case ']' => Step([c], Place(next, Outer(p.open), Outside))
      case '{' =>
        if At(s, next) == '}' then Step("{" + (Line(depth - 1) + "}"), Place(next + 1, p.open, Outside))
        else Step("{" + Line(depth + 1), Place(next, p.open + ['{'], Outside))
      case '}' => Step(Line(depth - 1) + "}", Place(next, Outer(p.open), Outside))
      case ',' => Step("," + (if Inner(p.open) == '{' then Line(depth) else " "), Place(next, p.open, Outside))
      case ':' => Step(":\t", Place(next, p.open, Outside))
      case _ => Step([c], Place(next, p.open, Outside)))
  }

  /** The formatted text. */
  function Pretty(s: string, p: Place): string
    requires p.i <= |s|
    decreases |s| - p.i
  {
    if p.i == |s| then "" else var r := Next(s, p); r.out + Pretty(s, r.to)
  }

  // ----- stretches of the scan

  /** From one place to another the scanner writes `out`. */
  ghost predicate Writes(s: string, p: Place, out: string, q: Place) {
    p.i <= |s| && q.i <= |s| && Pretty(s, p) == out + Pretty(s, q)
  }

  lemma WritesBoth(s: string, p: Place, a: string, q: Place, b: string, r: Place, ab: string)
    requires Writes(s, p, a, q) && Writes(s, q, b, r) && ab == a + b
    ensures Writes(s, p, ab, r)
  {
    hide Pretty;
    Associate(a, b, Pretty(s, r));
  }

  lemma WritesNothing(s: string, p: Place)
    requires p.i <= |s|
    ensures Writes(s, p, "", p)
  {
    hide Pretty;
  }

  lemma WritesNext(s: string, p: Place)
    requires p.i < |s|
    ensures Writes(s, p, Next(s, p).out, Next(s, p).to)
  {
    hide Next;
  }

  lemma TabsAre(n: int)
    ensures Tabs(n) == seq(if n > 0 then n else 0, _ => '\t')
    decreases if n > 0 then n else 0
  {
    if n > 0 {
      TabsAre(n - 1);
    }
  }

  lemma LineIs(n: int)
    ensures Line(n) == "\n" + Tabs(n)
  {
    TabsAre(n);
  }

  predicate IsQuiet(c: char) {
    c != '"' && c != '[' && c != ']' && c != '{' && c != '}' && c != ',' && c != ':'
  }

  lemma {:induction false} CopiesQuiet(s: string, i: nat, t: string, open: seq<char>)
    requires Has(s, i, t) && forall k :: 0 <= k < |t| ==> IsQuiet(t[k])
    ensures Writes(s, Place(i, open, Outside), t, Place(i + |t|, open, Outside))
    decreases |t|
  {
    hide Pretty, Writes;
    if t == "" {
      assert i + |t| == i;
      WritesNothing(s, Place(i, open, Outside));
    } else {
      HasFirst(s, i, t);
      CopiesQuiet(s, i + 1, t[1..], open);
      CopiesOne(s, i, open);
      WritesBoth(s, Place(i, open, Outside), [t[0]], Place(i + 1, open, Outside), t[1..],
            Place(i + |t|, open, Outside), t);
    }
  }

  lemma CopiesOne(s: string, i: nat, open: seq<char>)
    requires i < |s| && IsQuiet(s[i])
    ensures Writes(s, Place(i, open, Outside), [s[i]], Place(i + 1, open, Outside))
  {
    hide Pretty, Writes;
    WritesNext(s, Place(i, open, Outside));
  }

  lemma {:induction false} DecimalQuiet(n: nat)
    ensures forall k :: 0 <= k < |Decimal(n)| ==> IsQuiet(Decimal(n)[k])
  {
    if n >= 10 {
      DecimalQuiet(n / 10);
    }
  }

  lemma IntTextQuiet(n: int)
    ensures forall k :: 0 <= k < |IntText(n)| ==> IsQuiet(IntText(n)[k])
  {
    DecimalQuiet(if n < 0 then -n else n);
    if n < 0 {
      assert IntText(n)[1..] == Decimal(-n);
    }
  }

  // ----- literals

  lemma InsideOne(s: string, i: nat, open: seq<char>)
    requires i < |s|
    ensures Writes(s, Place(i, open, Inside), [s[i]],
                   Place(i + 1, open, if s[i] == '"' then Outside else if s[i] == '\\' then Escaped else Inside))
    ensures Writes(s, Place(i, open, Escaped), [s[i]], Place(i + 1, open, Inside))
    ensures s[i] == '"' ==> Writes(s, Place(i, open, Outside), [s[i]], Place(i + 1, open, Inside))
  {
    hide Pretty, Writes;
    WritesNext(s, Place(i, open, Inside));
    WritesNext(s, Place(i, open, Escaped));
    WritesNext(s, Place(i, open, Outside));
  }

  lemma {:induction false} InsidePlain(s: string, i: nat, t: string, open: seq<char>)
    requires Has(s, i, t) && forall k :: 0 <= k < |t| ==> t[k] != '"' && t[k] != '\\'
    ensures Writes(s, Place(i, open, Inside), t, Place(i + |t|, open, Inside))
    decreases |t|
  {
    hide Pretty, Writes;
    if t == "" {
      assert i + |t| == i;
      WritesNothing(s, Place(i, open, Inside));
    } else {
      HasFirst(s, i, t);
      InsidePlain(s, i + 1, t[1..], open);
      InsideOne(s, i, open);
      WritesBoth(s, Place(i, open, Inside), [t[0]], Place(i + 1, open, Inside), t[1..], Place(i + |t|, open, Inside),
            t);
    }
  }

  lemma EscapeParts(c: char)
    ensures var t := EscapeChar(c);
            if IsPlain(c) then t == [c] && c != '"' && c != '\\'
            else |t| >= 2 && t[0] == '\\' && forall k :: 2 <= k < |t| ==> t[k] != '"' && t[k] != '\\'
  {
    if !IsPlain(c) && ShortEscape(c) == '\0' {
      assert EscapeChar(c) == ['\\', 'u', '0', '0', HexDigit(c as int / 16), HexDigit(c as int % 16)];
    }
  }

  lemma InsideEscape(s: string, i: nat, c: char, open: seq<char>)
    requires Has(s, i, EscapeChar(c))
    ensures Writes(s, Place(i, open, Inside), EscapeChar(c), Place(i + |EscapeChar(c)|, open, Inside))
  {
    hide Pretty, Writes;
    var t := EscapeChar(c);
    EscapeParts(c);
    hide EscapeChar;
    if IsPlain(c) {
      InsidePlain(s, i, t, open);
    } else {
      var u := t[2..];
      assert t == [t[0]] + ([t[1]] + u);
      HasThree(s, i, [t[0]], [t[1]], u, t);
      HasFirst(s, i, [t[0]]);
      HasFirst(s, i + 1, [t[1]]);
      InsideOne(s, i, open);
      InsideOne(s, i + 1, open);
      InsidePlain(s, i + 2, u, open);
      var end := Place(i + |t|, open, Inside);
      WritesBoth(s, Place(i + 1, open, Escaped), [t[1]], Place(i + 2, open, Inside), u, end, [t[1]] + u);
      WritesBoth(s, Place(i, open, Inside), [t[0]], Place(i + 1, open, Escaped), [t[1]] + u, end, t);
    }
  }

  lemma {:induction false} InsideAll(s: string, i: nat, x: string, open: seq<char>)
    requires Has(s, i, EscapeAll(x))
    ensures Writes(s, Place(i, open, Inside), EscapeAll(x), Place(i + |EscapeAll(x)|, open, Inside))
    decreases |x|
  {
    hide Pretty, Writes, EscapeChar, Has;
    if x == "" {
      assert i + |EscapeAll(x)| == i;
      Within(s, i, "");
      WritesNothing(s, Place(i, open, Inside));
    } else {
      var t, u := EscapeChar(x[0]), EscapeAll(x[1..]);
      HasConcat(s, i, t, u);
      InsideEscape(s, i, x[0], open);
      InsideAll(s, i + |t|, x[1..], open);
      WritesBoth(s, Place(i, open, Inside), t, Place(i + |t|, open, Inside), u, Place(i + |t| + |u|, open, Inside),
            t + u);
    }
  }

  lemma Within(s: string, i: nat, t: string)
    requires Has(s, i, t)
    ensures i + |t| <= |s|
  {
  }

  lemma CopiesQuote(s: string, i: nat, x: string, open: seq<char>)
    requires Has(s, i, Quote(x))
    ensures Writes(s, Place(i, open, Outside), Quote(x), Place(i + |Quote(x)|, open, Outside))
  {
    hide Pretty, Writes, EscapeAll, Has;
    var t := EscapeAll(x);
    assert Quote(x) == "\"" + (t + "\"");
    HasThree(s, i, "\"", t, "\"", Quote(x));
    hide Quote;
    var z := i + 1 + |t|;
    HasFirst(s, i, "\"");
    HasFirst(s, z, "\"");
    Within(s, z, "\"");
    InsideOne(s, i, open);
    InsideAll(s, i + 1, x, open);
    InsideOne(s, z, open);
    var end := Place(z + 1, open, Outside);
    WritesBoth(s, Place(i + 1, open, Inside), t, Place(z, open, Inside), "\"", end, t + "\"");
    WritesBoth(s, Place(i, open, Outside), "\"", Place(i + 1, open, Inside), t + "\"", end, Quote(x));
  }

  // ----- values

  /** The unformatted text of a value is laid out as its formatted text, at the depth
      of the brackets that are open. */
  lemma {:induction false} LaysOut(s: string, i: nat, v: Json, open: seq<char>)
    requires Has(s, i, Print(v, |open|, false))
    ensures Writes(s, Place(i, open, Outside), Print(v, |open|, true),
                   Place(i + |Print(v, |open|, false)|, open, Outside))
    decreases v, 0
  {
    hide Pretty, Writes, Quote, IntText, PrintItems, PrintMembers, Has, Tabs;
    match v
    case Num(d) =>
      IntTextQuiet(d.Floor);
      CopiesQuiet(s, i, IntText(d.Floor), open);
    case Str(x) => CopiesQuote(s, i, x, open);
    case Arr(items) => LaysArray(s, i, items, open);
    case Obj(members) =>
      if members == [] {
        LaysEmpty(s, i, open);
      } else {
        LaysObject(s, i, members, open);
      }
    case _ => CopiesQuiet(s, i, Print(v, |open|, false), open);
  }

  /** What the scanner writes at a mark. */
  lemma AtMark(s: string, i: nat, open: seq<char>)
    requires i < |s|
    ensures s[i] == '[' ==> Writes(s, Place(i, open, Outside), "[", Place(i + 1, open + ['['], Outside))
    ensures s[i] == ':' ==> Writes(s, Place(i, open, Outside), ":\t", Place(i + 1, open, Outside))
    ensures s[i] == ',' && Inner(open) != '{' ==> Writes(s, Place(i, open, Outside), ", ", Place(i + 1, open, Outside))
  {
    hide Pretty, Writes;
    assert "," + " " == ", ";
    WritesNext(s, Place(i, open, Outside));
  }

  lemma AtBracket(s: string, i: nat, open: seq<char>)
    requires i < |s| && s[i] == ']'
    ensures Writes(s, Place(i, open + ['['], Outside), "]", Place(i + 1, open, Outside))
  {
    hide Pretty, Writes;
    assert Outer(open + ['[']) == open;
    WritesNext(s, Place(i, open + ['['], Outside));
  }

  lemma AtOpening(s: string, i: nat, open: seq<char>)
    requires i < |s| && s[i] == '{' && At(s, i + 1) != '}'
    ensures Writes(s, Place(i, open, Outside), "{" + ("\n" + Tabs(|open| + 1)), Place(i + 1, open + ['{'], Outside))
  {
    hide Pretty, Writes, Line, Tabs;
    LineIs(|open| + 1);
    WritesNext(s, Place(i, open, Outside));
  }

  lemma AtClosing(s: string, i: nat, open: seq<char>)
    requires i < |s| && s[i] == '}'
    ensures Writes(s, Place(i, open + ['{'], Outside), "\n" + Tabs(|open|) + "}", Place(i + 1, open, Outside))
  {
    hide Pretty, Writes, Line, Tabs;
    LineIs(|open|);
    var inner := open + ['{'];
    assert Outer(inner) == open && |inner| - 1 == |open|;
    WritesNext(s, Place(i, inner, Outside));
  }

  lemma AtComma(s: string, i: nat, open: seq<char>)
    requires i < |s| && s[i] == ',' && Inner(open) == '{'
    ensures Writes(s, Place(i, open, Outside), "," + ("\n" + Tabs(|open|)), Place(i + 1, open, Outside))
  {
    hide Pretty, Writes, Line, Tabs;
    LineIs(|open|);
    WritesNext(s, Place(i, open, Outside));
  }

  lemma EmptyUnformatted(depth: nat)
    ensures Print(Obj([]), depth, false) == "{}"
  {
    assert "{" + ("" + "}") == "{}";
  }

  lemma LaysEmpty(s: string, i: nat, open: seq<char>)
    requires Has(s, i, Print(Obj([]), |open|, false))
    ensures Writes(s, Place(i, open, Outside), Print(Obj([]), |open|, true),
                   Place(i + |Print(Obj([]), |open|, false)|, open, Outside))
  {
    hide Pretty, Writes, Line, Tabs, Print;
    EmptyUnformatted(|open|);
    HasAt(s, i, "{}", 0);
    HasAt(s, i, "{}", 1);
    LineIs(|open| - 1);
    EmptyObjectText(|open|);
    Associate("\n", Tabs(|open| - 1), "}");
    WritesNext(s, Place(i, open, Outside));
  }

  lemma {:induction false} LaysArray(s: string, i: nat, items: seq<Json>, open: seq<char>)
    requires Has(s, i, Print(Arr(items), |open|, false))
    ensures Writes(s, Place(i, open, Outside), Print(Arr(items), |open|, true),
                   Place(i + |Print(Arr(items), |open|, false)|, open, Outside))
    decreases items, 2
  {
    hide Pretty, Writes, PrintItems, Has;
    var inner := open + ['['];
    var t, u := PrintItems(items, |open| + 1, false), PrintItems(items, |open| + 1, true);
    var all := Print(Arr(items), |open|, false);
    assert all == "[" + (t + "]");
    HasThree(s, i, "[", t, "]", all);
    var z := i + 1 + |t|;
    HasFirst(s, i, "[");
    HasFirst(s, z, "]");
    Within(s, z, "]");
    AtMark(s, i, open);
    AtBracket(s, z, open);
    LaysItems(s, i + 1, items, inner);
    WritesBoth(s, Place(i, open, Outside), "[", Place(i + 1, inner, Outside), u, Place(z, inner, Outside), "[" + u);
    WritesBoth(s, Place(i, open, Outside), "[" + u, Place(z, inner, Outside), "]", Place(z + 1, open, Outside),
          "[" + u + "]");
  }

  lemma {:induction false} LaysItems(s: string, i: nat, items: seq<Json>, open: seq<char>)
    requires Inner(open) == '[' && Has(s, i, PrintItems(items, |open|, false))
    ensures Writes(s, Place(i, open, Outside), PrintItems(items, |open|, true),
                   Place(i + |PrintItems(items, |open|, false)|, open, Outside))
    decreases items, 1
  {
    hide Pretty, Writes, Print, Has;
    var d := |open|;
    if items == [] {
      Within(s, i, "");
      WritesNothing(s, Place(i, open, Outside));
    } else {
      var t, c, rest := Print(items[0], d, false), Comma(|items| > 1, false), PrintItems(items[1..], d, false);
      var t', c', rest' := Print(items[0], d, true), Comma(|items| > 1, true), PrintItems(items[1..], d, true);
      HasThree(s, i, t, c, rest, PrintItems(items, d, false));
      LaysOut(s, i, items[0], open);
      var z := i + |t|;
      LaysComma(s, z, |items| > 1, open);
      LaysItems(s, z + |c|, items[1..], open);
      var end := Place(z + |c| + |rest|, open, Outside);
      WritesBoth(s, Place(z, open, Outside), c', Place(z + |c|, open, Outside), rest', end, c' + rest');
      WritesBoth(s, Place(i, open, Outside), t', Place(z, open, Outside), c' + rest', end, t' + (c' + rest'));
    }
  }

  lemma LaysComma(s: string, i: nat, more: bool, open: seq<char>)
    requires Inner(open) == '[' && Has(s, i, Comma(more, false))
    ensures Writes(s, Place(i, open, Outside), Comma(more, true), Place(i + |Comma(more, false)|, open, Outside))
  {
    hide Pretty, Writes;
    if more {
      HasFirst(s, i, ",");
      AtMark(s, i, open);
    } else {
      WritesNothing(s, Place(i, open, Outside));
    }
  }

  // ----- objects

  /** Formatted members without the tabs in front and the line break behind. */
  function Lines(members: seq<Member>, depth: nat): string
    requires members != []
    decreases members, 1
  {
    Quote(members[0].key) + (":\t" + (Print(members[0].val, depth, true)
      + if |members| > 1 then ("," + ("\n" + Tabs(depth))) + Lines(members[1..], depth) else ""))
  }

  lemma {:induction false} LinesOf(members: seq<Member>, depth: nat)
    requires members != []
    ensures PrintMembers(members, depth, true) == Tabs(depth) + (Lines(members, depth) + "\n")
    decreases |members|
  {
    hide Print, Quote, Tabs;
    var m, tabs := members[0], Tabs(depth);
    if |members| > 1 {
      LinesOf(members[1..], depth);
      Regroup(tabs, Quote(m.key), Print(m.val, depth, true), Lines(members[1..], depth));
    } else {
      assert members[1..] == [];
      RegroupLast(tabs, Quote(m.key), Print(m.val, depth, true));
    }
  }

  lemma Regroup(tabs: string, q: string, v: string, rest: string)
    ensures (tabs + (q + (":" + "\t"))) + (v + (("," + "\n") + (tabs + (rest + "\n"))))
         == tabs + ((q + (":\t" + (v + (("," + ("\n" + tabs)) + rest)))) + "\n")
  {
  }

  lemma RegroupLast(tabs: string, q: string, v: string)
    ensures (tabs + (q + (":" + "\t"))) + (v + (("" + "\n") + "")) == tabs + ((q + (":\t" + (v + ""))) + "\n")
  {
  }

  /** What follows the first member's unformatted text. */
  function Behind(members: seq<Member>, depth: nat): string
    requires members != []
  {
    if |members| > 1 then "," + PrintMembers(members[1..], depth, false) else ""
  }

  lemma MembersUnformatted(members: seq<Member>, depth: nat)
    requires members != []
    ensures PrintMembers(members, depth, false)
         == Quote(members[0].key) + (":" + (Print(members[0].val, depth, false) + Behind(members, depth)))
  {
    hide Print, Quote, Tabs;
    var q, v, rest := Quote(members[0].key), Print(members[0].val, depth, false),
          PrintMembers(members[1..], depth, false);
    if |members| == 1 {
      assert members[1..] == [];
    }
    RegroupKey(q, v, Opt(|members| > 1, ","), rest);
  }

  lemma RegroupKey(q: string, v: string, c: string, rest: string)
    ensures ("" + (q + (":" + ""))) + (v + ((c + "") + rest)) == q + (":" + (v + (c + rest)))
  {
  }

  /** A key, the colon, the value and what follows. */
  lemma KeyedParts(s: string, i: nat, q: string, v: string, rest: string, all: string)
    requires all == q + (":" + (v + rest)) && Has(s, i, all)
    ensures var c := i + |q|;
            && Has(s, i, q) && c < |s| && s[c] == ':' && Has(s, c + 1, v) && Has(s, c + 1 + |v|, rest)
            && i + |all| == c + 1 + |v| + |rest| <= |s|
  {
    hide Has;
    HasThree(s, i, q, ":", v + rest, all);
    var c := i + |q|;
    HasConcat(s, c + 1, v, rest);
    HasFirst(s, c, ":");
    Within(s, c, ":");
  }

  lemma WritesThree(s: string, p: Place, a: string, q: Place, b: string, r: Place, c: string, z: Place)
    requires Writes(s, p, a, q) && Writes(s, q, b, r) && Writes(s, r, c, z)
    ensures Writes(s, p, a + (b + c), z)
  {
    hide Writes;
    WritesBoth(s, q, b, r, c, z, b + c);
    WritesBoth(s, p, a, q, b + c, z, a + (b + c));
  }

  lemma {:induction false} LaysMembers(s: string, i: nat, members: seq<Member>, open: seq<char>)
    requires Inner(open) == '{' && members != [] && Has(s, i, PrintMembers(members, |open|, false))
    ensures Writes(s, Place(i, open, Outside), Lines(members, |open|),
                   Place(i + |PrintMembers(members, |open|, false)|, open, Outside))
    decreases members, 1
  {
    hide Pretty, Writes, Print, Has, PrintMembers, Quote, Tabs;
    var d, m, more := |open|, members[0], |members| > 1;
    MembersUnformatted(members, d);
    KeyedParts(s, i, Quote(m.key), Print(m.val, d, false), Behind(members, d), PrintMembers(members, d, false));
    var v := Print(m.val, d, true);
    var rest := if more then ("," + ("\n" + Tabs(d))) + Lines(members[1..], d) else "";
    var c := i + |Quote(m.key)|;
    var e := c + 1 + |Print(m.val, d, false)|;
    var end := Place(i + |PrintMembers(members, d, false)|, open, Outside);
    if more {
      LaysRest(s, e, members[1..], open);
    } else {
      WritesNothing(s, Place(e, open, Outside));
    }
    CopiesQuote(s, i, m.key, open);
    AtMark(s, c, open);
    LaysOut(s, c + 1, m.val, open);
    WritesThree(s, Place(c, open, Outside), ":\t", Place(c + 1, open, Outside), v, Place(e, open, Outside), rest, end);
    WritesBoth(s, Place(i, open, Outside), Quote(m.key), Place(c, open, Outside), ":\t" + (v + rest), end,
          Lines(members, d));
  }

  lemma {:induction false} LaysRest(s: string, e: nat, members: seq<Member>, open: seq<char>)
    requires Inner(open) == '{' && members != [] && Has(s, e, "," + PrintMembers(members, |open|, false))
    ensures Writes(s, Place(e, open, Outside), ("," + ("\n" + Tabs(|open|))) + Lines(members, |open|),
                   Place(e + 1 + |PrintMembers(members, |open|, false)|, open, Outside))
    decreases members, 2
  {
    hide Pretty, Writes, Has, PrintMembers, Tabs, Lines;
    var t, nl, u := PrintMembers(members, |open|, false), "," + ("\n" + Tabs(|open|)), Lines(members, |open|);
    HasConcat(s, e, ",", t);
    LaysNext(s, e, open);
    LaysMembers(s, e + 1, members, open);
    WritesBoth(s, Place(e, open, Outside), nl, Place(e + 1, open, Outside), u, Place(e + 1 + |t|, open, Outside),
          nl + u);
  }

  lemma LaysNext(s: string, e: nat, open: seq<char>)
    requires Inner(open) == '{' && Has(s, e, ",")
    ensures Writes(s, Place(e, open, Outside), "," + ("\n" + Tabs(|open|)), Place(e + 1, open, Outside))
  {
    hide Pretty, Writes, Tabs;
    HasFirst(s, e, ",");
    AtComma(s, e, open);
  }

  /** A nonempty object in place. */
  lemma ObjectParts(s: string, i: nat, members: seq<Member>, d: nat)
    requires members != [] && Has(s, i, Print(Obj(members), d, false))
    ensures var t := PrintMembers(members, d + 1, false);
            var z := i + 1 + |t|;
            && s[i] == '{' && At(s, i + 1) != '}' && Has(s, i + 1, t) && s[z] == '}'
            && i + |Print(Obj(members), d, false)| == z + 1 <= |s|
  {
    hide PrintMembers, Has, Quote, Tabs;
    var t, all := PrintMembers(members, d + 1, false), Print(Obj(members), d, false);
    UnformattedObject(members, d, t, all);
    HasThree(s, i, "{", t, "}", all);
    var z := i + 1 + |t|;
    HasFirst(s, i, "{");
    HasFirst(s, z, "}");
    Within(s, z, "}");
    Within(s, i, "{");
    MembersUnformatted(members, d + 1);
    HasFirst(s, i + 1, t);
  }

  lemma {:induction false} LaysObject(s: string, i: nat, members: seq<Member>, open: seq<char>)
    requires members != [] && Has(s, i, Print(Obj(members), |open|, false))
    ensures Writes(s, Place(i, open, Outside), Print(Obj(members), |open|, true),
                   Place(i + |Print(Obj(members), |open|, false)|, open, Outside))
    decreases members, 2
  {
    hide Pretty, Writes, PrintMembers, Has, Quote, Tabs, Lines, Print;
    var d, inner := |open|, open + ['{'];
    ObjectParts(s, i, members, d);
    var u := Lines(members, d + 1);
    var z := i + 1 + |PrintMembers(members, d + 1, false)|;
    AtOpening(s, i, open);
    AtClosing(s, z, open);
    LaysMembers(s, i + 1, members, inner);
    WritesThree(s, Place(i, open, Outside), "{" + ("\n" + Tabs(d + 1)), Place(i + 1, inner, Outside), u,
                Place(z, inner, Outside), "\n" + Tabs(d) + "}", Place(z + 1, open, Outside));
    LinesOf(members, d + 1);
    FormattedObject(members, d);
    RegroupBraces(Tabs(d + 1), u, Tabs(d));
  }

  lemma UnformattedObject(members: seq<Member>, d: nat, t: string, all: string)
    requires members != [] && all == Print(Obj(members), d, false) && t == PrintMembers(members, d + 1, false)
    ensures all == "{" + (t + "}")
  {
    hide PrintMembers, Tabs;
    assert t + ("" + "}") == t + "}";
    assert "" + (t + "}") == t + "}";
  }

  lemma RegroupBraces(tabs: string, u: string, last: string)
    ensures ("{" + ("\n" + tabs)) + (u + ("\n" + last + "}")) == "{" + ("\n" + ((tabs + (u + "\n")) + (last + "}")))
  {
  }

  /** cJSON_Print is the layout of cJSON_PrintUnformatted, for every value. */
  lemma PrintLaysOut(v: Json)
    ensures Print(v, 0, true) == Pretty(Print(v, 0, false), Place(0, [], Outside))
  {
    hide Print;
    var t := Print(v, 0, false);
    LaysOut(t, 0, v, []);
  }
}
