/** Exactly which texts the parser takes, and how much of them: brackets, commas,
    colons and blanks spelled out around the slices that parse_string and
    parse_number read. */
module JsonLax {
  import opened CText
  import opened JsonValue
  import opened Numeral
  import opened Unescaping
  import opened ParseText
  import RoundTrip

  /** What stands in the text. A leaf is a literal or a numeral as it is written,
      with the value read from it. */
  datatype Lax =
    | Word(v: Json)
    | Leaf(text: string, v: Json)
    | Array(blank: string, items: seq<Item>)
    | Object(blank: string, members: seq<Pair>)

  datatype Item = Item(before: string, val: Lax, after: string)

  /** `key` is a leaf. */
  datatype Pair = Pair(before: string, key: Lax, colon: string, mid: string, val: Lax, after: string)

  function LaxText(x: Lax): string
    decreases x, 0
  {
    match x
    case Word(v) => if v.Null? then "null" else if v.False? then "false" else "true"
    case Leaf(text, _) => text
    case Array(blank, items) => "[" + ((if items == [] then blank else ItemsText(items)) + "]")
    case Object(blank, members) => "{" + ((if members == [] then blank else PairsText(members)) + "}")
  }

  function ItemsText(items: seq<Item>): string
    decreases items, 1
  {
    if items == [] then ""
    else ItemText(items[0]) + (if |items| > 1 then "," + ItemsText(items[1..]) else "")
  }

  function ItemText(it: Item): string
    decreases it, 0
  {
    it.before + (LaxText(it.val) + it.after)
  }

  function PairsText(ps: seq<Pair>): string
    decreases ps, 1
  {
    if ps == [] then ""
    else PairText(ps[0]) + (if |ps| > 1 then "," + PairsText(ps[1..]) else "")
  }

  function KeyText(p: Pair): string
    decreases p, 0
  {
    p.before + (LaxText(p.key) + (p.colon + (":" + p.mid)))
  }

  function PairText(p: Pair): string
    decreases p, 1
  {
    KeyText(p) + (LaxText(p.val) + p.after)
  }

  function LaxValue(x: Lax): Json
    decreases x, 0
  {
    match x
    case Word(v) => v
    case Leaf(_, v) => v
    case Array(_, items) => Arr(ItemsValue(items))
    case Object(_, members) => Obj(PairsValue(members))
  }

  function ItemsValue(items: seq<Item>): seq<Json>
    decreases items, 1
  {
    if items == [] then [] else [LaxValue(items[0].val)] + ItemsValue(items[1..])
  }

  function PairsValue(ps: seq<Pair>): seq<Member>
    decreases ps, 1
  {
    if ps == [] then []
    else
      var key := LaxValue(ps[0].key);
      [Member(if key.Str? then key.s else "", LaxValue(ps[0].val))] + PairsValue(ps[1..])
  }

  /** The blanks parse skips. */
  predicate Blank(t: string) {
    forall k :: 0 <= k < |t| ==> '\0' < t[k] <= ' '
  }

  predicate IsLiteral(s: string, i: nat, x: Lax)
    requires i <= |s|
  {
    x.Leaf? && x.v.Str? && ParseString(s, i) == Ok(x.v.s, i + |x.text|)
  }

  predicate IsNumeral(s: string, i: nat, x: Lax)
    requires i <= |s|
  {
    && x.Leaf? && (At(s, i) == '-' || '0' <= At(s, i) <= '9')
    && x.v == Num(ParseNumber(s, i).d) && ParseNumber(s, i).end == i + |x.text|
  }

  /** `x` stands at `i` of `s`. */
  predicate LaxAt(s: string, i: nat, x: Lax)
    decreases x, 0
  {
    && Has(s, i, LaxText(x))
    && match x
       case Word(v) => v.Null? || v.False? || v.True?
       case Leaf(_, _) => IsLiteral(s, i, x) || IsNumeral(s, i, x)
       case Array(blank, items) => Blank(blank) && ItemsAt(s, i + 1, items)
       case Object(blank, members) => Blank(blank) && PairsAt(s, i + 1, members)
  }

  predicate ItemsAt(s: string, i: nat, items: seq<Item>)
    decreases items, 1
  {
    items == [] ||
    (&& Blank(items[0].before) && LaxAt(s, i + |items[0].before|, items[0].val) && Blank(items[0].after)
     && ItemsAt(s, i + |ItemText(items[0])| + 1, items[1..]))
  }

  predicate PairsAt(s: string, i: nat, ps: seq<Pair>)
    decreases ps, 1
  {
    ps == [] ||
    var p := ps[0];
    && Blank(p.before) && i + |p.before| <= |s| && IsLiteral(s, i + |p.before|, p.key)
    && Blank(p.colon) && Blank(p.mid) && LaxAt(s, i + |KeyText(p)|, p.val) && Blank(p.after)
    && PairsAt(s, i + |PairText(p)| + 1, ps[1..])
  }

  // ----- blanks

  lemma {:induction false} BlankIs(t: string)
    ensures AllBlank(t) <==> Blank(t)
    decreases |t|
  {
    if t != "" {
      BlankIs(t[1..]);
      BlankUnfold(t);
    }
  }

  lemma BlankUnfold(t: string)
    requires t != ""
    ensures Blank(t) <==> '\0' < t[0] <= ' ' && Blank(t[1..])
  {
    if '\0' < t[0] <= ' ' && Blank(t[1..]) {
      forall k | 0 <= k < |t|
        ensures '\0' < t[k] <= ' '
      {
        if k > 0 {
          assert t[k] == t[1..][k - 1];
        }
      }
    }
  }

  /** `skip` stops at the first character that is no blank. */
  lemma {:induction false} SkipExact(s: string, i: nat)
    requires i <= |s|
    ensures i <= Skip(s, i) <= |s| && Blank(s[i..Skip(s, i)])
    ensures At(s, Skip(s, i)) == '\0' || At(s, Skip(s, i)) > ' '
    decreases |s| - i
  {
    if '\0' < At(s, i) <= ' ' {
      SkipExact(s, i + 1);
      var t, u := s[i..Skip(s, i)], s[i + 1..Skip(s, i)];
      assert t == [s[i]] + u;
    }
  }

  // ----- what is accepted has the syntax

  lemma SliceStands(s: string, i: nat, j: nat)
    requires i <= j <= |s|
    ensures Has(s, i, s[i..j]) && |s[i..j]| == j - i
  {
  }

  lemma MarkStands(s: string, i: nat, c: char)
    requires i < |s| && s[i] == c
    ensures Has(s, i, [c])
  {
  }

  lemma ReadsLeaf(s: string, i: nat, x: Lax)
    requires i <= |s| && ParseValue(s, i).Ok? && At(s, i) != '[' && At(s, i) != '{'
    requires var p := ParseValue(s, i);
             x == if p.value.Str? || p.value.Num? then Leaf(s[i..p.end], p.value) else Word(p.value)
    ensures LaxAt(s, i, x) && ParseValue(s, i) == Ok(LaxValue(x), i + |LaxText(x)|)
  {
    hide ParseString, ParseNumber, Skip;
    SliceStands(s, i, ParseValue(s, i).end);
  }

  lemma Surrounded(s: string, i: nat, open: string, t: string, close: string)
    requires Has(s, i, open) && Has(s, i + |open|, t) && Has(s, i + |open| + |t|, close)
    ensures Has(s, i, open + (t + close))
  {
    HasConcat(s, i + |open|, t, close);
    HasConcat(s, i, open, t + close);
  }

  /** A nonempty list is taken apart into its first item and the rest. */
  lemma ItemsCons(it: Item, rest: seq<Item>)
    ensures var all := [it] + rest;
            && ItemsText(all) == ItemText(it) + (if rest == [] then "" else "," + ItemsText(rest))
            && ItemsValue(all) == [LaxValue(it.val)] + ItemsValue(rest)
            && (rest == [] ==> ItemsValue(all) == [LaxValue(it.val)])
  {
    hide ItemText, LaxValue;
    var all := [it] + rest;
    assert all[0] == it && all[1..] == rest;
  }

  lemma ItemsAtCons(s: string, i: nat, it: Item, rest: seq<Item>)
    requires Blank(it.before) && LaxAt(s, i + |it.before|, it.val) && Blank(it.after)
    requires ItemsAt(s, i + |ItemText(it)| + 1, rest)
    ensures ItemsAt(s, i, [it] + rest)
  {
    hide ItemText, LaxAt, Blank;
    var all := [it] + rest;
    assert all[0] == it && all[1..] == rest;
  }

  lemma ItemStands(s: string, i: nat, it: Item)
    requires Has(s, i, it.before) && Has(s, i + |it.before|, LaxText(it.val))
    requires Has(s, i + |it.before| + |LaxText(it.val)|, it.after)
    ensures Has(s, i, ItemText(it)) && |ItemText(it)| == |it.before| + |LaxText(it.val)| + |it.after|
  {
    hide LaxText;
    Surrounded(s, i, it.before, LaxText(it.val), it.after);
  }

  /** One turn of the array loop in whatever text stands there. */
  lemma ItemsRead(s: string, k: nat)
    requires k <= |s| && ParseItems(s, k).Ok?
    ensures var v := ParseValue(s, Skip(s, k));
            && v.Ok?
            && var j := Skip(s, v.end);
               && j < |s| && (s[j] == ',' || s[j] == ']')
               && (s[j] == ']' ==> ParseItems(s, k) == Ok([v.value], j + 1))
               && (s[j] == ',' ==> var r := ParseItems(s, j + 1);
                                   r.Ok? && ParseItems(s, k) == Ok([v.value] + r.value, r.end))
  {
    hide ParseValue, Skip;
  }

  lemma {:induction false} ValueHasSyntax(s: string, i: nat) returns (x: Lax)
    requires i <= |s| && ParseValue(s, i).Ok?
    ensures LaxAt(s, i, x) && ParseValue(s, i) == Ok(LaxValue(x), i + |LaxText(x)|)
    decreases |s| - i, 0
  {
    hide ParseValue, ParseArray, ParseObject, LaxAt, LaxText, LaxValue;
    var p := ParseValue(s, i);
    if At(s, i) == '[' {
      RoundTrip.EntersArray(s, i);
      x := ArrayHasSyntax(s, i);
    } else if At(s, i) == '{' {
      RoundTrip.EntersObject(s, i);
      x := ObjectHasSyntax(s, i);
    } else {
      x := if p.value.Str? || p.value.Num? then Leaf(s[i..p.end], p.value) else Word(p.value);
      ReadsLeaf(s, i, x);
    }
  }

  lemma {:induction false} ItemsHaveSyntax(s: string, k: nat) returns (items: seq<Item>)
    requires k <= |s| && ParseItems(s, k).Ok?
    ensures items != [] && Has(s, k, ItemsText(items)) && At(s, k + |ItemsText(items)|) == ']' && ItemsAt(s, k, items)
    ensures ParseItems(s, k) == Ok(ItemsValue(items), k + |ItemsText(items)| + 1)
    decreases |s| - k, 1
  {
    hide ParseValue, ParseItems, Skip, LaxAt, LaxText, LaxValue, Has, ItemsAt, ItemsText, ItemsValue, Blank, ItemText;
    ItemsRead(s, k);
    var i := Skip(s, k);
    var x := ValueHasSyntax(s, i);
    var e := i + |LaxText(x)|;
    var j := Skip(s, e);
    var it := Item(s[k..i], x, s[e..j]);
    LaxStands(s, i, x);
    FirstStands(s, k, i, e, j, it);
    var rest: seq<Item> := [];
    if s[j] == ',' {
      rest := ItemsHaveSyntax(s, j + 1);
    }
    ItemsCons(it, rest);
    items := [it] + rest;
    NoItems(s, j + 1);
    ItemsAtCons(s, k, it, rest);
    ListStands(s, k, ItemText(it), j, ItemsText(rest), rest != [], ItemsText(items), ']');
  }

  lemma ListStands(s: string, k: nat, t: string, j: nat, rest: string, more: bool, all: string, close: char)
    requires Has(s, k, t) && j == k + |t| < |s| && all == t + (if more then "," + rest else "")
    requires if more then s[j] == ',' && Has(s, j + 1, rest) && At(s, j + 1 + |rest|) == close else s[j] == close
    ensures Has(s, k, all) && At(s, k + |all|) == close
    ensures |all| == |t| + (if more then 1 + |rest| else 0)
  {
    if more {
      AfterComma(s, k, t, j, rest);
    } else {
      assert all == t;
    }
  }

  lemma NoItems(s: string, k: nat)
    ensures ItemsValue([]) == [] && ItemsAt(s, k, []) && Blank("")
  {
  }

  lemma FirstStands(s: string, k: nat, i: nat, e: nat, j: nat, it: Item)
    requires k <= |s| && i == Skip(s, k) && i <= e <= |s| && j == Skip(s, e)
    requires it.before == s[k..i] && it.after == s[e..j] && Has(s, i, LaxText(it.val)) && e == i + |LaxText(it.val)|
    ensures Blank(it.before) && Blank(it.after) && |it.before| == i - k
    ensures Has(s, k, ItemText(it)) && k + |ItemText(it)| == j
  {
    hide LaxText, Skip, Blank, ItemText;
    SkipExact(s, k);
    SkipExact(s, e);
    SliceStands(s, k, i);
    SliceStands(s, e, j);
    ItemStands(s, k, it);
  }

  lemma AfterComma(s: string, k: nat, t: string, j: nat, rest: string)
    requires Has(s, k, t) && j == k + |t| < |s| && s[j] == ',' && Has(s, j + 1, rest)
    ensures Has(s, k, t + ("," + rest)) && k + |t + ("," + rest)| == j + 1 + |rest|
  {
    MarkStands(s, j, ',');
    Surrounded(s, k, t, ",", rest);
  }

  lemma {:induction false} ArrayHasSyntax(s: string, i: nat) returns (x: Lax)
    requires i < |s| && s[i] == '[' && ParseArray(s, i).Ok?
    ensures LaxAt(s, i, x) && ParseArray(s, i) == Ok(LaxValue(x), i + |LaxText(x)|)
    decreases |s| - i - 1, 2
  {
    hide ParseItems, Skip, Has, ItemsAt, ItemsText, ItemsValue, Blank, LaxText, LaxAt;
    var j := Skip(s, i + 1);
    SkipExact(s, i + 1);
    SliceStands(s, i + 1, j);
    var blank := s[i + 1..j];
    MarkStands(s, i, '[');
    NoItems(s, i + 1);
    if At(s, j) == ']' {
      MarkStands(s, j, ']');
      x := Array(blank, []);
      ArrayStands(s, i, blank, [], blank);
    } else {
      SameItems(s, i + 1);
      var items := ItemsHaveSyntax(s, i + 1);
      MarkStands(s, i + 1 + |ItemsText(items)|, ']');
      x := Array("", items);
      ArrayStands(s, i, "", items, ItemsText(items));
    }
  }

  lemma SameItems(s: string, k: nat)
    requires k <= |s|
    ensures ParseItems(s, Skip(s, k)) == ParseItems(s, k)
  {
    hide ParseValue;
  }

  lemma ArrayStands(s: string, i: nat, blank: string, items: seq<Item>, t: string)
    requires t == (if items == [] then blank else ItemsText(items)) && Blank(blank) && ItemsAt(s, i + 1, items)
    requires Has(s, i, "[") && Has(s, i + 1, t) && Has(s, i + 1 + |t|, "]")
    ensures LaxAt(s, i, Array(blank, items)) && |LaxText(Array(blank, items))| == |t| + 2
    ensures LaxValue(Array(blank, items)) == Arr(ItemsValue(items))
  {
    hide ItemsAt, ItemsText, Blank, Has, ItemsValue;
    Surrounded(s, i, "[", t, "]");
    assert LaxText(Array(blank, items)) == "[" + (t + "]");
  }

  lemma PairsCons(p: Pair, rest: seq<Pair>)
    requires p.key.Leaf? && p.key.v.Str?
    ensures var all := [p] + rest;
            && PairsText(all) == PairText(p) + (if rest == [] then "" else "," + PairsText(rest))
            && PairsValue(all) == [Member(p.key.v.s, LaxValue(p.val))] + PairsValue(rest)
            && (rest == [] ==> PairsValue(all) == [Member(p.key.v.s, LaxValue(p.val))])
  {
    hide PairText;
    var all := [p] + rest;
    assert all[0] == p && all[1..] == rest;
  }

  lemma PairsAtCons(s: string, i: nat, p: Pair, rest: seq<Pair>)
    requires Blank(p.before) && i + |p.before| <= |s| && IsLiteral(s, i + |p.before|, p.key)
    requires Blank(p.colon) && Blank(p.mid) && LaxAt(s, i + |KeyText(p)|, p.val) && Blank(p.after)
    requires PairsAt(s, i + |PairText(p)| + 1, rest)
    ensures PairsAt(s, i, [p] + rest)
  {
    hide PairText, KeyText, LaxAt, Blank, IsLiteral;
    var all := [p] + rest;
    assert all[0] == p && all[1..] == rest;
  }

  /** One turn of the object loop in whatever text stands there. */
  lemma MembersRead(s: string, k: nat)
    requires k <= |s| && ParseMembers(s, k).Ok?
    ensures var m := ParseMember(s, k);
            && m.Ok?
            && var j := Skip(s, m.end);
               && j < |s| && (s[j] == ',' || s[j] == '}')
               && (s[j] == '}' ==> ParseMembers(s, k) == Ok([m.value], j + 1))
               && (s[j] == ',' ==> var r := ParseMembers(s, j + 1);
                                   r.Ok? && ParseMembers(s, k) == Ok([m.value] + r.value, r.end))
  {
    hide ParseMember, Skip;
  }

  lemma MemberRead(s: string, k: nat)
    requires k <= |s| && ParseMember(s, k).Ok?
    ensures var q := Skip(s, k);
            var key := ParseString(s, q);
            && key.Ok?
            && var c := Skip(s, key.end);
               && c < |s| && s[c] == ':'
               && var v := ParseValue(s, Skip(s, c + 1));
                  v.Ok? && ParseMember(s, k) == Ok(Member(key.value, v.value), v.end)
  {
    hide ParseString, ParseValue, Skip;
  }

  lemma KeyStands(s: string, k: nat, q: nat, e: nat, c: nat, v: nat, p: Pair)
    requires k <= q <= e <= c < v <= |s| && s[c] == ':' && p.key.Leaf?
    requires p.before == s[k..q] && p.key.text == s[q..e] && p.colon == s[e..c] && p.mid == s[c + 1..v]
    ensures Has(s, k, KeyText(p)) && k + |KeyText(p)| == v
  {
    hide Has;
    SliceStands(s, k, q);
    SliceStands(s, q, e);
    SliceStands(s, e, c);
    MarkStands(s, c, ':');
    SliceStands(s, c + 1, v);
    Surrounded(s, e, p.colon, ":", p.mid);
    Surrounded(s, k, p.before, p.key.text, p.colon + (":" + p.mid));
  }

  lemma PairStands(s: string, k: nat, p: Pair, v: nat, e: nat, j: nat)
    requires Has(s, k, KeyText(p)) && v == k + |KeyText(p)| && Has(s, v, LaxText(p.val)) && e == v + |LaxText(p.val)|
    requires e <= j <= |s| && p.after == s[e..j]
    ensures Has(s, k, PairText(p)) && k + |PairText(p)| == j
  {
    hide KeyText, LaxText;
    SliceStands(s, e, j);
    Surrounded(s, k, KeyText(p), LaxText(p.val), p.after);
  }

  /** The member the parser reads, without what follows its value. */
  lemma {:induction false} MemberHasSyntax(s: string, k: nat) returns (p: Pair)
    requires k <= |s| && ParseMember(s, k).Ok?
    ensures Blank(p.before) && k + |p.before| <= |s| && IsLiteral(s, k + |p.before|, p.key)
    ensures Blank(p.colon) && Blank(p.mid) && LaxAt(s, k + |KeyText(p)|, p.val) && Has(s, k, KeyText(p))
    ensures ParseMember(s, k) == Ok(Member(p.key.v.s, LaxValue(p.val)), k + |KeyText(p)| + |LaxText(p.val)|)
    decreases |s| - k, 0
  {
    hide ParseMember, ParseString, ParseValue, Skip, Blank, LaxAt, LaxText, LaxValue, Has, KeyText;
    MemberRead(s, k);
    var q := Skip(s, k);
    var key := ParseString(s, q);
    var c := Skip(s, key.end);
    var v := Skip(s, c + 1);
    SkipExact(s, k);
    SkipExact(s, key.end);
    SkipExact(s, c + 1);
    var x := ValueHasSyntax(s, v);
    p := Pair(s[k..q], Leaf(s[q..key.end], Str(key.value)), s[key.end..c], s[c + 1..v], x, "");
    KeyStands(s, k, q, key.end, c, v, p);
  }

  lemma {:induction false} MembersHaveSyntax(s: string, k: nat) returns (ps: seq<Pair>)
    requires k <= |s| && ParseMembers(s, k).Ok?
    ensures ps != [] && Has(s, k, PairsText(ps)) && At(s, k + |PairsText(ps)|) == '}' && PairsAt(s, k, ps)
    ensures ParseMembers(s, k) == Ok(PairsValue(ps), k + |PairsText(ps)| + 1)
    decreases |s| - k, 1
  {
    hide ParseMember, ParseMembers, Skip, LaxAt, LaxText, LaxValue, Has, PairsAt, PairsText, PairsValue, Blank,
          PairText;
    hide KeyText, ParseString;
    MembersRead(s, k);
    var q := MemberHasSyntax(s, k);
    var v := k + |KeyText(q)|;
    var e := v + |LaxText(q.val)|;
    var j := Skip(s, e);
    SkipExact(s, e);
    var p := Pair(q.before, q.key, q.colon, q.mid, q.val, s[e..j]);
    SameKey(p, q);
    LaxStands(s, v, q.val);
    PairStands(s, k, p, v, e, j);
    var rest: seq<Pair> := [];
    if s[j] == ',' {
      rest := MembersHaveSyntax(s, j + 1);
    }
    PairsCons(p, rest);
    ps := [p] + rest;
    NoPairs(s, j + 1);
    PairsAtCons(s, k, p, rest);
    ListStands(s, k, PairText(p), j, PairsText(rest), rest != [], PairsText(ps), '}');
  }

  lemma SameKey(p: Pair, q: Pair)
    requires p.before == q.before && p.key == q.key && p.colon == q.colon && p.mid == q.mid
    ensures KeyText(p) == KeyText(q)
  {
  }

  lemma LaxStands(s: string, i: nat, x: Lax)
    requires LaxAt(s, i, x)
    ensures Has(s, i, LaxText(x))
  {
    hide LaxText;
  }

  lemma NoPairs(s: string, k: nat)
    ensures PairsValue([]) == [] && PairsAt(s, k, []) && Blank("")
  {
  }

  lemma {:induction false} ObjectHasSyntax(s: string, i: nat) returns (x: Lax)
    requires i < |s| && s[i] == '{' && ParseObject(s, i).Ok?
    ensures LaxAt(s, i, x) && ParseObject(s, i) == Ok(LaxValue(x), i + |LaxText(x)|)
    decreases |s| - i - 1, 2
  {
    hide ParseMembers, Skip, Has, PairsAt, PairsText, PairsValue, Blank, LaxText, LaxAt;
    var j := Skip(s, i + 1);
    SkipExact(s, i + 1);
    SliceStands(s, i + 1, j);
    var blank := s[i + 1..j];
    MarkStands(s, i, '{');
    NoPairs(s, i + 1);
    if At(s, j) == '}' {
      MarkStands(s, j, '}');
      x := Object(blank, []);
      ObjectStands(s, i, blank, [], blank);
    } else {
      SameMembers(s, i + 1);
      var ps := MembersHaveSyntax(s, i + 1);
      MarkStands(s, i + 1 + |PairsText(ps)|, '}');
      x := Object("", ps);
      ObjectStands(s, i, "", ps, PairsText(ps));
    }
  }

  lemma SameMembers(s: string, k: nat)
    requires k <= |s|
    ensures ParseMembers(s, Skip(s, k)) == ParseMembers(s, k)
  {
    hide ParseValue, ParseString;
  }

  lemma ObjectStands(s: string, i: nat, blank: string, ps: seq<Pair>, t: string)
    requires t == (if ps == [] then blank else PairsText(ps)) && Blank(blank) && PairsAt(s, i + 1, ps)
    requires Has(s, i, "{") && Has(s, i + 1, t) && Has(s, i + 1 + |t|, "}")
    ensures LaxAt(s, i, Object(blank, ps)) && |LaxText(Object(blank, ps))| == |t| + 2
    ensures LaxValue(Object(blank, ps)) == Obj(PairsValue(ps))
  {
    hide PairsAt, PairsText, Blank, Has, PairsValue;
    Surrounded(s, i, "{", t, "}");
    assert LaxText(Object(blank, ps)) == "{" + (t + "}");
  }

  // ----- what has the syntax is accepted

  lemma LaxStart(s: string, i: nat, x: Lax)
    requires LaxAt(s, i, x)
    ensures i < |s| && Skip(s, i) == i && s[i] != ']' && s[i] != '}'
  {
    hide Scan, Decode, ParseNumber, ItemsAt, PairsAt;
    if !x.Leaf? {
      HasFirst(s, i, LaxText(x));
    }
  }

  lemma LeafIsRead(s: string, i: nat, x: Lax)
    requires LaxAt(s, i, x) && !x.Array? && !x.Object?
    ensures ParseValue(s, i) == Ok(LaxValue(x), i + |LaxText(x)|)
  {
    hide Scan, Decode, ParseNumber;
    if x.Word? {
      HasFirst(s, i, LaxText(x));
      if Has(s, i, "null") { HasFirst(s, i, "null"); }
      if Has(s, i, "false") { HasFirst(s, i, "false"); }
    } else {
      RoundTrip.NotLiteral(s, i);
    }
  }

  lemma BlankSkipped(s: string, i: nat, t: string)
    requires Has(s, i, t) && Blank(t)
    ensures i + |t| <= |s| && Skip(s, i) == Skip(s, i + |t|)
  {
    hide Blank;
    BlankIs(t);
    SkipOver(s, i, t);
  }

  lemma {:induction false} SyntaxIsRead(s: string, i: nat, x: Lax)
    requires LaxAt(s, i, x)
    ensures i <= |s| && ParseValue(s, i) == Ok(LaxValue(x), i + |LaxText(x)|)
    decreases x, 1
  {
    hide ParseValue, ItemsAt, PairsAt, ItemsText, PairsText, IsLiteral, IsNumeral;
    match x
    case Array(blank, items) => ArrayIsRead(s, i, x);
    case Object(blank, ps) => ObjectIsRead(s, i, x);
    case _ => LeafIsRead(s, i, x);
  }

  lemma {:induction false} ArrayIsRead(s: string, i: nat, x: Lax)
    requires x.Array? && LaxAt(s, i, x)
    ensures i <= |s| && ParseValue(s, i) == Ok(LaxValue(x), i + |LaxText(x)|)
    decreases x, 0
  {
    hide ParseValue, ParseItems, ItemsAt, ItemsText, ItemsValue, Blank, Has, Skip;
    var t := if x.items == [] then x.blank else ItemsText(x.items);
    Around(s, i, "[", t, "]", LaxText(x));
    RoundTrip.EntersArray(s, i);
    if x.items == [] {
      BlankSkipped(s, i + 1, t);
      StaysPut(s, i + 1 + |t|);
      NoItems(s, i);
    } else {
      ItemsAreRead(s, i + 1, x.items);
      SameItems(s, i + 1);
      ItemsOpen(s, i + 1, x.items);
    }
  }

  lemma Around(s: string, i: nat, open: string, t: string, close: string, all: string)
    requires all == open + (t + close) && |open| == |close| == 1 && Has(s, i, all)
    ensures i + |all| <= |s| && |all| == |t| + 2 && At(s, i) == open[0]
    ensures Has(s, i + 1, t) && At(s, i + 1 + |t|) == close[0]
  {
    HasThree(s, i, open, t, close, all);
    HasFirst(s, i, open);
    HasFirst(s, i + 1 + |t|, close);
  }

  /** The first item in place. */
  lemma ItemsOpen(s: string, i: nat, items: seq<Item>)
    requires items != [] && ItemsAt(s, i, items) && Has(s, i, ItemsText(items))
    ensures var x := items[0];
            var v := i + |x.before|;
            var e := v + |LaxText(x.val)|;
            var c := e + |x.after|;
            && LaxAt(s, v, x.val) && i <= |s| && Skip(s, i) == v < |s| && At(s, v) != ']'
            && c <= |s| && Skip(s, e) == Skip(s, c)
            && (if |items| > 1 then ItemsAt(s, c + 1, items[1..]) && At(s, c) == ',' && Has(s, c + 1, ItemsText(items[1..]))
                                    && |ItemsText(items)| == c - i + 1 + |ItemsText(items[1..])|
                else |ItemsText(items)| == c - i)
  {
    hide LaxAt, LaxText, Blank, Has, Skip, LaxValue;
    var x := items[0];
    var rest := if |items| > 1 then "," + ItemsText(items[1..]) else "";
    HasConcat(s, i, ItemText(x), rest);
    HasThree(s, i, x.before, LaxText(x.val), x.after, ItemText(x));
    BlankSkipped(s, i, x.before);
    LaxStart(s, i + |x.before|, x.val);
    BlankSkipped(s, i + |x.before| + |LaxText(x.val)|, x.after);
    if |items| > 1 {
      NextStands(s, i + |ItemText(x)|, ItemsText(items[1..]));
    }
  }

  lemma NextStands(s: string, c: nat, t: string)
    requires Has(s, c, "," + t)
    ensures c < |s| && At(s, c) == ',' && Has(s, c + 1, t)
  {
    HasConcat(s, c, ",", t);
    HasFirst(s, c, ",");
  }

  lemma {:induction false} ItemsAreRead(s: string, i: nat, items: seq<Item>)
    requires items != [] && ItemsAt(s, i, items) && Has(s, i, ItemsText(items)) && At(s, i + |ItemsText(items)|) == ']'
    ensures i <= |s| && ParseItems(s, i) == Ok(ItemsValue(items), i + |ItemsText(items)| + 1)
    decreases items, 1
  {
    hide ParseValue, ParseItems, ItemsAt, ItemsText, ItemsValue, Blank, Has, Skip, LaxAt, LaxText, LaxValue;
    ItemsOpen(s, i, items);
    var x := items[0];
    assert items == [x] + items[1..];
    ItemsCons(x, items[1..]);
    var v := i + |x.before|;
    var e := v + |LaxText(x.val)|;
    StaysPut(s, e + |x.after|);
    SyntaxIsRead(s, v, x.val);
    if |items| > 1 {
      ItemsAreRead(s, e + |x.after| + 1, items[1..]);
      RoundTrip.ItemsStep(s, i, LaxValue(x.val), e, ItemsValue(items[1..]));
    } else {
      RoundTrip.ItemsStep(s, i, LaxValue(x.val), e, []);
    }
  }

  lemma {:induction false} ObjectIsRead(s: string, i: nat, x: Lax)
    requires x.Object? && LaxAt(s, i, x)
    ensures i <= |s| && ParseValue(s, i) == Ok(LaxValue(x), i + |LaxText(x)|)
    decreases x, 0
  {
    hide ParseValue, ParseMembers, PairsAt, PairsText, PairsValue, Blank, Has, Skip;
    var t := if x.members == [] then x.blank else PairsText(x.members);
    Around(s, i, "{", t, "}", LaxText(x));
    RoundTrip.EntersObject(s, i);
    if x.members == [] {
      BlankSkipped(s, i + 1, t);
      StaysPut(s, i + 1 + |t|);
      NoPairs(s, i);
    } else {
      PairsAreRead(s, i + 1, x.members);
      SameMembers(s, i + 1);
      PairsOpen(s, i + 1, x.members);
    }
  }

  /** The first member in place. */
  lemma PairsOpen(s: string, i: nat, ps: seq<Pair>)
    requires ps != [] && PairsAt(s, i, ps) && Has(s, i, PairsText(ps))
    ensures var p := ps[0];
            var v := i + |KeyText(p)|;
            var e := v + |LaxText(p.val)|;
            var c := e + |p.after|;
            && i <= |s| && Has(s, i, KeyText(p)) && v < |s| && Skip(s, v) == v && LaxAt(s, v, p.val)
            && Blank(p.before) && i + |p.before| <= |s| && IsLiteral(s, i + |p.before|, p.key)
            && Skip(s, i) == i + |p.before| && At(s, Skip(s, i)) != '}'
            && Blank(p.colon) && Blank(p.mid) && c <= |s| && Skip(s, e) == Skip(s, c)
            && (if |ps| > 1 then PairsAt(s, c + 1, ps[1..]) && At(s, c) == ',' && Has(s, c + 1, PairsText(ps[1..]))
                                 && |PairsText(ps)| == c - i + 1 + |PairsText(ps[1..])|
                else |PairsText(ps)| == c - i)
  {
    hide LaxAt, LaxText, Blank, Has, Skip, LaxValue, KeyText, IsLiteral;
    var p := ps[0];
    PairParts(s, i, ps);
    hide PairsText, PairText;
    KeyOpens(s, i, p);
    LaxStart(s, i + |KeyText(p)|, p.val);
    BlankSkipped(s, i + |KeyText(p)| + |LaxText(p.val)|, p.after);
    if |ps| > 1 {
      NextStands(s, i + |PairText(p)|, PairsText(ps[1..]));
    }
  }

  lemma PairParts(s: string, i: nat, ps: seq<Pair>)
    requires ps != [] && Has(s, i, PairsText(ps))
    ensures var p := ps[0];
            var rest := if |ps| > 1 then "," + PairsText(ps[1..]) else "";
            && Has(s, i, KeyText(p)) && Has(s, i + |KeyText(p)|, LaxText(p.val))
            && Has(s, i + |KeyText(p)| + |LaxText(p.val)|, p.after) && Has(s, i + |PairText(p)|, rest)
            && |PairText(p)| == |KeyText(p)| + |LaxText(p.val)| + |p.after|
            && |PairsText(ps)| == |PairText(p)| + |rest|
  {
    hide LaxText, Has, KeyText;
    var p := ps[0];
    var rest := if |ps| > 1 then "," + PairsText(ps[1..]) else "";
    HasConcat(s, i, PairText(p), rest);
    HasThree(s, i, KeyText(p), LaxText(p.val), p.after, PairText(p));
  }

  lemma KeyOpens(s: string, i: nat, p: Pair)
    requires Has(s, i, KeyText(p)) && Blank(p.before) && i + |p.before| <= |s| && IsLiteral(s, i + |p.before|, p.key)
    ensures i <= |s| && Skip(s, i) == i + |p.before| && At(s, i + |p.before|) == '"'
  {
    hide Has, Skip, Blank, Decode, Scan, LaxText;
    HasConcat(s, i, p.before, LaxText(p.key) + (p.colon + (":" + p.mid)));
    BlankSkipped(s, i, p.before);
    StaysPut(s, i + |p.before|);
  }

  /** The colon behind a key and its blanks. */
  lemma ColonStands(s: string, i: nat, p: Pair)
    requires Has(s, i, KeyText(p)) && Blank(p.colon) && Blank(p.mid)
    ensures var e := i + |p.before| + |LaxText(p.key)|;
            var c := e + |p.colon|;
            && e <= |s| && Skip(s, e) == c < |s| && At(s, c) == ':'
            && i + |KeyText(p)| <= |s| && Skip(s, c + 1) == Skip(s, i + |KeyText(p)|)
  {
    hide Has, Skip, Blank, LaxText;
    var e := i + |p.before| + |LaxText(p.key)|;
    HasThree(s, i, p.before, LaxText(p.key), p.colon + (":" + p.mid), KeyText(p));
    HasThree(s, e, p.colon, ":", p.mid, p.colon + (":" + p.mid));
    HasFirst(s, e + |p.colon|, ":");
    BlankSkipped(s, e, p.colon);
    StaysPut(s, e + |p.colon|);
    BlankSkipped(s, e + |p.colon| + 1, p.mid);
  }

  lemma MemberIsRead(s: string, i: nat, p: Pair, w: Json, end: nat)
    requires i <= |s| && Has(s, i, KeyText(p)) && Blank(p.colon) && Blank(p.mid)
    requires Skip(s, i) == i + |p.before| && IsLiteral(s, i + |p.before|, p.key)
    requires i + |KeyText(p)| <= |s| && Skip(s, i + |KeyText(p)|) == i + |KeyText(p)|
    requires ParseValue(s, i + |KeyText(p)|) == Ok(w, end)
    ensures ParseMember(s, i) == Ok(Member(p.key.v.s, w), end)
  {
    hide ParseValue, ParseString, Skip, Blank, Has, KeyText;
    ColonStands(s, i, p);
  }

  lemma {:induction false} PairsAreRead(s: string, i: nat, ps: seq<Pair>)
    requires ps != [] && PairsAt(s, i, ps) && Has(s, i, PairsText(ps)) && At(s, i + |PairsText(ps)|) == '}'
    ensures i <= |s| && ParseMembers(s, i) == Ok(PairsValue(ps), i + |PairsText(ps)| + 1)
    decreases ps, 1
  {
    hide ParseValue, ParseMember, ParseMembers, PairsAt, PairsText, PairsValue, Blank, Has, Skip, LaxAt, LaxText,
          LaxValue;
    hide KeyText, PairText, ParseString;
    PairsOpen(s, i, ps);
    var p := ps[0];
    assert ps == [p] + ps[1..];
    PairsCons(p, ps[1..]);
    var v := i + |KeyText(p)|;
    var e := v + |LaxText(p.val)|;
    StaysPut(s, e + |p.after|);
    SyntaxIsRead(s, v, p.val);
    MemberIsRead(s, i, p, LaxValue(p.val), e);
    var m := Member(p.key.v.s, LaxValue(p.val));
    if |ps| > 1 {
      PairsAreRead(s, e + |p.after| + 1, ps[1..]);
      RoundTrip.MembersStep(s, i, m, e, PairsValue(ps[1..]));
    } else {
      RoundTrip.MembersStep(s, i, m, e, []);
    }
  }

  // ----- both ways

  /** parse_value takes a value of `n` characters at `i` exactly when syntax of `n`
      characters with that value stands there. */
  lemma TakesExactly(s: string, i: nat, v: Json, e: nat)
    requires i <= |s|
    ensures ParseValue(s, i) == Ok(v, e) <==>
            exists x :: LaxAt(s, i, x) && LaxValue(x) == v && e == i + |LaxText(x)|
  {
    hide ParseValue, LaxAt, LaxText, LaxValue;
    if ParseValue(s, i) == Ok(v, e) {
      var x := ValueHasSyntax(s, i);
    }
    forall x | LaxAt(s, i, x) && LaxValue(x) == v && e == i + |LaxText(x)|
      ensures ParseValue(s, i) == Ok(v, e)
    {
      SyntaxIsRead(s, i, x);
    }
  }

  /** `s` is blanks up to `b`, the syntax `x`, and, if asked for, blanks up to its end. */
  predicate Document(s: string, b: nat, x: Lax, requireEnd: bool) {
    && b <= |s| && Blank(s[..b]) && LaxAt(s, b, x)
    && b + |LaxText(x)| <= |s| && (requireEnd ==> Blank(s[b + |LaxText(x)|..]))
  }

  lemma DocumentIsRead(s: string, b: nat, x: Lax, requireEnd: bool)
    requires Document(s, b, x, requireEnd)
    ensures ParseDocument(s, requireEnd) == Ok(LaxValue(x), if requireEnd then |s| else b + |LaxText(x)|)
  {
    hide ParseValue, LaxAt, LaxText, LaxValue, Skip, Blank;
    var e := b + |LaxText(x)|;
    LaxStart(s, b, x);
    assert s[..b] == s[0..b];
    BlankSkipped(s, 0, s[..b]);
    SyntaxIsRead(s, b, x);
    if requireEnd {
      assert s[e..] == s[e..|s|];
      BlankSkipped(s, e, s[e..]);
      StaysPut(s, |s|);
    }
  }

  lemma DocumentHasSyntax(s: string, requireEnd: bool) returns (b: nat, x: Lax)
    requires IsCString(s) && ParseDocument(s, requireEnd).Ok?
    ensures Document(s, b, x, requireEnd)
    ensures ParseDocument(s, requireEnd) == Ok(LaxValue(x), if requireEnd then |s| else b + |LaxText(x)|)
  {
    hide ParseValue, LaxAt, LaxText, LaxValue, Skip, Blank;
    b := Skip(s, 0);
    SkipExact(s, 0);
    assert s[..b] == s[0..b];
    x := ValueHasSyntax(s, b);
    var e := b + |LaxText(x)|;
    LaxStands(s, b, x);
    SkipExact(s, e);
    if requireEnd {
      assert Skip(s, e) == |s|;
      assert s[e..] == s[e..|s|];
    }
  }

  /** cJSON_ParseWithOpts gives a value exactly when blanks and the value's syntax
      make up the beginning of the text and, if asked for, blanks are all that follows
      up to the terminator. */
  lemma AcceptsExactly(s: string, requireEnd: bool, v: Json, e: nat)
    requires IsCString(s)
    ensures ParseDocument(s, requireEnd) == Ok(v, e) <==>
            exists b: nat, x ::
              && Document(s, b, x, requireEnd) && LaxValue(x) == v
              && e == if requireEnd then |s| else b + |LaxText(x)|
  {
    hide ParseDocument, Document, LaxText, LaxValue;
    if ParseDocument(s, requireEnd) == Ok(v, e) {
      var b, x := DocumentHasSyntax(s, requireEnd);
    }
    forall b: nat, x | Document(s, b, x, requireEnd) && LaxValue(x) == v
      ensures ParseDocument(s, requireEnd) == Ok(v, if requireEnd then |s| else b + |LaxText(x)|)
    {
      DocumentIsRead(s, b, x, requireEnd);
    }
  }
}
