/** Printed text holds no terminator. */
module Terminators {
  import opened CText
  import opened JsonValue
  import opened Numeral
  import opened Escape
  import opened PrintText

  lemma {:induction false} TabsNoNul(n: int)
    ensures '\0' !in Tabs(n)
    decreases if n > 0 then n else 0
  {
    if n > 0 {
      TabsNoNul(n - 1);
    }
  }

  lemma {:induction false} IntNoNul(n: nat)
    ensures '\0' !in Decimal(n)
  {
    if n >= 10 {
      IntNoNul(n / 10);
    }
  }

  lemma QuoteNoNul(s: string)
    ensures '\0' !in Quote(s)
  {
    EscapeAllVisible(s);
  }

  /** No printed value contains a NUL. */
  lemma {:induction false} PrintNoNul(v: Json, depth: nat, fmt: bool)
    ensures '\0' !in Print(v, depth, fmt)
    decreases v, 0
  {
    hide Quote, EscapeAll, Decimal, PrintItems, PrintMembers;
    match v
    case Num(d) => IntNoNul(if d.Floor < 0 then -d.Floor else d.Floor);
    case Str(s) => QuoteNoNul(s);
    case Arr(items) => ItemsNoNul(items, depth + 1, fmt);
    case Obj(members) =>
      TabsNoNul(depth);
      TabsNoNul(depth - 1);
      MembersNoNul(members, depth + 1, fmt);
    case _ =>
  }

  lemma {:induction false} ItemsNoNul(items: seq<Json>, depth: nat, fmt: bool)
    ensures '\0' !in PrintItems(items, depth, fmt)
    decreases items, 1
  {
    hide Print;
    if items != [] {
      PrintNoNul(items[0], depth, fmt);
      ItemsNoNul(items[1..], depth, fmt);
    }
  }

  lemma {:induction false} MembersNoNul(members: seq<Member>, depth: nat, fmt: bool)
    ensures '\0' !in PrintMembers(members, depth, fmt)
    decreases members, 1
  {
    hide Print, Quote;
    if members != [] {
      TabsNoNul(depth);
      QuoteNoNul(members[0].key);
      PrintNoNul(members[0].val, depth, fmt);
      MembersNoNul(members[1..], depth, fmt);
    }
  }
}
