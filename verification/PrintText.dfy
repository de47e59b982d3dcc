/** The text cJSON prints for a value. */
module PrintText {
  import opened CText
  import opened JsonValue
  import opened Numeral
  import opened Escape

  function Opt(cond: bool, t: string): string {
    if cond then t else ""
  }

  /** The text of a value nested `depth` deep, formatted or not. */
  function Print(v: Json, depth: nat, fmt: bool): (t: string)
    ensures |t| > 0
    decreases v, 0
  {
    match v
    case Null => "null"
    case False => "false"
    case True => "true"
    case Num(d) => IntText(d.Floor)
    case Str(s) => Quote(s)
    case Arr(items) =>
      "[" + PrintItems(items, depth + 1, fmt) + "]"
    case Obj(members) =>
      // an empty object is indented one level less than a non-empty one
      if members == [] then "{" + (Opt(fmt, "\n" + Tabs(depth - 1)) + "}")
      else "{" + (Opt(fmt, "\n") + (PrintMembers(members, depth + 1, fmt) + (Opt(fmt, Tabs(depth)) + "}")))
  }

  function Comma(more: bool, fmt: bool): string {
    if !more then "" else if fmt then ", " else ","
  }

  function PrintItems(items: seq<Json>, depth: nat, fmt: bool): string
    decreases items, 1
  {
    if items == [] then ""
    else Print(items[0], depth, fmt) + (Comma(|items| > 1, fmt) + PrintItems(items[1..], depth, fmt))
  }

  /** One member with everything in front of the value. */
  function KeyText(key: string, depth: nat, fmt: bool): string {
    Opt(fmt, Tabs(depth)) + (Quote(key) + (":" + Opt(fmt, "\t")))
  }

  function MemberEnd(more: bool, fmt: bool): string {
    Opt(more, ",") + Opt(fmt, "\n")
  }

  function PrintMembers(members: seq<Member>, depth: nat, fmt: bool): string
    decreases members, 1
  {
    if members == [] then ""
    else
      KeyText(members[0].key, depth, fmt)
      + (Print(members[0].val, depth, fmt)
      + (MemberEnd(|members| > 1, fmt) + PrintMembers(members[1..], depth, fmt)))
  }

  /** The characters a value's text can start with. */
  predicate StartsValue(c: char) {
    c == 'n' || c == 'f' || c == 't' || c == '"' || c == '-' || IsDigit(c) || c == '[' || c == '{'
  }

  lemma PrintStart(v: Json, depth: nat, fmt: bool)
    ensures StartsValue(Print(v, depth, fmt)[0])
    ensures v.Str? <==> Print(v, depth, fmt)[0] == '"'
    ensures v.Arr? <==> Print(v, depth, fmt)[0] == '['
    ensures v.Obj? <==> Print(v, depth, fmt)[0] == '{'
    ensures v.Num? <==> Print(v, depth, fmt)[0] == '-' || IsDigit(Print(v, depth, fmt)[0])
  {
  }

  /** The closing brace of a formatted object stands at its depth, except that of an
      empty one, which stands one level further left. */
  lemma ClosingBrace(members: seq<Member>, depth: nat)
    ensures var t := Print(Obj(members), depth, true);
            var close := "\n" + (Tabs(if members == [] then depth - 1 else depth) + "}");
            |t| > |close| && t[|t| - |close|..] == close
  {
    if members == [] {
      EmptyObjectText(depth);
    } else {
      MembersEndLine(members, depth + 1);
      FormattedObject(members, depth);
      hide Print, PrintMembers, Tabs;
      EndsWith(PrintMembers(members, depth + 1, true), Tabs(depth) + "}");
    }
  }

  lemma EmptyObjectText(depth: nat)
    ensures Print(Obj([]), depth, true) == "{" + ("\n" + (Tabs(depth - 1) + "}"))
  {
    assert "\n" + Tabs(depth - 1) + "}" == "\n" + (Tabs(depth - 1) + "}");
  }

  lemma FormattedObject(members: seq<Member>, depth: nat)
    requires members != []
    ensures Print(Obj(members), depth, true) == "{" + ("\n" + (PrintMembers(members, depth + 1, true) + (Tabs(depth) + "}")))
  {
    hide PrintMembers, Tabs;
  }

  lemma EndsWith(all: string, tail: string)
    requires |all| > 0 && all[|all| - 1] == '\n'
    ensures var t, close := "{" + ("\n" + (all + tail)), "\n" + tail;
            |t| > |close| && t[|t| - |close|..] == close
  {
  }

  lemma {:induction false} MembersEndLine(members: seq<Member>, depth: nat)
    requires members != []
    ensures var all := PrintMembers(members, depth, true); |all| > 0 && all[|all| - 1] == '\n'
    decreases |members|
  {
    hide Print, Quote, KeyText;
    if |members| > 1 {
      MembersEndLine(members[1..], depth);
    }
  }
}
