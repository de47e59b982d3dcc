/** Where the parser stops in a text it refuses: the offset cJSON_GetErrorPtr
    gives, told from the syntax that stands in front of it. */
module JsonErrors {
  import opened CText
  import opened JsonValue
  import opened Numeral
  import opened Unescaping
  import opened ParseText
  import opened JsonLax
  import RoundTrip

  /** The way from the start of a value to the offset at which it goes wrong. */
  datatype Stop = NoValue | InArray(items: ItemStop) | InObject(members: PairStop)

  datatype ItemStop =
    | BadItem(before: string, inner: Stop)
    | NoComma(last: Item)
    | AfterItem(first: Item, rest: ItemStop)

  datatype PairStop =
    | NoKey(before: string)
    | NoColon(before: string, key: Lax, blank: string)
    | BadMember(named: Pair, inner: Stop)
    | NoMoreComma(last: Pair)
    | AfterMember(first: Pair, rest: PairStop)

  predicate NonBlank(c: char) {
    c == '\0' || c > ' '
  }

  /** No word, literal, numeral or bracket begins here. */
  predicate NothingStarts(s: string, i: nat) {
    && !Has(s, i, "null") && !Has(s, i, "false") && !Has(s, i, "true")
    && var c := At(s, i); c != '"' && c != '-' && !('0' <= c <= '9') && c != '[' && c != '{'
  }

  predicate StopAt(s: string, i: nat, p: Stop)
    decreases p
  {
    match p
    case NoValue => i <= |s| && NothingStarts(s, i)
    // a closing bracket in front of the first item ends an empty array
    case InArray(r) =>
      At(s, i) == '[' && ItemStopAt(s, i + 1, r) && (r.BadItem? ==> At(s, i + 1 + |r.before|) != ']')
    case InObject(r) =>
      At(s, i) == '{' && PairStopAt(s, i + 1, r) && (r.NoKey? ==> At(s, i + 1 + |r.before|) != '}')
  }

  predicate ItemStopAt(s: string, k: nat, r: ItemStop)
    decreases r
  {
    match r
    case BadItem(before, inner) =>
      Has(s, k, before) && Blank(before) && NonBlank(At(s, k + |before|)) && StopAt(s, k + |before|, inner)
    case NoComma(last) =>
      var c := At(s, k + |ItemText(last)|);
      ItemHere(s, k, last) && NonBlank(c) && c != ',' && c != ']'
    case AfterItem(first, rest) =>
      var c := k + |ItemText(first)|;
      ItemHere(s, k, first) && At(s, c) == ',' && ItemStopAt(s, c + 1, rest)
  }

  predicate PairStopAt(s: string, k: nat, r: PairStop)
    decreases r
  {
    match r
    case NoKey(before) =>
      Has(s, k, before) && Blank(before) && NonBlank(At(s, k + |before|)) && At(s, k + |before|) != '"'
    case NoColon(before, key, blank) =>
      var q := k + |before|;
      && Has(s, k, before) && Blank(before) && q <= |s| && IsLiteral(s, q, key) && Has(s, q, LaxText(key) + blank)
      && Blank(blank) && var c := At(s, q + |LaxText(key) + blank|); NonBlank(c) && c != ':'
    case BadMember(named, inner) =>
      KeyHere(s, k, named) && NonBlank(At(s, k + |KeyText(named)|)) && StopAt(s, k + |KeyText(named)|, inner)
    case NoMoreComma(last) =>
      var c := At(s, k + |PairText(last)|);
      PairHere(s, k, last) && NonBlank(c) && c != ',' && c != '}'
    case AfterMember(first, rest) =>
      var c := k + |PairText(first)|;
      PairHere(s, k, first) && At(s, c) == ',' && PairStopAt(s, c + 1, rest)
  }

  predicate ItemHere(s: string, k: nat, it: Item) {
    Has(s, k, ItemText(it)) && Blank(it.before) && LaxAt(s, k + |it.before|, it.val) && Blank(it.after)
  }

  predicate KeyHere(s: string, k: nat, p: Pair) {
    && Has(s, k, KeyText(p)) && Blank(p.before) && k + |p.before| <= |s| && IsLiteral(s, k + |p.before|, p.key)
    && Blank(p.colon) && Blank(p.mid)
  }

  predicate PairHere(s: string, k: nat, p: Pair) {
    Has(s, k, PairText(p)) && KeyHere(s, k, p) && LaxAt(s, k + |KeyText(p)|, p.val) && Blank(p.after)
  }

  /** The offset it leads to. */
  function Offset(i: nat, p: Stop): nat
    decreases p
  {
    match p
    case NoValue => i
    case InArray(r) => ItemOffset(i + 1, r)
    case InObject(r) => PairOffset(i + 1, r)
  }

  function ItemOffset(k: nat, r: ItemStop): nat
    decreases r
  {
    match r
    case BadItem(before, inner) => Offset(k + |before|, inner)
    case NoComma(last) => k + |ItemText(last)|
    case AfterItem(first, rest) => ItemOffset(k + |ItemText(first)| + 1, rest)
  }

  function PairOffset(k: nat, r: PairStop): nat
    decreases r
  {
    match r
    case NoKey(before) => k + |before|
    case NoColon(before, key, blank) => k + |before| + |LaxText(key) + blank|
    case BadMember(named, inner) => Offset(k + |KeyText(named)|, inner)
    case NoMoreComma(last) => k + |PairText(last)|
    case AfterMember(first, rest) => PairOffset(k + |PairText(first)| + 1, rest)
  }

  // ----- a refused text goes wrong where the parser says

  lemma {:induction false} ValueStops(s: string, i: nat) returns (p: Stop)
    requires i <= |s| && ParseValue(s, i).Fail?
    ensures StopAt(s, i, p) && ParseValue(s, i) == Fail(Offset(i, p))
    decreases |s| - i, 0
  {
    hide ParseValue, ItemStopAt, PairStopAt, ParseArray, ParseObject;
    if At(s, i) == '[' {
      RoundTrip.EntersArray(s, i);
      p := ArrayStops(s, i);
    } else if At(s, i) == '{' {
      RoundTrip.EntersObject(s, i);
      p := ObjectStops(s, i);
    } else {
      p := NoValue;
      NothingFails(s, i);
    }
  }

  lemma NothingFails(s: string, i: nat)
    requires i <= |s| && At(s, i) != '[' && At(s, i) != '{'
    ensures ParseValue(s, i).Fail? <==> NothingStarts(s, i)
    ensures ParseValue(s, i).Fail? ==> ParseValue(s, i) == Fail(i)
  {
    hide ParseNumber, Scan, Decode;
  }

  lemma {:induction false} ArrayStops(s: string, i: nat) returns (p: Stop)
    requires i < |s| && s[i] == '[' && ParseArray(s, i).Fail?
    ensures StopAt(s, i, p) && ParseArray(s, i) == Fail(Offset(i, p))
    decreases |s| - i - 1, 2
  {
    hide ParseItems, Skip, Has, ItemStopAt, ItemOffset;
    SameItems(s, i + 1);
    var r := ItemsStop(s, i + 1);
    p := InArray(r);
  }

  /** The failing turn of the array loop. */
  lemma ItemsFail(s: string, k: nat)
    requires k <= |s| && ParseItems(s, k).Fail?
    ensures var v := ParseValue(s, Skip(s, k));
            if !v.Ok? then v.Fail? && ParseItems(s, k) == Fail(v.at)
            else
              var j := Skip(s, v.end);
              && At(s, j) != ']'
              && (At(s, j) != ',' ==> ParseItems(s, k) == Fail(j))
              && (At(s, j) == ',' ==> var r := ParseItems(s, j + 1); r.Fail? && ParseItems(s, k) == Fail(r.at))
  {
    hide ParseValue, Skip;
  }

  lemma {:induction false} ItemsStop(s: string, k: nat) returns (r: ItemStop)
    requires k <= |s| && ParseItems(s, k).Fail?
    ensures ItemStopAt(s, k, r) && ParseItems(s, k) == Fail(ItemOffset(k, r))
    ensures r.BadItem? ==> k + |r.before| == Skip(s, k)
    decreases |s| - k, 1
  {
    hide ParseValue, ParseItems, Skip, Has, LaxAt, LaxText, LaxValue, ItemText, Blank, StopAt, Offset;
    ItemsFail(s, k);
    var i := Skip(s, k);
    SkipExact(s, k);
    SliceStands(s, k, i);
    if ParseValue(s, i).Fail? {
      var inner := ValueStops(s, i);
      r := BadItem(s[k..i], inner);
    } else {
      var x := ValueHasSyntax(s, i);
      LaxStands(s, i, x);
      var e := i + |LaxText(x)|;
      var j := Skip(s, e);
      SkipExact(s, e);
      var it := Item(s[k..i], x, s[e..j]);
      FirstStands(s, k, i, e, j, it);
      if At(s, j) == ',' {
        var rest := ItemsStop(s, j + 1);
        r := AfterItem(it, rest);
      } else {
        r := NoComma(it);
      }
    }
  }

  lemma {:induction false} ObjectStops(s: string, i: nat) returns (p: Stop)
    requires i < |s| && s[i] == '{' && ParseObject(s, i).Fail?
    ensures StopAt(s, i, p) && ParseObject(s, i) == Fail(Offset(i, p))
    decreases |s| - i - 1, 2
  {
    hide ParseMembers, Skip, Has, PairStopAt, PairOffset;
    SameMembers(s, i + 1);
    var r := MembersStop(s, i + 1);
    p := InObject(r);
  }

  lemma MembersFail(s: string, k: nat)
    requires k <= |s| && ParseMembers(s, k).Fail?
    ensures var m := ParseMember(s, k);
            if !m.Ok? then m.Fail? && ParseMembers(s, k) == Fail(m.at)
            else
              var j := Skip(s, m.end);
              && At(s, j) != '}'
              && (At(s, j) != ',' ==> ParseMembers(s, k) == Fail(j))
              && (At(s, j) == ',' ==> var r := ParseMembers(s, j + 1); r.Fail? && ParseMembers(s, k) == Fail(r.at))
  {
    hide ParseMember, Skip;
  }

  lemma MemberFails(s: string, k: nat)
    requires k <= |s| && ParseMember(s, k).Fail?
    ensures var q := Skip(s, k);
            var key := ParseString(s, q);
            if !key.Ok? then key == Fail(q) && At(s, q) != '"' && ParseMember(s, k) == Fail(q)
            else
              var c := Skip(s, key.end);
              && (At(s, c) != ':' ==> ParseMember(s, k) == Fail(c))
              && (At(s, c) == ':' ==>
                   var v := ParseValue(s, Skip(s, c + 1)); v.Fail? && ParseMember(s, k) == Fail(v.at))
  {
    hide Scan, Decode, ParseValue, Skip;
  }

  lemma {:induction false} MembersStop(s: string, k: nat) returns (r: PairStop)
    requires k <= |s| && ParseMembers(s, k).Fail?
    ensures PairStopAt(s, k, r) && ParseMembers(s, k) == Fail(PairOffset(k, r))
    ensures r.NoKey? ==> k + |r.before| == Skip(s, k)
    decreases |s| - k, 1
  {
    hide ParseMember, ParseMembers, Skip, Has, LaxAt, LaxText, LaxValue, PairText, KeyText, Blank, KeyHere, ParseString;
    MembersFail(s, k);
    if ParseMember(s, k).Fail? {
      r := MemberStops(s, k);
    } else {
      var q := MemberHasSyntax(s, k);
      var v := k + |KeyText(q)|;
      var e := v + |LaxText(q.val)|;
      var j := Skip(s, e);
      SkipExact(s, e);
      var p := Pair(q.before, q.key, q.colon, q.mid, q.val, s[e..j]);
      SameKey(p, q);
      LaxStands(s, v, q.val);
      PairStands(s, k, p, v, e, j);
      KeyIsHere(s, k, p);
      if At(s, j) == ',' {
        var rest := MembersStop(s, j + 1);
        r := AfterMember(p, rest);
      } else {
        r := NoMoreComma(p);
      }
    }
  }

  lemma KeyIsHere(s: string, k: nat, p: Pair)
    requires Has(s, k, KeyText(p)) && Blank(p.before) && k + |p.before| <= |s| && IsLiteral(s, k + |p.before|, p.key)
    requires Blank(p.colon) && Blank(p.mid)
    ensures KeyHere(s, k, p)
  {
  }

  lemma {:induction false} MemberStops(s: string, k: nat) returns (r: PairStop)
    requires k <= |s| && ParseMember(s, k).Fail?
    ensures PairStopAt(s, k, r) && ParseMember(s, k) == Fail(PairOffset(k, r)) && !r.NoMoreComma? && !r.AfterMember?
    ensures r.NoKey? ==> k + |r.before| == Skip(s, k)
    decreases |s| - k, 0
  {
    hide ParseMember, ParseString, ParseValue, Skip, Blank, LaxAt, Has, KeyText, StopAt, Offset;
    MemberFails(s, k);
    var q := Skip(s, k);
    var key := ParseString(s, q);
    SkipExact(s, k);
    SliceStands(s, k, q);
    if key.Fail? {
      r := NoKey(s[k..q]);
    } else {
      var c := Skip(s, key.end);
      SkipExact(s, key.end);
      SliceStands(s, q, key.end);
      SliceStands(s, key.end, c);
      var x := Leaf(s[q..key.end], Str(key.value));
      if At(s, c) != ':' {
        HasConcat(s, q, x.text, s[key.end..c]);
        r := NoColon(s[k..q], x, s[key.end..c]);
      } else {
        var v := Skip(s, c + 1);
        SkipExact(s, c + 1);
        var p := Pair(s[k..q], x, s[key.end..c], s[c + 1..v], Word(Null), "");
        KeyStands(s, k, q, key.end, c, v, p);
        KeyIsHere(s, k, p);
        var inner := ValueStops(s, v);
        r := BadMember(p, inner);
      }
    }
  }

  // ----- where it goes wrong the parser stops

  lemma {:induction false} StopFails(s: string, i: nat, p: Stop)
    requires StopAt(s, i, p)
    ensures i <= |s| && ParseValue(s, i) == Fail(Offset(i, p))
    decreases p
  {
    hide ParseValue, ParseItems, ParseMembers, ItemStopAt, PairStopAt, ItemOffset, PairOffset, Skip, Has;
    match p
    case NoValue => NothingFails(s, i);
    case InArray(r) =>
      ItemsFailHere(s, i + 1, r);
      SameItems(s, i + 1);
      RoundTrip.EntersArray(s, i);
    case InObject(r) =>
      MembersFailHere(s, i + 1, r);
      SameMembers(s, i + 1);
      RoundTrip.EntersObject(s, i);
  }

  /** Blanks up to something else. */
  lemma BlanksEnd(s: string, k: nat, t: string)
    requires Has(s, k, t) && Blank(t) && NonBlank(At(s, k + |t|))
    ensures k <= |s| && k + |t| <= |s| && Skip(s, k) == k + |t|
  {
    hide Skip, Blank;
    BlankSkipped(s, k, t);
    StaysPut(s, k + |t|);
  }

  /** An item up to something else than a blank. */
  lemma ItemThere(s: string, k: nat, it: Item)
    requires ItemHere(s, k, it) && NonBlank(At(s, k + |ItemText(it)|))
    ensures var v := k + |it.before|;
            var e := v + |LaxText(it.val)|;
            && k <= |s| && Skip(s, k) == v < |s| && At(s, v) != ']' && ParseValue(s, v) == Ok(LaxValue(it.val), e)
            && e <= |s| && Skip(s, e) == k + |ItemText(it)| <= |s|
  {
    hide LaxText, LaxAt, LaxValue, Has, Skip, ParseValue, Blank;
    var v := k + |it.before|;
    HasThree(s, k, it.before, LaxText(it.val), it.after, ItemText(it));
    LaxStart(s, v, it.val);
    SyntaxIsRead(s, v, it.val);
    BlankSkipped(s, k, it.before);
    BlanksEnd(s, v + |LaxText(it.val)|, it.after);
  }

  /** A turn of the array loop that fails. */
  lemma FailsItems(s: string, k: nat)
    requires k <= |s|
    ensures var v := ParseValue(s, Skip(s, k));
            && (v.Fail? ==> ParseItems(s, k) == Fail(v.at))
            && (v.Ok? ==>
                 var j := Skip(s, v.end);
                 && (At(s, j) != ',' && At(s, j) != ']' ==> ParseItems(s, k) == Fail(j))
                 && (At(s, j) == ',' ==> var r := ParseItems(s, j + 1); r.Fail? ==> ParseItems(s, k) == Fail(r.at)))
  {
    hide ParseValue, Skip;
  }

  lemma {:induction false} ItemsFailHere(s: string, k: nat, r: ItemStop)
    requires k <= |s| && ItemStopAt(s, k, r)
    ensures ParseItems(s, k) == Fail(ItemOffset(k, r))
    ensures if r.BadItem? then Skip(s, k) == k + |r.before| else At(s, Skip(s, k)) != ']'
    decreases r
  {
    hide ParseValue, ParseItems, Skip, Has, LaxAt, LaxText, LaxValue, ItemText, Blank, StopAt, Offset, ItemHere;
    FailsItems(s, k);
    match r
    case BadItem(before, inner) =>
      BlanksEnd(s, k, before);
      StopFails(s, k + |before|, inner);
    case NoComma(last) =>
      ItemThere(s, k, last);
    case AfterItem(first, rest) =>
      ItemThere(s, k, first);
      ItemsFailHere(s, k + |ItemText(first)| + 1, rest);
  }

  lemma KeyThere(s: string, k: nat, p: Pair)
    requires KeyHere(s, k, p) && NonBlank(At(s, k + |KeyText(p)|))
    ensures k <= |s| && Skip(s, k) == k + |p.before| && At(s, k + |p.before|) == '"'
    ensures k + |KeyText(p)| <= |s| && Skip(s, k + |KeyText(p)|) == k + |KeyText(p)|
  {
    hide KeyText, Skip, Blank, IsLiteral, Has;
    KeyOpens(s, k, p);
    ColonStands(s, k, p);
    StaysPut(s, k + |KeyText(p)|);
  }

  /** A member up to something else than a blank. */
  lemma PairThere(s: string, k: nat, p: Pair)
    requires PairHere(s, k, p) && NonBlank(At(s, k + |PairText(p)|))
    ensures k <= |s| && At(s, Skip(s, k)) == '"'
    ensures var e := k + |KeyText(p)| + |LaxText(p.val)|;
            && ParseMember(s, k) == Ok(Member(p.key.v.s, LaxValue(p.val)), e)
            && e <= |s| && Skip(s, e) == k + |PairText(p)| <= |s|
  {
    hide KeyText, LaxText, LaxAt, LaxValue, Has, Skip, ParseValue, ParseMember, Blank, IsLiteral;
    var v := k + |KeyText(p)|;
    HasThree(s, k, KeyText(p), LaxText(p.val), p.after, PairText(p));
    LaxStart(s, v, p.val);
    KeyThere(s, k, p);
    SyntaxIsRead(s, v, p.val);
    MemberIsRead(s, k, p, LaxValue(p.val), v + |LaxText(p.val)|);
    BlanksEnd(s, v + |LaxText(p.val)|, p.after);
  }

  /** A turn of the object loop that fails. */
  lemma FailsMembers(s: string, k: nat)
    requires k <= |s|
    ensures var m := ParseMember(s, k);
            && (m.Fail? ==> ParseMembers(s, k) == Fail(m.at))
            && (m.Ok? ==>
                 var j := Skip(s, m.end);
                 && (At(s, j) != ',' && At(s, j) != '}' ==> ParseMembers(s, k) == Fail(j))
                 && (At(s, j) == ',' ==> var r := ParseMembers(s, j + 1); r.Fail? ==> ParseMembers(s, k) == Fail(r.at)))
  {
    hide ParseMember, Skip;
  }

  lemma NoKeyFails(s: string, k: nat, before: string)
    requires Has(s, k, before) && Blank(before) && NonBlank(At(s, k + |before|)) && At(s, k + |before|) != '"'
    ensures k <= |s| && Skip(s, k) == k + |before| && ParseMember(s, k) == Fail(k + |before|)
  {
    hide Skip, Blank, Has, ParseValue, Scan, Decode;
    BlanksEnd(s, k, before);
  }

  lemma NoColonFails(s: string, k: nat, before: string, key: Lax, blank: string)
    requires PairStopAt(s, k, NoColon(before, key, blank))
    ensures k <= |s| && Skip(s, k) == k + |before| && At(s, k + |before|) == '"'
    ensures ParseMember(s, k) == Fail(k + |before| + |LaxText(key) + blank|)
  {
    hide Skip, Blank, Has, ParseValue, Scan, Decode, LaxText;
    var q := k + |before|;
    HasConcat(s, q, LaxText(key), blank);
    LiteralStart(s, q, key);
    BlanksEnd(s, k, before);
    BlanksEnd(s, q + |LaxText(key)|, blank);
  }

  lemma LiteralStart(s: string, q: nat, key: Lax)
    requires q <= |s| && IsLiteral(s, q, key)
    ensures At(s, q) == '"' && NonBlank('"') && LaxText(key) == key.text
  {
    hide Scan, Decode;
  }

  lemma BadMemberFails(s: string, k: nat, p: Pair, at: nat)
    requires KeyHere(s, k, p) && NonBlank(At(s, k + |KeyText(p)|)) && k + |KeyText(p)| <= |s|
    requires ParseValue(s, k + |KeyText(p)|) == Fail(at)
    ensures k <= |s| && At(s, Skip(s, k)) == '"' && ParseMember(s, k) == Fail(at)
  {
    hide KeyText, Skip, Blank, ParseString, Has, ParseValue;
    KeyThere(s, k, p);
    ColonStands(s, k, p);
  }

  lemma {:induction false} MembersFailHere(s: string, k: nat, r: PairStop)
    requires k <= |s| && PairStopAt(s, k, r)
    ensures ParseMembers(s, k) == Fail(PairOffset(k, r))
    ensures if r.NoKey? then Skip(s, k) == k + |r.before| else At(s, Skip(s, k)) == '"'
    decreases r
  {
    hide ParseValue, ParseMember, ParseMembers, Skip, Has, LaxAt, LaxText, LaxValue, PairText, KeyText, Blank, StopAt;
    hide Offset, KeyHere, PairHere, IsLiteral;
    FailsMembers(s, k);
    match r
    case NoKey(before) => NoKeyFails(s, k, before);
    case NoColon(before, key, blank) => NoColonFails(s, k, before, key, blank);
    case BadMember(named, inner) =>
      StopFails(s, k + |KeyText(named)|, inner);
      BadMemberFails(s, k, named, Offset(k + |KeyText(named)|, inner));
    case NoMoreComma(last) => PairThere(s, k, last);
    case AfterMember(first, rest) =>
      PairThere(s, k, first);
      MembersFailHere(s, k + |PairText(first)| + 1, rest);
  }

  /** parse_value refuses a text at an offset exactly when the text goes wrong there. */
  lemma RefusesExactly(s: string, i: nat, at: nat)
    requires i <= |s|
    ensures ParseValue(s, i) == Fail(at) <==> exists p :: StopAt(s, i, p) && Offset(i, p) == at
  {
    hide ParseValue, StopAt, Offset;
    if ParseValue(s, i) == Fail(at) {
      var p := ValueStops(s, i);
    }
    forall p | StopAt(s, i, p)
      ensures ParseValue(s, i) == Fail(Offset(i, p))
    {
      StopFails(s, i, p);
    }
  }

  /** Blanks, and then a value that goes wrong at `at`. */
  predicate GoesWrong(s: string, b: nat, p: Stop, at: nat) {
    b <= |s| && Blank(s[..b]) && NonBlank(At(s, b)) && StopAt(s, b, p) && Offset(b, p) == at
  }

  /** A whole document, blanks, and then something else at `at`. */
  predicate GoesOn(s: string, b: nat, x: Lax, at: nat) {
    && Document(s, b, x, false) && b + |LaxText(x)| <= at < |s|
    && Blank(s[b + |LaxText(x)|..at]) && NonBlank(s[at])
  }

  /** cJSON_ParseWithOpts refuses a text at an offset exactly when its value goes wrong
      there or, if the text is to end behind it, something else stands there. */
  lemma RefusesDocument(s: string, requireEnd: bool, at: nat)
    requires IsCString(s)
    ensures ParseDocument(s, requireEnd) == Fail(at) <==>
            || (exists b: nat, p :: GoesWrong(s, b, p, at))
            || (requireEnd && exists b: nat, x :: GoesOn(s, b, x, at))
  {
    hide ParseDocument, GoesWrong, GoesOn;
    if ParseDocument(s, requireEnd) == Fail(at) {
      DocumentStops(s, requireEnd, at);
    }
    forall b: nat, p | GoesWrong(s, b, p, at)
      ensures ParseDocument(s, requireEnd) == Fail(at)
    {
      WrongFails(s, requireEnd, b, p, at);
    }
    forall b: nat, x | GoesOn(s, b, x, at)
      ensures ParseDocument(s, true) == Fail(at)
    {
      TrailingFails(s, b, x, at);
    }
  }

  lemma DocumentStops(s: string, requireEnd: bool, at: nat)
    requires IsCString(s) && ParseDocument(s, requireEnd) == Fail(at)
    ensures (exists b: nat, p :: GoesWrong(s, b, p, at)) || (requireEnd && exists b: nat, x :: GoesOn(s, b, x, at))
  {
    hide ParseValue, StopAt, Offset, LaxAt, LaxText, LaxValue, Skip, Blank;
    var b := Skip(s, 0);
    SkipExact(s, 0);
    assert s[..b] == s[0..b];
    if ParseValue(s, b).Fail? {
      var p := ValueStops(s, b);
      assert GoesWrong(s, b, p, at);
    } else {
      var x := ValueHasSyntax(s, b);
      LaxStands(s, b, x);
      SkipExact(s, b + |LaxText(x)|);
      assert GoesOn(s, b, x, at);
    }
  }

  lemma WrongFails(s: string, requireEnd: bool, b: nat, p: Stop, at: nat)
    requires GoesWrong(s, b, p, at)
    ensures ParseDocument(s, requireEnd) == Fail(at)
  {
    hide ParseValue, StopAt, Offset, Skip, Blank;
    assert s[..b] == s[0..b];
    BlanksEnd(s, 0, s[..b]);
    StopFails(s, b, p);
  }

  lemma TrailingFails(s: string, b: nat, x: Lax, at: nat)
    requires IsCString(s) && GoesOn(s, b, x, at)
    ensures ParseDocument(s, true) == Fail(at)
  {
    hide ParseValue, LaxAt, LaxText, LaxValue, Skip, Blank;
    var e := b + |LaxText(x)|;
    LaxStart(s, b, x);
    assert s[..b] == s[0..b];
    BlankSkipped(s, 0, s[..b]);
    SyntaxIsRead(s, b, x);
    assert s[at] in s;
    BlanksEnd(s, e, s[e..at]);
  }
}
