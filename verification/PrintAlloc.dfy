/** cJSON_Print and cJSON_PrintUnformatted: the printer that allocates a string
    per node and joins them, and frees everything it allocated when it fails. */
module PrintAlloc {
  import opened CText
  import opened JsonValue
  import opened Numeral
  import opened Escape
  import opened PrintText
  import opened Memory
  import opened Trees
  import opened ListOps
  import opened Duplicate
  import opened Terminators
  import opened PrintBlocks
  import PB = PrintBuffered

  // ----- values

  /** The tree was well-formed in `m0`; the heap has only grown since. */
  ghost predicate Over(m0: Cells, m: Cells) {
    forall x :: x in m0 ==> x in m && m[x] == m0[x]
  }

  lemma OverParent(m0: Cells, m: Cells, t: Tree)
    requires Over(m0, m) && Parent(m0, t)
    ensures Parent(m, t)
    ensures IsRecord(m, t.p) && m[t.p] == m0[t.p] && m[t.p].node.child == Head(t.kids, NULL)
    ensures m[t.p].node.valuestring == t.text && m[t.p].node.name == t.name
  {
    hide Chain, IsText, Apart;
    SubtreeOwned(m0, t);
    SubtreeFrame(m0, m, t);
  }

  lemma OverText(m0: Cells, m: Cells, p: Ptr, s: string)
    requires Over(m0, m) && TextAt(m0, p, s)
    ensures TextAt(m, p, s)
  {
  }

  lemma OverExtra(m0: Cells, m: Cells, m': Cells, s: set<Ptr>)
    requires Over(m0, m) && Extra(m, m', s)
    ensures Over(m0, m')
  {
  }

  /** print_value without a buffer. */
  method PrintValue(heap: Heap, item: Ptr, depth: nat, fmt: bool, ghost m0: Cells, ghost t: Tree, ghost v: Json)
    returns (out: Ptr)
    requires Over(m0, heap.cells) && Parent(m0, t) && Denotes(m0, t, v) && Printable(v) && item == t.p
    modifies heap`cells, heap`refused
    ensures old(heap.refused) ==> heap.refused
    ensures Result(heap, old(heap.cells), out, Print(v, depth, fmt))
    decreases t, 2
  {
    hide Parent, Result, PrintItems, PrintMembers, Quote, IntText, TextAt, Over, Truncate;
    OverParent(m0, heap.cells, t);
    var node := heap.cells[item].node;
    match node.kind {
      case Null => out := PrintLiteral(heap, 5, "null");
      case False => out := PrintLiteral(heap, 6, "false");
      case True => out := PrintLiteral(heap, 5, "true");
      case Number => out := PrintNumber(heap, node.valuedouble, node.valueint);
      case String =>
        OverText(m0, heap.cells, t.text, v.s);
        out := PrintStringPtr(heap, node.valuestring, v.s);
      case Array => out := PrintArray(heap, item, depth, fmt, m0, t, v.items);
      case Object => out := PrintObject(heap, item, depth, fmt, m0, t, v.members);
    }
  }

  method PrintNumber(heap: Heap, d: real, valueint: int) returns (out: Ptr)
    requires IsInt32(d) && valueint == Truncate(d)
    modifies heap`cells, heap`refused
    ensures old(heap.refused) ==> heap.refused
    ensures Result(heap, old(heap.cells), out, IntText(d.Floor))
  {
    hide Result;
    IntTextLength(d.Floor);
    IntNoNul(if d.Floor < 0 then -d.Floor else d.Floor);
    assert Truncate(d) == d.Floor;
    if d == 0.0 {
      out := PrintLiteral(heap, 2, "0");
    } else {
      out := PrintLiteral(heap, 21, IntText(valueint));
    }
  }

  // ----- collecting the entries

  /** The first `k` entries of the table hold the first `k` texts. */
  ghost predicate Collected(heap: Heap, m: Cells, s: set<Ptr>, tab: Ptr, es: seq<Ptr>, texts: seq<string>, k: nat)
    reads heap`cells
  {
    && Tabled(heap, tab, es) && tab in s && Live(es) <= s && Extra(m, heap.cells, s) && k <= |es| == |texts|
    && (forall j :: 0 <= j < k ==> es[j] != NULL && TextAt(heap.cells, es[j], texts[j]))
    && (forall j :: k <= j < |es| ==> es[j] == NULL)
  }

  /** A new string on top keeps what has been collected. */
  lemma CollectedKept(m1: Cells, m2: Cells, ret: Ptr, es: seq<Ptr>, texts: seq<string>, k: nat)
    requires Extra(m1, m2, {ret}) && k <= |es| == |texts|
    requires forall j :: 0 <= j < k ==> es[j] != NULL && TextAt(m1, es[j], texts[j])
    ensures forall j :: 0 <= j < k ==> es[j] != NULL && TextAt(m2, es[j], texts[j])
  {
  }

  /** Storing a returned string in the next slot. */
  method Collect(heap: Heap, tab: Ptr, i: nat, ret: Ptr, ghost m: Cells, ghost m1: Cells, ghost s: set<Ptr>,
                 ghost es: seq<Ptr>, ghost texts: seq<string>)
    returns (ghost s': set<Ptr>, ghost es': seq<Ptr>)
    requires i < |es| == |texts| && Result(heap, m1, ret, texts[i])
    requires tab != NULL && tab in m1 && m1[tab] == Table(es) && Distinct(es) && tab !in Live(es)
    requires tab in s && Live(es) <= s && Extra(m, m1, s)
    requires forall j :: 0 <= j < i ==> es[j] != NULL && TextAt(m1, es[j], texts[j])
    requires forall j :: i <= j < |es| ==> es[j] == NULL
    modifies heap`cells
    ensures s' == s + OptPtr(ret) && es' == es[i := ret] && Live(es') == Live(es) + OptPtr(ret)
    ensures ret == NULL ==> es' == es && Collected(heap, m, s', tab, es', texts, i)
    ensures ret != NULL ==>
              Collected(heap, m, s', tab, es', texts, i + 1) && ret !in s && TextAt(heap.cells, ret, texts[i])
    ensures heap.cells.Keys == m1.Keys + OptPtr(ret)
    ensures forall x :: x in m1 && x != tab ==> x in heap.cells && heap.cells[x] == m1[x]
  {
    hide TextAt, Live, Distinct;
    s', es' := s + OptPtr(ret), es[i := ret];
    if ret != NULL {
      CollectedKept(m1, heap.cells, ret, es, texts, i);
      ExtraTwice(m, m1, heap.cells, s, {ret});
    }
    ghost var m2 := heap.cells;
    SetEntry(heap, tab, i, ret, m, s', es);
    EntriesKept(m2, heap.cells, tab, es, texts, i);
    if ret != NULL {
      RetKept(m2, heap.cells, tab, ret, texts[i]);
    } else {
      assert es' == es;
    }
  }

  lemma RetKept(m2: Cells, m3: Cells, tab: Ptr, ret: Ptr, text: string)
    requires TextAt(m2, ret, text) && ret != tab && forall x :: x in m2 && x != tab ==> x in m3 && m3[x] == m2[x]
    ensures TextAt(m3, ret, text)
  {
  }

  lemma EntriesKept(m2: Cells, m3: Cells, tab: Ptr, es: seq<Ptr>, texts: seq<string>, k: nat)
    requires k <= |es| == |texts| && tab !in Live(es) && forall x :: x in m2 && x != tab ==> x in m3 && m3[x] == m2[x]
    requires forall j :: 0 <= j < k ==> es[j] != NULL && TextAt(m2, es[j], texts[j])
    ensures forall j :: 0 <= j < k ==> es[j] != NULL && TextAt(m3, es[j], texts[j])
  {
    forall j | 0 <= j < k ensures TextAt(m3, es[j], texts[j]) {
      assert es[j] in es;
      RetKept(m2, m3, tab, es[j], texts[j]);
    }
  }

  // ----- arrays

  ghost function ItemTexts(items: seq<Json>, depth: nat, fmt: bool): seq<string> {
    seq(|items|, j requires 0 <= j < |items| => Print(items[j], depth, fmt))
  }

  /** print_array without a buffer. */
  method PrintArray(heap: Heap, item: Ptr, depth: nat, fmt: bool, ghost m0: Cells, ghost t: Tree,
                    ghost items: seq<Json>)
    returns (out: Ptr)
    requires Over(m0, heap.cells) && Parent(m0, t) && DenotesItems(m0, t.kids, items) && Printable(Arr(items))
              && item == t.p
    modifies heap`cells, heap`refused
    ensures old(heap.refused) ==> heap.refused
    ensures Result(heap, old(heap.cells), out, Print(Arr(items), depth, fmt))
    decreases t, 1
  {
    hide Parent, PrintItems, TextAt, DenotesItems, Live, Distinct, Tabled;
    ghost var m, texts := heap.cells, ItemTexts(items, depth + 1, fmt);
    OverParent(m0, m, t);
    ItemsLength(m0, t.kids, items);
    PB.ArrayText(items, depth, fmt);
    var numentries := PB.GetArraySize(heap, item, t);
    if numentries == 0 {
      PB.NoItemsText(items, depth + 1, fmt);
      assert "[" + "" + "]" == "[]";
      out := PrintLiteral(heap, 3, "[]");
      return;
    }
    var entries;
    ghost var es;
    entries, es := NewTable(heap, numentries);
    if entries == NULL {
      return NULL;
    }
    OverExtra(m0, m, heap.cells, {entries});
    StartCollecting(heap, m, entries, es, texts);
    var fail, len;
    ghost var got;
    fail, len, es, got := CollectItems(heap, item, depth, fmt, entries, m, m0, t, items, es);
    if fail {
      CollectedTable(heap, m, {entries} + Live(es), entries, es, texts, got);
      FreeEntries(heap, entries, numentries, m, es);
      return NULL;
    }
    out := JoinItems(heap, entries, numentries, len, depth, fmt, m, items, es);
  }

  lemma StartCollecting(heap: Heap, m: Cells, tab: Ptr, es: seq<Ptr>, texts: seq<string>)
    requires Extra(m, heap.cells, {tab}) && Tabled(heap, tab, es) && Live(es) == {} && |es| == |texts|
    requires forall k :: 0 <= k < |es| ==> es[k] == NULL
    ensures Collected(heap, m, {tab} + Live(es), tab, es, texts, 0)
  {
    assert {tab} + Live(es) == {tab};
  }

  lemma CollectedTable(heap: Heap, m: Cells, s: set<Ptr>, tab: Ptr, es: seq<Ptr>, texts: seq<string>, k: nat)
    requires Collected(heap, m, s, tab, es, texts, k)
    ensures Tabled(heap, tab, es) && Extra(m, heap.cells, s)
  {
  }

  /** The loop that prints every item into a string of its own. `len` grows to
      at least the joined length and a terminator. */
  method CollectItems(heap: Heap, item: Ptr, depth: nat, fmt: bool, entries: Ptr, ghost m: Cells, ghost m0: Cells,
                      ghost t: Tree, ghost items: seq<Json>, ghost es0: seq<Ptr>)
    returns (fail: bool, len: nat, ghost es: seq<Ptr>, ghost got: nat)
    requires Over(m0, heap.cells) && Parent(m0, t) && DenotesItems(m0, t.kids, items) && Printable(Arr(items))
              && item == t.p
    requires Over(m0, m) && |es0| == |items| == |t.kids|
    requires Collected(heap, m, {entries} + Live(es0), entries, es0, ItemTexts(items, depth + 1, fmt), 0)
    modifies heap`cells, heap`refused
    ensures old(heap.refused) ==> heap.refused
    ensures |es| == |items|
    ensures fail ==>
              heap.refused
                    && Collected(heap, m, {entries} + Live(es), entries, es, ItemTexts(items, depth + 1, fmt), got)
    ensures !fail ==>
              && Collected(heap, m, {entries} + Live(es), entries, es, ItemTexts(items, depth + 1, fmt), |items|)
              && len >= |PrintItems(items, depth + 1, fmt)| + 3
    decreases t, 0
  {
    hide Parent, PrintItems, DenotesItems, Collected, Live, Over, ItemTexts;
    ghost var texts := ItemTexts(items, depth + 1, fmt);
    fail, len, es, got := false, 5, es0, 0;
    OverParent(m0, heap.cells, t);
    FirstNull(m0, t);
    var child := heap.cells[item].node.child;
    var k := 0;
    assert items[0..] == items;
    while child != NULL && !fail
      invariant (old(heap.refused) ==> heap.refused) && (fail ==> heap.refused)
      invariant Over(m0, heap.cells) && |es| == |items| && k <= |items|
      invariant child == Head(t.kids[k..], NULL) && (!fail ==> (child == NULL <==> k == |items|))
      invariant Collected(heap, m, {entries} + Live(es), entries, es, texts, got) && (!fail ==> got == k)
      invariant !fail ==> len + |PrintItems(items[k..], depth + 1, fmt)| >= 5 + |PrintItems(items, depth + 1, fmt)|
      decreases |items| - k
    {
      PB.ItemsFrom(items, k, depth + 1, fmt);
      var n;
      child, n, es := CollectItem(heap, child, depth, fmt, entries, k, m, m0, t, items, es);
      if n >= 0 {
        len := len + n + 2 + (if fmt then 1 else 0);
        got := got + 1;
      } else {
        fail := true;
      }
      k := k + 1;
    }
    if !fail {
      PB.NoItemsText(items[k..], depth + 1, fmt);
    }
  }

  /** One item: its string goes into the next slot; `n` is its length, or -1. */
  method CollectItem(heap: Heap, child: Ptr, depth: nat, fmt: bool, entries: Ptr, i: nat, ghost m: Cells,
                     ghost m0: Cells, ghost t: Tree, ghost items: seq<Json>, ghost es0: seq<Ptr>)
    returns (next: Ptr, n: int, ghost es: seq<Ptr>)
    requires Over(m0, heap.cells) && Over(m0, m) && Parent(m0, t) && DenotesItems(m0, t.kids, items)
              && Printable(Arr(items))
    requires i < |items| == |t.kids| == |es0| && child == t.kids[i].p
    requires Collected(heap, m, {entries} + Live(es0), entries, es0, ItemTexts(items, depth + 1, fmt), i)
    modifies heap`cells, heap`refused
    ensures old(heap.refused) ==> heap.refused
    ensures Over(m0, heap.cells) && |es| == |es0|
    ensures next == Head(t.kids[i + 1..], NULL) && (next == NULL <==> i + 1 == |items|)
    ensures n >= -1 && (n == -1 ==> heap.refused)
    ensures n == -1 ==> Collected(heap, m, {entries} + Live(es), entries, es, ItemTexts(items, depth + 1, fmt), i)
    ensures n >= 0 ==> n == |Print(items[i], depth + 1, fmt)|
                       && Collected(heap, m, {entries} + Live(es), entries, es, ItemTexts(items, depth + 1, fmt), i + 1)
    decreases t.kids[i], 3
  {
    hide Parent, DenotesItems, Denotes, Live, Distinct, TextAt, Print;
    ghost var m1, texts, s := heap.cells, ItemTexts(items, depth + 1, fmt), {entries} + Live(es0);
    PB.ItemAt(m0, t.kids, items, i);
    PB.KidAt(m0, t, i);
    OverParent(m0, m1, t.kids[i]);
    next := heap.cells[child].node.next;
    var ret := PrintValue(heap, child, depth + 1, fmt, m0, t.kids[i], items[i]);
    assert texts[i] == Print(items[i], depth + 1, fmt);
    ghost var s';
    s', es := Collect(heap, entries, i, ret, m, m1, s, es0, texts);
    assert s' == {entries} + Live(es);
    OverExtra(m0, m, heap.cells, s');
    n := -1;
    if ret != NULL {
      n := StrLen(heap, ret, texts[i]);
    }
  }

  // ----- joining

  /** Entries `i` and later are still allocated and hold their texts. */
  ghost predicate Pending(m: Cells, mc: Cells, tab: Ptr, es: seq<Ptr>, texts: seq<string>, i: nat) {
    && i <= |es| == |texts| && Distinct(es) && tab !in Live(es[i..])
    && Extra(m, mc, {tab} + Live(es[i..])) && tab in mc && mc[tab] == Table(es)
    && forall j :: i <= j < |es| ==> es[j] != NULL && TextAt(mc, es[j], texts[j])
  }

  lemma StartPending(heap: Heap, m: Cells, tab: Ptr, es: seq<Ptr>, texts: seq<string>)
    requires Collected(heap, m, {tab} + Live(es), tab, es, texts, |es|)
    ensures Pending(m, heap.cells, tab, es, texts, 0)
  {
    assert es[0..] == es;
  }

  /** After entry `i` is freed the later ones are still pending. */
  lemma NextPending(m: Cells, mc: Cells, tab: Ptr, es: seq<Ptr>, texts: seq<string>, i: nat)
    requires Pending(m, mc, tab, es, texts, i) && i < |es|
    ensures es[i] in {tab} + Live(es[i..]) && es[i] != tab && es[i] != NULL && TextAt(mc, es[i], texts[i])
    ensures Extra(m, mc - {es[i]}, {tab} + Live(es[i..]) - {es[i]}) ==> Pending(m, mc - {es[i]}, tab, es, texts, i + 1)
  {
    hide TextAt;
    LiveFrom(es, i);
    assert {tab} + Live(es[i..]) - {es[i]} == {tab} + Live(es[i + 1..]);
    forall j | i + 1 <= j < |es| ensures TextAt(mc - {es[i]}, es[j], texts[j]) {
      TextNotRemoved(mc, es[i], es[j], texts[j]);
    }
  }

  lemma TextNotRemoved(m: Cells, x: Ptr, p: Ptr, s: string)
    requires TextAt(m, p, s) && p != x
    ensures TextAt(m - {x}, p, s)
  {
  }

  /** Composing the array from its entries. */
  method JoinItems(heap: Heap, entries: Ptr, numentries: nat, len: nat, depth: nat, fmt: bool, ghost m: Cells,
                   ghost items: seq<Json>, ghost es: seq<Ptr>)
    returns (out: Ptr)
    requires numentries == |items| == |es|
    requires Collected(heap, m, {entries} + Live(es), entries, es, ItemTexts(items, depth + 1, fmt), |items|)
    requires len >= |PrintItems(items, depth + 1, fmt)| + 3
    modifies heap`cells, heap`refused
    ensures old(heap.refused) ==> heap.refused
    ensures Result(heap, m, out, "[" + PrintItems(items, depth + 1, fmt) + "]")
  {
    hide Composing, Live, Distinct, TextAt, PrintItems, ItemTexts, Pending, Extra, Tabled;
    ghost var all, texts, mc := PrintItems(items, depth + 1, fmt), ItemTexts(items, depth + 1, fmt), heap.cells;
    CollectedTable(heap, m, {entries} + Live(es), entries, es, texts, |items|);
    StartPending(heap, m, entries, es, texts);
    ghost var b;
    out, b := heap.MallocBlock(len);
    if out == NULL {
      FreeEntries(heap, entries, numentries, m, es);
      return;
    }
    StartComposing(heap, mc, out, b);
    b := WriteTerminated(heap, out, 0, "[", mc, b, "");
    var pos, i := 1, 0;
    ghost var acc := "" + "[";
    assert items[0..] == items;
    while i < numentries
      invariant i <= numentries && pos == |acc| && |b| == len
      invariant Composing(heap, mc, out, b, acc) && Pending(m, mc, entries, es, texts, i)
      invariant "[" + all == acc + PrintItems(items[i..], depth + 1, fmt)
      invariant old(heap.refused) ==> heap.refused
    {
      PB.ItemsFrom(items, i, depth + 1, fmt);
      var n;
      n, b, mc := JoinItem(heap, out, entries, i, numentries, pos, depth, fmt, m, mc, b, acc, items, es);
      acc := acc + (Print(items[i], depth + 1, fmt) + Comma(i + 1 < |items|, fmt));
      pos := pos + n;
      i := i + 1;
    }
    PB.NoItemsText(items[i..], depth + 1, fmt);
    assert acc + "" == acc;
    NonePending(m, mc, entries, es, texts);
    FreeEntry(heap, out, entries, m, mc, {entries}, b, acc);
    ExtraNone(m, mc - {entries});
    assert {entries} - {entries} == {};
    b := Write(heap, out, pos, "]\0", m, b, acc);
    ItemsNoNul(items, depth + 1, fmt);
    assert acc + "]\0" == ("[" + all + "]") + "\0";
    ComposeDone(heap, m, out, b, "[" + all + "]");
  }

  lemma StartComposing(heap: Heap, m: Cells, out: Ptr, b: seq<char>)
    requires out != NULL && out !in m && heap.cells == m[out := Block(b)]
    ensures Composing(heap, m, out, b, "")
  {
    assert b[..0] == "";
  }

  lemma NonePending(m: Cells, mc: Cells, tab: Ptr, es: seq<Ptr>, texts: seq<string>)
    requires Pending(m, mc, tab, es, texts, |es|)
    ensures Extra(m, mc, {tab})
  {
    NoneLeft(es[|es|..]);
    assert {tab} + Live(es[|es|..]) == {tab};
  }

  /** One entry: copied, followed by its separator, freed. */
  method JoinItem(heap: Heap, out: Ptr, entries: Ptr, i: nat, numentries: nat, pos: nat, depth: nat, fmt: bool,
                  ghost m: Cells, ghost mc: Cells, ghost b: seq<char>, ghost acc: string, ghost items: seq<Json>,
                  ghost es: seq<Ptr>)
    returns (n: nat, ghost b': seq<char>, ghost mc': Cells)
    requires i < numentries == |items| == |es| && pos == |acc|
    requires Composing(heap, mc, out, b, acc) && Pending(m, mc, entries, es, ItemTexts(items, depth + 1, fmt), i)
    requires pos + |Print(items[i], depth + 1, fmt) + Comma(i + 1 < |items|, fmt)| < |b|
    modifies heap`cells
    ensures n == |Print(items[i], depth + 1, fmt) + Comma(i + 1 < |items|, fmt)|
    ensures Composing(heap, mc', out, b', acc + (Print(items[i], depth + 1, fmt) + Comma(i + 1 < |items|, fmt)))
              && |b'| == |b|
    ensures Pending(m, mc', entries, es, ItemTexts(items, depth + 1, fmt), i + 1)
  {
    hide Live, Distinct, TextAt, Print, Pending, Extra;
    ghost var texts, text, sep0 := ItemTexts(items, depth + 1, fmt), Print(items[i], depth + 1, fmt),
          Comma(i + 1 < |items|, fmt);
    assert texts[i] == text;
    NextPending(m, mc, entries, es, texts, i);
    PendingTable(heap, m, mc, out, b, acc, entries, es, texts, i);
    var e := heap.cells[entries].ptrs[i];
    n, b' := CopyEntry(heap, out, e, pos, mc, b, acc, text);
    var sep := if i != numentries - 1 then (if fmt then ", " else ",") else "";
    assert sep == sep0;
    if i != numentries - 1 {
      b' := WriteTerminated(heap, out, pos + n, sep, mc, b', acc + text);
    }
    assert acc + text + sep == acc + (text + sep);
    n := n + |sep|;
    FreeEntry(heap, out, e, m, mc, {entries} + Live(es[i..]), b', acc + (text + sep));
    mc' := mc - {e};
  }

  lemma PendingTable(heap: Heap, m: Cells, mc: Cells, out: Ptr, b: seq<char>, acc: string, tab: Ptr, es: seq<Ptr>,
                     texts: seq<string>, i: nat)
    requires Composing(heap, mc, out, b, acc) && Pending(m, mc, tab, es, texts, i)
    ensures tab in heap.cells && heap.cells[tab] == Table(es) && Extra(m, mc, {tab} + Live(es[i..]))
  {
  }

  // ----- objects

  ghost function KeyTexts(members: seq<Member>): seq<string> {
    seq(|members|, j requires 0 <= j < |members| => Quote(members[j].key))
  }

  ghost function ValueTexts(members: seq<Member>, depth: nat, fmt: bool): seq<string> {
    seq(|members|, j requires 0 <= j < |members| => Print(members[j].val, depth, fmt))
  }

  /** Names and values of the first `k` members are in the two tables. */
  ghost predicate Gathered(m: Cells, mc: Cells, names: Ptr, ns: seq<Ptr>, entries: Ptr, es: seq<Ptr>,
                           members: seq<Member>, depth: nat, fmt: bool, k: nat, full: bool) {
    && Left(m, mc, names, ns, entries, es, 0) && |es| == |members|
    && Stored(mc, ns, KeyTexts(members), k, full) && Stored(mc, es, ValueTexts(members, depth, fmt), k, full)
  }

  lemma GatheredLeft(m: Cells, mc: Cells, names: Ptr, ns: seq<Ptr>, entries: Ptr, es: seq<Ptr>, members: seq<Member>,
                     depth: nat, fmt: bool, k: nat, full: bool)
    requires Gathered(m, mc, names, ns, entries, es, members, depth, fmt, k, full)
    ensures Left(m, mc, names, ns, entries, es, 0) && |es| == |members|
  {
  }

  lemma OverLeft(m0: Cells, m: Cells, mc: Cells, names: Ptr, ns: seq<Ptr>, entries: Ptr, es: seq<Ptr>)
    requires Over(m0, m) && Left(m, mc, names, ns, entries, es, 0)
    ensures Over(m0, mc)
  {
    hide Live, Distinct;
  }

  /** print_object without a buffer. */
  method PrintObject(heap: Heap, item: Ptr, depth: nat, fmt: bool, ghost m0: Cells, ghost t: Tree,
                     ghost members: seq<Member>)
    returns (out: Ptr)
    requires Over(m0, heap.cells) && Parent(m0, t) && DenotesMembers(m0, t.kids, members) && Printable(Obj(members))
              && item == t.p
    modifies heap`cells, heap`refused
    ensures old(heap.refused) ==> heap.refused
    ensures Result(heap, old(heap.cells), out, Print(Obj(members), depth, fmt))
    decreases t, 1
  {
    hide Parent, PrintMembers, DenotesMembers, Result, Gathered;
    ghost var m := heap.cells;
    OverParent(m0, m, t);
    MembersLength(m0, t.kids, members);
    var numentries := PB.GetArraySize(heap, item, t);
    if numentries == 0 {
      var text := "{" + ((if fmt then "\n" + Tabs(depth - 1) else "") + "}");
      TabsNoNul(depth - 1);
      assert text == Print(Obj(members), depth, fmt);
      out := PrintLiteral(heap, if fmt then depth + 4 else 3, text);
      return;
    }
    var ok, entries, names;
    ghost var ns, es;
    ok, entries, names, ns, es := NewTables(heap, numentries, members, depth + 1, fmt);
    if !ok {
      FailedResult(heap, m, Print(Obj(members), depth, fmt));
      return NULL;
    }
    out := GatherAndJoin(heap, item, depth, fmt, names, entries, m, m0, t, members, ns, es);
  }

  lemma FailedResult(heap: Heap, m: Cells, text: string)
    requires heap.cells == m && heap.refused
    ensures Result(heap, m, NULL, text)
  {
  }

  /** Both tables, or none. */
  method NewTables(heap: Heap, n: nat, ghost members: seq<Member>, ghost depth: nat, ghost fmt: bool)
    returns (ok: bool, entries: Ptr, names: Ptr, ghost ns: seq<Ptr>, ghost es: seq<Ptr>)
    requires n == |members|
    modifies heap`cells, heap`refused
    ensures old(heap.refused) ==> heap.refused
    ensures !ok ==> heap.cells == old(heap.cells) && heap.refused
    ensures ok ==> Gathered(old(heap.cells), heap.cells, names, ns, entries, es, members, depth, fmt, 0, true)
  {
    hide Live, Distinct;
    ghost var m := heap.cells;
    entries, es := NewTable(heap, n);
    ok, names, ns := false, NULL, es;
    if entries == NULL {
      return;
    }
    ghost var m1 := heap.cells;
    names, ns := NewTable(heap, n);
    if names == NULL {
      heap.Free(entries);
      assert heap.cells.Keys == m.Keys;
      return;
    }
    LeftNew(m, m1, heap.cells, entries, es, names, ns);
    ok := true;
  }

  /** Everything after the tables have been allocated. */
  method GatherAndJoin(heap: Heap, item: Ptr, depth: nat, fmt: bool, names: Ptr, entries: Ptr, ghost m: Cells,
                       ghost m0: Cells, ghost t: Tree, ghost members: seq<Member>, ghost ns0: seq<Ptr>,
                       ghost es0: seq<Ptr>)
    returns (out: Ptr)
    requires Over(m0, m) && Parent(m0, t) && DenotesMembers(m0, t.kids, members) && Printable(Obj(members))
              && item == t.p
    requires |members| == |t.kids| > 0
              && Gathered(m, heap.cells, names, ns0, entries, es0, members, depth + 1, fmt, 0, true)
    modifies heap`cells, heap`refused
    ensures old(heap.refused) ==> heap.refused
    ensures Result(heap, m, out, Print(Obj(members), depth, fmt))
    decreases t, 0
  {
    hide Parent, PrintMembers, DenotesMembers, Gathered, Over, Left, Stored, Result, PB.MemberText, Print, Quote;
    ghost var all, ns, es := PrintMembers(members, depth + 1, fmt), ns0, es0;
    var len := 7 + (if fmt then depth + 1 else 0);
    ghost var len0 := len;
    GatheredLeft(m, heap.cells, names, ns, entries, es, members, depth + 1, fmt, 0, true);
    OverLeft(m0, m, heap.cells, names, ns, entries, es);
    OverParent(m0, heap.cells, t);
    FirstNull(m0, t);
    var child := heap.cells[item].node.child;
    var fail, i := false, 0;
    assert members[0..] == members;
    while child != NULL
      invariant (old(heap.refused) ==> heap.refused) && (fail ==> heap.refused)
      invariant i <= |members|
      invariant child == Head(t.kids[i..], NULL) && (child == NULL <==> i == |members|)
      invariant Gathered(m, heap.cells, names, ns, entries, es, members, depth + 1, fmt, i, !fail)
      invariant !fail ==> len + |PrintMembers(members[i..], depth + 1, fmt)| >= len0 + |all|
      decreases |members| - i
    {
      PB.MembersFrom(members, i, depth + 1, fmt);
      MemberSize(members[i], depth + 1, fmt, i + 1 < |members|);
      var n;
      child, n, ns, es := GatherMember(heap, child, depth + 1, fmt, names, entries, i, m, m0, t, members, ns, es,
            !fail);
      if n >= 0 {
        len := len + n + 2 + (if fmt then 2 + (depth + 1) else 0);
      } else {
        fail := true;
      }
      i := i + 1;
    }
    PB.NoMembersText(members[i..], depth + 1, fmt);
    GatheredLeft(m, heap.cells, names, ns, entries, es, members, depth + 1, fmt, |members|, !fail);
    out := NULL;
    if !fail {
      out := JoinMembers(heap, names, entries, i, len, depth, fmt, m, members, ns, es);
    } else {
      FreePair(heap, names, entries, i, m, ns, es);
      FailedResult(heap, m, Print(Obj(members), depth, fmt));
    }
  }

  lemma MemberSize(mb: Member, depth: nat, fmt: bool, more: bool)
    ensures |PB.MemberText(mb, depth, fmt, more)|
         <= |Quote(mb.key)| + |Print(mb.val, depth, fmt)| + 2 + (if fmt then 2 + depth else 0)
  {
    hide Quote, Print;
  }

  /** One member: its name and its value go into slots `i`, whichever of them
      could be printed; `n` is their joint length, or -1. */
  method GatherMember(heap: Heap, child: Ptr, depth: nat, fmt: bool, names: Ptr, entries: Ptr, i: nat, ghost m: Cells,
                      ghost m0: Cells, ghost t: Tree, ghost members: seq<Member>, ghost ns: seq<Ptr>,
                      ghost es: seq<Ptr>, ghost full: bool)
    returns (next: Ptr, n: int, ghost ns': seq<Ptr>, ghost es': seq<Ptr>)
    requires Over(m0, m) && Parent(m0, t) && DenotesMembers(m0, t.kids, members) && Printable(Obj(members))
    requires i < |members| == |t.kids| && child == t.kids[i].p
    requires Gathered(m, heap.cells, names, ns, entries, es, members, depth, fmt, i, full)
    modifies heap`cells, heap`refused
    ensures old(heap.refused) ==> heap.refused
    ensures next == Head(t.kids[i + 1..], NULL) && (next == NULL <==> i + 1 == |members|)
    ensures n >= -1 && (n == -1 ==> heap.refused)
    ensures n >= 0 ==> n == |Quote(members[i].key)| + |Print(members[i].val, depth, fmt)|
    ensures Gathered(m, heap.cells, names, ns', entries, es', members, depth, fmt, i + 1, full && n >= 0)
    decreases t.kids[i], 3
  {
    hide Parent, DenotesMembers, Denotes, TextAt, Print, Over, Left, Stored, Quote, Result;
    ghost var mb, m1, keys, vals := members[i], heap.cells, KeyTexts(members), ValueTexts(members, depth, fmt);
    PB.MemberAt(m0, t.kids, members, i);
    PB.KidAt(m0, t, i);
    OverLeft(m0, m, m1, names, ns, entries, es);
    OverParent(m0, m1, t.kids[i]);
    OverText(m0, m1, t.kids[i].name, mb.key);
    next := heap.cells[child].node.next;
    var str := PrintStringPtr(heap, heap.cells[child].node.name, mb.key);
    RefusedResult(heap, m1, str, Quote(mb.key));
    LeftLength(m, m1, names, ns, entries, es, 0);
    assert keys[i] == Quote(mb.key) && vals[i] == Print(mb.val, depth, fmt);
    ns' := Store(heap, names, i, str, m, m1, ns, entries, es, keys, full);
    ghost var m2 := heap.cells;
    LeftOthers(m, m1, names, ns, entries, es);
    StoredKept(m1, m2, names, es, vals, i, full, full && str != NULL);
    LeftSwap(m, m2, names, ns', entries, es, 0);
    OverLeft(m0, m, m2, names, ns', entries, es);
    var ret := PrintValue(heap, child, depth, fmt, m0, t.kids[i], mb.val);
    RefusedResult(heap, m2, ret, vals[i]);
    es' := Store(heap, entries, i, ret, m, m2, es, names, ns', vals, full && str != NULL);
    LeftOthers(m, m2, entries, es, names, ns');
    StoredKept(m2, heap.cells, entries, ns', keys, i + 1, full && str != NULL, full && str != NULL && ret != NULL);
    LeftSwap(m, heap.cells, entries, es', names, ns', 0);
    n := -1;
    if str != NULL && ret != NULL {
      StoredAt(heap.cells, ns', keys, i + 1, full, i);
      var lstr := StrLen(heap, str, keys[i]);
      var lret := StrLen(heap, ret, vals[i]);
      n := lret + lstr;
    }
  }

  lemma LeftOthers(m: Cells, mc: Cells, tab: Ptr, es: seq<Ptr>, other: Ptr, os: seq<Ptr>)
    requires Left(m, mc, tab, es, other, os, 0)
    ensures tab !in Live(os) && tab !in Live(es)
  {
    hide Live, Distinct;
    assert es[0..] == es && os[0..] == os;
  }

  lemma StoredAt(mc: Cells, es: seq<Ptr>, texts: seq<string>, k: nat, full: bool, j: nat)
    requires Stored(mc, es, texts, k, full) && j < k && (full || es[j] != NULL)
    ensures es[j] != NULL && TextAt(mc, es[j], texts[j])
  {
  }

  // ----- joining the members

  /** Members `i` and later are still in the tables with their texts. */
  ghost predicate Waiting(m: Cells, mc: Cells, names: Ptr, ns: seq<Ptr>, entries: Ptr, es: seq<Ptr>,
                          members: seq<Member>, depth: nat, fmt: bool, i: nat) {
    && Left(m, mc, names, ns, entries, es, i) && |es| == |members|
    && forall j :: i <= j < |es| ==>
         && ns[j] != NULL && TextAt(mc, ns[j], Quote(members[j].key))
         && es[j] != NULL && TextAt(mc, es[j], Print(members[j].val, depth, fmt))
  }

  lemma AllWaiting(m: Cells, mc: Cells, names: Ptr, ns: seq<Ptr>, entries: Ptr, es: seq<Ptr>, members: seq<Member>,
                   depth: nat, fmt: bool)
    requires Gathered(m, mc, names, ns, entries, es, members, depth, fmt, |members|, true)
    ensures Waiting(m, mc, names, ns, entries, es, members, depth, fmt, 0)
  {
    hide Left, Stored, TextAt, Quote, Print;
    var keys, vals := KeyTexts(members), ValueTexts(members, depth, fmt);
    GatheredLeft(m, mc, names, ns, entries, es, members, depth, fmt, |members|, true);
    LeftLength(m, mc, names, ns, entries, es, 0);
    forall j | 0 <= j < |es|
      ensures ns[j] != NULL && TextAt(mc, ns[j], Quote(members[j].key))
      ensures es[j] != NULL && TextAt(mc, es[j], Print(members[j].val, depth, fmt))
    {
      StoredAt(mc, ns, keys, |members|, true, j);
      StoredAt(mc, es, vals, |members|, true, j);
      assert keys[j] == Quote(members[j].key) && vals[j] == Print(members[j].val, depth, fmt);
    }
  }

  lemma LeftLength(m: Cells, mc: Cells, tab: Ptr, es: seq<Ptr>, other: Ptr, os: seq<Ptr>, i: nat)
    requires Left(m, mc, tab, es, other, os, i)
    ensures i <= |es| == |os| && tab in mc && mc[tab] == Table(es) && other in mc && mc[other] == Table(os)
  {
  }

  /** Freeing both strings of member `i` leaves the later ones waiting. */
  lemma WaitingStep(m: Cells, mc: Cells, names: Ptr, ns: seq<Ptr>, entries: Ptr, es: seq<Ptr>, members: seq<Member>,
                    depth: nat, fmt: bool, i: nat)
    requires Waiting(m, mc, names, ns, entries, es, members, depth, fmt, i) && i < |members|
    ensures |ns| == |es| && ns[i] in mc && es[i] in mc && ns[i] != es[i] && ns[i] != NULL && es[i] != NULL
    ensures TextAt(mc, ns[i], Quote(members[i].key)) && TextAt(mc, es[i], Print(members[i].val, depth, fmt))
    ensures Waiting(m, mc - {ns[i]} - {es[i]}, names, ns, entries, es, members, depth, fmt, i + 1)
  {
    hide Left, TextAt, Quote, Print;
    LeftLength(m, mc, names, ns, entries, es, i);
    LeftStep(m, mc, names, ns, entries, es, i);
    var mc' := mc - {ns[i]} - {es[i]};
    forall j | i + 1 <= j < |es|
      ensures TextAt(mc', ns[j], Quote(members[j].key)) && TextAt(mc', es[j], Print(members[j].val, depth, fmt))
    {
      DistinctStrings(m, mc, names, ns, entries, es, i, j);
      TextNotRemoved(mc, ns[i], ns[j], Quote(members[j].key));
      TextNotRemoved(mc - {ns[i]}, es[i], ns[j], Quote(members[j].key));
      TextNotRemoved(mc, ns[i], es[j], Print(members[j].val, depth, fmt));
      TextNotRemoved(mc - {ns[i]}, es[i], es[j], Print(members[j].val, depth, fmt));
    }
  }

  lemma DistinctStrings(m: Cells, mc: Cells, names: Ptr, ns: seq<Ptr>, entries: Ptr, es: seq<Ptr>, i: nat, j: nat)
    requires Left(m, mc, names, ns, entries, es, i) && i < j < |es| && |ns| == |es|
    requires ns[i] != NULL && es[i] != NULL && ns[j] != NULL && es[j] != NULL
    ensures {ns[i], es[i]} !! {ns[j], es[j]}
  {
    assert ns[i..][0] == ns[i] && ns[i..][j - i] == ns[j];
    assert es[i..][0] == es[i] && es[i..][j - i] == es[j];
    assert ns[i] in Live(ns[i..]) && ns[j] in Live(ns[i..]) && es[i] in Live(es[i..]) && es[j] in Live(es[i..]);
  }

  /** Composing the object from its entries. */
  method JoinMembers(heap: Heap, names: Ptr, entries: Ptr, numentries: nat, len: nat, depth: nat, fmt: bool,
                     ghost m: Cells, ghost members: seq<Member>, ghost ns: seq<Ptr>, ghost es: seq<Ptr>)
    returns (out: Ptr)
    requires numentries == |members| == |es| && members != []
    requires Gathered(m, heap.cells, names, ns, entries, es, members, depth + 1, fmt, |members|, true)
    requires len >= |PrintMembers(members, depth + 1, fmt)| + 7 + (if fmt then depth + 1 else 0)
    modifies heap`cells, heap`refused
    ensures old(heap.refused) ==> heap.refused
    ensures Result(heap, m, out, Print(Obj(members), depth, fmt))
  {
    hide Composing, PrintMembers, Gathered, Waiting, Left, Result, PB.MemberText, Extra, TextAt, Print, Tabs;
    ghost var all, mc := PrintMembers(members, depth + 1, fmt), heap.cells;
    GatheredLeft(m, mc, names, ns, entries, es, members, depth + 1, fmt, |members|, true);
    AllWaiting(m, mc, names, ns, entries, es, members, depth + 1, fmt);
    PB.ObjectText(members, depth, fmt);
    var close := (if fmt then Tabs(depth) else "") + "}";
    var open := if fmt then "{\n" else "{";
    assert close == Opt(fmt, Tabs(depth)) + "}" && open == "{" + Opt(fmt, "\n");
    ghost var b;
    out, b := heap.MallocBlock(len);
    if out == NULL {
      FreePair(heap, names, entries, numentries, m, ns, es);
      FailedResult(heap, m, Print(Obj(members), depth, fmt));
      return;
    }
    var pos;
    ghost var acc;
    StartComposing(heap, mc, out, b);
    pos, b, mc, acc := JoinAll(heap, out, names, entries, numentries, open, depth, fmt, m, mc, b, members, ns, es);
    NoneWaiting(m, mc, names, ns, entries, es, members, depth + 1, fmt);
    FreeEntry(heap, out, names, m, mc, {names, entries}, b, acc);
    FreeEntry(heap, out, entries, m, mc - {names}, {names, entries} - {names}, b, acc);
    b := Write(heap, out, pos, close + "\0", m, b, acc);
    PrintNoNul(Obj(members), depth, fmt);
    assert acc + (close + "\0") == (open + all + close) + "\0";
    ComposeDone(heap, m, out, b, Print(Obj(members), depth, fmt));
    DoneResult(heap, m, out, Print(Obj(members), depth, fmt));
  }

  /** The joining loop, with the opening brace. */
  method JoinAll(heap: Heap, out: Ptr, names: Ptr, entries: Ptr, numentries: nat, open: string, depth: nat, fmt: bool,
                 ghost m: Cells, ghost mc0: Cells, ghost b0: seq<char>, ghost members: seq<Member>,
                 ghost ns: seq<Ptr>, ghost es: seq<Ptr>)
    returns (pos: nat, ghost b: seq<char>, ghost mc: Cells, ghost acc: string)
    requires numentries == |members| && Waiting(m, mc0, names, ns, entries, es, members, depth + 1, fmt, 0)
    requires Composing(heap, mc0, out, b0, "") && |b0| > |open + PrintMembers(members, depth + 1, fmt)|
    modifies heap`cells
    ensures acc == open + PrintMembers(members, depth + 1, fmt) && pos == |acc| && |b| == |b0|
    ensures Composing(heap, mc, out, b, acc)
              && Waiting(m, mc, names, ns, entries, es, members, depth + 1, fmt, |members|)
  {
    hide Composing, PrintMembers, Waiting, PB.MemberText;
    ghost var all := PrintMembers(members, depth + 1, fmt);
    mc, b := mc0, b0;
    b := WriteTerminated(heap, out, 0, open, mc, b, "");
    var i := 0;
    pos, acc := |open|, "" + open;
    assert members[0..] == members;
    while i < numentries
      invariant i <= numentries && pos == |acc| && |b| == |b0|
      invariant Composing(heap, mc, out, b, acc) && Waiting(m, mc, names, ns, entries, es, members, depth + 1, fmt, i)
      invariant open + all == acc + PrintMembers(members[i..], depth + 1, fmt)
    {
      PB.MembersFrom(members, i, depth + 1, fmt);
      var n;
      n, b, mc := JoinMember(heap, out, names, entries, i, numentries, pos, depth + 1, fmt, m, mc, b, acc, members,
            ns, es);
      acc := acc + PB.MemberText(members[i], depth + 1, fmt, i + 1 < |members|);
      pos := pos + n;
      i := i + 1;
    }
    PB.NoMembersText(members[i..], depth + 1, fmt);
    assert acc + "" == acc;
  }

  lemma RefusedResult(heap: Heap, m: Cells, out: Ptr, text: string)
    requires Result(heap, m, out, text)
    ensures out == NULL ==> heap.refused
  {
  }

  lemma DoneResult(heap: Heap, m: Cells, out: Ptr, text: string)
    requires out != NULL && Extra(m, heap.cells, {out}) && TextAt(heap.cells, out, text)
    ensures Result(heap, m, out, text)
  {
  }

  lemma NoneWaiting(m: Cells, mc: Cells, names: Ptr, ns: seq<Ptr>, entries: Ptr, es: seq<Ptr>, members: seq<Member>,
                    depth: nat, fmt: bool)
    requires Waiting(m, mc, names, ns, entries, es, members, depth, fmt, |members|)
    ensures Extra(m, mc, {names, entries}) && mc - {names} - {entries} == m && names != entries
  {
    LeftDone(m, mc, names, ns, entries, es);
  }

  /** One member: indentation, name, colon, value, separator; then both strings are freed. */
  method JoinMember(heap: Heap, out: Ptr, names: Ptr, entries: Ptr, i: nat, numentries: nat, pos: nat, depth: nat,
                    fmt: bool, ghost m: Cells, ghost mc: Cells, ghost b: seq<char>, ghost acc: string,
                    ghost members: seq<Member>, ghost ns: seq<Ptr>, ghost es: seq<Ptr>)
    returns (n: nat, ghost b': seq<char>, ghost mc': Cells)
    requires i < numentries == |members| && pos == |acc|
    requires Composing(heap, mc, out, b, acc) && Waiting(m, mc, names, ns, entries, es, members, depth, fmt, i)
    requires pos + |PB.MemberText(members[i], depth, fmt, i + 1 < |members|)| < |b|
    modifies heap`cells
    ensures n == |PB.MemberText(members[i], depth, fmt, i + 1 < |members|)|
    ensures Composing(heap, mc', out, b', acc + PB.MemberText(members[i], depth, fmt, i + 1 < |members|)) && |b'| == |b|
    ensures Waiting(m, mc', names, ns, entries, es, members, depth, fmt, i + 1)
  {
    hide Composing, Waiting, TextAt, Print, KeyText, MemberEnd, Quote;
    ghost var mb, more := members[i], i + 1 < |members|;
    ghost var key, val, last := KeyText(mb.key, depth, fmt), Print(mb.val, depth, fmt), MemberEnd(more, fmt);
    assert acc + PB.MemberText(mb, depth, fmt, more) == acc + key + val + last;
    WaitingStep(m, mc, names, ns, entries, es, members, depth, fmt, i);
    JoinTables(heap, m, mc, out, b, acc, names, ns, entries, es, members, depth, fmt, i);
    var name, entry := heap.cells[names].ptrs[i], heap.cells[entries].ptrs[i];
    n, b' := JoinKey(heap, out, name, pos, depth, fmt, mc, b, acc, mb.key);
    var w;
    w, b' := CopyEntry(heap, out, entry, pos + n, mc, b', acc + key, val);
    n := n + w;
    var end := (if i != numentries - 1 then "," else "") + (if fmt then "\n" else "");
    EndText(end, more, fmt);
    b' := WriteTerminated(heap, out, pos + n, end, mc, b', acc + key + val);
    n := n + |end|;
    FreeString(heap, out, name, mc, b', acc + key + val + last);
    FreeString(heap, out, entry, mc - {name}, b', acc + key + val + last);
    mc' := mc - {name} - {entry};
  }

  lemma EndText(end: string, more: bool, fmt: bool)
    requires end == (if more then "," else "") + (if fmt then "\n" else "")
    ensures end == MemberEnd(more, fmt)
  {
  }

  /** Indentation, name and colon. */
  method JoinKey(heap: Heap, out: Ptr, name: Ptr, pos: nat, depth: nat, fmt: bool, ghost mc: Cells,
                 ghost b: seq<char>, ghost acc: string, ghost key: string)
    returns (n: nat, ghost b': seq<char>)
    requires Composing(heap, mc, out, b, acc) && pos == |acc| && TextAt(mc, name, Quote(key))
    requires pos + |KeyText(key, depth, fmt)| <= |b|
    modifies heap`cells
    ensures n == |KeyText(key, depth, fmt)| && Composing(heap, mc, out, b', acc + KeyText(key, depth, fmt))
              && |b'| == |b|
  {
    hide Composing, TextAt, Quote;
    var tabs := if fmt then Tabs(depth) else "";
    var colon := if fmt then ":\t" else ":";
    ghost var quote := Quote(key);
    KeyPieces(acc, key, depth, fmt, tabs, colon);
    hide KeyText, Tabs;
    b' := Write(heap, out, pos, tabs, mc, b, acc);
    n := |tabs|;
    var w;
    w, b' := CopyEntry(heap, out, name, pos + n, mc, b', acc + tabs, quote);
    n := n + w;
    b' := Write(heap, out, pos + n, colon, mc, b', acc + tabs + quote);
    n := n + |colon|;
  }

  lemma KeyPieces(acc: string, key: string, depth: nat, fmt: bool, tabs: string, colon: string)
    requires tabs == if fmt then Tabs(depth) else ""
    requires colon == if fmt then ":\t" else ":"
    ensures |KeyText(key, depth, fmt)| == |tabs| + |Quote(key)| + |colon|
    ensures acc + tabs + Quote(key) + colon == acc + KeyText(key, depth, fmt)
  {
    assert colon == ":" + Opt(fmt, "\t");
    assert KeyText(key, depth, fmt) == tabs + (Quote(key) + colon);
    hide Quote, Tabs, KeyText;
    Regroup(acc, tabs, Quote(key), colon);
  }

  lemma Regroup(a: string, b: string, c: string, d: string)
    ensures a + b + c + d == a + (b + (c + d))
  {
  }

  lemma JoinTables(heap: Heap, m: Cells, mc: Cells, out: Ptr, b: seq<char>, acc: string, names: Ptr, ns: seq<Ptr>,
                   entries: Ptr, es: seq<Ptr>, members: seq<Member>, depth: nat, fmt: bool, i: nat)
    requires Composing(heap, mc, out, b, acc) && Waiting(m, mc, names, ns, entries, es, members, depth, fmt, i)
    ensures names in heap.cells && entries in heap.cells && heap.cells[names] == Table(ns)
              && heap.cells[entries] == Table(es)
    ensures |ns| == |es| == |members|
  {
    hide Live, Distinct;
  }

  // ----- cJSON_Print and cJSON_PrintUnformatted

  /** The text in a block of its own, or NULL with the heap as before. */
  method PrintTree(heap: Heap, item: Ptr, fmt: bool, ghost t: Tree, ghost v: Json) returns (out: Ptr)
    requires Parent(heap.cells, t) && Denotes(heap.cells, t, v) && Printable(v) && item == t.p
    modifies heap`cells, heap`refused
    ensures Result(heap, old(heap.cells), out, Print(v, 0, fmt))
  {
    hide Parent, Denotes, Print, Result;
    heap.refused := false;
    out := PrintValue(heap, item, 0, fmt, heap.cells, t, v);
  }
}
