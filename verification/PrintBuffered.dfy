/** cJSON_PrintBuffered: the printer that writes into one growing buffer. */
module PrintBuffered {
  import opened CText
  import opened JsonValue
  import opened Numeral
  import opened Escape
  import opened PrintText
  import opened Memory
  import opened Trees
  import opened ListOps
  import opened ParseStringHeap
  import opened TextWriting
  import opened PrintBuffers
  import opened Terminators

  const CAPACITY: nat := 0x4000_0000

  class PrintBuffer {
    var buffer: Ptr
    var length: nat
    var offset: nat

    constructor (buffer: Ptr, length: nat)
      ensures this.buffer == buffer && this.length == length && this.offset == 0
    {
      this.buffer, this.length, this.offset := buffer, length, 0;
    }
  }

  /** The heap is `m` plus the buffer's block, which holds `b`. */
  ghost predicate Backed(heap: Heap, p: PrintBuffer, m: Cells, b: seq<char>)
    reads heap, p
  {
    && p.buffer != NULL && p.buffer !in m && Holds(heap, m, p.buffer, b)
    && |b| == p.length && p.offset <= p.length
  }

  /** After a refused allocation the buffer is gone and the heap is `m` again. */
  ghost predicate Lost(heap: Heap, p: PrintBuffer, m: Cells)
    reads heap, p
  {
    p.buffer == NULL && heap.cells == m && heap.refused
  }

  /** From `k` on `t` has been written; the buffer may have been replaced by a
      longer one, and everything in front of `k` is kept. */
  ghost predicate Grew(b: seq<char>, b': seq<char>, k: nat, t: string) {
    k <= |b| <= |b'| && k + |t| <= |b'| && b'[..k] == b[..k] && b'[k..k + |t|] == t
  }

  lemma GrewMore(b0: seq<char>, b1: seq<char>, b2: seq<char>, k: nat, t: string, u: string, tu: string)
    requires Grew(b0, b1, k, t) && Grew(b1, b2, k + |t|, u) && tu == t + u
    ensures Grew(b0, b2, k, tu)
  {
    assert b2[..k + |t|][..k] == b2[..k] && b1[..k + |t|][..k] == b1[..k];
    assert b2[k..k + |t|] == b2[..k + |t|][k..] && b1[k..k + |t|] == b1[..k + |t|][k..];
    assert b2[k..k + |tu|] == b2[k..k + |t|] + b2[k + |t|..k + |tu|];
  }

  lemma GrewLess(b0: seq<char>, b1: seq<char>, k: nat, t: string, u: string)
    requires Grew(b0, b1, k, t + u)
    ensures Grew(b0, b1, k, t)
  {
    assert b1[k..k + |t|] == b1[k..k + |t + u|][..|t|];
  }

  /** `ensure`: at least `needed` bytes from the offset on, or the loss of the buffer. */
  method Ensure(heap: Heap, p: PrintBuffer, needed: nat, ghost m: Cells, ghost b: seq<char>)
    returns (ok: bool, ghost b': seq<char>)
    requires Backed(heap, p, m, b) || Lost(heap, p, m)
    requires Backed(heap, p, m, b) ==> 1 <= p.offset + needed <= CAPACITY
    modifies heap`cells, heap`refused, p`buffer, p`length
    ensures old(heap.refused) ==> heap.refused
    ensures old(p.buffer) == NULL ==> !ok
    ensures !ok ==> Lost(heap, p, m)
    ensures ok ==> Backed(heap, p, m, b') && p.offset + needed <= |b'| && |b| <= |b'| && b'[..|b|] == b
  {
    b' := b;
    if p.buffer == NULL {
      return false, b;
    }
    var total := p.offset + needed;
    if total <= p.length {
      return true, b;
    }
    ghost var n := LeastPower(total);
    ok, b' := Regrow(heap, p, Pow2gt(total), m, b);
  }

  /** A longer block with the old content, or no buffer at all. */
  method Regrow(heap: Heap, p: PrintBuffer, newsize: nat, ghost m: Cells, ghost b: seq<char>)
    returns (ok: bool, ghost b': seq<char>)
    requires Backed(heap, p, m, b) && p.length <= newsize
    modifies heap`cells, heap`refused, p`buffer, p`length
    ensures old(heap.refused) ==> heap.refused
    ensures !ok ==> Lost(heap, p, m)
    ensures ok ==> Backed(heap, p, m, b') && |b'| == newsize && b'[..|b|] == b
  {
    var newbuffer;
    ghost var junk;
    newbuffer, junk := heap.MallocBlock(newsize);
    b' := b;
    var former := p.buffer;
    if newbuffer == NULL {
      heap.Free(former);
      p.length, p.buffer := 0, NULL;
      assert heap.cells == m;
      return false, b;
    }
    var content := heap.cells[former].bytes[..p.length];
    assert heap.cells == m[former := Block(b)][newbuffer := Block(junk)];
    b' := WriteText(heap, newbuffer, 0, content, m[former := Block(b)], junk);
    assert b'[..|b|] == b'[0..|b|] == b;
    heap.Free(former);
    assert heap.cells == m[newbuffer := Block(b')];
    p.length, p.buffer := newsize, newbuffer;
    ok := true;
  }

  /** `ensure` and the characters then written at the offset. */
  method Append(heap: Heap, p: PrintBuffer, needed: nat, text: string, ghost m: Cells, ghost b: seq<char>)
    returns (ok: bool, ghost b': seq<char>)
    requires Backed(heap, p, m, b) || Lost(heap, p, m)
    requires |text| <= needed
    requires Backed(heap, p, m, b) ==> 1 <= p.offset + needed <= CAPACITY
    modifies heap`cells, heap`refused, p`buffer, p`length
    ensures old(heap.refused) ==> heap.refused
    ensures old(p.buffer) == NULL ==> !ok
    ensures !ok ==> Lost(heap, p, m)
    ensures ok ==> Backed(heap, p, m, b') && Grew(b, b', p.offset, text)
  {
    ghost var b1;
    ok, b1 := Ensure(heap, p, needed, m, b);
    b' := b1;
    if !ok {
      return;
    }
    b' := WriteText(heap, p.buffer, p.offset, text, m, b1);
    assert b1[..|b|][..p.offset] == b1[..p.offset];
  }

  /** `update`: the offset behind the text that starts at the current offset. */
  method Update(heap: Heap, p: PrintBuffer, ghost m: Cells, ghost b: seq<char>, ghost t: string) returns (n: nat)
    requires Lost(heap, p, m) || (Backed(heap, p, m, b) && p.offset + |t| < |b| && '\0' !in t
                                  && b[p.offset..p.offset + |t|] == t && b[p.offset + |t|] == '\0')
    ensures p.buffer == NULL ==> n == 0
    ensures p.buffer != NULL ==> n == p.offset + |t|
  {
    if p.buffer == NULL {
      return 0;
    }
    n := p.offset;
    TextInBlock(b, p.offset, t);
    while heap.cells[p.buffer].bytes[n] != '\0'
      invariant p.offset <= n <= p.offset + |t|
      decreases p.offset + |t| - n
    {
      n := n + 1;
    }
  }

  lemma TextInBlock(b: seq<char>, k: nat, t: string)
    requires k + |t| < |b| && '\0' !in t && b[k..k + |t|] == t
    ensures forall j :: k <= j < k + |t| ==> b[j] != '\0'
  {
    forall j | k <= j < k + |t| ensures b[j] != '\0' {
      assert b[k..k + |t|][j - k] == b[j];
    }
  }

  // ----- values

  /** What every print function achieves: its text and a terminator at the
      offset it started from, and an offset not beyond the text. */
  ghost predicate Printed(heap: Heap, p: PrintBuffer, m: Cells, b: seq<char>, b': seq<char>, k: nat, text: string)
    reads heap, p
  {
    Backed(heap, p, m, b') && Grew(b, b', k, text + "\0") && k <= p.offset <= k + |text|
  }

  /** A text of known length: reserve, write, terminate. */
  method PrintLiteral(heap: Heap, p: PrintBuffer, needed: nat, text: string, ghost m: Cells, ghost b: seq<char>)
    returns (ok: bool, ghost b': seq<char>)
    requires Backed(heap, p, m, b) && |text| < needed && p.offset + needed <= CAPACITY
    modifies heap`cells, heap`refused, p`buffer, p`length
    ensures old(heap.refused) ==> heap.refused
    ensures if ok then Printed(heap, p, m, b, b', p.offset, text) else Lost(heap, p, m)
  {
    ok, b' := Append(heap, p, needed, text + "\0", m, b);
  }

  /** print_string_ptr with a buffer. */
  method PrintStringPtr(heap: Heap, p: PrintBuffer, str: Ptr, ghost m: Cells, ghost b: seq<char>, ghost s: string)
    returns (ok: bool, ghost b': seq<char>)
    requires Backed(heap, p, m, b) && TextAt(m, str, s) && p.offset + |Quote(s)| + 1 <= CAPACITY
    modifies heap`cells, heap`refused, p`buffer, p`length
    ensures old(heap.refused) ==> heap.refused
    ensures if ok then Printed(heap, p, m, b, b', p.offset, Quote(s)) else Lost(heap, p, m)
  {
    hide EscapeAll, TextAt;
    StringInBase(heap, p, m, b, str, s);
    var flag, len := QuotedSize(heap, str, s);
    ghost var b1;
    ok, b1 := Ensure(heap, p, len + 3, m, b);
    b' := b1;
    if ok {
      StringInBase(heap, p, m, b1, str, s);
      b' := WriteQuoted(heap, str, flag, p.buffer, p.offset, m, b1, s);
      assert b1[..|b|][..p.offset] == b1[..p.offset];
    }
  }

  lemma StringInBase(heap: Heap, p: PrintBuffer, m: Cells, b: seq<char>, str: Ptr, s: string)
    requires Backed(heap, p, m, b) && TextAt(m, str, s)
    ensures TextAt(heap.cells, str, s) && str != p.buffer
  {
  }

  /** The node a tree's root address names, in the heap that also holds the buffer. */
  lemma RootInBase(heap: Heap, p: PrintBuffer, m: Cells, b: seq<char>, t: Tree)
    requires Backed(heap, p, m, b) && Subtree(m, t)
    ensures IsRecord(m, t.p) && t.p in heap.cells && heap.cells[t.p] == m[t.p]
    ensures m[t.p].node.child == Head(t.kids, NULL) && m[t.p].node.valuestring == t.text && m[t.p].node.name == t.name
  {
    hide Chain, IsText;
  }

  /** The characters a print buffer may have to hold at once. */
  ghost predicate Fits(k: nat, text: string) {
    k + |text| + 64 <= CAPACITY
  }

  /** print_value with a buffer; `ok` is a non-NULL result, which then points
      to the text at the old offset of `p.buffer`. */
  method PrintValue(heap: Heap, p: PrintBuffer, item: Ptr, depth: nat, fmt: bool, ghost m: Cells, ghost b: seq<char>,
                    ghost t: Tree, ghost v: Json)
    returns (ok: bool, ghost b': seq<char>)
    requires Backed(heap, p, m, b) && Parent(m, t) && Denotes(m, t, v) && Printable(v) && item == t.p
    requires Fits(p.offset, Print(v, depth, fmt))
    modifies heap`cells, heap`refused, p
    ensures old(heap.refused) ==> heap.refused
    ensures if ok then Printed(heap, p, m, b, b', old(p.offset), Print(v, depth, fmt)) else Lost(heap, p, m)
    decreases t, 2
  {
    hide Subtree, Apart, Backed, Printed, Lost, PrintItems, PrintMembers, Quote, IntText, TextAt;
    RootInBase(heap, p, m, b, t);
    var node := heap.cells[item].node;
    match node.kind {
      case Null => ok, b' := PrintLiteral(heap, p, 5, "null", m, b);
      case False => ok, b' := PrintLiteral(heap, p, 6, "false", m, b);
      case True => ok, b' := PrintLiteral(heap, p, 5, "true", m, b);
      case Number => ok, b' := PrintNumber(heap, p, node.valuedouble, node.valueint, m, b);
      case String => ok, b' := PrintStringPtr(heap, p, node.valuestring, m, b, v.s);
      case Array => ok, b' := PrintArray(heap, p, item, depth, fmt, m, b, t, v.items);
      case Object => ok, b' := PrintObject(heap, p, item, depth, fmt, m, b, t, v.members);
    }
  }

  /** print_number for an integer in the range of int. */
  method PrintNumber(heap: Heap, p: PrintBuffer, d: real, valueint: int, ghost m: Cells, ghost b: seq<char>)
    returns (ok: bool, ghost b': seq<char>)
    requires Backed(heap, p, m, b) && IsInt32(d) && valueint == Truncate(d) && Fits(p.offset, IntText(d.Floor))
    modifies heap`cells, heap`refused, p`buffer, p`length
    ensures old(heap.refused) ==> heap.refused
    ensures if ok then Printed(heap, p, m, b, b', p.offset, IntText(d.Floor)) else Lost(heap, p, m)
  {
    hide Backed, Printed, Lost;
    IntTextLength(d.Floor);
    assert Truncate(d) == d.Floor;
    if d == 0.0 {
      ok, b' := PrintLiteral(heap, p, 2, "0", m, b);
    } else {
      ok, b' := PrintLiteral(heap, p, 21, IntText(valueint), m, b);
    }
  }

  // ----- children

  /** cJSON_GetArraySize, and the counting loop of both container printers. */
  method GetArraySize(heap: Heap, parent: Ptr, ghost t: Tree) returns (n: nat)
    requires Parent(heap.cells, t) && parent == t.p
    ensures n == |t.kids|
  {
    hide Subtree, Apart, Own, Chain, ApartAll, OwnAll, Parent;
    ParentFacts(heap.cells, t);
    FirstNull(heap.cells, t);
    var c := heap.cells[parent].node.child;
    n := 0;
    while c != NULL
      invariant n <= |t.kids| && c == Head(t.kids[n..], NULL) && (c == NULL <==> n == |t.kids|)
      decreases |t.kids| - n
    {
      ChildAt(heap.cells, t, n);
      c := heap.cells[c].node.next;
      n := n + 1;
    }
  }

  lemma ParentInHeap(heap: Heap, p: PrintBuffer, m: Cells, b: seq<char>, t: Tree)
    requires Backed(heap, p, m, b) && Parent(m, t)
    ensures Parent(heap.cells, t)
  {
    hide Subtree, Apart;
    SubtreeOwned(m, t);
    SubtreeFrame(m, heap.cells, t);
  }

  lemma {:induction false} ItemAt(m: Cells, ks: seq<Tree>, items: seq<Json>, k: nat)
    requires DenotesItems(m, ks, items) && k < |ks|
    ensures |items| == |ks| && Denotes(m, ks[k], items[k])
    decreases k
  {
    hide Denotes;
    ItemsLength(m, ks, items);
    if k > 0 {
      ItemAt(m, ks[1..], items[1..], k - 1);
    }
  }

  /** Child `k` of a parent with its value, its successor and its own subtree. */
  lemma KidAt(m: Cells, t: Tree, k: nat)
    requires Parent(m, t) && k < |t.kids|
    ensures Parent(m, t.kids[k]) && t.kids[k] in t.kids
    ensures IsRecord(m, t.kids[k].p) && m[t.kids[k].p].node.next == Head(t.kids[k + 1..], NULL)
    ensures Head(t.kids[k + 1..], NULL) == NULL <==> k + 1 == |t.kids|
  {
    hide Subtree, Apart, Own, Chain, ApartAll, OwnAll;
    PartsApart(m, t, k);
    ChildAt(m, t, k);
  }

  /** The list text from item `k` on. */
  lemma ItemsFrom(items: seq<Json>, k: nat, depth: nat, fmt: bool)
    requires k < |items|
    ensures PrintItems(items[k..], depth, fmt)
         == Print(items[k], depth, fmt) + (Comma(k + 1 < |items|, fmt) + PrintItems(items[k + 1..], depth, fmt))
  {
    hide Print;
    assert items[k..][1..] == items[k + 1..];
  }

  // ----- arrays

  /** `acc` stands in the buffer from `k` up to the offset. */
  ghost predicate Progress(heap: Heap, p: PrintBuffer, m: Cells, b: seq<char>, b1: seq<char>, k: nat, acc: string)
    reads heap, p
  {
    Backed(heap, p, m, b1) && Grew(b, b1, k, acc) && p.offset == k + |acc|
  }

  /** Writing more text and moving the offset behind it. */
  method Advance(heap: Heap, p: PrintBuffer, needed: nat, text: string, len: nat, ghost m: Cells, ghost b: seq<char>,
                 ghost b1: seq<char>, ghost k: nat, ghost acc: string)
    returns (ok: bool, ghost b2: seq<char>)
    requires Progress(heap, p, m, b, b1, k, acc) || Lost(heap, p, m)
    requires len <= |text| <= needed && (Progress(heap, p, m, b, b1, k, acc) ==> 1 <= p.offset + needed <= CAPACITY)
    modifies heap`cells, heap`refused, p
    ensures old(heap.refused) ==> heap.refused
    ensures old(p.buffer) == NULL ==> !ok
    ensures if ok then Progress(heap, p, m, b, b2, k, acc + text[..len]) else Lost(heap, p, m)
  {
    hide Holds;
    ok, b2 := Append(heap, p, needed, text, m, b1);
    if ok {
      assert text == text[..len] + text[len..];
      GrewLess(b1, b2, p.offset, text[..len], text[len..]);
      GrewMore(b, b1, b2, k, acc, text[..len], acc + text[..len]);
      p.offset := p.offset + len;
    }
  }

  /** Printing a nested value and moving the offset behind it with `update`. */
  method Nested(heap: Heap, p: PrintBuffer, child: Ptr, depth: nat, fmt: bool, ghost m: Cells, ghost b: seq<char>,
                ghost b1: seq<char>, ghost k: nat, ghost acc: string, ghost t: Tree, ghost v: Json)
    returns (ghost b2: seq<char>)
    requires Progress(heap, p, m, b, b1, k, acc) && Parent(m, t) && Denotes(m, t, v) && Printable(v) && child == t.p
    requires Fits(p.offset, Print(v, depth, fmt))
    modifies heap`cells, heap`refused, p
    ensures old(heap.refused) ==> heap.refused
    ensures Progress(heap, p, m, b, b2, k, acc + Print(v, depth, fmt)) || Lost(heap, p, m)
    ensures p.buffer == NULL <==> Lost(heap, p, m)
    decreases t, 3
  {
    hide Print, Parent, Denotes, Holds;
    ghost var text := Print(v, depth, fmt);
    var ok;
    ok, b2 := PrintValue(heap, p, child, depth, fmt, m, b1, t, v);
    PrintNoNul(v, depth, fmt);
    FinishNested(heap, p, m, b, b1, b2, k, acc, text, ok);
    p.offset := Update(heap, p, m, b2, if ok then text[p.offset - (k + |acc|)..] else "");
  }

  /** The rest of a terminated text, from `d` characters on. */
  lemma TailOf(b: seq<char>, o: nat, text: string, d: nat)
    requires o + |text| < |b| && b[o..o + |text| + 1] == text + "\0" && d <= |text|
    ensures b[o + d..o + |text|] == text[d..] && b[o + |text|] == '\0'
    ensures '\0' !in text ==> '\0' !in text[d..]
  {
    var whole, tail := b[o..o + |text| + 1], b[o + d..o + |text|];
    assert whole[|text|] == b[o + |text|];
    forall k | 0 <= k < |tail| ensures tail[k] == text[d..][k] {
      assert whole[d + k] == b[o + d + k];
    }
  }

  lemma FinishNested(heap: Heap, p: PrintBuffer, m: Cells, b: seq<char>, b1: seq<char>, b2: seq<char>, k: nat,
                     acc: string, text: string, ok: bool)
    requires Grew(b, b1, k, acc) && '\0' !in text
    requires if ok then Printed(heap, p, m, b1, b2, k + |acc|, text) else Lost(heap, p, m)
    ensures ok ==>
              && Grew(b, b2, k, acc + text) && k + |acc| <= p.offset <= k + |acc| + |text|
              && var rest := text[p.offset - (k + |acc|)..];
                 && p.offset + |rest| < |b2| && '\0' !in rest && b2[p.offset..p.offset + |rest|] == rest
                 && b2[p.offset + |rest|] == '\0' && p.offset + |rest| == k + |acc + text|
  {
    hide Holds, Grew;
    if ok {
      var o := k + |acc|;
      NestedText(b, b1, b2, k, acc, text);
      TailOf(b2, o, text, p.offset - o);
    }
  }

  lemma NestedText(b: seq<char>, b1: seq<char>, b2: seq<char>, k: nat, acc: string, text: string)
    requires Grew(b, b1, k, acc) && Grew(b1, b2, k + |acc|, text + "\0")
    ensures Grew(b, b2, k, acc + text)
    ensures var o := k + |acc|; o + |text| < |b2| && b2[o..o + |text| + 1] == text + "\0"
  {
    hide Grew;
    GrewMore(b, b1, b2, k, acc, text + "\0", acc + (text + "\0"));
    assert acc + (text + "\0") == (acc + text) + "\0";
    GrewLess(b, b2, k, acc + text, "\0");
    GrewText(b1, b2, k + |acc|, text + "\0");
  }

  lemma GrewText(b: seq<char>, b': seq<char>, k: nat, t: string)
    requires Grew(b, b', k, t)
    ensures k + |t| <= |b'| && b'[k..k + |t|] == t
  {
  }

  /** print_array with a buffer. */
  method PrintArray(heap: Heap, p: PrintBuffer, item: Ptr, depth: nat, fmt: bool, ghost m: Cells, ghost b: seq<char>,
                    ghost t: Tree, ghost items: seq<Json>)
    returns (ok: bool, ghost b': seq<char>)
    requires Backed(heap, p, m, b) && Parent(m, t) && DenotesItems(m, t.kids, items) && Printable(Arr(items))
              && item == t.p
    requires Fits(p.offset, Print(Arr(items), depth, fmt))
    modifies heap`cells, heap`refused, p
    ensures old(heap.refused) ==> heap.refused
    ensures if ok then Printed(heap, p, m, b, b', old(p.offset), Print(Arr(items), depth, fmt)) else Lost(heap, p, m)
    decreases t, 1
  {
    hide Subtree, Apart, Backed, Printed, Lost, PrintItems, DenotesItems, Grew;
    ItemsLength(m, t.kids, items);
    ParentInHeap(heap, p, m, b, t);
    var numentries := GetArraySize(heap, item, t);
    if numentries == 0 {
      NoItemsText(items, depth + 1, fmt);
      ArrayText(items, depth, fmt);
      assert "[" + "" + "]" == "[]";
      ok, b' := PrintLiteral(heap, p, 3, "[]", m, b);
      return;
    }
    ok, b' := PrintItemList(heap, p, item, depth, fmt, m, b, t, items);
  }

  lemma NoItemsText(items: seq<Json>, depth: nat, fmt: bool)
    requires items == []
    ensures PrintItems(items, depth, fmt) == ""
  {
  }

  method PrintItemList(heap: Heap, p: PrintBuffer, item: Ptr, depth: nat, fmt: bool, ghost m: Cells,
                       ghost b: seq<char>, ghost t: Tree, ghost items: seq<Json>)
    returns (ok: bool, ghost b': seq<char>)
    requires Backed(heap, p, m, b) && Parent(m, t) && DenotesItems(m, t.kids, items) && Printable(Arr(items))
              && item == t.p
    requires |t.kids| == |items| && Fits(p.offset, Print(Arr(items), depth, fmt))
    modifies heap`cells, heap`refused, p
    ensures old(heap.refused) ==> heap.refused
    ensures if ok then Printed(heap, p, m, b, b', old(p.offset), Print(Arr(items), depth, fmt)) else Lost(heap, p, m)
    decreases t, 0
  {
    hide Subtree, Apart, Parent, Backed, Lost, Print, PrintItems, DenotesItems, Grew, Chain;
    ghost var o, all := p.offset, PrintItems(items, depth + 1, fmt);
    ArrayText(items, depth, fmt);
    NoProgress(heap, p, m, b);
    ok, b' := Advance(heap, p, 1, "[", 1, m, b, b, o, "");
    if !ok {
      return;
    }
    ghost var acc, k := "[", 0;
    assert "" + "["[..1] == acc && items[0..] == items;
    ItemRoot(heap, p, m, b, b', o, acc, t);
    var child := heap.cells[item].node.child;
    while child != NULL
      invariant (old(heap.refused) ==> heap.refused) && k <= |items|
      invariant child == Head(t.kids[k..], NULL) && (child == NULL <==> k == |items|)
      invariant Progress(heap, p, m, b, b', o, acc)
      invariant "[" + all == acc + PrintItems(items[k..], depth + 1, fmt)
      decreases |items| - k
    {
      ItemsFrom(items, k, depth + 1, fmt);
      ok, child, b', acc := PrintElement(heap, p, child, depth, fmt, m, b, b', o, acc, t, items, k);
      if !ok {
        return;
      }
      k := k + 1;
    }
    NoItemsText(items[k..], depth + 1, fmt);
    assert acc + "" == acc && "[" + all + "]" == acc + "]";
    ok, b' := CloseWith(heap, p, 2, "]", m, b, b', o, acc);
  }

  lemma ArrayText(items: seq<Json>, depth: nat, fmt: bool)
    ensures Print(Arr(items), depth, fmt) == "[" + PrintItems(items, depth + 1, fmt) + "]"
  {
    hide PrintItems;
  }

  lemma NoProgress(heap: Heap, p: PrintBuffer, m: Cells, b: seq<char>)
    requires Backed(heap, p, m, b)
    ensures Progress(heap, p, m, b, b, p.offset, "")
  {
  }

  lemma ItemRoot(heap: Heap, p: PrintBuffer, m: Cells, b: seq<char>, b1: seq<char>, o: nat, acc: string, t: Tree)
    requires Progress(heap, p, m, b, b1, o, acc) && Parent(m, t)
    ensures IsRecord(heap.cells, t.p) && heap.cells[t.p].node.child == Head(t.kids, NULL)
    ensures Head(t.kids, NULL) == NULL <==> t.kids == []
  {
    hide Subtree, Apart;
    RootInBase(heap, p, m, b1, t);
    FirstNull(m, t);
  }

  /** The closing bracket and the terminator; the offset stays in front of them. */
  method CloseWith(heap: Heap, p: PrintBuffer, needed: nat, text: string, ghost m: Cells, ghost b: seq<char>,
                   ghost b1: seq<char>, ghost o: nat, ghost acc: string)
    returns (ok: bool, ghost b': seq<char>)
    requires Progress(heap, p, m, b, b1, o, acc) && |text| < needed && p.offset + needed <= CAPACITY
    modifies heap`cells, heap`refused, p`buffer, p`length
    ensures old(heap.refused) ==> heap.refused
    ensures if ok then Printed(heap, p, m, b, b', o, acc + text) else Lost(heap, p, m)
  {
    hide Holds;
    ok, b' := Append(heap, p, needed, text + "\0", m, b1);
    if ok {
      assert acc + (text + "\0") == (acc + text) + "\0";
      GrewMore(b, b1, b', o, acc, text + "\0", (acc + text) + "\0");
    }
  }

  /** One item and its separator. */
  method PrintElement(heap: Heap, p: PrintBuffer, child: Ptr, depth: nat, fmt: bool, ghost m: Cells,
                      ghost b: seq<char>, ghost b1: seq<char>, ghost o: nat, ghost acc: string, ghost t: Tree,
                      ghost items: seq<Json>, ghost k: nat)
    returns (ok: bool, next: Ptr, ghost b2: seq<char>, ghost acc': string)
    requires Progress(heap, p, m, b, b1, o, acc) && Parent(m, t) && DenotesItems(m, t.kids, items)
    requires k < |items| == |t.kids| && child == t.kids[k].p && forall x :: x in items ==> Printable(x)
    requires Fits(o, acc + (Print(items[k], depth + 1, fmt) + Comma(k + 1 < |items|, fmt)))
    modifies heap`cells, heap`refused, p
    ensures old(heap.refused) ==> heap.refused
    ensures !ok ==> Lost(heap, p, m)
    ensures ok ==>
              && acc' == acc + (Print(items[k], depth + 1, fmt) + Comma(k + 1 < |items|, fmt))
              && Progress(heap, p, m, b, b2, o, acc')
              && next == Head(t.kids[k + 1..], NULL) && (next == NULL <==> k + 1 == |items|)
    decreases t.kids[k], 4
  {
    hide Subtree, Apart, Parent, Print, DenotesItems, Denotes, Grew, Chain, Holds;
    ItemAt(m, t.kids, items, k);
    KidAt(m, t, k);
    ghost var text := Print(items[k], depth + 1, fmt);
    KidRecord(heap, p, m, b, b1, o, acc, t.kids[k]);
    next := heap.cells[child].node.next;
    b2 := Nested(heap, p, child, depth + 1, fmt, m, b, b1, o, acc, t.kids[k], items[k]);
    acc' := acc + text;
    ok := p.buffer != NULL;
    if next != NULL {
      var len := if fmt then 2 else 1;
      var sep := if fmt then ", " else ",";
      ok, b2 := Advance(heap, p, len + 1, sep + "\0", len, m, b, b2, o, acc');
      assert (sep + "\0")[..len] == sep == Comma(true, fmt);
      acc' := acc' + sep;
    }
    assert acc + (text + Comma(k + 1 < |items|, fmt)) == acc + text + Comma(k + 1 < |items|, fmt);
    assert acc + text + "" == acc + text;
  }

  lemma KidRecord(heap: Heap, p: PrintBuffer, m: Cells, b: seq<char>, b1: seq<char>, o: nat, acc: string, t: Tree)
    requires Progress(heap, p, m, b, b1, o, acc) && Parent(m, t)
    ensures t.p in heap.cells && t.p in m && heap.cells[t.p] == m[t.p] && m[t.p].Record? && m[t.p].node.name == t.name
  {
    hide Subtree, Apart;
    RootInBase(heap, p, m, b1, t);
  }

  // ----- objects

  lemma {:induction false} MemberAt(m: Cells, ks: seq<Tree>, members: seq<Member>, k: nat)
    requires DenotesMembers(m, ks, members) && k < |ks|
    ensures k < |members| && DenotesMember(m, ks[k], members[k])
    decreases k
  {
    hide DenotesMember;
    if k > 0 {
      MemberAt(m, ks[1..], members[1..], k - 1);
    }
  }

  /** The text of one member with what follows it. */
  function MemberText(mb: Member, depth: nat, fmt: bool, more: bool): string {
    KeyText(mb.key, depth, fmt) + Print(mb.val, depth, fmt) + MemberEnd(more, fmt)
  }

  lemma MembersFrom(members: seq<Member>, k: nat, depth: nat, fmt: bool)
    requires k < |members|
    ensures PrintMembers(members[k..], depth, fmt)
         == MemberText(members[k], depth, fmt, k + 1 < |members|) + PrintMembers(members[k + 1..], depth, fmt)
  {
    hide Print, KeyText, MemberEnd;
    assert members[k..][1..] == members[k + 1..];
    var key, val := KeyText(members[k].key, depth, fmt), Print(members[k].val, depth, fmt);
    var end, rest := MemberEnd(k + 1 < |members|, fmt), PrintMembers(members[k + 1..], depth, fmt);
    assert key + (val + (end + rest)) == key + val + end + rest;
  }

  lemma NoMembersText(members: seq<Member>, depth: nat, fmt: bool)
    requires members == []
    ensures PrintMembers(members, depth, fmt) == ""
  {
  }

  lemma ObjectText(members: seq<Member>, depth: nat, fmt: bool)
    requires members != []
    ensures Print(Obj(members), depth, fmt)
         == ("{" + Opt(fmt, "\n")) + PrintMembers(members, depth + 1, fmt) + (Opt(fmt, Tabs(depth)) + "}")
  {
    hide PrintMembers, Tabs;
    var open, all, close := Opt(fmt, "\n"), PrintMembers(members, depth + 1, fmt), Opt(fmt, Tabs(depth)) + "}";
    assert "{" + (open + (all + close)) == ("{" + open) + all + close;
  }

  /** A nested key: print_string_ptr and `update`. */
  method NestedString(heap: Heap, p: PrintBuffer, str: Ptr, ghost m: Cells, ghost b: seq<char>, ghost b1: seq<char>,
                      ghost k: nat, ghost acc: string, ghost s: string)
    returns (ghost b2: seq<char>)
    requires Progress(heap, p, m, b, b1, k, acc) && TextAt(m, str, s) && p.offset + |Quote(s)| + 1 <= CAPACITY
    modifies heap`cells, heap`refused, p
    ensures old(heap.refused) ==> heap.refused
    ensures Progress(heap, p, m, b, b2, k, acc + Quote(s)) || Lost(heap, p, m)
    ensures p.buffer == NULL <==> Lost(heap, p, m)
  {
    hide Quote, Holds, TextAt;
    ghost var text := Quote(s);
    var ok;
    ok, b2 := PrintStringPtr(heap, p, str, m, b1, s);
    QuoteNoNul(s);
    FinishNested(heap, p, m, b, b1, b2, k, acc, text, ok);
    p.offset := Update(heap, p, m, b2, if ok then text[p.offset - (k + |acc|)..] else "");
  }

  /** Indentation, key and colon. */
  method PrintKey(heap: Heap, p: PrintBuffer, name: Ptr, depth: nat, fmt: bool, ghost m: Cells, ghost b: seq<char>,
                  ghost b1: seq<char>, ghost o: nat, ghost acc: string, ghost key: string)
    returns (ok: bool, ghost b2: seq<char>)
    requires Progress(heap, p, m, b, b1, o, acc) && TextAt(m, name, key) && depth >= 1
    requires Fits(o, acc + KeyText(key, depth, fmt))
    modifies heap`cells, heap`refused, p
    ensures old(heap.refused) ==> heap.refused
    ensures if ok then Progress(heap, p, m, b, b2, o, acc + KeyText(key, depth, fmt)) else Lost(heap, p, m)
  {
    hide Quote, Grew, Backed, Lost, TextAt, Tabs;
    ghost var acc1 := acc + Opt(fmt, Tabs(depth));
    KeySize(key, depth, fmt);
    ok, b2 := Indent(heap, p, depth, fmt, m, b, b1, o, acc);
    if !ok {
      return;
    }
    b2 := NestedString(heap, p, name, m, b, b2, o, acc1, key);
    ok, b2 := Colon(heap, p, fmt, m, b, b2, o, acc1 + Quote(key));
    assert acc1 + Quote(key) + (":" + Opt(fmt, "\t")) == acc + KeyText(key, depth, fmt);
  }

  lemma KeySize(key: string, depth: nat, fmt: bool)
    ensures |KeyText(key, depth, fmt)| >= |Opt(fmt, Tabs(depth))| + |Quote(key)| + 1
    ensures fmt ==> |Opt(fmt, Tabs(depth))| == depth
  {
    hide Quote;
  }

  method Indent(heap: Heap, p: PrintBuffer, depth: nat, fmt: bool, ghost m: Cells, ghost b: seq<char>,
                ghost b1: seq<char>, ghost o: nat, ghost acc: string)
    returns (ok: bool, ghost b2: seq<char>)
    requires Progress(heap, p, m, b, b1, o, acc) && depth >= 1 && (fmt ==> p.offset + depth <= CAPACITY)
    modifies heap`cells, heap`refused, p
    ensures old(heap.refused) ==> heap.refused
    ensures if ok then Progress(heap, p, m, b, b2, o, acc + Opt(fmt, Tabs(depth))) else Lost(heap, p, m)
  {
    hide Grew, Holds;
    ok, b2 := true, b1;
    if fmt {
      ok, b2 := Advance(heap, p, depth, Tabs(depth), depth, m, b, b1, o, acc);
      assert Tabs(depth)[..depth] == Tabs(depth);
    } else {
      assert acc + "" == acc;
    }
  }

  method Colon(heap: Heap, p: PrintBuffer, fmt: bool, ghost m: Cells, ghost b: seq<char>, ghost b1: seq<char>,
               ghost o: nat, ghost acc: string)
    returns (ok: bool, ghost b2: seq<char>)
    requires Progress(heap, p, m, b, b1, o, acc) || Lost(heap, p, m)
    requires o + |acc| + 2 <= CAPACITY
    modifies heap`cells, heap`refused, p
    ensures old(heap.refused) ==> heap.refused
    ensures if ok then Progress(heap, p, m, b, b2, o, acc + (":" + Opt(fmt, "\t"))) else Lost(heap, p, m)
  {
    hide Grew, Holds;
    var len := if fmt then 2 else 1;
    var text := if fmt then ":\t" else ":";
    ok, b2 := Advance(heap, p, len, text, len, m, b, b1, o, acc);
    assert text[..len] == text == ":" + Opt(fmt, "\t");
  }

  /** One member: key, value, separator and line end. */
  method PrintMember(heap: Heap, p: PrintBuffer, child: Ptr, depth: nat, fmt: bool, ghost m: Cells,
                     ghost b: seq<char>, ghost b1: seq<char>, ghost o: nat, ghost acc: string, ghost t: Tree,
                     ghost members: seq<Member>, ghost k: nat)
    returns (ok: bool, next: Ptr, ghost b2: seq<char>, ghost acc': string)
    requires Progress(heap, p, m, b, b1, o, acc) && Parent(m, t) && DenotesMembers(m, t.kids, members)
    requires k < |members| == |t.kids| && child == t.kids[k].p && depth >= 1
    requires IsCString(members[k].key) && Printable(members[k].val)
    requires Fits(o, acc + MemberText(members[k], depth, fmt, k + 1 < |members|))
    modifies heap`cells, heap`refused, p
    ensures old(heap.refused) ==> heap.refused
    ensures !ok ==> Lost(heap, p, m)
    ensures ok ==>
              && acc' == acc + MemberText(members[k], depth, fmt, k + 1 < |members|)
              && Progress(heap, p, m, b, b2, o, acc')
              && next == Head(t.kids[k + 1..], NULL) && (next == NULL <==> k + 1 == |members|)
    decreases t.kids[k], 4
  {
    hide Subtree, Apart, Parent, Print, KeyText, DenotesMembers, Denotes, Grew, Chain, Backed, Lost, TextAt, MemberEnd;
    ghost var mb, more := members[k], k + 1 < |members|;
    MemberAt(m, t.kids, members, k);
    KidAt(m, t, k);
    ghost var key, text := KeyText(mb.key, depth, fmt), Print(mb.val, depth, fmt);
    KidRecord(heap, p, m, b, b1, o, acc, t.kids[k]);
    next := heap.cells[child].node.next;
    acc' := acc + key;
    ok, b2 := PrintKey(heap, p, heap.cells[child].node.name, depth, fmt, m, b, b1, o, acc, mb.key);
    if !ok {
      return;
    }
    b2 := Nested(heap, p, child, depth, fmt, m, b, b2, o, acc', t.kids[k], mb.val);
    acc' := acc' + text;
    ok, b2 := EndMember(heap, p, next != NULL, fmt, m, b, b2, o, acc');
    acc' := acc' + MemberEnd(more, fmt);
    assert acc + MemberText(mb, depth, fmt, more) == acc + key + text + MemberEnd(more, fmt);
  }

  method EndMember(heap: Heap, p: PrintBuffer, more: bool, fmt: bool, ghost m: Cells, ghost b: seq<char>,
                   ghost b1: seq<char>, ghost o: nat, ghost acc: string)
    returns (ok: bool, ghost b2: seq<char>)
    requires Progress(heap, p, m, b, b1, o, acc) || Lost(heap, p, m)
    requires Fits(o, acc)
    modifies heap`cells, heap`refused, p
    ensures old(heap.refused) ==> heap.refused
    ensures if ok then Progress(heap, p, m, b, b2, o, acc + MemberEnd(more, fmt)) else Lost(heap, p, m)
  {
    hide Holds, Grew;
    var end := (if more then "," else "") + (if fmt then "\n" else "");
    assert end == MemberEnd(more, fmt);
    ok, b2 := Advance(heap, p, |end| + 1, end + "\0", |end|, m, b, b1, o, acc);
    assert (end + "\0")[..|end|] == end;
  }

  /** The opening brace. */
  method OpenObject(heap: Heap, p: PrintBuffer, fmt: bool, ghost m: Cells, ghost b: seq<char>)
    returns (ok: bool, ghost b': seq<char>)
    requires Backed(heap, p, m, b) && Fits(p.offset, "")
    modifies heap`cells, heap`refused, p
    ensures old(heap.refused) ==> heap.refused
    ensures if ok then Progress(heap, p, m, b, b', old(p.offset), "{" + Opt(fmt, "\n")) else Lost(heap, p, m)
  {
    hide Holds, Grew;
    NoProgress(heap, p, m, b);
    var open := if fmt then "{\n" else "{";
    assert open == "{" + Opt(fmt, "\n");
    ok, b' := Advance(heap, p, |open| + 1, open + "\0", |open|, m, b, b, p.offset, "");
    assert "" + (open + "\0")[..|open|] == open;
  }

  /** print_object with a buffer. */
  method PrintObject(heap: Heap, p: PrintBuffer, item: Ptr, depth: nat, fmt: bool, ghost m: Cells, ghost b: seq<char>,
                     ghost t: Tree, ghost members: seq<Member>)
    returns (ok: bool, ghost b': seq<char>)
    requires Backed(heap, p, m, b) && Parent(m, t) && DenotesMembers(m, t.kids, members) && Printable(Obj(members))
              && item == t.p
    requires Fits(p.offset, Print(Obj(members), depth, fmt))
    modifies heap`cells, heap`refused, p
    ensures old(heap.refused) ==> heap.refused
    ensures if ok then Printed(heap, p, m, b, b', old(p.offset), Print(Obj(members), depth, fmt)) else Lost(heap, p, m)
    decreases t, 1
  {
    hide Subtree, Apart, Backed, Printed, Lost, PrintMembers, DenotesMembers, Grew;
    MembersLength(m, t.kids, members);
    ParentInHeap(heap, p, m, b, t);
    var numentries := GetArraySize(heap, item, t);
    if numentries == 0 {
      var text := "{" + ((if fmt then "\n" + Tabs(depth - 1) else "") + "}");
      assert text == Print(Obj(members), depth, fmt);
      ok, b' := PrintLiteral(heap, p, if fmt then depth + 4 else 3, text, m, b);
      return;
    }
    ok, b' := PrintMemberList(heap, p, item, depth, fmt, m, b, t, members);
  }

  method PrintMemberList(heap: Heap, p: PrintBuffer, item: Ptr, depth: nat, fmt: bool, ghost m: Cells,
                         ghost b: seq<char>, ghost t: Tree, ghost members: seq<Member>)
    returns (ok: bool, ghost b': seq<char>)
    requires Backed(heap, p, m, b) && Parent(m, t) && DenotesMembers(m, t.kids, members) && Printable(Obj(members))
              && item == t.p
    requires |t.kids| == |members| > 0 && Fits(p.offset, Print(Obj(members), depth, fmt))
    modifies heap`cells, heap`refused, p
    ensures old(heap.refused) ==> heap.refused
    ensures if ok then Printed(heap, p, m, b, b', old(p.offset), Print(Obj(members), depth, fmt)) else Lost(heap, p, m)
    decreases t, 0
  {
    hide Subtree, Apart, Parent, Backed, Lost, Print, PrintMembers, DenotesMembers, Grew, Chain, MemberText, Tabs;
    ghost var o, all, open := p.offset, PrintMembers(members, depth + 1, fmt), "{" + Opt(fmt, "\n");
    var close := (if fmt then Tabs(depth) else "") + "}";
    ObjectText(members, depth, fmt);
    assert close == Opt(fmt, Tabs(depth)) + "}";
    ok, b' := OpenObject(heap, p, fmt, m, b);
    if !ok {
      return;
    }
    ghost var acc, k := open, 0;
    assert members[0..] == members;
    ItemRoot(heap, p, m, b, b', o, acc, t);
    var child := heap.cells[item].node.child;
    while child != NULL
      invariant (old(heap.refused) ==> heap.refused) && k <= |members|
      invariant child == Head(t.kids[k..], NULL) && (child == NULL <==> k == |members|)
      invariant Progress(heap, p, m, b, b', o, acc)
      invariant open + all == acc + PrintMembers(members[k..], depth + 1, fmt)
      decreases |members| - k
    {
      MembersFrom(members, k, depth + 1, fmt);
      ok, child, b', acc := PrintMember(heap, p, child, depth + 1, fmt, m, b, b', o, acc, t, members, k);
      if !ok {
        return;
      }
      k := k + 1;
    }
    NoMembersText(members[k..], depth + 1, fmt);
    assert acc + "" == acc && open + all + close == acc + close;
    ok, b' := CloseWith(heap, p, |close| + 1, close, m, b, b', o, acc);
  }

  // ----- cJSON_PrintBuffered

  /** Formatted or unformatted text in a block of its own, or NULL with the heap
      as before, whatever the size of the first buffer. */
  method PrintBufferedText(heap: Heap, item: Ptr, prebuffer: nat, fmt: bool, ghost t: Tree, ghost v: Json)
    returns (out: Ptr)
    requires Parent(heap.cells, t) && Denotes(heap.cells, t, v) && Printable(v) && item == t.p
    requires Fits(0, Print(v, 0, fmt))
    modifies heap`cells, heap`refused
    ensures out == NULL ==> heap.cells == old(heap.cells) && heap.refused
    ensures out != NULL ==>
              && out !in old(heap.cells) && heap.cells.Keys == old(heap.cells).Keys + {out}
              && (forall x :: x in old(heap.cells) ==> heap.cells[x] == old(heap.cells)[x])
              && TextAt(heap.cells, out, Print(v, 0, fmt))
  {
    hide Parent, Denotes, Print;
    ghost var m := heap.cells;
    heap.refused := false;
    var buffer;
    ghost var b;
    buffer, b := heap.MallocBlock(prebuffer);
    if buffer == NULL {
      return NULL;
    }
    var p := new PrintBuffer(buffer, prebuffer);
    var ok;
    ghost var b';
    ok, b' := PrintValue(heap, p, item, 0, fmt, m, b, t, v);
    if !ok {
      return NULL;
    }
    out := p.buffer;
    ghost var text := Print(v, 0, fmt);
    PrintNoNul(v, 0, fmt);
    assert b'[0..|text| + 1] == text + "\0";
    assert b'[..|text|] == b'[0..|text| + 1][..|text|] && b'[|text|] == b'[0..|text| + 1][|text|];
  }
}
