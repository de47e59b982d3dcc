/** Whole uses of the library: both printers on one tree, a tree sent through
    its text, and everything given back. */
module LifeCycle {
  import opened JsonValue
  import opened PrintText
  import opened Memory
  import opened Trees
  import opened ListOps
  import opened Delete
  import opened Duplicate
  import opened PrintBlocks
  import ParseText
  import ParseHeap
  import RoundTrip
  import PrintAlloc
  import PrintBuffered

  /** A tree prints after a block has been allocated as it did before. */
  lemma TreeOver(m: Cells, m': Cells, t: Tree, v: Json, s: set<Ptr>)
    requires Parent(m, t) && Denotes(m, t, v) && Extra(m, m', s)
    ensures Parent(m', t) && Denotes(m', t, v)
  {
    hide Subtree, Apart, Denotes, Own;
    SubtreeOwned(m, t);
    SubtreeFrame(m, m', t);
    DenotesFrame(m, m', t, v);
  }

  /** The two printers agree: where neither runs out of memory, the strings they
      return are equal, for either format and any first buffer. */
  method PrintBothWays(heap: Heap, item: Ptr, prebuffer: nat, fmt: bool, ghost t: Tree, ghost v: Json)
    returns (a: Ptr, b: Ptr, n: nat)
    requires Parent(heap.cells, t) && Denotes(heap.cells, t, v) && Printable(v) && item == t.p
    requires PrintBuffered.Fits(0, Print(v, 0, fmt))
    modifies heap`cells, heap`refused
    ensures (a == NULL || b == NULL ==> heap.refused) && (a != NULL && b != NULL ==> a != b)
    ensures Extra(old(heap.cells), heap.cells, OptPtr(a) + OptPtr(b))
    ensures a != NULL ==> TextAt(heap.cells, a, Print(v, 0, fmt))
    ensures b != NULL ==> TextAt(heap.cells, b, Print(v, 0, fmt))
    ensures a != NULL && b != NULL ==>
              && IsBlock(heap.cells, a) && IsBlock(heap.cells, b)
              && n < |heap.cells[a].bytes| && n < |heap.cells[b].bytes|
              && heap.cells[a].bytes[..n + 1] == heap.cells[b].bytes[..n + 1] && heap.cells[a].bytes[n] == '\0'
  {
    hide Parent, Denotes, Print;
    ghost var m := heap.cells;
    a := PrintAlloc.PrintTree(heap, item, fmt, t, v);
    ghost var m1, refused := heap.cells, heap.refused;
    TreeOver(m, m1, t, v, OptPtr(a));
    b := PrintBuffered.PrintBufferedText(heap, item, prebuffer, fmt, t, v);
    heap.refused := heap.refused || refused;
    assert Extra(m1, heap.cells, OptPtr(b));
    ExtraTwice(m, m1, heap.cells, OptPtr(a), OptPtr(b));
    n := 0;
    if a != NULL && b != NULL {
      n := StrLen(heap, a, Print(v, 0, fmt));
      SamePrefix(heap.cells, a, b, Print(v, 0, fmt));
    }
  }

  lemma SamePrefix(m: Cells, a: Ptr, b: Ptr, s: string)
    requires TextAt(m, a, s) && TextAt(m, b, s)
    ensures m[a].bytes[..|s| + 1] == m[b].bytes[..|s| + 1] && m[a].bytes[|s|] == '\0'
  {
    assert m[a].bytes[..|s| + 1] == s + ['\0'];
    assert m[b].bytes[..|s| + 1] == s + ['\0'];
  }

  /** A tree sent through its text: printed, parsed, the text freed. What comes
      back is a second, disjoint tree of the same value, and nothing else has
      been left behind; or NULL with the heap as it was. */
  method Reload(heap: Heap, item: Ptr, fmt: bool, ghost t: Tree, ghost v: Json) returns (c: Ptr, ghost t': Tree)
    requires Parent(heap.cells, t) && Denotes(heap.cells, t, v) && Printable(v) && Balanced(v) && item == t.p
    modifies heap
    ensures c == NULL ==> heap.cells == old(heap.cells) && heap.refused
    ensures c != NULL ==> c == t'.p && ParseHeap.Document(old(heap.cells), heap.cells, t') && Denotes(heap.cells, t', v)
  {
    hide Parent, Denotes, Print, Balanced, Printable, ParseText.ParseDocument;
    ghost var m, s := heap.cells, Print(v, 0, fmt);
    c, t' := NULL, t;
    var out := PrintAlloc.PrintTree(heap, item, fmt, t, v);
    if out == NULL {
      return;
    }
    ghost var m1 := heap.cells;
    var n := StrLen(heap, out, s);
    var text := heap.cells[out].bytes[..n];
    assert text == s;
    RoundTrip.ParseUndoesPrint(v, fmt, true);
    var end;
    c, end, t' := ParseHeap.ParseWithOpts(heap, text, true);
    if c == NULL {
      heap.Free(out);
      assert heap.cells.Keys == m.Keys;
      return;
    }
    DropBlock(m, m1, heap.cells, out, t', v);
    heap.Free(out);
  }

  lemma RootOwned(t: Tree)
    ensures t.p in Own(t)
  {
  }

  /** Freeing the text that was allocated before the parsed tree. */
  lemma DropBlock(m: Cells, m1: Cells, m2: Cells, out: Ptr, t: Tree, v: Json)
    requires Extra(m, m1, {out}) && ParseHeap.Document(m1, m2, t) && Denotes(m2, t, v)
    ensures out in m2 && ParseHeap.Document(m, m2 - {out}, t) && Denotes(m2 - {out}, t, v)
  {
    hide Subtree, Apart, Own, Denotes;
    SubtreeFrame(m2, m2 - {out}, t);
    DenotesFrame(m2, m2 - {out}, t, v);
    assert (m2 - {out}).Keys == m.Keys + Own(t);
    RootOwned(t);
  }

  /** Parsing a text and deleting the tree gives the whole heap back, whether or
      not the text is well-formed and whatever the allocator refuses. */
  method ParseAndDelete(heap: Heap, text: string, requireEnd: bool) returns (parsed: bool)
    requires '\0' !in text && ParseText.ParseDocument(text, requireEnd) != ParseText.Undefined
    modifies heap
    ensures heap.cells == old(heap.cells)
    ensures parsed ==> ParseText.ParseDocument(text, requireEnd).Ok?
    ensures !parsed ==> heap.refused || ParseText.ParseDocument(text, requireEnd).Fail?
  {
    hide Subtree, Apart, Own, ParseText.ParseDocument;
    var c, end;
    ghost var t;
    c, end, t := ParseHeap.ParseWithOpts(heap, text, requireEnd);
    parsed := c != NULL;
    if parsed {
      DeleteNode(heap, c, t);
      assert heap.cells.Keys == old(heap.cells).Keys;
    }
  }
}
