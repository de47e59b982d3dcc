/** cJSON_Delete. */
module Delete {
  import opened Memory
  import opened Trees
  import opened Siblings

  /** Removing what `a` owns leaves a disjoint chain as it is. */
  lemma ChainSurvives(m: Cells, gone: set<Ptr>, ks: seq<Tree>, prev: Ptr, next: Ptr)
    requires Chain(m, ks, prev, next) && OwnAll(ks) !! gone
    ensures Chain(m - gone, ks, prev, next)
  {
    hide Chain, OwnAll;
    ChainOwned(m, ks, prev, next);
    ChainFrame(m, m - gone, ks, prev, next);
  }

  /** Frees the node at `c`, everything below it and its later siblings: each
      address the chain owns exactly once, and nothing else. */
  method DeleteChain(heap: Heap, first: Ptr, ghost ks: seq<Tree>, ghost prev: Ptr)
    requires Chain(heap.cells, ks, prev, NULL) && ApartAll(ks) && first == Head(ks, NULL)
    modifies heap`cells
    ensures heap.cells == old(heap.cells) - OwnAll(ks)
    decreases ks, 1
  {
    hide Subtree, Own, Apart;
    var c := first;
    ghost var k, rest, before, gone := 0, ks, prev, {};
    if rest != [] { RootFacts(heap.cells, rest[0]); }
    assert heap.cells == heap.cells - gone;
    while c != NULL
      invariant c == Head(rest, NULL) && ApartAll(rest)
      invariant Chain(heap.cells, rest, before, NULL)
      invariant gone !! OwnAll(rest) && gone + OwnAll(rest) == OwnAll(ks)
      invariant heap.cells == old(heap.cells) - gone
      invariant k <= |ks| && rest == ks[k..]
      invariant c == NULL ==> rest == []
      decreases |rest|
    {
      ghost var t := rest[0];
      RootFacts(heap.cells, t);
      ChainSurvives(heap.cells, Own(t), rest[1..], t.p, NULL);
      var next := heap.cells[c].node.next;
      DeleteNode(heap, c, t);
      c := next;
      RemoveTwice(old(heap.cells), gone, Own(t));
      gone := gone + Own(t);
      before := t.p;
      k, rest := k + 1, rest[1..];
      if rest != [] { RootFacts(heap.cells, rest[0]); }
    }
  }

  lemma OwnParts(t: Tree)
    requires Apart(t)
    ensures t.p != NULL && t.p != t.text && t.p != t.name && (t.text == t.name ==> t.text == NULL)
    ensures {t.p} + OptPtr(t.text) + OptPtr(t.name) !! OwnAll(t.kids) && ApartAll(t.kids)
    ensures if t.kids == [] then OwnAll(t.kids) == {} else t.kids[0].p != NULL
    ensures Own(t) == OwnAll(t.kids) + OptPtr(t.text) + OptPtr(t.name) + {t.p}
  {
  }

  /** One turn of the loop: children, value string, name, then the node itself. */
  method DeleteNode(heap: Heap, c: Ptr, ghost t: Tree)
    requires Subtree(heap.cells, t) && Apart(t) && c == t.p
    modifies heap`cells
    ensures heap.cells == old(heap.cells) - Own(t)
    decreases t, 0
  {
    hide TextAt, Chain, OwnAll, Apart, Own;
    ghost var m, owned := heap.cells, OwnAll(t.kids);
    OwnParts(t);
    SubtreeOwned(m, t);
    var node := heap.cells[c].node;
    if !node.isRef && node.child != NULL {
      DeleteChain(heap, node.child, t.kids, NULL);
    }
    assert heap.cells == m - owned;
    if !node.isRef && node.valuestring != NULL {
      heap.Free(node.valuestring);
    }
    RemoveTwice(m, owned, OptPtr(t.text));
    owned := owned + OptPtr(t.text);
    assert heap.cells == m - owned;
    if !node.constName && node.name != NULL {
      heap.Free(node.name);
    }
    RemoveTwice(m, owned, OptPtr(t.name));
    owned := owned + OptPtr(t.name);
    assert heap.cells == m - owned;
    heap.Free(c);
    RemoveTwice(m, owned, {t.p});
  }
}
