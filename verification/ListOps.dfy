/** Child-list editing: append, insert, detach and replace on the linked list
    act as the same operations on the sequence of children. */
module ListOps {
  import opened JsonValue
  import opened Memory
  import opened Trees
  import opened Siblings
  import opened Delete

  /** `t` with other children. */
  function WithKids(t: Tree, ks: seq<Tree>): Tree {
    Tree(t.p, t.text, t.name, ks)
  }

  /** A complete tree that is no one's sibling. */
  ghost predicate Detached(m: Cells, t: Tree) {
    && Subtree(m, t) && Apart(t)
    && m[t.p].node.next == NULL && m[t.p].node.prev == NULL
  }

  /** An array or object node with its children, in any list. */
  ghost predicate Parent(m: Cells, t: Tree) {
    Subtree(m, t) && Apart(t)
  }

  // ----- assignments to link fields

  function SetNext(m: Cells, p: Ptr, q: Ptr): Cells
    requires IsRecord(m, p)
  {
    m[p := Record(m[p].node.(next := q))]
  }

  function SetPrev(m: Cells, p: Ptr, q: Ptr): Cells
    requires IsRecord(m, p)
  {
    m[p := Record(m[p].node.(prev := q))]
  }

  function SetChild(m: Cells, p: Ptr, q: Ptr): Cells
    requires IsRecord(m, p)
  {
    m[p := Record(m[p].node.(child := q))]
  }

  /** From `m` to `m'` nothing of these trees changes but their roots' sibling links. */
  ghost predicate Relinked(m: Cells, m': Cells, ks: seq<Tree>) {
    forall k :: 0 <= k < |ks| ==> RelinkedOne(m, m', ks[k])
  }

  ghost predicate RelinkedOne(m: Cells, m': Cells, t: Tree) {
    && IsRecord(m, t.p) && IsRecord(m', t.p)
    && m'[t.p].node == m[t.p].node.(next := m'[t.p].node.next, prev := m'[t.p].node.prev)
    && Agree(m, m', Own(t) - {t.p})
  }

  /** Editing touches the parent's child link and, of the other addresses, only `touched`. */
  ghost predicate Framed(m: Cells, m': Cells, p: Ptr, touched: set<Ptr>) {
    && IsRecord(m, p) && IsRecord(m', p)
    && m'[p].node == m[p].node.(child := m'[p].node.child)
    && forall y :: y in m' && y != p && y !in touched ==> y in m && m'[y] == m[y]
  }

  /** Whole subtrees, without regard to how they are linked to each other. */
  ghost predicate Subtrees(m: Cells, ks: seq<Tree>) {
    forall k :: 0 <= k < |ks| ==> Subtree(m, ks[k]) && Apart(ks[k])
  }

  /** Relinked children stand for the same items. */
  lemma {:induction false} ItemsRelink(m: Cells, m': Cells, ks: seq<Tree>, items: seq<Json>)
    requires Relinked(m, m', ks) && Subtrees(m, ks) && DenotesItems(m, ks, items)
    ensures DenotesItems(m', ks, items)
    decreases items
  {
    hide Subtree, Own, Apart, Denotes;
    if ks != [] {
      assert RelinkedOne(m, m', ks[0]);
      var n := m'[ks[0].p].node;
      DenotesRelink(m, m', ks[0], items[0], n.prev, n.next);
      forall k | 0 <= k < |ks[1..]| ensures RelinkedOne(m, m', ks[1..][k]) {
        assert RelinkedOne(m, m', ks[k + 1]);
      }
      ItemsRelink(m, m', ks[1..], items[1..]);
    }
  }

  lemma {:induction false} MembersRelink(m: Cells, m': Cells, ks: seq<Tree>, members: seq<Member>)
    requires Relinked(m, m', ks) && Subtrees(m, ks) && DenotesMembers(m, ks, members)
    ensures DenotesMembers(m', ks, members)
    decreases members
  {
    hide Subtree, Own, Apart, Denotes, TextAt;
    if ks != [] {
      assert RelinkedOne(m, m', ks[0]);
      var n := m'[ks[0].p].node;
      DenotesRelink(m, m', ks[0], members[0].val, n.prev, n.next);
      NameOwned(ks[0]);
      TextFrame(m, m', ks[0].name);
      forall k | 0 <= k < |ks[1..]| ensures RelinkedOne(m, m', ks[1..][k]) {
        assert RelinkedOne(m, m', ks[k + 1]);
      }
      MembersRelink(m, m', ks[1..], members[1..]);
    }
  }

  lemma NameOwned(t: Tree)
    requires Apart(t) && t.name != NULL
    ensures t.name in Own(t) - {t.p}
  {
  }

  // ----- splicing

  /** In `m'` the last of `a` points on to `next` and the first of `b` back to
      `prev`; apart from that both are as in `m`. */
  ghost predicate Mended(m: Cells, m': Cells, a: seq<Tree>, b: seq<Tree>, next: Ptr, prev: Ptr) {
    && (a != [] ==>
          var p := a[|a| - 1].p;
          IsRecord(m, p) && p in m' && m'[p] == Record(m[p].node.(next := next)) && Agree(m, m', OwnAll(a) - {p}))
    && (b != [] ==>
          var p := b[0].p;
          IsRecord(m, p) && p in m' && m'[p] == Record(m[p].node.(prev := prev)) && Agree(m, m', OwnAll(b) - {p}))
  }

  /** A new middle between two mended ends makes one chain. */
  lemma Splice(m: Cells, m': Cells, a: seq<Tree>, mid: seq<Tree>, b: seq<Tree>, na: Ptr, pb: Ptr)
    requires Chain(m, a, NULL, na) && Chain(m, b, pb, NULL) && ApartAll(a) && ApartAll(b)
    requires Mended(m, m', a, b, Head(mid + b, NULL), Last(a + mid, NULL))
    requires Chain(m', mid, Last(a, NULL), Head(b, NULL))
    ensures Chain(m', a + mid + b, NULL, NULL)
  {
    hide Subtree, Own, Apart, Chain, ApartAll, OwnAll;
    var next, prev := Head(mid + b, NULL), Last(a + mid, NULL);
    ChainEmpty(m', NULL, next);
    ChainEmpty(m', prev, NULL);
    if a != [] { ChainSetNext(m, m', a, NULL, na, next); }
    if b != [] { ChainSetPrev(m, m', b, pb, NULL, prev); }
    ChainConcat(m', a, mid, NULL, Head(b, NULL));
    ChainConcat(m', a + mid, b, NULL, NULL);
  }

  lemma ChainEmpty(m: Cells, prev: Ptr, next: Ptr)
    ensures Chain(m, [], prev, next)
  {
  }

  /** Replacing the child list keeps the parent well-formed. */
  lemma ParentKids(m: Cells, m': Cells, t: Tree, ks: seq<Tree>)
    requires Parent(m, t) && Chain(m', ks, NULL, NULL) && ApartAll(ks)
    requires {t.p} + OptPtr(t.text) + OptPtr(t.name) !! OwnAll(ks)
    requires t.p in m' && m'[t.p] == Record(m[t.p].node.(child := Head(ks, NULL)))
    requires Agree(m, m', OptPtr(t.text) + OptPtr(t.name))
    ensures Parent(m', WithKids(t, ks))
  {
    hide TextAt, IsText, Chain, ApartAll, OwnAll;
    if t.text != NULL { TextFrame(m, m', t.text); }
    if t.name != NULL { TextFrame(m, m', t.name); }
  }

  /** What splitting the children at `k` gives. */
  lemma SplitKids(m: Cells, t: Tree, a: seq<Tree>, b: seq<Tree>)
    requires Parent(m, t) && t.kids == a + b
    ensures Chain(m, a, NULL, Head(b, NULL)) && Chain(m, b, Last(a, NULL), NULL)
    ensures ApartAll(a) && ApartAll(b) && OwnAll(a) !! OwnAll(b)
    ensures OwnAll(t.kids) == OwnAll(a) + OwnAll(b)
    ensures {t.p} + OptPtr(t.text) + OptPtr(t.name) !! OwnAll(t.kids)
  {
    hide TextAt, IsText, Chain, ApartAll, OwnAll;
    ChainConcat(m, a, b, NULL, NULL);
    ApartAllConcat(a, b);
    OwnAllConcat(a, b);
  }

  lemma MendedRelinks(m: Cells, m': Cells, a: seq<Tree>, b: seq<Tree>, na: Ptr, pb: Ptr, next: Ptr, prev: Ptr)
    requires Mended(m, m', a, b, next, prev) && ApartAll(a) && ApartAll(b)
    requires Chain(m, a, NULL, na) && Chain(m, b, pb, NULL)
    ensures Relinked(m, m', a) && Relinked(m, m', b)
  {
    hide Subtree, Own, Apart, Chain, ApartAll, OwnAll;
    forall k | 0 <= k < |a| ensures RelinkedOne(m, m', a[k]) {
      MendedOne(m, m', a, k, |a| - 1, NULL, na);
    }
    forall k | 0 <= k < |b| ensures RelinkedOne(m, m', b[k]) {
      MendedOne(m, m', b, k, 0, pb, NULL);
    }
  }

  lemma MendedOne(m: Cells, m': Cells, ks: seq<Tree>, k: nat, j: nat, prev: Ptr, next: Ptr)
    requires k < |ks| && j < |ks| && ApartAll(ks) && Chain(m, ks, prev, next)
    requires IsRecord(m, ks[j].p) && IsRecord(m', ks[j].p)
    requires m'[ks[j].p].node == m[ks[j].p].node.(next := m'[ks[j].p].node.next, prev := m'[ks[j].p].node.prev)
    requires Agree(m, m', OwnAll(ks) - {ks[j].p})
    ensures RelinkedOne(m, m', ks[k])
  {
    hide Subtree, Own, Apart, Chain, ApartAll, OwnAll;
    PickOne(ks, k);
    PickChain(m, ks, k, prev, next);
    OwnHasRoot(ks[k]);
    if j != k {
      PickOne(ks, j);
      OwnHasRoot(ks[j]);
      if j < k {
        PickOne(ks[..k], j);
      } else {
        assert ks[k + 1..][j - k - 1] == ks[j];
        PickOne(ks[k + 1..], j - k - 1);
      }
      assert ks[j].p !in Own(ks[k]);
    }
  }

  /** What a parent's record says, and that trees are allocated. */
  lemma ParentFacts(m: Cells, t: Tree)
    requires Parent(m, t)
    ensures IsRecord(m, t.p) && m[t.p].node.child == Head(t.kids, NULL) && t.p in Own(t) && Own(t) <= m.Keys
    ensures t.p != NULL && t.p !in OptPtr(t.text) + OptPtr(t.name)
    ensures Own(t) == {t.p} + OptPtr(t.text) + OptPtr(t.name) + OwnAll(t.kids)
  {
    SubtreeOwned(m, t);
  }

  lemma ChildFacts(m: Cells, t: Tree, k: nat)
    requires Parent(m, t) && k < |t.kids|
    ensures var p := t.kids[k].p;
            && IsRecord(m, p) && p != NULL && p in OwnAll(t.kids) && p in Own(t.kids[k])
            && m[p].node.prev == Last(t.kids[..k], NULL) && m[p].node.next == Head(t.kids[k + 1..], NULL)
  {
    hide Chain, ApartAll, OwnAll;
    PickOne(t.kids, k);
    PickChain(m, t.kids, k, NULL, NULL);
  }

  // ----- cJSON_AddItemToArray

  /** The links after appending: the first child, or the last child's successor. */
  function AppendLinks(m: Cells, t: Tree, x: Ptr): Cells
    requires IsRecord(m, t.p) && (t.kids != [] ==> IsRecord(m, Last(t.kids, NULL))) && IsRecord(m, x)
  {
    if t.kids == [] then SetChild(m, t.p, x)
    else SetPrev(SetNext(m, Last(t.kids, NULL), x), x, Last(t.kids, NULL))
  }

  lemma Appended(m: Cells, t: Tree, x: Tree, m': Cells)
    requires Parent(m, t) && Detached(m, x) && Own(t) !! Own(x)
    requires IsRecord(m, t.p) && IsRecord(m, x.p) && (t.kids != [] ==> IsRecord(m, Last(t.kids, NULL)))
    requires m' == AppendLinks(m, t, x.p)
    ensures Parent(m', WithKids(t, t.kids + [x])) && Relinked(m, m', t.kids + [x])
  {
    hide Subtree, Apart, Chain, ApartAll, OwnAll, Own;
    var a := t.kids;
    assert a == a + [];
    ParentFacts(m, t);
    ParentFacts(m, x);
    SplitKids(m, t, a, []);
    if a != [] {
      ChildFacts(m, t, |a| - 1);
    }
    assert a + [x] + [] == a + [x];
    assert [x] + [] == [x];
    assert Mended(m, m', a, [], x.p, x.p);
    SubtreeRelink(m, m', x, Last(a, NULL), NULL);
    ChainOne(m', x, Last(a, NULL), NULL);
    Splice(m, m', a, [x], [], NULL, Last(a, NULL));
    OwnOne(x);
    ApartAllConcat(a, [x]);
    OwnAllConcat(a, [x]);
    ParentKids(m, m', t, a + [x]);
    MendedRelinks(m, m', a, [], NULL, Last(a, NULL), x.p, x.p);
    assert RelinkedOne(m, m', x);
  }

  /** cJSON_AddItemToArray: the children become `t.kids + [x]`. */
  method AddItemToArray(heap: Heap, parent: Ptr, item: Ptr, ghost t: Tree, ghost x: Tree)
    requires Parent(heap.cells, t) && parent == t.p
    requires item != NULL ==> Detached(heap.cells, x) && item == x.p && Own(t) !! Own(x)
    modifies heap`cells
    ensures item == NULL ==> heap.cells == old(heap.cells)
    ensures item != NULL ==>
              && Parent(heap.cells, WithKids(t, t.kids + [x]))
              && Relinked(old(heap.cells), heap.cells, t.kids + [x])
              && heap.cells.Keys == old(heap.cells).Keys
              && Framed(old(heap.cells), heap.cells, t.p, OwnAll(t.kids) + Own(x))
  {
    hide Subtree, Apart, Own, Chain, ApartAll, OwnAll, Relinked, Parent, Detached;
    ghost var m := heap.cells;
    ParentFacts(m, t);
    var c := heap.cells[parent].node.child;
    if item == NULL {
      return;
    }
    DetachedFacts(m, x);
    DetachedApart(m, x);
    OwnAllDisjoint(m, t);
    if c == NULL {
      FirstNull(m, t);
      heap.SetNode(parent, heap.cells[parent].node.(child := item));
    } else {
      ghost var k := 0;
      FirstNull(m, t);
      ChildFacts(m, t, 0);
      while heap.cells[c].node.next != NULL
        invariant k < |t.kids| && c == t.kids[k].p && IsRecord(m, c) && heap.cells == m
        invariant heap.cells[c].node.next == Head(t.kids[k + 1..], NULL)
        decreases |t.kids| - k
      {
        c := heap.cells[c].node.next;
        k := k + 1;
        ChildFacts(m, t, k);
      }
      NextNull(m, t, k);
      ChildFacts(m, t, k);
      heap.SetNode(c, heap.cells[c].node.(next := item));
      heap.SetNode(item, heap.cells[item].node.(prev := c));
    }
    Appended(m, t, x, heap.cells);
  }

  lemma DetachedFacts(m: Cells, x: Tree)
    requires Detached(m, x)
    ensures IsRecord(m, x.p) && x.p != NULL && m[x.p].node.next == NULL && m[x.p].node.prev == NULL && Parent(m, x)
  {
  }

  lemma FirstNull(m: Cells, t: Tree)
    requires Parent(m, t)
    ensures Head(t.kids, NULL) == NULL <==> t.kids == []
  {
    if t.kids != [] {
      ChildFacts(m, t, 0);
    }
  }

  lemma NextNull(m: Cells, t: Tree, k: nat)
    requires Parent(m, t) && k < |t.kids|
    ensures Head(t.kids[k + 1..], NULL) == NULL <==> k == |t.kids| - 1
  {
    if k + 1 < |t.kids| {
      ChildFacts(m, t, k + 1);
    }
  }

  // ----- walking to an index

  /** cJSON_GetArrayItem and the search loop of insert, detach and replace: the child of
      that index, the first one for a negative index, none past the end. */
  method GetArrayItem(heap: Heap, parent: Ptr, item: int, ghost t: Tree) returns (c: Ptr)
    requires Parent(heap.cells, t) && parent == t.p
    ensures 0 <= item < |t.kids| ==> c == t.kids[item].p && c != NULL
    ensures item < 0 && t.kids != [] ==> c == t.kids[0].p && c != NULL
    ensures item >= |t.kids| || t.kids == [] ==> c == NULL
  {
    hide Subtree, Apart, Own, Chain, ApartAll, OwnAll, Parent;
    ghost var m := heap.cells;
    ParentFacts(m, t);
    FirstNull(m, t);
    c := heap.cells[parent].node.child;
    var which := item;
    ghost var k := 0;
    if t.kids != [] { ChildFacts(m, t, 0); }
    while c != NULL && which > 0
      invariant k <= |t.kids| && c == Head(t.kids[k..], NULL) && (c == NULL <==> k == |t.kids|)
      invariant which == item - k && (k > 0 ==> which >= 0)
      invariant c != NULL ==> IsRecord(m, c) && heap.cells[c].node.next == Head(t.kids[k + 1..], NULL)
      decreases |t.kids| - k
    {
      NextNull(m, t, k);
      c := heap.cells[c].node.next;
      which := which - 1;
      k := k + 1;
      if k < |t.kids| { ChildFacts(m, t, k); }
    }
  }

  /** The record and neighbours of child `k`, and whether it is the first. */
  lemma ChildAt(m: Cells, t: Tree, k: nat)
    requires Parent(m, t) && k < |t.kids|
    ensures var p := t.kids[k].p;
            && IsRecord(m, p) && p != NULL && p in OwnAll(t.kids)
            && m[p].node.prev == Last(t.kids[..k], NULL) && m[p].node.next == Head(t.kids[k + 1..], NULL)
            && (p == Head(t.kids, NULL) <==> k == 0)
            && (m[p].node.prev == NULL <==> k == 0)
            && (m[p].node.next == NULL <==> k == |t.kids| - 1)
            && (k > 0 ==> IsRecord(m, m[p].node.prev) && t.kids[k - 1].p == m[p].node.prev)
            && (k < |t.kids| - 1 ==> IsRecord(m, m[p].node.next) && t.kids[k + 1].p == m[p].node.next)
  {
    hide Chain, ApartAll, OwnAll, Subtree, Own, Apart, Parent;
    ChildFacts(m, t, k);
    NextNull(m, t, k);
    if k > 0 {
      ChildFacts(m, t, k - 1);
      ChildFacts(m, t, 0);
      KidsDistinct(m, t, 0, k);
    }
    if k + 1 < |t.kids| {
      ChildFacts(m, t, k + 1);
    }
  }

  lemma KidsDistinct(m: Cells, t: Tree, i: nat, j: nat)
    requires Parent(m, t) && i < j < |t.kids|
    ensures t.kids[i].p != t.kids[j].p
    ensures t.kids[j].p !in OwnAll(t.kids[..j]) && t.kids[i].p !in OwnAll(t.kids[i + 1..])
  {
    hide Chain, ApartAll, OwnAll, Own, Subtree;
    PickOne(t.kids, i);
    PickOne(t.kids, j);
    OwnHasRoot(t.kids[i]);
    OwnHasRoot(t.kids[j]);
    PickOne(t.kids[..j], i);
  }

  /** Two parts of the children, and one element between them. */
  lemma PartsApart(m: Cells, t: Tree, k: nat)
    requires Parent(m, t) && k < |t.kids|
    ensures var a, c, b := t.kids[..k], t.kids[k], t.kids[k + 1..];
            && ApartAll(a) && Apart(c) && ApartAll(b) && Subtree(m, c)
            && OwnAll(a) !! Own(c) && OwnAll(a) !! OwnAll(b) && Own(c) !! OwnAll(b)
            && OwnAll(t.kids) == OwnAll(a) + Own(c) + OwnAll(b)
            && Chain(m, a, NULL, c.p) && Chain(m, b, c.p, NULL) && c.p in Own(c)
            && (k > 0 ==> t.kids[k - 1].p in OwnAll(a) && Last(a, NULL) == t.kids[k - 1].p && a != [])
            && (k < |t.kids| - 1 ==> t.kids[k + 1].p in OwnAll(b) && Head(b, NULL) == t.kids[k + 1].p && b != [])
  {
    hide Chain, ApartAll, OwnAll, Own, TextAt, IsText;
    PickOne(t.kids, k);
    PickChain(m, t.kids, k, NULL, NULL);
    OwnHasRoot(t.kids[k]);
    if k > 0 {
      PickOne(t.kids[..k], k - 1);
      OwnHasRoot(t.kids[k - 1]);
    }
    if k + 1 < |t.kids| {
      PickOne(t.kids[k + 1..], 0);
      OwnHasRoot(t.kids[k + 1]);
    }
  }

  // ----- cJSON_InsertItemInArray

  /** A foreign tree among the children keeps everything apart. */
  lemma KidsWith(t: Tree, a: seq<Tree>, x: Tree, b: seq<Tree>)
    requires ApartAll(a) && ApartAll(b) && Apart(x) && OwnAll(a) !! OwnAll(b)
    requires OwnAll(a) !! Own(x) && OwnAll(b) !! Own(x)
    requires {t.p} + OptPtr(t.text) + OptPtr(t.name) !! OwnAll(a) + OwnAll(b) + Own(x)
    ensures ApartAll(a + [x] + b) && {t.p} + OptPtr(t.text) + OptPtr(t.name) !! OwnAll(a + [x] + b)
  {
    hide Apart, ApartAll, OwnAll, Own;
    OwnOne(x);
    ApartAllConcat(a, [x]);
    ApartAllConcat(a + [x], b);
    OwnAllConcat(a, [x]);
    OwnAllConcat(a + [x], b);
  }

  lemma DetachedApart(m: Cells, x: Tree)
    requires Detached(m, x)
    ensures Apart(x) && Subtree(m, x) && Own(x) <= m.Keys && x.p in Own(x)
  {
    SubtreeOwned(m, x);
  }

  ghost predicate InsertLinks(m: Cells, m': Cells, t: Tree, x: Tree, k: nat)
    requires k < |t.kids| && IsRecord(m, t.p) && IsRecord(m, x.p) && IsRecord(m, t.kids[k].p)
    requires k > 0 ==> IsRecord(m, t.kids[k - 1].p)
  {
    var c := t.kids[k].p;
    && t.p in m' && m'[t.p] == (if k == 0 then Record(m[t.p].node.(child := x.p)) else m[t.p])
    && x.p in m' && m'[x.p] == Record(m[x.p].node.(next := c, prev := Last(t.kids[..k], NULL)))
    && c in m' && m'[c] == Record(m[c].node.(prev := x.p))
    && (k > 0 ==> t.kids[k - 1].p in m' && m'[t.kids[k - 1].p] == Record(m[t.kids[k - 1].p].node.(next := x.p)))
    && Agree(m, m', m.Keys - {t.p, x.p, c} - (if k > 0 then {t.kids[k - 1].p} else {}))
  }

  /** What an insertion assigns, seen from the two halves of the child list. */
  lemma InsertMends(m: Cells, t: Tree, x: Tree, k: nat, m': Cells, a: seq<Tree>, b: seq<Tree>)
    requires Parent(m, t) && Detached(m, x) && Own(t) !! Own(x) && k < |t.kids| && a == t.kids[..k] && b == t.kids[k..]
    requires IsRecord(m, t.p) && IsRecord(m, x.p) && IsRecord(m, t.kids[k].p)
    requires k > 0 ==> IsRecord(m, t.kids[k - 1].p)
    requires InsertLinks(m, m', t, x, k)
    ensures Mended(m, m', a, b, x.p, x.p)
    ensures x.p in m' && m'[x.p] == Record(m[x.p].node.(next := b[0].p, prev := Last(a, NULL)))
    ensures Agree(m, m', Own(x) - {x.p}) && Agree(m, m', OptPtr(t.text) + OptPtr(t.name))
    ensures t.p in m' && m'[t.p] == Record(m[t.p].node.(child := Head(a + [x] + b, NULL)))
  {
    hide Subtree, Apart, Chain, ApartAll, OwnAll, Own, Parent, Detached;
    assert t.kids == a + b && b[0] == t.kids[k];
    ParentFacts(m, t);
    DetachedFacts(m, x);
    DetachedApart(m, x);
    SplitKids(m, t, a, b);
    PartsApart(m, t, k);
    InsertPointers(m, t, x, k);
    OwnFirst(b);
  }

  lemma Inserted(m: Cells, t: Tree, x: Tree, k: nat, m': Cells)
    requires Parent(m, t) && Detached(m, x) && Own(t) !! Own(x) && k < |t.kids|
    requires IsRecord(m, t.p) && IsRecord(m, x.p) && IsRecord(m, t.kids[k].p)
    requires k > 0 ==> IsRecord(m, t.kids[k - 1].p)
    requires InsertLinks(m, m', t, x, k)
    ensures Parent(m', WithKids(t, t.kids[..k] + [x] + t.kids[k..]))
    ensures Relinked(m, m', t.kids[..k]) && Relinked(m, m', [x]) && Relinked(m, m', t.kids[k..])
  {
    hide Subtree, Apart, Chain, ApartAll, OwnAll, Own, Parent, Relinked, Detached, Mended, Agree, InsertLinks;
    var a, b := t.kids[..k], t.kids[k..];
    assert t.kids == a + b && b[0] == t.kids[k];
    InsertMends(m, t, x, k, m', a, b);
    ParentFacts(m, t);
    DetachedApart(m, x);
    SplitKids(m, t, a, b);
    InsertedChain(m, m', a, x, b);
    KidsWith(t, a, x, b);
    ParentKids(m, m', t, a + [x] + b);
  }

  lemma OwnFirst(ks: seq<Tree>)
    requires ks != []
    ensures ks[0].p in OwnAll(ks) && Own(ks[0]) <= OwnAll(ks)
  {
  }

  /** The chain with `x` spliced in between `a` and a non-empty `b`. */
  lemma InsertedChain(m: Cells, m': Cells, a: seq<Tree>, x: Tree, b: seq<Tree>)
    requires b != [] && Chain(m, a, NULL, b[0].p) && Chain(m, b, Last(a, NULL), NULL) && ApartAll(a) && ApartAll(b)
    requires Detached(m, x) && Mended(m, m', a, b, x.p, x.p)
    requires x.p in m' && m'[x.p] == Record(m[x.p].node.(next := b[0].p, prev := Last(a, NULL)))
    requires Agree(m, m', Own(x) - {x.p})
    ensures Chain(m', a + [x] + b, NULL, NULL)
    ensures Relinked(m, m', a) && Relinked(m, m', [x]) && Relinked(m, m', b)
  {
    hide Subtree, Apart, Chain, ApartAll, OwnAll, Own;
    SubtreeRelink(m, m', x, Last(a, NULL), b[0].p);
    ChainOne(m', x, Last(a, NULL), b[0].p);
    assert ([x] + b)[0] == x;
    assert (a + [x])[|a + [x]| - 1] == x;
    Splice(m, m', a, [x], b, b[0].p, Last(a, NULL));
    MendedRelinks(m, m', a, b, b[0].p, Last(a, NULL), x.p, x.p);
    DetachedFacts(m, x);
    assert RelinkedOne(m, m', x);
  }

  /** cJSON_InsertItemInArray: at an index past the end the item is appended. */
  method InsertItemInArray(heap: Heap, parent: Ptr, which: int, newitem: Ptr, ghost t: Tree, ghost x: Tree)
    requires Parent(heap.cells, t) && parent == t.p
    requires Detached(heap.cells, x) && newitem == x.p && Own(t) !! Own(x)
    modifies heap`cells
    ensures var k: nat := if which < 0 then 0 else which;
            && Parent(heap.cells, WithKids(t, if k < |t.kids| then t.kids[..k] + [x] + t.kids[k..] else t.kids + [x]))
            && Relinked(old(heap.cells), heap.cells, t.kids + [x])
            && Framed(old(heap.cells), heap.cells, t.p, OwnAll(t.kids) + Own(x))
    ensures heap.cells.Keys == old(heap.cells).Keys
  {
    hide Subtree, Apart, Own, Chain, ApartAll, OwnAll, Relinked, Parent, Detached;
    ghost var m := heap.cells;
    ghost var k: nat := if which < 0 then 0 else which;
    ParentFacts(m, t);
    DetachedFacts(m, x);
    var c := GetArrayItem(heap, parent, which, t);
    if c == NULL {
      AddItemToArray(heap, parent, newitem, t, x);
      return;
    }
    InsertPointers(m, t, x, k);
    LinkBefore(heap, parent, c, newitem, t, x, k);
    Inserted(m, t, x, k, heap.cells);
    RelinkedSplit(m, heap.cells, t.kids[..k], x, t.kids[k..], t.kids + [x]);
  }

  /** The link assignments of an insertion. */
  method LinkBefore(heap: Heap, parent: Ptr, c: Ptr, newitem: Ptr, ghost t: Tree, ghost x: Tree, ghost k: nat)
    requires Parent(heap.cells, t) && parent == t.p && k < |t.kids| && c == t.kids[k].p
    requires Detached(heap.cells, x) && newitem == x.p && Own(t) !! Own(x)
    modifies heap`cells
    ensures heap.cells.Keys == old(heap.cells).Keys
    ensures var m := old(heap.cells);
            && IsRecord(m, t.p) && IsRecord(m, x.p) && IsRecord(m, c)
            && (k > 0 ==> IsRecord(m, t.kids[k - 1].p))
            && InsertLinks(m, heap.cells, t, x, k)
  {
    hide Subtree, Apart, Own, Chain, ApartAll, OwnAll, Parent, Detached;
    ghost var m := heap.cells;
    DetachedFacts(m, x);
    ParentFacts(m, t);
    InsertPointers(m, t, x, k);
    heap.SetNode(newitem, heap.cells[newitem].node.(next := c));
    heap.SetNode(newitem, heap.cells[newitem].node.(prev := heap.cells[c].node.prev));
    heap.SetNode(c, heap.cells[c].node.(prev := newitem));
    if c == heap.cells[parent].node.child {
      heap.SetNode(parent, heap.cells[parent].node.(child := newitem));
    } else {
      var before := heap.cells[newitem].node.prev;
      heap.SetNode(before, heap.cells[before].node.(next := newitem));
    }
  }

  /** The pointers an insertion works on are different records. */
  lemma InsertPointers(m: Cells, t: Tree, x: Tree, k: nat)
    requires Parent(m, t) && Detached(m, x) && Own(t) !! Own(x) && k < |t.kids|
    ensures var c := t.kids[k].p;
            && IsRecord(m, c) && c != x.p && c != t.p && x.p != t.p && c in OwnAll(t.kids) && x.p in Own(x)
            && m[c].node.prev == Last(t.kids[..k], NULL)
            && m[t.p].node.child == Head(t.kids, NULL)
            && (c == Head(t.kids, NULL) <==> k == 0)
            && (k > 0 ==>
                  var q := t.kids[k - 1].p;
                  IsRecord(m, q) && q == m[c].node.prev && q != c && q != x.p && q != t.p && q in OwnAll(t.kids))
            && (k < |t.kids| - 1 ==>
                  var q := t.kids[k + 1].p;
                  IsRecord(m, q) && q == m[c].node.next && q != c && q != x.p && q != t.p)
  {
    hide Subtree, Apart, Chain, ApartAll, OwnAll, Own, Parent;
    ParentFacts(m, t);
    DetachedFacts(m, x);
    ParentFacts(m, x);
    ChildAt(m, t, k);
    if k > 0 { ChildAt(m, t, k - 1); KidsDistinct(m, t, k - 1, k); }
    if k < |t.kids| - 1 { ChildAt(m, t, k + 1); KidsDistinct(m, t, k, k + 1); }
    OwnAllDisjoint(m, t);
  }

  lemma OwnAllDisjoint(m: Cells, t: Tree)
    requires Parent(m, t)
    ensures t.p !in OwnAll(t.kids) && OwnAll(t.kids) <= Own(t)
    ensures {t.p} + OptPtr(t.text) + OptPtr(t.name) !! OwnAll(t.kids)
  {
  }

  lemma RelinkedSplit(m: Cells, m': Cells, a: seq<Tree>, x: Tree, b: seq<Tree>, all: seq<Tree>)
    requires Relinked(m, m', a) && Relinked(m, m', [x]) && Relinked(m, m', b) && all == a + b + [x]
    ensures Relinked(m, m', all)
  {
    hide RelinkedOne;
    forall k | 0 <= k < |all| ensures RelinkedOne(m, m', all[k]) {
      if k < |a| {
        assert RelinkedOne(m, m', a[k]);
      } else if k < |a| + |b| {
        assert RelinkedOne(m, m', b[k - |a|]);
      } else {
        assert RelinkedOne(m, m', [x][0]);
      }
    }
  }

  // ----- cJSON_DetachItemFromArray

  ghost predicate DetachLinks(m: Cells, m': Cells, t: Tree, k: nat)
    requires k < |t.kids| && IsRecord(m, t.p) && IsRecord(m, t.kids[k].p)
    requires k > 0 ==> IsRecord(m, t.kids[k - 1].p)
    requires k < |t.kids| - 1 ==> IsRecord(m, t.kids[k + 1].p)
  {
    var c, next, prev := t.kids[k].p, Head(t.kids[k + 1..], NULL), Last(t.kids[..k], NULL);
    && t.p in m' && m'[t.p] == (if k == 0 then Record(m[t.p].node.(child := next)) else m[t.p])
    && c in m' && m'[c] == Record(m[c].node.(next := NULL, prev := NULL))
    && (k > 0 ==> t.kids[k - 1].p in m' && m'[t.kids[k - 1].p] == Record(m[t.kids[k - 1].p].node.(next := next)))
    && (k < |t.kids| - 1 ==> t.kids[k + 1].p in m' && m'[t.kids[k + 1].p] == Record(m[t.kids[k + 1].p].node.(prev := prev)))
    && Agree(m, m', m.Keys - {t.p, c} - (if k > 0 then {t.kids[k - 1].p} else {})
                    - (if k < |t.kids| - 1 then {t.kids[k + 1].p} else {}))
  }

  lemma RemovedOwn(m: Cells, t: Tree, k: nat)
    requires Parent(m, t) && k < |t.kids|
    ensures Own(WithKids(t, t.kids[..k] + t.kids[k + 1..])) !! Own(t.kids[k])
  {
    hide Subtree, Apart, Chain, ApartAll, OwnAll, Parent;
    PartsApart(m, t, k);
    OwnAllDisjoint(m, t);
    OwnAllConcat(t.kids[..k], t.kids[k + 1..]);
  }

  lemma Removed(m: Cells, t: Tree, k: nat, m': Cells)
    requires Parent(m, t) && k < |t.kids|
    requires IsRecord(m, t.p) && IsRecord(m, t.kids[k].p)
    requires k > 0 ==> IsRecord(m, t.kids[k - 1].p)
    requires k < |t.kids| - 1 ==> IsRecord(m, t.kids[k + 1].p)
    requires DetachLinks(m, m', t, k)
    ensures Parent(m', WithKids(t, t.kids[..k] + t.kids[k + 1..])) && Detached(m', t.kids[k])
    ensures Relinked(m, m', t.kids[..k]) && Relinked(m, m', [t.kids[k]]) && Relinked(m, m', t.kids[k + 1..])
    ensures Own(WithKids(t, t.kids[..k] + t.kids[k + 1..])) !! Own(t.kids[k])
  {
    hide Subtree, Apart, Chain, ApartAll, OwnAll, Parent, Relinked;
    var a, x, b := t.kids[..k], t.kids[k], t.kids[k + 1..];
    RemovedOwn(m, t, k);
    hide Own;
    ParentFacts(m, t);
    PartsApart(m, t, k);
    OwnAllDisjoint(m, t);
    RemovePointers(m, t, k);
    OwnAllConcat(a, b);
    assert Mended(m, m', a, b, Head(b, NULL), Last(a, NULL));
    MendedRelinks(m, m', a, b, x.p, x.p, Head(b, NULL), Last(a, NULL));
    SubtreeRelink(m, m', x, NULL, NULL);
    RelinkedSingle(m, m', x);
    RemovedChain(m, m', a, b, x.p);
    ApartAllConcat(a, b);
    ParentKids(m, m', t, a + b);
  }

  lemma RemovedChain(m: Cells, m': Cells, a: seq<Tree>, b: seq<Tree>, c: Ptr)
    requires Chain(m, a, NULL, c) && Chain(m, b, c, NULL) && ApartAll(a) && ApartAll(b)
    requires Mended(m, m', a, b, Head(b, NULL), Last(a, NULL))
    ensures Chain(m', a + b, NULL, NULL)
  {
    hide Chain, ApartAll, OwnAll;
    ChainEmpty(m', Last(a, NULL), Head(b, NULL));
    assert [] + b == b && a + [] == a;
    Splice(m, m', a, [], b, c, c);
    assert a + [] + b == a + b;
  }

  lemma RemovePointers(m: Cells, t: Tree, k: nat)
    requires Parent(m, t) && k < |t.kids|
    ensures var c := t.kids[k].p;
            && IsRecord(m, c) && c != t.p && c in OwnAll(t.kids)
            && m[c].node.prev == Last(t.kids[..k], NULL) && m[c].node.next == Head(t.kids[k + 1..], NULL)
            && (m[c].node.prev == NULL <==> k == 0) && (m[c].node.next == NULL <==> k == |t.kids| - 1)
            && m[t.p].node.child == Head(t.kids, NULL)
            && (c == Head(t.kids, NULL) <==> k == 0)
            && (k > 0 ==>
                  var q := t.kids[k - 1].p;
                  IsRecord(m, q) && q == m[c].node.prev && q != c && q != t.p && q in OwnAll(t.kids))
            && (k < |t.kids| - 1 ==>
                  var q := t.kids[k + 1].p;
                  IsRecord(m, q) && q == m[c].node.next && q != c && q != t.p && q in OwnAll(t.kids))
            && (0 < k < |t.kids| - 1 ==> t.kids[k - 1].p != t.kids[k + 1].p)
  {
    hide Subtree, Apart, Chain, ApartAll, OwnAll, Own, Parent;
    ParentFacts(m, t);
    ChildAt(m, t, k);
    if k > 0 { ChildAt(m, t, k - 1); KidsDistinct(m, t, k - 1, k); }
    if k < |t.kids| - 1 { ChildAt(m, t, k + 1); KidsDistinct(m, t, k, k + 1); }
    if 0 < k < |t.kids| - 1 { KidsDistinct(m, t, k - 1, k + 1); }
    OwnAllDisjoint(m, t);
  }

  /** cJSON_DetachItemFromArray: the children lose element `which`, and the
      detached node has null links and an untouched subtree. */
  method DetachItemFromArray(heap: Heap, parent: Ptr, which: int, ghost t: Tree) returns (c: Ptr)
    requires Parent(heap.cells, t) && parent == t.p
    modifies heap`cells
    ensures var k: nat := if which < 0 then 0 else which;
            && (c == NULL <==> k >= |t.kids|)
            && (k >= |t.kids| ==> heap.cells == old(heap.cells))
            && (k < |t.kids| ==>
                  && c == t.kids[k].p && Detached(heap.cells, t.kids[k])
                  && Parent(heap.cells, WithKids(t, t.kids[..k] + t.kids[k + 1..]))
                  && Relinked(old(heap.cells), heap.cells, t.kids[..k])
                  && Relinked(old(heap.cells), heap.cells, [t.kids[k]])
                  && Relinked(old(heap.cells), heap.cells, t.kids[k + 1..])
                  && Own(WithKids(t, t.kids[..k] + t.kids[k + 1..])) !! Own(t.kids[k])
                  && Framed(old(heap.cells), heap.cells, t.p, OwnAll(t.kids)))
    ensures heap.cells.Keys == old(heap.cells).Keys
  {
    hide Subtree, Apart, Own, Chain, ApartAll, OwnAll, Relinked, Parent, Detached;
    ghost var m := heap.cells;
    ghost var k: nat := if which < 0 then 0 else which;
    ParentFacts(m, t);
    c := GetArrayItem(heap, parent, which, t);
    if c == NULL {
      return;
    }
    RemovePointers(m, t, k);
    Unlink(heap, parent, c, t, k);
    Removed(m, t, k, heap.cells);
  }

  /** The link assignments of a removal. */
  method Unlink(heap: Heap, parent: Ptr, c: Ptr, ghost t: Tree, ghost k: nat)
    requires Parent(heap.cells, t) && parent == t.p && k < |t.kids| && c == t.kids[k].p
    modifies heap`cells
    ensures heap.cells.Keys == old(heap.cells).Keys
    ensures var m := old(heap.cells);
            && IsRecord(m, t.p) && IsRecord(m, c)
            && (k > 0 ==> IsRecord(m, t.kids[k - 1].p))
            && (k < |t.kids| - 1 ==> IsRecord(m, t.kids[k + 1].p))
            && DetachLinks(m, heap.cells, t, k)
  {
    hide Subtree, Apart, Own, Chain, ApartAll, OwnAll, Parent;
    ghost var m := heap.cells;
    ParentFacts(m, t);
    RemovePointers(m, t, k);
    var node := heap.cells[c].node;
    if node.prev != NULL {
      heap.SetNode(node.prev, heap.cells[node.prev].node.(next := node.next));
    }
    if node.next != NULL {
      heap.SetNode(node.next, heap.cells[node.next].node.(prev := node.prev));
    }
    if c == heap.cells[parent].node.child {
      heap.SetNode(parent, heap.cells[parent].node.(child := node.next));
    }
    heap.SetNode(c, heap.cells[c].node.(prev := NULL, next := NULL));
  }

  /** cJSON_DeleteItemFromArray frees exactly what the element owns. */
  method DeleteItemFromArray(heap: Heap, parent: Ptr, which: int, ghost t: Tree)
    requires Parent(heap.cells, t) && parent == t.p
    modifies heap`cells
    ensures var k: nat := if which < 0 then 0 else which;
            && (k >= |t.kids| ==> heap.cells == old(heap.cells))
            && (k < |t.kids| ==>
                  && heap.cells.Keys == old(heap.cells).Keys - Own(t.kids[k])
                  && Parent(heap.cells, WithKids(t, t.kids[..k] + t.kids[k + 1..]))
                  && Relinked(old(heap.cells), heap.cells, t.kids[..k] + t.kids[k + 1..])
                  && Framed(old(heap.cells), heap.cells, t.p, OwnAll(t.kids)))
  {
    hide Subtree, Apart, Own, Chain, ApartAll, OwnAll, Relinked, Parent, Detached;
    ghost var m := heap.cells;
    ghost var k: nat := if which < 0 then 0 else which;
    var c := DetachItemFromArray(heap, parent, which, t);
    if c != NULL {
      ghost var m1, a, x, b := heap.cells, t.kids[..k], t.kids[k], t.kids[k + 1..];
      DeleteDetached(heap, c, x);
      ghost var t' := WithKids(t, a + b);
      ParentSurvives(m1, Own(x), t');
      ParentFacts(heap.cells, t');
      RelinkedSurvives(m, m1, Own(x), t', a, b);
    } else {
      DeleteNothing(heap);
    }
  }

  /** cJSON_Delete(NULL) does nothing. */
  method DeleteNothing(heap: Heap)
    modifies heap`cells
    ensures heap.cells == old(heap.cells)
  {
    ChainEmpty(heap.cells, NULL, NULL);
    DeleteChain(heap, NULL, [], NULL);
    assert OwnAll([]) == {};
    assert heap.cells == old(heap.cells) - {};
  }

  /** cJSON_Delete of a detached tree. */
  method DeleteDetached(heap: Heap, c: Ptr, ghost x: Tree)
    requires Detached(heap.cells, x) && c == x.p
    modifies heap`cells
    ensures heap.cells == old(heap.cells) - Own(x)
  {
    hide Subtree, Apart, Own, Chain, ApartAll, OwnAll;
    OwnOne(x);
    ChainOne(heap.cells, x, NULL, NULL);
    DeleteChain(heap, c, [x], NULL);
  }

  lemma ParentSurvives(m: Cells, gone: set<Ptr>, t: Tree)
    requires Parent(m, t) && Own(t) !! gone
    ensures Parent(m - gone, t)
  {
    hide Subtree, Apart, Own;
    ParentFacts(m, t);
    SubtreeFrame(m, m - gone, t);
  }

  /** Links into the kept parts are as the relinking left them. */
  lemma RelinkedSurvives(m: Cells, m1: Cells, gone: set<Ptr>, t: Tree, a: seq<Tree>, b: seq<Tree>)
    requires Relinked(m, m1, a) && Relinked(m, m1, b) && t.kids == a + b
    requires Own(t) !! gone && Parent(m1, t)
    ensures Relinked(m, m1 - gone, a + b)
  {
    hide Subtree, Apart, Own, Chain, ApartAll, OwnAll, Parent;
    OwnAllDisjoint(m1, t);
    forall k | 0 <= k < |a + b| ensures RelinkedOne(m, m1 - gone, (a + b)[k]) {
      var x := (a + b)[k];
      assert RelinkedOne(m, m1, if k < |a| then a[k] else b[k - |a|]);
      PickOne(t.kids, k);
      OwnHasRoot(x);
    }
  }

  // ----- cJSON_ReplaceItemInArray

  ghost predicate ReplaceLinks(m: Cells, m': Cells, t: Tree, x: Tree, k: nat)
    requires k < |t.kids| && IsRecord(m, t.p) && IsRecord(m, x.p) && IsRecord(m, t.kids[k].p)
    requires k > 0 ==> IsRecord(m, t.kids[k - 1].p)
    requires k < |t.kids| - 1 ==> IsRecord(m, t.kids[k + 1].p)
  {
    var c, next, prev := t.kids[k].p, Head(t.kids[k + 1..], NULL), Last(t.kids[..k], NULL);
    && t.p in m' && m'[t.p] == (if k == 0 then Record(m[t.p].node.(child := x.p)) else m[t.p])
    && x.p in m' && m'[x.p] == Record(m[x.p].node.(next := next, prev := prev))
    && c in m' && m'[c] == Record(m[c].node.(next := NULL, prev := NULL))
    && (k > 0 ==> t.kids[k - 1].p in m' && m'[t.kids[k - 1].p] == Record(m[t.kids[k - 1].p].node.(next := x.p)))
    && (k < |t.kids| - 1 ==> t.kids[k + 1].p in m' && m'[t.kids[k + 1].p] == Record(m[t.kids[k + 1].p].node.(prev := x.p)))
    && Agree(m, m', m.Keys - {t.p, c, x.p} - (if k > 0 then {t.kids[k - 1].p} else {})
                    - (if k < |t.kids| - 1 then {t.kids[k + 1].p} else {}))
  }

  lemma Replaced(m: Cells, t: Tree, x: Tree, k: nat, m': Cells)
    requires Parent(m, t) && Detached(m, x) && Own(t) !! Own(x) && k < |t.kids|
    requires IsRecord(m, t.p) && IsRecord(m, x.p) && IsRecord(m, t.kids[k].p)
    requires k > 0 ==> IsRecord(m, t.kids[k - 1].p)
    requires k < |t.kids| - 1 ==> IsRecord(m, t.kids[k + 1].p)
    requires ReplaceLinks(m, m', t, x, k)
    ensures Parent(m', WithKids(t, t.kids[..k] + [x] + t.kids[k + 1..])) && Detached(m', t.kids[k])
    ensures Relinked(m, m', t.kids[..k]) && Relinked(m, m', [x]) && Relinked(m, m', t.kids[k + 1..])
  {
    hide Subtree, Apart, Chain, ApartAll, OwnAll, Parent, Relinked, Own;
    var a, c, b := t.kids[..k], t.kids[k], t.kids[k + 1..];
    ParentFacts(m, t);
    DetachedFacts(m, x);
    DetachedApart(m, x);
    PartsApart(m, t, k);
    OwnAllDisjoint(m, t);
    RemovePointers(m, t, k);
    assert Mended(m, m', a, b, x.p, x.p);
    MendedRelinks(m, m', a, b, c.p, c.p, x.p, x.p);
    SubtreeRelink(m, m', c, NULL, NULL);
    SubtreeRelink(m, m', x, Last(a, NULL), Head(b, NULL));
    RelinkedSingle(m, m', x);
    ChainOne(m', x, Last(a, NULL), Head(b, NULL));
    assert ([x] + b)[0] == x && (a + [x])[|a + [x]| - 1] == x;
    Splice(m, m', a, [x], b, c.p, c.p);
    KidsWith(t, a, x, b);
    ParentKids(m, m', t, a + [x] + b);
  }

  lemma ReplacedApart(m: Cells, t: Tree, x: Tree, k: nat)
    requires Parent(m, t) && Detached(m, x) && Own(t) !! Own(x) && k < |t.kids|
    ensures Own(WithKids(t, t.kids[..k] + [x] + t.kids[k + 1..])) !! Own(t.kids[k])
  {
    hide Subtree, Apart, Chain, ApartAll, OwnAll;
    var a, c, b := t.kids[..k], t.kids[k], t.kids[k + 1..];
    ParentFacts(m, t);
    PartsApart(m, t, k);
    OwnOne(x);
    OwnAllConcat(a, [x]);
    OwnAllConcat(a + [x], b);
    OwnAllDisjoint(m, t);
    var t' := WithKids(t, a + [x] + b);
    assert Own(t') == {t.p} + OptPtr(t.text) + OptPtr(t.name) + OwnAll(a + [x] + b);
    hide Own;
    assert Own(c) <= OwnAll(t.kids);
  }

  /** cJSON_ReplaceItemInArray: element `which` becomes `x` and is freed. */
  method ReplaceItemInArray(heap: Heap, parent: Ptr, which: int, newitem: Ptr, ghost t: Tree, ghost x: Tree)
    requires Parent(heap.cells, t) && parent == t.p
    requires Detached(heap.cells, x) && newitem == x.p && Own(t) !! Own(x)
    modifies heap`cells
    ensures var k: nat := if which < 0 then 0 else which;
            && (k >= |t.kids| ==> heap.cells == old(heap.cells))
            && (k < |t.kids| ==>
                  var ks := t.kids[..k] + [x] + t.kids[k + 1..];
                  && Parent(heap.cells, WithKids(t, ks))
                  && heap.cells.Keys == old(heap.cells).Keys - Own(t.kids[k])
                  && Relinked(old(heap.cells), heap.cells, ks)
                  && Framed(old(heap.cells), heap.cells, t.p, OwnAll(t.kids) + Own(x)))
  {
    hide Subtree, Apart, Own, Chain, ApartAll, OwnAll, Relinked, Parent, Detached;
    ghost var m := heap.cells;
    ghost var k: nat := if which < 0 then 0 else which;
    ParentFacts(m, t);
    DetachedFacts(m, x);
    var c := GetArrayItem(heap, parent, which, t);
    if c == NULL {
      return;
    }
    LinkReplacement(heap, parent, c, newitem, t, x, k);
    FinishReplace(heap, c, t, x, k, m);
  }

  /** The link assignments of a replacement. */
  method LinkReplacement(heap: Heap, parent: Ptr, c: Ptr, newitem: Ptr, ghost t: Tree, ghost x: Tree, ghost k: nat)
    requires Parent(heap.cells, t) && parent == t.p && k < |t.kids| && c == t.kids[k].p
    requires Detached(heap.cells, x) && newitem == x.p && Own(t) !! Own(x)
    modifies heap`cells
    ensures heap.cells.Keys == old(heap.cells).Keys
    ensures var m := old(heap.cells);
            && IsRecord(m, t.p) && IsRecord(m, x.p) && IsRecord(m, c)
            && (k > 0 ==> IsRecord(m, t.kids[k - 1].p))
            && (k < |t.kids| - 1 ==> IsRecord(m, t.kids[k + 1].p))
            && ReplaceLinks(m, heap.cells, t, x, k)
  {
    hide Subtree, Apart, Own, Chain, ApartAll, OwnAll, Parent, Detached;
    ghost var m := heap.cells;
    DetachedFacts(m, x);
    ParentFacts(m, t);
    InsertPointers(m, t, x, k);
    RemovePointers(m, t, k);
    var node := heap.cells[c].node;
    heap.SetNode(newitem, heap.cells[newitem].node.(next := node.next, prev := node.prev));
    if node.next != NULL {
      heap.SetNode(node.next, heap.cells[node.next].node.(prev := newitem));
    }
    if c == heap.cells[parent].node.child {
      heap.SetNode(parent, heap.cells[parent].node.(child := newitem));
    } else {
      heap.SetNode(node.prev, heap.cells[node.prev].node.(next := newitem));
    }
    heap.SetNode(c, heap.cells[c].node.(next := NULL, prev := NULL));
  }

  lemma ReplaceFramed(m: Cells, m': Cells, t: Tree, x: Tree, k: nat)
    requires Parent(m, t) && Detached(m, x) && Own(t) !! Own(x) && k < |t.kids|
    requires IsRecord(m, t.p) && IsRecord(m, x.p) && IsRecord(m, t.kids[k].p)
    requires k > 0 ==> IsRecord(m, t.kids[k - 1].p)
    requires k < |t.kids| - 1 ==> IsRecord(m, t.kids[k + 1].p)
    requires ReplaceLinks(m, m', t, x, k) && m'.Keys == m.Keys
    ensures Framed(m, m', t.p, OwnAll(t.kids) + Own(x))
  {
    hide Subtree, Apart, Own, Chain, ApartAll, OwnAll, Parent, Detached;
    InsertPointers(m, t, x, k);
    RemovePointers(m, t, k);
  }

  /** The final cJSON_Delete of a replacement. */
  method FinishReplace(heap: Heap, c: Ptr, ghost t: Tree, ghost x: Tree, ghost k: nat, ghost m: Cells)
    requires Parent(m, t) && Detached(m, x) && Own(t) !! Own(x) && k < |t.kids| && c == t.kids[k].p
    requires IsRecord(m, t.p) && IsRecord(m, x.p) && IsRecord(m, c)
    requires k > 0 ==> IsRecord(m, t.kids[k - 1].p)
    requires k < |t.kids| - 1 ==> IsRecord(m, t.kids[k + 1].p)
    requires ReplaceLinks(m, heap.cells, t, x, k) && heap.cells.Keys == m.Keys
    modifies heap`cells
    ensures var ks := t.kids[..k] + [x] + t.kids[k + 1..];
            && Parent(heap.cells, WithKids(t, ks))
            && heap.cells.Keys == m.Keys - Own(t.kids[k])
            && Relinked(m, heap.cells, ks)
            && Framed(m, heap.cells, t.p, OwnAll(t.kids) + Own(x))
  {
    hide Subtree, Apart, Own, Chain, ApartAll, OwnAll, Relinked, Parent, Detached, ReplaceLinks;
    ghost var m1, a, b := heap.cells, t.kids[..k], t.kids[k + 1..];
    ghost var t' := WithKids(t, a + [x] + b);
    Replaced(m, t, x, k, m1);
    ReplacedApart(m, t, x, k);
    ReplaceFramed(m, m1, t, x, k);
    DeleteDetached(heap, c, t.kids[k]);
    ParentSurvives(m1, Own(t.kids[k]), t');
    ParentFacts(heap.cells, t');
    RelinkedJoin(m, m1, a, [x]);
    RelinkedSurvives(m, m1, Own(t.kids[k]), t', a + [x], b);
  }

  lemma RelinkedSingle(m: Cells, m': Cells, x: Tree)
    requires RelinkedOne(m, m', x)
    ensures Relinked(m, m', [x])
  {
  }

  lemma RelinkedJoin(m: Cells, m': Cells, a: seq<Tree>, b: seq<Tree>)
    requires Relinked(m, m', a) && Relinked(m, m', b)
    ensures Relinked(m, m', a + b)
  {
    hide RelinkedOne;
  }

  // ----- what editing does to the value

  lemma {:induction false} ItemsConcat(m: Cells, a: seq<Tree>, b: seq<Tree>, va: seq<Json>, vb: seq<Json>)
    requires |a| == |va|
    ensures DenotesItems(m, a + b, va + vb) <==> DenotesItems(m, a, va) && DenotesItems(m, b, vb)
    decreases a
  {
    hide Denotes;
    if a == [] {
      assert a + b == b && va + vb == vb;
    } else {
      assert (a + b)[1..] == a[1..] + b && (va + vb)[1..] == va[1..] + vb;
      ItemsConcat(m, a[1..], b, va[1..], vb);
    }
  }

  lemma {:induction false} ItemsLength(m: Cells, ks: seq<Tree>, items: seq<Json>)
    requires DenotesItems(m, ks, items)
    ensures |ks| == |items|
    decreases ks
  {
    hide Denotes;
    if ks != [] && items != [] {
      ItemsLength(m, ks[1..], items[1..]);
    }
  }

  /** After an edit the array stands for the items its new children stood for before. */
  lemma EditedValue(m: Cells, m': Cells, t: Tree, touched: set<Ptr>, ks: seq<Tree>, items: seq<Json>)
    requires IsRecord(m, t.p) && m[t.p].node.kind == Kind.Array
    requires Framed(m, m', t.p, touched) && Relinked(m, m', ks) && Subtrees(m, ks) && DenotesItems(m, ks, items)
    ensures Denotes(m', WithKids(t, ks), Arr(items))
  {
    hide Subtree, Apart, Own, DenotesItems, Relinked;
    ItemsRelink(m, m', ks, items);
  }

  lemma KidsSubtrees(m: Cells, t: Tree)
    requires Parent(m, t)
    ensures Subtrees(m, t.kids)
  {
    hide Subtree, Apart, Own, Chain, ApartAll, OwnAll, Parent;
    forall k | 0 <= k < |t.kids| ensures Subtree(m, t.kids[k]) && Apart(t.kids[k]) {
      PartsApart(m, t, k);
    }
  }

  /** Appending to the list is appending to the value. */
  lemma AppendRefines(m: Cells, m': Cells, t: Tree, x: Tree, items: seq<Json>, v: Json)
    requires Parent(m, t) && Detached(m, x) && Denotes(m, t, Arr(items)) && Denotes(m, x, v)
    requires Relinked(m, m', t.kids + [x]) && Framed(m, m', t.p, OwnAll(t.kids) + Own(x))
    ensures Denotes(m', WithKids(t, t.kids + [x]), Arr(items + [v]))
  {
    hide Subtree, Apart, Own, OwnAll, Relinked;
    KidsSubtrees(m, t);
    DetachedApart(m, x);
    ItemsLength(m, t.kids, items);
    ItemsOne(m, x, v);
    ItemsConcat(m, t.kids, [x], items, [v]);
    EditedValue(m, m', t, OwnAll(t.kids) + Own(x), t.kids + [x], items + [v]);
  }

  lemma ItemsOne(m: Cells, x: Tree, v: Json)
    ensures DenotesItems(m, [x], [v]) <==> Denotes(m, x, v)
  {
    hide Denotes;
    assert [x][1..] == [] && [v][1..] == [];
  }

  /** Replacing the part after the first `i` children by `mid` and what follows
      the first `j` children does the same to the items: `i == j` inserts,
      `j == i + 1` with an empty `mid` removes, with one element replaces. */
  lemma SpliceRefines(m: Cells, m': Cells, t: Tree, mid: seq<Tree>, touched: set<Ptr>, items: seq<Json>,
                      vs: seq<Json>, i: nat, j: nat)
    requires Parent(m, t) && Denotes(m, t, Arr(items)) && i <= j <= |t.kids|
    requires Subtrees(m, mid) && DenotesItems(m, mid, vs)
    requires Framed(m, m', t.p, touched) && Relinked(m, m', t.kids[..i] + mid + t.kids[j..])
    ensures |items| == |t.kids|
    ensures Denotes(m', WithKids(t, t.kids[..i] + mid + t.kids[j..]), Arr(items[..i] + vs + items[j..]))
  {
    hide Subtree, Apart, Own, OwnAll, Relinked, DenotesItems, Parent;
    var a, b := t.kids[..i], t.kids[j..];
    ItemsLength(m, t.kids, items);
    ItemsLength(m, mid, vs);
    KidsSubtrees(m, t);
    assert t.kids == a + t.kids[i..] && items == items[..i] + items[i..];
    ItemsConcat(m, a, t.kids[i..], items[..i], items[i..]);
    assert t.kids == t.kids[..j] + b && items == items[..j] + items[j..];
    ItemsConcat(m, t.kids[..j], b, items[..j], items[j..]);
    ItemsConcat(m, a, mid, items[..i], vs);
    ItemsConcat(m, a + mid, b, items[..i] + vs, items[j..]);
    EditedValue(m, m', t, touched, a + mid + b, items[..i] + vs + items[j..]);
  }

  // ----- the same for objects

  lemma {:induction false} MembersConcat(m: Cells, a: seq<Tree>, b: seq<Tree>, va: seq<Member>, vb: seq<Member>)
    requires |a| == |va|
    ensures DenotesMembers(m, a + b, va + vb) <==> DenotesMembers(m, a, va) && DenotesMembers(m, b, vb)
    decreases a
  {
    hide DenotesMember;
    if a == [] {
      assert a + b == b && va + vb == vb;
    } else {
      assert (a + b)[1..] == a[1..] + b && (va + vb)[1..] == va[1..] + vb;
      MembersConcat(m, a[1..], b, va[1..], vb);
    }
  }

  lemma {:induction false} MembersLength(m: Cells, ks: seq<Tree>, members: seq<Member>)
    requires DenotesMembers(m, ks, members)
    ensures |ks| == |members|
    decreases ks
  {
    hide DenotesMember;
    if ks != [] && members != [] {
      MembersLength(m, ks[1..], members[1..]);
    }
  }

  lemma MembersOne(m: Cells, x: Tree, mb: Member)
    ensures DenotesMembers(m, [x], [mb]) <==> DenotesMember(m, x, mb)
  {
    hide DenotesMember;
    assert [x][1..] == [] && [mb][1..] == [];
  }

  lemma EditedObject(m: Cells, m': Cells, t: Tree, touched: set<Ptr>, ks: seq<Tree>, members: seq<Member>)
    requires IsRecord(m, t.p) && m[t.p].node.kind == Kind.Object
    requires Framed(m, m', t.p, touched) && Relinked(m, m', ks) && Subtrees(m, ks) && DenotesMembers(m, ks, members)
    ensures Denotes(m', WithKids(t, ks), Obj(members))
  {
    hide Subtree, Apart, Own, DenotesMembers, Relinked;
    MembersRelink(m, m', ks, members);
  }

  /** Appending a named node to an object appends the member. */
  lemma AppendMemberRefines(m: Cells, m': Cells, t: Tree, x: Tree, members: seq<Member>, mb: Member)
    requires Parent(m, t) && Detached(m, x) && Denotes(m, t, Obj(members)) && DenotesMember(m, x, mb)
    requires Relinked(m, m', t.kids + [x]) && Framed(m, m', t.p, OwnAll(t.kids) + Own(x))
    ensures Denotes(m', WithKids(t, t.kids + [x]), Obj(members + [mb]))
  {
    hide Subtree, Apart, Own, OwnAll, Relinked, DenotesMember;
    KidsSubtrees(m, t);
    DetachedApart(m, x);
    MembersLength(m, t.kids, members);
    MembersOne(m, x, mb);
    MembersConcat(m, t.kids, [x], members, [mb]);
    EditedObject(m, m', t, OwnAll(t.kids) + Own(x), t.kids + [x], members + [mb]);
  }

  /** Inserting, removing and replacing children of an object does so to its members. */
  lemma SpliceMembersRefines(m: Cells, m': Cells, t: Tree, mid: seq<Tree>, touched: set<Ptr>,
                             members: seq<Member>, vs: seq<Member>, i: nat, j: nat)
    requires Parent(m, t) && Denotes(m, t, Obj(members)) && i <= j <= |t.kids|
    requires Subtrees(m, mid) && DenotesMembers(m, mid, vs)
    requires Framed(m, m', t.p, touched) && Relinked(m, m', t.kids[..i] + mid + t.kids[j..])
    ensures |members| == |t.kids|
    ensures Denotes(m', WithKids(t, t.kids[..i] + mid + t.kids[j..]), Obj(members[..i] + vs + members[j..]))
  {
    hide Subtree, Apart, Own, OwnAll, Relinked, DenotesMembers, Parent;
    var a, b := t.kids[..i], t.kids[j..];
    MembersLength(m, t.kids, members);
    MembersLength(m, mid, vs);
    KidsSubtrees(m, t);
    assert t.kids == a + t.kids[i..] && members == members[..i] + members[i..];
    MembersConcat(m, a, t.kids[i..], members[..i], members[i..]);
    assert t.kids == t.kids[..j] + b && members == members[..j] + members[j..];
    MembersConcat(m, t.kids[..j], b, members[..j], members[j..]);
    MembersConcat(m, a, mid, members[..i], vs);
    MembersConcat(m, a + mid, b, members[..i] + vs, members[j..]);
    EditedObject(m, m', t, touched, a + mid + b, members[..i] + vs + members[j..]);
  }
}
