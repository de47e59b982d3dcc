/** cJSON_Duplicate: an equal tree in fresh memory, or nothing at all. */
module Duplicate {
  import opened JsonValue
  import opened Memory
  import opened Trees
  import opened Siblings
  import opened ListOps
  import opened Growing
  import opened ParseHeap

  // ----- equal trees

  /** Both addresses are NULL, or every string at the first is at the second too. */
  ghost predicate SameText(m: Cells, p: Ptr, m': Cells, p': Ptr) {
    (p == NULL <==> p' == NULL) && (p != NULL ==> forall s :: TextAt(m, p, s) ==> TextAt(m', p', s))
  }

  ghost predicate SameNode(m: Cells, t: Tree, m': Cells, t': Tree) {
    && IsRecord(m, t.p) && IsRecord(m', t'.p)
    && m'[t'.p].node.kind == m[t.p].node.kind
    && m'[t'.p].node.valueint == m[t.p].node.valueint && m'[t'.p].node.valuedouble == m[t.p].node.valuedouble
    && SameText(m, t.text, m', t'.text) && SameText(m, t.name, m', t'.name)
  }

  /** `t'` in `m'` repeats `t` in `m` node for node. */
  ghost predicate Copies(m: Cells, t: Tree, m': Cells, t': Tree)
    decreases t, 0
  {
    SameNode(m, t, m', t') && CopiesAll(m, t.kids, m', t'.kids)
  }

  ghost predicate CopiesAll(m: Cells, ks: seq<Tree>, m': Cells, ks': seq<Tree>)
    decreases ks, 1
  {
    if ks == [] || ks' == [] then ks == [] && ks' == []
    else Copies(m, ks[0], m', ks'[0]) && CopiesAll(m, ks[1..], m', ks'[1..])
  }

  /** A copy stands for whatever the original stands for. */
  lemma {:induction false} CopyDenotes(m: Cells, t: Tree, m': Cells, t': Tree, v: Json)
    requires Copies(m, t, m', t') && Denotes(m, t, v)
    ensures Denotes(m', t', v)
    decreases v, 0
  {
    hide TextAt;
    match v
    case Arr(items) => CopyDenotesItems(m, t.kids, m', t'.kids, items);
    case Obj(members) => CopyDenotesMembers(m, t.kids, m', t'.kids, members);
    case _ =>
  }

  lemma {:induction false} CopyDenotesItems(m: Cells, ks: seq<Tree>, m': Cells, ks': seq<Tree>, items: seq<Json>)
    requires CopiesAll(m, ks, m', ks') && DenotesItems(m, ks, items)
    ensures DenotesItems(m', ks', items)
    decreases items, 1
  {
    hide Copies, Denotes;
    if ks != [] {
      CopyDenotes(m, ks[0], m', ks'[0], items[0]);
      CopyDenotesItems(m, ks[1..], m', ks'[1..], items[1..]);
    }
  }

  lemma {:induction false} CopyDenotesMembers(m: Cells, ks: seq<Tree>, m': Cells, ks': seq<Tree>, members: seq<Member>)
    requires CopiesAll(m, ks, m', ks') && DenotesMembers(m, ks, members)
    ensures DenotesMembers(m', ks', members)
    decreases members, 1
  {
    hide TextAt, Denotes;
    if ks != [] {
      CopyDenotes(m, ks[0], m', ks'[0], members[0].val);
      CopyDenotesMembers(m, ks[1..], m', ks'[1..], members[1..]);
    }
  }

  // ----- copies under later changes of the heap

  lemma {:induction false} CopiesFrame(m: Cells, t: Tree, m1: Cells, m2: Cells, t': Tree)
    requires Copies(m, t, m1, t') && Agree(m1, m2, Own(t'))
    ensures Copies(m, t, m2, t')
    decreases t, 0
  {
    hide TextAt;
    assert t'.p in Own(t');
    TextFrames(m, t.text, m1, m2, t'.text);
    TextFrames(m, t.name, m1, m2, t'.name);
    CopiesAllFrame(m, t.kids, m1, m2, t'.kids);
  }

  lemma TextFrames(m: Cells, p: Ptr, m1: Cells, m2: Cells, p': Ptr)
    requires SameText(m, p, m1, p') && (p' != NULL ==> Agree(m1, m2, {p'}))
    ensures SameText(m, p, m2, p')
  {
    if p' != NULL {
      TextFrame(m1, m2, p');
    }
  }

  lemma {:induction false} CopiesAllFrame(m: Cells, ks: seq<Tree>, m1: Cells, m2: Cells, ks': seq<Tree>)
    requires CopiesAll(m, ks, m1, ks') && Agree(m1, m2, OwnAll(ks'))
    ensures CopiesAll(m, ks, m2, ks')
    decreases ks, 1
  {
    hide Copies, Own;
    if ks != [] && ks' != [] {
      CopiesFrame(m, ks[0], m1, m2, ks'[0]);
      CopiesAllFrame(m, ks[1..], m1, m2, ks'[1..]);
    }
  }

  lemma {:induction false} CopiesRelink(m: Cells, ks: seq<Tree>, m1: Cells, m2: Cells, ks': seq<Tree>)
    requires CopiesAll(m, ks, m1, ks') && Relinked(m1, m2, ks') && Subtrees(m1, ks')
    ensures CopiesAll(m, ks, m2, ks')
    decreases ks
  {
    hide Own, Subtree, Apart, Agree, SameNode;
    if ks != [] && ks' != [] {
      assert RelinkedOne(m1, m2, ks'[0]);
      CopyRelink(m, ks[0], m1, m2, ks'[0]);
      forall k | 0 <= k < |ks'[1..]| ensures RelinkedOne(m1, m2, ks'[1..][k]) {
        assert RelinkedOne(m1, m2, ks'[k + 1]);
      }
      CopiesRelink(m, ks[1..], m1, m2, ks'[1..]);
    }
  }

  lemma CopyRelink(m: Cells, t: Tree, m1: Cells, m2: Cells, t': Tree)
    requires Copies(m, t, m1, t') && RelinkedOne(m1, m2, t') && Subtree(m1, t') && Apart(t')
    ensures Copies(m, t, m2, t')
  {
    hide TextAt, IsText, Chain;
    ParentFacts(m1, t');
    OwnAllDisjoint(m1, t');
    TextFrames(m, t.text, m1, m2, t'.text);
    TextFrames(m, t.name, m1, m2, t'.name);
    CopiesAllFrame(m, t.kids, m1, m2, t'.kids);
  }

  lemma {:induction false} CopiesSnoc(m: Cells, ks: seq<Tree>, c: Tree, m': Cells, ks': seq<Tree>, c': Tree)
    requires CopiesAll(m, ks, m', ks') && Copies(m, c, m', c')
    ensures CopiesAll(m, ks + [c], m', ks' + [c'])
    decreases ks
  {
    hide Copies;
    if ks == [] {
      assert ks + [c] == [c] && ks' + [c'] == [c'] && [c][1..] == [] && [c'][1..] == [];
    } else {
      CopiesSnoc(m, ks[1..], c, m', ks'[1..], c');
      assert (ks + [c])[1..] == ks[1..] + [c] && (ks' + [c'])[1..] == ks'[1..] + [c'];
    }
  }

  // ----- cJSON_strdup

  method StrLen(heap: Heap, p: Ptr, ghost s: string) returns (n: nat)
    requires TextAt(heap.cells, p, s)
    ensures n == |s|
  {
    n := 0;
    TextChars(heap.cells, p, s);
    while heap.cells[p].bytes[n] != '\0'
      invariant n <= |s|
      decreases |s| - n
    {
      n := n + 1;
    }
  }

  lemma TextChars(m: Cells, p: Ptr, s: string)
    requires TextAt(m, p, s)
    ensures forall k :: 0 <= k < |s| ==> m[p].bytes[k] == s[k] && s[k] != '\0'
  {
    forall k | 0 <= k < |s| ensures m[p].bytes[k] == s[k] {
      assert m[p].bytes[..|s|][k] == s[k];
    }
  }

  /** A fresh block with a copy of the string, or NULL. */
  method Strdup(heap: Heap, p: Ptr, ghost s: string) returns (q: Ptr, ghost bytes: seq<char>)
    requires TextAt(heap.cells, p, s)
    modifies heap`cells, heap`refused
    ensures old(heap.refused) ==> heap.refused
    ensures bytes == s + ['\0']
    ensures q == NULL ==> heap.cells == old(heap.cells) && heap.refused
    ensures q != NULL ==> q !in old(heap.cells) && heap.cells == old(heap.cells)[q := Block(bytes)]
  {
    var len := StrLen(heap, p, s);
    var copy := heap.cells[p].bytes[..len + 1];
    bytes := copy;
    assert heap.cells[p].bytes[..len + 1] == heap.cells[p].bytes[..len] + [heap.cells[p].bytes[len]];
    q := heap.Malloc(Block(copy));
  }

  // ----- the node itself

  /** A fresh childless node gets its value string or its name. */
  lemma Attached(m: Cells, m1: Cells, m2: Cells, t1: Tree, t2: Tree, q: Ptr, bytes: seq<char>, s: string)
    requires Document(m, m1, t1) && t1.kids == [] && q != NULL && q !in m1
    requires bytes == s + ['\0'] && '\0' !in s
    requires (t1.text == NULL && t2 == t1.(text := q)) || (t1.name == NULL && t2 == t1.(name := q))
    requires IsRecord(m1, t1.p)
    requires m2 == m1[q := Block(bytes)][t1.p := Record(m1[t1.p].node.(valuestring := t2.text, name := t2.name))]
    ensures Document(m, m2, t2) && TextAt(m2, q, s)
    ensures m2[t1.p].node == m1[t1.p].node.(valuestring := t2.text, name := t2.name)
  {
    hide IsText;
    SubtreeOwned(m1, t1);
    assert bytes[..|s|] == s;
    IsTextFrom(m2, q, s);
    if t1.text != NULL { TextIn(m1, t1.text); TextFrame(m1, m2, t1.text); }
    if t1.name != NULL { TextIn(m1, t1.name); TextFrame(m1, m2, t1.name); }
    assert OwnAll([]) == {};
    assert Own(t2) == Own(t1) + {q};
    assert Subtree(m2, t2);
  }

  lemma FreshDocument(m: Cells, m1: Cells, c: Ptr, node: Node)
    requires c != NULL && c !in m && m1 == m[c := Record(node)]
    requires node == ZERO_NODE.(kind := node.kind, valueint := node.valueint, valuedouble := node.valuedouble)
    ensures Document(m, m1, NewLeaf(c))
  {
    assert OwnAll([]) == {};
    assert Own(NewLeaf(c)) == {c};
    NewLeafIsLeaf(m1, c);
  }

  lemma DocumentRoot(m: Cells, m1: Cells, t: Tree)
    requires Document(m, m1, t)
    ensures IsRecord(m1, t.p) && t.p !in m && t.p != NULL
  {
  }

  /** The copied fields and strings of one node. */
  method DuplicateNode(heap: Heap, item: Ptr, ghost t: Tree) returns (newitem: Ptr, ghost t': Tree)
    requires Subtree(heap.cells, t) && item == t.p
    modifies heap`cells, heap`refused
    ensures old(heap.refused) ==> heap.refused
    ensures newitem == NULL ==> heap.cells == old(heap.cells) && heap.refused
    ensures newitem != NULL ==>
              && newitem == t'.p && t'.kids == [] && Document(old(heap.cells), heap.cells, t')
              && SameNode(old(heap.cells), t, heap.cells, t')
  {
    hide Document, Chain, TextAt, IsText;
    ghost var m := heap.cells;
    t' := NewLeaf(NULL);
    newitem := heap.Malloc(Record(ZERO_NODE));
    if newitem == NULL {
      return;
    }
    var node := heap.cells[item].node;
    heap.SetNode(newitem, ZERO_NODE.(kind := node.kind, constName := node.constName, valueint := node.valueint,
          valuedouble := node.valuedouble));
    assert heap.cells == m[newitem := Record(ZERO_NODE.(kind := node.kind, valueint := node.valueint,
          valuedouble := node.valuedouble))];
    FreshDocument(m, heap.cells, newitem, heap.cells[newitem].node);
    t' := NewLeaf(newitem);
    newitem, t' := DuplicateStrings(heap, item, newitem, m, t, t');
  }

  method DuplicateStrings(heap: Heap, item: Ptr, newitem: Ptr, ghost m: Cells, ghost t: Tree, ghost t1: Tree)
    returns (c: Ptr, ghost t': Tree)
    requires Subtree(m, t) && item == t.p && newitem == t1.p && Document(m, heap.cells, t1) && t1 == NewLeaf(newitem)
    requires IsRecord(m, t.p) && IsRecord(heap.cells, newitem)
    requires var n, n' := m[t.p].node, heap.cells[newitem].node;
             n'.kind == n.kind && n'.valueint == n.valueint && n'.valuedouble == n.valuedouble
    modifies heap`cells, heap`refused
    ensures old(heap.refused) ==> heap.refused
    ensures c == NULL ==> heap.cells == m && heap.refused
    ensures c != NULL ==>
              && c == t'.p && t'.kids == [] && Document(m, heap.cells, t')
              && SameNode(m, t, heap.cells, t')
  {
    hide TextAt, Document, SameText;
    ghost var node0 := heap.cells[newitem].node;
    c, t' := newitem, t1;
    var copied;
    copied, t' := DuplicateText(heap, item, newitem, m, t, t', false);
    if !copied {
      return NULL, t';
    }
    copied, t' := DuplicateText(heap, item, newitem, m, t, t', true);
    if !copied {
      return NULL, t';
    }
    DocumentRoot(m, heap.cells, t');
  }

  /** One of the two strings: `if (item->string) {strdup; on failure delete}`. */
  method DuplicateText(heap: Heap, item: Ptr, newitem: Ptr, ghost m: Cells, ghost t: Tree, ghost t1: Tree,
                       isName: bool)
    returns (copied: bool, ghost t': Tree)
    requires Subtree(m, t) && item == t.p && newitem == t1.p && Document(m, heap.cells, t1) && t1.kids == []
    requires if isName then t1.name == NULL else t1 == NewLeaf(newitem)
    requires isName ==> SameText(m, t.text, heap.cells, t1.text)
    requires IsRecord(heap.cells, newitem)
    modifies heap`cells, heap`refused
    ensures old(heap.refused) ==> heap.refused
    ensures !copied ==> heap.cells == m && heap.refused
    ensures copied ==>
              && Document(m, heap.cells, t') && t'.p == t1.p && t'.kids == []
              && (if isName then t'.text == t1.text else t'.name == NULL)
              && SameText(m, t.text, heap.cells, t'.text) && (isName ==> SameText(m, t.name, heap.cells, t'.name))
              && IsRecord(heap.cells, newitem)
              && var n, n' := old(heap.cells[newitem].node), heap.cells[newitem].node;
                 n'.kind == n.kind && n'.valueint == n.valueint && n'.valuedouble == n.valuedouble
  {
    hide TextAt, Subtree, Own;
    ghost var m1 := heap.cells;
    t' := t1;
    SourceNode(m, m1, t, t1);
    var p := if isName then heap.cells[item].node.name else heap.cells[item].node.valuestring;
    if p == NULL {
      return true, t1;
    }
    ghost var s :| TextAt(m, p, s);
    TextKept(m, m1, t1, p, s);
    var q;
    ghost var bytes;
    q, bytes := Strdup(heap, p, s);
    if isName {
      heap.SetNode(newitem, heap.cells[newitem].node.(name := q));
      t' := t1.(name := q);
    } else {
      heap.SetNode(newitem, heap.cells[newitem].node.(valuestring := q));
      t' := t1.(text := q);
    }
    if q == NULL {
      assert heap.cells == m1;
      DiscardDocument(heap, newitem, m, t1);
      return false, t1;
    }
    NoNulIn(m, p, s);
    Attached(m, m1, heap.cells, t1, t', q, bytes, s);
    SameTextNew(m, p, heap.cells, q, s);
    if isName {
      TextFrames(m, t.text, m1, heap.cells, t1.text);
    }
    copied := true;
  }

  lemma SourceNode(m: Cells, m1: Cells, t: Tree, t1: Tree)
    requires Subtree(m, t) && Document(m, m1, t1)
    ensures IsRecord(m, t.p) && t.p in m1 && m1[t.p] == m[t.p]
    ensures m[t.p].node.valuestring == t.text && m[t.p].node.name == t.name
    ensures t.text != NULL ==> IsText(m, t.text)
    ensures t.name != NULL ==> IsText(m, t.name)
    ensures IsRecord(m1, t1.p) && t1.p != t.p && m1[t1.p].node.valuestring == t1.text && m1[t1.p].node.name == t1.name
    ensures (t1.text != NULL ==> t1.text in m1 && t1.text != t1.p) && (t1.name != NULL ==> t1.name in m1)
  {
    hide Chain;
  }

  lemma TextKept(m: Cells, m1: Cells, t1: Tree, p: Ptr, s: string)
    requires Document(m, m1, t1) && TextAt(m, p, s)
    ensures TextAt(m1, p, s)
  {
    hide Detached;
  }

  lemma NoNulIn(m: Cells, p: Ptr, s: string)
    requires TextAt(m, p, s)
    ensures '\0' !in s
  {
  }

  lemma TextUnique(m: Cells, p: Ptr, s: string, s': string)
    requires TextAt(m, p, s) && TextAt(m, p, s')
    ensures s == s'
  {
    TextChars(m, p, s);
    TextChars(m, p, s');
    assert |s| == |s'|;
  }

  lemma SameTextNew(m: Cells, p: Ptr, m': Cells, p': Ptr, s: string)
    requires p != NULL && p' != NULL && TextAt(m, p, s) && TextAt(m', p', s)
    ensures SameText(m, p, m', p')
  {
    forall s' | TextAt(m, p, s') ensures TextAt(m', p', s') {
      TextUnique(m, p, s, s');
    }
  }

  // ----- the whole tree

  /** The copy of the first children of `t`, under a root of its own. */
  ghost predicate Copying(m: Cells, t: Tree, m1: Cells, t': Tree, k: nat) {
    && k <= |t.kids| && Document(m, m1, t') && SameNode(m, t, m1, t') && CopiesAll(m, t.kids[..k], m1, t'.kids)
  }

  /** The recursion of cJSON_Duplicate. */
  method DuplicateTree(heap: Heap, item: Ptr, recurse: bool, ghost t: Tree) returns (newitem: Ptr, ghost t': Tree)
    requires item != NULL ==> Subtree(heap.cells, t) && Apart(t) && item == t.p
    modifies heap`cells, heap`refused
    ensures old(heap.refused) ==> heap.refused
    ensures newitem == NULL ==> heap.cells == old(heap.cells) && (item == NULL || heap.refused)
    ensures newitem != NULL ==>
              && item != NULL && newitem == t'.p && Document(old(heap.cells), heap.cells, t')
              && (if recurse then Copies(old(heap.cells), t, heap.cells, t')
                  else SameNode(old(heap.cells), t, heap.cells, t') && t'.kids == [])
    decreases t, 1
  {
    hide Document, Subtree, SameNode, Own, Apart, Chain;
    t' := t;
    newitem := NULL;
    if item == NULL {
      return;
    }
    ghost var m := heap.cells;
    newitem, t' := DuplicateNode(heap, item, t);
    if newitem == NULL || !recurse {
      return;
    }
    newitem, t' := DuplicateKids(heap, item, newitem, m, t, t');
  }

  /** The loop over the children. */
  method DuplicateKids(heap: Heap, item: Ptr, root: Ptr, ghost m: Cells, ghost t: Tree, ghost t1: Tree)
    returns (newitem: Ptr, ghost t': Tree)
    requires Subtree(m, t) && Apart(t) && item == t.p && root == t1.p && t1.kids == []
    requires Copying(m, t, heap.cells, t1, 0)
    modifies heap`cells, heap`refused
    ensures old(heap.refused) ==> heap.refused
    ensures newitem == NULL ==> heap.cells == m && heap.refused
    ensures newitem != NULL ==> newitem == t'.p && Document(m, heap.cells, t') && Copies(m, t, heap.cells, t')
    decreases t, 0
  {
    hide Document, Subtree, SameNode, Own, Apart, Chain, Copying;
    newitem, t' := root, t1;
    ghost var k := 0;
    CopyingFacts(m, t, heap.cells, t', k);
    var cptr, nptr := heap.cells[item].node.child, NULL;
    while cptr != NULL
      invariant (old(heap.refused) ==> heap.refused) && newitem == root == t'.p
      invariant Copying(m, t, heap.cells, t', k)
      invariant k <= |t.kids| && cptr == Head(t.kids[k..], NULL) && (cptr == NULL <==> k == |t.kids|)
      invariant nptr == Last(t'.kids, NULL)
      decreases |t.kids| - k
    {
      var linked;
      linked, nptr, t' := DuplicateChild(heap, root, cptr, nptr, m, t, t', k);
      if !linked {
        return NULL, t';
      }
      KidFacts(m, t, k, heap.cells, t');
      cptr := heap.cells[cptr].node.next;
      k := k + 1;
    }
    CopyingDone(m, t, heap.cells, t');
    DocumentRoot(m, heap.cells, t');
  }

  lemma CopyingDone(m: Cells, t: Tree, m1: Cells, t': Tree)
    requires Copying(m, t, m1, t', |t.kids|)
    ensures Document(m, m1, t') && Copies(m, t, m1, t')
  {
    hide Document, SameNode;
    assert t.kids[..|t.kids|] == t.kids;
  }

  lemma CopyingFacts(m: Cells, t: Tree, m1: Cells, t': Tree, k: nat)
    requires Copying(m, t, m1, t', k) && Subtree(m, t) && Apart(t)
    ensures IsRecord(m1, t.p) && m1[t.p].node.child == Head(t.kids, NULL)
              && (Head(t.kids, NULL) == NULL <==> t.kids == [])
  {
    hide Subtree, Own, Apart, SameNode, Detached;
    ParentFacts(m, t);
    FirstNull(m, t);
  }

  lemma KidFacts(m: Cells, t: Tree, k: nat, m1: Cells, t': Tree)
    requires Copying(m, t, m1, t', k + 1) && Subtree(m, t) && Apart(t)
    ensures IsRecord(m1, t.kids[k].p) && m1[t.kids[k].p].node.next == Head(t.kids[k + 1..], NULL)
    ensures Head(t.kids[k + 1..], NULL) == NULL <==> k + 1 == |t.kids|
  {
    hide Subtree, Own, Apart, SameNode, Detached;
    ChildFacts(m, t, k);
    NextNull(m, t, k);
  }

  /** One child is duplicated and linked behind the previous one. */
  method DuplicateChild(heap: Heap, root: Ptr, cptr: Ptr, nptr: Ptr, ghost m: Cells, ghost t: Tree, ghost t1: Tree,
                        ghost k: nat)
    returns (linked: bool, last: Ptr, ghost t': Tree)
    requires Subtree(m, t) && Apart(t) && k < |t.kids| && cptr == t.kids[k].p && cptr != NULL
    requires Copying(m, t, heap.cells, t1, k) && root == t1.p && nptr == Last(t1.kids, NULL)
    modifies heap`cells, heap`refused
    ensures old(heap.refused) ==> heap.refused
    ensures !linked ==> heap.cells == m && heap.refused
    ensures linked ==>
              Copying(m, t, heap.cells, t', k + 1) && t'.p == root && last == Last(t'.kids, NULL) && t'.kids != []
    decreases t, 0, 0
  {
    hide Document, Subtree, SameNode, Own, Apart, Chain, Copying, Copies;
    ghost var m1 := heap.cells;
    KidSource(m, t, m1, t1, k);
    var newchild;
    ghost var c';
    newchild, c' := DuplicateTree(heap, cptr, true, t.kids[k]);
    if newchild == NULL {
      CopyingDocument(m, t, m1, t1, k);
      DiscardDocument(heap, root, m, t1);
      return false, NULL, t1;
    }
    ghost var m2 := heap.cells;
    LinkFacts(m, t, m1, t1, k, m2, c');
    if nptr != NULL {
      heap.SetNode(nptr, heap.cells[nptr].node.(next := newchild));
      heap.SetNode(newchild, heap.cells[newchild].node.(prev := nptr));
    } else {
      heap.SetNode(root, heap.cells[root].node.(child := newchild));
    }
    t' := WithKids(t1, t1.kids + [c']);
    LinkedCopy(m, t, m1, t1, k, m2, c', heap.cells);
    linked, last := true, newchild;
  }

  // ----- linking a duplicated child

  /** A copy of `t` in `m1` is a copy of the same tree in an earlier heap. */
  lemma {:induction false} CopiesSource(m: Cells, m1: Cells, t: Tree, m2: Cells, t': Tree)
    requires Copies(m1, t, m2, t') && Subtree(m, t) && Agree(m, m1, Own(t))
    ensures Copies(m, t, m2, t')
    decreases t, 0
  {
    hide TextAt, IsText;
    assert t.p in Own(t);
    if t.text != NULL { TextFrame(m, m1, t.text); }
    if t.name != NULL { TextFrame(m, m1, t.name); }
    CopiesAllSource(m, m1, t.kids, m2, t'.kids, NULL, NULL);
  }

  lemma {:induction false} CopiesAllSource(m: Cells, m1: Cells, ks: seq<Tree>, m2: Cells, ks': seq<Tree>, prev: Ptr,
                                           next: Ptr)
    requires CopiesAll(m1, ks, m2, ks') && Chain(m, ks, prev, next) && Agree(m, m1, OwnAll(ks))
    ensures CopiesAll(m, ks, m2, ks')
    decreases ks, 1
  {
    hide Copies, Own, Subtree;
    if ks != [] && ks' != [] {
      CopiesSource(m, m1, ks[0], m2, ks'[0]);
      CopiesAllSource(m, m1, ks[1..], m2, ks'[1..], ks[0].p, next);
    }
  }

  lemma DocumentAgrees(m: Cells, m1: Cells, t: Tree, own: set<Ptr>)
    requires Document(m, m1, t) && own <= m.Keys
    ensures Agree(m, m1, own)
  {
    hide Detached;
  }

  lemma KidSource(m: Cells, t: Tree, m1: Cells, t1: Tree, k: nat)
    requires Copying(m, t, m1, t1, k) && Subtree(m, t) && Apart(t) && k < |t.kids|
    ensures Subtree(m, t.kids[k]) && Subtree(m1, t.kids[k]) && Apart(t.kids[k]) && Agree(m, m1, Own(t.kids[k]))
    ensures t.kids[k] in t.kids
  {
    hide Subtree, Own, Apart, SameNode, Detached, Document, CopiesAll;
    PartsApart(m, t, k);
    SubtreeOwned(m, t.kids[k]);
    DocumentAgrees(m, m1, t1, Own(t.kids[k]));
    SubtreeFrame(m, m1, t.kids[k]);
  }

  lemma CopyingDocument(m: Cells, t: Tree, m1: Cells, t1: Tree, k: nat)
    requires Copying(m, t, m1, t1, k)
    ensures Document(m, m1, t1)
  {
  }

  /** Both trees in the heap after the child's duplication. */
  lemma LinkFacts(m: Cells, t: Tree, m1: Cells, t1: Tree, k: nat, m2: Cells, c: Tree)
    requires Copying(m, t, m1, t1, k) && Document(m1, m2, c)
    ensures Parent(m2, t1) && Detached(m2, c) && Own(t1) !! Own(c)
    ensures IsRecord(m2, t1.p) && IsRecord(m2, c.p) && c.p != NULL && c.p != t1.p
    ensures Last(t1.kids, NULL) == NULL <==> t1.kids == []
    ensures t1.kids != [] ==>
              IsRecord(m2, Last(t1.kids, NULL)) && Last(t1.kids, NULL) != c.p && Last(t1.kids, NULL) != t1.p
    ensures Agree(m1, m2, Own(t1))
  {
    hide Subtree, Own, Apart, SameNode, CopiesAll, Chain, ApartAll, OwnAll;
    SubtreeOwned(m1, t1);
    SubtreeFrame(m1, m2, t1);
    LastFacts(m2, t1);
    OwnHasRoot(c);
    OwnHasRoot(t1);
    DetachedFacts(m2, c);
    if t1.kids != [] {
      ChildFacts(m2, t1, |t1.kids| - 1);
      OwnAllDisjoint(m2, t1);
    }
  }

  lemma LinkedCopy(m: Cells, t: Tree, m1: Cells, t1: Tree, k: nat, m2: Cells, c: Tree, m3: Cells)
    requires Copying(m, t, m1, t1, k) && Subtree(m, t) && Apart(t) && k < |t.kids|
    requires Document(m1, m2, c) && Copies(m1, t.kids[k], m2, c)
    requires IsRecord(m2, t1.p) && IsRecord(m2, c.p) && (t1.kids != [] ==> IsRecord(m2, Last(t1.kids, NULL)))
    requires m3 == AppendLinks(m2, t1, c.p)
    ensures Copying(m, t, m3, WithKids(t1, t1.kids + [c]), k + 1)
  {
    hide Subtree, Own, Apart, SameNode, Chain, ApartAll, OwnAll, Relinked, Document, Copies, CopiesAll, Parent;
    LinkFacts(m, t, m1, t1, k, m2, c);
    Appended(m2, t1, c, m3);
    LinkedDocument(m, m1, t1, m2, c, m3);
    LinkedNode(m, t, m1, t1, m2, c, m3);
    LinkedKids(m, t, m1, t1, k, m2, c, m3);
  }

  lemma LinkedDocument(m: Cells, m1: Cells, t1: Tree, m2: Cells, c: Tree, m3: Cells)
    requires Document(m, m1, t1) && Document(m1, m2, c) && Parent(m2, t1)
    requires IsRecord(m2, t1.p) && IsRecord(m2, c.p) && (t1.kids != [] ==> IsRecord(m2, Last(t1.kids, NULL)))
    requires m3 == AppendLinks(m2, t1, c.p) && Parent(m3, WithKids(t1, t1.kids + [c]))
    ensures Document(m, m3, WithKids(t1, t1.kids + [c]))
  {
    hide Subtree, Own, Apart, Chain, ApartAll, OwnAll;
    var t2 := WithKids(t1, t1.kids + [c]);
    OwnSplit(t2, t1.kids, c);
    ParentFacts(m2, t1);
    OwnHasRoot(c);
    OwnAllDisjoint(m2, t1);
    if t1.kids != [] { ChildFacts(m2, t1, |t1.kids| - 1); }
    assert Own(t2) == Own(t1) + Own(c);
    assert m3.Keys == m2.Keys;
  }

  lemma LinkedNode(m: Cells, t: Tree, m1: Cells, t1: Tree, m2: Cells, c: Tree, m3: Cells)
    requires SameNode(m, t, m1, t1) && Parent(m2, t1) && Agree(m1, m2, Own(t1))
    requires IsRecord(m2, t1.p) && IsRecord(m2, c.p) && (t1.kids != [] ==> IsRecord(m2, Last(t1.kids, NULL)))
    requires Own(t1) !! Own(c)
    requires m3 == AppendLinks(m2, t1, c.p)
    ensures SameNode(m, t, m3, WithKids(t1, t1.kids + [c]))
  {
    hide Subtree, Own, Apart, Chain, ApartAll, OwnAll, TextAt, SameText;
    ParentFacts(m2, t1);
    OwnHasRoot(c);
    OwnAllDisjoint(m2, t1);
    if t1.kids != [] { ChildFacts(m2, t1, |t1.kids| - 1); }
    LinkedText(m, t.text, m1, m3, t1.text);
    LinkedText(m, t.name, m1, m3, t1.name);
  }

  lemma LinkedText(m: Cells, p: Ptr, m1: Cells, m3: Cells, q: Ptr)
    requires SameText(m, p, m1, q) && (q != NULL ==> q in m1 && q in m3 && m1[q] == m3[q])
    ensures SameText(m, p, m3, q)
  {
    TextFrames(m, p, m1, m3, q);
  }

  lemma LinkedKids(m: Cells, t: Tree, m1: Cells, t1: Tree, k: nat, m2: Cells, c: Tree, m3: Cells)
    requires Copying(m, t, m1, t1, k) && Subtree(m, t) && Apart(t) && k < |t.kids|
    requires Copies(m1, t.kids[k], m2, c) && Document(m1, m2, c) && Parent(m2, t1) && Agree(m1, m2, Own(t1))
    requires Relinked(m2, m3, t1.kids + [c])
    ensures CopiesAll(m, t.kids[..k + 1], m3, t1.kids + [c])
  {
    hide Subtree, Own, Apart, Chain, ApartAll, OwnAll, Copies, Relinked, SameNode, Detached, Parent;
    var ks := t.kids[..k];
    KidSource(m, t, m1, t1, k);
    CopiesSource(m, m1, t.kids[k], m2, c);
    OwnAllDisjoint(m2, t1);
    CopiesAllFrame(m, ks, m1, m2, t1.kids);
    KidsSubtrees(m2, t1);
    RelinkedTo(m2, m3, t1.kids, c);
    RelinkedAll(m2, m3, t1.kids);
    CopiesRelink(m, ks, m2, m3, t1.kids);
    DetachedApart(m2, c);
    CopyRelink(m, t.kids[k], m2, m3, c);
    CopiesSnoc(m, ks, t.kids[k], m3, t1.kids, c);
    assert ks + [t.kids[k]] == t.kids[..k + 1];
  }

  lemma RelinkedAll(m: Cells, m': Cells, ks: seq<Tree>)
    requires forall k :: 0 <= k < |ks| ==> RelinkedOne(m, m', ks[k])
    ensures Relinked(m, m', ks)
  {
  }

  /** cJSON_Duplicate: NULL and an unchanged heap, or a detached copy made of
      fresh addresses only, with the children when `recurse` is set. */
  method Duplicate(heap: Heap, item: Ptr, recurse: bool, ghost t: Tree) returns (newitem: Ptr, ghost t': Tree)
    requires item != NULL ==> Subtree(heap.cells, t) && Apart(t) && item == t.p
    modifies heap`cells, heap`refused
    ensures newitem == NULL ==> heap.cells == old(heap.cells) && (item == NULL || heap.refused)
    ensures newitem != NULL ==>
              && item != NULL && newitem == t'.p && Document(old(heap.cells), heap.cells, t')
              && (if recurse then Copies(old(heap.cells), t, heap.cells, t')
                  else SameNode(old(heap.cells), t, heap.cells, t') && t'.kids == [])
  {
    hide Document, Subtree, SameNode, Apart, Copies;
    heap.refused := false;
    newitem, t' := DuplicateTree(heap, item, recurse, t);
  }
}
