/** How a tree under construction grows in the heap without touching anything else. */
module Growing {
  import opened Memory
  import opened Trees
  import opened Siblings
  import opened ListOps

  /** A fresh node: no children, no value string; it may carry a name. */
  ghost predicate Leaf(m: Cells, t: Tree) {
    Subtree(m, t) && Apart(t) && t.kids == [] && t.text == NULL
  }

  /** Between `m` and `m'` the tree `t` became `t'`: everything allocated
      meanwhile belongs to it, and no cell but its root changed. */
  ghost predicate Grown(m: Cells, m': Cells, t: Tree, t': Tree) {
    && Subtree(m', t') && Apart(t') && t'.p == t.p && IsRecord(m, t.p)
    && m'[t.p].node.next == m[t.p].node.next && m'[t.p].node.prev == m[t.p].node.prev
    && m'.Keys == m.Keys + Own(t') && Own(t') * m.Keys == Own(t)
    && (forall x :: x in m && x != t.p ==> x in m' && m'[x] == m[x])
  }

  lemma GrownRefl(m: Cells, t: Tree)
    requires Subtree(m, t) && Apart(t)
    ensures Grown(m, m, t, t)
  {
    SubtreeOwned(m, t);
  }

  lemma GrownTrans(m0: Cells, m1: Cells, m2: Cells, t0: Tree, t1: Tree, t2: Tree)
    requires Grown(m0, m1, t0, t1) && Grown(m1, m2, t1, t2)
    ensures Grown(m0, m2, t0, t2)
  {
    hide Subtree, Apart, Own;
    assert Own(t1) <= Own(t2);
    assert Own(t2) * m0.Keys == Own(t0) by {
      forall x ensures x in Own(t2) && x in m0 <==> x in Own(t0) {
        assert x in Own(t1) && x in m0 <==> x in Own(t0);
        if x in Own(t2) && x in m0 {
          assert x in m1;
        }
      }
    }
  }

  // ----- growing one more string

  lemma GrowText(m: Cells, m': Cells, t: Tree, out: Ptr, bytes: seq<char>, s: string)
    requires Leaf(m, t) && out != NULL && out !in m
    requires m' == m[out := Block(bytes)][t.p := Record(m[t.p].node.(valuestring := out, kind := Kind.String))]
    requires |s| < |bytes| && bytes[..|s|] == s && bytes[|s|] == '\0' && '\0' !in s
    ensures Grown(m, m', t, Tree(t.p, out, t.name, [])) && TextAt(m', out, s)
  {
    hide IsText;
    var t' := Tree(t.p, out, t.name, []);
    assert TextAt(m', out, s);
    IsTextFrom(m', out, s);
    if t.name != NULL {
      TextIn(m, t.name);
      TextFrame(m, m', t.name);
    }
    assert OwnAll([]) == {};
    SubtreeOwned(m, t);
    assert Own(t') == Own(t) + {out};
    assert Subtree(m', t');
    assert Apart(t');
  }

  lemma IsTextFrom(m: Cells, p: Ptr, s: string)
    requires TextAt(m, p, s)
    ensures IsText(m, p)
  {
  }

  lemma TextIn(m: Cells, p: Ptr)
    requires IsText(m, p)
    ensures p in m
  {
  }

  // ----- growing children

  function WithChild(t: Tree, ks: seq<Tree>, c: Tree): Tree {
    Tree(t.p, t.text, t.name, ks + [c])
  }

  function NewLeaf(p: Ptr): Tree {
    Tree(p, NULL, NULL, [])
  }

  lemma NewLeafIsLeaf(m: Cells, p: Ptr)
    requires p != NULL && IsRecord(m, p)
    requires m[p].node.child == NULL && m[p].node.valuestring == NULL && m[p].node.name == NULL
    requires !m[p].node.isRef && !m[p].node.constName
    ensures Leaf(m, NewLeaf(p)) && Own(NewLeaf(p)) == {p}
  {
  }

  /** The parts of a parent's address set. */
  lemma OwnSplit(t: Tree, ks: seq<Tree>, c: Tree)
    requires t.kids == ks + [c]
    ensures Own(t) == {t.p} + OptPtr(t.text) + OptPtr(t.name) + OwnAll(ks) + Own(c)
    ensures Apart(t) <==>
              && t.p != NULL && t.p != t.text && t.p != t.name && (t.text == t.name ==> t.text == NULL)
              && {t.p} + OptPtr(t.text) + OptPtr(t.name) !! OwnAll(ks) + Own(c)
              && ApartAll(ks) && Apart(c) && OwnAll(ks) !! Own(c)
  {
    hide OwnAll, ApartAll;
    OwnOne(c);
    OwnAllConcat(ks, [c]);
    ApartAllConcat(ks, [c]);
  }

  /** The well-formedness of a parent with a last child. */
  lemma SubtreeSplit(m: Cells, t: Tree, ks: seq<Tree>, c: Tree)
    requires t.kids == ks + [c]
    ensures Subtree(m, t) <==>
              && IsRecord(m, t.p)
              && m[t.p].node.child == Head(ks, c.p)
              && m[t.p].node.valuestring == t.text && m[t.p].node.name == t.name
              && !m[t.p].node.isRef && !m[t.p].node.constName
              && (t.text != NULL ==> IsText(m, t.text)) && (t.name != NULL ==> IsText(m, t.name))
              && Chain(m, ks, NULL, c.p) && Subtree(m, c)
              && m[c.p].node.prev == Last(ks, NULL) && m[c.p].node.next == NULL
  {
    hide IsText, Chain;
    ChainConcat(m, ks, [c], NULL, NULL);
    ChainOne(m, c, Last(ks, NULL), NULL);
    assert Head(ks + [c], NULL) == Head(ks, c.p);
  }

  /** Growing the last child grows the parent. */
  lemma GrownChild(m0: Cells, m1: Cells, m2: Cells, t0: Tree, t1: Tree, ks: seq<Tree>, c: Tree, c': Tree)
    requires Grown(m0, m1, t0, t1) && t1.kids == ks + [c] && c.p !in m0 && Grown(m1, m2, c, c')
    ensures Grown(m0, m2, t0, WithChild(t1, ks, c'))
    ensures Agree(m1, m2, OwnAll(ks)) && Agree(m1, m2, OptPtr(t1.text) + OptPtr(t1.name) + {t1.p})
  {
    hide Subtree, Apart, Own, OwnAll, Chain, ApartAll, IsText, TextAt;
    var t2 := WithChild(t1, ks, c');
    SubtreeOwned(m1, t1);
    OwnSplit(t1, ks, c);
    OwnSplit(t2, ks, c');
    OwnHasRoot(c);
    OwnHasRoot(c');
    SubtreeSplit(m1, t1, ks, c);
    SubtreeSplit(m2, t2, ks, c');
    ChainFrame(m1, m2, ks, NULL, c.p);
    if t1.text != NULL { TextFrame(m1, m2, t1.text); }
    if t1.name != NULL { TextFrame(m1, m2, t1.name); }
    GrownChildApart(m1, t1, t2, ks, c, c');
    GrownChildKeys(m0, m1, m2, t0, t1, t2, ks, c, c');
  }

  lemma GrownChildApart(m1: Cells, t1: Tree, t2: Tree, ks: seq<Tree>, c: Tree, c': Tree)
    requires Apart(t1) && t1.kids == ks + [c] && t2 == WithChild(t1, ks, c')
    requires Own(t1) <= m1.Keys && Apart(c') && Own(c') * m1.Keys == Own(c)
    ensures Apart(t2)
  {
    hide Apart, Own, OwnAll, ApartAll;
    OwnSplit(t1, ks, c);
    OwnSplit(t2, ks, c');
    var rest := {t1.p} + OptPtr(t1.text) + OptPtr(t1.name);
    assert rest <= m1.Keys && OwnAll(ks) <= m1.Keys;
  }

  lemma GrownChildKeys(m0: Cells, m1: Cells, m2: Cells, t0: Tree, t1: Tree, t2: Tree, ks: seq<Tree>, c: Tree, c': Tree)
    requires m1.Keys == m0.Keys + Own(t1) && Own(t1) * m0.Keys == Own(t0)
    requires m2.Keys == m1.Keys + Own(c') && Own(c') * m1.Keys == Own(c)
    requires t1.kids == ks + [c] && t2 == WithChild(t1, ks, c')
    ensures m2.Keys == m0.Keys + Own(t2) && Own(t2) * m0.Keys == Own(t0)
  {
    hide Apart, Own, OwnAll, ApartAll;
    OwnSplit(t1, ks, c);
    OwnSplit(t2, ks, c');
    assert Own(t2) == Own(t1) + Own(c');
    forall x ensures x in Own(t2) && x in m0 <==> x in Own(t0) {
      assert x in Own(t1) && x in m0 <==> x in Own(t0);
      if x in Own(c') && x in m0 {
        assert x in m1 && x in Own(c);
      }
    }
  }

  /** A fresh node linked in behind the last child grows the parent by a leaf. */
  lemma GrownLink(m0: Cells, m1: Cells, m2: Cells, t0: Tree, t: Tree, added: Ptr)
    requires Grown(m0, m1, t0, t) && added != NULL && added !in m1
    requires t.kids != [] ==> t.kids[|t.kids| - 1].p !in m0 && IsRecord(m1, Last(t.kids, NULL))
    requires var m := m1[added := Record(ZERO_NODE)];
             IsRecord(m, t.p) && (t.kids != [] ==> IsRecord(m, Last(t.kids, NULL))) && m2 == AppendLinks(m, t, added)
    ensures var t' := WithChild(t, t.kids, NewLeaf(added));
            && Grown(m0, m2, t0, t') && Leaf(m2, NewLeaf(added)) && added !in m0
    ensures m2[t.p].node.kind == m1[t.p].node.kind
    ensures Relinked(m1, m2, t.kids) && Subtrees(m1, t.kids)
  {
    hide Subtree, Apart, Own, Chain, ApartAll, OwnAll;
    var m, x := m1[added := Record(ZERO_NODE)], NewLeaf(added);
    SubtreeOwned(m1, t);
    OwnHasRoot(t);
    SubtreeFrame(m1, m, t);
    FreshDetached(m, added);
    Appended(m, t, x, m2);
    KidsSubtrees(m1, t);
    RelinkedEarlier(m1, m, m2, t, added);
    OwnSplit(WithChild(t, t.kids, x), t.kids, x);
    assert [x] == t.kids[|t.kids|..] + [x];
    RelinkedTo(m, m2, t.kids, x);
    FreshLeaf(m, m2, added);
    ParentFacts(m1, t);
    if t.kids != [] { ChildFacts(m1, t, |t.kids| - 1); }
    OwnAllDisjoint(m1, t);
    assert Own(WithChild(t, t.kids, x)) == Own(t) + {added};
  }

  lemma FreshDetached(m: Cells, added: Ptr)
    requires added != NULL && added in m && m[added] == Record(ZERO_NODE)
    ensures Detached(m, NewLeaf(added)) && Own(NewLeaf(added)) == {added}
  {
  }

  lemma RelinkedTo(m: Cells, m2: Cells, ks: seq<Tree>, x: Tree)
    requires Relinked(m, m2, ks + [x])
    ensures RelinkedOne(m, m2, x) && forall k :: 0 <= k < |ks| ==> RelinkedOne(m, m2, ks[k])
  {
    hide RelinkedOne;
    assert (ks + [x])[|ks|] == x;
    forall k | 0 <= k < |ks| ensures RelinkedOne(m, m2, ks[k]) {
      assert (ks + [x])[k] == ks[k];
    }
  }

  lemma FreshLeaf(m: Cells, m2: Cells, added: Ptr)
    requires added != NULL && added in m && m[added] == Record(ZERO_NODE) && RelinkedOne(m, m2, NewLeaf(added))
    ensures Leaf(m2, NewLeaf(added))
  {
    NewLeafIsLeaf(m2, added);
  }

  /** Adding an unrelated cell first does not matter to the old children. */
  lemma RelinkedEarlier(m1: Cells, m: Cells, m2: Cells, t: Tree, added: Ptr)
    requires Parent(m1, t) && added !in m1 && m == m1[added := Record(ZERO_NODE)]
    requires Relinked(m, m2, t.kids + [NewLeaf(added)])
    ensures Relinked(m1, m2, t.kids)
  {
    hide Subtree, Apart, Own, Chain, ApartAll, OwnAll, Parent;
    RelinkedTo(m, m2, t.kids, NewLeaf(added));
    ParentFacts(m1, t);
    OwnAllDisjoint(m1, t);
    forall k | 0 <= k < |t.kids| ensures RelinkedOne(m1, m2, t.kids[k]) {
      PartsApart(m1, t, k);
      ChildFacts(m1, t, k);
    }
  }
}
