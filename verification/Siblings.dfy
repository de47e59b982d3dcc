/** Splitting, joining and relinking sibling chains. */
module Siblings {
  import opened JsonValue
  import opened Memory
  import opened Trees

  lemma {:induction false} OwnAllConcat(a: seq<Tree>, b: seq<Tree>)
    ensures OwnAll(a + b) == OwnAll(a) + OwnAll(b)
  {
    hide Own;
    if a == [] {
      assert a + b == b;
    } else {
      OwnAllConcat(a[1..], b);
      assert (a + b)[1..] == a[1..] + b;
    }
  }

  lemma {:induction false} ApartAllConcat(a: seq<Tree>, b: seq<Tree>)
    ensures ApartAll(a + b) <==> ApartAll(a) && ApartAll(b) && OwnAll(a) !! OwnAll(b)
  {
    hide Own, Apart;
    if a == [] {
      assert a + b == b;
    } else {
      OwnAllConcat(a[1..], b);
      ApartAllConcat(a[1..], b);
      assert (a + b)[1..] == a[1..] + b;
    }
  }

  lemma OwnOne(t: Tree)
    ensures OwnAll([t]) == Own(t) && (ApartAll([t]) <==> Apart(t))
  {
    hide Own, Apart;
    assert [t][1..] == [];
    assert OwnAll([]) == {};
  }

  lemma ChainOne(m: Cells, t: Tree, prev: Ptr, next: Ptr)
    ensures Chain(m, [t], prev, next) <==>
            Subtree(m, t) && m[t.p].node.prev == prev && m[t.p].node.next == next
  {
    hide Subtree;
    assert [t][1..] == [];
  }

  lemma {:induction false} ChainConcat(m: Cells, a: seq<Tree>, b: seq<Tree>, prev: Ptr, next: Ptr)
    ensures Chain(m, a + b, prev, next) <==> Chain(m, a, prev, Head(b, next)) && Chain(m, b, Last(a, prev), next)
    decreases |a|
  {
    hide Subtree;
    if a == [] {
      assert a + b == b;
    } else {
      ChainConcat(m, a[1..], b, a[0].p, next);
      assert (a + b)[1..] == a[1..] + b;
      assert Last(a[1..], a[0].p) == Last(a, prev);
      assert Head(a[1..] + b, next) == Head(a[1..], Head(b, next));
    }
  }

  /** A node whose sibling links change keeps its subtree. */
  lemma SubtreeRelink(m: Cells, m': Cells, t: Tree, prev: Ptr, next: Ptr)
    requires Subtree(m, t) && Apart(t) && Agree(m, m', Own(t) - {t.p})
    requires t.p in m' && m'[t.p] == Record(m[t.p].node.(next := next, prev := prev))
    ensures Subtree(m', t)
  {
    hide TextAt, IsText;
    if t.text != NULL { TextFrame(m, m', t.text); }
    if t.name != NULL { TextFrame(m, m', t.name); }
    ChainFrame(m, m', t.kids, NULL, NULL);
  }

  /** A relinked node still stands for the same value. */
  lemma DenotesRelink(m: Cells, m': Cells, t: Tree, v: Json, prev: Ptr, next: Ptr)
    requires Denotes(m, t, v) && Subtree(m, t) && Apart(t) && Agree(m, m', Own(t) - {t.p})
    requires t.p in m' && m'[t.p] == Record(m[t.p].node.(next := next, prev := prev))
    ensures Denotes(m', t, v)
  {
    hide TextAt, IsText;
    match v
    case Str(s) => TextFrame(m, m', t.text);
    case Arr(items) => DenotesItemsFrame(m, m', t.kids, items, NULL, NULL);
    case Obj(members) => DenotesMembersFrame(m, m', t.kids, members, NULL, NULL);
    case _ =>
  }

  /** The last sibling gets a new successor. */
  lemma ChainSetNext(m: Cells, m': Cells, ks: seq<Tree>, prev: Ptr, next: Ptr, next': Ptr)
    requires ks != [] && Chain(m, ks, prev, next) && ApartAll(ks)
    requires var last := ks[|ks| - 1].p;
             && last in m && m[last].Record? && last in m'
             && m'[last] == Record(m[last].node.(next := next'))
             && Agree(m, m', OwnAll(ks) - {last})
    ensures Chain(m', ks, prev, next')
  {
    hide Subtree, Own, Apart, Chain, ApartAll, OwnAll;
    var a, t := ks[..|ks| - 1], ks[|ks| - 1];
    assert ks == a + [t];
    ChainConcat(m, a, [t], prev, next);
    ApartAllConcat(a, [t]);
    OwnAllConcat(a, [t]);
    OwnOne(t);
    ChainOne(m, t, Last(a, prev), next);
    OwnHasRoot(t);
    ChainFrame(m, m', a, prev, t.p);
    SubtreeRelink(m, m', t, Last(a, prev), next');
    ChainOne(m', t, Last(a, prev), next');
    ChainConcat(m', a, [t], prev, next');
  }

  lemma OwnHasRoot(t: Tree)
    ensures t.p in Own(t)
  {
  }

  lemma RootFacts(m: Cells, t: Tree)
    requires Subtree(m, t) && Apart(t)
    ensures IsRecord(m, t.p) && t.p != NULL && t.p in Own(t)
  {
  }

  lemma RemoveTwice(m: Cells, a: set<Ptr>, b: set<Ptr>)
    ensures m - a - b == m - (a + b)
  {
  }

  /** The first sibling gets a new predecessor. */
  lemma ChainSetPrev(m: Cells, m': Cells, ks: seq<Tree>, prev: Ptr, next: Ptr, prev': Ptr)
    requires ks != [] && Chain(m, ks, prev, next) && ApartAll(ks)
    requires var first := ks[0].p;
             && first in m && m[first].Record? && first in m'
             && m'[first] == Record(m[first].node.(prev := prev'))
             && Agree(m, m', OwnAll(ks) - {first})
    ensures Chain(m', ks, prev', next)
  {
    hide Subtree, Own, Apart;
    var t, b := ks[0], ks[1..];
    OwnHasRoot(t);
    ChainFrame(m, m', b, t.p, next);
    SubtreeRelink(m, m', t, prev', Head(b, next));
  }

  /** Taking one sibling out of the sequence. */
  lemma PickOne(ks: seq<Tree>, k: nat)
    requires k < |ks|
    ensures ks == ks[..k] + [ks[k]] + ks[k + 1..]
    ensures OwnAll(ks) == OwnAll(ks[..k]) + Own(ks[k]) + OwnAll(ks[k + 1..])
    ensures ApartAll(ks) <==>
            && ApartAll(ks[..k]) && Apart(ks[k]) && ApartAll(ks[k + 1..])
            && OwnAll(ks[..k]) !! Own(ks[k]) && OwnAll(ks[..k]) !! OwnAll(ks[k + 1..])
                  && Own(ks[k]) !! OwnAll(ks[k + 1..])
  {
    hide Own, Apart, ApartAll, OwnAll;
    assert ks == ks[..k] + [ks[k]] + ks[k + 1..];
    OwnOne(ks[k]);
    OwnAllConcat(ks[..k], [ks[k]]);
    OwnAllConcat(ks[..k] + [ks[k]], ks[k + 1..]);
    ApartAllConcat(ks[..k], [ks[k]]);
    ApartAllConcat(ks[..k] + [ks[k]], ks[k + 1..]);
  }

  /** The subtree and links of one sibling. */
  lemma PickChain(m: Cells, ks: seq<Tree>, k: nat, prev: Ptr, next: Ptr)
    requires k < |ks| && Chain(m, ks, prev, next)
    ensures Subtree(m, ks[k]) && IsRecord(m, ks[k].p)
    ensures m[ks[k].p].node.prev == Last(ks[..k], prev) && m[ks[k].p].node.next == Head(ks[k + 1..], next)
    ensures Chain(m, ks[..k], prev, ks[k].p) && Chain(m, ks[k + 1..], ks[k].p, next)
  {
    hide Chain;
    assert ks == ks[..k] + ([ks[k]] + ks[k + 1..]);
    ChainConcat(m, ks[..k], [ks[k]] + ks[k + 1..], prev, next);
    ChainConcat(m, [ks[k]], ks[k + 1..], Last(ks[..k], prev), next);
    ChainOne(m, ks[k], Last(ks[..k], prev), Head(ks[k + 1..], next));
    hide TextAt, IsText;
  }
}
