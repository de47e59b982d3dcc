/** Well-formed cJSON trees in the heap: what they own, how they are linked,
    which value they stand for. */
module Trees {
  import opened JsonValue
  import opened Memory

  /** The addresses of a node, its two strings and its children. */
  datatype Tree = Tree(p: Ptr, text: Ptr, name: Ptr, kids: seq<Tree>)

  function OptPtr(p: Ptr): set<Ptr> {
    if p == NULL then {} else {p}
  }

  /** Every address a tree owns. */
  function Own(t: Tree): set<Ptr>
    decreases t, 0
  {
    {t.p} + OptPtr(t.text) + OptPtr(t.name) + OwnAll(t.kids)
  }

  function OwnAll(ks: seq<Tree>): set<Ptr>
    decreases ks, 1
  {
    if ks == [] then {} else Own(ks[0]) + OwnAll(ks[1..])
  }

  /** No address is owned twice. */
  ghost predicate Apart(t: Tree)
    decreases t, 0
  {
    && t.p != NULL && t.p != t.text && t.p != t.name && (t.text == t.name ==> t.text == NULL)
    && {t.p} + OptPtr(t.text) + OptPtr(t.name) !! OwnAll(t.kids)
    && ApartAll(t.kids)
  }

  ghost predicate ApartAll(ks: seq<Tree>)
    decreases ks, 1
  {
    ks == [] || (Apart(ks[0]) && Own(ks[0]) !! OwnAll(ks[1..]) && ApartAll(ks[1..]))
  }

  function Head(ks: seq<Tree>, after: Ptr): Ptr {
    if ks == [] then after else ks[0].p
  }

  function Last(ks: seq<Tree>, before: Ptr): Ptr {
    if ks == [] then before else ks[|ks| - 1].p
  }

  /** A NUL-terminated string in a block. */
  ghost predicate TextAt(m: Cells, p: Ptr, s: string) {
    && IsBlock(m, p) && |s| < |m[p].bytes|
    && m[p].bytes[..|s|] == s && m[p].bytes[|s|] == '\0' && '\0' !in s
  }

  ghost predicate IsText(m: Cells, p: Ptr) {
    exists s :: TextAt(m, p, s)
  }

  /** The node at `t.p` carries the strings and the child chain of `t`. Its own
      sibling links are not constrained. */
  ghost predicate Subtree(m: Cells, t: Tree)
    decreases t, 0
  {
    && IsRecord(m, t.p)
    && m[t.p].node.child == Head(t.kids, NULL)
    && m[t.p].node.valuestring == t.text && m[t.p].node.name == t.name
    && !m[t.p].node.isRef && !m[t.p].node.constName
    && (t.text != NULL ==> IsText(m, t.text)) && (t.name != NULL ==> IsText(m, t.name))
    && Chain(m, t.kids, NULL, NULL)
  }

  /** Siblings linked in both directions, between `prev` and `next`. */
  ghost predicate Chain(m: Cells, ks: seq<Tree>, prev: Ptr, next: Ptr)
    decreases ks, 1
  {
    ks == [] ||
    (&& Subtree(m, ks[0])
     && m[ks[0].p].node.prev == prev && m[ks[0].p].node.next == Head(ks[1..], next)
     && Chain(m, ks[1..], ks[0].p, next))
  }

  function KindOf(v: Json): Kind {
    match v
    case Null => Kind.Null
    case False => Kind.False
    case True => Kind.True
    case Num(_) => Kind.Number
    case Str(_) => Kind.String
    case Arr(_) => Kind.Array
    case Obj(_) => Kind.Object
  }

  /** `(int)d` without the overflow case: the fraction is cut off. */
  function Truncate(d: real): (n: int)
    ensures d >= 0.0 ==> n as real <= d < n as real + 1.0
    ensures d < 0.0 ==> n as real - 1.0 < d <= n as real
  {
    if d >= 0.0 then d.Floor else -(-d).Floor
  }

  /** The tree stands for the value. */
  ghost predicate Denotes(m: Cells, t: Tree, v: Json)
    decreases v, 0
  {
    && IsRecord(m, t.p)
    && m[t.p].node.kind == KindOf(v)
    && (match v
        case Num(d) => m[t.p].node.valuedouble == d && m[t.p].node.valueint == Truncate(d)
        case Str(s) => t.text != NULL && TextAt(m, t.text, s)
        case Arr(items) => DenotesItems(m, t.kids, items)
        case Obj(members) => DenotesMembers(m, t.kids, members)
        case _ => true)
  }

  ghost predicate DenotesItems(m: Cells, ks: seq<Tree>, items: seq<Json>)
    decreases items, 1
  {
    if items == [] || ks == [] then items == [] && ks == []
    else Denotes(m, ks[0], items[0]) && DenotesItems(m, ks[1..], items[1..])
  }

  ghost predicate DenotesMember(m: Cells, t: Tree, mb: Member)
    decreases mb.val, 1
  {
    t.name != NULL && TextAt(m, t.name, mb.key) && Denotes(m, t, mb.val)
  }

  ghost predicate DenotesMembers(m: Cells, ks: seq<Tree>, members: seq<Member>)
    decreases members, 1
  {
    if members == [] || ks == [] then members == [] && ks == []
    else DenotesMember(m, ks[0], members[0]) && DenotesMembers(m, ks[1..], members[1..])
  }

  // ----- frames

  /** `m` and `m'` agree on `s`. */
  ghost predicate Agree(m: Cells, m': Cells, s: set<Ptr>) {
    forall x :: x in s ==> x in m && x in m' && m[x] == m'[x]
  }

  lemma TextFrame(m: Cells, m': Cells, p: Ptr)
    requires Agree(m, m', {p})
    ensures IsText(m, p) ==> IsText(m', p)
    ensures forall s :: TextAt(m, p, s) ==> TextAt(m', p, s)
  {
    if IsText(m, p) {
      var s :| TextAt(m, p, s);
      assert TextAt(m', p, s);
    }
  }

  lemma {:induction false} SubtreeFrame(m: Cells, m': Cells, t: Tree)
    requires Subtree(m, t) && Agree(m, m', Own(t))
    ensures Subtree(m', t)
    decreases t, 0
  {
    hide TextAt, IsText;
    assert t.p in Own(t);
    if t.text != NULL { TextFrame(m, m', t.text); }
    if t.name != NULL { TextFrame(m, m', t.name); }
    ChainFrame(m, m', t.kids, NULL, NULL);
  }

  lemma {:induction false} ChainFrame(m: Cells, m': Cells, ks: seq<Tree>, prev: Ptr, next: Ptr)
    requires Chain(m, ks, prev, next) && Agree(m, m', OwnAll(ks))
    ensures Chain(m', ks, prev, next)
    decreases ks, 1
  {
    hide Subtree;
    if ks != [] {
      SubtreeFrame(m, m', ks[0]);
      assert ks[0].p in Own(ks[0]);
      ChainFrame(m, m', ks[1..], ks[0].p, next);
    }
  }

  /** A well-formed tree is allocated. */
  lemma {:induction false} SubtreeOwned(m: Cells, t: Tree)
    requires Subtree(m, t)
    ensures Own(t) <= m.Keys
    decreases t, 0
  {
    ChainOwned(m, t.kids, NULL, NULL);
  }

  lemma {:induction false} ChainOwned(m: Cells, ks: seq<Tree>, prev: Ptr, next: Ptr)
    requires Chain(m, ks, prev, next)
    ensures OwnAll(ks) <= m.Keys
    decreases ks, 1
  {
    if ks != [] {
      SubtreeOwned(m, ks[0]);
      ChainOwned(m, ks[1..], ks[0].p, next);
    }
  }

  lemma {:induction false} DenotesFrame(m: Cells, m': Cells, t: Tree, v: Json)
    requires Denotes(m, t, v) && Subtree(m, t) && Agree(m, m', Own(t))
    ensures Denotes(m', t, v)
    decreases v, 0
  {
    hide TextAt, IsText;
    assert t.p in Own(t);
    match v
    case Str(s) => TextFrame(m, m', t.text);
    case Arr(items) => DenotesItemsFrame(m, m', t.kids, items, NULL, NULL);
    case Obj(members) => DenotesMembersFrame(m, m', t.kids, members, NULL, NULL);
    case _ =>
  }

  lemma {:induction false} DenotesItemsFrame(m: Cells, m': Cells, ks: seq<Tree>, items: seq<Json>, prev: Ptr, next: Ptr)
    requires DenotesItems(m, ks, items) && Chain(m, ks, prev, next) && Agree(m, m', OwnAll(ks))
    ensures DenotesItems(m', ks, items)
    decreases items, 1
  {
    if ks != [] {
      DenotesFrame(m, m', ks[0], items[0]);
      DenotesItemsFrame(m, m', ks[1..], items[1..], ks[0].p, next);
    }
  }

  lemma {:induction false} DenotesMemberFrame(m: Cells, m': Cells, t: Tree, mb: Member)
    requires DenotesMember(m, t, mb) && Subtree(m, t) && Agree(m, m', Own(t))
    ensures DenotesMember(m', t, mb)
    decreases mb.val, 1
  {
    hide TextAt;
    assert t.name in Own(t);
    TextFrame(m, m', t.name);
    DenotesFrame(m, m', t, mb.val);
  }

  lemma {:induction false} DenotesMembersFrame(m: Cells, m': Cells, ks: seq<Tree>, members: seq<Member>, prev: Ptr,
                                               next: Ptr)
    requires DenotesMembers(m, ks, members) && Chain(m, ks, prev, next) && Agree(m, m', OwnAll(ks))
    ensures DenotesMembers(m', ks, members)
    decreases members, 1
  {
    if ks != [] {
      DenotesMemberFrame(m, m', ks[0], members[0]);
      DenotesMembersFrame(m, m', ks[1..], members[1..], ks[0].p, next);
    }
  }
}
