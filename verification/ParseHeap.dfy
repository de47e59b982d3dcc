/** The parser on the heap. Whatever the allocator refuses and however the text
    is malformed, everything allocated belongs to the tree under construction. */
module ParseHeap {
  import opened CText
  import opened JsonValue
  import opened Numeral
  import opened Memory
  import opened Trees
  import opened Siblings
  import opened ListOps
  import opened Growing
  import ParseStringHeap
  import P = ParseText

  // ----- results

  /** How a parse call answers: with the end the text gives, or with a failure
      that the text or a refused allocation explains. */
  ghost predicate Answers<T>(heap: Heap, r: P.Parsed<T>, ok: bool, end: nat)
    reads heap
  {
    if ok then r.Ok? && r.end == end else heap.refused || (r.Fail? && heap.ep == r.at)
  }

  /** The rest of an item list, from the character behind an item. */
  function AfterItem(s: string, j: nat): P.Parsed<seq<Json>>
    requires j <= |s|
  {
    if At(s, j) == ',' then P.ParseItems(s, j + 1)
    else if At(s, j) == ']' then P.Ok([], j + 1)
    else P.Fail(j)
  }

  function AfterMember(s: string, j: nat): P.Parsed<seq<Member>>
    requires j <= |s|
  {
    if At(s, j) == ',' then P.ParseMembers(s, j + 1)
    else if At(s, j) == '}' then P.Ok([], j + 1)
    else P.Fail(j)
  }

  function Front<T>(a: seq<T>, r: P.Parsed<seq<T>>): P.Parsed<seq<T>> {
    if r.Ok? then P.Ok(a + r.value, r.end) else r
  }

  lemma FrontTwice<T>(a: seq<T>, v: T, r: P.Parsed<seq<T>>)
    ensures Front(a, Front([v], r)) == Front(a + [v], r)
  {
    if r.Ok? {
      assert a + ([v] + r.value) == (a + [v]) + r.value;
    }
  }

  lemma ItemThenRest(s: string, k: nat)
    requires k <= |s|
    ensures var r := P.ParseValue(s, Skip(s, k));
            P.ParseItems(s, k) == if r.Ok? then Front([r.value], AfterItem(s, Skip(s, r.end)))
                                  else if r.Fail? then P.Fail(r.at) else P.Undefined
  {
    hide P.ParseValue, Skip;
    var r := P.ParseValue(s, Skip(s, k));
    if r.Ok? {
      assert [r.value] + [] == [r.value];
    }
  }

  lemma MemberThenRest(s: string, k: nat)
    requires k <= |s|
    ensures var r := P.ParseMember(s, k);
            P.ParseMembers(s, k) == if r.Ok? then Front([r.value], AfterMember(s, Skip(s, r.end)))
                                    else if r.Fail? then P.Fail(r.at) else P.Undefined
  {
    hide P.ParseMember, Skip;
    var r := P.ParseMember(s, k);
    if r.Ok? {
      assert [r.value] + [] == [r.value];
    }
  }

  // ----- skip and numbers

  method SkipBlanks(text: string, i: nat) returns (j: nat)
    requires i <= |text|
    ensures j == Skip(text, i)
  {
    j := i;
    while At(text, j) != '\0' && At(text, j) <= ' '
      invariant i <= j <= |text| && Skip(text, i) == Skip(text, j)
      decreases |text| - j
    {
      j := j + 1;
    }
  }

  method ReadDigits(text: string, i: nat, acc: nat) returns (n: nat, j: nat)
    requires i <= |text|
    ensures Digits(text, i, acc) == Run(n, j)
  {
    n, j := acc, i;
    while '0' <= At(text, j) <= '9'
      invariant i <= j <= |text| && Digits(text, i, acc) == Digits(text, j, n)
      decreases |text| - j
    {
      n, j := n * 10 + (At(text, j) as int - '0' as int), j + 1;
    }
  }

  method ReadExponent(text: string, i: nat) returns (e: int, end: nat)
    requires i <= |text|
    ensures ParseExponent(text, i) == (e, end)
  {
    hide Digits;
    var num: nat, subscale: nat, signsubscale: int := i, 0, 1;
    if At(text, num) == 'e' || At(text, num) == 'E' {
      num := num + 1;
      if At(text, num) == '+' { num := num + 1; } else if At(text, num) == '-' { signsubscale, num := -1, num + 1; }
      subscale, num := ReadDigits(text, num, 0);
    }
    e, end := subscale * signsubscale, num;
  }

  /** parse_number, without rounding. */
  method ReadNumber(text: string, i: nat) returns (d: real, end: nat)
    requires i <= |text|
    ensures ParseNumber(text, i) == Numeral.Number(d, end)
  {
    hide Digits, Pow10, ParseExponent;
    var num: nat, n: nat, scale: int := i, 0, 0;
    if At(text, num) == '-' { num := num + 1; }
    n, num := ReadWhole(text, num);
    n, num, scale := ReadFraction(text, num, n);
    var exponent;
    exponent, num := ReadExponent(text, num);
    var mantissa := if At(text, i) == '-' then -(n as real) else n as real;
    d := mantissa * Pow10(exponent - scale);
    end := num;
  }

  method ReadWhole(text: string, i: nat) returns (n: nat, end: nat)
    requires i <= |text|
    ensures i <= end <= |text|
    ensures var i2 := if At(text, i) == '0' then i + 1 else i;
            Run(n, end) == if '1' <= At(text, i2) <= '9' then Digits(text, i2, 0) else Run(0, i2)
  {
    hide Digits;
    n, end := 0, i;
    if At(text, end) == '0' { end := end + 1; }
    if '1' <= At(text, end) <= '9' {
      n, end := ReadDigits(text, end, 0);
    }
  }

  method ReadFraction(text: string, i: nat, n0: nat) returns (n: nat, end: nat, scale: int)
    requires i <= |text|
    ensures i <= end <= |text|
    ensures var dot := At(text, i) == '.' && IsDigit(At(text, i + 1));
            && Run(n, end) == (if dot then Digits(text, i + 1, n0) else Run(n0, i))
            && scale == (if dot then end - (i + 1) else 0)
  {
    n, end, scale := n0, i, 0;
    if At(text, i) == '.' && '0' <= At(text, i + 1) <= '9' {
      n, end := ReadDigits(text, i + 1, n);
      scale := end - (i + 1);
    }
  }

  // ----- parse_string

  method ParseString(heap: Heap, text: string, item: Ptr, str: nat, ghost t: Tree)
    returns (ok: bool, end: nat, ghost t': Tree)
    requires str <= |text| && '\0' !in text && P.ParseString(text, str) != P.Undefined
    requires Leaf(heap.cells, t) && item == t.p
    modifies heap
    ensures Grown(old(heap.cells), heap.cells, t, t') && t'.kids == [] && t'.name == t.name
    ensures old(heap.refused) ==> heap.refused
    ensures Answers(heap, P.ParseString(text, str), ok, end)
    ensures ok ==> t'.text != NULL && TextAt(heap.cells, t'.text, P.ParseString(text, str).value)
    ensures ok ==> heap.cells[item].node.kind == Kind.String
  {
    hide Subtree, Apart, Own, Grown, TextAt;
    ghost var m := heap.cells;
    end, t' := str, t;
    LeafFacts(m, t);
    GrownRefl(m, t);
    if At(text, str) != '"' {
      heap.ep := str;
      return false, str, t;
    }
    var len := ParseStringHeap.ScanString(text, str + 1);
    var out;
    ghost var b;
    out, b := heap.MallocBlock(len + 1);
    if out == NULL {
      return false, str, t;
    }
    assert heap.cells == m[out := Block(b)];
    end, b := ParseStringHeap.DecodeInto(heap, text, str + 1, out, m, b);
    ParseStringHeap.DecodeNoNul(text, str + 1, 0);
    heap.SetNode(item, heap.cells[item].node.(valuestring := out, kind := Kind.String));
    GrowText(m, heap.cells, t, out, b, P.ParseString(text, str).value);
    ok, t' := true, Tree(t.p, out, t.name, []);
  }

  lemma LeafFacts(m: Cells, t: Tree)
    requires Leaf(m, t)
    ensures Subtree(m, t) && Apart(t) && IsRecord(m, t.p) && t.p != NULL && t.p in Own(t)
    ensures m[t.p].node.child == NULL && m[t.p].node.valuestring == NULL && m[t.p].node.name == t.name
    ensures t.kids == [] && t.text == NULL
  {
  }

  // ----- parse_value

  /** Assigning a node's kind and numbers changes no link and no ownership. */
  lemma Recolour(m: Cells, m': Cells, t: Tree, node: Node)
    requires Subtree(m, t) && Apart(t) && m' == m[t.p := Record(node)]
    requires node == m[t.p].node.(kind := node.kind, valueint := node.valueint, valuedouble := node.valuedouble)
    ensures Grown(m, m', t, t) && Relinked(m, m', t.kids)
  {
    hide TextAt, IsText, Chain, Own, OwnAll, ApartAll;
    SubtreeOwned(m, t);
    OwnAllDisjoint(m, t);
    ParentFacts(m, t);
    if t.text != NULL { TextFrame(m, m', t.text); }
    if t.name != NULL { TextFrame(m, m', t.name); }
    ChainFrame(m, m', t.kids, NULL, NULL);
    forall k | 0 <= k < |t.kids| ensures RelinkedOne(m, m', t.kids[k]) {
      PartsApart(m, t, k);
      ChildFacts(m, t, k);
    }
  }

  /** A scalar node: its kind and number fields are set. */
  method SetScalar(heap: Heap, item: Ptr, kind: Kind, valueint: int, valuedouble: real, ghost t: Tree)
    requires Leaf(heap.cells, t) && item == t.p
    modifies heap`cells
    ensures Grown(old(heap.cells), heap.cells, t, t)
    ensures var node := heap.cells[item].node;
            node.kind == kind && node.valueint == valueint && node.valuedouble == valuedouble
  {
    hide Subtree, Apart, Own, Grown;
    ghost var m := heap.cells;
    LeafFacts(m, t);
    var node := heap.cells[item].node.(kind := kind, valueint := valueint, valuedouble := valuedouble);
    heap.SetNode(item, node);
    Recolour(m, heap.cells, t, node);
    GrownRoot(m, heap.cells, t, t);
  }

  lemma GrownRoot(m: Cells, m': Cells, t: Tree, t': Tree)
    requires Grown(m, m', t, t')
    ensures IsRecord(m', t.p) && t'.p == t.p && Subtree(m', t') && Apart(t')
    ensures m'[t.p].node.name == t'.name && m'[t.p].node.child == Head(t'.kids, NULL)
  {
  }

  /** parse_value: fills the zeroed node `item` from the text at `i`. */
  method ParseValue(heap: Heap, text: string, item: Ptr, i: nat, ghost t: Tree)
    returns (ok: bool, end: nat, ghost t': Tree)
    requires i <= |text| && '\0' !in text && P.ParseValue(text, i) != P.Undefined
    requires Leaf(heap.cells, t) && item == t.p
    modifies heap
    ensures Grown(old(heap.cells), heap.cells, t, t') && t'.name == t.name
    ensures old(heap.refused) ==> heap.refused
    ensures Answers(heap, P.ParseValue(text, i), ok, end)
    ensures ok ==> Denotes(heap.cells, t', P.ParseValue(text, i).value)
    ensures ok && P.ParseValue(text, i).value.True? ==> heap.cells[item].node.valueint == 1
    decreases |text| - i, 3
  {
    hide Subtree, Apart, Own, Grown, TextAt, Leaf, P.ParseString, ParseNumber, P.ParseArray, P.ParseObject, Has;
    ghost var m := heap.cells;
    LeafFacts(m, t);
    GrownRefl(m, t);
    ok, end, t' := true, i, t;
    if Has(text, i, "null") {
      SetScalar(heap, item, Kind.Null, heap.cells[item].node.valueint, heap.cells[item].node.valuedouble, t);
      GrownRoot(m, heap.cells, t, t);
      end := i + 4;
    } else if Has(text, i, "false") {
      SetScalar(heap, item, Kind.False, heap.cells[item].node.valueint, heap.cells[item].node.valuedouble, t);
      GrownRoot(m, heap.cells, t, t);
      end := i + 5;
    } else if Has(text, i, "true") {
      SetScalar(heap, item, Kind.True, 1, heap.cells[item].node.valuedouble, t);
      GrownRoot(m, heap.cells, t, t);
      end := i + 4;
    } else if At(text, i) == '"' {
      ok, end, t' := ParseString(heap, text, item, i, t);
      GrownRoot(m, heap.cells, t, t');
    } else if At(text, i) == '-' || '0' <= At(text, i) <= '9' {
      var d;
      d, end := ReadNumber(text, i);
      SetScalar(heap, item, Kind.Number, Truncate(d), d, t);
      GrownRoot(m, heap.cells, t, t);
    } else if At(text, i) == '[' {
      ok, end, t' := ParseArray(heap, text, item, i, t);
    } else if At(text, i) == '{' {
      ok, end, t' := ParseObject(heap, text, item, i, t);
    } else {
      heap.ep := i;
      ok := false;
    }
  }

  // ----- parse_array

  /** An array or object node under construction: from the leaf `t0` in `m0` it
      has grown to `t`, and the children before the last stand for `vs`. */
  ghost predicate Building(m0: Cells, m: Cells, t0: Tree, t: Tree, kind: Kind) {
    && Leaf(m0, t0) && Grown(m0, m, t0, t) && t.name == t0.name && t.text == NULL
    && IsRecord(m, t.p) && m[t.p].node.kind == kind
    && forall k :: 0 <= k < |t.kids| ==> t.kids[k].p !in m0
  }

  /** cJSON_New_Item, linked in behind the last child. */
  method AddChild(heap: Heap, item: Ptr, last: Ptr, ghost m0: Cells, ghost t0: Tree, ghost t: Tree, ghost kind: Kind)
    returns (child: Ptr, ghost t': Tree)
    requires Building(m0, heap.cells, t0, t, kind) && item == t.p && last == Last(t.kids, NULL)
    modifies heap`cells, heap`refused
    ensures old(heap.refused) ==> heap.refused
    ensures Building(m0, heap.cells, t0, t', kind) && t'.p == t.p
    ensures child == NULL ==> heap.refused && t' == t && heap.cells == old(heap.cells)
    ensures child != NULL ==>
              && t' == WithChild(t, t.kids, NewLeaf(child)) && Leaf(heap.cells, NewLeaf(child))
              && Relinked(old(heap.cells), heap.cells, t.kids) && Subtrees(old(heap.cells), t.kids)
  {
    hide Subtree, Apart, Own, Grown, Leaf, Chain, ApartAll, OwnAll, Relinked;
    ghost var m := heap.cells;
    t' := t;
    GrownRoot(m0, m, t0, t);
    LastFacts(m, t);
    child := heap.Malloc(Record(ZERO_NODE));
    if child == NULL {
      return;
    }
    assert heap.cells == m[child := Record(ZERO_NODE)];
    if last == NULL {
      heap.SetNode(item, heap.cells[item].node.(child := child));
    } else {
      heap.SetNode(last, heap.cells[last].node.(next := child));
      heap.SetNode(child, heap.cells[child].node.(prev := last));
    }
    GrownLink(m0, m, heap.cells, t0, t, child);
    t' := WithChild(t, t.kids, NewLeaf(child));
    GrownRoot(m0, heap.cells, t0, t');
  }

  lemma LastFacts(m: Cells, t: Tree)
    requires Subtree(m, t) && Apart(t)
    ensures Last(t.kids, NULL) == NULL <==> t.kids == []
    ensures t.kids != [] ==> IsRecord(m, Last(t.kids, NULL)) && Last(t.kids, NULL) != t.p
    ensures IsRecord(m, t.p)
  {
    hide Subtree, Apart, Own, Chain, ApartAll, OwnAll;
    ParentFacts(m, t);
    if t.kids != [] {
      ChildFacts(m, t, |t.kids| - 1);
      OwnAllDisjoint(m, t);
    }
  }

  lemma BuildingChild(m0: Cells, m1: Cells, m2: Cells, t0: Tree, t: Tree, ks: seq<Tree>, c: Tree, c': Tree, kind: Kind)
    requires Building(m0, m1, t0, t, kind) && t.kids == ks + [c] && Grown(m1, m2, c, c')
    ensures Building(m0, m2, t0, WithChild(t, ks, c'), kind)
    ensures Agree(m1, m2, OwnAll(ks)) && Chain(m1, ks, NULL, c.p)
  {
    hide Subtree, Apart, Own, Grown, Leaf, Chain, ApartAll, OwnAll;
    assert t.kids[|ks|] == c && c.p !in m0;
    GrownChild(m0, m1, m2, t0, t, ks, c, c');
    GrownRoot(m0, m1, t0, t);
    GrownRoot(m0, m2, t0, WithChild(t, ks, c'));
    SubtreeSplit(m1, t, ks, c);
    GrownRoot(m1, m2, c, c');
    assert forall k :: 0 <= k < |ks| ==> t.kids[k] == ks[k];
    assert m2[t.p] == m1[t.p];
  }

  /** The last child, still a leaf, is filled from the text at `from`; `next` is
      the first non-blank behind its value. */
  method ParseElement(heap: Heap, text: string, child: Ptr, from: nat, ghost m0: Cells, ghost t0: Tree, ghost t: Tree,
                      ghost ks: seq<Tree>, ghost vs: seq<Json>)
    returns (ok: bool, next: nat, ghost t': Tree)
    requires from <= |text| && '\0' !in text && P.ParseItems(text, from) != P.Undefined
    requires Building(m0, heap.cells, t0, t, Kind.Array) && t.kids == ks + [NewLeaf(child)]
    requires Leaf(heap.cells, NewLeaf(child)) && DenotesItems(heap.cells, ks, vs)
    modifies heap
    ensures old(heap.refused) ==> heap.refused
    ensures Building(m0, heap.cells, t0, t', Kind.Array) && t'.p == t.p && t'.kids != [] && Last(t'.kids, NULL) == child
    ensures !ok ==> Answers(heap, P.ParseItems(text, from), false, 0)
    ensures ok ==>
              var r := P.ParseValue(text, Skip(text, from));
              && r.Ok? && from < next <= |text| && next == Skip(text, r.end)
              && P.ParseItems(text, from) == Front([r.value], AfterItem(text, next))
              && DenotesItems(heap.cells, t'.kids, vs + [r.value])
    decreases |text| - from, 4
  {
    hide Subtree, Apart, Own, Grown, Leaf, Chain, ApartAll, OwnAll, Denotes, P.ParseValue, P.ParseItems,
          DenotesItems, Building;
    ghost var m, c := heap.cells, NewLeaf(child);
    ItemThenRest(text, from);
    var start := SkipBlanks(text, from);
    var end;
    ghost var c';
    ok, end, c' := ParseValue(heap, text, child, start, c);
    t' := WithChild(t, ks, c');
    BuildingChild(m0, m, heap.cells, t0, t, ks, c, c', Kind.Array);
    GrownRoot(m, heap.cells, c, c');
    next := from;
    if ok {
      next := SkipBlanks(text, end);
      DenotesItemsFrame(m, heap.cells, ks, vs, NULL, child);
      ItemsSnoc(heap.cells, ks, c', vs, P.ParseValue(text, Skip(text, from)).value);
    }
  }

  lemma ItemsSnoc(m: Cells, ks: seq<Tree>, c: Tree, vs: seq<Json>, v: Json)
    requires DenotesItems(m, ks, vs) && Denotes(m, c, v)
    ensures DenotesItems(m, ks + [c], vs + [v])
  {
    hide Denotes, DenotesItems;
    ItemsLength(m, ks, vs);
    ItemsOne(m, c, v);
    ItemsConcat(m, ks, [c], vs, [v]);
  }

  /** parse_array: an empty array, or items separated by commas. */
  method ParseArray(heap: Heap, text: string, item: Ptr, i: nat, ghost t0: Tree)
    returns (ok: bool, end: nat, ghost t: Tree)
    requires i < |text| && text[i] == '[' && '\0' !in text && P.ParseArray(text, i) != P.Undefined
    requires Leaf(heap.cells, t0) && item == t0.p
    modifies heap
    ensures Grown(old(heap.cells), heap.cells, t0, t) && t.name == t0.name
    ensures old(heap.refused) ==> heap.refused
    ensures Answers(heap, P.ParseArray(text, i), ok, end)
    ensures ok ==> Denotes(heap.cells, t, P.ParseArray(text, i).value)
    decreases |text| - i, 2
  {
    hide Subtree, Apart, Own, Grown, Leaf, P.ParseItems, Relinked, DenotesItems;
    ghost var m0 := heap.cells;
    t, end := t0, i;
    LeafFacts(m0, t0);
    StartBuilding(heap, item, Kind.Array, t0);
    GrownRoot(m0, heap.cells, t0, t);
    var value := SkipBlanks(text, i + 1);
    if At(text, value) == ']' {
      NoItems(heap.cells, t0);
      return true, value + 1, t;
    }
    ok, end, t := ParseItemList(heap, text, item, value, m0, t0, t);
    GrownRoot(m0, heap.cells, t0, t);
  }

  /** The first item of parse_array, then its loop. */
  method ParseItemList(heap: Heap, text: string, item: Ptr, from: nat, ghost m0: Cells, ghost t0: Tree, ghost t1: Tree)
    returns (ok: bool, end: nat, ghost t: Tree)
    requires from <= |text| && '\0' !in text && P.ParseItems(text, from) != P.Undefined
    requires Building(m0, heap.cells, t0, t1, Kind.Array) && item == t1.p && t1.kids == []
    modifies heap
    ensures old(heap.refused) ==> heap.refused
    ensures Building(m0, heap.cells, t0, t, Kind.Array)
    ensures Answers(heap, P.ParseItems(text, from), ok, end)
    ensures ok ==> DenotesItems(heap.cells, t.kids, P.ParseItems(text, from).value)
    decreases |text| - from, 5
  {
    hide Subtree, Apart, Own, Grown, Leaf, P.ParseItems, P.ParseValue, Relinked, DenotesItems, Building;
    var child, value;
    child, t := AddChild(heap, item, NULL, m0, t0, t1, Kind.Array);
    end := from;
    if child == NULL {
      return false, from, t;
    }
    NoItems(heap.cells, t1);
    assert t.kids == [] + [NewLeaf(child)];
    ok, value, t := ParseElement(heap, text, child, from, m0, t0, t, [], []);
    if ok {
      ghost var v := P.ParseValue(text, Skip(text, from)).value;
      assert [] + [v] == [v];
      ok, end, t := ParseMoreItems(heap, text, item, child, value, m0, t0, t, [v], from);
    }
  }

  /** The loop of parse_array. */
  method ParseMoreItems(heap: Heap, text: string, item: Ptr, first: Ptr, start: nat, ghost m0: Cells, ghost t0: Tree,
                        ghost t1: Tree, ghost vs1: seq<Json>, ghost from: nat)
    returns (ok: bool, end: nat, ghost t: Tree)
    requires from < start <= |text| && '\0' !in text && P.ParseItems(text, from) != P.Undefined
    requires Building(m0, heap.cells, t0, t1, Kind.Array) && item == t1.p
    requires t1.kids != [] && Last(t1.kids, NULL) == first && DenotesItems(heap.cells, t1.kids, vs1)
    requires P.ParseItems(text, from) == Front(vs1, AfterItem(text, start))
    modifies heap
    ensures old(heap.refused) ==> heap.refused
    ensures Building(m0, heap.cells, t0, t, Kind.Array)
    ensures Answers(heap, P.ParseItems(text, from), ok, end)
    ensures ok ==> DenotesItems(heap.cells, t.kids, P.ParseItems(text, from).value)
    decreases |text| - from, 1
  {
    hide Subtree, Apart, Own, Grown, Leaf, P.ParseValue, P.ParseItems, Relinked, DenotesItems, Building;
    var child, value := first, start;
    ghost var vs := vs1;
    t, end := t1, start;
    while At(text, value) == ','
      invariant from < value <= |text| && (old(heap.refused) ==> heap.refused)
      invariant Building(m0, heap.cells, t0, t, Kind.Array) && item == t.p
      invariant t.kids != [] && Last(t.kids, NULL) == child && DenotesItems(heap.cells, t.kids, vs)
      invariant P.ParseItems(text, from) == Front(vs, AfterItem(text, value))
      decreases |text| - value
    {
      ghost var m, ks, next := heap.cells, t.kids, value + 1;
      child, t := AddChild(heap, item, child, m0, t0, t, Kind.Array);
      if child == NULL {
        return false, value, t;
      }
      ItemsRelink(m, heap.cells, ks, vs);
      ok, value, t := ParseElement(heap, text, child, value + 1, m0, t0, t, ks, vs);
      if !ok {
        return;
      }
      ghost var v := P.ParseValue(text, Skip(text, next)).value;
      FrontTwice(vs, v, AfterItem(text, value));
      vs := vs + [v];
    }
    if At(text, value) == ']' {
      assert vs + [] == vs;
      return true, value + 1, t;
    }
    heap.ep := value;
    ok := false;
  }

  lemma NoItems(m: Cells, t: Tree)
    requires t.kids == []
    ensures DenotesItems(m, t.kids, []) && DenotesMembers(m, t.kids, [])
  {
  }

  /** `item->type = cJSON_Array` or `cJSON_Object` on a leaf. */
  method StartBuilding(heap: Heap, item: Ptr, kind: Kind, ghost t: Tree)
    requires Leaf(heap.cells, t) && item == t.p
    modifies heap`cells
    ensures Building(old(heap.cells), heap.cells, t, t, kind)
  {
    hide Subtree, Apart, Own, Grown;
    LeafFacts(heap.cells, t);
    ghost var m := heap.cells;
    SetScalar(heap, item, kind, heap.cells[item].node.valueint, heap.cells[item].node.valuedouble, t);
    GrownRoot(m, heap.cells, t, t);
  }

  // ----- parse_object

  /** `child->string = child->valuestring; child->valuestring = 0` */
  lemma NameMoved(m: Cells, m': Cells, c: Tree)
    requires Subtree(m, c) && Apart(c) && c.kids == [] && c.name == NULL && c.text != NULL
    requires m' == m[c.p := Record(m[c.p].node.(name := c.text, valuestring := NULL))]
    ensures var c' := Tree(c.p, NULL, c.text, []);
            Grown(m, m', c, c') && Leaf(m', c')
    ensures forall s :: TextAt(m, c.text, s) ==> TextAt(m', c.text, s)
  {
    hide IsText, TextAt;
    SubtreeOwned(m, c);
    TextFrame(m, m', c.text);
    assert OwnAll([]) == {};
    var c' := Tree(c.p, NULL, c.text, []);
    assert Subtree(m', c') && Apart(c') && Own(c') == Own(c);
  }

  /** One member: key, colon, value, filled into the last child, still a leaf. */
  method ParseMember(heap: Heap, text: string, child: Ptr, from: nat)
    returns (ok: bool, end: nat, ghost c: Tree)
    requires from <= |text| && '\0' !in text && P.ParseMember(text, from) != P.Undefined
    requires Leaf(heap.cells, NewLeaf(child))
    modifies heap
    ensures Grown(old(heap.cells), heap.cells, NewLeaf(child), c)
    ensures old(heap.refused) ==> heap.refused
    ensures Answers(heap, P.ParseMember(text, from), ok, end)
    ensures ok ==> DenotesMember(heap.cells, c, P.ParseMember(text, from).value)
    decreases |text| - from, 4
  {
    hide Subtree, Apart, Own, Grown, Leaf, TextAt, Denotes, P.ParseString, P.ParseValue;
    ghost var m0 := heap.cells;
    var value := SkipBlanks(text, from);
    ok, end, c := ParseString(heap, text, child, value, NewLeaf(child));
    if !ok {
      return;
    }
    ghost var m1, c1, key := heap.cells, c, P.ParseString(text, value).value;
    GrownRoot(m0, m1, NewLeaf(child), c1);
    NodeStrings(m1, c1);
    var text0 := heap.cells[child].node.valuestring;
    heap.SetNode(child, heap.cells[child].node.(name := text0, valuestring := NULL));
    NameMoved(m1, heap.cells, c1);
    ghost var m2 := heap.cells;
    c := Tree(child, NULL, c1.text, []);
    GrownTrans(m0, m1, m2, NewLeaf(child), c1, c);
    value := SkipBlanks(text, end);
    if At(text, value) != ':' {
      heap.ep := value;
      ok := false;
      return;
    }
    value := SkipBlanks(text, value + 1);
    ghost var c2 := c;
    ok, end, c := ParseValue(heap, text, child, value, c2);
    GrownTrans(m0, m2, heap.cells, NewLeaf(child), c2, c);
    GrownKeeps(m2, heap.cells, c2, c, c1.text, key);
  }

  lemma NodeStrings(m: Cells, c: Tree)
    requires Subtree(m, c)
    ensures IsRecord(m, c.p) && m[c.p].node.valuestring == c.text
  {
  }

  lemma GrownKeeps(m: Cells, m': Cells, t: Tree, t': Tree, p: Ptr, s: string)
    requires Grown(m, m', t, t') && TextAt(m, p, s)
    ensures TextAt(m', p, s)
  {
    hide Subtree, Apart, Own;
  }

  /** Growing the last member and stepping over the blanks behind it. */
  method ParsePair(heap: Heap, text: string, child: Ptr, from: nat, ghost m0: Cells, ghost t0: Tree, ghost t: Tree,
                   ghost ks: seq<Tree>, ghost vs: seq<Member>)
    returns (ok: bool, next: nat, ghost t': Tree)
    requires from <= |text| && '\0' !in text && P.ParseMembers(text, from) != P.Undefined
    requires Building(m0, heap.cells, t0, t, Kind.Object) && t.kids == ks + [NewLeaf(child)]
    requires Leaf(heap.cells, NewLeaf(child)) && DenotesMembers(heap.cells, ks, vs)
    modifies heap
    ensures old(heap.refused) ==> heap.refused
    ensures Building(m0, heap.cells, t0, t', Kind.Object) && t'.p == t.p && t'.kids != []
              && Last(t'.kids, NULL) == child
    ensures !ok ==> Answers(heap, P.ParseMembers(text, from), false, 0)
    ensures ok ==>
              var r := P.ParseMember(text, from);
              && r.Ok? && from < next <= |text| && next == Skip(text, r.end)
              && P.ParseMembers(text, from) == Front([r.value], AfterMember(text, next))
              && DenotesMembers(heap.cells, t'.kids, vs + [r.value])
    decreases |text| - from, 5
  {
    hide Subtree, Apart, Own, Grown, Leaf, Chain, ApartAll, OwnAll, DenotesMember, P.ParseMember, P.ParseMembers,
          DenotesMembers, Building;
    ghost var m, c := heap.cells, NewLeaf(child);
    MemberThenRest(text, from);
    var end;
    ghost var c';
    ok, end, c' := ParseMember(heap, text, child, from);
    t' := WithChild(t, ks, c');
    BuildingChild(m0, m, heap.cells, t0, t, ks, c, c', Kind.Object);
    GrownRoot(m, heap.cells, c, c');
    next := from;
    if ok {
      next := SkipBlanks(text, end);
      DenotesMembersFrame(m, heap.cells, ks, vs, NULL, child);
      MembersSnoc(heap.cells, ks, c', vs, P.ParseMember(text, from).value);
    }
  }

  lemma {:induction false} MembersSnoc(m: Cells, ks: seq<Tree>, c: Tree, vs: seq<Member>, v: Member)
    requires DenotesMembers(m, ks, vs) && DenotesMember(m, c, v)
    ensures DenotesMembers(m, ks + [c], vs + [v])
    decreases ks
  {
    hide DenotesMember;
    if ks == [] {
      assert [c][1..] == [] && [v][1..] == [] && ks + [c] == [c] && vs + [v] == [v];
    } else {
      MembersSnoc(m, ks[1..], c, vs[1..], v);
      assert (ks + [c])[1..] == ks[1..] + [c] && (vs + [v])[1..] == vs[1..] + [v];
    }
  }

  /** parse_object: an empty object, or members separated by commas. */
  method ParseObject(heap: Heap, text: string, item: Ptr, i: nat, ghost t0: Tree)
    returns (ok: bool, end: nat, ghost t: Tree)
    requires i < |text| && text[i] == '{' && '\0' !in text && P.ParseObject(text, i) != P.Undefined
    requires Leaf(heap.cells, t0) && item == t0.p
    modifies heap
    ensures Grown(old(heap.cells), heap.cells, t0, t) && t.name == t0.name
    ensures old(heap.refused) ==> heap.refused
    ensures Answers(heap, P.ParseObject(text, i), ok, end)
    ensures ok ==> Denotes(heap.cells, t, P.ParseObject(text, i).value)
    decreases |text| - i, 2
  {
    hide Subtree, Apart, Own, Grown, Leaf, P.ParseMembers, Relinked, DenotesMembers;
    ghost var m0 := heap.cells;
    t, end := t0, i;
    LeafFacts(m0, t0);
    StartBuilding(heap, item, Kind.Object, t0);
    GrownRoot(m0, heap.cells, t0, t);
    var value := SkipBlanks(text, i + 1);
    if At(text, value) == '}' {
      NoItems(heap.cells, t0);
      return true, value + 1, t;
    }
    ok, end, t := ParseMemberList(heap, text, item, value, m0, t0, t);
    GrownRoot(m0, heap.cells, t0, t);
  }

  /** The first member of parse_object, then its loop. */
  method ParseMemberList(heap: Heap, text: string, item: Ptr, from: nat, ghost m0: Cells, ghost t0: Tree,
                         ghost t1: Tree)
    returns (ok: bool, end: nat, ghost t: Tree)
    requires from <= |text| && '\0' !in text && P.ParseMembers(text, from) != P.Undefined
    requires Building(m0, heap.cells, t0, t1, Kind.Object) && item == t1.p && t1.kids == []
    modifies heap
    ensures old(heap.refused) ==> heap.refused
    ensures Building(m0, heap.cells, t0, t, Kind.Object)
    ensures Answers(heap, P.ParseMembers(text, from), ok, end)
    ensures ok ==> DenotesMembers(heap.cells, t.kids, P.ParseMembers(text, from).value)
    decreases |text| - from, 6
  {
    hide Subtree, Apart, Own, Grown, Leaf, P.ParseMembers, P.ParseMember, Relinked, DenotesMembers, Building;
    var child, value;
    child, t := AddChild(heap, item, NULL, m0, t0, t1, Kind.Object);
    end := from;
    if child == NULL {
      return false, from, t;
    }
    NoItems(heap.cells, t1);
    assert t.kids == [] + [NewLeaf(child)];
    ok, value, t := ParsePair(heap, text, child, from, m0, t0, t, [], []);
    if ok {
      ghost var v := P.ParseMember(text, from).value;
      assert [] + [v] == [v];
      ok, end, t := ParseMoreMembers(heap, text, item, child, value, m0, t0, t, [v], from);
    }
  }

  /** The loop of parse_object. */
  method ParseMoreMembers(heap: Heap, text: string, item: Ptr, first: Ptr, start: nat, ghost m0: Cells,
                          ghost t0: Tree, ghost t1: Tree, ghost vs1: seq<Member>, ghost from: nat)
    returns (ok: bool, end: nat, ghost t: Tree)
    requires from < start <= |text| && '\0' !in text && P.ParseMembers(text, from) != P.Undefined
    requires Building(m0, heap.cells, t0, t1, Kind.Object) && item == t1.p
    requires t1.kids != [] && Last(t1.kids, NULL) == first && DenotesMembers(heap.cells, t1.kids, vs1)
    requires P.ParseMembers(text, from) == Front(vs1, AfterMember(text, start))
    modifies heap
    ensures old(heap.refused) ==> heap.refused
    ensures Building(m0, heap.cells, t0, t, Kind.Object)
    ensures Answers(heap, P.ParseMembers(text, from), ok, end)
    ensures ok ==> DenotesMembers(heap.cells, t.kids, P.ParseMembers(text, from).value)
    decreases |text| - from, 1
  {
    hide Subtree, Apart, Own, Grown, Leaf, P.ParseMember, P.ParseMembers, Relinked, DenotesMembers, Building;
    var child, value := first, start;
    ghost var vs := vs1;
    t, end := t1, start;
    while At(text, value) == ','
      invariant from < value <= |text| && (old(heap.refused) ==> heap.refused)
      invariant Building(m0, heap.cells, t0, t, Kind.Object) && item == t.p
      invariant t.kids != [] && Last(t.kids, NULL) == child && DenotesMembers(heap.cells, t.kids, vs)
      invariant P.ParseMembers(text, from) == Front(vs, AfterMember(text, value))
      decreases |text| - value
    {
      ghost var m, ks, next := heap.cells, t.kids, value + 1;
      child, t := AddChild(heap, item, child, m0, t0, t, Kind.Object);
      if child == NULL {
        return false, value, t;
      }
      MembersRelink(m, heap.cells, ks, vs);
      ok, value, t := ParsePair(heap, text, child, value + 1, m0, t0, t, ks, vs);
      if !ok {
        return;
      }
      ghost var v := P.ParseMember(text, next).value;
      FrontTwice(vs, v, AfterMember(text, value));
      vs := vs + [v];
    }
    if At(text, value) == '}' {
      assert vs + [] == vs;
      return true, value + 1, t;
    }
    heap.ep := value;
    ok := false;
  }

  // ----- cJSON_ParseWithOpts

  /** A complete document tree, the only thing allocated on top of `m`. */
  ghost predicate Document(m: Cells, m': Cells, t: Tree) {
    && Detached(m', t) && m'.Keys == m.Keys + Own(t) && Own(t) !! m.Keys
    && forall x :: x in m ==> x in m' && m'[x] == m[x]
  }

  /** cJSON_ParseWithOpts: the tree of the text's value, or NULL with the heap
      exactly as before, and the error position when no allocation was refused. */
  method ParseWithOpts(heap: Heap, text: string, requireEnd: bool) returns (c: Ptr, end: nat, ghost t: Tree)
    requires '\0' !in text && P.ParseDocument(text, requireEnd) != P.Undefined
    modifies heap
    ensures Answers(heap, P.ParseDocument(text, requireEnd), c != NULL, end)
    ensures c == NULL ==> heap.cells == old(heap.cells)
    ensures c != NULL ==>
              && c == t.p && Document(old(heap.cells), heap.cells, t)
              && Denotes(heap.cells, t, P.ParseDocument(text, requireEnd).value)
  {
    hide Subtree, Apart, Own, Grown, Leaf, Denotes, P.ParseValue;
    ghost var m := heap.cells;
    heap.refused := false;
    end, t := 0, NewLeaf(NULL);
    c := heap.Malloc(Record(ZERO_NODE));
    heap.ep := 0;
    if c == NULL {
      return;
    }
    ghost var m1 := heap.cells;
    NewLeafIsLeaf(m1, c);
    LeafFacts(m1, NewLeaf(c));
    var start := SkipBlanks(text, 0);
    var ok;
    ok, end, t := ParseValue(heap, text, c, start, NewLeaf(c));
    GrownDocument(m, m1, heap.cells, c, t);
    if !ok {
      DiscardDocument(heap, c, m, t);
      return NULL, 0, t;
    }
    if requireEnd {
      end := SkipBlanks(text, end);
      if At(text, end) != '\0' {
        DiscardDocument(heap, c, m, t);
        heap.ep := end;
        return NULL, 0, t;
      }
    }
  }

  lemma GrownDocument(m: Cells, m1: Cells, m2: Cells, c: Ptr, t: Tree)
    requires c != NULL && c !in m && m1 == m[c := Record(ZERO_NODE)] && Grown(m1, m2, NewLeaf(c), t)
    ensures Document(m, m2, t) && t.p == c
  {
    hide Subtree, Apart;
    assert OwnAll([]) == {};
    assert Own(NewLeaf(c)) == {c};
    OwnHasRoot(t);
    hide Own;
    forall x | x in Own(t) ensures x !in m {
      assert x in m1 ==> x in Own(t) * m1.Keys;
    }
  }

  /** Deleting the tree restores the heap. */
  method DiscardDocument(heap: Heap, c: Ptr, ghost m: Cells, ghost t: Tree)
    requires Document(m, heap.cells, t) && c == t.p
    modifies heap`cells
    ensures heap.cells == m
  {
    hide Detached, Own;
    DeleteDetached(heap, c, t);
    assert heap.cells.Keys == m.Keys;
  }
}
