/** The blocks of the allocating printer: strings composed in a block of their
    own, and tables of pointers to them. */
module PrintBlocks {
  import opened Escape
  import opened Memory
  import opened Trees
  import opened ParseStringHeap
  import opened TextWriting
  import opened Terminators

  /** `m'` is `m` with the addresses `s` allocated on top. */
  ghost predicate Extra(m: Cells, m': Cells, s: set<Ptr>) {
    && m'.Keys == m.Keys + s && s !! m.Keys
    && forall x :: x in m ==> x in m' && m'[x] == m[x]
  }

  lemma ExtraTwice(m0: Cells, m1: Cells, m2: Cells, s: set<Ptr>, t: set<Ptr>)
    requires Extra(m0, m1, s) && Extra(m1, m2, t)
    ensures Extra(m0, m2, s + t) && s !! t
  {
  }

  lemma ExtraFree(m: Cells, m': Cells, s: set<Ptr>, x: Ptr)
    requires Extra(m, m', s) && x in s
    ensures Extra(m, m' - {x}, s - {x})
  {
  }

  lemma ExtraNone(m: Cells, m': Cells)
    ensures Extra(m, m', {}) <==> m' == m
  {
    if Extra(m, m', {}) {
      assert m'.Keys == m.Keys;
    }
  }

  /** What a print function returns: a block with the text, or nothing changed. */
  ghost predicate Result(heap: Heap, m: Cells, out: Ptr, text: string)
    reads heap
  {
    if out == NULL then heap.cells == m && heap.refused
    else Extra(m, heap.cells, {out}) && TextAt(heap.cells, out, text)
  }

  /** The block `out` on top of `m` begins with `acc`. */
  ghost predicate Composing(heap: Heap, m: Cells, out: Ptr, b: seq<char>, acc: string)
    reads heap`cells
  {
    out != NULL && out !in m && Holds(heap, m, out, b) && |acc| <= |b| && b[..|acc|] == acc
  }

  lemma ComposeMore(b: seq<char>, b': seq<char>, acc: string, t: string, acc': string)
    requires |acc| <= |b| && b[..|acc|] == acc && Wrote(b, b', |acc|, t) && acc' == acc + t
    ensures |acc'| <= |b'| && b'[..|acc'|] == acc'
  {
    assert b'[..|acc'|] == b'[..|acc|] + b'[|acc|..|acc| + |t|];
  }

  /** More characters behind `acc`. */
  method Write(heap: Heap, out: Ptr, k: nat, text: string, ghost m: Cells, ghost b: seq<char>, ghost acc: string)
    returns (ghost b': seq<char>)
    requires Composing(heap, m, out, b, acc) && k == |acc| && k + |text| <= |b|
    modifies heap`cells
    ensures Composing(heap, m, out, b', acc + text) && |b'| == |b|
  {
    hide Holds;
    b' := WriteText(heap, out, k, text, m, b);
    ComposeMore(b, b', acc, text, acc + text);
  }

  /** A finished text with its terminator is a string. */
  lemma ComposeDone(heap: Heap, m: Cells, out: Ptr, b: seq<char>, text: string)
    requires Composing(heap, m, out, b, text + "\0") && '\0' !in text
    ensures Extra(m, heap.cells, {out}) && TextAt(heap.cells, out, text)
  {
    assert b[..|text| + 1] == text + "\0";
    assert b[..|text|] == b[..|text| + 1][..|text|] && b[|text|] == b[..|text| + 1][|text|];
  }

  /** A block of `needed` bytes with a known text. */
  method PrintLiteral(heap: Heap, needed: nat, text: string) returns (out: Ptr)
    requires |text| < needed && '\0' !in text
    modifies heap`cells, heap`refused
    ensures old(heap.refused) ==> heap.refused
    ensures Result(heap, old(heap.cells), out, text)
  {
    ghost var m := heap.cells;
    ghost var b;
    out, b := heap.MallocBlock(needed);
    if out != NULL {
      assert b[..0] == "";
      b := Write(heap, out, 0, text + "\0", m, b, "");
      assert "" + (text + "\0") == text + "\0";
      ComposeDone(heap, m, out, b, text);
    }
  }

  /** print_string_ptr without a buffer. */
  method PrintStringPtr(heap: Heap, str: Ptr, ghost s: string) returns (out: Ptr)
    requires TextAt(heap.cells, str, s)
    modifies heap`cells, heap`refused
    ensures old(heap.refused) ==> heap.refused
    ensures Result(heap, old(heap.cells), out, Quote(s))
  {
    hide EscapeAll, TextAt;
    ghost var m := heap.cells;
    var flag, len := QuotedSize(heap, str, s);
    ghost var b;
    out, b := heap.MallocBlock(len + 3);
    if out != NULL {
      StringKept(m, str, s);
      b := WriteQuoted(heap, str, flag, out, 0, m, b, s);
      assert b[..|Quote(s)| + 1] == b[0..0 + |Quote(s) + ['\0']|];
      QuoteNoNul(s);
      assert Quote(s) + "\0" == Quote(s) + ['\0'];
      ComposeDone(heap, m, out, b, Quote(s));
    }
  }

  lemma StringKept(m: Cells, str: Ptr, s: string)
    requires TextAt(m, str, s)
    ensures str in m
  {
  }

  // ----- tables of strings

  /** The non-NULL entries. */
  ghost function Live(es: seq<Ptr>): set<Ptr> {
    set e | e in es && e != NULL
  }

  ghost predicate Distinct(es: seq<Ptr>) {
    forall i, j :: 0 <= i < j < |es| && es[i] != NULL ==> es[i] != es[j]
  }

  lemma LiveFrom(es: seq<Ptr>, i: nat)
    requires i < |es|
    ensures Live(es[i..]) == OptPtr(es[i]) + Live(es[i + 1..])
    ensures Distinct(es) && es[i] != NULL ==> es[i] !in Live(es[i + 1..])
  {
    assert es[i..] == [es[i]] + es[i + 1..];
    forall x ensures x in Live(es[i..]) <==> x in OptPtr(es[i]) || x in Live(es[i + 1..]) {
      assert x in es[i..] <==> x == es[i] || x in es[i + 1..];
    }
    if Distinct(es) && es[i] != NULL {
      var rest := es[i + 1..];
      forall x | x in rest ensures x != es[i] {
        var k :| 0 <= k < |rest| && rest[k] == x;
        assert es[i + 1 + k] == x;
      }
    }
  }

  lemma LiveNone(es: seq<Ptr>)
    requires forall k :: 0 <= k < |es| ==> es[k] == NULL
    ensures Live(es) == {} && Distinct(es)
  {
  }

  /** A new entry in a slot that was still NULL. */
  lemma LiveSet(es: seq<Ptr>, i: nat, e: Ptr)
    requires i < |es| && Distinct(es) && es[i] == NULL && (e != NULL ==> e !in Live(es))
    ensures Live(es[i := e]) == Live(es) + OptPtr(e) && Distinct(es[i := e])
  {
    var es' := es[i := e];
    forall j | 0 <= j < |es| && es[j] != NULL ensures es[j] in Live(es) {
      assert es[j] in es;
    }
    forall x ensures x in es' ==> x == e || x in es {
      if x in es' {
        var j :| 0 <= j < |es'| && es'[j] == x;
      }
    }
    forall x | x in Live(es) ensures x in es' {
      var j :| 0 <= j < |es| && es[j] == x;
      assert es'[j] == x;
    }
    assert es'[i] == e;
    assert forall x :: x in Live(es') <==> x in Live(es) + OptPtr(e);
  }

  /** The table block `tab` holds `es`, and its live entries are allocated on top of `m`. */
  ghost predicate Tabled(heap: Heap, tab: Ptr, es: seq<Ptr>)
    reads heap`cells
  {
    tab != NULL && tab in heap.cells && heap.cells[tab] == Table(es) && Distinct(es) && tab !in Live(es)
  }

  /** `entries = malloc(n * sizeof(char *))` and memset to zero. */
  method NewTable(heap: Heap, n: nat) returns (tab: Ptr, ghost es: seq<Ptr>)
    modifies heap`cells, heap`refused
    ensures old(heap.refused) ==> heap.refused
    ensures tab == NULL ==> heap.cells == old(heap.cells) && heap.refused
    ensures tab != NULL ==>
              && Extra(old(heap.cells), heap.cells, {tab}) && Tabled(heap, tab, es) && Live(es) == {}
    ensures |es| == n && forall k :: 0 <= k < n ==> es[k] == NULL
  {
    var zeros: seq<Ptr> := seq(n, _ => NULL);
    es := zeros;
    LiveNone(es);
    tab := heap.Malloc(Table(zeros));
  }

  /** `entries[i] = ret` */
  method SetEntry(heap: Heap, tab: Ptr, i: nat, ret: Ptr, ghost m: Cells, ghost s: set<Ptr>, ghost es: seq<Ptr>)
    requires Tabled(heap, tab, es) && i < |es| && es[i] == NULL && (ret != NULL ==> ret !in Live(es) && ret != tab)
    requires Extra(m, heap.cells, s) && tab in s
    modifies heap`cells
    ensures Tabled(heap, tab, es[i := ret]) && Live(es[i := ret]) == Live(es) + OptPtr(ret)
    ensures heap.cells == old(heap.cells)[tab := Table(es[i := ret])]
    ensures Extra(m, heap.cells, s)
  {
    LiveSet(es, i, ret);
    heap.cells := heap.cells[tab := Table(heap.cells[tab].ptrs[i := ret])];
  }

  /** `for (i...) if (entries[i]) free(entries[i]); free(entries);` */
  method FreeEntries(heap: Heap, tab: Ptr, n: nat, ghost m: Cells, ghost es: seq<Ptr>)
    requires Tabled(heap, tab, es) && n == |es| && Extra(m, heap.cells, {tab} + Live(es))
    modifies heap`cells
    ensures heap.cells == m
  {
    hide Live, Distinct;
    var i := 0;
    assert es[0..] == es;
    while i < n
      invariant i <= n && Extra(m, heap.cells, {tab} + Live(es[i..]))
      invariant tab in heap.cells && heap.cells[tab] == Table(es) && tab !in Live(es[i..])
    {
      LiveFrom(es, i);
      if heap.cells[tab].ptrs[i] != NULL {
        var e := heap.cells[tab].ptrs[i];
        ExtraFree(m, heap.cells, {tab} + Live(es[i..]), e);
        assert {tab} + Live(es[i..]) - {e} == {tab} + Live(es[i + 1..]);
        heap.Free(e);
      }
      i := i + 1;
    }
    NoneLeft(es[n..]);
    ExtraFree(m, heap.cells, {tab} + Live(es[n..]), tab);
    heap.Free(tab);
    assert {tab} + Live(es[n..]) - {tab} == {};
    ExtraNone(m, heap.cells);
  }

  lemma NoneLeft(es: seq<Ptr>)
    requires es == []
    ensures Live(es) == {}
  {
  }

  // ----- joining

  /** `strlen` and `memcpy` of an entry behind `acc`. */
  method CopyEntry(heap: Heap, out: Ptr, e: Ptr, pos: nat, ghost mc: Cells, ghost b: seq<char>, ghost acc: string,
                   ghost text: string)
    returns (n: nat, ghost b': seq<char>)
    requires Composing(heap, mc, out, b, acc) && pos == |acc| && TextAt(mc, e, text) && pos + |text| <= |b|
    modifies heap`cells
    ensures n == |text| && Composing(heap, mc, out, b', acc + text) && |b'| == |b|
  {
    hide Holds, TextAt;
    StringKept(mc, e, text);
    n, b' := CopyString(heap, e, out, pos, mc, b, text);
    ComposeMore(b, b', acc, text, acc + text);
  }

  /** Freeing a string while the output block is being filled. */
  method FreeString(heap: Heap, out: Ptr, e: Ptr, ghost mc: Cells, ghost b: seq<char>, ghost acc: string)
    requires Composing(heap, mc, out, b, acc) && e in mc
    modifies heap`cells
    ensures Composing(heap, mc - {e}, out, b, acc)
  {
    heap.Free(e);
    assert heap.cells == (mc - {e})[out := Block(b)];
  }

  /** Freeing an entry while the output block is being filled. */
  method FreeEntry(heap: Heap, out: Ptr, e: Ptr, ghost m: Cells, ghost mc: Cells, ghost s: set<Ptr>,
                   ghost b: seq<char>, ghost acc: string)
    requires Composing(heap, mc, out, b, acc) && Extra(m, mc, s) && e in s
    modifies heap`cells
    ensures Composing(heap, mc - {e}, out, b, acc) && Extra(m, mc - {e}, s - {e})
  {
    ExtraFree(m, mc, s, e);
    FreeString(heap, out, e, mc, b, acc);
  }


  /** Text and a terminator behind it, which later text will replace. */
  method WriteTerminated(heap: Heap, out: Ptr, k: nat, text: string, ghost m: Cells, ghost b: seq<char>,
                         ghost acc: string)
    returns (ghost b': seq<char>)
    requires Composing(heap, m, out, b, acc) && k == |acc| && k + |text| < |b|
    modifies heap`cells
    ensures Composing(heap, m, out, b', acc + text) && |b'| == |b|
  {
    hide Holds;
    b' := Write(heap, out, k, text + "\0", m, b, acc);
    ghost var long := acc + (text + "\0");
    assert b'[..|acc + text|] == b'[..|long|][..|acc + text|] == acc + text;
  }

  // ----- two tables side by side

  /** From `i` on the entries of both tables are still allocated, on top of `m`
      together with the tables. */
  ghost predicate Left(m: Cells, mc: Cells, tab: Ptr, es: seq<Ptr>, other: Ptr, os: seq<Ptr>, i: nat) {
    && i <= |es| == |os| && tab != other && tab != NULL && other != NULL && Distinct(es) && Distinct(os)
    && tab !in Live(es[i..]) + Live(os[i..]) && other !in Live(es[i..]) + Live(os[i..])
    && Live(es[i..]) !! Live(os[i..])
    && Extra(m, mc, {tab, other} + Live(es[i..]) + Live(os[i..]))
    && tab in mc && other in mc && mc[tab] == Table(es) && mc[other] == Table(os)
  }

  lemma LeftSwap(m: Cells, mc: Cells, tab: Ptr, es: seq<Ptr>, other: Ptr, os: seq<Ptr>, i: nat)
    requires Left(m, mc, tab, es, other, os, i)
    ensures Left(m, mc, other, os, tab, es, i)
  {
    hide Live, Distinct;
    assert {tab, other} + Live(es[i..]) + Live(os[i..]) == {other, tab} + Live(os[i..]) + Live(es[i..]);
  }

  /** Freeing both entries `i` leaves the later ones. */
  lemma LeftStep(m: Cells, mc: Cells, tab: Ptr, es: seq<Ptr>, other: Ptr, os: seq<Ptr>, i: nat)
    requires Left(m, mc, tab, es, other, os, i) && i < |es|
    ensures OptPtr(es[i]) <= mc.Keys && OptPtr(os[i]) <= mc.Keys && OptPtr(es[i]) !! OptPtr(os[i])
    ensures {tab, other} !! OptPtr(es[i]) + OptPtr(os[i])
    ensures Left(m, mc - OptPtr(es[i]) - OptPtr(os[i]), tab, es, other, os, i + 1)
  {
    hide Live, Distinct;
    LiveFrom(es, i);
    LiveFrom(os, i);
    LiveHead(es, i);
    LiveHead(os, i);
    var mc' := mc - OptPtr(es[i]) - OptPtr(os[i]);
    var a, b := Live(es[i + 1..]), Live(os[i + 1..]);
    assert {tab, other} + (OptPtr(es[i]) + a) + (OptPtr(os[i]) + b) - OptPtr(es[i]) - OptPtr(os[i]) == {tab,
          other} + a + b;
    assert mc'.Keys == m.Keys + ({tab, other} + a + b);
  }

  lemma LiveHead(es: seq<Ptr>, i: nat)
    requires i < |es| && Distinct(es)
    ensures OptPtr(es[i]) !! Live(es[i + 1..])
  {
    LiveFrom(es, i);
  }

  lemma LeftDone(m: Cells, mc: Cells, tab: Ptr, es: seq<Ptr>, other: Ptr, os: seq<Ptr>)
    requires Left(m, mc, tab, es, other, os, |es|)
    ensures Extra(m, mc, {tab, other}) && mc - {tab} - {other} == m
  {
    NoneLeft(es[|es|..]);
    NoneLeft(os[|es|..]);
    assert {tab, other} + Live(es[|es|..]) + Live(os[|es|..]) == {tab, other};
    assert (mc - {tab} - {other}).Keys == m.Keys;
  }

  /** `if (p) free(p)` */
  method FreeOpt(heap: Heap, p: Ptr)
    requires OptPtr(p) <= heap.cells.Keys
    modifies heap`cells
    ensures heap.cells == old(heap.cells) - OptPtr(p)
  {
    if p != NULL {
      heap.Free(p);
    }
  }

  /** The failure path of print_object: every entry, then both tables. */
  method FreePair(heap: Heap, names: Ptr, entries: Ptr, n: nat, ghost m: Cells, ghost ns: seq<Ptr>, ghost es: seq<Ptr>)
    requires Left(m, heap.cells, names, ns, entries, es, 0) && n == |es|
    modifies heap`cells
    ensures heap.cells == m
  {
    var i := 0;
    while i < n
      invariant i <= n && Left(m, heap.cells, names, ns, entries, es, i)
    {
      hide Live, Distinct;
      LeftStep(m, heap.cells, names, ns, entries, es, i);
      FreeOpt(heap, heap.cells[names].ptrs[i]);
      FreeOpt(heap, heap.cells[entries].ptrs[i]);
      i := i + 1;
    }
    LeftDone(m, heap.cells, names, ns, entries, es);
    heap.Free(names);
    heap.Free(entries);
  }

  /** Slots below `k` hold their texts, or NULL where printing failed, which
      excludes `full`. */
  ghost predicate Stored(mc: Cells, es: seq<Ptr>, texts: seq<string>, k: nat, full: bool) {
    && k <= |es| == |texts|
    && (forall j :: 0 <= j < k ==> if es[j] == NULL then !full else TextAt(mc, es[j], texts[j]))
    && (forall j :: k <= j < |es| ==> es[j] == NULL)
  }

  lemma StoredKept(mc: Cells, mc': Cells, tab: Ptr, es: seq<Ptr>, texts: seq<string>, k: nat, full: bool, full': bool)
    requires Stored(mc, es, texts, k, full) && tab !in Live(es) && (full' ==> full)
    requires forall x :: x in mc && x != tab ==> x in mc' && mc'[x] == mc[x]
    ensures Stored(mc', es, texts, k, full')
  {
    hide TextAt;
    forall j | 0 <= j < k && es[j] != NULL ensures TextAt(mc', es[j], texts[j]) {
      assert es[j] in es;
      TextUnder(mc, mc', tab, es[j], texts[j]);
    }
  }

  lemma TextUnder(mc: Cells, mc': Cells, tab: Ptr, e: Ptr, text: string)
    requires TextAt(mc, e, text) && e != tab && forall x :: x in mc && x != tab ==> x in mc' && mc'[x] == mc[x]
    ensures TextAt(mc', e, text)
  {
  }

  /** `names[i] = ret` for a string just printed, or NULL. */
  method Store(heap: Heap, tab: Ptr, i: nat, ret: Ptr, ghost m: Cells, ghost m1: Cells, ghost es: seq<Ptr>,
               ghost other: Ptr, ghost os: seq<Ptr>, ghost texts: seq<string>, ghost full: bool)
    returns (ghost es': seq<Ptr>)
    requires Left(m, m1, tab, es, other, os, 0) && i < |es| && Stored(m1, es, texts, i, full)
    requires Result(heap, m1, ret, texts[i])
    modifies heap`cells
    ensures es' == es[i := ret] && Left(m, heap.cells, tab, es', other, os, 0)
    ensures Stored(heap.cells, es', texts, i + 1, full && ret != NULL)
    ensures forall x :: x in m1 && x != tab ==> x in heap.cells && heap.cells[x] == m1[x]
    ensures ret != NULL ==> TextAt(heap.cells, ret, texts[i])
  {
    hide Live, Distinct, TextAt;
    es' := es[i := ret];
    ghost var m2 := heap.cells;
    LeftStore(m, m1, m2, tab, es, other, os, i, ret);
    heap.cells := heap.cells[tab := Table(heap.cells[tab].ptrs[i := ret])];
    assert es[0..] == es;
    StoredKept(m1, heap.cells, tab, es, texts, i, full, full && ret != NULL);
    if ret != NULL {
      TextUnder(m2, heap.cells, tab, ret, texts[i]);
    }
  }

  lemma LeftStore(m: Cells, m1: Cells, m2: Cells, tab: Ptr, es: seq<Ptr>, other: Ptr, os: seq<Ptr>, i: nat, ret: Ptr)
    requires Left(m, m1, tab, es, other, os, 0) && i < |es| && es[i] == NULL && Extra(m1, m2, OptPtr(ret))
    ensures Left(m, m2[tab := Table(es[i := ret])], tab, es[i := ret], other, os, 0)
    ensures tab in m2 && m2[tab] == Table(es)
  {
    hide Live, Distinct;
    var es', s := es[i := ret], {tab, other} + Live(es) + Live(os);
    assert es[0..] == es && os[0..] == os && es'[0..] == es';
    LiveSet(es, i, ret);
    ExtraTwice(m, m1, m2, s, OptPtr(ret));
    assert s + OptPtr(ret) == {tab, other} + Live(es') + Live(os);
  }

  /** Both tables allocated and cleared. */
  lemma LeftNew(m: Cells, m1: Cells, m2: Cells, tab: Ptr, es: seq<Ptr>, other: Ptr, os: seq<Ptr>)
    requires Extra(m, m1, {tab}) && Extra(m1, m2, {other}) && tab != NULL && other != NULL && |es| == |os|
    requires m1[tab] == Table(es) && m2[other] == Table(os)
    requires forall k :: 0 <= k < |es| ==> es[k] == NULL && os[k] == NULL
    ensures Left(m, m2, other, os, tab, es, 0)
  {
    LiveNone(es);
    LiveNone(os);
    assert es[0..] == es && os[0..] == os;
    assert {other, tab} + Live(os) + Live(es) == {tab} + {other};
  }
}
