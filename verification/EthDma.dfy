/** Copying a chain of packet pieces into a ring of fixed-size DMA buffers, and
    back into a chain cut up in any other way. */
module EthDma {

  type byte = x: int | 0 <= x < 256

  /** One DMA descriptor. `own` is the OWN bit of its status word. */
  class Descriptor {
    var own: bool
    const buffer: array<byte>
    var next: Descriptor?

    constructor (buffer: array<byte>)
      ensures this.buffer == buffer && !own && next == null
    {
      this.buffer := buffer;
      own, next := false, null;
    }
  }

  function Concat(ps: seq<seq<byte>>): seq<byte> {
    if ps == [] then [] else ps[0] + Concat(ps[1..])
  }

  lemma {:induction false} ConcatAppend(ps: seq<seq<byte>>, qs: seq<seq<byte>>)
    ensures Concat(ps + qs) == Concat(ps) + Concat(qs)
  {
    if ps == [] {
      assert ps + qs == qs;
    } else {
      assert (ps + qs)[1..] == ps[1..] + qs;
      ConcatAppend(ps[1..], qs);
      assert ps[0] + (Concat(ps[1..]) + Concat(qs)) == ps[0] + Concat(ps[1..]) + Concat(qs);
    }
  }

  /** The first `k` pieces and one more. */
  lemma ConcatTake(ps: seq<seq<byte>>, k: nat)
    requires k < |ps|
    ensures Concat(ps[..k + 1]) == Concat(ps[..k]) + ps[k]
    ensures Concat(ps) == Concat(ps[..k]) + (ps[k] + Concat(ps[k + 1..]))
  {
    hide Concat;
    ConcatSnoc(ps, k);
    ConcatFrom(ps, k);
    ConcatCut(ps, k);
  }

  lemma ConcatSnoc(ps: seq<seq<byte>>, k: nat)
    requires k < |ps|
    ensures Concat(ps[..k + 1]) == Concat(ps[..k]) + ps[k]
  {
    hide Concat;
    assert ps[..k + 1] == ps[..k] + [ps[k]];
    ConcatAppend(ps[..k], [ps[k]]);
    ConcatOne(ps[k]);
  }

  lemma ConcatCut(ps: seq<seq<byte>>, k: nat)
    requires k < |ps|
    ensures Concat(ps) == Concat(ps[..k]) + Concat(ps[k..])
  {
    hide Concat;
    assert ps == ps[..k] + ps[k..];
    ConcatAppend(ps[..k], ps[k..]);
  }

  lemma ConcatFrom(ps: seq<seq<byte>>, k: nat)
    requires k < |ps|
    ensures Concat(ps[k..]) == ps[k] + Concat(ps[k + 1..])
  {
    assert ps[k..][1..] == ps[k + 1..];
  }

  lemma ConcatOne(p: seq<byte>)
    ensures Concat([p]) == p
  {
    assert Concat([p]) == p + Concat([]);
  }

  /** How many buffers of `size` bytes `n` bytes take; one even for none. */
  function Needed(n: nat, size: nat): nat
    requires size > 0
  {
    if n <= size then 1 else 1 + Needed(n - size, size)
  }

  /** That is the least number of buffers that hold them all, but never none. */
  lemma {:induction false} NeededLeast(n: nat, size: nat, k: nat)
    requires size > 0
    ensures Needed(n, size) <= k <==> 1 <= k && n <= k * size
    decreases n
  {
    if n > size && k > 0 {
      NeededLeast(n - size, size, k - 1);
      assert (k - 1) * size == k * size - size;
    }
    if n > size {
      assert k == 0 ==> k * size == 0;
    }
  }

  // ----- the ring

  /** The descriptors in chain order from the current one; the last leads back to
      the first, and no buffer is used twice. */
  ghost predicate Ring(ring: seq<Descriptor>, size: nat)
    reads ring
  {
    && |ring| > 0 && size > 0
    && (forall i :: 0 <= i < |ring| ==> ring[i].buffer.Length == size)
    && (forall i :: 0 <= i < |ring| ==> ring[i].next == if i + 1 < |ring| then ring[i + 1] else ring[0])
    && (forall i, j :: 0 <= i < j < |ring| ==> ring[i] != ring[j] && ring[i].buffer != ring[j].buffer)
  }

  ghost function Buffers(ring: seq<Descriptor>): set<object> {
    set d | d in ring :: d.buffer
  }

  ghost function Rows(ring: seq<Descriptor>): (rows: seq<seq<byte>>)
    reads Buffers(ring)
    ensures |rows| == |ring| && forall i :: 0 <= i < |ring| ==> rows[i] == ring[i].buffer[..]
  {
    if ring == [] then [] else [ring[0].buffer[..]] + Rows(ring[1..])
  }

  /** All rows are `size` long. */
  ghost predicate Sized(rows: seq<seq<byte>>, size: nat) {
    forall i :: 0 <= i < |rows| ==> |rows[i]| == size
  }

  /** What stands in the ring up to offset `o` of row `r`. */
  ghost function Written(rows: seq<seq<byte>>, r: nat, o: nat): seq<byte>
    requires r < |rows| && o <= |rows[r]|
  {
    Concat(rows[..r]) + rows[r][..o]
  }

  lemma WrittenSplit(rows: seq<seq<byte>>, r: nat, o: nat)
    requires r < |rows| && o <= |rows[r]|
    ensures Concat(rows) == Written(rows, r, o) + (rows[r][o..] + Concat(rows[r + 1..]))
  {
    ConcatTake(rows, r);
    assert rows[r] == rows[r][..o] + rows[r][o..];
    var a, b, c, d := Concat(rows[..r]), rows[r][..o], rows[r][o..], Concat(rows[r + 1..]);
    assert a + ((b + c) + d) == (a + b) + (c + d);
  }

  /** Putting bytes at the end of what is written. */
  lemma WriteMore(rows: seq<seq<byte>>, rows': seq<seq<byte>>, r: nat, o: nat, t: seq<byte>)
    requires r < |rows| && o + |t| <= |rows[r]|
    requires rows' == rows[r := rows[r][..o] + t + rows[r][o + |t|..]]
    ensures Written(rows', r, o + |t|) == Written(rows, r, o) + t
    ensures rows'[r][o + |t|..] + Concat(rows'[r + 1..]) == (rows[r][o..] + Concat(rows[r + 1..]))[|t|..]
  {
    assert rows'[..r] == rows[..r] && rows'[r + 1..] == rows[r + 1..];
    assert rows'[r][..o + |t|] == rows[r][..o] + t;
    assert Concat(rows[..r]) + (rows[r][..o] + t) == Concat(rows[..r]) + rows[r][..o] + t;
    assert rows'[r][o + |t|..] == rows[r][o + |t|..] == rows[r][o..][|t|..];
  }

  /** A full row is the same position as the start of the next one. */
  lemma NextRow(rows: seq<seq<byte>>, r: nat)
    requires r + 1 < |rows|
    ensures Written(rows, r + 1, 0) == Written(rows, r, |rows[r]|)
    ensures rows[r + 1][0..] + Concat(rows[r + 2..]) == rows[r][|rows[r]|..] + Concat(rows[r + 1..])
  {
    ConcatTake(rows, r);
    assert rows[r][..|rows[r]|] == rows[r];
    assert Concat(rows[..r + 1]) + [] == Concat(rows[..r + 1]);
    assert rows[r + 1..][1..] == rows[r + 2..] && rows[r + 1][0..] == rows[r + 1];
  }

  /** memcpy into a buffer. */
  method Memcpy(dst: array<byte>, at: nat, src: seq<byte>)
    requires at + |src| <= dst.Length
    modifies dst
    ensures dst[..] == old(dst[..at]) + src + old(dst[at + |src|..])
  {
    var i := 0;
    while i < |src|
      invariant 0 <= i <= |src|
      invariant dst[..at] == old(dst[..at]) && dst[at..at + i] == src[..i]
                && dst[at + |src|..] == old(dst[at + |src|..])
    {
      dst[at + i] := src[i];
      assert dst[at..at + i + 1] == dst[at..at + i] + [src[i]];
      i := i + 1;
    }
    assert dst[..] == dst[..at] + dst[at..at + |src|] + dst[at + |src|..];
  }

  /** memcpy into the buffer of one descriptor: the other rows stay. */
  method FillRow(ghost ring: seq<Descriptor>, ghost r: nat, desc: Descriptor, o: nat, t: seq<byte>, ghost size: nat)
    requires Ring(ring, size) && r < |ring| && desc == ring[r] && o + |t| <= size
    modifies desc.buffer
    ensures Ring(ring, size)
    ensures Rows(ring) == old(Rows(ring))[r := old(Rows(ring))[r][..o] + t + old(Rows(ring))[r][o + |t|..]]
  {
    ghost var rows := Rows(ring);
    Memcpy(desc.buffer, o, t);
    assert forall i :: 0 <= i < |ring| && i != r ==> Rows(ring)[i] == rows[i];
  }

  // ----- transmit

  /** What a finished transmission says of the ring as it was. */
  ghost predicate AllFree(ring: seq<Descriptor>, k: nat)
    reads ring
  {
    forall i :: 0 <= i < |ring| && i < k ==> !ring[i].own
  }

  /** Progress of the copy: `done` bytes are out, at offset `o` of row `r`, after
      `turns` moves to a next descriptor. While the frame fits, the bytes stand at
      the front of the ring and everything behind them is as it was. */
  ghost predicate Sent(ring: seq<Descriptor>, size: nat, before: seq<seq<byte>>, all: seq<byte>, r: nat, o: nat,
                       done: nat, turns: nat)
    reads ring, Buffers(ring)
  {
    && Ring(ring, size) && r < |ring| && o <= size && done <= |all|
    && r <= turns && (turns < |ring| ==> r == turns)
    && Needed(|all|, size) == turns + Needed(o + |all| - done, size)
    && (|all| <= |Concat(before)| ==>
          && turns < |ring| && Written(Rows(ring), r, o) == all[..done]
          && Rows(ring)[r][o..] + Concat(Rows(ring)[r + 1..]) == Concat(before)[done..])
  }

  lemma StartSending(ring: seq<Descriptor>, size: nat, all: seq<byte>)
    requires Ring(ring, size)
    ensures Sent(ring, size, Rows(ring), all, 0, 0, 0, 0)
  {
    var rows := Rows(ring);
    WrittenSplit(rows, 0, 0);
    assert rows[0][..0] == [] && Concat(rows[..0]) == [];
  }

  /** A part of the frame that fits into the current buffer. */
  method CopyPart(ghost ring: seq<Descriptor>, desc: Descriptor, o: nat, t: seq<byte>, size: nat,
                  ghost before: seq<seq<byte>>, ghost all: seq<byte>, ghost r: nat, ghost done: nat, ghost turns: nat)
    requires Sent(ring, size, before, all, r, o, done, turns) && desc == ring[r]
    requires o + |t| <= size && done + |t| <= |all| && all[done..done + |t|] == t
    modifies desc.buffer
    ensures Sent(ring, size, before, all, r, o + |t|, done + |t|, turns)
  {
    hide Needed;
    ghost var rows := Rows(ring);
    FillRow(ring, r, desc, o, t, size);
    WriteMore(rows, Rows(ring), r, o, t);
    if |all| <= |Concat(before)| {
      assert all[..done + |t|] == all[..done] + t;
      assert Concat(before)[done..][|t|..] == Concat(before)[done + |t|..];
    }
  }

  /** Moving on from a full buffer while bytes are left. */
  lemma MoveOn(ring: seq<Descriptor>, size: nat, before: seq<seq<byte>>, all: seq<byte>, r: nat, done: nat, turns: nat)
    requires Sent(ring, size, before, all, r, size, done, turns) && done < |all|
    ensures Sent(ring, size, before, all, if r + 1 < |ring| then r + 1 else 0, 0, done, turns + 1)
    ensures Needed(|all|, size) >= turns + 2
  {
    var rows := Rows(ring);
    assert Needed(size + |all| - done, size) == 1 + Needed(|all| - done, size);
    if r + 1 < |ring| {
      NextRow(rows, r);
    } else {
      assert rows[r][size..] + Concat(rows[r + 1..]) == [];
    }
  }

  /** The copy loops of rt_stm32_eth_tx. A frame is accepted exactly when the
      descriptors it needs are free; a frame that fits the ring then stands in it
      contiguously, the rest of the ring unchanged. */
  method Transmit(ring: seq<Descriptor>, chain: seq<seq<byte>>, size: nat) returns (ok: bool, framelength: nat)
    requires Ring(ring, size)
    modifies Buffers(ring)
    ensures Ring(ring, size)
    ensures ok <==> chain == [] || AllFree(ring, Needed(|Concat(chain)|, size))
    ensures ok ==> framelength == |Concat(chain)|
    ensures ok && |Concat(chain)| <= |Concat(old(Rows(ring)))| ==>
              Concat(Rows(ring)) == Concat(chain) + Concat(old(Rows(ring)))[|Concat(chain)|..]
  {
    hide Ring, Sent, AllFree, Needed;
    ghost var before, all := Rows(ring), Concat(chain);
    StartSending(ring, size, all);
    var desc := ring[0];
    var bufferoffset: nat := 0;
    framelength := 0;
    ok := false;
    ghost var r: nat, turns: nat := 0, 0;
    var q := 0;
    assert chain[..0] == [];
    while q < |chain|
      invariant q <= |chain| && Sent(ring, size, before, all, r, bufferoffset, framelength, turns)
      invariant r < |ring| && desc == ring[r] && framelength == |Concat(chain[..q])|
      invariant (q > 0 ==> AllFree(ring, turns + 1)) && (q == 0 ==> turns == 0)
    {
      if desc.own {
        Refused(ring, size, before, all, r, bufferoffset, framelength, turns);
        ok := false;
        return;
      }
      ConcatTake(chain, q);
      FirstFree(ring, size, before, all, r, bufferoffset, framelength, turns, q);
      bufferoffset, desc, ok, r, turns := CopyPiece(ring, desc, bufferoffset, chain[q], size, before, all, r,
            framelength, turns);
      if !ok {
        return;
      }
      framelength := framelength + |chain[q]|;
      q := q + 1;
    }
    ok := true;
    assert chain[..q] == chain;
    AllSent(ring, size, before, all, r, bufferoffset, turns);
  }

  lemma AllSent(ring: seq<Descriptor>, size: nat, before: seq<seq<byte>>, all: seq<byte>, r: nat, o: nat, turns: nat)
    requires Sent(ring, size, before, all, r, o, |all|, turns)
    ensures Needed(|all|, size) == turns + 1 && Ring(ring, size)
    ensures |all| <= |Concat(before)| ==> Concat(Rows(ring)) == all + Concat(before)[|all|..]
  {
    if |all| <= |Concat(before)| {
      WrittenSplit(Rows(ring), r, o);
      assert all[..|all|] == all;
    }
  }

  /** One piece of the chain, over as many buffers as it takes. The inner loop may
      copy nothing when the buffer is exactly full. */
  method CopyPiece(ghost ring: seq<Descriptor>, desc0: Descriptor, o0: nat, payload: seq<byte>, size: nat,
                   ghost before: seq<seq<byte>>, ghost all: seq<byte>, ghost r0: nat, ghost done0: nat,
                         ghost turns0: nat)
    returns (bufferoffset: nat, desc: Descriptor, ok: bool, ghost r: nat, ghost turns: nat)
    requires Sent(ring, size, before, all, r0, o0, done0, turns0) && r0 < |ring| && desc0 == ring[r0]
              && AllFree(ring, turns0 + 1)
    requires done0 + |payload| <= |all| && all[done0..done0 + |payload|] == payload
    modifies Buffers(ring)
    ensures ok ==>
              && Sent(ring, size, before, all, r, bufferoffset, done0 + |payload|, turns)
              && r < |ring| && desc == ring[r] && AllFree(ring, turns + 1)
    ensures !ok ==> Ring(ring, size) && !AllFree(ring, Needed(|all|, size))
  {
    hide Ring, Sent, AllFree, Needed;
    bufferoffset, desc, r, turns, ok := o0, desc0, r0, turns0, false;
    var left: nat, payloadoffset: nat := |payload|, 0;
    SentFacts(ring, size, before, all, r, bufferoffset, done0, turns);
    while left + bufferoffset > size
      invariant left + payloadoffset == |payload| && 0 <= bufferoffset <= size && size > 0
      invariant Sent(ring, size, before, all, r, bufferoffset, done0 + payloadoffset, turns)
      invariant r < |ring| && desc == ring[r] && AllFree(ring, turns + 1)
      decreases left, bufferoffset
    {
      var part := size - bufferoffset;
      PieceOf(all, payload, done0, payloadoffset, part);
      CopyPart(ring, desc, bufferoffset, payload[payloadoffset..payloadoffset + part], size, before, all, r,
            done0 + payloadoffset, turns);
      SentFacts(ring, size, before, all, r, size, done0 + payloadoffset + part, turns);
      MoveOn(ring, size, before, all, r, done0 + payloadoffset + part, turns);
      NextLinked(ring, size, r);
      desc := desc.next;
      r := if r + 1 < |ring| then r + 1 else 0;
      turns := turns + 1;
      if desc.own {
        Refused(ring, size, before, all, r, 0, done0 + payloadoffset + part, turns);
        return;
      }
      NextFree(ring, size, before, all, r, 0, done0 + payloadoffset + part, turns);
      left, payloadoffset := left - part, payloadoffset + part;
      bufferoffset := 0;
    }
    PieceOf(all, payload, done0, payloadoffset, left);
    CopyPart(ring, desc, bufferoffset, payload[payloadoffset..payloadoffset + left], size, before, all, r,
          done0 + payloadoffset, turns);
    bufferoffset := bufferoffset + left;
    ok := true;
  }

  lemma PieceOf(all: seq<byte>, payload: seq<byte>, done: nat, at: nat, n: nat)
    requires done + |payload| <= |all| && all[done..done + |payload|] == payload && at + n <= |payload|
    ensures all[done + at..done + at + n] == payload[at..at + n]
  {
    var a, b := all[done + at..done + at + n], payload[at..at + n];
    forall k | 0 <= k < n ensures a[k] == b[k] {
      assert all[done..done + |payload|][at + k] == all[done + at + k];
    }
  }

  lemma SentFacts(ring: seq<Descriptor>, size: nat, before: seq<seq<byte>>, all: seq<byte>, r: nat, o: nat, done: nat,
                  turns: nat)
    requires Sent(ring, size, before, all, r, o, done, turns)
    ensures Ring(ring, size) && size > 0 && r < |ring| && o <= size && done <= |all|
    ensures r <= turns < Needed(|all|, size) && ring[r].buffer in Buffers(ring)
  {
  }

  lemma NextLinked(ring: seq<Descriptor>, size: nat, r: nat)
    requires Ring(ring, size) && r < |ring|
    ensures ring[r].next == (if r + 1 < |ring| then ring[r + 1] else ring[0])
  {
  }

  /** A busy descriptor is one the frame needs. */
  lemma Refused(ring: seq<Descriptor>, size: nat, before: seq<seq<byte>>, all: seq<byte>, r: nat, o: nat, done: nat,
                turns: nat)
    requires Sent(ring, size, before, all, r, o, done, turns) && ring[r].own
    ensures Ring(ring, size) && !AllFree(ring, Needed(|all|, size))
  {
    SentFacts(ring, size, before, all, r, o, done, turns);
  }

  lemma FirstFree(ring: seq<Descriptor>, size: nat, before: seq<seq<byte>>, all: seq<byte>, r: nat, o: nat, done: nat,
                  turns: nat, q: nat)
    requires Sent(ring, size, before, all, r, o, done, turns) && !ring[r].own
              && (q > 0 ==> AllFree(ring, turns + 1)) && (q == 0 ==> turns == 0)
    ensures AllFree(ring, turns + 1)
  {
  }

  lemma NextFree(ring: seq<Descriptor>, size: nat, before: seq<seq<byte>>, all: seq<byte>, r: nat, o: nat, done: nat,
                 turns: nat)
    requires Sent(ring, size, before, all, r, o, done, turns) && turns > 0 && !ring[r].own && AllFree(ring, turns)
    ensures AllFree(ring, turns + 1)
  {
  }

  // ----- receive

  /** The chain pbuf_alloc returned: its payloads overlap neither each other nor
      the ring. */
  ghost predicate Separate(ring: seq<Descriptor>, chain: seq<array<byte>>)
    reads ring
  {
    && (forall i, j :: 0 <= i < j < |chain| ==> chain[i] != chain[j])
    && (forall i, j :: 0 <= i < |chain| && 0 <= j < |ring| ==> chain[i] != ring[j].buffer)
  }

  ghost function Payloads(chain: seq<array<byte>>): (ps: seq<seq<byte>>)
    reads chain
    ensures |ps| == |chain| && forall i :: 0 <= i < |chain| ==> ps[i] == chain[i][..]
  {
    if chain == [] then [] else [chain[0][..]] + Payloads(chain[1..])
  }

  function Total(chain: seq<array<byte>>): nat {
    if chain == [] then 0 else chain[0].Length + Total(chain[1..])
  }

  lemma {:induction false} TotalAt(chain: seq<array<byte>>, k: nat)
    requires k < |chain|
    ensures Total(chain[k..]) == chain[k].Length + Total(chain[k + 1..])
  {
    assert chain[k..][1..] == chain[k + 1..];
  }

  /** Offset `o` of row `r` is byte `done` of what the ring holds. */
  ghost predicate Reading(rows: seq<seq<byte>>, size: nat, r: nat, o: nat, done: nat) {
    && Sized(rows, size) && r < |rows| && o <= size && done <= |Concat(rows)|
    && Written(rows, r, o) == Concat(rows)[..done]
  }

  lemma ReadPart(rows: seq<seq<byte>>, size: nat, r: nat, o: nat, done: nat, n: nat)
    requires Reading(rows, size, r, o, done) && o + n <= size
    ensures Reading(rows, size, r, o + n, done + n) && Concat(rows)[done..done + n] == rows[r][o..o + n]
  {
    hide Concat;
    var t := rows[r][o..o + n];
    WrittenSplit(rows, r, o + n);
    WrittenMore(rows, r, o, n);
    Slices(Concat(rows), Written(rows, r, o), t, rows[r][o + n..] + Concat(rows[r + 1..]));
  }

  lemma WrittenMore(rows: seq<seq<byte>>, r: nat, o: nat, n: nat)
    requires r < |rows| && o + n <= |rows[r]|
    ensures Written(rows, r, o + n) == Written(rows, r, o) + rows[r][o..o + n]
  {
    hide Concat;
    assert rows[r][..o + n] == rows[r][..o] + rows[r][o..o + n];
  }

  lemma Slices(all: seq<byte>, w: seq<byte>, t: seq<byte>, rest: seq<byte>)
    requires all == (w + t) + rest
    ensures all[..|w| + |t|] == w + t && all[|w|..|w| + |t|] == t
  {
  }

  lemma ReadOn(rows: seq<seq<byte>>, size: nat, r: nat, done: nat)
    requires Reading(rows, size, r, size, done) && done < |Concat(rows)|
    ensures r + 1 < |rows| && Reading(rows, size, r + 1, 0, done)
  {
    WrittenSplit(rows, r, size);
    if r + 1 < |rows| {
      NextRow(rows, r);
    }
  }

  /** Copying into one payload; everything else stays. */
  method CopyOut(ghost ring: seq<Descriptor>, ghost chain: seq<array<byte>>, ghost k: nat, q: array<byte>, at: nat,
                 t: seq<byte>)
    requires Separate(ring, chain) && k < |chain| && q == chain[k] && at + |t| <= q.Length
    modifies q
    ensures Separate(ring, chain) && Rows(ring) == old(Rows(ring))
    ensures forall i :: 0 <= i < |chain| && i != k ==> Payloads(chain)[i] == old(Payloads(chain))[i]
    ensures q[..at + |t|] == old(q[..at]) + t
  {
    ghost var rows := Rows(ring);
    Memcpy(q, at, t);
    assert q[..at + |t|] == q[..][..at + |t|];
    assert forall j :: 0 <= j < |ring| ==> Rows(ring)[j] == rows[j];
  }

  /** The copy loops of rt_stm32_eth_rx: the chain, however it is cut, receives the
      front of the ring in order. */
  method Receive(ring: seq<Descriptor>, chain: seq<array<byte>>, size: nat)
    requires Ring(ring, size) && Separate(ring, chain) && Total(chain) <= |Concat(Rows(ring))|
    modifies chain
    ensures Ring(ring, size) && Rows(ring) == old(Rows(ring))
    ensures Concat(Payloads(chain)) == Concat(Rows(ring))[..Total(chain)]
  {
    hide Ring, Reading, Separate, Concat, Payloads, Rows, Total;
    ghost var rows, all := Rows(ring), Concat(Rows(ring));
    ghost var r: nat, done: nat := 0, 0;
    StartReading(ring, size);
    var desc, bufferoffset: nat := ring[0], 0;
    var k := 0;
    assert chain[0..] == chain;
    NothingYet(Payloads(chain), all);
    while k < |chain|
      invariant k <= |chain| && Ring(ring, size) && Separate(ring, chain) && Rows(ring) == rows && |ring| == |rows|
      invariant Reading(rows, size, r, bufferoffset, done) && r < |ring| && desc == ring[r]
      invariant done + Total(chain[k..]) == Total(chain) && done <= |all|
      invariant Concat(Payloads(chain)[..k]) == all[..done]
    {
      TotalAt(chain, k);
      ghost var former := Payloads(chain);
      bufferoffset, desc, r := FillPayload(ring, chain, k, desc, bufferoffset, chain[k], size, rows, r, done);
      assert Payloads(chain)[..k] == former[..k];
      ConcatTake(Payloads(chain), k);
      assert all[..done + chain[k].Length] == all[..done] + all[done..done + chain[k].Length];
      done := done + chain[k].Length;
      k := k + 1;
    }
    assert Payloads(chain)[..k] == Payloads(chain) && chain[k..] == [];
    TotalNone(chain[k..]);
  }

  lemma NothingYet(ps: seq<seq<byte>>, all: seq<byte>)
    ensures Concat(ps[..0]) == all[..0]
  {
  }

  lemma TotalNone(chain: seq<array<byte>>)
    ensures chain == [] ==> Total(chain) == 0
  {
  }

  lemma StartReading(ring: seq<Descriptor>, size: nat)
    requires Ring(ring, size)
    ensures Reading(Rows(ring), size, 0, 0, 0) && |ring| > 0
  {
    hide Reading;
    RingSize(ring, size);
    StartRows(Rows(ring), size);
  }

  lemma StartRows(rows: seq<seq<byte>>, size: nat)
    requires Sized(rows, size) && |rows| > 0
    ensures Reading(rows, size, 0, 0, 0)
  {
    hide Sized, Concat;
    NothingYet(rows, Concat(rows));
    assert rows[0][..0] == [];
  }

  lemma RowsSized(ring: seq<Descriptor>, size: nat, r: nat)
    requires Ring(ring, size) && r < |ring|
    ensures |Rows(ring)[r]| == size == ring[r].buffer.Length && size > 0 && Rows(ring)[r] == ring[r].buffer[..]
  {
  }

  lemma ReadingBound(rows: seq<seq<byte>>, size: nat, r: nat, o: nat, done: nat)
    requires Reading(rows, size, r, o, done)
    ensures o <= size && r < |rows| && done <= |Concat(rows)| && |rows[r]| == size
  {
  }

  /** One payload, from as many buffers as it takes. */
  method FillPayload(ghost ring: seq<Descriptor>, ghost chain: seq<array<byte>>, ghost k: nat, desc0: Descriptor,
                     o0: nat, q: array<byte>, size: nat,
                     ghost rows: seq<seq<byte>>, ghost r0: nat, ghost done: nat)
    returns (bufferoffset: nat, desc: Descriptor, ghost r: nat)
    requires Ring(ring, size) && Separate(ring, chain) && k < |chain| && q == chain[k] && Rows(ring) == rows
              && |ring| == |rows|
    requires Reading(rows, size, r0, o0, done) && r0 < |ring| && desc0 == ring[r0] && done + q.Length <= |Concat(rows)|
    modifies q
    ensures Ring(ring, size) && Separate(ring, chain) && Rows(ring) == rows
    ensures Reading(rows, size, r, bufferoffset, done + q.Length) && r < |ring| && desc == ring[r]
    ensures done + q.Length <= |Concat(rows)| && q[..] == Concat(rows)[done..done + q.Length]
    ensures forall i :: 0 <= i < |chain| && i != k ==> Payloads(chain)[i] == old(Payloads(chain))[i]
  {
    hide Reading, Separate, Ring, Concat, Payloads, Rows;
    ghost var former := Payloads(chain);
    bufferoffset, desc, r := o0, desc0, r0;
    var left: nat, payloadoffset: nat := q.Length, 0;
    ReadingBound(rows, size, r, bufferoffset, done);
    RowsSized(ring, size, r);
    while left + bufferoffset > size
      invariant left + payloadoffset == q.Length && bufferoffset <= size
      invariant Ring(ring, size) && Separate(ring, chain) && Rows(ring) == rows
      invariant Reading(rows, size, r, bufferoffset, done + payloadoffset) && r < |ring| && desc == ring[r]
      invariant q[..payloadoffset] == Concat(rows)[done..done + payloadoffset]
      invariant forall i :: 0 <= i < |chain| && i != k ==> Payloads(chain)[i] == former[i]
      decreases left, bufferoffset
    {
      var part := size - bufferoffset;
      CopyStep(ring, chain, k, desc, bufferoffset, q, payloadoffset, part, size, rows, r, done);
      ReadOn(rows, size, r, done + payloadoffset + part);
      NextLinked(ring, size, r);
      desc := desc.next;
      r := r + 1;
      left, payloadoffset := left - part, payloadoffset + part;
      bufferoffset := 0;
    }
    CopyStep(ring, chain, k, desc, bufferoffset, q, payloadoffset, left, size, rows, r, done);
    assert q[..q.Length] == q[..];
    bufferoffset := bufferoffset + left;
  }

  /** `n` bytes of the current buffer go behind the first `at` of the payload. */
  method CopyStep(ghost ring: seq<Descriptor>, ghost chain: seq<array<byte>>, ghost k: nat, desc: Descriptor, o: nat,
                  q: array<byte>, at: nat, n: nat, ghost size: nat,
                  ghost rows: seq<seq<byte>>, ghost r: nat, ghost done: nat)
    requires Ring(ring, size) && Separate(ring, chain) && k < |chain| && q == chain[k] && Rows(ring) == rows
              && |ring| == |rows|
    requires Reading(rows, size, r, o, done + at) && r < |ring| && desc == ring[r] && o + n <= size
    requires at + n <= q.Length && done + q.Length <= |Concat(rows)| && q[..at] == Concat(rows)[done..done + at]
    modifies q
    ensures Ring(ring, size) && Separate(ring, chain) && Rows(ring) == rows
    ensures Reading(rows, size, r, o + n, done + at + n) && q[..at + n] == Concat(rows)[done..done + at + n]
    ensures forall i :: 0 <= i < |chain| && i != k ==> Payloads(chain)[i] == old(Payloads(chain))[i]
  {
    hide Reading, Separate, Ring, Concat, Payloads, Rows;
    RowsSized(ring, size, r);
    ReadPart(rows, size, r, o, done + at, n);
    CopyOut(ring, chain, k, q, at, desc.buffer[o..o + n]);
    JoinRange(Concat(rows), done, at, n);
  }

  lemma JoinRange(all: seq<byte>, done: nat, at: nat, n: nat)
    requires done + at + n <= |all|
    ensures all[done..done + at] + all[done + at..done + at + n] == all[done..done + at + n]
  {
  }

  /** The release loop: the first `segCount` descriptors go back to the DMA. */
  method Release(ring: seq<Descriptor>, segCount: nat, ghost size: nat)
    requires Ring(ring, size)
    modifies ring`own
    ensures forall i :: 0 <= i < |ring| ==> ring[i].own == (old(ring[i].own) || i < segCount)
  {
    var desc := ring[0];
    var i := 0;
    ghost var r: nat := 0;
    while i < segCount
      invariant i <= segCount && r < |ring| && desc == ring[r] && r <= i && (i < |ring| ==> r == i)
      invariant forall j :: 0 <= j < |ring| ==> ring[j].own == (old(ring[j].own) || j < i)
      invariant Ring(ring, size)
    {
      NextLinked(ring, size, r);
      desc.own := true;
      desc := desc.next;
      r := if r + 1 < |ring| then r + 1 else 0;
      i := i + 1;
    }
  }

  /** Scatter, then gather: whatever the pieces were and however the receiving
      chain is cut, the bytes come back. */
  method Loopback(ring: seq<Descriptor>, pieces: seq<seq<byte>>, chain: seq<array<byte>>, size: nat) returns (ok: bool)
    requires Ring(ring, size) && Separate(ring, chain)
    requires Total(chain) == |Concat(pieces)| <= |Concat(Rows(ring))|
    modifies Buffers(ring), chain
    ensures ok <==> pieces == [] || old(AllFree(ring, Needed(|Concat(pieces)|, size)))
    ensures ok ==> Concat(Payloads(chain)) == Concat(pieces)
  {
    hide Ring, Needed;
    ghost var rest := Concat(Rows(ring))[|Concat(pieces)|..];
    var n;
    ok, n := Transmit(ring, pieces, size);
    if ok {
      assert Concat(Rows(ring)) == Concat(pieces) + rest;
      assert Separate(ring, chain);
      Receive(ring, chain, size);
      assert (Concat(pieces) + rest)[..Total(chain)] == Concat(pieces);
    }
  }

  /** A frame longer than the whole ring is accepted as soon as every descriptor is
      free, and announced at its full length; the ring cannot hold it, whatever the
      loop leaves there. */
  method Overlong(ring: seq<Descriptor>, pieces: seq<seq<byte>>, size: nat) returns (ok: bool, framelength: nat)
    requires Ring(ring, size) && forall i :: 0 <= i < |ring| ==> !ring[i].own
    requires |Concat(pieces)| > |Concat(Rows(ring))|
    modifies Buffers(ring)
    ensures ok && framelength == |Concat(pieces)| && !(Concat(pieces) <= Concat(Rows(ring)))
  {
    hide Needed, Ring;
    ghost var before := Rows(ring);
    RingSize(ring, size);
    ok, framelength := Transmit(ring, pieces, size);
    RingSize(ring, size);
    SameSize(before, Rows(ring), size);
  }

  lemma RingSize(ring: seq<Descriptor>, size: nat)
    requires Ring(ring, size)
    ensures Sized(Rows(ring), size)
  {
  }

  lemma {:induction false} SameSize(rows: seq<seq<byte>>, rows': seq<seq<byte>>, size: nat)
    requires |rows| == |rows'| && Sized(rows, size) && Sized(rows', size)
    ensures |Concat(rows)| == |Concat(rows')|
    decreases |rows|
  {
    if rows != [] {
      SameSize(rows[1..], rows'[1..], size);
    }
  }
}
