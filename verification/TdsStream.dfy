/** The TDS scanner over the whole stream of received bytes: what is handled does not
    depend on how the stream is cut into calls. */
module TdsStream {
  import opened TdsQueue
  import opened TdsService

  /** One round at an offset, waiting for a frame's checksum byte: step 0 is to stop. */
  function Round(b: seq<byte>, o: nat): (r: Next)
    requires o + HEAD <= |b|
    ensures o + r.step <= |b| && (r.fault ==> r.step == 0)
  {
    var len := b[o + 1];
    if b[o] != FRAME_FIRST || len > SIZE then Next(1, false, false)
    else if |b| - o <= len then Next(0, false, false)
    else if len == 0 then Next(0, false, true)
    else if Sum(b[o..o + len - 1]) != b[o + len] then Next(9, false, false)
    else Next(len, true, false)
  }

  /** The scan of a stream. */
  function Stream(b: seq<byte>, o: nat): (r: Scanned)
    requires o <= |b|
    ensures o <= r.end <= |b|
    decreases |b| - o
  {
    if |b| - o < HEAD then Scanned(o, [], false)
    else
      var round := Round(b, o);
      if round.step == 0 then Scanned(o, [], round.fault)
      else
        var rest := Stream(b, o + round.step);
        Scanned(rest.end, (if round.hit then [o] else []) + rest.handled, rest.fault)
  }

  /** The scan of a buffer never compares a frame whose checksum byte has not been received. */
  predicate Received(b: seq<byte>, n: nat, o: nat)
    requires Window(b, n) && o <= n
    decreases n - o
  {
    if n - o < HEAD then true
    else if b[o] != FRAME_FIRST || b[o + 1] > SIZE then Received(b, n, o + 1)
    else
      var len := b[o + 1];
      if n - o <= len then n - o < len
      else if len == 0 then true
      else if Sum(b[o..o + len - 1]) != b[o + len] then Received(b, n, o + 9)
      else Received(b, n, o + len)
  }

  lemma {:induction false} ScanIsStream(b: seq<byte>, n: nat, o: nat)
    requires Window(b, n) && o <= n && Received(b, n, o)
    ensures Scan(b, n, o) == Stream(b[..n], o)
    decreases n - o
  {
    hide Scan, Step, Round;
    var r := b[..n];
    if n - o < HEAD {
      ScanEnds(b, n, o);
    } else {
      var step := Step(b, n, o);
      RoundIsStep(b, n, o);
      ScanOn(b, n, o, step.step, step.hit, step.fault);
      if step.step > 0 {
        ScanIsStream(b, n, o + step.step);
      }
    }
  }

  /** With the checksum byte received both scans take the same step. */
  lemma RoundIsStep(b: seq<byte>, n: nat, o: nat)
    requires Window(b, n) && o + HEAD <= n && Received(b, n, o)
    ensures Round(b[..n], o) == Step(b, n, o) && (Step(b, n, o).fault ==> Step(b, n, o).step == 0)
    ensures var k := Step(b, n, o).step; k > 0 ==> o + k <= n && Received(b, n, o + k)
  {
    hide Sum;
    var r, len := b[..n], b[o + 1];
    assert r[o] == b[o] && r[o + 1] == b[o + 1];
    if 0 < len < n - o {
      assert r[o..o + len - 1] == b[o..o + len - 1] && r[o + len] == b[o + len];
    }
  }

  function Shift(hs: seq<nat>, k: nat): (r: seq<nat>)
    ensures |r| == |hs| && forall i :: 0 <= i < |hs| ==> r[i] == hs[i] + k
  {
    seq(|hs|, i requires 0 <= i < |hs| => hs[i] + k)
  }

  lemma RoundShift(a: seq<byte>, b: seq<byte>, o: nat)
    requires o + HEAD <= |b|
    ensures Round(a + b, |a| + o) == Round(b, o)
  {
    hide Sum;
    var ab, p, len := a + b, |a| + o, b[o + 1];
    assert ab[p] == b[o] && ab[p + 1] == b[o + 1];
    if 0 < len < |b| - o {
      assert ab[p..p + len - 1] == b[o..o + len - 1] && ab[p + len] == b[o + len];
    }
  }

  lemma RoundMore(b: seq<byte>, more: seq<byte>, o: nat)
    requires o + HEAD <= |b| && (Round(b, o).step > 0 || Round(b, o).fault)
    ensures Round(b + more, o) == Round(b, o)
  {
    hide Sum;
    var bm, len := b + more, b[o + 1];
    assert bm[o] == b[o] && bm[o + 1] == b[o + 1];
    if 0 < len < |b| - o {
      assert bm[o..o + len - 1] == b[o..o + len - 1] && bm[o + len] == b[o + len];
    }
  }

  /** Bytes in front of the stream only move the offsets. */
  lemma {:induction false} StreamShift(a: seq<byte>, b: seq<byte>, o: nat)
    requires o <= |b|
    ensures var r := Stream(b, o);
            Stream(a + b, |a| + o) == Scanned(|a| + r.end, Shift(r.handled, |a|), r.fault)
    decreases |b| - o
  {
    hide Round, Shift;
    ShiftShort(o, |a|);
    if |b| - o >= HEAD {
      RoundShift(a, b, o);
      var round := Round(b, o);
      if round.step > 0 {
        var rest := Stream(b, o + round.step);
        StreamShift(a, b, o + round.step);
        assert |a| + o + round.step == |a| + (o + round.step);
        ShiftConcat(if round.hit then [o] else [], rest.handled, |a|);
      }
    }
  }

  lemma ShiftShort(o: nat, k: nat)
    ensures Shift([o], k) == [k + o] && Shift([], k) == []
  {
  }

  lemma ShiftConcat(hs: seq<nat>, hs': seq<nat>, k: nat)
    ensures Shift(hs + hs', k) == Shift(hs, k) + Shift(hs', k)
  {
  }

  /** More bytes behind: the scan goes on from where it stopped. */
  lemma {:induction false} StreamMore(b: seq<byte>, more: seq<byte>, o: nat)
    requires o <= |b| && !Stream(b, o).fault
    ensures var r := Stream(b, o);
            var r' := Stream(b + more, r.end);
            Stream(b + more, o) == Scanned(r'.end, r.handled + r'.handled, r'.fault)
    decreases |b| - o
  {
    hide Round;
    var r' := Stream(b + more, Stream(b, o).end);
    if |b| - o >= HEAD && Round(b, o).step > 0 {
      RoundMore(b, more, o);
      StreamMore(b, more, o + Round(b, o).step);
      Regroup(if Round(b, o).hit then [o] else [], Stream(b, o + Round(b, o).step).handled, r'.handled);
    } else {
      assert [] + r'.handled == r'.handled;
    }
  }

  lemma Regroup(a: seq<nat>, b: seq<nat>, c: seq<nat>)
    ensures a + (b + c) == (a + b) + c
  {
  }

  // ----- the service over many calls

  lemma TypesShift(a: seq<byte>, b: seq<byte>, hs: seq<nat>)
    ensures Types(a + b, Shift(hs, |a|)) == Types(b, hs)
  {
    var x, y := Types(a + b, Shift(hs, |a|)), Types(b, hs);
    assert forall i :: 0 <= i < |hs| ==> x[i] == y[i];
  }

  lemma TypesConcat(b: seq<byte>, hs: seq<nat>, hs': seq<nat>)
    ensures Types(b, hs + hs') == Types(b, hs) + Types(b, hs')
  {
  }

  /** Frames lie far enough inside for their type bytes not to depend on what follows. */
  predicate Inside(hs: seq<nat>, n: nat) {
    forall h :: h in hs ==> h + HEAD <= n
  }

  lemma {:induction false} HandledInside(b: seq<byte>, o: nat)
    requires o <= |b|
    ensures Inside(Stream(b, o).handled, |b|)
    decreases |b| - o
  {
    hide Round;
    if |b| - o >= HEAD && Round(b, o).step > 0 {
      HandledInside(b, o + Round(b, o).step);
    }
  }

  lemma TypesPrefix(b: seq<byte>, b': seq<byte>, n: nat, hs: seq<nat>)
    requires n <= |b| && n <= |b'| && b[..n] == b'[..n] && Inside(hs, n)
    ensures Types(b, hs) == Types(b', hs)
  {
    var x, y := Types(b, hs), Types(b', hs);
    forall i | 0 <= i < |hs| ensures x[i] == y[i] {
      assert hs[i] in hs;
      assert b[..n][hs[i] + 2] == b'[..n][hs[i] + 2];
    }
  }

  /** `consumed` and `handled` are what one scan of all bytes read so far gives. */
  ghost predicate OnTrack(consumed: seq<byte>, held: seq<byte>, handled: seq<byte>) {
    var r := Stream(consumed + held, 0);
    !r.fault && r.end == |consumed| && handled == Types(consumed + held, r.handled)
  }

  lemma StartOnTrack()
    ensures OnTrack([], [], [])
  {
    var none: seq<byte> := [];
    assert none + none == none;
  }

  /** One call, from the `n` bytes it scans, keeps it. */
  lemma CallOnTrack(consumed: seq<byte>, held: seq<byte>, handled: seq<byte>, w: seq<byte>, n: nat)
    requires OnTrack(consumed, held, handled) && Window(w, n) && |held| <= n && w[..|held|] == held
    requires Received(w, n, 0) && !Scan(w, n, 0).fault
    ensures var r := Scan(w, n, 0);
            && r.end <= n
            && OnTrack(consumed + w[..r.end], w[r.end..n], handled + Types(w, r.handled))
  {
    hide Stream, Scan, Received, Types;
    var r := Scan(w, n, 0);
    ScanIsStream(w, n, 0);
    var read, more, all := consumed + held, w[|held|..n], consumed + w[..n];
    assert w[..n] == held + more;
    assert all == read + more;
    var before := Stream(read, 0);
    StreamMore(read, more, 0);
    StreamShift(consumed, w[..n], 0);
    TypesConcat(all, before.handled, Shift(r.handled, |consumed|));
    HandledInside(read, 0);
    HandledInside(w[..n], 0);
    assert all[..|read|] == read == read[..|read|];
    TypesPrefix(all, read, |read|, before.handled);
    TypesShift(consumed, w[..n], r.handled);
    assert w[..n][..n] == w[..n];
    TypesPrefix(w[..n], w, n, r.handled);
    assert (consumed + w[..r.end]) + w[r.end..n] == all;
  }

  /** However the calls were cut, the bytes read determine what is consumed, what is
      held and which frames have been handled. */
  lemma CutsDoNotMatter(consumed: seq<byte>, held: seq<byte>, handled: seq<byte>,
                        consumed': seq<byte>, held': seq<byte>, handled': seq<byte>)
    requires OnTrack(consumed, held, handled) && OnTrack(consumed', held', handled')
    requires consumed + held == consumed' + held'
    ensures consumed == consumed' && held == held' && handled == handled'
  {
    hide Stream;
    var read := consumed + held;
    assert consumed == read[..|consumed|] && consumed' == (consumed' + held')[..|consumed'|];
    assert held == read[|consumed|..] && held' == (consumed' + held')[|consumed'|..];
  }

  /** Any number of calls, with bytes arriving at any time. `clean` is false when one
      of them compared a checksum byte not yet received, or met a length of 0. */
  method Serve(s: Service, calls: nat) returns (ghost clean: bool)
    requires s.Sane()
    modifies s`queueIn, s`queueOut, s`input, s`lost, s`rxIn, s`consumed, s`handled, s.slots, s.buf
    ensures s.Sane() && (old(s.Conserved()) ==> s.Conserved())
    ensures clean && old(OnTrack(s.consumed, s.buf[..s.rxIn], s.handled)) ==>
              OnTrack(s.consumed, s.buf[..s.rxIn], s.handled)
    ensures old(s.Conserved()) && !s.lost ==> s.consumed + s.buf[..s.rxIn] <= s.input
  {
    hide OnTrack, Received, Scan;
    clean := true;
    for i := 0 to calls
      invariant s.Sane() && (old(s.Conserved()) ==> s.Conserved())
      invariant clean && old(OnTrack(s.consumed, s.buf[..s.rxIn], s.handled)) ==>
                  OnTrack(s.consumed, s.buf[..s.rxIn], s.handled)
    {
      var fault;
      ghost var received;
      fault, received := ServeOnce(s);
      if fault {
        clean := false;
        return;
      }
      clean := clean && received;
    }
  }

  method ServeOnce(s: Service) returns (fault: bool, ghost received: bool)
    requires s.Sane()
    modifies s`queueIn, s`queueOut, s`input, s`lost, s`rxIn, s`consumed, s`handled, s.slots, s.buf
    ensures s.Sane() && (old(s.Conserved()) ==> s.Conserved())
    ensures !fault && received && old(OnTrack(s.consumed, s.buf[..s.rxIn], s.handled)) ==>
              OnTrack(s.consumed, s.buf[..s.rxIn], s.handled)
  {
    hide OnTrack, Received, Scan, Types, Contents, Valid;
    ghost var consumed, held, handled := s.consumed, s.buf[..s.rxIn], s.handled;
    ghost var w, n;
    fault, w, n := s.UartService();
    received := Received(w, n, 0);
    if !fault && received && OnTrack(consumed, held, handled) {
      CallOnTrack(consumed, held, handled, w, n);
    }
  }
}
