/** The TDS service: bytes from the queue into the process buffer, the frame
    scanner over it, and the compaction of what is left. */
module TdsService {
  import opened TdsQueue

  const HEAD: nat := 11
  const FRAME_FIRST: byte := 0x55

  function Sum(b: seq<byte>): (s: byte) {
    if b == [] then 0 else (Sum(b[..|b| - 1]) + b[|b| - 1]) % 256
  }

  /** What a checksum is: nothing for no bytes, the byte itself for one, and for two
      stretches of bytes the sum of theirs, modulo 256. */
  lemma SumLaws(x: byte, a: seq<byte>, b: seq<byte>)
    ensures Sum([]) == 0 && Sum([x]) == x && Sum(a + b) == (Sum(a) + Sum(b)) % 256
  {
    assert [x][..0] == [];
    hide Sum;
    SumConcat(a, b);
  }

  function Plus(x: byte, y: byte): byte {
    if x + y < 256 then x + y else x + y - 256
  }

  lemma PlusWraps(x: byte, y: byte)
    ensures Plus(x, y) == (x + y) % 256
  {
  }

  lemma PlusTwice(x: byte, y: byte, z: byte)
    ensures Plus(Plus(x, y), z) == Plus(x, Plus(y, z)) && Plus(x, 0) == x
  {
  }

  lemma SumSnoc(a: seq<byte>, x: byte)
    ensures Sum(a + [x]) == Plus(Sum(a), x)
  {
    assert (a + [x])[..|a|] == a;
    PlusWraps(Sum(a), x);
    hide Plus;
  }

  lemma {:induction false} SumConcat(a: seq<byte>, b: seq<byte>)
    ensures Sum(a + b) == Plus(Sum(a), Sum(b)) == (Sum(a) + Sum(b)) % 256
    decreases |b|
  {
    hide Plus;
    PlusWraps(Sum(a), Sum(b));
    if b == [] {
      assert a + b == a;
      PlusTwice(Sum(a), 0, 0);
    } else {
      hide Sum;
      var front, last := b[..|b| - 1], b[|b| - 1];
      SumConcat(a, front);
      assert b == front + [last];
      assert a + b == (a + front) + [last];
      SumSnoc(front, last);
      SumSnoc(a + front, last);
      PlusTwice(Sum(a), Sum(front), last);
    }
  }

  /** The process buffer, with the slot behind it that the checksum compare may read. */
  predicate Window(b: seq<byte>, n: nat) {
    |b| == SIZE + 1 && n <= SIZE
  }

  /** A frame at `o`: start byte, a length in range, and behind the `length` bytes a
      byte equal to the sum of all but the last of them. */
  predicate IsFrame(b: seq<byte>, o: nat) {
    && o + 1 < |b| && b[o] == FRAME_FIRST && 1 <= b[o + 1] <= SIZE
    && o + b[o + 1] < |b| && Sum(b[o..o + b[o + 1] - 1]) == b[o + b[o + 1]]
  }

  /** `fault`: the scan stopped at a start byte with the length 0, for which
      get_check_sum is asked for 65535 bytes and leaves the buffer. */
  datatype Scanned = Scanned(end: nat, handled: seq<nat>, fault: bool)

  /** The scan loop from offset `o`: where it stops and which frames it handles. */
  function Scan(b: seq<byte>, n: nat, o: nat): Scanned
    requires Window(b, n) && o <= n
    decreases n - o
  {
    if n - o < HEAD then Scanned(o, [], false)
    else if b[o] != FRAME_FIRST then Scan(b, n, o + 1)
    else
      var len := b[o + 1];
      if len > SIZE then Scan(b, n, o + 1)
      else if n - o < len then Scanned(o, [], false)
      else if len == 0 then Scanned(o, [], true)
      else if Sum(b[o..o + len - 1]) != b[o + len] then Scan(b, n, o + 9)
      else
        var rest := Scan(b, n, o + len);
        Scanned(rest.end, [o] + rest.handled, rest.fault)
  }

  /** `hs` are frames inside `lo..hi`, in order and without overlap. */
  predicate Frames(b: seq<byte>, lo: nat, hs: seq<nat>, hi: nat)
    decreases |hs|
  {
    if hs == [] then lo <= hi
    else lo <= hs[0] && IsFrame(b, hs[0]) && Frames(b, hs[0] + b[hs[0] + 1], hs[1..], hi)
  }

  lemma FramesFrom(b: seq<byte>, lo: nat, lo': nat, hs: seq<nat>, hi: nat)
    requires Frames(b, lo', hs, hi) && lo <= lo'
    ensures Frames(b, lo, hs, hi)
  {
  }

  /** The scan stays inside the received bytes and stops only where too few bytes for a
      head are left or a frame has not wholly arrived, so the buffer is never full; it
      faults only at a start byte with the length 0; what it handles are frames, in
      order, that do not overlap. */
  lemma {:induction false} ScanResult(b: seq<byte>, n: nat, o: nat)
    requires Window(b, n) && o <= n
    ensures var r := Scan(b, n, o);
            && o <= r.end <= n && Frames(b, o, r.handled, r.end)
            && (if r.fault then r.end + HEAD <= n && b[r.end] == FRAME_FIRST && b[r.end + 1] == 0
                else n - r.end < HEAD || (b[r.end] == FRAME_FIRST && n - r.end < b[r.end + 1] <= SIZE))
    decreases n - o
  {
    hide Frames, Scan, Step, Sum;
    if n - o < HEAD {
      ScanEnds(b, n, o);
      NoFrames(b, o, o);
    } else {
      var r := Step(b, n, o);
      ScanOn(b, n, o, r.step, r.hit, r.fault);
      StepFacts(b, n, o);
      if r.fault || r.step == 0 {
        NoFrames(b, o, o);
      } else {
        var rest := Scan(b, n, o + r.step);
        ScanResult(b, n, o + r.step);
        if r.hit {
          OneMoreFrame(b, o, rest.handled, rest.end);
        } else {
          FramesFrom(b, o, o + r.step, rest.handled, rest.end);
          assert [] + rest.handled == rest.handled;
        }
      }
    }
  }

  lemma StepFacts(b: seq<byte>, n: nat, o: nat)
    requires Window(b, n) && o + HEAD <= n
    ensures var r := Step(b, n, o);
            && (r.fault ==> r.step == 0 && b[o] == FRAME_FIRST && b[o + 1] == 0)
            && (r.step == 0 && !r.fault ==> b[o] == FRAME_FIRST && n - o < b[o + 1] <= SIZE)
            && (r.hit ==> IsFrame(b, o) && r.step == b[o + 1])
  {
    hide Sum;
  }

  lemma NoFrames(b: seq<byte>, lo: nat, hi: nat)
    requires lo <= hi
    ensures Frames(b, lo, [], hi)
  {
  }

  lemma OneMoreFrame(b: seq<byte>, o: nat, hs: seq<nat>, hi: nat)
    requires IsFrame(b, o) && Frames(b, o + b[o + 1], hs, hi)
    ensures Frames(b, o, [o] + hs, hi)
  {
    assert ([o] + hs)[1..] == hs;
  }

  /** A start byte with a length in range whose checksum is wrong. */
  predicate BadSum(b: seq<byte>, o: nat) {
    && o + 1 < |b| && b[o] == FRAME_FIRST && 1 <= b[o + 1] <= SIZE
    && o + b[o + 1] < |b| && Sum(b[o..o + b[o + 1] - 1]) != b[o + b[o + 1]]
  }

  /** Why a whole frame at `p` is not handled: it starts inside a handled frame, or
      less than nine bytes behind a start byte whose checksum was wrong. */
  predicate Hidden(b: seq<byte>, o: nat, hs: seq<nat>, p: nat) {
    || (exists h :: h in hs && h < p < h + (if h + 1 < |b| then b[h + 1] else 0))
    || (exists f: nat :: o <= f < p && p < f + 9 && BadSum(b, f))
  }

  /** Nothing else is missed: a whole frame in front of where the scan stopped is
      handled, or hidden for one of those two reasons. */
  lemma {:induction false} Complete(b: seq<byte>, n: nat, o: nat, p: nat)
    requires Window(b, n) && o <= p && p + HEAD <= n && p < Scan(b, n, o).end && IsFrame(b, p) && p + b[p + 1] <= n
    ensures p in Scan(b, n, o).handled || Hidden(b, o, Scan(b, n, o).handled, p)
    decreases n - o
  {
    hide Sum;
    var r := Scan(b, n, o);
    if n - o >= HEAD && o < p {
      var len := b[o + 1];
      if b[o] != FRAME_FIRST || len > SIZE {
        Complete(b, n, o + 1, p);
      } else if n - o >= len && len > 0 {
        if Sum(b[o..o + len - 1]) != b[o + len] {
          assert BadSum(b, o);
          if o + 9 <= p {
            Complete(b, n, o + 9, p);
          }
        } else {
          assert o in r.handled;
          if o + len <= p {
            CompleteStep(b, n, o, p);
          }
        }
      }
    }
  }

  lemma {:induction false} CompleteStep(b: seq<byte>, n: nat, o: nat, p: nat)
    requires Window(b, n) && o + HEAD <= n && IsFrame(b, o) && o + b[o + 1] <= n
    requires o + b[o + 1] <= p < Scan(b, n, o).end && IsFrame(b, p) && p + b[p + 1] <= n && p + HEAD <= n
    ensures p in Scan(b, n, o).handled || Hidden(b, o, Scan(b, n, o).handled, p)
    decreases n - o, 0
  {
    var next := o + b[o + 1];
    var hs := Scan(b, n, next).handled;
    assert Scan(b, n, o).handled == [o] + hs;
    Complete(b, n, next, p);
    if p !in hs {
      HiddenMore(b, o, next, hs, p);
    }
  }

  lemma HiddenMore(b: seq<byte>, o: nat, next: nat, hs: seq<nat>, p: nat)
    requires Hidden(b, next, hs, p) && o <= next
    ensures Hidden(b, o, [o] + hs, p)
  {
    if h :| h in hs && h < p < h + (if h + 1 < |b| then b[h + 1] else 0) {
      assert h in [o] + hs;
    }
  }

  /** Resynchronisation: behind any bytes without a start byte, a frame that has
      arrived with its checksum byte is the first one handled. */
  lemma {:induction false} Resynchronises(b: seq<byte>, n: nat, o: nat, p: nat)
    requires Window(b, n) && o <= p && p + HEAD <= n && IsFrame(b, p) && p + b[p + 1] <= n
    requires forall k :: o <= k < p ==> b[k] != FRAME_FIRST
    ensures var r := Scan(b, n, o); r.handled != [] && r.handled[0] == p
    decreases p - o
  {
    if o < p {
      Resynchronises(b, n, o + 1, p);
    }
  }

  /** Behind a start byte whose checksum is wrong nothing is handled within nine bytes,
      but a whole frame at the ninth is. */
  lemma BehindBadSum(b: seq<byte>, n: nat, o: nat)
    requires Window(b, n) && o + HEAD <= n && BadSum(b, o) && o + b[o + 1] <= n
    ensures forall h :: h in Scan(b, n, o).handled ==> h >= o + 9
    ensures o + 9 + HEAD <= n && IsFrame(b, o + 9) && o + 9 + b[o + 10] <= n ==>
              var hs := Scan(b, n, o).handled; hs != [] && hs[0] == o + 9
  {
    hide Sum;
    ScanResult(b, n, o + 9);
    FramesBehind(b, o + 9, Scan(b, n, o + 9).handled, Scan(b, n, o + 9).end);
    if o + 9 + HEAD <= n && IsFrame(b, o + 9) && o + 9 + b[o + 10] <= n {
      Resynchronises(b, n, o + 9, o + 9);
    }
  }

  lemma {:induction false} FramesBehind(b: seq<byte>, lo: nat, hs: seq<nat>, hi: nat)
    requires Frames(b, lo, hs, hi)
    ensures forall h :: h in hs ==> h >= lo
    decreases |hs|
  {
    if hs != [] {
      FramesBehind(b, hs[0] + b[hs[0] + 1], hs[1..], hi);
      assert forall h :: h in hs ==> h == hs[0] || h in hs[1..];
    }
  }

  /** Of the bytes behind the received ones the scan looks at one at most. */
  lemma {:induction false} ScanLocal(b: seq<byte>, b': seq<byte>, n: nat, o: nat)
    requires Window(b, n) && |b'| == |b| && o <= n && b[..n + 1] == b'[..n + 1]
    ensures Window(b', n) && Scan(b', n, o) == Scan(b, n, o)
    decreases n - o
  {
    hide Scan, Step;
    if n - o < HEAD {
      ScanEnds(b, n, o);
      ScanEnds(b', n, o);
    } else {
      var r := Step(b, n, o);
      StepLocal(b, b', n, o);
      ScanOn(b, n, o, r.step, r.hit, r.fault);
      ScanOn(b', n, o, r.step, r.hit, r.fault);
      if !r.fault && r.step > 0 {
        ScanLocal(b, b', n, o + r.step);
      }
    }
  }

  lemma StepLocal(b: seq<byte>, b': seq<byte>, n: nat, o: nat)
    requires Window(b, n) && Window(b', n) && o + HEAD <= n && b[..n + 1] == b'[..n + 1]
    ensures Step(b', n, o) == Step(b, n, o)
  {
    hide Sum;
    var p, len := b[..n + 1], b[o + 1];
    assert p[o] == b[o] == b'[o] && p[o + 1] == b[o + 1] == b'[o + 1];
    if 0 < len <= n - o {
      assert p[o..o + len - 1] == b[o..o + len - 1] == b'[o..o + len - 1];
      assert p[o + len] == b[o + len] == b'[o + len];
    }
  }

  /** When a frame's announced length is all that has arrived, the compare reads
      the slot behind: whether the frame is handled depends on a byte that has not
      been received. */
  lemma StaleByte(b: seq<byte>, n: nat, o: nat)
    requires Window(b, n) && o + HEAD <= n && b[o] == FRAME_FIRST && b[o + 1] == n - o
    ensures Scan(b, n, o).handled != [] && Scan(b, n, o).handled[0] == o <==> b[n] == Sum(b[o..n - 1])
  {
    if b[n] != Sum(b[o..n - 1]) {
      ScanResult(b, n, o + 9);
    }
  }

  // ----- my_memcpy

  /** An address in one memory; `src` and `dest` may overlap in any way. */
  const NULL: int := -1

  method MyMemcpy(mem: array<byte>, dest: int, src: int, count: nat) returns (r: int)
    requires dest == NULL || (0 <= dest && dest + count <= mem.Length)
    requires src == NULL || (0 <= src && src + count <= mem.Length)
    modifies mem
    ensures dest == NULL || src == NULL ==> r == NULL && mem[..] == old(mem[..])
    ensures dest != NULL && src != NULL ==>
              r == dest && mem[..] == old(mem[..])[..dest] + old(mem[..])[src..src + count] + old(mem[..])[dest + count..]
  {
    if dest == NULL || src == NULL {
      return NULL;
    }
    if dest <= src || dest > src + count {
      CopyUp(mem, dest, src, count);
    } else {
      CopyDown(mem, dest, src, count);
    }
    r := dest;
  }

  ghost predicate Copied(old_: seq<byte>, now: seq<byte>, dest: nat, src: nat, count: nat) {
    && |now| == |old_| && dest + count <= |old_| && src + count <= |old_|
    && (forall k :: 0 <= k < dest || dest + count <= k < |now| ==> now[k] == old_[k])
    && (forall k :: dest <= k < dest + count ==> now[k] == old_[src + k - dest])
  }

  lemma CopiedAll(old_: seq<byte>, now: seq<byte>, dest: nat, src: nat, count: nat)
    requires Copied(old_, now, dest, src, count)
    ensures now == old_[..dest] + old_[src..src + count] + old_[dest + count..]
  {
    var a, b, c := old_[..dest], old_[src..src + count], old_[dest + count..];
    assert now[..dest] == a && now[dest..dest + count] == b && now[dest + count..] == c;
    assert now == now[..dest] + now[dest..dest + count] + now[dest + count..];
  }

  method CopyUp(mem: array<byte>, dest: nat, src: nat, count: nat)
    requires dest + count <= mem.Length && src + count <= mem.Length && (dest <= src || dest > src + count)
    modifies mem
    ensures mem[..] == old(mem[..])[..dest] + old(mem[..])[src..src + count] + old(mem[..])[dest + count..]
  {
    var i := 0;
    while i < count
      invariant i <= count
      invariant forall k :: 0 <= k < dest || dest + i <= k < mem.Length ==> mem[k] == old(mem[k])
      invariant forall k :: dest <= k < dest + i ==> mem[k] == old(mem[src + k - dest])
    {
      mem[dest + i] := mem[src + i];
      i := i + 1;
    }
    CopiedAll(old(mem[..]), mem[..], dest, src, count);
  }

  method CopyDown(mem: array<byte>, dest: nat, src: nat, count: nat)
    requires dest + count <= mem.Length && src + count <= mem.Length && dest > src
    modifies mem
    ensures mem[..] == old(mem[..])[..dest] + old(mem[..])[src..src + count] + old(mem[..])[dest + count..]
  {
    var i := count;
    while i > 0
      invariant 0 <= i <= count
      invariant forall k :: 0 <= k < dest + i || dest + count <= k < mem.Length ==> mem[k] == old(mem[k])
      invariant forall k :: dest + i <= k < dest + count ==> mem[k] == old(mem[src + k - dest])
    {
      mem[dest + i - 1] := mem[src + i - 1];
      i := i - 1;
    }
    CopiedAll(old(mem[..]), mem[..], dest, src, count);
  }

  // ----- the service

  /** The module's static variables. `input` and `consumed` record what arrived and
      what the scanner has passed over, `handled` the handled frames' type bytes,
      `lost` that a byte arrived without room for it. */
  class Service {
    const slots: array<byte>
    var queueIn: nat
    var queueOut: nat
    const buf: array<byte>
    var rxIn: nat
    ghost var input: seq<byte>
    ghost var consumed: seq<byte>
    ghost var handled: seq<byte>
    ghost var lost: bool

    ghost function Q(): Queue
      reads this`queueIn, this`queueOut, slots
    {
      Queue(slots[..], queueIn, queueOut)
    }

    ghost predicate Sane()
      reads this`queueIn, this`queueOut, this`rxIn, slots
    {
      slots.Length == SIZE && buf.Length == SIZE + 1 && slots != buf && Valid(Q()) && rxIn <= SIZE
    }

    /** Received but not yet consumed. */
    ghost function Backlog(): seq<byte>
      requires Sane()
      reads this`queueIn, this`queueOut, this`rxIn, slots, buf
    {
      buf[..rxIn] + Contents(Q())
    }

    /** What arrived is what was consumed, is in the buffer, is in the queue, in this
        order, unless a byte arrived without room. */
    ghost predicate Conserved()
      requires Sane()
      reads this`queueIn, this`queueOut, this`rxIn, this`input, this`consumed, this`lost, slots, buf
    {
      !lost ==> input == consumed + Backlog()
    }

    constructor ()
      ensures Sane() && Conserved() && !lost && Contents(Q()) == [] && rxIn == 0
    {
      slots := new byte[SIZE](_ => 0);
      buf := new byte[SIZE + 1](_ => 0);
      queueIn, queueOut, rxIn := 0, 0, 0;
      input, consumed, handled, lost := [], [], [], false;
    }

    /** tds_uart_receive_input */
    method ReceiveInput(value: byte)
      requires Sane()
      modifies this`queueIn, this`input, this`lost, slots
      ensures Sane() && Q() == Put(old(Q()), value)
      ensures input == old(input) + [value] && lost == (old(lost) || !old(Room(Q())))
      ensures !lost ==> Contents(Q()) == old(Contents(Q())) + [value]
    {
      hide Contents, Put;
      PutExact(Q(), value);
      lost := lost || !Room(Q());
      PutByte(value);
      input := input + [value];
    }

    method PutByte(value: byte)
      requires Sane()
      modifies this`queueIn, slots
      ensures Q() == Put(old(Q()), value)
    {
      hide Contents;
      if queueOut - queueIn == 1 {
      } else if queueIn > queueOut && queueIn - queueOut >= SIZE {
      } else {
        if queueIn >= SIZE {
          queueIn := 0;
        }
        slots[queueIn] := value;
        queueIn := queueIn + 1;
      }
    }

    /** The receive interrupt, at any time and for any bytes. */
    method Interrupt() returns (ghost arrived: seq<byte>)
      requires Sane()
      modifies this`queueIn, this`input, this`lost, slots
      ensures Sane() && buf[..] == old(buf[..]) && (old(lost) ==> lost) && input == old(input) + arrived
      ensures !lost ==> Contents(Q()) == old(Contents(Q())) + arrived
      ensures old(Conserved()) ==> Conserved()
    {
      hide Contents, Valid, Room, Put;
      var n: nat := *;
      arrived := [];
      while n > 0
        invariant Sane() && buf[..] == old(buf[..]) && (old(lost) ==> lost) && input == old(input) + arrived
        invariant !lost ==> Contents(Q()) == old(Contents(Q())) + arrived
      {
        var value: byte := *;
        ReceiveInput(value);
        arrived := arrived + [value];
        n := n - 1;
      }
      assert buf[..rxIn] == old(buf[..])[..rxIn] == old(buf[..rxIn]);
      Appended(old(consumed), old(buf[..rxIn]), old(Contents(Q())), arrived);
    }

    /** Queue_Read_Byte */
    method QueueReadByte() returns (value: byte)
      requires Sane()
      modifies this`queueOut
      ensures Sane()
      ensures old(Contents(Q())) == [] ==> value == 0 && Contents(Q()) == []
      ensures old(Contents(Q())) != [] ==> old(Contents(Q())) == [value] + Contents(Q())
    {
      hide Contents;
      ghost var c := Contents(Q());
      EmptyTest(Q());
      value := 0;
      if queueOut != queueIn {
        ghost var rest := Take(Q());
        TakeFirst(Q());
        if queueOut >= SIZE {
          queueOut := 0;
        }
        value := slots[queueOut];
        queueOut := queueOut + 1;
        assert Q() == rest;
        assert c == [c[0]] + c[1..];
      }
    }

    /** The first loop of tds_uart_service; bytes may arrive between its steps. */
    method Fill()
      requires Sane()
      modifies this`queueIn, this`queueOut, this`input, this`lost, this`rxIn, slots, buf
      ensures Sane() && (old(Conserved()) ==> Conserved()) && (old(lost) ==> lost)
      ensures rxIn >= old(rxIn) && buf[..old(rxIn)] == old(buf[..rxIn])
      ensures !lost ==> rxIn >= if |old(Backlog())| < SIZE then |old(Backlog())| else SIZE
    {
      hide Contents, Valid;
      EmptyTest(Q());
      while rxIn < SIZE && queueIn != queueOut
        invariant Sane() && (old(Conserved()) ==> Conserved()) && (old(lost) ==> lost)
        invariant rxIn >= old(rxIn) && buf[..old(rxIn)] == old(buf[..rxIn])
        invariant !lost ==> |Backlog()| >= |old(Backlog())|
        invariant queueIn == queueOut <==> Contents(Q()) == []
        decreases SIZE - rxIn
      {
        ghost var k, front := old(rxIn), buf[..rxIn];
        Fetch();
        assert buf[..k] == front[..k];
        EmptyTest(Q());
      }
    }

    /** One byte from the queue into the buffer. */
    method Fetch()
      requires Sane() && rxIn < SIZE && Contents(Q()) != []
      modifies this`queueIn, this`queueOut, this`input, this`lost, this`rxIn, slots, buf
      ensures Sane() && rxIn == old(rxIn) + 1 && buf[..rxIn - 1] == old(buf[..rxIn])
      ensures (old(Conserved()) ==> Conserved()) && (old(lost) ==> lost)
      ensures !lost ==> |Backlog()| >= |old(Backlog())|
    {
      hide Contents, Valid, Room, Put;
      ghost var b := buf[..rxIn];
      ghost var arrived := Interrupt();
      assert buf[..rxIn] == old(buf[..])[..rxIn] == b;
      var v := QueueReadByte();
      ghost var c := Contents(Q());
      buf[rxIn] := v;
      assert Contents(Q()) == c;
      rxIn := rxIn + 1;
      assert buf[..rxIn] == b + [v];
      assert b + [v] + c == b + ([v] + c);
    }

    /** get_check_sum over the process buffer. */
    method GetCheckSum(from: nat, len: nat) returns (sum: byte)
      requires from + len <= buf.Length
      ensures sum == Sum(buf[from..from + len])
    {
      sum := 0;
      var i := 0;
      while i < len
        invariant i <= len && sum == Sum(buf[from..from + i])
      {
        assert buf[from..from + i + 1][..i] == buf[from..from + i];
        sum := (sum + buf[from + i]) % 256;
        i := i + 1;
      }
    }

    /** The second loop, with bytes arriving meanwhile: where it stops; the type byte
        of every handled frame is passed on. */
    method ScanBuffer() returns (offset: nat, fault: bool)
      requires Sane()
      modifies this`queueIn, this`input, this`lost, this`handled, slots
      ensures Sane() && buf[..] == old(buf[..]) && (old(Conserved()) ==> Conserved()) && (old(lost) ==> lost)
      ensures Scan(buf[..], rxIn, 0).end == offset && Scan(buf[..], rxIn, 0).fault == fault
      ensures handled == old(handled) + Types(buf[..], Scan(buf[..], rxIn, 0).handled)
    {
      hide Sum, Sane, Contents, Valid, Scan, Types, Step, Conserved;
      SaneWindow();
      ghost var b, n, all := buf[..], rxIn, Scan(buf[..], rxIn, 0);
      offset, fault := 0, false;
      ghost var done: seq<nat> := [];
      NoTypes(b);
      while rxIn - offset >= HEAD
        invariant offset <= n && buf[..] == b && Window(b, n) && Sane() && !fault
        invariant (old(Conserved()) ==> Conserved()) && (old(lost) ==> lost)
        invariant var r := Scan(b, n, offset);
                  all.end == r.end && all.handled == done + r.handled && all.fault == r.fault
        invariant handled == old(handled) + Types(b, done)
        decreases rxIn - offset
      {
        ghost var arrived := Interrupt();
        var step, hit;
        step, hit, fault := ScanStep(offset);
        ScanOn(b, n, offset, step, hit, fault);
        if fault || step == 0 {
          assert done + [] == done;
          return;
        }
        if hit {
          handled := handled + [buf[offset + 2]];
          TypesMore(b, done, offset);
          done := done + [offset];
        }
        offset := offset + step;
      }
      ScanEnds(b, n, offset);
      assert done + [] == done;
    }

    /** The body of the loop at one offset: how far to go on, 0 to stop, and whether a
        frame is handled. */
    method ScanStep(offset: nat) returns (step: nat, hit: bool, fault: bool)
      requires buf.Length == SIZE + 1 && rxIn <= SIZE && offset + HEAD <= rxIn
      ensures Step(buf[..], rxIn, offset) == Next(step, hit, fault)
    {
      hide Sum;
      hit, fault := false, false;
      if buf[offset] != FRAME_FIRST {
        return 1, false, false;
      }
      var len := buf[offset + 1];
      if len > SIZE {
        return 1, false, false;
      }
      if rxIn - offset < len {
        return 0, false, false;
      }
      if len == 0 {
        return 0, false, true;
      }
      var sum := GetCheckSum(offset, len - 1);
      assert buf[offset..offset + len - 1] == buf[..][offset..offset + len - 1];
      if sum != buf[offset + len] {
        return 9, false, false;
      }
      step, hit := len, true;
    }

    lemma SaneWindow()
      requires Sane()
      ensures buf.Length == SIZE + 1 && rxIn <= SIZE && Window(buf[..], rxIn)
    {
    }

    /** tds_uart_service, with bytes arriving at any time: a scan of the first `n` bytes
        not yet consumed, which stood in the buffer as `w`. Exactly what the scan passed
        over is consumed, the rest of the buffer is kept in order, nothing that arrived
        is lost while there is room. */
    method UartService() returns (fault: bool, ghost w: seq<byte>, ghost n: nat)
      requires Sane()
      modifies this`queueIn, this`queueOut, this`input, this`lost, this`rxIn, this`consumed, this`handled, slots, buf
      ensures Sane() && Window(w, n) && (old(Conserved()) ==> Conserved()) && (old(lost) ==> lost)
      ensures old(rxIn) <= n && w[..old(rxIn)] == old(buf[..rxIn])
      ensures !lost ==> n >= if |old(Backlog())| < SIZE then |old(Backlog())| else SIZE
      ensures !lost && old(Conserved()) ==> old(consumed) + w[..n] <= input
      ensures var r := Scan(w, n, 0);
              && fault == r.fault && handled == old(handled) + Types(w, r.handled)
              && (!fault ==>
                    && r.end <= n && rxIn < SIZE
                    && consumed == old(consumed) + w[..r.end] && buf[..rxIn] == w[r.end..n])
    {
      hide Scan, Contents, Sum, Valid;
      Fill();
      w, n, fault := buf[..], rxIn, false;
      ghost var arrived := Interrupt();
      assert buf[..n] == w[..n];
      ScanResult(w, n, 0);
      if rxIn < HEAD {
        ScanEnds(w, n, 0);
        NoTypes(w);
        assert consumed + w[..0] == consumed && handled + [] == handled && w[0..n] == buf[..rxIn];
        return;
      }
      var offset;
      offset, fault := ScanBuffer();
      assert buf[..n] == w[..n];
      if !fault {
        Compact(offset, w);
      }
    }

    /** The remaining bytes move to the front. */
    method Compact(offset: nat, ghost w: seq<byte>)
      requires Sane() && offset <= rxIn && w == buf[..]
      modifies this`rxIn, this`consumed, buf
      ensures Sane() && rxIn == old(rxIn) - offset
      ensures consumed == old(consumed) + w[..offset] && buf[..rxIn] == w[offset..old(rxIn)]
      ensures old(Conserved()) ==> Conserved()
    {
      hide Contents, Valid;
      ghost var n, rest, before := rxIn, Contents(Q()), consumed;
      rxIn := rxIn - offset;
      if rxIn > 0 {
        var r := MyMemcpy(buf, 0, offset, rxIn);
      }
      assert Contents(Q()) == rest;
      Compacted(w, buf[..], n, offset);
      assert buf[..rxIn] == buf[..][..rxIn];
      consumed := consumed + w[..offset];
      Moved(before, w[..offset], w[offset..n], rest, w[..n]);
    }
  }

  lemma Appended(consumed: seq<byte>, b: seq<byte>, c: seq<byte>, arrived: seq<byte>)
    ensures consumed + (b + c) + arrived == consumed + (b + (c + arrived))
  {
    assert b + c + arrived == b + (c + arrived);
    assert consumed + (b + c) + arrived == consumed + ((b + c) + arrived);
  }

  lemma Moved(consumed: seq<byte>, a: seq<byte>, b: seq<byte>, rest: seq<byte>, ab: seq<byte>)
    requires ab == a + b
    ensures consumed + (ab + rest) == (consumed + a) + (b + rest)
  {
    assert (a + b) + rest == a + (b + rest);
    assert consumed + (a + (b + rest)) == (consumed + a) + (b + rest);
  }

  /** What one round of the scan loop does. */
  datatype Next = Next(step: nat, hit: bool, fault: bool)

  function Step(b: seq<byte>, n: nat, o: nat): Next
    requires Window(b, n) && o + HEAD <= n
  {
    var len := b[o + 1];
    if b[o] != FRAME_FIRST || len > SIZE then Next(1, false, false)
    else if n - o < len then Next(0, false, false)
    else if len == 0 then Next(0, false, true)
    else if Sum(b[o..o + len - 1]) != b[o + len] then Next(9, false, false)
    else Next(len, true, false)
  }

  lemma ScanOn(b: seq<byte>, n: nat, o: nat, step: nat, hit: bool, fault: bool)
    requires Window(b, n) && o + HEAD <= n && Step(b, n, o) == Next(step, hit, fault)
    ensures o + step <= n
    ensures var r := Scan(b, n, o);
            if fault || step == 0 then r == Scanned(o, [], fault)
            else
              var r' := Scan(b, n, o + step);
              r == Scanned(r'.end, (if hit then [o] else []) + r'.handled, r'.fault)
  {
  }

  lemma ScanEnds(b: seq<byte>, n: nat, o: nat)
    requires Window(b, n) && o <= n < o + HEAD
    ensures Scan(b, n, o) == Scanned(o, [], false)
  {
  }

  function Types(b: seq<byte>, hs: seq<nat>): (ts: seq<byte>)
    ensures |ts| == |hs| && forall k :: 0 <= k < |hs| && hs[k] + 2 < |b| ==> ts[k] == b[hs[k] + 2]
  {
    seq(|hs|, i requires 0 <= i < |hs| => if hs[i] + 2 < |b| then b[hs[i] + 2] else 0)
  }

  lemma TypesMore(b: seq<byte>, hs: seq<nat>, o: nat)
    requires o + 2 < |b|
    ensures Types(b, hs + [o]) == Types(b, hs) + [b[o + 2]]
  {
  }

  lemma NoTypes(b: seq<byte>)
    ensures Types(b, []) == []
  {
  }

  lemma Compacted(w: seq<byte>, w': seq<byte>, n: nat, offset: nat)
    requires |w| == SIZE + 1 == |w'| && offset <= n <= SIZE
    requires n > offset ==> w' == w[..0] + w[offset..n] + w[n - offset..]
    ensures w'[..n - offset] == w[offset..n] && w[..n] == w[..offset] + w[offset..n]
  {
  }
}
