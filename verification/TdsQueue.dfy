/** The receive queue of the TDS service: a ring of 75 slots whose pointers wrap
    only when they are next used. */
module TdsQueue {

  type byte = x: int | 0 <= x < 256

  const SIZE: nat := 75

  /** Both pointers run from the first slot to one past the last. */
  datatype Queue = Queue(slots: seq<byte>, inp: nat, out: nat)

  predicate Valid(q: Queue) {
    |q.slots| == SIZE && q.inp <= SIZE && q.out <= SIZE && (q.inp == 0 ==> q.out == 0)
  }

  function Contents(q: Queue): seq<byte>
    requires Valid(q)
  {
    if q.out <= q.inp then q.slots[q.out..q.inp] else q.slots[q.out..] + q.slots[..q.inp]
  }

  predicate Refuses(q: Queue) {
    q.out - q.inp == 1 || q.inp - q.out >= SIZE
  }

  /** tds_uart_receive_input */
  function Put(q: Queue, v: byte): Queue
    requires Valid(q)
  {
    if Refuses(q) then q
    else
      var i := if q.inp >= SIZE then 0 else q.inp;
      q.(slots := q.slots[i := v], inp := i + 1)
  }

  /** Queue_Read_Byte on a queue with data. */
  function Take(q: Queue): Queue
    requires Valid(q) && q.inp != q.out
  {
    q.(out := (if q.out >= SIZE then 0 else q.out) + 1)
  }

  /** The code's emptiness test is the right one. */
  lemma EmptyTest(q: Queue)
    requires Valid(q)
    ensures q.inp == q.out <==> Contents(q) == []
    ensures |Contents(q)| == if q.out <= q.inp then q.inp - q.out else q.inp + SIZE - q.out
  {
  }

  lemma TakeFirst(q: Queue)
    requires Valid(q) && q.inp != q.out
    ensures Valid(Take(q)) && Contents(Take(q)) == Contents(q)[1..]
    ensures Contents(q)[0] == q.slots[if q.out >= SIZE then 0 else q.out]
  {
  }

  /** A slot is left for one more byte. */
  predicate Room(q: Queue)
    requires Valid(q)
  {
    |Contents(q)| < SIZE - 1 || (q.out == 0 && q.inp == SIZE - 1)
  }

  /** An arriving byte is appended exactly when fewer than 74 slots are used, or
      before the first byte was read 74. Otherwise it is dropped; except that with
      the write pointer past the end and the read pointer on the second slot the
      pointers meet and everything queued is lost. */
  lemma PutExact(q: Queue, v: byte)
    requires Valid(q)
    ensures Valid(Put(q, v))
    ensures Contents(Put(q, v)) == Contents(q) + [v] <==> Room(q)
    ensures !Room(q) ==>
              Contents(Put(q, v)) == if q.inp == SIZE && q.out == 1 then [] else Contents(q)
  {
    PutGrows(q, v);
    if !Room(q) {
      PutLoses(q, v);
    }
    assert |Contents(q) + [v]| == |Contents(q)| + 1;
  }

  lemma PutGrows(q: Queue, v: byte)
    requires Valid(q)
    ensures Valid(Put(q, v)) && (Room(q) ==> Contents(Put(q, v)) == Contents(q) + [v])
  {
    if Room(q) {
      var i := if q.inp >= SIZE then 0 else q.inp;
      assert !Refuses(q);
      assert q.slots[i := v][..i + 1] == q.slots[..i] + [v];
      if q.out <= i {
        assert q.slots[i := v][q.out..i + 1] == q.slots[q.out..i] + [v];
      } else {
        assert q.slots[i := v][q.out..] == q.slots[q.out..];
      }
    }
  }

  lemma PutLoses(q: Queue, v: byte)
    requires Valid(q) && !Room(q)
    ensures Contents(Put(q, v)) == if q.inp == SIZE && q.out == 1 then [] else Contents(q)
  {
    EmptyTest(q);
  }

  // ----- runs

  datatype Event = Arrive(v: byte) | Read

  /** Every byte arrives while there is room, and only data is read. */
  predicate Roomy(q: Queue, es: seq<Event>)
    requires Valid(q)
    decreases |es|
  {
    es == [] ||
    match es[0]
    case Arrive(v) => Room(q) && (PutExact(q, v); Roomy(Put(q, v), es[1..]))
    case Read => q.inp != q.out && (TakeFirst(q); Roomy(Take(q), es[1..]))
  }

  function After(q: Queue, es: seq<Event>): (q': Queue)
    requires Valid(q) && Roomy(q, es)
    ensures Valid(q')
    decreases |es|
  {
    if es == [] then q
    else match es[0]
      case Arrive(v) => PutExact(q, v); After(Put(q, v), es[1..])
      case Read => TakeFirst(q); After(Take(q), es[1..])
  }

  function Arrived(es: seq<Event>): seq<byte> {
    if es == [] then [] else (if es[0].Arrive? then [es[0].v] else []) + Arrived(es[1..])
  }

  /** What the reads return. */
  function Delivered(q: Queue, es: seq<Event>): seq<byte>
    requires Valid(q) && Roomy(q, es)
    decreases |es|
  {
    if es == [] then []
    else match es[0]
      case Arrive(v) => PutExact(q, v); Delivered(Put(q, v), es[1..])
      case Read => TakeFirst(q); EmptyTest(q); [Contents(q)[0]] + Delivered(Take(q), es[1..])
  }

  /** First in, first out over any interleaving: what was queued and arrived is
      what was delivered and is still queued, in order. */
  lemma {:induction false} Fifo(q: Queue, es: seq<Event>)
    requires Valid(q) && Roomy(q, es)
    ensures Contents(q) + Arrived(es) == Delivered(q, es) + Contents(After(q, es))
    decreases |es|
  {
    hide Contents, Put, Take, Room, Valid;
    if es != [] {
      match es[0]
      case Arrive(v) =>
        PutExact(q, v);
        Fifo(Put(q, v), es[1..]);
        assert Contents(q) + ([v] + Arrived(es[1..])) == (Contents(q) + [v]) + Arrived(es[1..]);
      case Read =>
        TakeFirst(q);
        EmptyTest(q);
        Fifo(Take(q), es[1..]);
        var c, d := Contents(q), Delivered(Take(q), es[1..]);
        assert c == [c[0]] + c[1..];
        assert [c[0]] + (d + Contents(After(q, es))) == ([c[0]] + d) + Contents(After(q, es));
    }
  }
}
