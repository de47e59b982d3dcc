/** The C heap cJSON works in: node records, character blocks and pointer
    tables, with an allocator that may refuse any request. Using an address
    that is not allocated, freeing one twice or writing outside a block would
    violate a precondition here. */
module Memory {

  type Ptr = nat

  const NULL: Ptr := 0

  datatype Kind = False | True | Null | Number | String | Array | Object

  /** struct cJSON. `isRef` and `constName` are the two flag bits of `type`. */
  datatype Node = Node(next: Ptr, prev: Ptr, child: Ptr, kind: Kind, isRef: bool, constName: bool,
                       valuestring: Ptr, valueint: int, valuedouble: real, name: Ptr)

  datatype Cell = Record(node: Node) | Block(bytes: seq<char>) | Table(ptrs: seq<Ptr>)

  type Cells = map<Ptr, Cell>

  /** What memset leaves in a new node. */
  const ZERO_NODE: Node := Node(NULL, NULL, NULL, False, false, false, NULL, 0, 0.0, NULL)

  /** A finite heap never uses every address. */
  lemma {:induction false} SomeFree(used: set<Ptr>) returns (p: Ptr)
    ensures p != NULL && p !in used
    ensures forall q :: q in used ==> q < p
    decreases |used|
  {
    if used == {} {
      p := 1;
    } else {
      var q :| q in used;
      p := SomeFree(used - {q});
      if p <= q {
        p := q + 1;
      }
      assert forall x :: x in used ==> x == q || x in used - {q};
    }
  }

  predicate IsRecord(m: Cells, p: Ptr) {
    p in m && m[p].Record?
  }

  predicate IsBlock(m: Cells, p: Ptr) {
    p in m && m[p].Block?
  }

  class Heap {
    var cells: Cells
    /** The parser's error position. */
    var ep: nat
    /** An allocation has been refused since this was last cleared, which the entry
        points of the library do when they are called. */
    ghost var refused: bool

    constructor ()
      ensures cells == map[] && !refused && ep == 0
    {
      cells, ep, refused := map[], 0, false;
    }

    /** cJSON_malloc: NULL, or an address not in use holding `content`. */
    method Malloc(content: Cell) returns (p: Ptr)
      modifies this`cells, this`refused
      ensures p == NULL ==> cells == old(cells) && refused
      ensures p != NULL ==> p !in old(cells) && cells == old(cells)[p := content] && refused == old(refused)
    {
      if * {
        refused := true;
        p := NULL;
      } else {
        ghost var free := SomeFree(cells.Keys);
        p :| p != NULL && p !in cells;
        cells := cells[p := content];
      }
    }

    /** `(char *)cJSON_malloc(n)`, with whatever the block held before. */
    method MallocBlock(n: nat) returns (p: Ptr, ghost bytes: seq<char>)
      modifies this`cells, this`refused
      ensures |bytes| == n
      ensures p == NULL ==> cells == old(cells) && refused
      ensures p != NULL ==> p !in old(cells) && cells == old(cells)[p := Block(bytes)] && refused == old(refused)
    {
      assert |seq(n, _ => '\0')| == n;
      var junk: seq<char> :| |junk| == n;
      bytes := junk;
      p := Malloc(Block(junk));
    }

    method Free(p: Ptr)
      requires p in cells
      modifies this`cells
      ensures cells == old(cells) - {p}
    {
      cells := cells - {p};
    }

    /** Assignment to fields of the node at `p`. */
    method SetNode(p: Ptr, node: Node)
      requires IsRecord(cells, p)
      modifies this`cells
      ensures cells == old(cells)[p := Record(node)]
    {
      cells := cells[p := Record(node)];
    }

    /** `((char *)p)[k] = c` */
    method Poke(p: Ptr, k: nat, c: char)
      requires IsBlock(cells, p) && k < |cells[p].bytes|
      modifies this`cells
      ensures cells == old(cells)[p := Block(old(cells[p].bytes)[k := c])]
    {
      cells := cells[p := Block(cells[p].bytes[k := c])];
    }
  }
}
