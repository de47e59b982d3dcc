/** parse_string on the heap: sizing, allocating, and writing the decoded characters. */
module ParseStringHeap {
  import opened CText
  import opened Bits
  import opened Memory
  import opened Unescaping

  // ----- parse_hex4 and the bit patterns of UTF-8

  method HexDigitAt(text: string, i: nat) returns (valid: bool, h: nat)
    ensures valid <==> IsHex(At(text, i))
    ensures valid ==> h == HexVal(At(text, i))
  {
    var c := At(text, i);
    valid := true;
    if '0' <= c <= '9' {
      h := c as int - '0' as int;
    } else if 'A' <= c <= 'F' {
      h := 10 + (c as int - 'A' as int);
    } else if 'a' <= c <= 'f' {
      h := 10 + (c as int - 'a' as int);
    } else {
      valid, h := false, 0;
    }
  }

  /** parse_hex4: four digits shifted in, zero at the first that is none. */
  method ParseHex4(text: string, i: nat) returns (h: nat)
    ensures h == Hex4(text, i)
  {
    h := 0;
    for k := 0 to 4
      invariant k >= 1 ==> IsHex(At(text, i))
      invariant k >= 2 ==> IsHex(At(text, i + 1))
      invariant k >= 3 ==> IsHex(At(text, i + 2))
      invariant k >= 4 ==> IsHex(At(text, i + 3))
      invariant k == 0 ==> h == 0
      invariant k == 1 ==> h == HexVal(At(text, i))
      invariant k == 2 ==> h == 0x10 * HexVal(At(text, i)) + HexVal(At(text, i + 1))
      invariant k == 3 ==> h == 0x100 * HexVal(At(text, i)) + 0x10 * HexVal(At(text, i + 1)) + HexVal(At(text, i + 2))
      invariant k == 4 ==> h == Hex4(text, i)
    {
      var valid, d := HexDigitAt(text, i + k);
      if !valid {
        return 0;
      }
      h := h * 0x10 + d;
    }
  }

  /** `(uc | 0x80) & 0xBF` */
  lemma ContinuationBits(uc: nat)
    ensures BitAnd(BitOr(uc, 0x80), 0xBF) == 0x80 + uc % 0x40
  {
    hide BitOr, BitAnd, Pow2;
    PowConstants();
    var hi, lo := uc / 0x40, uc % 0x40;
    OrSplit(hi, lo, 2, 0, 6);
    OrZero(lo);
    AndSplit(BitOr(hi, 2), lo, 2, 0x3F, 6);
    AndOnes(lo, 6);
    SecondBit(hi);
  }

  lemma SecondBit(x: nat)
    ensures BitAnd(BitOr(x, 2), 2) == 2
  {
    hide BitOr, BitAnd;
    PowConstants();
    var hi, lo := x / 4, x % 4;
    OrSplit(hi, lo, 0, 2, 2);
    TwoBits(lo);
    AndSplit(BitOr(hi, 0), BitOr(lo, 2), 0, 2, 2);
    AndNone(BitOr(hi, 0));
  }

  lemma TwoBits(x: nat)
    requires x < 4
    ensures BitOr(x, 2) < 4 && BitAnd(BitOr(x, 2), 2) == 2
  {
    assert BitOr(0, 2) == 2 && BitOr(1, 2) == 3 && BitOr(2, 2) == 2 && BitOr(3, 2) == 3;
    assert BitAnd(2, 2) == 2 && BitAnd(3, 2) == 2;
  }

  /** `uc | firstByteMark[len]` */
  lemma LeadBits(uc: nat)
    ensures uc < 0x20 ==> BitOr(uc, 0xC0) == 0xC0 + uc
    ensures uc < 0x10 ==> BitOr(uc, 0xE0) == 0xE0 + uc
    ensures uc < 8 ==> BitOr(uc, 0xF0) == 0xF0 + uc
    ensures BitOr(uc, 0) == uc
  {
    hide BitOr, BitAnd;
    PowConstants();
    OrZero(uc);
    if uc < 0x20 { OrDisjoint(6, uc, 5); }
    if uc < 0x10 { OrDisjoint(14, uc, 4); }
    if uc < 8 { OrDisjoint(30, uc, 3); }
  }

  /** `0x10000 + (((uc & 0x3FF) << 10) | (uc2 & 0x3FF))` */
  lemma CombineBits(hi: nat, lo: nat)
    requires IsHighSurrogate(hi) && IsLowSurrogate(lo)
    ensures 0x10000 + BitOr(BitAnd(hi, 0x3FF) * 0x400, BitAnd(lo, 0x3FF)) == Combine(hi, lo)
  {
    hide BitOr, BitAnd;
    PowConstants();
    AndMask(hi / 0x400, hi % 0x400, 10);
    AndMask(lo / 0x400, lo % 0x400, 10);
    OrDisjoint(hi % 0x400, lo % 0x400, 10);
  }

  // ----- writing into the block

  /** The heap is `m` except that block `p` holds `b`. */
  ghost predicate Holds(heap: Heap, m: Cells, p: Ptr, b: seq<char>)
    reads heap`cells
  {
    heap.cells == m[p := Block(b)]
  }

  /** One character written through a pointer into the block. */
  method Put(heap: Heap, p: Ptr, k: nat, c: char, ghost m: Cells, ghost b: seq<char>)
    requires Holds(heap, m, p, b) && k < |b|
    modifies heap`cells
    ensures Holds(heap, m, p, b[k := c])
  {
    heap.Poke(p, k, c);
    assert m[p := Block(b)][p := Block(b[k := c])] == m[p := Block(b[k := c])];
  }

  /** The first byte of a `len`-byte sequence. */
  function FirstByteMark(len: nat): (mark: nat)
    requires 1 <= len <= 4
    ensures mark < 0x100
  {
    if len == 1 then 0 else if len == 2 then 0xC0 else if len == 3 then 0xE0 else 0xF0
  }

  function ContinuationByte(uc: nat): char {
    ContinuationBits(uc);
    BitAnd(BitOr(uc, 0x80), 0xBF) as char
  }

  /** The trailing bytes, written backwards from the end while shifting by six. The
      loop stands for the cases of the switch, which fall through. */
  method PutUtf8(heap: Heap, p: Ptr, k: nat, code: nat, ghost m: Cells, ghost b: seq<char>)
    returns (len: nat, ghost b': seq<char>)
    requires code < 0x110000 && Holds(heap, m, p, b) && k + |Utf8(code)| <= |b|
    modifies heap`cells
    ensures len == |Utf8(code)| && Holds(heap, m, p, b')
    ensures |b'| == |b| && b'[..k] == b[..k] && b'[k..k + len] == Utf8(code)
  {
    var uc := code;
    len := 4;
    if uc < 0x80 { len := 1; } else if uc < 0x800 { len := 2; } else if uc < 0x10000 { len := 3; }
    b' := b;
    var at := k + len;
    while at > k + 1
      invariant k + 1 <= at <= k + len && Holds(heap, m, p, b') && |b'| == |b| && b'[..k] == b[..k]
      invariant uc == Shifted(code, k + len - at)
      invariant forall j :: at <= j < k + len ==> b'[j] == TrailByte(code, k + len - 1 - j)
      decreases at
    {
      at := at - 1;
      Put(heap, p, at, ContinuationByte(uc), m, b');
      b' := b'[at := ContinuationByte(uc)];
      uc := uc / 0x40;
    }
    LeadFits(code, len);
    Put(heap, p, k, BitOr(uc, FirstByteMark(len)) as char, m, b');
    b' := b'[k := BitOr(uc, FirstByteMark(len)) as char];
    BytesAreUtf8(code, len, b'[k..k + len]);
  }

  /** `code >> 6 * n` */
  function Shifted(code: nat, n: nat): nat {
    if n == 0 then code else Shifted(code, n - 1) / 0x40
  }

  function TrailByte(code: nat, n: nat): char {
    ContinuationByte(Shifted(code, n))
  }

  lemma LeadFits(code: nat, len: nat)
    requires code < 0x110000 && len == |Utf8(code)|
    ensures BitOr(Shifted(code, len - 1), FirstByteMark(len)) < 0x100
    ensures BitOr(Shifted(code, len - 1), FirstByteMark(len)) as char == Utf8(code)[0]
  {
    hide BitOr;
    LeadBits(Shifted(code, len - 1));
    ShiftTwice(code);
  }

  lemma ShiftTwice(code: nat)
    ensures Shifted(code, 0) == code && Shifted(code, 1) == code / 0x40
    ensures Shifted(code, 2) == code / 0x1000 && Shifted(code, 3) == code / 0x40000
  {
    assert Shifted(code, 1) == code / 0x40;
    assert Shifted(code, 2) == Shifted(code, 1) / 0x40;
    assert Shifted(code, 3) == Shifted(code, 2) / 0x40;
  }

  lemma BytesAreUtf8(code: nat, len: nat, t: string)
    requires code < 0x110000 && len == |Utf8(code)| == |t| && t[0] == Utf8(code)[0]
    requires forall j :: 1 <= j < len ==> t[j] == TrailByte(code, len - 1 - j)
    ensures t == Utf8(code)
  {
    hide BitOr, BitAnd, Shifted;
    ShiftTwice(code);
    ContinuationBits(code);
    ContinuationBits(code / 0x40);
    ContinuationBits(code / 0x1000);
    if len >= 2 { assert t[len - 1] == TrailByte(code, 0); }
    if len >= 3 { assert t[len - 2] == TrailByte(code, 1); }
    if len >= 4 { assert t[len - 3] == TrailByte(code, 2); }
  }

  // ----- the decoding loop

  /** One escape: its backslash is at `i`, its piece goes to offset `k`. */
  method WriteEscape(heap: Heap, text: string, i: nat, p: Ptr, k: nat, ghost m: Cells, ghost b: seq<char>)
    returns (next: nat, len: nat, ghost b': seq<char>)
    requires Holds(heap, m, p, b) && k + |Unescape(text, i).out| <= |b|
    modifies heap`cells
    ensures next == Unescape(text, i).next && len == |Unescape(text, i).out|
    ensures Holds(heap, m, p, b') && |b'| == |b| && b'[..k] == b[..k] && b'[k..k + len] == Unescape(text, i).out
  {
    hide UnescapeUnicode;
    var c := At(text, i + 1);
    if c == 'u' {
      next, len, b' := WriteUnicode(heap, text, i, p, k, m, b);
    } else {
      var d := match c
        case 'b' => '\U{8}'
        case 'f' => '\U{c}'
        case 'n' => '\n'
        case 'r' => '\r'
        case 't' => '\t'
        case _ => c;
      Put(heap, p, k, d, m, b);
      b' := b[k := d];
      next, len := i + 2, 1;
    }
  }

  method WriteUnicode(heap: Heap, text: string, i: nat, p: Ptr, k: nat, ghost m: Cells, ghost b: seq<char>)
    returns (next: nat, len: nat, ghost b': seq<char>)
    requires Holds(heap, m, p, b) && k + |UnescapeUnicode(text, i).out| <= |b|
    modifies heap`cells
    ensures next == UnescapeUnicode(text, i).next && len == |UnescapeUnicode(text, i).out|
    ensures Holds(heap, m, p, b') && |b'| == |b| && b'[..k] == b[..k] && b'[k..k + len] == UnescapeUnicode(text, i).out
  {
    hide Utf8, Hex4, BitOr, BitAnd, Combine;
    next, len, b' := i + 6, 0, b;
    var uc := ParseHex4(text, i + 2);
    if (0xDC00 <= uc <= 0xDFFF) || uc == 0 {
      return;
    }
    if 0xD800 <= uc <= 0xDBFF {
      if At(text, i + 6) != '\\' || At(text, i + 7) != 'u' {
        return;
      }
      var uc2 := ParseHex4(text, i + 8);
      next := i + 12;
      if uc2 < 0xDC00 || uc2 > 0xDFFF {
        return;
      }
      CombineBits(uc, uc2);
      uc := 0x10000 + BitOr(BitAnd(uc, 0x3FF) * 0x400, BitAnd(uc2, 0x3FF));
    }
    len, b' := PutUtf8(heap, p, k, uc, m, b);
  }

  /** Decoded strings hold no terminator. */
  lemma {:induction false} DecodeNoNul(s: string, i: nat, nest: int)
    requires i <= |s| && '\0' !in s && Decode(s, i, nest).Decoded?
    ensures '\0' !in Decode(s, i, nest).out
    decreases |s| - i
  {
    hide Unescape;
    if At(s, i) == '\0' || (At(s, i) == '"' && nest == 0) {
    } else if At(s, i) != '\\' {
      DecodeNoNul(s, i + 1, Nest(At(s, i), nest));
    } else {
      DecodeNoNul(s, Unescape(s, i).next, nest);
      if Unescape(s, i).next <= |s| {
        PieceNoNul(s, i);
      }
    }
  }

  lemma PieceNoNul(s: string, i: nat)
    requires Unescape(s, i).next <= |s|
    requires '\0' !in s
    ensures '\0' !in Unescape(s, i).out
  {
    hide Utf8, Combine;
    var uc := Hex4(s, i + 2);
    if uc != 0 { Utf8NoNul(uc); }
    var uc2 := Hex4(s, i + 8);
    if IsHighSurrogate(uc) && IsLowSurrogate(uc2) {
      Utf8NoNul(Combine(uc, uc2));
    }
  }

  lemma Utf8NoNul(c: nat)
    requires 0 < c < 0x110000
    ensures '\0' !in Utf8(c)
  {
  }

  /** The second loop of parse_string, from after the quote to the terminator it writes. */
  method DecodeInto(heap: Heap, text: string, start: nat, p: Ptr, ghost m: Cells, ghost b0: seq<char>)
    returns (end: nat, ghost b: seq<char>)
    requires start <= |text| && '\0' !in text && Holds(heap, m, p, b0)
    requires Decode(text, start, 0).Decoded? && |Decode(text, start, 0).out| < |b0|
    modifies heap`cells
    ensures end == Decode(text, start, 0).end
    ensures Holds(heap, m, p, b) && |b| == |b0|
    ensures var d := Decode(text, start, 0).out; b[..|d|] == d && b[|d|] == '\0'
  {
    hide Unescape, Holds;
    ghost var whole := Decode(text, start, 0);
    var ptr: nat, k: nat, nest: int := start, 0, 0;
    b := b0;
    assert whole.out[0..] == whole.out;
    while (At(text, ptr) != '"' || nest != 0) && At(text, ptr) != '\0'
      invariant ptr <= |text| && 0 <= k <= |whole.out| && Holds(heap, m, p, b) && |b| == |b0|
      invariant Decode(text, ptr, nest) == Decoded(whole.out[k..], whole.end)
      invariant b[..k] == whole.out[..k]
      decreases |text| - ptr
    {
      var c := At(text, ptr);
      ghost var before := nest;
      if c == '{' { nest := nest + 1; } else if c == '}' { nest := nest - 1; }
      if c != '\\' {
        PlainStep(text, ptr, before, whole, k);
        Put(heap, p, k, c, m, b);
        PrefixGrows(b, b[k := c], whole.out, k, k + 1);
        b := b[k := c];
        ptr, k := ptr + 1, k + 1;
      } else {
        EscapeStep(text, ptr, nest, whole, k);
        ghost var former := b;
        var next, len;
        next, len, b := WriteEscape(heap, text, ptr, p, k, m, b);
        PrefixGrows(former, b, whole.out, k, k + len);
        ptr, k := next, k + len;
      }
    }
    Put(heap, p, k, '\0', m, b);
    b := b[k := '\0'];
    end := if At(text, ptr) == '"' then ptr + 1 else ptr;
  }

  lemma PrefixGrows(b: seq<char>, b': seq<char>, w: string, k: nat, k': nat)
    requires k <= k' <= |w| && k' <= |b'| && k <= |b| && b[..k] == w[..k] && b'[..k] == b[..k] && b'[k..k'] == w[k..k']
    ensures b'[..k'] == w[..k']
  {
    assert b'[..k'] == b'[..k] + b'[k..k'];
    assert w[..k'] == w[..k] + w[k..k'];
  }

  lemma PlainStep(text: string, ptr: nat, nest: int, whole: Decoded, k: nat)
    requires ptr <= |text| && whole.Decoded? && k <= |whole.out|
    requires Decode(text, ptr, nest) == Decoded(whole.out[k..], whole.end)
    requires At(text, ptr) != '\0' && At(text, ptr) != '\\' && !(At(text, ptr) == '"' && nest == 0)
    ensures ptr < |text| && k < |whole.out| && whole.out[k] == At(text, ptr)
    ensures Decode(text, ptr + 1, Nest(At(text, ptr), nest)) == Decoded(whole.out[k + 1..], whole.end)
  {
    var rest := Decode(text, ptr + 1, Nest(At(text, ptr), nest));
    assert whole.out[k..] == [At(text, ptr)] + rest.out;
    assert |whole.out[k..]| == 1 + |rest.out|;
    assert whole.out[k] == whole.out[k..][0];
    assert whole.out[k + 1..] == whole.out[k..][1..];
  }

  lemma EscapeStep(text: string, ptr: nat, nest: int, whole: Decoded, k: nat)
    requires ptr <= |text| && whole.Decoded? && k <= |whole.out|
    requires Decode(text, ptr, nest) == Decoded(whole.out[k..], whole.end)
    requires At(text, ptr) == '\\'
    ensures var piece := Unescape(text, ptr);
            var k' := k + |piece.out|;
            && piece.next <= |text| && k' <= |whole.out| && whole.out[k..k'] == piece.out
            && Decode(text, piece.next, nest) == Decoded(whole.out[k'..], whole.end)
  {
    hide Unescape;
    var piece := Unescape(text, ptr);
    var rest := Decode(text, piece.next, nest);
    var k' := k + |piece.out|;
    assert whole.out[k..] == piece.out + rest.out;
    assert |whole.out[k..]| == |piece.out| + |rest.out|;
    assert whole.out[k..k'] == whole.out[k..][..|piece.out|];
    assert whole.out[k'..] == whole.out[k..][|piece.out|..];
  }

  // ----- parse_string

  /** The first loop: how many characters at most the string has. */
  method ScanString(text: string, start: nat) returns (len: nat)
    requires start <= |text| && Scan(text, start).Sized?
    ensures Scan(text, start) == Sized(len)
  {
    var ptr := start;
    len := 0;
    while At(text, ptr) != '"' && At(text, ptr) != '\0'
      invariant ptr <= |text| && Scan(text, ptr).Sized? && Scan(text, start).len == len + Scan(text, ptr).len
      decreases |text| - ptr
    {
      len := len + 1;
      if At(text, ptr) == '\\' { ptr := ptr + 1; }
      ptr := ptr + 1;
    }
  }
}
