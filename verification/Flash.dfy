/** The on-chip flash driver: bytes packed into double words on their way in,
    read back byte by byte, and the page range of an erase. */
module FlashDriver {
  import opened Bits

  type byte = x: int | 0 <= x < 256

  const WORD: int := 0x1_0000_0000
  const START: nat := 0x0800_0000
  const END: nat := 0x0804_0000
  const EINVAL: int := 10
  const ERROR: int := 1

  // ----- double words

  /** The number whose little-endian bytes are `b`. */
  function Little(b: seq<byte>): nat {
    if b == [] then 0 else Little(b[..|b| - 1]) + b[|b| - 1] * Pow2(8 * (|b| - 1))
  }

  lemma LittleNone(b: seq<byte>)
    requires b == []
    ensures Little(b) == 0
  {
  }

  lemma LittleMore(b: seq<byte>, x: byte)
    ensures Little(b + [x]) == Little(b) + x * Pow2(8 * |b|)
  {
    assert (b + [x])[..|b|] == b;
  }

  lemma {:induction false} LittleBelow(b: seq<byte>)
    ensures Little(b) < Pow2(8 * |b|)
    decreases |b|
  {
    if b != [] {
      var c, x := b[..|b| - 1], b[|b| - 1];
      var p := Pow2(8 * |c|);
      LittleBelow(c);
      PowSum(8 * |c|, 8);
      PowConstants();
      ByteTimes(x, p);
      assert 8 * |b| == 8 * |c| + 8;
    }
  }

  lemma ByteTimes(x: byte, p: nat)
    ensures x * p + p <= p * 0x100
  {
    Times(x + 1, 0x100, p);
  }

  /** Shifting a byte in behind `|b|` others is adding it. */
  lemma ShiftIn(b: seq<byte>, x: byte)
    ensures BitOr(Little(b), x * Pow2(8 * |b|)) == Little(b + [x])
  {
    LittleBelow(b);
    OrDisjoint(x, Little(b), 8 * |b|);
    LittleMore(b, x);
  }

  lemma {:induction false} LittleUnique(a: seq<byte>, b: seq<byte>)
    requires |a| == |b| && Little(a) == Little(b)
    ensures a == b
    decreases |a|
  {
    if a != [] {
      var n := |a| - 1;
      var p := Pow2(8 * n);
      LittleBelow(a[..n]);
      LittleBelow(b[..n]);
      QuotientUnique(Little(a), p, a[n], Little(a[..n]));
      QuotientUnique(Little(b), p, b[n], Little(b[..n]));
      LittleUnique(a[..n], b[..n]);
      assert a == a[..n] + [a[n]] && b == b[..n] + [b[n]];
    }
  }

  function Zeros(n: nat): (z: seq<byte>)
    ensures |z| == n && forall k :: 0 <= k < n ==> z[k] == 0
  {
    seq(n, _ => 0)
  }

  lemma {:induction false} LittlePadded(b: seq<byte>, n: nat)
    ensures Little(b + Zeros(n)) == Little(b)
    decreases n
  {
    if n == 0 {
      assert b + Zeros(0) == b;
    } else {
      assert Zeros(n) == Zeros(n - 1) + [0];
      assert b + Zeros(n) == (b + Zeros(n - 1)) + [0];
      LittleMore(b + Zeros(n - 1), 0);
      LittlePadded(b, n - 1);
    }
  }

  // ----- the device

  /** Rounded up to a double word. */
  function Up8(a: nat): nat {
    (a + 7) / 8 * 8
  }

  /** A buffer and the zeros up to the next double word. */
  function Padded(b: seq<byte>): (p: seq<byte>)
    ensures |p| == Up8(|b|)
  {
    b + Zeros(Up8(|b|) - |b|)
  }

  /** The bytes, and fewer than eight zeros up to a multiple of eight. */
  lemma PaddedIs(b: seq<byte>)
    ensures var p := Padded(b);
            && |b| <= |p| < |b| + 8 && |p| % 8 == 0 && p[..|b|] == b
            && forall k :: |b| <= k < |p| ==> p[k] == 0
  {
    var z := Zeros(Up8(|b|) - |b|);
    forall k | |b| <= k < |Padded(b)| ensures Padded(b)[k] == 0 {
      assert Padded(b)[k] == z[k - |b|];
    }
  }

  class Flash {
    /** The cells from START to END. */
    const mem: array<byte>
    var unlocked: bool

    constructor ()
      ensures mem.Length == END - START && !unlocked
    {
      mem := new byte[END - START];
      unlocked := false;
    }

    predicate Valid()
    {
      mem.Length == END - START
    }

    /** HAL_FLASH_Program. It may fail, or claim success, and leave anything in the
        eight cells; a double word that is not flash cannot be programmed. */
    method Program(addr: nat, data: nat) returns (ok: bool)
      requires Valid() && unlocked
      modifies mem
      ensures ok ==> START <= addr && addr + 8 <= END
      ensures if START <= addr && addr + 8 <= END then
                mem[..addr - START] == old(mem[..addr - START])
                      && mem[addr - START + 8..] == old(mem[addr - START + 8..])
              else mem[..] == old(mem[..])
    {
      ok := false;
      if START <= addr && addr + 8 <= END {
        var k, o := 0, addr - START;
        while k < 8
          invariant 0 <= k <= 8
          invariant mem[..o] == old(mem[..o]) && mem[o + 8..] == old(mem[o + 8..])
        {
          var x: byte := *;
          mem[o + k] := x;
          k := k + 1;
        }
        ok := *;
      }
    }

    /** `*(uint64_t *)addr` */
    method ReadDouble(addr: nat) returns (d: nat)
      requires Valid() && START <= addr && addr + 8 <= END
      ensures d == Little(mem[addr - START..addr - START + 8])
    {
      var k, o := 0, addr - START;
      d := 0;
      while k < 8
        invariant 0 <= k <= 8 && d == Little(mem[o..o + k])
      {
        LittleMore(mem[o..o + k], mem[o + k]);
        assert mem[o..o + k + 1] == mem[o..o + k] + [mem[o + k]];
        d := d + mem[o + k] * Pow2(8 * k);
        k := k + 1;
      }
    }

    /** The packing loops of one double word: from `i`, eight bytes or what is left. */
    method Pack(buf: seq<byte>, i: nat) returns (data: nat, i': nat)
      requires i < |buf|
      ensures i' == (if |buf| - i < 8 then |buf| else i + 8)
      ensures data == Little(buf[i..i'])
    {
      hide Little;
      data, i' := 0, i;
      var j := 0;
      LittleNone(buf[i..i]);
      if |buf| - i < 8 {
        while |buf| - i' > 0
          invariant i <= i' <= |buf| && j == i' - i && data == Little(buf[i..i'])
        {
          ShiftIn(buf[i..i'], buf[i']);
          assert buf[i..i' + 1] == buf[i..i'] + [buf[i']];
          data := BitOr(data, buf[i'] * Pow2(8 * j));
          i', j := i' + 1, j + 1;
        }
      } else {
        while j < 8
          invariant 0 <= j <= 8 && j == i' - i && data == Little(buf[i..i'])
        {
          ShiftIn(buf[i..i'], buf[i']);
          assert buf[i..i' + 1] == buf[i..i'] + [buf[i']];
          data := BitOr(data, buf[i'] * Pow2(8 * j));
          i', j := i' + 1, j + 1;
        }
      }
    }

    /** One double word, programmed and checked. */
    method WriteDouble(addr: nat, data: nat, ghost part: seq<byte>) returns (ok: bool, ghost refused: bool)
      requires Valid() && unlocked && |part| == 8 && data == Little(part)
      modifies mem
      ensures START <= addr && addr + 8 <= END ==>
                && mem[..addr - START] == old(mem[..addr - START])
                      && mem[addr - START + 8..] == old(mem[addr - START + 8..])
      ensures !(START <= addr && addr + 8 <= END) ==> mem[..] == old(mem[..])
      ensures ok ==> START <= addr && addr + 8 <= END && mem[addr - START..addr - START + 8] == part
      ensures !ok && !refused ==> START <= addr && addr + 8 <= END && mem[addr - START..addr - START + 8] != part
    {
      ok := Program(addr, data);
      refused := !ok;
      if ok {
        var back := ReadDouble(addr);
        ok := back == data;
        if ok {
          LittleUnique(mem[addr - START..addr - START + 8], part);
        }
      }
    }
  
    /** stm32_flash_read. `fault`: the range wrapped around the 32-bit check, or began
        below the flash, and the copy left the flash. */
    method Read(addr: nat, buf: array<byte>) returns (r: int, fault: bool)
      requires Valid() && addr < WORD && buf.Length < WORD && buf != mem
      modifies buf
      ensures r == -EINVAL || r == buf.Length
      ensures r == -EINVAL <==> (addr + buf.Length) % WORD > END
      ensures r == -EINVAL ==> !fault && buf[..] == old(buf[..])
      ensures r != -EINVAL ==> (fault <==> buf.Length > 0 && (addr < START || addr + buf.Length > END))
      ensures r != -EINVAL && !fault && buf.Length > 0 ==> buf[..] == mem[addr - START..addr - START + buf.Length]
    {
      fault := false;
      if (addr + buf.Length) % WORD > END {
        return -EINVAL, false;
      }
      var i := 0;
      while i < buf.Length
        invariant i <= buf.Length
        invariant i > 0 ==> START <= addr && addr + i <= END && buf[..i] == mem[addr - START..addr - START + i]
      {
        if !(START <= addr + i < END) {
          return buf.Length, true;
        }
        buf[i] := mem[addr - START + i];
        assert buf[..i + 1] == buf[..i] + [buf[i]];
        i := i + 1;
      }
      r := buf.Length;
      assert buf[..i] == buf[..];
    }

    /** Cells outside `n` bytes from `addr` are as they were. */
    twostate predicate Elsewhere(addr: nat, n: nat)
      requires Valid()
      reads mem
    {
      forall k :: 0 <= k < mem.Length && !(addr <= START + k < addr + n) ==> mem[k] == old(mem[k])
    }

    /** stm32_flash_write. A result of `|buf|` means the whole buffer, and zeros up to
        the next double word, stand in the flash; whatever happens no other cell
        changes. A write that is not refused by the range check fails only because there
        is nothing to write, because the HAL refused to program a double word, or
        because a cell of the range does not hold its byte. The lock is left open when
        there is nothing to write. */
    method Write(addr: nat, buf: seq<byte>) returns (r: int, ghost refused: bool)
      requires Valid() && addr < WORD && |buf| < WORD
      modifies this`unlocked, mem
      ensures r == |buf| || r == -EINVAL || r == -ERROR
      ensures r == -EINVAL <==> (addr + |buf|) % WORD > END || addr % 8 != 0
      ensures r == -EINVAL ==> unlocked == old(unlocked)
      ensures r != -EINVAL ==> unlocked == (buf == [])
      ensures r >= 0 ==>
                && r == |buf| > 0 && START <= addr && addr + Up8(|buf|) <= END
                && mem[addr - START..addr - START + Up8(|buf|)] == Padded(buf)
      ensures r == -EINVAL || buf == [] ==> mem[..] == old(mem[..])
      ensures r == -ERROR && buf != [] && !refused ==>
                exists k :: 0 <= k < Up8(|buf|) && START <= addr + k < END && mem[addr + k - START] != Padded(buf)[k]
      ensures Elsewhere(addr, Up8(|buf|))
    {
      refused := false;
      if (addr + |buf|) % WORD > END {
        return -EINVAL, false;
      }
      if addr % 8 != 0 {
        return -EINVAL, false;
      }
      unlocked := true;
      if |buf| < 1 {
        return -ERROR, false;
      }
      var ok;
      ok, refused := WriteAll(addr, buf);
      unlocked := false;
      r := if ok then |buf| else -ERROR;
    }

    method WriteAll(addr: nat, buf: seq<byte>) returns (ok: bool, ghost refused: bool)
      requires Valid() && unlocked && |buf| > 0
      modifies mem
      ensures ok ==>
                && START <= addr && addr + Up8(|buf|) <= END
                && mem[addr - START..addr - START + Up8(|buf|)] == Padded(buf)
      ensures !ok && !refused ==>
                exists k :: 0 <= k < Up8(|buf|) && START <= addr + k < END && mem[addr + k - START] != Padded(buf)[k]
      ensures Elsewhere(addr, Up8(|buf|))
    {
      hide Little, Padded;
      var i, cur := 0, addr;
      ok, refused := true, false;
      while i < |buf|
        invariant i <= |buf| && cur == addr + Up8(i) && (i < |buf| ==> i % 8 == 0)
        invariant i > 0 ==> START <= addr && cur <= END && mem[addr - START..cur - START] == Padded(buf[..i])
        invariant Elsewhere(addr, Up8(i))
      {
        ok, i, refused := WriteNext(addr, buf, cur, i);
        if !ok {
          return;
        }
        cur := cur + 8;
      }
      assert buf[..i] == buf;
    }

    /** One round: pack, program, check. */
    method WriteNext(addr: nat, buf: seq<byte>, cur: nat, i: nat) returns (ok: bool, i': nat, ghost refused: bool)
      requires Valid() && unlocked && i < |buf| && i % 8 == 0 && cur == addr + i
      requires i > 0 ==> START <= addr && cur <= END && mem[addr - START..cur - START] == Padded(buf[..i])
      modifies mem
      ensures i < i' <= |buf| && (i' < |buf| ==> i' % 8 == 0) && Up8(i') == Up8(i) + 8 == i + 8
      ensures ok ==> START <= addr && cur + 8 <= END && mem[addr - START..cur + 8 - START] == Padded(buf[..i'])
      ensures !ok && !refused ==>
                exists k :: 0 <= k < Up8(|buf|) && START <= addr + k < END && mem[addr + k - START] != Padded(buf)[k]
      ensures forall k :: 0 <= k < mem.Length && !(cur <= START + k < cur + 8) ==> mem[k] == old(mem[k])
    {
      hide Little, Padded;
      var data;
      data, i' := Pack(buf, i);
      ghost var part := Padded(buf[i..i']);
      LittlePadded(buf[i..i'], 8 - (i' - i));
      PaddedMore(buf, i, i');
      ghost var before := mem[..];
      ok, refused := WriteDouble(cur, data, part);
      Untouched(before, mem[..], cur);
      if ok {
        Joined(before, mem[..], addr, cur, buf, i, i');
      } else if !refused {
        Differs(mem[..], addr, cur, buf, i, i');
      }
    }
  }

  lemma PartOf(buf: seq<byte>, i: nat, i': nat)
    requires i < |buf| && i % 8 == 0 && i' == (if |buf| - i < 8 then |buf| else i + 8)
    ensures i + 8 <= Up8(|buf|) && Padded(buf)[i..i + 8] == Padded(buf[i..i'])
  {
    PaddedMore(buf, i, i');
    if i' == |buf| {
      assert buf[..i'] == buf;
    }
  }

  /** A double word that was not written shows in a cell. */
  lemma Differs(now: seq<byte>, addr: nat, cur: nat, buf: seq<byte>, i: nat, i': nat)
    requires i < |buf| && i % 8 == 0 && i' == (if |buf| - i < 8 then |buf| else i + 8) && cur == addr + i
    requires |now| == END - START && START <= cur && cur + 8 <= END
    requires now[cur - START..cur - START + 8] != Padded(buf[i..i'])
    ensures exists k :: 0 <= k < Up8(|buf|) && START <= addr + k < END && now[addr + k - START] != Padded(buf)[k]
  {
    hide Padded, Up8;
    PartOf(buf, i, i');
    var a, b := now[cur - START..cur - START + 8], Padded(buf)[i..i + 8];
    var j: nat :| j < 8 && a[j] != b[j];
    assert now[addr + (i + j) - START] != Padded(buf)[i + j];
  }

  lemma PaddedMore(buf: seq<byte>, i: nat, i': nat)
    requires i < |buf| && i % 8 == 0 && i' == (if |buf| - i < 8 then |buf| else i + 8)
    ensures Up8(i') == Up8(i) + 8 && Up8(i' - i) == 8
    ensures Padded(buf[i..i']) == buf[i..i'] + Zeros(8 - (i' - i))
    ensures Padded(buf[..i']) == buf[..i] + Padded(buf[i..i']) && Padded(buf[..i]) == buf[..i]
  {
    assert Up8(i) == i;
    assert buf[..i'] == buf[..i] + buf[i..i'];
    var z := Zeros(8 - (i' - i));
    assert buf[..i] + buf[i..i'] + z == buf[..i] + (buf[i..i'] + z);
    assert Zeros(0) == [];
  }

  lemma Joined(before: seq<byte>, now: seq<byte>, addr: nat, cur: nat, buf: seq<byte>, i: nat, i': nat)
    requires i < |buf| && i % 8 == 0 && i' == (if |buf| - i < 8 then |buf| else i + 8) && cur == addr + i
    requires |before| == |now| == END - START && START <= cur && cur + 8 <= END && (i > 0 ==> START <= addr)
    requires now[..cur - START] == before[..cur - START] && now[cur - START..cur - START + 8] == Padded(buf[i..i'])
    requires i > 0 ==> before[addr - START..cur - START] == Padded(buf[..i])
    ensures START <= addr && now[addr - START..cur + 8 - START] == Padded(buf[..i'])
  {
    PaddedMore(buf, i, i');
    if i > 0 {
      assert now[addr - START..cur - START] == before[addr - START..cur - START];
      assert now[addr - START..cur + 8 - START] == now[addr - START..cur - START] + now[cur - START..cur + 8 - START];
    }
  }

  lemma Untouched(before: seq<byte>, now: seq<byte>, cur: nat)
    requires |before| == |now| == END - START
    requires if START <= cur && cur + 8 <= END then
               now[..cur - START] == before[..cur - START] && now[cur - START + 8..] == before[cur - START + 8..]
             else now == before
    ensures forall k :: 0 <= k < |now| && !(cur <= START + k < cur + 8) ==> now[k] == before[k]
  {
    if START <= cur && cur + 8 <= END {
      var o := cur - START;
      forall k | 0 <= k < |now| && !(cur <= START + k < cur + 8) ensures now[k] == before[k] {
        if k < o {
          assert now[..o][k] == before[..o][k];
        } else {
          assert now[o + 8..][k - o - 8] == before[o + 8..][k - o - 8];
        }
      }
    }
  }

  /** The range check with 32-bit sums accepts exactly the ranges that end by END and
      those whose end wraps around to it. */
  lemma RangeCheck(addr: nat, size: nat)
    requires addr < WORD && size < WORD
    ensures (addr + size) % WORD <= END <==> addr + size <= END || WORD <= addr + size <= WORD + END
  {
  }

  /** Padding never reaches past an accepted range's limit. */
  lemma PaddingFits(addr: nat, size: nat)
    requires addr % 8 == 0 && addr + size <= END
    ensures addr + Up8(size) <= END && size <= Up8(size) < size + 8
  {
  }

  /** Write, then read: a successful write is read back as written, and the padding
      as zeros. */
  method WriteThenRead(flash: Flash, addr: nat, buf: seq<byte>, back: array<byte>) returns (ok: bool)
    requires flash.Valid() && addr < WORD && |buf| < WORD && back.Length == Up8(|buf|) && back != flash.mem
    modifies flash`unlocked, flash.mem, back
    ensures ok ==> back[..] == Padded(buf)
  {
    var r, refused := flash.Write(addr, buf);
    ok := r >= 0;
    if ok {
      var n, fault := flash.Read(addr, back);
    }
  }

  // ----- erase

  const PAGE: nat := 0x800

  /** Single: one bank holds the whole flash, as on the STM32L431 this firmware is
      built for. Dual: two banks of half the size, which the option byte can swap. */
  datatype Layout = Single | Dual(swapped: bool)

  /** FLASH_BANK_SIZE */
  function BankSize(l: Layout): nat {
    if l.Single? then END - START else (END - START) / 2
  }

  /** Where the addresses of the second bank would begin. */
  function Middle(l: Layout): nat {
    START + BankSize(l)
  }

  /** Unsigned 32-bit. */
  function U32(x: int): nat {
    x % WORD
  }

  function GetPage(l: Layout, addr: nat): nat {
    if addr < Middle(l) then U32(addr - START) / PAGE else U32(addr - Middle(l)) / PAGE
  }

  datatype Bank = Bank1 | Bank2

  function GetBank(l: Layout, addr: nat): Bank {
    match l
    case Single => Bank1
    case Dual(swapped) => if (addr < Middle(l)) != swapped then Bank1 else Bank2
  }

  datatype Erase = Erase(bank: Bank, first: nat, count: nat)

  /** The request stm32_flash_erase makes. */
  function EraseRequest(l: Layout, addr: nat, size: nat): Erase {
    var first := GetPage(l, addr);
    Erase(GetBank(l, addr), first, U32(GetPage(l, U32(addr + size - 1)) - first + 1))
  }

  /** Whether a bank answers for the addresses below the middle. */
  predicate IsLow(l: Layout, bank: Bank) {
    l.Single? || bank.Bank1? != l.swapped
  }

  /** The erase reaches page `k` below the middle, or above it. */
  predicate Erases(l: Layout, e: Erase, low: bool, k: nat) {
    IsLow(l, e.bank) == low && e.first <= k < e.first + e.count
  }

  function Base(l: Layout, low: bool): nat {
    if low then START else Middle(l)
  }

  /** Page `k` below or above the middle holds a byte of the range. */
  predicate Touches(l: Layout, addr: nat, size: nat, low: bool, k: nat) {
    var base := Base(l, low) + k * PAGE;
    size > 0 && addr < base + PAGE && base < addr + size
  }

  /** Exactly the pages of the range are erased. */
  predicate Exact(l: Layout, addr: nat, size: nat) {
    forall low, k :: 0 <= k < BankSize(l) / PAGE ==>
      (Erases(l, EraseRequest(l, addr, size), low, k) <==> Touches(l, addr, size, low, k))
  }

  /** The range lies in one bank; an empty range is between two pages of one bank,
      or, with two banks, at the end. */
  predicate WithinBank(l: Layout, addr: nat, size: nat) {
    if size == 0 then addr % PAGE == 0 && addr != START && addr != Middle(l)
    else addr >= Middle(l) || addr + size <= Middle(l)
  }

  /** For a range of the flash, with one bank or two, exactly its pages are erased
      if and only if it stays in one bank, or is empty and between two pages. Any
      other empty range erases the page around it, or the whole bank. */
  lemma EraseExact(l: Layout, addr: nat, size: nat)
    requires START <= addr && addr + size <= END
    ensures Exact(l, addr, size) <==> WithinBank(l, addr, size)
  {
    if WithinBank(l, addr, size) {
      forall low, k | 0 <= k < BankSize(l) / PAGE
        ensures Erases(l, EraseRequest(l, addr, size), low, k) <==> Touches(l, addr, size, low, k)
      {
        ExactAt(l, addr, size, low, k);
      }
    } else {
      Inexact(l, addr, size);
    }
  }

  /** With one bank every range that is not empty is erased exactly, and an empty
      one at the end of the flash erases all of it. */
  lemma SingleBank(addr: nat, size: nat)
    requires START <= addr && addr + size <= END
    ensures size > 0 ==> Exact(Single, addr, size)
    ensures addr == END ==> EraseRequest(Single, addr, 0) == Erase(Bank1, 0, (END - START) / PAGE)
  {
    EraseExact(Single, addr, size);
  }

  /** A page number is the offset's quotient. */
  lemma PageBounds(l: Layout, addr: nat, k: nat)
    requires START <= addr <= END
    ensures var base := Base(l, addr < Middle(l));
            && (k <= GetPage(l, addr) <==> base + k * PAGE <= addr)
            && (GetPage(l, addr) <= k <==> addr < base + k * PAGE + PAGE)
  {
    var x := addr - Base(l, addr < Middle(l));
    assert U32(x) == x;
    OffsetPage(x, k);
  }

  lemma OffsetPage(x: nat, k: nat)
    ensures (k <= x / PAGE <==> k * PAGE <= x) && (x / PAGE <= k <==> x < k * PAGE + PAGE)
  {
    assert x == x / PAGE * PAGE + x % PAGE;
  }

  lemma ExactAt(l: Layout, addr: nat, size: nat, low: bool, k: nat)
    requires START <= addr && addr + size <= END && WithinBank(l, addr, size) && k < BankSize(l) / PAGE
    ensures Erases(l, EraseRequest(l, addr, size), low, k) <==> Touches(l, addr, size, low, k)
  {
    hide GetPage, EraseRequest, IsLow;
    if size > 0 {
      Request(l, addr, size, low);
      PageBounds(l, addr, k);
      PageBounds(l, addr + size - 1, k);
    } else {
      EmptyErase(l, addr);
    }
  }

  /** The request for a range inside one bank, without its wrap-arounds. */
  lemma Request(l: Layout, addr: nat, size: nat, low: bool)
    requires START <= addr && addr + size <= END && WithinBank(l, addr, size) && size > 0
    ensures var e := EraseRequest(l, addr, size);
            && e.first == GetPage(l, addr) && e.first + e.count == GetPage(l, addr + size - 1) + 1
            && (IsLow(l, e.bank) == low <==> low == (addr < Middle(l)))
  {
    hide GetPage;
    var last := addr + size - 1;
    assert U32(last) == last;
    PageBounds(l, last, GetPage(l, addr));
    PageBounds(l, addr, GetPage(l, addr));
    PageSmall(l, last);
  }

  lemma PageSmall(l: Layout, addr: nat)
    requires START <= addr <= END
    ensures GetPage(l, addr) <= BankSize(l) / PAGE
  {
  }

  lemma EmptyErase(l: Layout, addr: nat)
    requires START <= addr <= END && WithinBank(l, addr, 0)
    ensures EraseRequest(l, addr, 0).count == 0
  {
    hide GetPage;
    assert U32(addr - 1) == addr - 1;
    var k := GetPage(l, addr);
    PageBounds(l, addr, k);
    Boundary(l, addr, k);
    PageBounds(l, addr - 1, k);
    PageBounds(l, addr - 1, k - 1);
  }

  lemma Boundary(l: Layout, addr: nat, k: nat)
    requires START <= addr <= END && WithinBank(l, addr, 0)
    requires Base(l, addr < Middle(l)) + k * PAGE <= addr < Base(l, addr < Middle(l)) + k * PAGE + PAGE
    ensures addr == Base(l, addr < Middle(l)) + k * PAGE && k > 0
  {
  }

  lemma Inexact(l: Layout, addr: nat, size: nat)
    requires START <= addr && addr + size <= END && !WithinBank(l, addr, size)
    ensures !Exact(l, addr, size)
  {
    var e := EraseRequest(l, addr, size);
    if size > 0 {
      assert !Erases(l, e, false, 0) && Touches(l, addr, size, false, 0);
    } else {
      EmptyErases(l, addr);
    }
  }

  /** An empty range at the wrong place still erases a page. */
  lemma EmptyErases(l: Layout, addr: nat)
    requires START <= addr <= END && !WithinBank(l, addr, 0)
    ensures !Exact(l, addr, 0)
  {
    hide EraseRequest, GetPage;
    var e := EraseRequest(l, addr, 0);
    var low := IsLow(l, e.bank);
    if addr == START {
      EmptyAtStart(l);
    } else if addr == Middle(l) {
      EmptyAtMiddle(l);
    } else {
      EmptyInside(l, addr);
    }
    assert Erases(l, e, low, e.first) && !Touches(l, addr, 0, low, e.first);
  }

  lemma EmptyAtStart(l: Layout)
    ensures EraseRequest(l, START, 0).first == 0 && EraseRequest(l, START, 0).count > 0
  {
    assert U32(START - 1) == START - 1;
    assert GetPage(l, START) == 0;
    assert GetPage(l, START - 1) == (WORD - 1) / PAGE;
  }

  lemma EmptyAtMiddle(l: Layout)
    ensures EraseRequest(l, Middle(l), 0).first == 0 && EraseRequest(l, Middle(l), 0).count == BankSize(l) / PAGE > 0
  {
    assert GetPage(l, Middle(l)) == 0;
    assert U32(Middle(l) - 1) == Middle(l) - 1;
    assert GetPage(l, Middle(l) - 1) == BankSize(l) / PAGE - 1;
  }

  lemma EmptyInside(l: Layout, addr: nat)
    requires START < addr <= END && addr != Middle(l) && addr % PAGE != 0
    ensures EraseRequest(l, addr, 0).first < BankSize(l) / PAGE && EraseRequest(l, addr, 0).count == 1
  {
    hide GetPage;
    var k := GetPage(l, addr);
    assert U32(addr - 1) == addr - 1;
    PageBounds(l, addr, k);
    Unaligned(l, addr, k);
    PageBounds(l, addr - 1, k);
    PageBounds(l, addr, BankSize(l) / PAGE - 1);
  }

  lemma Unaligned(l: Layout, addr: nat, k: nat)
    requires addr % PAGE != 0
    ensures addr != Base(l, true) + k * PAGE && addr != Base(l, false) + k * PAGE
  {
  }
}
