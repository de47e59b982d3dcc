/** Writing text into a heap block: plain copies and escaped strings. */
module TextWriting {
  import opened Escape
  import opened Memory
  import opened Trees
  import opened ParseStringHeap
  import opened Duplicate

  /** From offset `k` the block holds `t`; before `k` it is as `b` was. */
  ghost predicate Wrote(b: seq<char>, b': seq<char>, k: nat, t: string) {
    |b'| == |b| && k + |t| <= |b| && b'[..k] == b[..k] && b'[k..k + |t|] == t
  }

  lemma WroteTwice(b0: seq<char>, b1: seq<char>, b2: seq<char>, k: nat, t: string, u: string, tu: string)
    requires Wrote(b0, b1, k, t) && Wrote(b1, b2, k + |t|, u) && tu == t + u
    ensures Wrote(b0, b2, k, tu)
  {
    assert b2[..k + |t|][..k] == b2[..k] && b1[..k + |t|][..k] == b1[..k];
    assert b2[k..k + |t|] == b2[..k + |t|][k..] && b1[k..k + |t|] == b1[..k + |t|][k..];
    assert b2[k..k + |tu|] == b2[k..k + |t|] + b2[k + |t|..k + |tu|];
  }

  lemma WroteOne(b: seq<char>, k: nat, c: char)
    requires k < |b|
    ensures Wrote(b, b[k := c], k, [c])
  {
  }

  lemma WroteNothing(b: seq<char>, k: nat)
    requires k <= |b|
    ensures Wrote(b, b, k, "")
  {
  }

  /** strcpy, memcpy or sprintf of a known text, without its terminator. */
  method WriteText(heap: Heap, p: Ptr, k: nat, text: string, ghost m: Cells, ghost b: seq<char>)
    returns (ghost b': seq<char>)
    requires Holds(heap, m, p, b) && k + |text| <= |b|
    modifies heap`cells
    ensures Holds(heap, m, p, b') && Wrote(b, b', k, text)
  {
    hide Holds;
    b' := b;
    var i := 0;
    WroteNothing(b, k);
    while i < |text|
      invariant i <= |text| && Holds(heap, m, p, b') && Wrote(b, b', k, text[..i])
    {
      Put(heap, p, k + i, text[i], m, b');
      WroteOne(b', k + i, text[i]);
      WroteTwice(b, b', b'[k + i := text[i]], k, text[..i], [text[i]], text[..i + 1]);
      b' := b'[k + i := text[i]];
      i := i + 1;
    }
    assert text[..i] == text;
  }

  // ----- print_string_ptr

  /** The scan for characters that need escaping. */
  method NeedsEscape(heap: Heap, str: Ptr, ghost s: string) returns (flag: bool, len: nat)
    requires TextAt(heap.cells, str, s)
    ensures len == |s|
    ensures !flag ==> forall k :: 0 <= k < |s| ==> IsPlain(s[k])
  {
    TextChars(heap.cells, str, s);
    flag, len := false, 0;
    while heap.cells[str].bytes[len] != '\0'
      invariant len <= |s| && (!flag ==> forall k :: 0 <= k < len ==> IsPlain(s[k]))
      decreases |s| - len
    {
      var c := heap.cells[str].bytes[len];
      if ('\0' < c < ' ') || c == '"' || c == '\\' {
        flag := true;
      }
      len := len + 1;
    }
  }

  /** The sizing pass: it counts exactly what the writing pass will emit. */
  method EscapedSize(heap: Heap, str: Ptr, ghost s: string) returns (len: nat)
    requires TextAt(heap.cells, str, s)
    ensures len == |EscapeAll(s)|
  {
    hide EscapeAll, EscapeChar;
    TextChars(heap.cells, str, s);
    var i := 0;
    len := 0;
    assert s[..0] == "";
    EscapeNothing();
    while heap.cells[str].bytes[i] != '\0'
      invariant i <= |s| && len == |EscapeAll(s[..i])|
      decreases |s| - i
    {
      var token := heap.cells[str].bytes[i];
      EscapeAllSnoc(s[..i], token);
      assert s[..i + 1] == s[..i] + [token];
      EscapeWidth(token);
      len := len + 1;
      if token in "\"\\\U{8}\U{c}\n\r\t" {
        len := len + 1;
      } else if token < ' ' {
        len := len + 5;
      }
      i := i + 1;
    }
    assert s[..i] == s;
  }

  lemma EscapeNothing()
    ensures EscapeAll("") == ""
  {
  }

  lemma EscapeWidth(c: char)
    ensures |EscapeChar(c)| == if c in "\"\\\U{8}\U{c}\n\r\t" then 2 else if c < ' ' then 6 else 1
  {
    var t := "\"\\\U{8}\U{c}\n\r\t";
    assert t[0] == '"' && t[1] == '\\' && t[2] == '\U{8}' && t[3] == '\U{c}' && t[4] == '\n' && t[5] == '\r' && t[6] == '\t';
  }

  /** One character of the writing pass. */
  method WriteEscaped(heap: Heap, c: char, p: Ptr, k: nat, ghost m: Cells, ghost b: seq<char>)
    returns (n: nat, ghost b': seq<char>)
    requires Holds(heap, m, p, b) && k + |EscapeChar(c)| <= |b|
    modifies heap`cells
    ensures n == |EscapeChar(c)| && Holds(heap, m, p, b') && Wrote(b, b', k, EscapeChar(c))
  {
    hide Holds, Wrote;
    if c > '\U{1f}' && c != '"' && c != '\\' {
      Put(heap, p, k, c, m, b);
      WroteOne(b, k, c);
      return 1, b[k := c];
    }
    Put(heap, p, k, '\\', m, b);
    WroteOne(b, k, '\\');
    b' := b[k := '\\'];
    var rest;
    match c {
      case '\\' => rest := "\\";
      case '"' => rest := "\"";
      case '\U{8}' => rest := "b";
      case '\U{c}' => rest := "f";
      case '\n' => rest := "n";
      case '\r' => rest := "r";
      case '\t' => rest := "t";
      case _ => rest := "u" + Hex4Text(c as int);
    }
    EscapeTail(c, rest);
    ghost var b1 := b';
    b' := WriteText(heap, p, k + 1, rest, m, b1);
    WroteTwice(b, b1, b', k, "\\", rest, EscapeChar(c));
    n := 1 + |rest|;
  }

  lemma EscapeTail(c: char, rest: string)
    requires !IsPlain(c)
    requires rest == if ShortEscape(c) != '\0' then [ShortEscape(c)] else "u" + Hex4Text(c as int)
    ensures EscapeChar(c) == "\\" + rest
  {
  }

  /** The writing pass over the whole string. */
  method WriteAllEscaped(heap: Heap, str: Ptr, p: Ptr, k: nat, ghost m: Cells, ghost b: seq<char>, ghost s: string)
    returns (n: nat, ghost b': seq<char>)
    requires TextAt(m, str, s) && str != p && Holds(heap, m, p, b) && k + |EscapeAll(s)| <= |b|
    modifies heap`cells
    ensures n == |EscapeAll(s)| && Holds(heap, m, p, b') && Wrote(b, b', k, EscapeAll(s))
  {
    hide EscapeAll, EscapeChar, Wrote;
    TextChars(m, str, s);
    var i := 0;
    n, b' := 0, b;
    EscapeNothing();
    WroteNothing(b, k);
    assert s[..0] == "";
    while heap.cells[str].bytes[i] != '\0'
      invariant i <= |s| && n == |EscapeAll(s[..i])|
      invariant Holds(heap, m, p, b') && Wrote(b, b', k, EscapeAll(s[..i])) && |b'| == |b|
      decreases |s| - i
    {
      var c := heap.cells[str].bytes[i];
      EscapedPrefix(s, i);
      ghost var b1 := b';
      var w;
      w, b' := WriteEscaped(heap, c, p, k + n, m, b1);
      WroteTwice(b, b1, b', k, EscapeAll(s[..i]), EscapeChar(c), EscapeAll(s[..i + 1]));
      WroteLength(b1, b', k + n, EscapeChar(c));
      n := n + w;
      i := i + 1;
    }
    assert s[..i] == s;
  }

  lemma WroteLength(b: seq<char>, b': seq<char>, k: nat, t: string)
    requires Wrote(b, b', k, t)
    ensures |b'| == |b|
  {
  }

  lemma EscapedPrefix(s: string, i: nat)
    requires i < |s|
    ensures EscapeAll(s[..i + 1]) == EscapeAll(s[..i]) + EscapeChar(s[i])
    ensures |EscapeAll(s[..i + 1])| <= |EscapeAll(s)|
  {
    assert s[..i + 1] == s[..i] + [s[i]];
    EscapeAllSnoc(s[..i], s[i]);
    assert s == s[..i + 1] + s[i + 1..];
    EscapeAllConcat(s[..i + 1], s[i + 1..]);
  }

  /** print_string_ptr's size request, quotes and terminator included. */
  method QuotedSize(heap: Heap, str: Ptr, ghost s: string) returns (flag: bool, len: nat)
    requires TextAt(heap.cells, str, s)
    ensures len == |EscapeAll(s)|
    ensures !flag ==> EscapeAll(s) == s
  {
    flag, len := NeedsEscape(heap, str, s);
    if flag {
      len := EscapedSize(heap, str, s);
    } else {
      EscapeAllPlain(s);
    }
  }

  /** print_string_ptr's output: the fast path copies the string, the slow path
      escapes it; both put the same quoted text and a terminator. */
  method WriteQuoted(heap: Heap, str: Ptr, flag: bool, p: Ptr, k: nat, ghost m: Cells, ghost b: seq<char>,
                     ghost s: string)
    returns (ghost b': seq<char>)
    requires TextAt(m, str, s) && str != p && Holds(heap, m, p, b) && k + |Quote(s)| < |b|
    requires !flag ==> EscapeAll(s) == s
    modifies heap`cells
    ensures Holds(heap, m, p, b') && Wrote(b, b', k, Quote(s) + ['\0'])
  {
    hide EscapeAll, Wrote;
    Put(heap, p, k, '"', m, b);
    WroteOne(b, k, '"');
    ghost var b1, b2 := b[k := '"'], b;
    var n;
    if !flag {
      n, b2 := CopyString(heap, str, p, k + 1, m, b1, s);
    } else {
      n, b2 := WriteAllEscaped(heap, str, p, k + 1, m, b1, s);
    }
    WroteTwice(b, b1, b2, k, "\"", EscapeAll(s), "\"" + EscapeAll(s));
    b' := WriteText(heap, p, k + 1 + n, "\"\0", m, b2);
    assert Quote(s) + ['\0'] == ("\"" + EscapeAll(s)) + "\"\0";
    WroteTwice(b, b2, b', k, "\"" + EscapeAll(s), "\"\0", Quote(s) + ['\0']);
  }

  /** strcpy between blocks, without the terminator. */
  method CopyString(heap: Heap, str: Ptr, p: Ptr, k: nat, ghost m: Cells, ghost b: seq<char>, ghost s: string)
    returns (n: nat, ghost b': seq<char>)
    requires TextAt(m, str, s) && str != p && Holds(heap, m, p, b) && k + |s| <= |b|
    modifies heap`cells
    ensures n == |s| && Holds(heap, m, p, b') && Wrote(b, b', k, s)
  {
    hide Wrote, TextAt;
    SameBlock(heap, m, p, b, str, s);
    n := StrLen(heap, str, s);
    TextPrefix(heap.cells, str, s);
    b' := WriteText(heap, p, k, heap.cells[str].bytes[..n], m, b);
  }

  lemma SameBlock(heap: Heap, m: Cells, p: Ptr, b: seq<char>, str: Ptr, s: string)
    requires Holds(heap, m, p, b) && str != p && TextAt(m, str, s)
    ensures TextAt(heap.cells, str, s)
  {
  }

  lemma TextPrefix(m: Cells, str: Ptr, s: string)
    requires TextAt(m, str, s)
    ensures IsBlock(m, str) && |s| <= |m[str].bytes| && m[str].bytes[..|s|] == s
  {
  }
}
