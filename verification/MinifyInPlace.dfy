/** cJSON_Minify as it runs: one buffer, a reading and a writing cursor. */
module MinifyInPlace {
  import opened CText
  import opened MinifyText

  /** From `i` on the buffer still holds the text and its terminator. */
  ghost predicate Unread(json: array<char>, s: string, i: nat)
    reads json
  {
    |s| < json.Length && forall k :: i <= k <= |s| ==> json[k] == At(s, k)
  }

  method SkipLine(json: array<char>, i: nat, ghost s: string) returns (j: nat)
    requires Unread(json, s, i) && i <= |s| && '\0' !in s
    ensures j == LineEnd(s, i)
  {
    j := i;
    while json[j] != '\0' && json[j] != '\n'
      invariant i <= j <= |s| && LineEnd(s, i) == LineEnd(s, j)
      decreases |s| - j
    {
      j := j + 1;
    }
  }

  method SkipComment(json: array<char>, i: nat, ghost s: string) returns (j: nat)
    requires Unread(json, s, i) && i <= |s| && '\0' !in s
    ensures j == CommentEnd(s, i)
  {
    j := i;
    while json[j] != '\0' && !(json[j] == '*' && json[j + 1] == '/')
      invariant i <= j <= |s| && CommentEnd(s, i) == CommentEnd(s, j)
      decreases |s| - j
    {
      j := j + 1;
    }
  }

  /** The text from `start` to `i` has been moved to `dest`, behind `head`. */
  ghost predicate Copied(json: array<char>, s: string, start: nat, dest: nat, i: nat, head: string)
    reads json
  {
    && dest <= start <= i <= |s| && Unread(json, s, i) && |head| == dest
    && json[..dest] == head && json[dest..dest + (i - start)] == s[start..i]
  }

  /** `*into++=*json++` */
  method CopyChar(json: array<char>, start: nat, dest: nat, i: nat, ghost s: string, ghost head: string)
    requires Copied(json, s, start, dest, i, head) && i < |s|
    modifies json
    ensures Copied(json, s, start, dest, i + 1, head)
  {
    var into := dest + (i - start);
    assert json[i] == s[i];
    json[into] := json[i];
    assert json[..dest] == head;
    assert json[dest..into] == s[start..i];
    assert json[dest..into + 1] == json[dest..into] + [s[i]];
    assert s[start..i + 1] == s[start..i] + [s[i]];
  }

  /** A string literal moves down, quotes and escapes included. */
  method CopyLiteral(json: array<char>, start: nat, dest: nat, ghost s: string, ghost head: string) returns (i: nat, into: nat)
    requires Copied(json, s, start, dest, start, head) && start < |s| && s[start] == '"' && '\0' !in s
    requires LiteralEnd(s, start + 1) <= |s|
    modifies json
    ensures i == LiteralEnd(s, start + 1) && into == dest + (i - start) && Copied(json, s, start, dest, i, head)
  {
    hide Copied;
    CopiedFacts(json, s, start, dest, start, head);
    CopyChar(json, start, dest, start, s, head);
    i := start + 1;
    CopiedFacts(json, s, start, dest, i, head);
    while json[i] != '\0' && json[i] != '"'
      invariant start < i <= |s| && LiteralEnd(s, i) == LiteralEnd(s, start + 1)
      invariant Copied(json, s, start, dest, i, head) && |s| < json.Length && json[i] == At(s, i)
      decreases |s| - i
    {
      if json[i] == '\\' {
        CopyChar(json, start, dest, i, s, head);
        i := i + 1;
        CopiedFacts(json, s, start, dest, i, head);
      }
      CopyChar(json, start, dest, i, s, head);
      i := i + 1;
      CopiedFacts(json, s, start, dest, i, head);
    }
    CopyChar(json, start, dest, i, s, head);
    i := i + 1;
    into := dest + (i - start);
  }

  lemma CopiedFacts(json: array<char>, s: string, start: nat, dest: nat, i: nat, head: string)
    requires Copied(json, s, start, dest, i, head)
    ensures |s| < json.Length && i <= |s| && json[i] == At(s, i)
  {
  }

  /** What one step does to the text still to be minified. */
  lemma StepOn(s: string, i: nat, whole: string, into: nat, kept: string, next: nat)
    requires i <= |s| && next <= |s| && into <= |whole|
    requires Minify(s, i) == Kept(whole[into..]) && Minify(s, i) == Put(kept, Minify(s, next))
    ensures into + |kept| <= |whole| && whole[into..into + |kept|] == kept
    ensures Minify(s, next) == Kept(whole[into + |kept|..])
  {
    hide Minify;
    var rest := Minify(s, next).out;
    assert whole[into..] == kept + rest;
    assert |whole[into..]| == |kept| + |rest|;
    assert whole[into..into + |kept|] == whole[into..][..|kept|];
    assert whole[into + |kept|..] == whole[into..][|kept|..];
  }

  /** The buffer ends up holding exactly what MinifyText says is kept. The write
      cursor never passes the read cursor. */
  method MinifyBuffer(json: array<char>, ghost s: string)
    requires |s| < json.Length && json[..|s|] == s && json[|s|] == '\0' && '\0' !in s
    requires Minify(s, 0).Kept?
    modifies json
    ensures var out := Minify(s, 0).out;
            |out| <= |s| && json[..|out|] == out && json[|out|] == '\0'
  {
    hide Minify;
    ghost var whole := Minify(s, 0).out;
    assert whole[0..] == whole;
    var i: nat, into: nat := 0, 0;
    while json[i] != '\0'
      invariant into <= i <= |s| && into <= |whole|
      invariant Unread(json, s, i) && Minify(s, i) == Kept(whole[into..])
      invariant json[..into] == whole[..into]
      decreases |s| - i
    {
      i, into := MinifyStep(json, i, into, s, whole);
    }
    EndOfText(s, i);
    json[into] := '\0';
  }

  lemma EndOfText(s: string, i: nat)
    requires i <= |s| && At(s, i) == '\0'
    ensures Minify(s, i) == Kept("")
  {
  }

  /** One turn of the loop. */
  method MinifyStep(json: array<char>, start: nat, dest: nat, ghost s: string, ghost whole: string) returns (i: nat, into: nat)
    requires dest <= start < |s| && dest <= |whole| && '\0' !in s
    requires Unread(json, s, start) && Minify(s, start) == Kept(whole[dest..]) && json[..dest] == whole[..dest]
    modifies json
    ensures start < i <= |s| && into <= i && into <= |whole|
    ensures Unread(json, s, i) && Minify(s, i) == Kept(whole[into..]) && json[..into] == whole[..into]
  {
    i, into := start, dest;
    if json[i] == ' ' || json[i] == '\t' || json[i] == '\r' || json[i] == '\n' {
      i := i + 1;
    } else if json[i] == '/' && json[i + 1] == '/' {
      i := SkipLine(json, i, s);
    } else if json[i] == '/' && json[i + 1] == '*' {
      i := SkipComment(json, i, s);
      i := i + 2;
    } else {
      i, into := MinifyKept(json, start, dest, s, whole);
    }
  }

  /** The two steps that keep characters. */
  method MinifyKept(json: array<char>, start: nat, dest: nat, ghost s: string, ghost whole: string) returns (i: nat, into: nat)
    requires dest <= start < |s| && dest <= |whole| && '\0' !in s
    requires Unread(json, s, start) && Minify(s, start) == Kept(whole[dest..]) && json[..dest] == whole[..dest]
    requires !IsSpace(s[start]) && !(s[start] == '/' && (At(s, start + 1) == '/' || At(s, start + 1) == '*'))
    modifies json
    ensures start < i <= |s| && into <= i && into <= |whole|
    ensures Unread(json, s, i) && Minify(s, i) == Kept(whole[into..]) && json[..into] == whole[..into]
  {
    i, into := start, dest;
    assert Copied(json, s, start, dest, start, whole[..dest]);
    if json[i] == '"' {
      StepOn(s, start, whole, dest, s[start..LiteralEnd(s, start + 1)], LiteralEnd(s, start + 1));
      hide Minify, LiteralEnd, Copied;
      i, into := CopyLiteral(json, start, dest, s, whole[..dest]);
    } else {
      StepOn(s, start, whole, dest, [s[start]], start + 1);
      assert s[start..start + 1] == [s[start]];
      hide Minify, Copied;
      CopyChar(json, start, dest, i, s, whole[..dest]);
      i, into := i + 1, into + 1;
    }
    CopiedPrefix(json, s, start, dest, i, whole, into);
  }

  lemma CopiedPrefix(json: array<char>, s: string, start: nat, dest: nat, i: nat, whole: string, into: nat)
    requires dest <= into <= |whole| && Copied(json, s, start, dest, i, whole[..dest])
    requires into == dest + (i - start) && whole[dest..into] == s[start..i]
    ensures into <= json.Length && json[..into] == whole[..into] && Unread(json, s, i) && into <= i <= |s|
  {
    assert whole[..into] == whole[..dest] + whole[dest..into];
    assert json[..into] == json[..dest] + json[dest..into];
  }
}
