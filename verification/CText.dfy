/** NUL-terminated C text. A text is the sequence of characters before its
    terminator; reading at its length yields the terminator. */
module CText {

  /** The character a C pointer at offset `i` reads. */
  function At(s: string, i: nat): char {
    if i < |s| then s[i] else '\0'
  }

  /** Text `t` stands in `s` at offset `i`. */
  predicate Has(s: string, i: nat, t: string) {
    i + |t| <= |s| && s[i..i + |t|] == t
  }

  lemma HasConcat(s: string, i: nat, a: string, b: string)
    ensures Has(s, i, a + b) <==> Has(s, i, a) && Has(s, i + |a|, b)
  {
    if i + |a| + |b| <= |s| {
      assert s[i..i + |a + b|] == s[i..i + |a|] + s[i + |a|..i + |a| + |b|];
      if Has(s, i, a + b) {
        assert s[i..i + |a|] == (a + b)[..|a|] == a;
        assert s[i + |a|..i + |a| + |b|] == (a + b)[|a|..] == b;
      }
    }
  }

  /** A text made of three pieces, taken apart. */
  lemma HasThree(s: string, i: nat, a: string, b: string, c: string, abc: string)
    requires abc == a + (b + c) && Has(s, i, abc)
    ensures |abc| == |a| + |b| + |c| && i + |abc| <= |s|
    ensures Has(s, i, a) && Has(s, i + |a|, b) && Has(s, i + |a| + |b|, c)
  {
    HasConcat(s, i, a, b + c);
    HasConcat(s, i + |a|, b, c);
  }

  lemma HasFirst(s: string, i: nat, t: string)
    requires Has(s, i, t) && |t| > 0
    ensures At(s, i) == t[0]
    ensures Has(s, i, [t[0]]) && Has(s, i + 1, t[1..])
  {
    assert t == [t[0]] + t[1..];
    HasConcat(s, i, [t[0]], t[1..]);
    assert s[i..i + |t|][0] == s[i];
  }

  lemma HasAt(s: string, i: nat, t: string, k: nat)
    requires Has(s, i, t) && k < |t|
    ensures At(s, i + k) == t[k]
  {
    assert s[i..i + |t|][k] == s[i + k];
  }

  predicate IsBlank(c: char) {
    '\0' < c <= ' '
  }

  /** `skip`: the first offset at or after `i` that holds no blank. */
  function Skip(s: string, i: nat): (j: nat)
    requires i <= |s|
    ensures i <= j <= |s|
    ensures !IsBlank(At(s, j))
    decreases |s| - i
  {
    if IsBlank(At(s, i)) then Skip(s, i + 1) else i
  }

  lemma StaysPut(s: string, i: nat)
    requires i <= |s| && !IsBlank(At(s, i))
    ensures Skip(s, i) == i
  {
  }

  /** Blanks in front of a non-blank are skipped exactly. */
  lemma {:induction false} SkipOver(s: string, i: nat, t: string)
    requires Has(s, i, t)
    requires AllBlank(t)
    ensures Skip(s, i) == Skip(s, i + |t|)
    decreases |t|
  {
    if |t| > 0 {
      HasFirst(s, i, t);
      SkipOver(s, i + 1, t[1..]);
    }
  }

  function Count(s: string, c: char): nat {
    if s == "" then 0 else (if s[0] == c then 1 else 0) + Count(s[1..], c)
  }

  predicate AllBlank(t: string) {
    t == "" || (IsBlank(t[0]) && AllBlank(t[1..]))
  }

  lemma TabsBlank(n: int)
    ensures AllBlank(Tabs(n))
    decreases if n > 0 then n else 0
  {
    if n > 0 {
      TabsBlank(n - 1);
      assert Tabs(n)[1..] == Tabs(n - 1);
    }
  }

  function Tabs(n: int): (t: string)
    ensures |t| == if n > 0 then n else 0
  {
    if n <= 0 then "" else "\t" + Tabs(n - 1)
  }
}
