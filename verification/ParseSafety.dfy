/** On which texts, well-formed JSON or not, the parser never leaves the text
    or the blocks it sized. */
module ParseSafety {
  import opened CText
  import opened Numeral
  import opened Unescaping
  import opened ParseText
  import RoundTrip

  /** From `i`, outside any string: every string literal up to the end of the text
      can be read inside the block sized for it. Nothing is asked of the rest of
      the text. */
  predicate Tame(s: string, i: nat)
    requires i <= |s|
    decreases |s| - i
  {
    if i == |s| then true
    else if s[i] == '\0' then true
    else if s[i] != '"' then Tame(s, i + 1)
    else ParseString(s, i).Ok? && Tame(s, ParseString(s, i).end)
  }

  lemma TameString(s: string, i: nat)
    requires i <= |s| && Tame(s, i)
    ensures ParseString(s, i) != Undefined
    ensures ParseString(s, i).Ok? ==> Tame(s, ParseString(s, i).end)
  {
  }

  /** Stepping over characters that are no quotes stays outside strings. */
  lemma {:induction false} TameAfter(s: string, i: nat, j: nat)
    requires i <= j <= |s| && Tame(s, i)
    requires forall k :: i <= k < j ==> s[k] != '"' && s[k] != '\0'
    ensures Tame(s, j)
    decreases j - i
  {
    if i < j {
      TameAfter(s, i + 1, j);
    }
  }

  lemma {:induction false} SkipNoQuote(s: string, i: nat)
    requires i <= |s|
    ensures forall k :: i <= k < Skip(s, i) ==> s[k] != '"' && s[k] != '\0'
    decreases |s| - i
  {
    if IsBlank(At(s, i)) {
      SkipNoQuote(s, i + 1);
    }
  }

  lemma TameSkip(s: string, i: nat)
    requires i <= |s| && Tame(s, i)
    ensures Tame(s, Skip(s, i))
  {
    SkipNoQuote(s, i);
    TameAfter(s, i, Skip(s, i));
  }

  lemma {:induction false} DigitsNoQuote(s: string, i: nat, acc: nat)
    requires i <= |s|
    ensures forall k :: i <= k < Digits(s, i, acc).end ==> s[k] != '"' && s[k] != '\0'
    decreases |s| - i
  {
    if IsDigit(At(s, i)) {
      DigitsNoQuote(s, i + 1, acc * 10 + DigitVal(At(s, i)));
    }
  }

  lemma ExponentNoQuote(s: string, i: nat)
    requires i <= |s|
    ensures forall k :: i <= k < ParseExponent(s, i).1 ==> s[k] != '"' && s[k] != '\0'
  {
    if At(s, i) == 'e' || At(s, i) == 'E' {
      var signed := At(s, i + 1) == '+' || At(s, i + 1) == '-';
      DigitsNoQuote(s, if signed then i + 2 else i + 1, 0);
    }
  }

  lemma TameNumber(s: string, i: nat)
    requires i <= |s| && Tame(s, i)
    ensures Tame(s, ParseNumber(s, i).end)
  {
    NumberNoQuote(s, i);
    hide Tame, ParseNumber;
    TameAfter(s, i, ParseNumber(s, i).end);
  }

  lemma NumberNoQuote(s: string, i: nat)
    requires i <= |s|
    ensures forall k :: i <= k < ParseNumber(s, i).end ==> s[k] != '"' && s[k] != '\0'
  {
    hide Digits, ParseExponent;
    var i1 := if At(s, i) == '-' then i + 1 else i;
    var i2 := if At(s, i1) == '0' then i1 + 1 else i1;
    var whole := if '1' <= At(s, i2) <= '9' then Digits(s, i2, 0) else Run(0, i2);
    var dot := At(s, whole.end) == '.' && IsDigit(At(s, whole.end + 1));
    var frac := if dot then Digits(s, whole.end + 1, whole.n) else whole;
    assert ParseNumber(s, i).end == ParseExponent(s, frac.end).1;
    hide ParseNumber;
    DigitsNoQuote(s, i2, 0);
    assert forall k :: i <= k < whole.end ==> s[k] != '"' && s[k] != '\0';
    if dot {
      DigitsNoQuote(s, whole.end + 1, whole.n);
    }
    ExponentNoQuote(s, frac.end);
  }

  lemma TameLiteral(s: string, i: nat, t: string)
    requires i <= |s| && Tame(s, i) && Has(s, i, t)
    requires t == "null" || t == "false" || t == "true"
    ensures Tame(s, i + |t|)
  {
    hide Tame;
    forall k | i <= k < i + |t| ensures s[k] != '"' && s[k] != '\0' {
      HasAt(s, i, t, k - i);
    }
    TameAfter(s, i, i + |t|);
  }

  /** The parser is memory-safe on every tame text, and stays outside strings. */
  lemma {:induction false} TameValue(s: string, i: nat)
    requires i <= |s| && Tame(s, i)
    ensures ParseValue(s, i) != Undefined
    ensures ParseValue(s, i).Ok? ==> Tame(s, ParseValue(s, i).end)
    decreases |s| - i, 0
  {
    hide Tame, ParseNumber, ParseString, Has, ParseArray, ParseObject;
    if Has(s, i, "null") {
      TameLiteral(s, i, "null");
    } else if Has(s, i, "false") {
      TameLiteral(s, i, "false");
    } else if Has(s, i, "true") {
      TameLiteral(s, i, "true");
    } else if At(s, i) == '"' {
      TameString(s, i);
    } else if At(s, i) == '-' || IsDigit(At(s, i)) {
      TameNumber(s, i);
    } else if At(s, i) == '[' {
      TameArray(s, i);
    } else if At(s, i) == '{' {
      TameObject(s, i);
    }
  }

  lemma {:induction false} TameArray(s: string, i: nat)
    requires i < |s| && s[i] == '[' && Tame(s, i)
    ensures ParseArray(s, i) != Undefined
    ensures ParseArray(s, i).Ok? ==> Tame(s, ParseArray(s, i).end)
    decreases |s| - i - 1, 2
  {
    hide Skip;
    TameAfter(s, i, i + 1);
    TameSkip(s, i + 1);
    var j := Skip(s, i + 1);
    if At(s, j) == ']' {
      TameAfter(s, j, j + 1);
    } else {
      TameItems(s, j);
    }
  }

  lemma {:induction false} TameItems(s: string, i: nat)
    requires i <= |s| && Tame(s, i)
    ensures ParseItems(s, i) != Undefined
    ensures ParseItems(s, i).Ok? ==> Tame(s, ParseItems(s, i).end)
    decreases |s| - i, 1
  {
    hide Tame, ParseValue, Skip;
    TameSkip(s, i);
    TameValue(s, Skip(s, i));
    if ParseValue(s, Skip(s, i)).Ok? {
      var e := ParseValue(s, Skip(s, i)).end;
      TameSkip(s, e);
      var j := Skip(s, e);
      if At(s, j) == ',' {
        TameAfter(s, j, j + 1);
        TameItems(s, j + 1);
      } else if At(s, j) == ']' {
        TameAfter(s, j, j + 1);
      }
    }
  }

  lemma {:induction false} TameObject(s: string, i: nat)
    requires i < |s| && s[i] == '{' && Tame(s, i)
    ensures ParseObject(s, i) != Undefined
    ensures ParseObject(s, i).Ok? ==> Tame(s, ParseObject(s, i).end)
    decreases |s| - i - 1, 2
  {
    hide Skip;
    TameAfter(s, i, i + 1);
    TameSkip(s, i + 1);
    var j := Skip(s, i + 1);
    if At(s, j) == '}' {
      TameAfter(s, j, j + 1);
    } else {
      TameMembers(s, j);
    }
  }

  lemma {:induction false} TameMembers(s: string, i: nat)
    requires i <= |s| && Tame(s, i)
    ensures ParseMembers(s, i) != Undefined
    ensures ParseMembers(s, i).Ok? ==> Tame(s, ParseMembers(s, i).end)
    decreases |s| - i, 1
  {
    hide Tame, ParseMember, Skip;
    TameMember(s, i);
    if ParseMember(s, i).Ok? {
      var e := ParseMember(s, i).end;
      TameSkip(s, e);
      var j := Skip(s, e);
      if At(s, j) == ',' {
        TameAfter(s, j, j + 1);
        TameMembers(s, j + 1);
      } else if At(s, j) == '}' {
        TameAfter(s, j, j + 1);
      }
    }
  }

  lemma {:induction false} TameMember(s: string, i: nat)
    requires i <= |s| && Tame(s, i)
    ensures ParseMember(s, i) != Undefined
    ensures ParseMember(s, i).Ok? ==> Tame(s, ParseMember(s, i).end)
    decreases |s| - i, 0
  {
    hide Tame, ParseString, ParseValue, Skip;
    TameSkip(s, i);
    TameString(s, Skip(s, i));
    if ParseString(s, Skip(s, i)).Ok? {
      var e := ParseString(s, Skip(s, i)).end;
      TameSkip(s, e);
      var j := Skip(s, e);
      if At(s, j) == ':' {
        TameAfter(s, j, j + 1);
        TameSkip(s, j + 1);
        TameValue(s, Skip(s, j + 1));
      }
    }
  }

  /** cJSON_ParseWithOpts never leaves a tame text, whatever its JSON syntax. */
  lemma TameDocument(s: string, requireEnd: bool)
    requires Tame(s, 0)
    ensures ParseDocument(s, requireEnd) != Undefined
  {
    hide Tame, ParseValue, Skip;
    TameSkip(s, 0);
    TameValue(s, Skip(s, 0));
  }

  /** Not every text is tame: for `["{"]` the sizing pass counts one character and
      decoding yields three. */
  lemma UnbalancedOverflows()
    ensures ParseDocument("[\"{\"]", false) == Undefined
  {
    var s := "[\"{\"]";
    LiteralOverflows(s);
    assert !IsBlank(s[0]) && !IsBlank(s[1]);
    assert Skip(s, 0) == 0 && Skip(s, 1) == 1;
    ArrayOverflows(s);
  }

  lemma LiteralOverflows(s: string)
    requires s == "[\"{\"]"
    ensures ParseString(s, 1) == Undefined
  {
    assert Decode(s, 5, 1) == Decoded("", 5);
    assert Decode(s, 4, 1).out == "]";
    assert Decode(s, 3, 1).out == "\"]";
    assert Decode(s, 2, 0).out == "{\"]";
    assert Scan(s, 2) == Sized(1);
  }

  lemma ArrayOverflows(s: string)
    requires |s| > 1 && s[0] == '[' && s[1] == '"' && ParseString(s, 1) == Undefined && Skip(s, 0) == 0 && Skip(s, 1) == 1
    ensures ParseDocument(s, false) == Undefined
  {
    hide ParseString, ParseNumber, Skip;
    RoundTrip.NotLiteral(s, 1);
    RoundTrip.EntersArray(s, 0);
    assert ParseValue(s, 1) == Undefined;
    hide ParseValue;
    assert ParseItems(s, 1) == Undefined;
  }
}
