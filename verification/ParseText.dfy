/** What the recursive parser does to a text: the value and end offset, the
    error position it reports, or Undefined where the C code would leave the
    text or the block it sized for a string. */
module ParseText {
  import opened CText
  import opened JsonValue
  import opened Numeral
  import opened Unescaping

  datatype Parsed<+T> = Ok(value: T, end: nat) | Fail(at: nat) | Undefined {
    predicate IsFailure() { !Ok? }
    function PropagateFailure<U>(): Parsed<U>
      requires IsFailure()
    {
      if Fail? then Fail(at) else Undefined
    }
    function Extract(): (T, nat)
      requires Ok?
    {
      (value, end)
    }
  }

  /** parse_string, with the capacity its first loop provides. */
  function ParseString(s: string, i: nat): (r: Parsed<string>)
    requires i <= |s|
    ensures r.Ok? ==> i < r.end <= |s|
  {
    if At(s, i) != '"' then Fail(i)
    else
      var size := Scan(s, i + 1);
      var r := Decode(s, i + 1, 0);
      if size.Unsized? || r.Overrun? || |r.out| > size.len then Undefined else Ok(r.out, r.end)
  }

  function ParseValue(s: string, i: nat): (r: Parsed<Json>)
    requires i <= |s|
    ensures r.Ok? ==> i < r.end <= |s|
    decreases |s| - i, 0
  {
    if Has(s, i, "null") then Ok(Null, i + 4)
    else if Has(s, i, "false") then Ok(False, i + 5)
    else if Has(s, i, "true") then Ok(True, i + 4)
    else if At(s, i) == '"' then
      var (t, end) :- ParseString(s, i);
      Ok(Str(t), end)
    else if At(s, i) == '-' || IsDigit(At(s, i)) then
      var n := ParseNumber(s, i);
      Ok(Num(n.d), n.end)
    else if At(s, i) == '[' then ParseArray(s, i)
    else if At(s, i) == '{' then ParseObject(s, i)
    else Fail(i)
  }

  function ParseArray(s: string, i: nat): (r: Parsed<Json>)
    requires i < |s| && s[i] == '['
    ensures r.Ok? ==> i < r.end <= |s| && r.value.Arr?
    decreases |s| - i - 1, 2
  {
    var j := Skip(s, i + 1);
    if At(s, j) == ']' then Ok(Arr([]), j + 1)
    else
      var (items, end) :- ParseItems(s, j);
      Ok(Arr(items), end)
  }

  /** One or more items up to and including the closing bracket. */
  function ParseItems(s: string, i: nat): (r: Parsed<seq<Json>>)
    requires i <= |s|
    ensures r.Ok? ==> i < r.end <= |s|
    decreases |s| - i, 1
  {
    var (v, e) :- ParseValue(s, Skip(s, i));
    var j := Skip(s, e);
    if At(s, j) == ',' then
      var (rest, end) :- ParseItems(s, j + 1);
      Ok([v] + rest, end)
    else if At(s, j) == ']' then Ok([v], j + 1)
    else Fail(j)
  }

  function ParseObject(s: string, i: nat): (r: Parsed<Json>)
    requires i < |s| && s[i] == '{'
    ensures r.Ok? ==> i < r.end <= |s| && r.value.Obj?
    decreases |s| - i - 1, 2
  {
    var j := Skip(s, i + 1);
    if At(s, j) == '}' then Ok(Obj([]), j + 1)
    else
      var (members, end) :- ParseMembers(s, j);
      Ok(Obj(members), end)
  }

  /** One or more members up to and including the closing brace. */
  function ParseMembers(s: string, i: nat): (r: Parsed<seq<Member>>)
    requires i <= |s|
    ensures r.Ok? ==> i < r.end <= |s|
    decreases |s| - i, 1
  {
    var (m, e) :- ParseMember(s, i);
    var j := Skip(s, e);
    if At(s, j) == ',' then
      var (rest, end) :- ParseMembers(s, j + 1);
      Ok([m] + rest, end)
    else if At(s, j) == '}' then Ok([m], j + 1)
    else Fail(j)
  }

  function ParseMember(s: string, i: nat): (r: Parsed<Member>)
    requires i <= |s|
    ensures r.Ok? ==> i < r.end <= |s|
    decreases |s| - i, 0
  {
    var (key, e) :- ParseString(s, Skip(s, i));
    var j := Skip(s, e);
    if At(s, j) != ':' then Fail(j)
    else
      var (v, end) :- ParseValue(s, Skip(s, j + 1));
      Ok(Member(key, v), end)
  }

  /** cJSON_ParseWithOpts: blanks in front, and, when asked, nothing but blanks behind. */
  function ParseDocument(s: string, requireEnd: bool): (r: Parsed<Json>)
    ensures r.Ok? ==> r.end <= |s|
  {
    var (v, e) :- ParseValue(s, Skip(s, 0));
    if !requireEnd then Ok(v, e)
    else
      var j := Skip(s, e);
      if At(s, j) != '\0' then Fail(j) else Ok(v, j)
  }
}
