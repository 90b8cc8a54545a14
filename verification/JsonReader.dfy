/** What each parse function of pkg/kratos-json.c reads, as functions of the
    memory s, the text length n and the cursor i. The parser class is proved against
    these; JsonTheorems proves what they mean in terms of the grammar. */
module JsonReader {
  import opened Bytes
  import opened JsonGrammar

  // pk_peek: '\0' at the end of the text.
  function Peek(s: bytes, n: nat, i: nat): byte
    requires n <= |s|
  {
    if i < n then s[i] else 0
  }

  function SkipWs(s: bytes, n: nat, i: nat): (j: nat)
    requires n <= |s|
    ensures i <= j && (j < n ==> !IsWs(s[j])) && (i <= n ==> j <= n) && (n <= i ==> j == i)
    decreases n - i
  {
    if i < n && IsWs(s[i]) then SkipWs(s, n, i + 1) else i
  }

  // parse_hex4 succeeds exactly when four hexadecimal digits follow within the text.
  predicate Hex4At(s: bytes, n: nat, i: nat)
    requires n <= |s|
  {
    i + 4 <= n && IsHex4(s[i..i + 4])
  }

  // One character inside a string, not the closing quote: its code point and the next cursor.
  function ReadChar(s: bytes, n: nat, i: nat): (r: Option<(Scalar, nat)>)
    requires n <= |s| && i < n
    ensures r.Some? ==> i < r.value.1 <= n
  {
    var c := s[i];
    if c < 0x20 then None
    else if c != BACKSLASH then Some((c, i + 1))
    else if i + 1 >= n then None
    else if s[i + 1] != LOWER_U then
      var v := ShortValue(s[i + 1]);
      if v < 0 then None else Some((v, i + 2))
    else if !Hex4At(s, n, i + 2) then None
    else
      var u := Hex4Value(s[i + 2..i + 6]);
      if IsHigh(u) then
        if Peek(s, n, i + 6) == BACKSLASH && Peek(s, n, i + 7) == LOWER_U && Hex4At(s, n, i + 8) &&
           IsLow(Hex4Value(s[i + 8..i + 12]))
        then Some((0x10000 + (u - 0xD800) * 0x400 + (Hex4Value(s[i + 8..i + 12]) - 0xDC00), i + 12))
        else None
      else if IsLow(u) || u == 0 then None
      else Some((u, i + 6))
  }

  // parse_string_raw, from just after the opening quote.
  function ReadString(s: bytes, n: nat, i: nat): (r: Option<(bytes, nat)>)
    requires n <= |s|
    ensures r.Some? ==> i < r.value.1 <= n
    decreases n - i
  {
    if i >= n then None
    else if s[i] == QUOTE then Some(([], i + 1))
    else
      match ReadChar(s, n, i)
      case None => None
      case Some((cp, j)) =>
        match ReadString(s, n, j)
        case None => None
        case Some((rest, k)) => Some((Utf8(cp) + rest, k))
  }

  // The end of the run of digits at i.
  function DigitsEnd(s: bytes, n: nat, i: nat): (j: nat)
    requires n <= |s|
    ensures i <= j && (i <= n ==> j <= n) && (j < n ==> !IsDigit(s[j])) && (n <= i ==> j == i)
    ensures forall k | i <= k < j :: k < n && IsDigit(s[k])
    decreases n - i
  {
    if i < n && IsDigit(s[i]) then DigitsEnd(s, n, i + 1) else i
  }

  // A nonempty run of digits.
  function ReadDigits(s: bytes, n: nat, i: nat): (r: Option<nat>)
    requires n <= |s|
    ensures r.Some? ==> i < r.value <= n
  {
    var j := DigitsEnd(s, n, i);
    if j == i then None else Some(j)
  }

  function ReadInt(s: bytes, n: nat, i: nat): (r: Option<nat>)
    requires n <= |s|
    ensures r.Some? ==> i < r.value <= n
  {
    if Peek(s, n, i) == ZERO then Some(i + 1) else ReadDigits(s, n, i)
  }

  function ReadFrac(s: bytes, n: nat, i: nat): (r: Option<nat>)
    requires n <= |s|
    ensures r.Some? ==> i <= r.value && (i <= n ==> r.value <= n)
  {
    if Peek(s, n, i) == DOT then ReadDigits(s, n, i + 1) else Some(i)
  }

  function ReadExp(s: bytes, n: nat, i: nat): (r: Option<nat>)
    requires n <= |s|
    ensures r.Some? ==> i <= r.value && (i <= n ==> r.value <= n)
  {
    if Peek(s, n, i) == LOWER_E || Peek(s, n, i) == UPPER_E then
      var sign := Peek(s, n, i + 1);
      ReadDigits(s, n, if sign == PLUS || sign == MINUS then i + 2 else i + 1)
    else Some(i)
  }

  // The end of the longest number literal at i, whatever its length.
  function NumberEnd(s: bytes, n: nat, i: nat): (r: Option<nat>)
    requires n <= |s|
    ensures r.Some? ==> i < r.value <= n
  {
    match ReadInt(s, n, if Peek(s, n, i) == MINUS then i + 1 else i)
    case None => None
    case Some(j) =>
      match ReadFrac(s, n, j)
      case None => None
      case Some(k) => ReadExp(s, n, k)
  }

  function ReadNumber(s: bytes, n: nat, i: nat): (r: Option<(Json, nat)>)
    requires n <= |s|
    ensures r.Some? ==> i < r.value.1 <= n
  {
    match NumberEnd(s, n, i)
    case None => None
    case Some(j) => if j - i > MAX_NUMBER then None else Some((Number(s[i..j]), j))
  }

  // strncmp(p, literal, |literal|) == 0: it looks at memory, not at the text length.
  predicate Literal(s: bytes, i: nat, literal: bytes) { At(s, |s|, i, literal) }

  function ReadLiteral(s: bytes, i: nat): (r: Option<(Json, nat)>)
    ensures r.Some? ==> i + 4 <= r.value.1 <= |s|
  {
    if Literal(s, i, TRUE) then Some((Bool(true), i + 4))
    else if Literal(s, i, FALSE) then Some((Bool(false), i + 5))
    else if Literal(s, i, NULL) then Some((Null, i + 4))
    else None
  }

  // What a list reads as once its first items are known, given how the rest reads.
  function Prepend<T>(done: seq<T>, rest: Option<(seq<T>, nat)>): Option<(seq<T>, nat)>
  {
    match rest case None => None case Some((ts, j)) => Some((done + ts, j))
  }

  // parse_value with d containers already open.
  function ReadValue(s: bytes, n: nat, i: nat, d: nat): (r: Option<(Json, nat)>)
    requires n <= |s|
    ensures r.Some? ==> i < r.value.1
    decreases if i < n then n - i else 0, 2
  {
    var j := SkipWs(s, n, i);
    if j >= n then None
    else if s[j] == LBRACE then ReadObject(s, n, j, d)
    else if s[j] == LBRACKET then ReadArray(s, n, j, d)
    else if s[j] == QUOTE then
      match ReadString(s, n, j + 1) case None => None case Some((t, k)) => Some((String(t), k))
    else if s[j] == MINUS || IsDigit(s[j]) then ReadNumber(s, n, j)
    else ReadLiteral(s, j)
  }

  function ReadArray(s: bytes, n: nat, i: nat, d: nat): (r: Option<(Json, nat)>)
    requires n <= |s| && i < n
    ensures r.Some? ==> i < r.value.1 <= n
    decreases n - i, 1
  {
    if d + 1 > MAX_DEPTH then None
    else
      var j := SkipWs(s, n, i + 1);
      if Peek(s, n, j) == RBRACKET then Some((Array([]), j + 1))
      else
        match ReadElems(s, n, j, d + 1) case None => None case Some((vs, k)) => Some((Array(vs), k))
  }

  function ReadElems(s: bytes, n: nat, i: nat, d: nat): (r: Option<(seq<Json>, nat)>)
    requires n <= |s|
    ensures r.Some? ==> i < r.value.1 <= n
    decreases if i < n then n - i else 0, 3
  {
    match ReadValue(s, n, i, d)
    case None => None
    case Some((v, j)) =>
      var k := SkipWs(s, n, j);
      if Peek(s, n, k) == RBRACKET then Some(([v], k + 1))
      else if Peek(s, n, k) != COMMA then None
      else Prepend([v], ReadElems(s, n, k + 1, d))
  }

  function ReadObject(s: bytes, n: nat, i: nat, d: nat): (r: Option<(Json, nat)>)
    requires n <= |s| && i < n
    ensures r.Some? ==> i < r.value.1 <= n
    decreases n - i, 1
  {
    if d + 1 > MAX_DEPTH then None
    else
      var j := SkipWs(s, n, i + 1);
      if Peek(s, n, j) == RBRACE then Some((Object([]), j + 1))
      else
        match ReadPairs(s, n, j, d + 1) case None => None case Some((ms, k)) => Some((Object(ms), k))
  }

  // The key and colon that open a member: the key and the cursor after the colon.
  function ReadKey(s: bytes, n: nat, i: nat): (r: Option<(bytes, nat)>)
    requires n <= |s|
    ensures r.Some? ==> i + 2 < r.value.1 <= n
  {
    var j := SkipWs(s, n, i);
    if Peek(s, n, j) != QUOTE then None
    else
      match ReadString(s, n, j + 1)
      case None => None
      case Some((key, k)) =>
        var m := SkipWs(s, n, k);
        if Peek(s, n, m) == COLON then Some((key, m + 1)) else None
  }

  function ReadMember(s: bytes, n: nat, i: nat, d: nat): (r: Option<(Member, nat)>)
    requires n <= |s|
    ensures r.Some? ==> i < r.value.1
    decreases if i < n then n - i else 0, 3
  {
    match ReadKey(s, n, i)
    case None => None
    case Some((key, h)) =>
      match ReadValue(s, n, h, d) case None => None case Some((v, j)) => Some((Member(key, v), j))
  }

  function ReadPairs(s: bytes, n: nat, i: nat, d: nat): (r: Option<(seq<Member>, nat)>)
    requires n <= |s|
    ensures r.Some? ==> i < r.value.1 <= n
    decreases if i < n then n - i else 0, 4
  {
    match ReadMember(s, n, i, d)
    case None => None
    case Some((m, j)) =>
      var k := SkipWs(s, n, j);
      if Peek(s, n, k) == RBRACE then Some(([m], k + 1))
      else if Peek(s, n, k) != COMMA then None
      else Prepend([m], ReadPairs(s, n, k + 1, d))
  }

  // json_parse.
  function ReadDoc(s: bytes, n: nat): Option<Json>
    requires n <= |s|
  {
    match ReadValue(s, n, 0, 0)
    case None => None
    case Some((v, j)) => if SkipWs(s, n, j) >= n then Some(v) else None
  }
}
