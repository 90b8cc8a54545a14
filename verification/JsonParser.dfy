/** The recursive-descent parser of pkg/kratos-json.c: a cursor and a depth counter
    advanced in place, and the growable buffer its strings are built in. */
module JsonParser {
  import opened Bytes
  import opened JsonGrammar
  import opened JsonReader
  import JsonTheorems

  // The out/out_len/out_cap triple of parse_string_raw. A zero-length array is the NULL buffer.
  class StringBuffer {
    var data: array<byte>
    var len: nat

    // One byte is always left for the terminator once anything has been stored.
    ghost predicate Valid()
      reads this
    {
      len < data.Length || len == data.Length == 0
    }

    ghost function Contents(): bytes
      reads this, data
      requires Valid()
    {
      data[..len]
    }

    constructor ()
      ensures Valid() && Contents() == [] && fresh(data)
    {
      data := new byte[0];
      len := 0;
    }

    // The growth of append_utf8: doubling until extra bytes and a terminator fit.
    method Grow(extra: nat)
      requires Valid()
      modifies this`data
      ensures Valid() && len + extra + 1 <= data.Length && (data == old(data) || fresh(data))
      ensures Contents() == old(Contents())
    {
      if len + extra + 1 > data.Length {
        var newCap := if data.Length == 0 then 64 else data.Length * 2;
        while newCap < len + extra + 1
          invariant newCap > 0
          decreases len + extra + 1 - newCap
        {
          newCap := newCap * 2;
        }
        var grown := new byte[newCap];
        forall i | 0 <= i < len { grown[i] := data[i]; }
        assert grown[..len] == data[..len];
        data := grown;
      }
    }

    // append_utf8
    method Append(cp: Scalar)
      requires Valid()
      modifies this, data
      ensures Valid() && (data == old(data) || fresh(data))
      ensures Contents() == old(Contents()) + Utf8(cp)
    {
      hide Utf8;
      var enc := Utf8(cp);
      Grow(|enc|);
      Store(enc);
      len := len + |enc|;
    }

    // Its assignments behind the contents.
    method Store(enc: bytes)
      requires len + |enc| <= data.Length
      modifies data
      ensures data[..len + |enc|] == old(data[..len]) + enc
    {
      forall i | 0 <= i < |enc| { data[len + i] := enc[i]; }
    }

    // The C string the caller gets: the contents and a terminator.
    method Finish() returns (text: bytes)
      requires Valid()
      modifies this, data
      ensures Valid() && text == old(Contents()) == Contents()
      ensures len < data.Length && data[len] == 0
    {
      if data.Length == 0 { data := new byte[1]; }
      data[len] := 0;
      text := data[..len];
    }
  }

  lemma PrependOne<T>(done: seq<T>, t: T, rest: Option<(seq<T>, nat)>)
    ensures Prepend(done, Prepend([t], rest)) == Prepend(done + [t], rest)
  {
    if rest.Some? { assert done + ([t] + rest.value.0) == done + [t] + rest.value.0; }
  }

  lemma ElemsStep(s: bytes, n: nat, i: nat, d: nat)
    requires n <= |s|
    ensures ReadElems(s, n, i, d) ==
      match ReadValue(s, n, i, d)
      case None => None
      case Some((v, j)) =>
        var k := SkipWs(s, n, j);
        if Peek(s, n, k) == RBRACKET then Some(([v], k + 1))
        else if Peek(s, n, k) != COMMA then None
        else Prepend([v], ReadElems(s, n, k + 1, d))
  {
  }

  lemma PrependNone<T>(rest: Option<(seq<T>, nat)>)
    ensures Prepend([], rest) == rest
  {
    if rest.Some? { assert [] + rest.value.0 == rest.value.0; }
  }

  class Parser {
    const buf: bytes
    const len: nat
    var pos: nat
    var depth: nat

    ghost predicate Valid()
    {
      len <= |buf|
    }

    constructor (text: bytes, n: nat)
      requires n <= |text|
      ensures Valid() && buf == text && len == n && pos == 0 && depth == 0
    {
      buf, len, pos, depth := text, n, 0, 0;
    }

    method SkipSpace()
      requires Valid()
      modifies `pos
      ensures pos == SkipWs(buf, len, old(pos))
    {
      while pos < len && IsWs(buf[pos])
        invariant SkipWs(buf, len, pos) == SkipWs(buf, len, old(pos))
        decreases len - pos
      {
        pos := pos + 1;
      }
    }

    // The value of the first k hexadecimal digits at i.
    ghost function HexPrefix(i: nat, k: nat): int
      requires Valid() && i + k <= len
    {
      if k == 0 then 0 else HexPrefix(i, k - 1) * 16 + HexValue(buf[i + k - 1])
    }

    // parse_hex4: -1 when four hexadecimal digits do not follow.
    method ParseHex4() returns (v: int)
      requires Valid() && pos <= len
      modifies `pos
      ensures Hex4At(buf, len, old(pos)) ==> v == Hex4Value(buf[old(pos)..old(pos) + 4]) && pos == old(pos) + 4
      ensures !Hex4At(buf, len, old(pos)) ==> v == -1
    {
      v := 0;
      ghost var start := pos;
      for i := 0 to 4
        invariant pos == start + i <= len && v == HexPrefix(start, i)
        invariant forall k | start <= k < pos :: HexValue(buf[k]) >= 0
      {
        var d := HexValue(Peek(buf, len, pos));
        if d < 0 {
          assert start + 4 <= len ==> buf[start..start + 4][i] == buf[pos];
          return -1;
        }
        v := v * 16 + d;
        pos := pos + 1;
      }
      ghost var h := buf[start..start + 4];
      assert HexPrefix(start, 1) == HexValue(h[0]);
      assert HexPrefix(start, 2) == HexValue(h[0]) * 16 + HexValue(h[1]);
    }

    // One escaped or raw character inside a string: the body of the loop of parse_string_raw
    // after the test for the closing quote.
    method ParseChar() returns (r: Option<Scalar>)
      requires Valid() && pos < len
      modifies `pos
      ensures match ReadChar(buf, len, old(pos))
        case None => r == None
        case Some((cp, j)) => r == Some(cp) && pos == j
    {
      hide Hex4At, Hex4Value;
      var c := buf[pos];
      pos := pos + 1;
      if c < 0x20 { return None; }
      if c != BACKSLASH { return Some(c); }
      if pos >= len { return None; }
      var esc := buf[pos];
      pos := pos + 1;
      if esc != LOWER_U {
        var v := ShortValue(esc);
        if v < 0 { return None; }
        return Some(v);
      }
      var u := ParseHex4();
      if u < 0 { return None; }
      if IsHigh(u) {
        if Peek(buf, len, pos) != BACKSLASH { return None; }
        pos := pos + 1;
        if Peek(buf, len, pos) != LOWER_U { return None; }
        pos := pos + 1;
        var low := ParseHex4();
        if low < 0 || !IsLow(low) { return None; }
        return Some(0x10000 + (u - 0xD800) * 0x400 + (low - 0xDC00));
      }
      if IsLow(u) || u == 0 { return None; }
      return Some(u);
    }

    // parse_string_raw
    method ParseStringRaw() returns (r: Option<bytes>)
      requires Valid()
      modifies `pos
      ensures match ReadString(buf, len, old(pos))
        case None => r == None
        case Some((t, j)) => r == Some(t) && pos == j
    {
      hide ReadChar, Utf8;
      var out := new StringBuffer();
      ghost var whole := ReadString(buf, len, pos);
      assert forall t: bytes :: [] + t == t;
      while true
        invariant out.Valid() && fresh(out) && fresh(out.data)
        invariant var rest := ReadString(buf, len, pos);
          whole == if rest.None? then None else Some((out.Contents() + rest.value.0, rest.value.1))
        decreases len - pos
      {
        if pos >= len { return None; }
        if buf[pos] == QUOTE {
          pos := pos + 1;
          var text := out.Finish();
          assert text + [] == text;
          return Some(text);
        }
        var c := ParseChar();
        if c.None? { return None; }
        ghost var before := out.Contents();
        out.Append(c.value);
        assert forall t: bytes :: before + (Utf8(c.value) + t) == out.Contents() + t;
      }
    }

    // The token buffer of parse_number holds the literal read so far: tok[..n] is the text since start.
    ghost predicate Token(tok: array<byte>, start: nat, n: nat)
      reads this, tok
    {
      Valid() && tok.Length == MAX_NUMBER + 1 && start + n == pos <= len && n <= MAX_NUMBER &&
        tok[..n] == buf[start..pos]
    }

    // How one part of a literal may end, given where the grammar says it ends: not at all, in the
    // middle because the buffer is full, or at its end with the buffer extended.
    ghost predicate Took(end: Option<nat>, ok: bool, tok: array<byte>, start: nat, n: nat)
      reads this, tok
    {
      if end.None? || end.value - start > MAX_NUMBER then !ok else ok && pos == end.value && Token(tok, start, n)
    }

    method TakeByte(tok: array<byte>, start: nat, n: nat)
      requires Token(tok, start, n) && n < MAX_NUMBER && pos < len
      modifies `pos, tok
      ensures pos == old(pos) + 1 && Token(tok, start, n + 1)
    {
      tok[n] := buf[pos];
      pos := pos + 1;
    }

    method TakeDigits(tok: array<byte>, start: nat, n: nat) returns (ok: bool, m: nat)
      requires Token(tok, start, n)
      modifies `pos, tok
      ensures Took(ReadDigits(buf, len, old(pos)), ok, tok, start, m)
    {
      m := n;
      if !IsDigit(Peek(buf, len, pos)) { return false, m; }
      while IsDigit(Peek(buf, len, pos))
        invariant Token(tok, start, m)
        invariant DigitsEnd(buf, len, pos) == DigitsEnd(buf, len, old(pos)) > old(pos)
        decreases len - pos
      {
        if m + 1 >= tok.Length { return false, m; }
        TakeByte(tok, start, m);
        m := m + 1;
      }
      return true, m;
    }

    method TakeInt(tok: array<byte>, start: nat, n: nat) returns (ok: bool, m: nat)
      requires Token(tok, start, n) && n < 2
      modifies `pos, tok
      ensures Took(ReadInt(buf, len, old(pos)), ok, tok, start, m)
    {
      if Peek(buf, len, pos) == ZERO {
        TakeByte(tok, start, n);
        return true, n + 1;
      }
      ok, m := TakeDigits(tok, start, n);
    }

    method TakeFrac(tok: array<byte>, start: nat, n: nat) returns (ok: bool, m: nat)
      requires Token(tok, start, n)
      modifies `pos, tok
      ensures Took(ReadFrac(buf, len, old(pos)), ok, tok, start, m)
    {
      if Peek(buf, len, pos) != DOT { return true, n; }
      if n + 1 >= tok.Length { return false, n; }
      TakeByte(tok, start, n);
      ok, m := TakeDigits(tok, start, n + 1);
    }

    method TakeExp(tok: array<byte>, start: nat, n: nat) returns (ok: bool, m: nat)
      requires Token(tok, start, n)
      modifies `pos, tok
      ensures Took(ReadExp(buf, len, old(pos)), ok, tok, start, m)
    {
      m := n;
      if Peek(buf, len, pos) != LOWER_E && Peek(buf, len, pos) != UPPER_E { return true, m; }
      if m + 1 >= tok.Length { return false, m; }
      TakeByte(tok, start, m);
      m := m + 1;
      if Peek(buf, len, pos) == PLUS || Peek(buf, len, pos) == MINUS {
        if m + 1 >= tok.Length { return false, m; }
        TakeByte(tok, start, m);
        m := m + 1;
      }
      ok, m := TakeDigits(tok, start, m);
    }

    // parse_number
    method ParseNumber() returns (r: Option<Json>)
      requires Valid() && pos <= len
      modifies `pos
      ensures match ReadNumber(buf, len, old(pos))
        case None => r == None
        case Some((v, j)) => r == Some(v) && pos == j
    {
      hide ReadInt, ReadFrac, ReadExp;
      var tok := new byte[MAX_NUMBER + 1];
      var start, n := pos, 0;
      if Peek(buf, len, pos) == MINUS {
        TakeByte(tok, start, n);
        n := n + 1;
      }
      var ok: bool;
      ok, n := TakeInt(tok, start, n);
      if !ok { return None; }
      ok, n := TakeFrac(tok, start, n);
      if !ok { return None; }
      ok, n := TakeExp(tok, start, n);
      if !ok { return None; }
      return Some(Number(tok[..n]));
    }

    // parse_value
    method ParseValue() returns (r: Option<Json>)
      requires Valid()
      modifies this
      ensures old(depth) <= depth
      ensures match ReadValue(buf, len, old(pos), old(depth))
        case None => r == None
        case Some((v, j)) => r == Some(v) && pos == j && depth == old(depth)
      decreases if pos < len then len - pos else 0, 2
    {
      SkipSpace();
      if pos >= len { return None; }
      var c := buf[pos];
      if c == LBRACE { r := ParseObject(); return; }
      if c == LBRACKET { r := ParseArray(); return; }
      if c == QUOTE {
        pos := pos + 1;
        var text := ParseStringRaw();
        return if text.None? then None else Some(String(text.value));
      }
      if c == MINUS || IsDigit(c) { r := ParseNumber(); return; }
      if Literal(buf, pos, TRUE) { pos := pos + 4; return Some(Bool(true)); }
      if Literal(buf, pos, FALSE) { pos := pos + 5; return Some(Bool(false)); }
      if Literal(buf, pos, NULL) { pos := pos + 4; return Some(Null); }
      return None;
    }

    // parse_array
    method ParseArray() returns (r: Option<Json>)
      requires Valid() && pos < len
      modifies this
      ensures old(depth) <= depth
      ensures match ReadArray(buf, len, old(pos), old(depth))
        case None => r == None
        case Some((v, j)) => r == Some(v) && pos == j && depth == old(depth)
      decreases len - pos, 1
    {
      depth := depth + 1;
      if depth > MAX_DEPTH { return None; }
      pos := pos + 1;
      SkipSpace();
      if Peek(buf, len, pos) == RBRACKET {
        pos, depth := pos + 1, depth - 1;
        return Some(Array([]));
      }
      var items := ParseElems();
      depth := depth - 1;
      return if items.None? then None else Some(Array(items.value));
    }

    // The loop of parse_array.
    method ParseElems() returns (r: Option<seq<Json>>)
      requires Valid()
      modifies this
      ensures old(depth) <= depth
      ensures match ReadElems(buf, len, old(pos), old(depth))
        case None => r == None
        case Some((vs, j)) => r == Some(vs) && pos == j && depth == old(depth)
      decreases if pos < len then len - pos else 0, 3
    {
      hide ReadValue, ReadElems, SkipWs;
      var items: seq<Json> := [];
      ghost var whole := ReadElems(buf, len, pos, depth);
      PrependNone(whole);
      while true
        invariant depth == old(depth) && old(pos) <= pos
        invariant whole == Prepend(items, ReadElems(buf, len, pos, depth))
        decreases len - pos
      {
        JsonTheorems.ReadPastWs(buf, len, pos, depth);
        ElemsStep(buf, len, pos, depth);
        SkipSpace();
        var item := ParseValue();
        if item.None? { return None; }
        SkipSpace();
        PrependOne(items, item.value, ReadElems(buf, len, pos + 1, depth));
        items := items + [item.value];
        if Peek(buf, len, pos) == COMMA {
          pos := pos + 1;
          continue;
        }
        if Peek(buf, len, pos) == RBRACKET {
          pos := pos + 1;
          return Some(items);
        }
        return None;
      }
    }

    // The part of the loop of parse_object up to the member's value.
    method ParseKey() returns (r: Option<bytes>)
      requires Valid()
      modifies `pos
      ensures match ReadKey(buf, len, old(pos))
        case None => r == None
        case Some((key, j)) => r == Some(key) && pos == j
    {
      SkipSpace();
      if Peek(buf, len, pos) != QUOTE { return None; }
      pos := pos + 1;
      var key := ParseStringRaw();
      if key.None? { return None; }
      SkipSpace();
      if Peek(buf, len, pos) != COLON { return None; }
      pos := pos + 1;
      return key;
    }

    // parse_object
    method ParseObject() returns (r: Option<Json>)
      requires Valid() && pos < len
      modifies this
      ensures old(depth) <= depth
      ensures match ReadObject(buf, len, old(pos), old(depth))
        case None => r == None
        case Some((v, j)) => r == Some(v) && pos == j && depth == old(depth)
      decreases len - pos, 1
    {
      depth := depth + 1;
      if depth > MAX_DEPTH { return None; }
      pos := pos + 1;
      SkipSpace();
      if Peek(buf, len, pos) == RBRACE {
        pos, depth := pos + 1, depth - 1;
        return Some(Object([]));
      }
      var members := ParseMembers();
      depth := depth - 1;
      return if members.None? then None else Some(Object(members.value));
    }

    // One member, without the white space and separator after it.
    method ParseMember() returns (r: Option<Member>)
      requires Valid()
      modifies this
      ensures old(depth) <= depth
      ensures match ReadMember(buf, len, old(pos), old(depth))
        case None => r == None
        case Some((m, j)) => r == Some(m) && pos == j && depth == old(depth)
      decreases if pos < len then len - pos else 0, 3
    {
      hide ReadValue, ReadKey;
      var key := ParseKey();
      if key.None? { return None; }
      JsonTheorems.ReadPastWs(buf, len, pos, depth);
      SkipSpace();
      var value := ParseValue();
      return if value.None? then None else Some(Member(key.value, value.value));
    }

    // The loop of parse_object.
    method ParseMembers() returns (r: Option<seq<Member>>)
      requires Valid()
      modifies this
      ensures old(depth) <= depth
      ensures match ReadPairs(buf, len, old(pos), old(depth))
        case None => r == None
        case Some((ms, j)) => r == Some(ms) && pos == j && depth == old(depth)
      decreases if pos < len then len - pos else 0, 4
    {
      hide ReadMember;
      var members: seq<Member> := [];
      ghost var whole := ReadPairs(buf, len, pos, depth);
      PrependNone(whole);
      while true
        invariant depth == old(depth) && old(pos) <= pos
        invariant whole == Prepend(members, ReadPairs(buf, len, pos, depth))
        decreases len - pos
      {
        var m := ParseMember();
        if m.None? { return None; }
        SkipSpace();
        PrependOne(members, m.value, ReadPairs(buf, len, pos + 1, depth));
        members := members + [m.value];
        if Peek(buf, len, pos) == COMMA {
          pos := pos + 1;
          continue;
        }
        if Peek(buf, len, pos) == RBRACE {
          pos := pos + 1;
          return Some(members);
        }
        return None;
      }
    }
  }

  // json_parse
  method Parse(text: bytes, n: nat) returns (r: Option<Json>)
    requires n <= |text|
    ensures r == ReadDoc(text, n)
    ensures !JsonTheorems.Overhang(text, n) <==> (r.Some? <==> JsonTheorems.IsDerived(text[..n]))
    ensures JsonTheorems.IsJson(text[..n]) ==> r.Some?
    ensures r.Some? ==> (JsonTheorems.IsJson(text[..n]) <==> !JsonTheorems.Overhang(text, n) && IsUtf8(text[..n]))
  {
    hide JsonTheorems.IsJson, JsonTheorems.IsDerived, JsonTheorems.Overhang, IsUtf8;
    JsonTheorems.AcceptsExactlyJson(text, n);
    var p := new Parser(text, n);
    r := p.ParseValue();
    if r.None? { return; }
    p.SkipSpace();
    if p.pos < p.len { return None; }
  }

  // json_object_get: the first member with the key.
  method ObjectGet(v: Json, key: bytes) returns (r: Option<Json>)
    ensures r.Some? <==> v.Object? && exists i :: 0 <= i < |v.members| && v.members[i].key == key
    ensures r.Some? ==> exists i ::
      0 <= i < |v.members| && v.members[i] == Member(key, r.value) && (forall k | 0 <= k < i :: v.members[k].key != key)
  {
    if !v.Object? { return None; }
    for i := 0 to |v.members|
      invariant forall k | 0 <= k < i :: v.members[k].key != key
    {
      if v.members[i].key == key {
        assert v.members[i] == Member(key, v.members[i].value);
        return Some(v.members[i].value);
      }
    }
    return None;
  }
}
