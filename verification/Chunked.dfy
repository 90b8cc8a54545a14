/** Reading a response body: leftover bytes, then a socket that hands out what it likes
    (pkg/kratos-fetch.c). Chunked framing is section 4.1 of RFC 7230. */
module Chunked {
  import opened Bytes

  const MAX_CHUNK_LINE := 64
  const MAX_TRAILER := 512
  const MAX_DUMMY := 8
  const READ_BUF := 8192
  const ULONG_MAX := 0xFFFF_FFFF_FFFF_FFFF
  const CR: byte := 0x0D
  const LF: byte := 0x0A
  const CRLF: bytes := [0x0D, 0x0A]

  /* ---- Lines and sizes ---- */

  // A line is what comes before the next LF, without CRs, cut to what the buffer holds.
  function Line(s: bytes, line: bytes, size: nat): (r: Option<(bytes, bytes)>)
    ensures r.Some? ==> |r.value.1| < |s|
  {
    if s == [] then None
    else if s[0] == CR then Line(s[1..], line, size)
    else if s[0] == LF then Some((line, s[1..]))
    else Line(s[1..], if |line| + 1 < size then line + [s[0]] else line, size)
  }

  predicate IsHex(c: byte) { IsDigit(c) || 0x41 <= c <= 0x46 || 0x61 <= c <= 0x66 }

  function HexDigit(c: byte): (v: nat)
    requires IsHex(c)
    ensures v < 16
  {
    if IsDigit(c) then c as int - 0x30 else if c <= 0x46 then c as int - 0x37 else c as int - 0x57
  }

  function HexRun(s: bytes): (k: nat)
    ensures k <= |s| && (forall i | 0 <= i < k :: IsHex(s[i])) && (k < |s| ==> !IsHex(s[k]))
  {
    if s == [] || !IsHex(s[0]) then 0 else 1 + HexRun(s[1..])
  }

  function HexValue(d: bytes): nat
    requires forall c | c in d :: IsHex(c)
  {
    if d == [] then 0
    else
      var c := d[|d| - 1];
      assert c in d;
      HexValue(d[..|d| - 1]) * 16 + HexDigit(c)
  }

  function SkipBlanks(s: bytes): bytes
  {
    if s != [] && IsSpace(s[0]) then SkipBlanks(s[1..]) else s
  }

  // strtoul in base 16: no result when there is no digit, and a clamp when there are too many.
  function StrToUl(s: bytes): Option<nat>
  {
    var t := SkipBlanks(s);
    var negative := t != [] && t[0] == 0x2D;
    var u := if t != [] && (t[0] == 0x2D || t[0] == 0x2B) then t[1..] else t;
    var v := if |u| > 2 && u[0] == 0x30 && (u[1] == 0x78 || u[1] == 0x58) && IsHex(u[2]) then u[2..] else u;
    var k := HexRun(v);
    if k == 0 then None
    else
      var n := HexValue(v[..k]);
      Some(if n > ULONG_MAX then ULONG_MAX else if negative then (ULONG_MAX + 1 - n) % (ULONG_MAX + 1) else n)
  }

  // A line up to its first semicolon.
  function BeforeSemicolon(s: bytes): bytes
  {
    if s == [] || s[0] == 0x3B then [] else [s[0]] + BeforeSemicolon(s[1..])
  }

  /* ---- The decoder ---- */

  // What was written, and what is left of the stream if the transfer did not fail.
  datatype Decoded = Decoded(out: bytes, rest: Option<bytes>)

  function Trailers(s: bytes): Option<bytes>
    decreases |s|
  {
    match Line(s, [], MAX_TRAILER)
    case None => None
    case Some((line, rest)) => if line == [] || line[0] == 0 then Some(rest) else Trailers(rest)
  }

  function Decode(s: bytes): Decoded
    decreases |s|
  {
    match Line(s, [], MAX_CHUNK_LINE)
    case None => Decoded([], None)
    case Some((line, t)) =>
      match StrToUl(BeforeSemicolon(line))
      case None => Decoded([], None)
      case Some(n) =>
        if n == 0 then Decoded([], Trailers(t))
        else if |t| < n then Decoded(t, None)
        else
          match Line(t[n..], [], MAX_DUMMY)
          case None => Decoded(t[..n], None)
          case Some((_, u)) =>
            var more := Decode(u);
            Decoded(t[..n] + more.out, more.rest)
  }

  function After(written: bytes, d: Decoded): Decoded
  {
    Decoded(written + d.out, d.rest)
  }

  lemma Twice(a: bytes, b: bytes, d: Decoded)
    ensures After(a, After(b, d)) == After(a + b, d)
  {
    assert a + (b + d.out) == a + b + d.out;
  }

  lemma DecodeStep(s: bytes)
    ensures Decode(s) ==
      match Line(s, [], MAX_CHUNK_LINE)
      case None => Decoded([], None)
      case Some((line, t)) =>
        match StrToUl(BeforeSemicolon(line))
        case None => Decoded([], None)
        case Some(n) =>
          if n == 0 then Decoded([], Trailers(t))
          else if |t| < n then Decoded(t, None)
          else
            match Line(t[n..], [], MAX_DUMMY)
            case None => Decoded(t[..n], None)
            case Some((_, u)) => After(t[..n], Decode(u))
  {
  }

  /* ---- The loops ---- */

  class Transfer {
    const leftover: bytes
    const sizes: nat -> nat
    var pos: nat
    var socket: bytes
    var calls: nat
    var out: bytes

    // sizes(i) is how much the i-th read from the socket would like to hand over; the socket
    // ends, cleanly or not, when its bytes are used up.
    constructor (leftover: bytes, socket: bytes, sizes: nat -> nat)
      ensures Valid() && Rest() == leftover + socket && out == []
    {
      this.leftover, this.sizes, this.socket, pos, calls, out := leftover, sizes, socket, 0, 0, [];
    }

    ghost predicate Valid()
      reads this
    {
      pos <= |leftover|
    }

    // The bytes still to come.
    ghost function Rest(): bytes
      reads this
      requires Valid()
    {
      leftover[pos..] + socket
    }

    // reader_read. Nothing returned stands for the end of the stream and for every error.
    method ReaderRead(want: nat) returns (got: bytes)
      requires Valid() && want > 0
      modifies this`pos, this`socket, this`calls
      ensures Valid() && |got| <= want && got + Rest() == old(Rest())
      ensures got == [] <==> old(Rest()) == []
    {
      if pos < |leftover| {
        var n := if |leftover| - pos < want then |leftover| - pos else want;
        got := leftover[pos..pos + n];
        pos := pos + n;
      } else {
        if socket == [] { return []; }
        var most := if |socket| < want then |socket| else want;
        var n := sizes(calls);
        if n == 0 { n := 1; }
        if n > most { n := most; }
        calls := calls + 1;
        got := socket[..n];
        socket := socket[n..];
      }
    }

    // read_exact_to_file
    method ReadExactToFile(n: nat) returns (ok: bool)
      requires Valid()
      modifies this`pos, this`socket, this`calls, this`out
      ensures Valid() && (ok <==> n <= |old(Rest())|)
      ensures out == old(out) + Prefix(old(Rest()), n)
      ensures Rest() == if ok then old(Rest())[n..] else []
    {
      ghost var stream := Rest();
      var remaining: nat := n;
      ghost var done: nat := 0;
      assert stream[0..] == stream;
      while remaining > 0
        invariant Valid() && done + remaining == n && done <= |stream|
        invariant Rest() == stream[done..] && out == old(out) + stream[..done]
        decreases remaining
      {
        var want := if remaining < READ_BUF then remaining else READ_BUF;
        var got := ReaderRead(want);
        if got == [] {
          assert stream[..done] == stream;
          return false;
        }
        Taken(stream, done, got, Rest());
        out := out + got;
        remaining := remaining - |got|;
        done := done + |got|;
      }
      assert stream[..n] == Prefix(stream, n);
      return true;
    }

    // read_line
    method ReadLine(size: nat) returns (line: Option<bytes>)
      requires Valid() && size > 0
      modifies this`pos, this`socket, this`calls
      ensures Valid()
      ensures match Line(old(Rest()), [], size)
        case None => line == None
        case Some((text, rest)) => line == Some(text) && Rest() == rest
    {
      var text: bytes := [];
      while true
        invariant Valid() && Line(old(Rest()), [], size) == Line(Rest(), text, size)
        decreases |Rest()|
      {
        ghost var before := Rest();
        var got := ReaderRead(1);
        if got == [] { return None; }
        var c := got[0];
        assert before[0] == c && before[1..] == Rest();
        if c == CR { continue; }
        if c == LF { return Some(text); }
        if |text| + 1 < size { text := text + [c]; }
      }
    }

    // The loop over the trailer lines behind the last chunk.
    method ReadTrailers() returns (ok: bool)
      requires Valid()
      modifies this`pos, this`socket, this`calls
      ensures Valid() && (ok <==> Trailers(old(Rest())).Some?)
      ensures ok ==> Rest() == Trailers(old(Rest())).value
    {
      hide Line;
      while true
        invariant Valid() && Trailers(old(Rest())) == Trailers(Rest())
        decreases |Rest()|
      {
        var trailer := ReadLine(MAX_TRAILER);
        if trailer == None { return false; }
        if trailer.value == [] || trailer.value[0] == 0 { return true; }
      }
    }

    // One round of the chunk loop: data is what it wrote, more whether it goes on.
    method Round() returns (more: bool, failed: bool, ghost data: bytes)
      requires Valid()
      modifies this`pos, this`socket, this`calls, this`out
      ensures Valid() && out == old(out) + data
      ensures more ==> Decode(old(Rest())) == After(data, Decode(Rest())) && |Rest()| < |old(Rest())|
      ensures !more ==> data == Decode(old(Rest())).out && (failed <==> Decode(old(Rest())).rest == None)
      ensures !more && !failed ==> Rest() == Decode(old(Rest())).rest.value
    {
      hide StrToUl, Line, BeforeSemicolon, Trailers, Decode, Rest;
      data := [];
      assert out + [] == out;
      DecodeStep(Rest());
      var line := ReadLine(MAX_CHUNK_LINE);
      if line == None { return false, true, []; }
      var size := StrToUl(BeforeSemicolon(line.value));
      if size == None { return false, true, []; }
      if size.value == 0 {
        var finished := ReadTrailers();
        return false, !finished, [];
      }
      data := Prefix(Rest(), size.value);
      var ok := ReadExactToFile(size.value);
      if !ok { return false, true, data; }
      var dummy := ReadLine(MAX_DUMMY);
      if dummy == None { return false, true, data; }
      return true, false, data;
    }

    // The chunk loop of do_https_get.
    method ChunkedBody() returns (failed: bool)
      requires Valid()
      modifies this`pos, this`socket, this`calls, this`out
      ensures Valid() && (failed <==> Decode(old(Rest())).rest == None)
      ensures out == old(out) + Decode(old(Rest())).out
      ensures !failed ==> Rest() == Decode(old(Rest())).rest.value
    {
      hide Decode, Rest;
      ghost var whole, written: bytes := Decode(Rest()), [];
      while true
        invariant Valid() && out == old(out) + written && whole == After(written, Decode(Rest()))
        decreases |Rest()|
      {
        var more, failed, data := Round();
        if !more {
          assert old(out) + written + data == old(out) + (written + data);
          return failed;
        }
        Twice(written, data, Decode(Rest()));
        written := written + data;
      }
    }

    // The body of a known length, and the one that ends with the connection.
    method IdentityBody(contentLength: int) returns (failed: bool)
      requires Valid()
      modifies this`pos, this`socket, this`calls, this`out
      ensures Valid()
      ensures failed <==> contentLength > |old(Rest())|
      ensures out == old(out) + if contentLength >= 0 then Prefix(old(Rest()), contentLength) else old(Rest())
    {
      if contentLength >= 0 {
        var ok := ReadExactToFile(contentLength);
        return !ok;
      }
      ghost var stream, done := Rest(), 0;
      assert stream[0..] == stream && stream[..0] == [];
      while true
        invariant Valid() && 0 <= done <= |stream| && Rest() == stream[done..] && out == old(out) + stream[..done]
        decreases |Rest()|
      {
        var got := ReaderRead(READ_BUF);
        if got == [] { break; }
        Taken(stream, done, got, Rest());
        out := out + got;
        done := done + |got|;
      }
      assert stream[..done] == stream;
      return false;
    }
  }

  lemma Taken(stream: bytes, done: nat, got: bytes, rest: bytes)
    requires done <= |stream| && got + rest == stream[done..]
    ensures done + |got| <= |stream| && rest == stream[done + |got|..] && stream[..done] + got == stream[..done + |got|]
  {
    assert |stream[done..]| == |got| + |rest|;
    assert got == stream[done..][..|got|] && rest == stream[done..][|got|..];
  }

  /* ---- Well-formed streams ---- */

  function SizeDigit(v: nat, capital: bool): byte
    requires v < 16
  {
    if v < 10 then 0x30 + v else if capital then 0x37 + v else 0x57 + v
  }

  // A number in as many hexadecimal digits as there are choices between small and capital ones.
  function SizeText(n: nat, capitals: seq<bool>): (d: bytes)
    ensures |d| == |capitals|
  {
    if capitals == [] then []
    else SizeText(n / 16, capitals[..|capitals| - 1]) + [SizeDigit(n % 16, capitals[|capitals| - 1])]
  }

  // The digits are enough for the number and few enough for the line buffer.
  predicate SizeFits(n: nat, capitals: seq<bool>)
  {
    1 <= |capitals| <= 63 && n < Pow16(|capitals|)
  }

  function Pow16(k: nat): (p: nat)
    ensures p > 0
  {
    if k == 0 then 1 else 16 * Pow16(k - 1)
  }

  // A chunk on the wire: how its size is written, an extension, its data.
  datatype Chunk = Chunk(capitals: seq<bool>, ext: bytes, data: bytes)

  predicate Extension(e: bytes) { 0x0A !in e && (e != [] ==> e[0] == 0x3B) }

  predicate WellFormed(c: Chunk)
  {
    c.data != [] && |c.data| <= 0xFFFF_FFFF_FFFF_FFFF && SizeFits(|c.data|, c.capitals) && Extension(c.ext)
  }

  // A trailer field: not blank, in one line.
  predicate Field(f: bytes) { f != [] && f[0] != 0x0D && f[0] != 0 && 0x0A !in f }

  function Encode(chunks: seq<Chunk>, last: seq<bool>, ext: bytes, trailers: seq<bytes>): bytes
  {
    if chunks == [] then SizeText(0, last) + ext + [0x0D, 0x0A] + EncodeTrailers(trailers)
    else
      var c := chunks[0];
      SizeText(|c.data|, c.capitals) + c.ext + [0x0D, 0x0A] + c.data + [0x0D, 0x0A] +
        Encode(chunks[1..], last, ext, trailers)
  }

  function EncodeTrailers(trailers: seq<bytes>): bytes
  {
    if trailers == [] then [0x0D, 0x0A] else trailers[0] + [0x0D, 0x0A] + EncodeTrailers(trailers[1..])
  }

  function Body(chunks: seq<Chunk>): bytes
  {
    if chunks == [] then [] else chunks[0].data + Body(chunks[1..])
  }

  function NoCr(s: bytes): bytes
  {
    if s == [] then [] else if s[0] == CR then NoCr(s[1..]) else [s[0]] + NoCr(s[1..])
  }

  lemma {:induction false} LineIs(text: bytes, rest: bytes, acc: bytes, size: nat)
    requires LF !in text && |acc| < size
    ensures Line(text + CRLF + rest, acc, size) == Some((Prefix(acc + NoCr(text), size - 1), rest))
    decreases |text|
  {
    hide Line, NoCr;
    NoCrStep(text);
    if text == [] {
      LineEnds(rest, acc, size);
      assert [] + CRLF + rest == CRLF + rest && acc + [] == acc;
    } else {
      var c, tail := text[0], text[1..];
      assert text[0] in text;
      assert text + CRLF + rest == [c] + (tail + CRLF + rest);
      LineNext(c, tail + CRLF + rest, acc, size);
      if c == CR {
        LineIs(tail, rest, acc, size);
      } else if |acc| + 1 < size {
        LineIs(tail, rest, acc + [c], size);
        assert acc + ([c] + NoCr(tail)) == acc + [c] + NoCr(tail);
      } else {
        LineIs(tail, rest, acc, size);
        Full(acc, NoCr(text), size);
        Full(acc, NoCr(tail), size);
      }
    }
  }

  lemma NoCrStep(text: bytes)
    ensures NoCr(text) ==
      if text == [] then [] else if text[0] == CR then NoCr(text[1..]) else [text[0]] + NoCr(text[1..])
  {
  }

  lemma LineEnds(rest: bytes, acc: bytes, size: nat)
    ensures Line(CRLF + rest, acc, size) == Some((acc, rest))
  {
    assert (CRLF + rest)[1..] == [LF] + rest && ([LF] + rest)[1..] == rest;
  }

  lemma LineNext(c: byte, s: bytes, acc: bytes, size: nat)
    requires c != LF
    ensures Line([c] + s, acc, size) == Line(s, if c == CR || |acc| + 1 >= size then acc else acc + [c], size)
  {
    assert ([c] + s)[1..] == s;
  }

  lemma Full(acc: bytes, more: bytes, size: nat)
    requires |acc| + 1 == size
    ensures Prefix(acc + more, size - 1) == acc
  {
  }

  lemma {:induction false} NoCrHex(d: bytes, e: bytes)
    requires forall c | c in d :: IsHex(c)
    ensures NoCr(d + e) == d + NoCr(e)
  {
    if d == [] {
      assert d + e == e;
    } else {
      assert (d + e)[1..] == d[1..] + e && d[0] in d;
      NoCrHex(d[1..], e);
    }
  }

  lemma {:induction false} CutHex(d: bytes, e: bytes)
    requires (forall c | c in d :: IsHex(c)) && (e != [] ==> e[0] == 0x3B)
    ensures BeforeSemicolon(d + e) == d
  {
    if d == [] {
      assert d + e == e;
    } else {
      assert (d + e)[1..] == d[1..] + e && d[0] in d;
      CutHex(d[1..], e);
    }
  }

  lemma {:induction false} HexRunAll(d: bytes)
    requires forall c | c in d :: IsHex(c)
    ensures HexRun(d) == |d|
  {
    if d != [] {
      assert d[0] in d;
      HexRunAll(d[1..]);
    }
  }

  // Digits the size line is read by.
  predicate Digits(d: bytes, n: nat)
  {
    d != [] && |d| < MAX_CHUNK_LINE && (forall c | c in d :: IsHex(c)) && HexValue(d) == n
  }

  lemma {:induction false} SizeTextRead(n: nat, capitals: seq<bool>)
    requires n < Pow16(|capitals|)
    ensures (forall c | c in SizeText(n, capitals) :: IsHex(c)) && HexValue(SizeText(n, capitals)) == n
  {
    if capitals != [] {
      var init := capitals[..|capitals| - 1];
      SizeTextRead(n / 16, init);
      assert SizeText(n, capitals)[..|init|] == SizeText(n / 16, init);
    }
  }

  lemma SizeDigits(n: nat, capitals: seq<bool>)
    requires SizeFits(n, capitals)
    ensures Digits(SizeText(n, capitals), n)
  {
    SizeTextRead(n, capitals);
  }

  lemma DigitsRead(d: bytes, n: nat)
    requires Digits(d, n) && n <= ULONG_MAX
    ensures StrToUl(d) == Some(n)
  {
    assert d[0] in d;
    if |d| > 2 { assert d[1] in d; }
    HexRunAll(d);
    assert d[..|d|] == d;
  }

  // The size line of a chunk is read as its size.
  lemma SizeLine(d: bytes, e: bytes, n: nat, rest: bytes)
    requires Digits(d, n) && n <= ULONG_MAX && Extension(e)
    ensures Line(d + e + CRLF + rest, [], MAX_CHUNK_LINE).Some?
    ensures var (line, t) := Line(d + e + CRLF + rest, [], MAX_CHUNK_LINE).value;
      t == rest && StrToUl(BeforeSemicolon(line)) == Some(n)
  {
    hide StrToUl, Line, HexValue;
    forall c | c in d + e ensures c != LF {}
    LineIs(d + e, rest, [], MAX_CHUNK_LINE);
    NoCrHex(d, e);
    var text := d + NoCr(e);
    assert [] + text == text;
    var line := Prefix(text, MAX_CHUNK_LINE - 1);
    assert line == d + line[|d|..];
    CutHex(d, line[|d|..]);
    DigitsRead(d, n);
  }

  // Decoding a well-formed stream gives the concatenated chunk data and stops right behind it.
  lemma {:induction false} DecodesBody(chunks: seq<Chunk>, last: seq<bool>, ext: bytes, trailers: seq<bytes>,
                                       more: bytes)
    requires (forall c | c in chunks :: WellFormed(c)) && SizeFits(0, last) && Extension(ext) &&
      forall f | f in trailers :: Field(f)
    ensures Decode(Encode(chunks, last, ext, trailers) + more) == Decoded(Body(chunks), Some(more))
    decreases |chunks|
  {
    hide StrToUl, Line, Digits, Extension, BeforeSemicolon, EncodeTrailers, Trailers, SizeText, SizeFits;
    var s := Encode(chunks, last, ext, trailers) + more;
    if chunks == [] {
      var d := SizeText(0, last);
      assert s == d + ext + CRLF + (EncodeTrailers(trailers) + more);
      SizeDigits(0, last);
      SizeLine(d, ext, 0, EncodeTrailers(trailers) + more);
      TrailersRead(trailers, more);
    } else {
      var c := chunks[0];
      var tail := Encode(chunks[1..], last, ext, trailers) + more;
      var t := c.data + ([] + CRLF + tail);
      assert c in chunks;
      var d := SizeText(|c.data|, c.capitals);
      assert s == d + c.ext + CRLF + t;
      SizeDigits(|c.data|, c.capitals);
      SizeLine(d, c.ext, |c.data|, t);
      assert t[..|c.data|] == c.data && t[|c.data|..] == [] + CRLF + tail;
      LineIs([], tail, [], MAX_DUMMY);
      DecodesBody(chunks[1..], last, ext, trailers, more);
    }
  }

  lemma {:induction false} TrailersRead(trailers: seq<bytes>, more: bytes)
    requires forall f | f in trailers :: Field(f)
    ensures Trailers(EncodeTrailers(trailers) + more) == Some(more)
  {
    hide Line;
    if trailers == [] {
      assert EncodeTrailers(trailers) + more == [] + CRLF + more;
      LineIs([], more, [], MAX_TRAILER);
      assert [] + NoCr([]) == [];
    } else {
      var f := trailers[0];
      assert f in trailers;
      var tail := EncodeTrailers(trailers[1..]) + more;
      assert EncodeTrailers(trailers) + more == f + CRLF + tail;
      LineIs(f, tail, [], MAX_TRAILER);
      assert ([] + NoCr(f))[0] == f[0];
      TrailersRead(trailers[1..], more);
    }
  }

  /* ---- Cut streams ---- */

  lemma {:induction false} LineExtends(s: bytes, x: bytes, acc: bytes, size: nat)
    ensures match Line(s, acc, size)
      case None => true
      case Some((line, rest)) => Line(s + x, acc, size) == Some((line, rest + x))
  {
    if s != [] {
      assert (s + x)[1..] == s[1..] + x;
      if s[0] == CR {
        LineExtends(s[1..], x, acc, size);
      } else if s[0] != LF {
        LineExtends(s[1..], x, if |acc| + 1 < size then acc + [s[0]] else acc, size);
      }
    }
  }

  lemma {:induction false} TrailersExtend(s: bytes, x: bytes)
    requires Trailers(s).Some?
    ensures Trailers(s + x) == Some(Trailers(s).value + x)
    decreases |s|
  {
    hide Line;
    LineExtends(s, x, [], MAX_TRAILER);
    var (line, rest) := Line(s, [], MAX_TRAILER).value;
    if !(line == [] || line[0] == 0) { TrailersExtend(rest, x); }
  }

  // A transfer that succeeded does not depend on what comes after it.
  lemma {:induction false} DecodeExtends(s: bytes, x: bytes)
    requires Decode(s).rest.Some?
    ensures Decode(s + x) == Decoded(Decode(s).out, Some(Decode(s).rest.value + x))
    decreases |s|
  {
    hide Line, StrToUl, BeforeSemicolon, Trailers;
    LineExtends(s, x, [], MAX_CHUNK_LINE);
    var (line, t) := Line(s, [], MAX_CHUNK_LINE).value;
    var n := StrToUl(BeforeSemicolon(line)).value;
    if n == 0 {
      TrailersExtend(t, x);
    } else {
      assert (t + x)[n..] == t[n..] + x && (t + x)[..n] == t[..n];
      LineExtends(t[n..], x, [], MAX_DUMMY);
      DecodeExtends(Line(t[n..], [], MAX_DUMMY).value.1, x);
    }
  }

  // Every strict prefix of a well-formed stream fails.
  lemma PrefixFails(chunks: seq<Chunk>, last: seq<bool>, ext: bytes, trailers: seq<bytes>, n: nat)
    requires (forall c | c in chunks :: WellFormed(c)) && SizeFits(0, last) && Extension(ext) &&
      forall f | f in trailers :: Field(f)
    requires n < |Encode(chunks, last, ext, trailers)|
    ensures Decode(Encode(chunks, last, ext, trailers)[..n]).rest == None
  {
    hide Decode, Encode, WellFormed, SizeFits, Extension;
    var s := Encode(chunks, last, ext, trailers);
    DecodesBody(chunks, last, ext, trailers, []);
    assert s[..n] + s[n..] == s && s + [] == s;
    if Decode(s[..n]).rest.Some? { DecodeExtends(s[..n], s[n..]); }
  }

  /* ---- Every body has such a stream ---- */

  // Any nonempty piece of a body can be sent as a chunk, its size in sixteen digits.
  lemma Sendable(data: bytes) returns (capitals: seq<bool>)
    requires data != [] && |data| <= 0xFFFF_FFFF_FFFF_FFFF
    ensures WellFormed(Chunk(capitals, [], data))
  {
    var four := [false, false, false, false];
    capitals := four + four + four + four;
    assert Pow16(4) == 0x1_0000;
    assert Pow16(8) == 0x1_0000_0000;
    assert Pow16(12) == 0x1_0000_0000_0000;
    assert Pow16(16) == 0x1_0000_0000_0000_0000;
  }

  /* ---- Other size lines ---- */

  predicate SizeBlank(c: byte) { c == 0x20 || 0x09 <= c <= 0x0D }

  predicate SizeByte(c: byte) { 0x30 <= c <= 0x39 || 0x41 <= c <= 0x46 || 0x61 <= c <= 0x66 }

  // A stream that begins with anything but a digit, a blank or a sign is no chunk.
  lemma NoSizeFails(c: byte, s: bytes)
    requires !SizeByte(c) && !SizeBlank(c) && c != 0x2B && c != 0x2D
    ensures Decode([c] + s) == Decoded([], None)
  {
    hide Line, StrToUl;
    LineNext(c, s, [], MAX_CHUNK_LINE);
    FirstStays(s, [c], MAX_CHUNK_LINE);
    assert [] + [c] == [c];
    DecodeStep([c] + s);
    match Line([c] + s, [], MAX_CHUNK_LINE)
    case None =>
    case Some((line, _)) =>
      CutFirst(line);
      NoNumber(BeforeSemicolon(line), c);
  }

  lemma CutFirst(line: bytes)
    ensures BeforeSemicolon(line) == [] || BeforeSemicolon(line)[0] == line[0]
  {
  }

  lemma NoNumber(t: bytes, c: byte)
    requires !SizeByte(c) && !SizeBlank(c) && c != 0x2B && c != 0x2D && (t == [] || t[0] == c)
    ensures StrToUl(t) == None
  {
  }

  lemma {:induction false} FirstStays(s: bytes, acc: bytes, size: nat)
    requires acc != []
    ensures match Line(s, acc, size) case None => true case Some((line, _)) => line != [] && line[0] == acc[0]
  {
    if s != [] && s[0] != LF {
      FirstStays(s[1..], if s[0] != CR && |acc| + 1 < size then acc + [s[0]] else acc, size);
    }
  }

  // How strtoul reads a size: blanks, a sign and 0x may stand before the digits; what is too large
  // is cut to the largest, and a minus sign takes it from 2^64.
  lemma SizeForms(blanks: bytes, sign: bytes, prefix: bytes, n: nat, capitals: seq<bool>, rest: bytes)
    requires (forall c | c in blanks :: SizeBlank(c)) && sign in [[], [0x2B], [0x2D]]
    requires prefix in [[], [0x30, 0x78], [0x30, 0x58]] && capitals != [] && n < Pow16(|capitals|)
    requires rest == [] || (!SizeByte(rest[0]) && rest[0] != 0x78 && rest[0] != 0x58)
    ensures StrToUl(blanks + (sign + (prefix + (SizeText(n, capitals) + rest)))) ==
      Some(if n > 0xFFFF_FFFF_FFFF_FFFF then 0xFFFF_FFFF_FFFF_FFFF
           else if sign == [0x2D] && n > 0 then 0x1_0000_0000_0000_0000 - n
           else n)
  {
    hide SizeText, HexRun, HexValue, IsHex, SizeByte, SizeBlank, SkipBlanks, StrToUl, Pow16;
    var d := SizeText(n, capitals);
    var u := prefix + (d + rest);
    SizeTextRead(n, capitals);
    forall c | c in d ensures SizeByte(c) { HexBytes(c); }
    FirstByte(sign, prefix, d, rest);
    BlanksSkipped(blanks, sign + u);
    AfterPrefix(prefix, d, rest);
    RunStops(d, rest);
    assert (d + rest)[..|d|] == d;
    SignedNumber(blanks + (sign + u), sign, u, d + rest, |d|);
  }

  lemma FirstByte(sign: bytes, prefix: bytes, d: bytes, rest: bytes)
    requires sign in [[], [0x2B], [0x2D]] && prefix in [[], [0x30, 0x78], [0x30, 0x58]]
    requires d != [] && forall c | c in d :: SizeByte(c)
    ensures var u := prefix + (d + rest);
      u != [] && u[0] != 0x2B && u[0] != 0x2D && sign + u != [] && !SizeBlank((sign + u)[0])
  {
    assert d[0] in d && (prefix + (d + rest))[0] == if prefix == [] then d[0] else 0x30;
  }

  // The number once blanks, sign and prefix are known.
  lemma SignedNumber(s: bytes, sign: bytes, u: bytes, v: bytes, k: nat)
    requires SkipBlanks(s) == sign + u && sign in [[], [0x2B], [0x2D]] && u != [] && u[0] != 0x2B && u[0] != 0x2D
    requires v == if |u| > 2 && u[0] == 0x30 && (u[1] == 0x78 || u[1] == 0x58) && IsHex(u[2]) then u[2..] else u
    requires HexRun(v) == k > 0
    ensures var n := HexValue(v[..k]);
      StrToUl(s) ==
        Some(if n > ULONG_MAX then ULONG_MAX
             else if sign == [0x2D] && n > 0 then ULONG_MAX + 1 - n
             else n)
  {
    hide HexRun, HexValue, IsHex, SkipBlanks;
    assert (sign + u)[|sign|..] == u;
  }

  lemma HexBytes(c: byte)
    ensures IsHex(c) <==> SizeByte(c)
  {
  }

  lemma {:induction false} BlanksSkipped(blanks: bytes, t: bytes)
    requires (forall c | c in blanks :: SizeBlank(c)) && t != [] && !SizeBlank(t[0])
    ensures SkipBlanks(blanks + t) == t
  {
    if blanks == [] {
      assert blanks + t == t;
    } else {
      assert (blanks + t)[1..] == blanks[1..] + t && blanks[0] in blanks;
      BlanksSkipped(blanks[1..], t);
    }
  }

  lemma AfterPrefix(prefix: bytes, d: bytes, rest: bytes)
    requires prefix in [[], [0x30, 0x78], [0x30, 0x58]] && d != [] && forall c | c in d :: SizeByte(c)
    requires rest == [] || (!SizeByte(rest[0]) && rest[0] != 0x78 && rest[0] != 0x58)
    ensures var u := prefix + (d + rest);
      d + rest == if |u| > 2 && u[0] == 0x30 && (u[1] == 0x78 || u[1] == 0x58) && IsHex(u[2]) then u[2..] else u
  {
    var u := prefix + (d + rest);
    assert d[0] in d;
    if prefix == [] {
      assert u == d + rest;
      if |d| > 1 { assert d[1] in d; }
    } else {
      assert u[2] == d[0] && u[2..] == d + rest;
    }
  }

  lemma {:induction false} RunStops(d: bytes, rest: bytes)
    requires (forall c | c in d :: SizeByte(c)) && (rest == [] || !SizeByte(rest[0]))
    ensures HexRun(d + rest) == |d|
  {
    if d == [] {
      assert d + rest == rest;
    } else {
      assert (d + rest)[1..] == d[1..] + rest && d[0] in d;
      RunStops(d[1..], rest);
    }
  }

  // A size line is cut behind 63 bytes: with as many zeros in front, whatever number it goes on
  // with, it ends the body.
  lemma LongSizeLine(more: bytes, rest: bytes)
    requires 0x0A !in more
    ensures var zeros := seq(63, _ => 0x30);
      Decode(zeros + more + [0x0D, 0x0A] + ([0x0D, 0x0A] + rest)) == Decoded([], Some(rest))
  {
    hide Line, StrToUl, Trailers, HexValue;
    var zeros: bytes := seq(63, _ => 0x30);
    var tail := [0x0D, 0x0A] + rest;
    LineIs(zeros + more, tail, [], MAX_CHUNK_LINE);
    NoCrHex(zeros, more);
    assert [] + (zeros + NoCr(more)) == zeros + NoCr(more);
    assert Prefix(zeros + NoCr(more), 63) == zeros;
    CutHex(zeros, []);
    assert zeros + [] == zeros;
    ZeroValue(zeros);
    DigitsRead(zeros, 0);
    TrailersRead([], rest);
    DecodeStep(zeros + more + [0x0D, 0x0A] + tail);
  }

  lemma {:induction false} ZeroValue(d: bytes)
    requires forall c | c in d :: c == 0x30
    ensures HexValue(d) == 0
  {
    if d != [] {
      var n := |d| - 1;
      assert d[n] in d && forall c | c in d[..n] :: c in d;
      ZeroValue(d[..n]);
    }
  }
}
