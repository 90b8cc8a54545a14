/** What the reader makes of bytes beyond ASCII: it takes each for a code point of its own and
    never checks that the text is UTF-8. */
module JsonMeaning {
  import opened Bytes
  import opened JsonGrammar
  import opened JsonReader
  import opened JsonTheorems

  /* ---- UTF-8 (RFC 3629) ---- */

  // The check reads the encoding of a code point as one sequence.
  lemma LengthOfUtf8(cp: CodePoint, rest: bytes)
    ensures Utf8Length(Utf8(cp) + rest) == |Utf8(cp)|
  {
    var t := Utf8(cp);
    assert forall i | 0 <= i < |t| :: (t + rest)[i] == t[i];
    if cp > 0xFFFF {
      FourBytes(cp);
    } else if cp > 0x7FF {
      ThreeBytes(cp);
    }
  }

  lemma ThreeBytes(cp: CodePoint)
    requires 0x7FF < cp <= 0xFFFF
    ensures var a, b := cp / 0x1000, cp / 0x40 % 0x40; a < 16 && (a == 0 ==> b >= 0x20) && (a == 0xD ==> b < 0x20)
  {
    var q := cp / 0x40;
    assert cp / 0x1000 == q / 0x40;
    if q / 0x40 == 0xD {
      assert cp < 0xE000 && !IsHigh(cp) && !IsLow(cp);
      assert q < 0x360 && q % 0x40 == q - 0x340;
    }
  }

  lemma FourBytes(cp: CodePoint)
    requires 0xFFFF < cp
    ensures var a, b := cp / 0x40000, cp / 0x1000 % 0x40; a <= 4 && (a == 0 ==> b >= 0x10) && (a == 4 ==> b < 0x10)
  {
    var q := cp / 0x1000;
    assert cp / 0x40000 == q / 0x40;
  }

  function Tail(b: byte): (v: int)
    requires IsTail(b)
    ensures 0 <= v < 0x40
  {
    b as int - 0x80
  }

  // Six bits joined to a number can be taken off again.
  lemma Sextet(high: nat, low: nat)
    requires low < 0x40
    ensures var n := high * 0x40 + low; n / 0x40 == high && n % 0x40 == low
  {
  }

  lemma ThreeSextets(a: nat, b: nat, c: nat)
    requires b < 0x40 && c < 0x40
    ensures var n := (a * 0x40 + b) * 0x40 + c; n / 0x1000 == a && n / 0x40 % 0x40 == b && n % 0x40 == c
  {
    Sextet(a * 0x40 + b, c);
    Sextet(a, b);
  }

  lemma FourSextets(a: nat, b: nat, c: nat, d: nat)
    requires b < 0x40 && c < 0x40 && d < 0x40
    ensures var n := ((a * 0x40 + b) * 0x40 + c) * 0x40 + d;
      n / 0x40000 == a && n / 0x1000 % 0x40 == b && n / 0x40 % 0x40 == c && n % 0x40 == d
  {
    ThreeSextets(a * 0x40 + b, c, d);
    Sextet(a, b);
  }

  // And every sequence it takes encodes a code point.
  lemma FrontDecodes(t: bytes) returns (cp: CodePoint)
    requires Utf8Length(t) > 0
    ensures t[..Utf8Length(t)] == Utf8(cp)
  {
    match Utf8Length(t)
    case 1 => cp := t[0];
    case 2 => cp := TwoDecode(t);
    case 3 => cp := ThreeDecode(t);
    case _ => cp := FourDecode(t);
  }

  lemma TwoDecode(t: bytes) returns (cp: CodePoint)
    requires Utf8Length(t) == 2
    ensures t[..2] == Utf8(cp)
  {
    var a: int := t[0];
    Sextet(a - 0xC0, Tail(t[1]));
    cp := (a - 0xC0) * 0x40 + Tail(t[1]);
  }

  lemma ThreeDecode(t: bytes) returns (cp: CodePoint)
    requires Utf8Length(t) == 3
    ensures t[..3] == Utf8(cp)
  {
    var a: int := t[0];
    ThreeSextets(a - 0xE0, Tail(t[1]), Tail(t[2]));
    cp := ((a - 0xE0) * 0x40 + Tail(t[1])) * 0x40 + Tail(t[2]);
  }

  lemma FourDecode(t: bytes) returns (cp: CodePoint)
    requires Utf8Length(t) == 4
    ensures t[..4] == Utf8(cp)
  {
    var a: int := t[0];
    FourSextets(a - 0xF0, Tail(t[1]), Tail(t[2]), Tail(t[3]));
    cp := (((a - 0xF0) * 0x40 + Tail(t[1])) * 0x40 + Tail(t[2])) * 0x40 + Tail(t[3]);
  }

  // A text is UTF-8 exactly when it encodes code points.
  lemma {:induction false} EncodedIsUtf8(cps: seq<CodePoint>)
    ensures IsUtf8(Utf8All(cps))
  {
    hide Utf8, Utf8Length;
    if cps != [] {
      var rest := Utf8All(cps[1..]);
      LengthOfUtf8(cps[0], rest);
      assert (Utf8(cps[0]) + rest)[|Utf8(cps[0])|..] == rest;
      EncodedIsUtf8(cps[1..]);
    }
  }

  lemma {:induction false} Utf8IsEncoded(t: bytes) returns (cps: seq<CodePoint>)
    requires IsUtf8(t)
    ensures Utf8All(cps) == t
    decreases |t|
  {
    hide Utf8, Utf8Length;
    if t == [] {
      cps := [];
    } else {
      var k := Utf8Length(t);
      var cp := FrontDecodes(t);
      var rest := Utf8IsEncoded(t[k..]);
      cps := [cp] + rest;
      assert cps[1..] == rest && t == t[..k] + t[k..];
    }
  }

  lemma Utf8Exactly(t: bytes)
    ensures IsUtf8(t) <==> exists cps: seq<CodePoint> :: Utf8All(cps) == t
  {
    hide IsUtf8, Utf8All;
    if IsUtf8(t) { var cps := Utf8IsEncoded(t); }
    if cps: seq<CodePoint> :| Utf8All(cps) == t { EncodedIsUtf8(cps); }
  }

  /* ---- Strings ---- */

  // Raw bytes of ASCII only.
  predicate CharsAscii(cs: seq<Char>) { forall i | 0 <= i < |cs| && cs[i].Raw? :: cs[i].b < 0x80 }

  // A string is read as what it denotes exactly when its raw bytes are ASCII, and otherwise grows.
  lemma {:induction false} StringKept(cs: seq<Char>)
    requires StringInLimits(cs)
    ensures StringReading(cs) == StringMeaning(cs) <==> CharsAscii(cs)
    ensures |StringReading(cs)| >= |StringMeaning(cs)|
    ensures |StringReading(cs)| == |StringMeaning(cs)| ==> CharsAscii(cs)
  {
    if cs != [] {
      var k := if IsHigh(CharUnit(cs[0])) then 2 else 1;
      var cp, rest := CodePoints(cs).value[0], cs[k..];
      assert CodePoints(rest) == Some(CodePoints(cs).value[1..]);
      StringKept(rest);
      assert StringReading(cs) == Utf8(cp) + StringReading(rest);
      assert CharsAscii(cs) <==> (cs[0].Raw? ==> cs[0].b < 0x80) && CharsAscii(rest) by { AsciiStep(cs, k); }
    }
  }

  lemma AsciiStep(cs: seq<Char>, k: nat)
    requires 0 < k <= |cs| && k <= 2 && (k == 2 ==> !cs[1].Raw?)
    ensures CharsAscii(cs) <==> (cs[0].Raw? ==> cs[0].b < 0x80) && CharsAscii(cs[k..])
  {
    var rest := cs[k..];
    if CharsAscii(rest) && (cs[0].Raw? ==> cs[0].b < 0x80) {
      forall i | 0 <= i < |cs| && cs[i].Raw? ensures cs[i].b < 0x80 {
        if i >= k { assert cs[i] == rest[i - k]; }
      }
    }
  }

  /* ---- Documents ---- */

  predicate TreeAscii(t: Tree)
  {
    match t
    case TString(cs) => CharsAscii(cs)
    case TArray(es) => ElemsAscii(es)
    case TObject(ps) => PairsAscii(ps)
    case _ => true
  }
  predicate ElemsAscii(es: Elems) { TreeAscii(es.v) && (es.MoreElems? ==> ElemsAscii(es.rest)) }
  predicate PairsAscii(ps: Pairs)
  {
    CharsAscii(ps.key) && TreeAscii(ps.v) && (ps.MorePairs? ==> PairsAscii(ps.rest))
  }

  lemma {:induction false} TreeKept(t: Tree)
    requires TreeOk(t) && InLimits(t)
    ensures Reading(t) == Meaning(t) <==> TreeAscii(t)
    decreases t
  {
    hide ElemsReading, ElemsMeaning, PairsReading, PairsMeaning, StringReading, StringMeaning, CharsAscii, CodePoints,
      ElemsOk, ElemsInLimits, PairsOk, PairsInLimits, CharsOk, NumYield, NumOk, ElemsAscii, PairsAscii;
    match t
    case TString(cs) => StringKept(cs);
    case TArray(es) => ElemsKept(es);
    case TObject(ps) => PairsKept(ps);
    case _ =>
  }

  lemma {:induction false} ElemsKept(es: Elems)
    requires ElemsOk(es) && ElemsInLimits(es)
    ensures ElemsReading(es) == ElemsMeaning(es) <==> ElemsAscii(es)
    decreases es
  {
    hide Reading, Meaning, TreeOk, InLimits, TreeAscii;
    TreeKept(es.v);
    if es.MoreElems? {
      ElemsKept(es.rest);
      SameList(Reading(es.v), ElemsReading(es.rest), Meaning(es.v), ElemsMeaning(es.rest));
    } else {
      assert ElemsReading(es)[0] == Reading(es.v) && ElemsMeaning(es)[0] == Meaning(es.v);
    }
  }

  lemma {:induction false} PairsKept(ps: Pairs)
    requires PairsOk(ps) && PairsInLimits(ps)
    ensures PairsReading(ps) == PairsMeaning(ps) <==> PairsAscii(ps)
    decreases ps
  {
    hide Reading, Meaning, TreeOk, InLimits, TreeAscii, StringReading, StringMeaning, CodePoints, CharsOk, CharsAscii;
    StringKept(ps.key);
    TreeKept(ps.v);
    var m, n := Member(StringReading(ps.key), Reading(ps.v)), Member(StringMeaning(ps.key), Meaning(ps.v));
    if ps.MorePairs? {
      PairsKept(ps.rest);
      SameList(m, PairsReading(ps.rest), n, PairsMeaning(ps.rest));
    } else {
      assert PairsReading(ps)[0] == m && PairsMeaning(ps)[0] == n;
    }
  }

  lemma SameList<T>(a: T, s: seq<T>, b: T, t: seq<T>)
    ensures [a] + s == [b] + t <==> a == b && s == t
  {
    if [a] + s == [b] + t { assert a == ([a] + s)[0] == b && s == ([a] + s)[1..] == t; }
  }

  /* ---- Their text ---- */

  lemma AsciiAppend(a: bytes, b: bytes)
    ensures Ascii(a + b) <==> Ascii(a) && Ascii(b)
  {
    if Ascii(a + b) {
      forall i | 0 <= i < |a| ensures a[i] < 0x80 { assert (a + b)[i] == a[i]; }
      forall i | 0 <= i < |b| ensures b[i] < 0x80 { assert (a + b)[|a| + i] == b[i]; }
    }
  }

  lemma CharYieldAscii(c: Char)
    requires CharOk(c)
    ensures Ascii(CharYield(c)) <==> (c.Raw? ==> c.b < 0x80)
  {
    match c
    case Raw(b) => assert CharYield(c)[0] == b;
    case Short(e) =>
    case Hex(h) =>
      AsciiAppend([BACKSLASH, LOWER_U], h);
      forall i | 0 <= i < 4 ensures h[i] < 0x80 { assert HexValue(h[i]) >= 0; }
  }

  lemma {:induction false} CharsYieldAscii(cs: seq<Char>)
    requires CharsOk(cs)
    ensures Ascii(CharsYield(cs)) <==> CharsAscii(cs)
  {
    hide CharYield, Ascii;
    if cs == [] {
      NothingAscii();
    } else {
      CharYieldAscii(cs[0]);
      CharsYieldAscii(cs[1..]);
      AsciiAppend(CharYield(cs[0]), CharsYield(cs[1..]));
      AsciiStep(cs, 1);
    }
  }

  lemma NothingAscii()
    ensures Ascii([])
  {
  }

  lemma QuotedAscii(cs: seq<Char>)
    requires CharsOk(cs)
    ensures Ascii(Quoted(cs)) <==> CharsAscii(cs)
  {
    hide CharsYield, CharsAscii;
    CharsYieldAscii(cs);
    AsciiAppend([QUOTE], CharsYield(cs) + [QUOTE]);
    AsciiAppend(CharsYield(cs), [QUOTE]);
  }

  lemma NumAscii(n: NumLit)
    requires NumOk(n)
    ensures Ascii(NumYield(n))
  {
    var sign := if n.minus then [MINUS] else [];
    if n.frac != [] { assert n.frac == [DOT] + n.frac[1..]; }
    if n.exp != [] { ExpAscii(n.exp); }
    AsciiAppend(sign, n.int_);
    AsciiAppend(sign + n.int_, n.frac);
    AsciiAppend(sign + n.int_ + n.frac, n.exp);
  }

  lemma ExpAscii(e: bytes)
    requires ExpOk(e) && e != []
    ensures Ascii(e)
  {
    var signed := e[1..];
    assert e == [e[0]] + signed && signed == [signed[0]] + signed[1..];
  }

  // A derivation has raw bytes of ASCII only exactly when its text has.
  lemma {:induction false} YieldAscii(t: Tree)
    requires TreeOk(t)
    ensures Ascii(Yield(t)) <==> TreeAscii(t)
    decreases t, 0
  {
    hide ElemsYield, PairsYield, Quoted, CharsAscii, ElemsOk, PairsOk, ElemsAscii, PairsAscii, NumYield, NumOk;
    match t
    case TNumber(n) => NumAscii(n);
    case TString(cs) => QuotedAscii(cs);
    case TEmptyArray(w) =>
      AsciiAppend([LBRACKET], w + [RBRACKET]);
      AsciiAppend(w, [RBRACKET]);
    case TArray(es) =>
      ElemsYieldAscii(es);
      AsciiAppend([LBRACKET], ElemsYield(es) + [RBRACKET]);
      AsciiAppend(ElemsYield(es), [RBRACKET]);
    case TEmptyObject(w) =>
      AsciiAppend([LBRACE], w + [RBRACE]);
      AsciiAppend(w, [RBRACE]);
    case TObject(ps) =>
      PairsYieldAscii(ps);
      AsciiAppend([LBRACE], PairsYield(ps) + [RBRACE]);
      AsciiAppend(PairsYield(ps), [RBRACE]);
    case _ =>
  }

  lemma {:induction false} ElemsYieldAscii(es: Elems)
    requires ElemsOk(es)
    ensures Ascii(ElemsYield(es)) <==> ElemsAscii(es)
    decreases es, 1
  {
    hide Yield, TreeAscii, TreeOk, Ascii;
    YieldAscii(es.v);
    BlankAscii(es.pre);
    BlankAscii(es.post);
    AsciiAppend(es.pre, Yield(es.v) + es.post);
    AsciiAppend(Yield(es.v), es.post);
    if es.MoreElems? {
      ElemsYieldAscii(es.rest);
      OneAscii(COMMA);
      AsciiAppend(ElemYield(es), [COMMA] + ElemsYield(es.rest));
      AsciiAppend([COMMA], ElemsYield(es.rest));
    }
  }

  lemma {:induction false} PairsYieldAscii(ps: Pairs)
    requires PairsOk(ps)
    ensures Ascii(PairsYield(ps)) <==> PairsAscii(ps)
    decreases ps, 1
  {
    hide Yield, TreeAscii, TreeOk, Ascii, PairYield, CharsOk, CharsAscii;
    PairYieldAscii(ps);
    if ps.MorePairs? {
      PairsYieldAscii(ps.rest);
      OneAscii(COMMA);
      AsciiAppend(PairYield(ps), [COMMA] + PairsYield(ps.rest));
      AsciiAppend([COMMA], PairsYield(ps.rest));
    }
  }

  lemma {:induction false} PairYieldAscii(ps: Pairs)
    requires PairsOk(ps)
    ensures Ascii(PairYield(ps)) <==> CharsAscii(ps.key) && TreeAscii(ps.v)
    decreases ps, 0
  {
    hide Yield, TreeAscii, TreeOk, Ascii, Quoted, CharsAscii, CharsOk;
    YieldAscii(ps.v);
    QuotedAscii(ps.key);
    BlankAscii(ps.pre);
    BlankAscii(ps.mid);
    BlankAscii(ps.sep);
    BlankAscii(ps.post);
    OneAscii(COLON);
    var value := Yield(ps.v) + ps.post;
    AsciiAppend(Yield(ps.v), ps.post);
    AsciiAppend(ps.sep, value);
    AsciiAppend([COLON], ps.sep + value);
    AsciiAppend(ps.mid, [COLON] + (ps.sep + value));
    AsciiAppend(Quoted(ps.key), ps.mid + ([COLON] + (ps.sep + value)));
    AsciiAppend(ps.pre, Quoted(ps.key) + (ps.mid + ([COLON] + (ps.sep + value))));
  }

  lemma BlankAscii(w: bytes)
    requires AllWs(w)
    ensures Ascii(w)
  {
  }

  lemma OneAscii(c: byte)
    requires c < 0x80
    ensures Ascii([c])
  {
  }

  /* ---- json_parse ---- */

  // Of a text the grammar derives, json_parse returns the value it denotes exactly when the text
  // is ASCII.
  lemma ValueRight(s: bytes, n: nat, d: Doc)
    requires n <= |s| && DocInLimits(d) && DocYield(d) == s[..n]
    ensures ReadDoc(s, n) == Some(Meaning(d.value)) <==> Ascii(s[..n])
  {
    hide ReadDoc, TreeOk, InLimits, Height, Yield, Reading, Meaning, TreeAscii, Ascii;
    ReadDocComplete(s, n, d);
    TreeKept(d.value);
    YieldAscii(d.value);
    BlankAscii(d.pre);
    BlankAscii(d.post);
    AsciiAppend(d.pre, Yield(d.value) + d.post);
    AsciiAppend(Yield(d.value), d.post);
  }

  lemma RawString(b: byte, cs: seq<Char>)
    requires b >= 0x20 && b != QUOTE && b != BACKSLASH && StringInLimits(cs)
    ensures var all := [Raw(b)] + cs;
      StringInLimits(all) && CharsYield(all) == [b] + CharsYield(cs) &&
      StringReading(all) == Utf8(b) + StringReading(cs) && StringMeaning(all) == [b] + StringMeaning(cs)
  {
    var all := [Raw(b)] + cs;
    assert all[1..] == cs;
    assert CodePoints(all) == Some([b] + CodePoints(cs).value);
    assert ([b] + CodePoints(cs).value)[1..] == CodePoints(cs).value;
  }

  lemma StringDoc(s: bytes, n: nat, cs: seq<Char>)
    requires n <= |s| && StringInLimits(cs) && s[..n] == Quoted(cs)
    ensures var d := Doc([], TString(cs), []);
      DocInLimits(d) && DocYield(d) == s[..n] && Meaning(d.value) == String(StringMeaning(cs)) &&
      ReadDoc(s, n) == Some(String(StringReading(cs))) && !Overhang(s, n)
  {
    hide ReadDoc, Overhang, CodePoints, CharsOk, Quoted, StringReading, StringMeaning;
    assert [] + (Quoted(cs) + []) == Quoted(cs);
    ReadDocComplete(s, n, Doc([], TString(cs), []));
  }

  const EACUTE: bytes := [0xC3, 0xA9]

  lemma EacuteRead()
    ensures var cs := [Raw(0xC3), Raw(0xA9)];
      StringInLimits(cs) && CharsYield(cs) == EACUTE && StringMeaning(cs) == EACUTE &&
      StringReading(cs) == [0xC3, 0x83, 0xC2, 0xA9]
  {
    hide StringInLimits, CharsYield, StringReading;
    EmptyString();
    NoChars();
    var one: seq<Char> := [Raw(0xA9)];
    assert [Raw(0xA9)] + [] == one && [Raw(0xC3)] + one == [Raw(0xC3), Raw(0xA9)];
    RawString(0xA9, []);
    assert StringInLimits(one);
    RawString(0xC3, one);
    assert Utf8(0xC3) + (Utf8(0xA9) + []) == [0xC3, 0x83, 0xC2, 0xA9];
  }

  lemma NoChars()
    ensures CharsYield([]) == []
  {
  }

  lemma EacuteIsUtf8()
    ensures IsUtf8([QUOTE] + EACUTE + [QUOTE])
  {
    var s := [QUOTE] + EACUTE + [QUOTE];
    assert s[1..] == EACUTE + [QUOTE] && (EACUTE + [QUOTE])[2..] == [QUOTE] && [QUOTE][1..] == [];
    assert IsUtf8([QUOTE]);
    assert IsUtf8(EACUTE + [QUOTE]);
  }

  // A string of one accented letter in UTF-8 is JSON; it is read as two other letters.
  lemma RawUtf8Witness()
    ensures var s, d := [QUOTE] + EACUTE + [QUOTE, 0], Doc([], TString([Raw(0xC3), Raw(0xA9)]), []);
      DocInLimits(d) && DocYield(d) == s[..4] && IsJson(s[..4]) && Meaning(d.value) == String(EACUTE) &&
      ReadDoc(s, 4) == Some(String([0xC3, 0x83, 0xC2, 0xA9]))
  {
    hide ReadDoc, StringInLimits, CharsYield, StringReading, StringMeaning, IsUtf8, DocInLimits, DocYield, Meaning;
    var s, cs := [QUOTE] + EACUTE + [QUOTE, 0], [Raw(0xC3), Raw(0xA9)];
    EacuteRead();
    EacuteIsUtf8();
    assert s[..4] == [QUOTE] + EACUTE + [QUOTE] == Quoted(cs);
    StringDoc(s, 4, cs);
  }

  // A quoted byte 255 is no JSON text, since it is not UTF-8, and is accepted all the same.
  lemma NotUtf8Witness()
    ensures var s := [QUOTE, 0xFF, QUOTE, 0];
      ReadDoc(s, 3) == Some(String([0xC3, 0xBF])) && !Overhang(s, 3) && !IsJson(s[..3])
  {
    hide ReadDoc, Overhang;
    var s, cs := [QUOTE, 0xFF, QUOTE, 0], [Raw(0xFF)];
    EmptyString();
    RawString(0xFF, []);
    assert [Raw(0xFF)] + [] == cs && [0xFF] + [] == [0xFF] && Utf8(0xFF) + [] == [0xC3, 0xBF];
    assert s[..3] == Quoted(cs);
    StringDoc(s, 3, cs);
    assert s[..3][1..] == [0xFF, QUOTE];
  }
}
