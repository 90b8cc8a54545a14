/** A JSON writer and the round trip through json_parse. The writer has a table of its own for
    everything it writes: every character in any spelling RFC 8259 has for it, and blanks
    wherever they may stand. */
module JsonPrinter {
  import opened Bytes
  import opened JsonGrammar
  import opened JsonReader
  import JsonTheorems
  import opened JsonMeaning

  // A character and how it is to be written: as it is, with a backslash and a letter, or with
  // \u and four hexadecimal digits, or twice that, each in capitals or not.
  datatype Spelling = Plain | Letter | Escaped(capitals: seq<bool>)
  datatype Glyph = Glyph(cp: Scalar, spelling: Spelling)

  // A document before encoding.
  datatype Value =
    | VNull
    | VBool(b: bool)
    | VNumber(lit: NumLit)
    | VString(text: seq<Glyph>)
    | VArray(items: seq<Value>)
    | VObject(members: seq<VMember>)
  datatype VMember = VMember(key: seq<Glyph>, value: Value)

  function HexDigit(v: int, capitals: bool): byte
    requires 0 <= v < 16
  {
    if v < 10 then 0x30 + v else if capitals then 0x37 + v else 0x57 + v
  }
  function HexDigits(u: int, capitals: seq<bool>): bytes
    requires 0 <= u < 0x10000 && |capitals| == 4
  {
    [HexDigit(u / 16 / 16 / 16, capitals[0]), HexDigit(u / 16 / 16 % 16, capitals[1]),
     HexDigit(u / 16 % 16, capitals[2]), HexDigit(u % 16, capitals[3])]
  }
  function Escape(u: int, capitals: seq<bool>): bytes
    requires 0 <= u < 0x10000 && |capitals| == 4
  {
    [0x5C, 0x75] + HexDigits(u, capitals)
  }

  // The characters that need no escape, and the letters of those that have one (section 7).
  predicate WrittenRaw(cp: Scalar) { 0x20 <= cp < 0x80 && cp != 0x22 && cp != 0x5C }

  function LetterOf(cp: Scalar): Option<byte>
  {
    match cp
    case 0x22 => Some(0x22)
    case 0x5C => Some(0x5C)
    case 0x2F => Some(0x2F)
    case 0x08 => Some(0x62)
    case 0x0C => Some(0x66)
    case 0x0A => Some(0x6E)
    case 0x0D => Some(0x72)
    case 0x09 => Some(0x74)
    case _ => None
  }

  predicate Writable(g: Glyph)
  {
    match g.spelling
    case Plain => WrittenRaw(g.cp)
    case Letter => LetterOf(g.cp) != None
    case Escaped(capitals) => |capitals| == if g.cp < 0x10000 then 4 else 8
  }
  predicate AllWritable(text: seq<Glyph>) { forall i | 0 <= i < |text| :: Writable(text[i]) }

  // The blanks of section 2.
  predicate Blank(ws: bytes) { forall c | c in ws :: c == 0x20 || c == 0x09 || c == 0x0A || c == 0x0D }

  function PrintGlyph(g: Glyph): bytes
    requires Writable(g)
  {
    match g.spelling
    case Plain => [g.cp]
    case Letter => [0x5C, LetterOf(g.cp).value]
    case Escaped(capitals) =>
      if g.cp < 0x10000 then Escape(g.cp, capitals)
      else
        Escape(0xD800 + (g.cp - 0x10000) / 0x400, capitals[..4]) +
        Escape(0xDC00 + (g.cp - 0x10000) % 0x400, capitals[4..])
  }
  function PrintGlyphs(text: seq<Glyph>): bytes
    requires AllWritable(text)
  {
    if text == [] then [] else PrintGlyph(text[0]) + PrintGlyphs(text[1..])
  }
  function PrintString(text: seq<Glyph>): bytes
    requires AllWritable(text)
  {
    [0x22] + PrintGlyphs(text) + [0x22]
  }

  // Numbers are literals of the grammar of at most 63 bytes, nesting is at most d.
  predicate Printable(v: Value, d: nat)
  {
    match v
    case VNumber(lit) => NumOk(lit) && |NumYield(lit)| <= 63
    case VString(text) => AllWritable(text)
    case VArray(items) => d > 0 && forall i | 0 <= i < |items| :: Printable(items[i], d - 1)
    case VObject(members) =>
      d > 0 && forall i | 0 <= i < |members| :: AllWritable(members[i].key) && Printable(members[i].value, d - 1)
    case _ => true
  }
  predicate MembersPrintable(members: seq<VMember>, d: nat)
  {
    forall i | 0 <= i < |members| :: AllWritable(members[i].key) && Printable(members[i].value, d)
  }

  function Print(v: Value, ws: bytes, d: nat): bytes
    requires Printable(v, d)
    decreases v, 0
  {
    match v
    case VNull => [0x6E, 0x75, 0x6C, 0x6C]
    case VBool(b) => if b then [0x74, 0x72, 0x75, 0x65] else [0x66, 0x61, 0x6C, 0x73, 0x65]
    case VNumber(lit) => NumYield(lit)
    case VString(text) => PrintString(text)
    case VArray(items) => if items == [] then [0x5B] + ws + [0x5D] else [0x5B] + PrintItems(items, ws, d - 1) + [0x5D]
    case VObject(members) =>
      if members == [] then [0x7B] + ws + [0x7D] else [0x7B] + PrintMembers(members, ws, d - 1) + [0x7D]
  }
  function PrintItems(items: seq<Value>, ws: bytes, d: nat): bytes
    requires items != [] && forall i | 0 <= i < |items| :: Printable(items[i], d)
    decreases items, 1
  {
    var first := ws + Print(items[0], ws, d) + ws;
    if |items| == 1 then first else first + [0x2C] + PrintItems(items[1..], ws, d)
  }
  function PrintMembers(members: seq<VMember>, ws: bytes, d: nat): bytes
    requires members != [] && MembersPrintable(members, d)
    decreases members, 1
  {
    var m := members[0];
    var first := ws + PrintString(m.key) + ws + [0x3A] + ws + Print(m.value, ws, d) + ws;
    if |members| == 1 then first else first + [0x2C] + PrintMembers(members[1..], ws, d)
  }
  function PrintText(v: Value, ws: bytes): bytes
    requires Printable(v, 64)
  {
    ws + Print(v, ws, 64) + ws
  }

  // The same document with its strings in UTF-8, as the parser's callers see it.
  function Encoded(v: Value): Json
  {
    match v
    case VNull => Null
    case VBool(b) => Bool(b)
    case VNumber(lit) => Number(NumYield(lit))
    case VString(text) => String(Utf8All(Points(text)))
    case VArray(items) => Array(EncodedItems(items))
    case VObject(members) => Object(EncodedMembers(members))
  }
  function EncodedItems(items: seq<Value>): seq<Json>
  {
    if items == [] then [] else [Encoded(items[0])] + EncodedItems(items[1..])
  }
  function EncodedMembers(members: seq<VMember>): seq<Member>
  {
    if members == [] then []
    else [Member(Utf8All(Points(members[0].key)), Encoded(members[0].value))] + EncodedMembers(members[1..])
  }
  function Points(text: seq<Glyph>): seq<Scalar>
  {
    if text == [] then [] else [text[0].cp] + Points(text[1..])
  }

  /* ---- The derivation of a printed document ---- */

  function CharsOf(g: Glyph): seq<Char>
    requires Writable(g)
  {
    match g.spelling
    case Plain => [Raw(g.cp)]
    case Letter => [Short(LetterOf(g.cp).value)]
    case Escaped(capitals) =>
      if g.cp < 0x10000 then [Hex(HexDigits(g.cp, capitals))]
      else
        [Hex(HexDigits(0xD800 + (g.cp - 0x10000) / 0x400, capitals[..4])),
         Hex(HexDigits(0xDC00 + (g.cp - 0x10000) % 0x400, capitals[4..]))]
  }
  function StringChars(text: seq<Glyph>): seq<Char>
    requires AllWritable(text)
  {
    if text == [] then [] else CharsOf(text[0]) + StringChars(text[1..])
  }

  lemma HexDigitsRead(u: int, capitals: seq<bool>)
    requires 0 <= u < 0x10000 && |capitals| == 4
    ensures IsHex4(HexDigits(u, capitals)) && Hex4Value(HexDigits(u, capitals)) == u
  {
    hide HexDigit, HexValue;
    HexDigitRead(u / 16 / 16 / 16, capitals[0]);
    HexDigitRead(u / 16 / 16 % 16, capitals[1]);
    HexDigitRead(u / 16 % 16, capitals[2]);
    HexDigitRead(u % 16, capitals[3]);
  }

  lemma HexDigitRead(v: int, capitals: bool)
    requires 0 <= v < 16
    ensures HexValue(HexDigit(v, capitals)) == v
  {
  }

  lemma CharsOfSpells(g: Glyph)
    requires Writable(g)
    ensures JsonTheorems.Spells(CharsOf(g), g.cp) && CharsYield(CharsOf(g)) == PrintGlyph(g)
  {
    hide HexDigits;
    if g.spelling.Escaped? {
      var capitals := g.spelling.capitals;
      if g.cp < 0x10000 {
        HexDigitsRead(g.cp, capitals);
      } else {
        var hi, lo := 0xD800 + (g.cp - 0x10000) / 0x400, 0xDC00 + (g.cp - 0x10000) % 0x400;
        HexDigitsRead(hi, capitals[..4]);
        HexDigitsRead(lo, capitals[4..]);
        assert CharsOf(g)[1..] == [Hex(HexDigits(lo, capitals[4..]))];
        assert CharsYield([Hex(HexDigits(lo, capitals[4..]))]) == Escape(lo, capitals[4..]);
      }
    }
  }

  lemma {:induction false} CharsOfYield(text: seq<Glyph>)
    requires AllWritable(text)
    ensures CharsYield(StringChars(text)) == PrintGlyphs(text)
  {
    hide CharsOf, PrintGlyph, JsonTheorems.Spells;
    if text != [] {
      CharsOfYield(text[1..]);
      CharsOfSpells(text[0]);
      JsonTheorems.CharsYieldAppend(CharsOf(text[0]), StringChars(text[1..]));
    }
  }

  lemma {:induction false} StringCharsMean(text: seq<Glyph>)
    requires AllWritable(text)
    ensures StringInLimits(StringChars(text)) && StringReading(StringChars(text)) == Utf8All(Points(text))
    ensures Quoted(StringChars(text)) == PrintString(text)
  {
    hide Utf8, CharsOf, PrintGlyph, JsonTheorems.Spells, StringInLimits, StringReading, CharsYield;
    JsonTheorems.EmptyString();
    CharsOfYield(text);
    if text != [] {
      StringCharsMean(text[1..]);
      CharsOfSpells(text[0]);
      JsonTheorems.SpellsFirst(CharsOf(text[0]), text[0].cp, StringChars(text[1..]));
    }
  }

  function TreeOf(v: Value, ws: bytes, d: nat): Tree
    requires Printable(v, d)
    decreases v, 0
  {
    match v
    case VNull => TNull
    case VBool(b) => if b then TTrue else TFalse
    case VNumber(lit) => TNumber(lit)
    case VString(text) => TString(StringChars(text))
    case VArray(items) => if items == [] then TEmptyArray(ws) else TArray(ElemsOf(items, ws, d - 1))
    case VObject(members) => if members == [] then TEmptyObject(ws) else TObject(PairsOf(members, ws, d - 1))
  }
  function ElemsOf(items: seq<Value>, ws: bytes, d: nat): Elems
    requires items != [] && forall i | 0 <= i < |items| :: Printable(items[i], d)
    decreases items, 1
  {
    if |items| == 1 then OneElem(ws, TreeOf(items[0], ws, d), ws)
    else MoreElems(ws, TreeOf(items[0], ws, d), ws, ElemsOf(items[1..], ws, d))
  }
  function PairsOf(members: seq<VMember>, ws: bytes, d: nat): Pairs
    requires members != [] && MembersPrintable(members, d)
    decreases members, 1
  {
    var key, value := StringChars(members[0].key), TreeOf(members[0].value, ws, d);
    if |members| == 1 then OnePair(ws, key, ws, ws, value, ws)
    else MorePairs(ws, key, ws, ws, value, ws, PairsOf(members[1..], ws, d))
  }

  lemma BlankIsWs(ws: bytes)
    ensures Blank(ws) <==> AllWs(ws)
  {
    assert forall i | 0 <= i < |ws| :: ws[i] in ws;
    if AllWs(ws) {
      forall c | c in ws ensures c == 0x20 || c == 0x09 || c == 0x0A || c == 0x0D {
        var i :| 0 <= i < |ws| && ws[i] == c;
      }
    }
  }

  lemma {:induction false} TreeOfRight(v: Value, ws: bytes, d: nat)
    requires Printable(v, d) && AllWs(ws)
    ensures var t := TreeOf(v, ws, d);
      TreeOk(t) && InLimits(t) && Height(t) <= d && Yield(t) == Print(v, ws, d) && Reading(t) == Encoded(v)
    decreases v, 0
  {
    hide CharsOk, CodePoints, StringReading, Quoted, NumYield, NumOk, PrintString, PrintItems, PrintMembers, ElemsOk,
      ElemsInLimits, ElemsHeight, ElemsYield, ElemsReading, ElemsOf, EncodedItems, PairsOk, PairsInLimits, PairsHeight,
      PairsYield, PairsReading, PairsOf, EncodedMembers, StringChars, AllWritable, AllWs;
    match v
    case VString(text) => StringCharsMean(text);
    case VArray(items) =>
      if items != [] {
        ElemsOfRight(items, ws, d - 1);
        Enclosed(0x5B, PrintItems(items, ws, d - 1), 0x5D);
      } else {
        EmptyEncodes();
        Enclosed(0x5B, ws, 0x5D);
      }
    case VObject(members) =>
      if members != [] {
        PairsOfRight(members, ws, d - 1);
        Enclosed(0x7B, PrintMembers(members, ws, d - 1), 0x7D);
      } else {
        EmptyEncodes();
        Enclosed(0x7B, ws, 0x7D);
      }
    case _ =>
  }

  lemma Enclosed(a: byte, s: bytes, b: byte)
    ensures [a] + (s + [b]) == [a] + s + [b]
  {
  }

  lemma EmptyEncodes()
    ensures EncodedItems([]) == [] && EncodedMembers([]) == []
  {
  }

  lemma {:induction false} ElemsOfRight(items: seq<Value>, ws: bytes, d: nat)
    requires items != [] && AllWs(ws) && forall i | 0 <= i < |items| :: Printable(items[i], d)
    ensures var es := ElemsOf(items, ws, d);
      ElemsOk(es) && ElemsInLimits(es) && ElemsHeight(es) <= d &&
      ElemsYield(es) == PrintItems(items, ws, d) && ElemsReading(es) == EncodedItems(items)
    decreases items, 1
  {
    hide TreeOk, InLimits, Height, Yield, Reading, Print, Encoded, TreeOf, Printable, AllWs;
    TreeOfRight(items[0], ws, d);
    if |items| > 1 {
      ElemsOfRight(items[1..], ws, d);
    } else {
      EmptyEncodes();
    }
  }

  lemma {:induction false} PairsOfRight(members: seq<VMember>, ws: bytes, d: nat)
    requires members != [] && AllWs(ws) && MembersPrintable(members, d)
    ensures var ps := PairsOf(members, ws, d);
      PairsOk(ps) && PairsInLimits(ps) && PairsHeight(ps) <= d &&
      PairsYield(ps) == PrintMembers(members, ws, d) && PairsReading(ps) == EncodedMembers(members)
    decreases members, 1
  {
    hide TreeOk, InLimits, Height, Yield, Reading, Print, Encoded, TreeOf, Printable, CodePoints, CharsOk,
      StringReading, StringChars, Quoted, PrintString, Utf8All, Points, AllWritable, AllWs;
    TreeOfRight(members[0].value, ws, d);
    StringCharsMean(members[0].key);
    Regroup(ws, PrintString(members[0].key), ws, [0x3A], ws, Print(members[0].value, ws, d), ws);
    if |members| > 1 {
      PairsOfRight(members[1..], ws, d);
      var first := PairYield(PairsOf(members, ws, d));
      var rest := PrintMembers(members[1..], ws, d);
      assert first + ([0x2C] + rest) == first + [0x2C] + rest;
    } else {
      EmptyEncodes();
    }
  }

  lemma Regroup(a: bytes, b: bytes, c: bytes, d: bytes, e: bytes, f: bytes, g: bytes)
    ensures a + (b + (c + (d + (e + (f + g))))) == a + b + c + d + e + f + g
  {
  }

  // Printing a document in any of these ways and parsing the text returns the document, its
  // strings in UTF-8.
  lemma RoundTrip(v: Value, ws: bytes)
    requires Printable(v, 64) && Blank(ws)
    ensures var text := PrintText(v, ws); ReadDoc(text, |text|) == Some(Encoded(v))
  {
    hide TreeOk, InLimits, Height, Yield, Reading, Print, Encoded, TreeOf, Printable, ReadDoc, AllWs;
    BlankIsWs(ws);
    TreeOfRight(v, ws, 64);
    var text := PrintText(v, ws);
    var d := Doc(ws, TreeOf(v, ws, 64), ws);
    assert DocYield(d) == text[..|text|];
    JsonTheorems.ReadDocComplete(text, |text|, d);
  }

  /* ---- Every string can be printed ---- */

  lemma DigitPrinted(c: byte) returns (v: int, capital: bool)
    requires HexValue(c) >= 0
    ensures v == HexValue(c) && HexDigit(v, capital) == c
  {
    v, capital := HexValue(c), c < 0x60;
  }

  lemma HexPrinted(h: bytes) returns (capitals: seq<bool>)
    requires IsHex4(h)
    ensures |capitals| == 4 && HexDigits(Hex4Value(h), capitals) == h
  {
    hide HexValue, HexDigit;
    var a, x := DigitPrinted(h[0]);
    var b, y := DigitPrinted(h[1]);
    var c, z := DigitPrinted(h[2]);
    var d, w := DigitPrinted(h[3]);
    capitals := [x, y, z, w];
    FourDigits(a, b, c, d);
  }

  lemma FourDigits(a: int, b: int, c: int, d: int)
    requires 0 <= a < 16 && 0 <= b < 16 && 0 <= c < 16 && 0 <= d < 16
    ensures var u := ((a * 16 + b) * 16 + c) * 16 + d;
      u / 16 / 16 / 16 == a && u / 16 / 16 % 16 == b && u / 16 % 16 == c && u % 16 == d
  {
  }

  lemma OnePrinted(c: Char) returns (g: Glyph)
    requires CharOk(c) && CharUnit(c) > 0 && !IsHigh(CharUnit(c)) && !IsLow(CharUnit(c)) && (c.Raw? ==> c.b < 0x80)
    ensures Writable(g) && PrintGlyph(g) == CharYield(c)
  {
    hide HexDigits;
    var u := CharUnit(c);
    match c
    case Raw(_) => g := Glyph(u, Plain);
    case Short(_) => g := Glyph(u, Letter);
    case Hex(h) =>
      var capitals := HexPrinted(h);
      g := Glyph(u, Escaped(capitals));
  }

  lemma PairPrinted(c: Char, d: Char) returns (g: Glyph)
    requires c.Hex? && d.Hex? && CharOk(c) && CharOk(d) && IsHigh(CharUnit(c)) && IsLow(CharUnit(d))
    ensures Writable(g) && PrintGlyph(g) == CharYield(c) + CharYield(d)
  {
    hide HexDigits, Hex4Value;
    var x := HexPrinted(c.digits);
    var y := HexPrinted(d.digits);
    var cp := 0x10000 + (CharUnit(c) - 0xD800) * 0x400 + (CharUnit(d) - 0xDC00);
    assert 0xD800 + (cp - 0x10000) / 0x400 == CharUnit(c) && 0xDC00 + (cp - 0x10000) % 0x400 == CharUnit(d);
    g := Glyph(cp, Escaped(x + y));
  }

  // Every string the parser takes, its raw bytes being ASCII, is one the writer can write.
  lemma {:induction false} EveryString(cs: seq<Char>) returns (text: seq<Glyph>)
    requires StringInLimits(cs) && CharsAscii(cs)
    ensures AllWritable(text) && PrintGlyphs(text) == CharsYield(cs)
  {
    hide PrintGlyph, CharYield, Writable;
    if cs == [] {
      text := [];
    } else {
      var c := cs[0];
      if IsHigh(CharUnit(c)) {
        assert CharsOk(cs[2..]) && CodePoints(cs[2..]).Some?;
        AsciiStep(cs, 2);
        var g := PairPrinted(c, cs[1]);
        var rest := EveryString(cs[2..]);
        text := [g] + rest;
        assert cs[1..][1..] == cs[2..] && text[1..] == rest;
        assert CharsYield(cs) == CharYield(c) + (CharYield(cs[1]) + CharsYield(cs[2..]));
      } else {
        AsciiStep(cs, 1);
        var g := OnePrinted(c);
        var rest := EveryString(cs[1..]);
        text := [g] + rest;
        assert text[1..] == rest;
      }
    }
  }

  /* ---- UTF-8 decodes (section 3 of RFC 3629) ---- */

  function Continuation(b: byte): int { b - 0x80 }

  // The code point a UTF-8 sequence starts with and the bytes it takes.
  function Utf8Decode(t: bytes): Option<(int, nat)>
  {
    if |t| == 0 then None
    else if t[0] < 0x80 then Some((t[0], 1))
    else if 0xC0 <= t[0] < 0xE0 && |t| >= 2 then Some(((t[0] - 0xC0) * 0x40 + Continuation(t[1]), 2))
    else if 0xE0 <= t[0] < 0xF0 && |t| >= 3 then
      Some((((t[0] - 0xE0) * 0x40 + Continuation(t[1])) * 0x40 + Continuation(t[2]), 3))
    else if 0xF0 <= t[0] && |t| >= 4 then
      Some(((((t[0] - 0xF0) * 0x40 + Continuation(t[1])) * 0x40 + Continuation(t[2])) * 0x40 + Continuation(t[3]), 4))
    else None
  }

  lemma Utf8Decodes(cp: Scalar, rest: bytes)
    ensures Utf8Decode(Utf8(cp) + rest) == Some((cp, |Utf8(cp)|))
    ensures forall i | 1 <= i < |Utf8(cp)| :: 0x80 <= Utf8(cp)[i] < 0xC0
  {
    Shifts(cp);
    var t := Utf8(cp);
    assert forall i | 0 <= i < |t| :: (t + rest)[i] == t[i];
  }

  lemma Shifts(cp: nat)
    ensures cp / 0x1000 == cp / 0x40 / 0x40 && cp / 0x40000 == cp / 0x40 / 0x40 / 0x40
  {
  }

  // Distinct strings keep distinct encodings, so no document is lost in the round trip.
  lemma {:induction false} Utf8Injective(a: seq<Scalar>, b: seq<Scalar>)
    requires Utf8All(a) == Utf8All(b)
    ensures a == b
  {
    hide Utf8, Utf8Decode;
    if a != [] && b != [] {
      Utf8Decodes(a[0], Utf8All(a[1..]));
      Utf8Decodes(b[0], Utf8All(b[1..]));
      assert Utf8All(a[1..]) == Utf8All(a)[|Utf8(a[0])|..];
      Utf8Injective(a[1..], b[1..]);
      assert a == [a[0]] + a[1..] && b == [b[0]] + b[1..];
    }
  }
}
