/** The JSON text grammar of RFC 8259 on bytes, as derivation trees.

    A tree records one derivation; `Yield` is the text it derives, `Meaning` the value it denotes
    and `Reading` the value the implementation takes it for. A code point beyond ASCII is a run
    of raw bytes; that a JSON text is UTF-8 (section 8.1) is the separate predicate `IsUtf8`. */
module JsonGrammar {
  import opened Bytes

  // The document tree handed to callers. Numbers keep their literal text.
  datatype Json =
    | Null
    | Bool(b: bool)
    | Number(literal: bytes)
    | String(text: bytes)
    | Array(items: seq<Json>)
    | Object(members: seq<Member>)
  datatype Member = Member(key: bytes, value: Json)

  const TAB: byte := 0x09
  const LF: byte := 0x0A
  const CR: byte := 0x0D
  const SPACE: byte := 0x20
  const QUOTE: byte := 0x22
  const PLUS: byte := 0x2B
  const COMMA: byte := 0x2C
  const MINUS: byte := 0x2D
  const DOT: byte := 0x2E
  const SLASH: byte := 0x2F
  const ZERO: byte := 0x30
  const COLON: byte := 0x3A
  const UPPER_E: byte := 0x45
  const LBRACKET: byte := 0x5B
  const BACKSLASH: byte := 0x5C
  const RBRACKET: byte := 0x5D
  const LOWER_E: byte := 0x65
  const LOWER_U: byte := 0x75
  const LBRACE: byte := 0x7B
  const RBRACE: byte := 0x7D

  const TRUE: bytes := [0x74, 0x72, 0x75, 0x65]
  const FALSE: bytes := [0x66, 0x61, 0x6C, 0x73, 0x65]
  const NULL: bytes := [0x6E, 0x75, 0x6C, 0x6C]

  const MAX_DEPTH: nat := 64
  const MAX_NUMBER: nat := 63

  /* ---- Derivation trees (sections 2 to 7) ---- */

  // One char of section 7: an unescaped byte, a two-character escape,
  // or a \u escape with its four hexadecimal digits.
  datatype Char = Raw(b: byte) | Short(e: byte) | Hex(digits: bytes)

  datatype NumLit = NumLit(minus: bool, int_: bytes, frac: bytes, exp: bytes)

  datatype Tree =
    | TNull
    | TTrue
    | TFalse
    | TNumber(lit: NumLit)
    | TString(chars: seq<Char>)
    | TEmptyArray(ws: bytes)
    | TArray(elems: Elems)
    | TEmptyObject(ws: bytes)
    | TObject(pairs: Pairs)
  datatype Elems =
    | OneElem(pre: bytes, v: Tree, post: bytes)
    | MoreElems(pre: bytes, v: Tree, post: bytes, rest: Elems)
  datatype Pairs =
    | OnePair(pre: bytes, key: seq<Char>, mid: bytes, sep: bytes, v: Tree, post: bytes)
    | MorePairs(pre: bytes, key: seq<Char>, mid: bytes, sep: bytes, v: Tree, post: bytes, rest: Pairs)

  datatype Doc = Doc(pre: bytes, value: Tree, post: bytes)

  /* ---- Well-formed derivations ---- */

  predicate IsWs(c: int) { c == SPACE || c == TAB || c == LF || c == CR }
  predicate AllWs(s: bytes) { forall i | 0 <= i < |s| :: IsWs(s[i]) }
  predicate AllDigits(s: bytes) { forall i | 0 <= i < |s| :: IsDigit(s[i]) }

  function HexValue(c: int): (v: int)
    ensures -1 <= v < 16
  {
    if 0x30 <= c <= 0x39 then c - 0x30
    else if 0x61 <= c <= 0x66 then c - 0x61 + 10
    else if 0x41 <= c <= 0x46 then c - 0x41 + 10
    else -1
  }

  predicate IsHex4(h: bytes)
  {
    |h| == 4 && forall i | 0 <= i < 4 :: HexValue(h[i]) >= 0
  }

  function Hex4Value(h: bytes): (v: int)
    requires IsHex4(h)
    ensures 0 <= v < 0x10000
  {
    ((HexValue(h[0]) * 16 + HexValue(h[1])) * 16 + HexValue(h[2])) * 16 + HexValue(h[3])
  }

  // The character a two-character escape stands for, or -1.
  function ShortValue(e: int): (v: int)
    ensures -1 <= v < 0x80
  {
    if e == QUOTE || e == BACKSLASH || e == SLASH then e
    else if e == 0x62 then 0x08
    else if e == 0x66 then 0x0C
    else if e == 0x6E then LF
    else if e == 0x72 then CR
    else if e == 0x74 then TAB
    else -1
  }

  predicate CharOk(c: Char)
  {
    match c
    case Raw(b) => b >= 0x20 && b != QUOTE && b != BACKSLASH
    case Short(e) => ShortValue(e) >= 0
    case Hex(h) => IsHex4(h)
  }
  predicate CharsOk(cs: seq<Char>) { forall i | 0 <= i < |cs| :: CharOk(cs[i]) }

  predicate IntOk(s: bytes)
  {
    |s| > 0 && AllDigits(s) && (s[0] == ZERO ==> |s| == 1)
  }
  predicate FracOk(s: bytes)
  {
    s == [] || (|s| > 1 && s[0] == DOT && AllDigits(s[1..]))
  }
  predicate SignedDigits(s: bytes)
  {
    |s| > 0 && if s[0] == PLUS || s[0] == MINUS then |s| > 1 && AllDigits(s[1..]) else AllDigits(s)
  }
  predicate ExpOk(s: bytes)
  {
    s == [] || (|s| > 1 && (s[0] == LOWER_E || s[0] == UPPER_E) && SignedDigits(s[1..]))
  }
  predicate NumOk(n: NumLit) { IntOk(n.int_) && FracOk(n.frac) && ExpOk(n.exp) }

  predicate TreeOk(t: Tree)
  {
    match t
    case TNull => true
    case TTrue => true
    case TFalse => true
    case TNumber(n) => NumOk(n)
    case TString(cs) => CharsOk(cs)
    case TEmptyArray(w) => AllWs(w)
    case TArray(es) => ElemsOk(es)
    case TEmptyObject(w) => AllWs(w)
    case TObject(ps) => PairsOk(ps)
  }
  predicate ElemsOk(es: Elems)
  {
    AllWs(es.pre) && TreeOk(es.v) && AllWs(es.post) && (es.MoreElems? ==> ElemsOk(es.rest))
  }
  predicate PairsOk(ps: Pairs)
  {
    AllWs(ps.pre) && CharsOk(ps.key) && AllWs(ps.mid) && AllWs(ps.sep) && TreeOk(ps.v) && AllWs(ps.post) &&
    (ps.MorePairs? ==> PairsOk(ps.rest))
  }
  predicate DocOk(d: Doc) { AllWs(d.pre) && TreeOk(d.value) && AllWs(d.post) }

  /* ---- The text a derivation derives ---- */

  function CharYield(c: Char): bytes
  {
    match c
    case Raw(b) => [b]
    case Short(e) => [BACKSLASH, e]
    case Hex(h) => [BACKSLASH, LOWER_U] + h
  }
  function CharsYield(cs: seq<Char>): bytes
  {
    if cs == [] then [] else CharYield(cs[0]) + CharsYield(cs[1..])
  }
  function NumYield(n: NumLit): bytes
  {
    (if n.minus then [MINUS] else []) + n.int_ + n.frac + n.exp
  }
  function Quoted(cs: seq<Char>): bytes { [QUOTE] + (CharsYield(cs) + [QUOTE]) }

  function Yield(t: Tree): bytes
  {
    match t
    case TNull => NULL
    case TTrue => TRUE
    case TFalse => FALSE
    case TNumber(n) => NumYield(n)
    case TString(cs) => Quoted(cs)
    case TEmptyArray(w) => [LBRACKET] + (w + [RBRACKET])
    case TArray(es) => [LBRACKET] + (ElemsYield(es) + [RBRACKET])
    case TEmptyObject(w) => [LBRACE] + (w + [RBRACE])
    case TObject(ps) => [LBRACE] + (PairsYield(ps) + [RBRACE])
  }
  function ElemYield(es: Elems): bytes
    decreases es, 0
  {
    es.pre + (Yield(es.v) + es.post)
  }
  function ElemsYield(es: Elems): bytes
    decreases es, 1
  {
    if es.OneElem? then ElemYield(es) else ElemYield(es) + ([COMMA] + ElemsYield(es.rest))
  }
  function PairYield(ps: Pairs): bytes
    decreases ps, 0
  {
    ps.pre + (Quoted(ps.key) + (ps.mid + ([COLON] + (ps.sep + (Yield(ps.v) + ps.post)))))
  }
  function PairsYield(ps: Pairs): bytes
    decreases ps, 1
  {
    if ps.OnePair? then PairYield(ps) else PairYield(ps) + ([COMMA] + PairsYield(ps.rest))
  }
  function DocYield(d: Doc): bytes { d.pre + (Yield(d.value) + d.post) }

  /* ---- The strings a derivation denotes, and those the implementation makes of them ---- */

  predicate IsHigh(u: int) { 0xD800 <= u <= 0xDBFF }
  predicate IsLow(u: int) { 0xDC00 <= u <= 0xDFFF }

  // What one char stands for: a UTF-16 code unit, or for the implementation a raw byte.
  function CharUnit(c: Char): (u: int)
    requires CharOk(c)
    ensures 0 <= u < 0x10000
  {
    match c
    case Raw(b) => b
    case Short(e) => ShortValue(e)
    case Hex(h) => Hex4Value(h)
  }

  // The code points the implementation makes of a string: each raw byte one, \u surrogate pairs
  // joined. None for an unpaired surrogate and for 0, which a C string cannot hold.
  function CodePoints(cs: seq<Char>): Option<seq<Scalar>>
    requires CharsOk(cs)
  {
    if cs == [] then Some([])
    else
      var u := CharUnit(cs[0]);
      if u == 0 || IsLow(u) then None
      else if !IsHigh(u) then
        match CodePoints(cs[1..]) case None => None case Some(rest) => Some([u] + rest)
      else if |cs| < 2 || !cs[1].Hex? || !IsLow(CharUnit(cs[1])) then None
      else
        match CodePoints(cs[2..])
        case None => None
        case Some(rest) => Some([0x10000 + (u - 0xD800) * 0x400 + (CharUnit(cs[1]) - 0xDC00)] + rest)
  }

  // Unicode scalar values, and those other than 0.
  type CodePoint = cp: int | 0 <= cp < 0x110000 && !IsHigh(cp) && !IsLow(cp)
  type Scalar = cp: CodePoint | cp > 0 witness 1

  // Section 3 of RFC 3629.
  function Utf8(cp: int): (r: bytes)
    requires 0 <= cp < 0x110000
    ensures 1 <= |r| <= 4
  {
    if cp <= 0x7F then [cp]
    else if cp <= 0x7FF then [0xC0 + cp / 0x40, 0x80 + cp % 0x40]
    else if cp <= 0xFFFF then [0xE0 + cp / 0x1000, 0x80 + cp / 0x40 % 0x40, 0x80 + cp % 0x40]
    else [0xF0 + cp / 0x40000, 0x80 + cp / 0x1000 % 0x40, 0x80 + cp / 0x40 % 0x40, 0x80 + cp % 0x40]
  }
  function Utf8All(cps: seq<CodePoint>): bytes
  {
    if cps == [] then [] else Utf8(cps[0]) + Utf8All(cps[1..])
  }

  // Section 4 of RFC 3629: how many bytes the sequence at the front takes, 0 if it is none.
  predicate IsTail(b: int) { 0x80 <= b <= 0xBF }

  function Utf8Length(t: bytes): (k: nat)
    ensures k <= |t| && k <= 4
  {
    if t == [] then 0
    else if t[0] <= 0x7F then 1
    else if 0xC2 <= t[0] <= 0xDF then if |t| >= 2 && IsTail(t[1]) then 2 else 0
    else if 0xE0 <= t[0] <= 0xEF then
      if |t| >= 3 && IsTail(t[1]) && (t[0] == 0xE0 ==> t[1] >= 0xA0) && (t[0] == 0xED ==> t[1] <= 0x9F) && IsTail(t[2])
      then 3
      else 0
    else if 0xF0 <= t[0] <= 0xF4 then
      if |t| >= 4 && IsTail(t[1]) && (t[0] == 0xF0 ==> t[1] >= 0x90) && (t[0] == 0xF4 ==> t[1] <= 0x8F) &&
        IsTail(t[2]) && IsTail(t[3])
      then 4
      else 0
    else 0
  }

  predicate IsUtf8(t: bytes)
    decreases |t|
  {
    t == [] || (Utf8Length(t) > 0 && IsUtf8(t[Utf8Length(t)..]))
  }

  predicate StringInLimits(cs: seq<Char>) { CharsOk(cs) && CodePoints(cs).Some? }
  function StringReading(cs: seq<Char>): bytes
    requires StringInLimits(cs)
  {
    Utf8All(CodePoints(cs).value)
  }

  // What the string denotes: raw bytes as they stand, escapes in UTF-8.
  function StringMeaning(cs: seq<Char>): bytes
    requires StringInLimits(cs)
  {
    if cs == [] then []
    else if cs[0].Raw? then [cs[0].b] + StringMeaning(cs[1..])
    else
      var cp := CodePoints(cs).value[0];
      Utf8(cp) + StringMeaning(cs[if IsHigh(CharUnit(cs[0])) then 2 else 1..])
  }

  // What the implementation bounds beyond the grammar: every string is representable and
  // every number literal has at most 63 bytes.
  predicate InLimits(t: Tree)
    requires TreeOk(t)
  {
    match t
    case TNumber(n) => |NumYield(n)| <= MAX_NUMBER
    case TString(cs) => StringInLimits(cs)
    case TArray(es) => ElemsInLimits(es)
    case TObject(ps) => PairsInLimits(ps)
    case _ => true
  }
  predicate ElemsInLimits(es: Elems)
    requires ElemsOk(es)
  {
    InLimits(es.v) && (es.MoreElems? ==> ElemsInLimits(es.rest))
  }
  predicate PairsInLimits(ps: Pairs)
    requires PairsOk(ps)
  {
    StringInLimits(ps.key) && InLimits(ps.v) && (ps.MorePairs? ==> PairsInLimits(ps.rest))
  }

  // Container nesting.
  function Height(t: Tree): nat
  {
    match t
    case TEmptyArray(_) => 1
    case TEmptyObject(_) => 1
    case TArray(es) => 1 + ElemsHeight(es)
    case TObject(ps) => 1 + PairsHeight(ps)
    case _ => 0
  }
  function Max(a: nat, b: nat): nat { if a >= b then a else b }
  function ElemsHeight(es: Elems): nat
  {
    if es.OneElem? then Height(es.v) else Max(Height(es.v), ElemsHeight(es.rest))
  }
  function PairsHeight(ps: Pairs): nat
  {
    if ps.OnePair? then Height(ps.v) else Max(Height(ps.v), PairsHeight(ps.rest))
  }

  // The value a derivation denotes.
  function Meaning(t: Tree): Json
    requires TreeOk(t) && InLimits(t)
  {
    match t
    case TNull => Null
    case TTrue => Bool(true)
    case TFalse => Bool(false)
    case TNumber(n) => Number(NumYield(n))
    case TString(cs) => String(StringMeaning(cs))
    case TEmptyArray(_) => Array([])
    case TArray(es) => Array(ElemsMeaning(es))
    case TEmptyObject(_) => Object([])
    case TObject(ps) => Object(PairsMeaning(ps))
  }
  function ElemsMeaning(es: Elems): seq<Json>
    requires ElemsOk(es) && ElemsInLimits(es)
  {
    if es.OneElem? then [Meaning(es.v)] else [Meaning(es.v)] + ElemsMeaning(es.rest)
  }
  function PairsMeaning(ps: Pairs): seq<Member>
    requires PairsOk(ps) && PairsInLimits(ps)
  {
    var m := Member(StringMeaning(ps.key), Meaning(ps.v));
    if ps.OnePair? then [m] else [m] + PairsMeaning(ps.rest)
  }

  // The value the implementation takes it for.
  function Reading(t: Tree): Json
    requires TreeOk(t) && InLimits(t)
  {
    match t
    case TNull => Null
    case TTrue => Bool(true)
    case TFalse => Bool(false)
    case TNumber(n) => Number(NumYield(n))
    case TString(cs) => String(StringReading(cs))
    case TEmptyArray(_) => Array([])
    case TArray(es) => Array(ElemsReading(es))
    case TEmptyObject(_) => Object([])
    case TObject(ps) => Object(PairsReading(ps))
  }
  function ElemsReading(es: Elems): seq<Json>
    requires ElemsOk(es) && ElemsInLimits(es)
  {
    if es.OneElem? then [Reading(es.v)] else [Reading(es.v)] + ElemsReading(es.rest)
  }
  function PairsReading(ps: Pairs): seq<Member>
    requires PairsOk(ps) && PairsInLimits(ps)
  {
    var m := Member(StringReading(ps.key), Reading(ps.v));
    if ps.OnePair? then [m] else [m] + PairsReading(ps.rest)
  }

  predicate Ascii(t: bytes) { forall i | 0 <= i < |t| :: t[i] < 0x80 }

  // A JSON text the implementation is meant to accept.
  predicate DocInLimits(d: Doc)
  {
    DocOk(d) && InLimits(d.value) && Height(d.value) <= MAX_DEPTH
  }
}
