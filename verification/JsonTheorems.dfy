/** The reader accepts exactly the texts the byte grammar derives within the implementation's
    limits, unless a literal hangs over the end. Which of these are JSON texts of RFC 8259, and
    when the value returned is the one denoted, is the subject of JsonMeaning. */
module JsonTheorems {
  import opened Bytes
  import opened JsonGrammar
  import opened JsonReader

  /* ---- White space ---- */

  lemma {:induction false} SkipWsSound(s: bytes, n: nat, i: nat)
    requires n <= |s| && i <= n
    ensures AllWs(s[i..SkipWs(s, n, i)]) && At(s, n, i, s[i..SkipWs(s, n, i)])
    decreases n - i
  {
    if i < n && IsWs(s[i]) {
      SkipWsSound(s, n, i + 1);
      var j := SkipWs(s, n, i);
      assert s[i..j] == [s[i]] + s[i + 1..j];
    }
  }

  lemma {:induction false} SkipWsComplete(s: bytes, n: nat, i: nat, w: bytes)
    requires n <= |s| && AllWs(w) && At(s, n, i, w) && (i + |w| < n ==> !IsWs(s[i + |w|]))
    ensures SkipWs(s, n, i) == i + |w|
    decreases |w|
  {
    if w != [] {
      assert s[i] == s[i..i + |w|][0] == w[0];
      assert w == [w[0]] + w[1..];
      AtAppend(s, n, i, [w[0]], w[1..]);
      SkipWsComplete(s, n, i + 1, w[1..]);
    }
  }

  lemma ReadPastWs(s: bytes, n: nat, i: nat, d: nat)
    requires n <= |s|
    ensures var j := SkipWs(s, n, i);
      ReadValue(s, n, j, d) == ReadValue(s, n, i, d) &&
      ReadElems(s, n, j, d) == ReadElems(s, n, i, d) &&
      ReadPairs(s, n, j, d) == ReadPairs(s, n, i, d)
  {
    hide ReadObject, ReadArray, ReadString, ReadNumber, ReadLiteral;
    var j := SkipWs(s, n, i);
    assert SkipWs(s, n, j) == j;
    assert ReadKey(s, n, j) == ReadKey(s, n, i);
  }

  /* ---- Strings ---- */

  // The chars cs spell the single code point cp: one char, or two that form a surrogate pair.
  predicate Spells(cs: seq<Char>, cp: Scalar)
  {
    CharsOk(cs) &&
    if |cs| == 1 then CharUnit(cs[0]) == cp
    else
      |cs| == 2 && cs[1].Hex? && IsHigh(CharUnit(cs[0])) && IsLow(CharUnit(cs[1])) &&
      cp == 0x10000 + (CharUnit(cs[0]) - 0xD800) * 0x400 + (CharUnit(cs[1]) - 0xDC00)
  }

  lemma SpellsFirst(cs: seq<Char>, cp: Scalar, rest: seq<Char>)
    requires Spells(cs, cp) && StringInLimits(rest)
    ensures StringInLimits(cs + rest) && StringReading(cs + rest) == Utf8(cp) + StringReading(rest)
  {
    hide Utf8;
    assert (cs + rest)[|cs|..] == rest;
    var all := CodePoints(cs + rest);
    assert all.value[0] == cp && all.value[1..] == CodePoints(rest).value;
  }

  lemma {:induction false} CharsYieldAppend(a: seq<Char>, b: seq<Char>)
    ensures CharsYield(a + b) == CharsYield(a) + CharsYield(b)
  {
    if a == [] {
      assert a + b == b;
    } else {
      assert (a + b)[1..] == a[1..] + b;
      CharsYieldAppend(a[1..], b);
    }
  }

  lemma ReadCharSound(s: bytes, n: nat, i: nat) returns (cs: seq<Char>)
    requires n <= |s| && i < n && s[i] != QUOTE && ReadChar(s, n, i).Some?
    ensures Spells(cs, ReadChar(s, n, i).value.0)
    ensures At(s, n, i, CharsYield(cs)) && ReadChar(s, n, i).value.1 == i + |CharsYield(cs)|
  {
    var c: Char;
    if s[i] != BACKSLASH {
      c := Raw(s[i]);
    } else if s[i + 1] != LOWER_U {
      c := Short(s[i + 1]);
    } else {
      c := Hex(s[i + 2..i + 6]);
    }
    cs := [c];
    assert CharsYield([c]) == CharYield(c);
    assert s[i..i + |CharYield(c)|] == CharYield(c);
    if c.Hex? && IsHigh(Hex4Value(c.digits)) {
      var low := Hex(s[i + 8..i + 12]);
      cs := [c, low];
      assert cs[1..] == [low] && CharsYield([low]) == CharYield(low);
      assert s[i + 6..i + 12] == CharYield(low);
      AtAppend(s, n, i, CharYield(c), CharYield(low));
    }
  }

  lemma {:induction false} ReadStringSound(s: bytes, n: nat, i: nat) returns (cs: seq<Char>)
    requires n <= |s| && ReadString(s, n, i).Some?
    ensures StringInLimits(cs) && At(s, n, i, CharsYield(cs) + [QUOTE])
    ensures ReadString(s, n, i) == Some((StringReading(cs), i + |CharsYield(cs)| + 1))
    decreases n - i
  {
    hide At, Utf8, ReadChar, Spells, CodePoints, CharsYield, StringInLimits, StringReading;
    EmptyString();
    if s[i] == QUOTE {
      cs := [];
      AtOne(s, n, i, QUOTE);
    } else {
      var (cp, j) := ReadChar(s, n, i).value;
      var head := ReadCharSound(s, n, i);
      var rest := ReadStringSound(s, n, j);
      cs := head + rest;
      SpellsFirst(head, cp, rest);
      CharsYieldAppend(head, rest);
      AtAppend(s, n, i, CharsYield(head), CharsYield(rest) + [QUOTE]);
      assert CharsYield(cs) + [QUOTE] == CharsYield(head) + (CharsYield(rest) + [QUOTE]);
    }
  }

  lemma EmptyString()
    ensures CharsYield([]) + [QUOTE] == [QUOTE] && StringInLimits([]) && StringReading([]) == []
  {
  }

  // What an occurrence of one char looks like to the reader.
  lemma AtChar(s: bytes, n: nat, i: nat, c: Char)
    requires n <= |s| && CharOk(c) && At(s, n, i, CharYield(c))
    ensures i < n && s[i] == CharYield(c)[0] && s[i] != QUOTE
    ensures !c.Raw? ==> i + 1 < n && s[i] == BACKSLASH && s[i + 1] == CharYield(c)[1]
    ensures c.Hex? ==> i + 6 <= n && s[i + 2..i + 6] == c.digits
  {
    var y := CharYield(c);
    assert s[i] == s[i..i + |y|][0];
    if !c.Raw? { assert s[i + 1] == s[i..i + |y|][1]; }
    if c.Hex? { assert s[i + 2..i + 6] == s[i..i + 6][2..] == y[2..]; }
  }

  lemma FirstSpelled(cs: seq<Char>) returns (head: seq<Char>, cp: Scalar, rest: seq<Char>)
    requires cs != [] && StringInLimits(cs)
    ensures cs == head + rest && head != [] && Spells(head, cp) && StringInLimits(rest)
    ensures CharsYield(cs) == CharsYield(head) + CharsYield(rest)
  {
    var k := if IsHigh(CharUnit(cs[0])) then 2 else 1;
    head, cp, rest := cs[..k], CodePoints(cs).value[0], cs[k..];
    CharsYieldAppend(head, rest);
  }

  lemma SingleComplete(s: bytes, n: nat, i: nat, c: Char, cp: Scalar)
    requires n <= |s| && CharOk(c) && CharUnit(c) == cp && At(s, n, i, CharYield(c))
    ensures i < n && s[i] != QUOTE && ReadChar(s, n, i) == Some((cp, i + |CharYield(c)|))
  {
    hide At, Hex4Value;
    AtChar(s, n, i, c);
  }

  lemma PairComplete(s: bytes, n: nat, i: nat, high: Char, low: Char)
    requires n <= |s| && CharOk(high) && CharOk(low) && high.Hex? && low.Hex?
    requires IsHigh(CharUnit(high)) && IsLow(CharUnit(low)) && At(s, n, i, CharYield(high)) &&
      At(s, n, i + 6, CharYield(low))
    ensures i < n && s[i] != QUOTE
    ensures ReadChar(s, n, i) == Some((0x10000 + (CharUnit(high) - 0xD800) * 0x400 + (CharUnit(low) - 0xDC00), i + 12))
  {
    hide At, Hex4Value;
    AtChar(s, n, i, high);
    AtChar(s, n, i + 6, low);
  }

  lemma ReadCharComplete(s: bytes, n: nat, i: nat, cs: seq<Char>, cp: Scalar)
    requires n <= |s| && Spells(cs, cp) && At(s, n, i, CharsYield(cs))
    ensures i < n && s[i] != QUOTE && ReadChar(s, n, i) == Some((cp, i + |CharsYield(cs)|))
  {
    hide At, ReadChar, Hex4Value, ShortValue;
    var y := CharYield(cs[0]);
    if |cs| == 1 {
      assert CharsYield(cs) == y;
      SingleComplete(s, n, i, cs[0], cp);
    } else {
      var z := CharYield(cs[1]);
      assert cs[1..] == [cs[1]] && CharsYield(cs[1..]) == z;
      AtAppend(s, n, i, y, z);
      HighIsHex(cs[0]);
      PairComplete(s, n, i, cs[0], cs[1]);
    }
  }

  // Only an escape of four digits denotes a high surrogate.
  lemma HighIsHex(c: Char)
    requires CharOk(c) && IsHigh(CharUnit(c))
    ensures c.Hex?
  {
  }

  lemma {:induction false} ReadStringComplete(s: bytes, n: nat, i: nat, cs: seq<Char>)
    requires n <= |s| && StringInLimits(cs) && At(s, n, i, CharsYield(cs) + [QUOTE])
    ensures ReadString(s, n, i) == Some((StringReading(cs), i + |CharsYield(cs)| + 1))
    decreases |cs|
  {
    hide At, Utf8, ReadChar, Spells, CodePoints, CharsYield, StringInLimits, StringReading;
    EmptyString();
    if cs == [] {
      AtOne(s, n, i, QUOTE);
    } else {
      var head, cp, rest := FirstSpelled(cs);
      assert CharsYield(cs) + [QUOTE] == CharsYield(head) + (CharsYield(rest) + [QUOTE]);
      AtAppend(s, n, i, CharsYield(head), CharsYield(rest) + [QUOTE]);
      ReadCharComplete(s, n, i, head, cp);
      ReadStringComplete(s, n, i + |CharsYield(head)|, rest);
      SpellsFirst(head, cp, rest);
    }
  }

  /* ---- Numbers ---- */

  // The byte at i cannot continue a number literal.
  predicate Follow(s: bytes, n: nat, i: nat)
    requires n <= |s|
  {
    var c := Peek(s, n, i);
    !IsDigit(c) && c != DOT && c != LOWER_E && c != UPPER_E
  }

  lemma Join(s: bytes, i: nat, j: nat, k: nat)
    requires i <= j <= k <= |s|
    ensures s[i..j] + s[j..k] == s[i..k]
  {
  }

  lemma AtDigits(s: bytes, n: nat, i: nat)
    requires n <= |s| && i <= n
    ensures var j := DigitsEnd(s, n, i); AllDigits(s[i..j]) && At(s, n, i, s[i..j])
  {
  }

  lemma {:induction false} DigitsComplete(s: bytes, n: nat, i: nat, t: bytes)
    requires n <= |s| && AllDigits(t) && At(s, n, i, t) && !IsDigit(Peek(s, n, i + |t|))
    ensures DigitsEnd(s, n, i) == i + |t|
    decreases |t|
  {
    if t != [] {
      assert s[i] == s[i..i + |t|][0] == t[0];
      assert t == [t[0]] + t[1..];
      AtAppend(s, n, i, [t[0]], t[1..]);
      DigitsComplete(s, n, i + 1, t[1..]);
    }
  }

  lemma IntSound(s: bytes, n: nat, i: nat)
    requires n <= |s| && i <= n && ReadInt(s, n, i).Some?
    ensures i <= ReadInt(s, n, i).value <= n && IntOk(s[i..ReadInt(s, n, i).value])
  {
    AtDigits(s, n, i);
  }

  lemma FracSound(s: bytes, n: nat, i: nat)
    requires n <= |s| && i <= n && ReadFrac(s, n, i).Some?
    ensures i <= ReadFrac(s, n, i).value <= n && FracOk(s[i..ReadFrac(s, n, i).value])
  {
    if Peek(s, n, i) == DOT {
      var j := ReadFrac(s, n, i).value;
      AtDigits(s, n, i + 1);
      assert s[i..j][1..] == s[i + 1..j];
    }
  }

  lemma ExpSound(s: bytes, n: nat, i: nat)
    requires n <= |s| && i <= n && ReadExp(s, n, i).Some?
    ensures i <= ReadExp(s, n, i).value <= n && ExpOk(s[i..ReadExp(s, n, i).value])
  {
    if Peek(s, n, i) == LOWER_E || Peek(s, n, i) == UPPER_E {
      var j := ReadExp(s, n, i).value;
      var sign := Peek(s, n, i + 1);
      assert s[i..j][1..] == s[i + 1..j];
      if sign == PLUS || sign == MINUS {
        AtDigits(s, n, i + 2);
        assert s[i + 1..j][1..] == s[i + 2..j];
      } else {
        AtDigits(s, n, i + 1);
      }
    }
  }

  lemma NumberSound(s: bytes, n: nat, i: nat) returns (lit: NumLit)
    requires n <= |s| && i <= n && NumberEnd(s, n, i).Some?
    ensures NumOk(lit) && NumberEnd(s, n, i).value == i + |NumYield(lit)| && At(s, n, i, NumYield(lit))
  {
    hide ReadInt, ReadFrac, ReadExp;
    var minus := Peek(s, n, i) == MINUS;
    var a := if minus then i + 1 else i;
    var j := ReadInt(s, n, a).value;
    var k := ReadFrac(s, n, j).value;
    var m := ReadExp(s, n, k).value;
    IntSound(s, n, a);
    FracSound(s, n, j);
    ExpSound(s, n, k);
    lit := NumLit(minus, s[a..j], s[j..k], s[k..m]);
    assert s[i..a] == if minus then [MINUS] else [];
    FourPieces(s, i, a, j, k, m);
  }

  lemma FourPieces(s: bytes, i: nat, a: nat, j: nat, k: nat, m: nat)
    requires i <= a <= j <= k <= m <= |s|
    ensures s[i..a] + s[a..j] + s[j..k] + s[k..m] == s[i..m]
  {
    Join(s, i, a, j);
    Join(s, i, j, k);
    Join(s, i, k, m);
  }

  lemma PeekAt(s: bytes, n: nat, i: nat, t: bytes)
    requires n <= |s| && At(s, n, i, t)
    ensures forall k | 0 <= k < |t| :: Peek(s, n, i + k) == t[k] && i + k < n
  {
    forall k | 0 <= k < |t| ensures Peek(s, n, i + k) == t[k] && i + k < n {
      assert s[i + k] == s[i..i + |t|][k];
    }
  }

  lemma IntComplete(s: bytes, n: nat, i: nat, t: bytes)
    requires n <= |s| && IntOk(t) && At(s, n, i, t) && !IsDigit(Peek(s, n, i + |t|))
    ensures ReadInt(s, n, i) == Some(i + |t|) && Peek(s, n, i) != MINUS
  {
    PeekAt(s, n, i, t);
    assert Peek(s, n, i + 0) == t[0];
    DigitsComplete(s, n, i, t);
  }

  lemma FracComplete(s: bytes, n: nat, i: nat, t: bytes)
    requires n <= |s| && FracOk(t) && At(s, n, i, t) && !IsDigit(Peek(s, n, i + |t|))
    requires t == [] ==> Peek(s, n, i) != DOT
    ensures ReadFrac(s, n, i) == Some(i + |t|)
  {
    if t != [] {
      PeekAt(s, n, i, t);
      assert Peek(s, n, i + 0) == DOT;
      assert t == [t[0]] + t[1..];
      AtAppend(s, n, i, [t[0]], t[1..]);
      DigitsComplete(s, n, i + 1, t[1..]);
    }
  }

  lemma ExpComplete(s: bytes, n: nat, i: nat, t: bytes)
    requires n <= |s| && ExpOk(t) && At(s, n, i, t) && !IsDigit(Peek(s, n, i + |t|))
    requires t == [] ==> Peek(s, n, i) != LOWER_E && Peek(s, n, i) != UPPER_E
    ensures ReadExp(s, n, i) == Some(i + |t|)
  {
    hide At;
    if t != [] {
      PeekAt(s, n, i, t);
      assert Peek(s, n, i + 0) == t[0] && Peek(s, n, i + 1) == t[1];
      assert t == [t[0]] + t[1..];
      AtAppend(s, n, i, [t[0]], t[1..]);
      if t[1] == PLUS || t[1] == MINUS {
        var digits := t[2..];
        assert t[1..] == [t[1]] + digits && t[1..][1..] == digits;
        AtAppend(s, n, i + 1, [t[1]], digits);
        DigitsComplete(s, n, i + 2, digits);
      } else {
        DigitsComplete(s, n, i + 1, t[1..]);
      }
    }
  }

  lemma NumberComplete(s: bytes, n: nat, i: nat, lit: NumLit)
    requires n <= |s| && NumOk(lit) && At(s, n, i, NumYield(lit)) && Follow(s, n, i + |NumYield(lit)|)
    ensures NumberEnd(s, n, i) == Some(i + |NumYield(lit)|)
    ensures i < n && (s[i] == MINUS || IsDigit(s[i]))
  {
    hide At, ReadInt, ReadFrac, ReadExp;
    var sign := if lit.minus then [MINUS] else [];
    var a := i + |sign|;
    var j := a + |lit.int_|;
    var k := j + |lit.frac|;
    AtAppend(s, n, i, sign + lit.int_ + lit.frac, lit.exp);
    AtAppend(s, n, i, sign + lit.int_, lit.frac);
    AtAppend(s, n, i, sign, lit.int_);
    PeekAt(s, n, i, sign);
    PeekAt(s, n, a, lit.int_);
    PeekAt(s, n, j, lit.frac);
    PeekAt(s, n, k, lit.exp);
    assert Peek(s, n, a + 0) == lit.int_[0];
    if lit.minus { assert Peek(s, n, i + 0) == sign[0]; }
    if lit.exp != [] { assert Peek(s, n, k + 0) == lit.exp[0]; }
    if lit.frac != [] { assert Peek(s, n, j + 0) == lit.frac[0]; }
    ExpComplete(s, n, k, lit.exp);
    FracComplete(s, n, j, lit.frac);
    IntComplete(s, n, a, lit.int_);
  }

  /* ---- Soundness: what the reader accepts has a derivation ---- */

  lemma ScalarSound(s: bytes, n: nat, i: nat, d: nat) returns (t: Tree)
    requires n <= |s| && i < n && !IsWs(s[i]) && s[i] != LBRACE && s[i] != LBRACKET
    requires ReadValue(s, n, i, d).Some? && ReadValue(s, n, i, d).value.1 <= n
    ensures TreeOk(t) && InLimits(t) && Height(t) == 0 && At(s, n, i, Yield(t))
    ensures ReadValue(s, n, i, d) == Some((Reading(t), i + |Yield(t)|))
  {
    hide ReadString, NumberEnd, CharsYield, CodePoints, NumYield, CharsOk, NumOk;
    if s[i] == QUOTE {
      var cs := ReadStringSound(s, n, i + 1);
      t := TString(cs);
      AtOne(s, n, i, QUOTE);
      AtAppend(s, n, i, [QUOTE], CharsYield(cs) + [QUOTE]);
    } else if s[i] == MINUS || IsDigit(s[i]) {
      var lit := NumberSound(s, n, i);
      t := TNumber(lit);
    } else {
      t := if Literal(s, i, TRUE) then TTrue else if Literal(s, i, FALSE) then TFalse else TNull;
    }
  }

  // A value ending inside the text has a derivation, after white space, that fits the depth left.
  lemma {:induction false} ReadValueSound(s: bytes, n: nat, i: nat, d: nat) returns (pre: bytes, t: Tree)
    requires n <= |s| && i <= n && d <= MAX_DEPTH && ReadValue(s, n, i, d).Some? && ReadValue(s, n, i, d).value.1 <= n
    ensures AllWs(pre) && TreeOk(t) && InLimits(t) && Height(t) + d <= MAX_DEPTH && At(s, n, i, pre + Yield(t))
    ensures ReadValue(s, n, i, d) == Some((Reading(t), i + |pre| + |Yield(t)|))
    decreases n - i, 2
  {
    hide At, Yield, ReadString, ReadNumber, ReadLiteral, ReadArray, ReadObject, Reading, TreeOk, InLimits, Height;
    var j := SkipWs(s, n, i);
    SkipWsSound(s, n, i);
    pre := s[i..j];
    ReadPastWs(s, n, i, d);
    if s[j] == LBRACE {
      t := ReadObjectSound(s, n, j, d);
    } else if s[j] == LBRACKET {
      t := ReadArraySound(s, n, j, d);
    } else {
      t := ScalarSound(s, n, j, d);
    }
    AtAppend(s, n, i, pre, Yield(t));
  }

  lemma Bracketed(s: bytes, n: nat, i: nat, w: bytes)
    requires n <= |s| && At(s, n, i, [LBRACKET]) && At(s, n, i + 1, w) && At(s, n, i + 1 + |w|, [RBRACKET])
    ensures At(s, n, i, [LBRACKET] + (w + [RBRACKET]))
  {
    hide At;
    AtAppend(s, n, i + 1, w, [RBRACKET]);
    AtAppend(s, n, i, [LBRACKET], w + [RBRACKET]);
  }

  lemma EmptyArraySound(s: bytes, n: nat, i: nat, d: nat) returns (t: Tree)
    requires n <= |s| && i < n && s[i] == LBRACKET && ReadArray(s, n, i, d).Some? &&
      Peek(s, n, SkipWs(s, n, i + 1)) == RBRACKET
    ensures TreeOk(t) && InLimits(t) && Height(t) + d <= MAX_DEPTH && At(s, n, i, Yield(t))
    ensures ReadArray(s, n, i, d) == Some((Reading(t), i + |Yield(t)|))
  {
    hide At, ReadElems;
    var j := SkipWs(s, n, i + 1);
    var w := s[i + 1..j];
    AtOne(s, n, i, LBRACKET);
    SkipWsSound(s, n, i + 1);
    AtOne(s, n, j, RBRACKET);
    t := TEmptyArray(w);
    Bracketed(s, n, i, w);
  }

  // A bracket and elements behind it.
  lemma ArrayOf(s: bytes, n: nat, i: nat, d: nat, es: Elems)
    requires n <= |s| && i < n && At(s, n, i, [LBRACKET]) && d < MAX_DEPTH && ElemsOk(es) && ElemsInLimits(es)
    requires Peek(s, n, SkipWs(s, n, i + 1)) != RBRACKET && At(s, n, i + 1, ElemsYield(es) + [RBRACKET])
    requires ReadElems(s, n, i + 1, d + 1) == Some((ElemsReading(es), i + 1 + |ElemsYield(es)| + 1))
    ensures At(s, n, i, Yield(TArray(es)))
    ensures ReadArray(s, n, i, d) == Some((Reading(TArray(es)), i + |Yield(TArray(es))|))
  {
    hide At, ReadElems, ReadValue, ReadPairs, ElemsYield, ElemsReading, ElemsOk, ElemsInLimits, SkipWs, Peek;
    ReadPastWs(s, n, i + 1, d + 1);
    AtAppend(s, n, i, [LBRACKET], ElemsYield(es) + [RBRACKET]);
  }

  lemma InsideArray(s: bytes, n: nat, i: nat, d: nat)
    requires n <= |s| && i < n && ReadArray(s, n, i, d).Some? && Peek(s, n, SkipWs(s, n, i + 1)) != RBRACKET
    ensures d < MAX_DEPTH && ReadElems(s, n, i + 1, d + 1).Some?
  {
    hide ReadElems, ReadValue, ReadPairs, SkipWs, Peek;
    ReadPastWs(s, n, i + 1, d + 1);
  }

  lemma {:induction false} ReadArraySound(s: bytes, n: nat, i: nat, d: nat) returns (t: Tree)
    requires n <= |s| && i < n && s[i] == LBRACKET && ReadArray(s, n, i, d).Some?
    ensures TreeOk(t) && InLimits(t) && Height(t) + d <= MAX_DEPTH && At(s, n, i, Yield(t))
    ensures ReadArray(s, n, i, d) == Some((Reading(t), i + |Yield(t)|))
    decreases n - i, 1
  {
    hide At, ReadArray, ReadElems, ReadPairs, ReadValue, ElemsYield, ElemsOk, ElemsInLimits, ElemsHeight, ElemsReading,
      SkipWs, Peek;
    if Peek(s, n, SkipWs(s, n, i + 1)) == RBRACKET {
      t := EmptyArraySound(s, n, i, d);
    } else {
      AtOne(s, n, i, LBRACKET);
      InsideArray(s, n, i, d);
      var es := ReadElemsSound(s, n, i + 1, d + 1);
      t := TArray(es);
      ArrayOf(s, n, i, d, es);
    }
  }

  lemma {:induction false} ReadElemsSound(s: bytes, n: nat, i: nat, d: nat) returns (es: Elems)
    requires n <= |s| && i <= n && d <= MAX_DEPTH && ReadElems(s, n, i, d).Some?
    ensures ElemsOk(es) && ElemsInLimits(es) && ElemsHeight(es) + d <= MAX_DEPTH
    ensures At(s, n, i, ElemsYield(es) + [RBRACKET])
    ensures ReadElems(s, n, i, d) == Some((ElemsReading(es), i + |ElemsYield(es)| + 1))
    decreases n - i, 3
  {
    hide At, ReadValue, Yield, TreeOk, InLimits, Height, Reading;
    var (v, j) := ReadValue(s, n, i, d).value;
    var k := SkipWs(s, n, j);
    var pre, t := ReadValueSound(s, n, i, d);
    SkipWsSound(s, n, j);
    var one := OneElem(pre, t, s[j..k]);
    AtAppend(s, n, i, pre + Yield(t), s[j..k]);
    assert pre + Yield(t) + s[j..k] == ElemYield(one);
    if Peek(s, n, k) == RBRACKET {
      es := one;
      AtOne(s, n, k, RBRACKET);
      AtAppend(s, n, i, ElemYield(one), [RBRACKET]);
    } else {
      var rest := ReadElemsSound(s, n, k + 1, d);
      es := MoreElems(pre, t, s[j..k], rest);
      AtOne(s, n, k, COMMA);
      AtAppend(s, n, k, [COMMA], ElemsYield(rest) + [RBRACKET]);
      AtAppend(s, n, i, ElemYield(one), [COMMA] + (ElemsYield(rest) + [RBRACKET]));
      assert ElemsYield(es) + [RBRACKET] == ElemYield(one) + ([COMMA] + (ElemsYield(rest) + [RBRACKET]));
    }
  }

  lemma Braced(s: bytes, n: nat, i: nat, w: bytes)
    requires n <= |s| && At(s, n, i, [LBRACE]) && At(s, n, i + 1, w) && At(s, n, i + 1 + |w|, [RBRACE])
    ensures At(s, n, i, [LBRACE] + (w + [RBRACE]))
  {
    hide At;
    AtAppend(s, n, i + 1, w, [RBRACE]);
    AtAppend(s, n, i, [LBRACE], w + [RBRACE]);
  }

  lemma EmptyObjectSound(s: bytes, n: nat, i: nat, d: nat) returns (t: Tree)
    requires n <= |s| && i < n && s[i] == LBRACE && ReadObject(s, n, i, d).Some? &&
      Peek(s, n, SkipWs(s, n, i + 1)) == RBRACE
    ensures TreeOk(t) && InLimits(t) && Height(t) + d <= MAX_DEPTH && At(s, n, i, Yield(t))
    ensures ReadObject(s, n, i, d) == Some((Reading(t), i + |Yield(t)|))
  {
    hide At, ReadPairs;
    var j := SkipWs(s, n, i + 1);
    var w := s[i + 1..j];
    AtOne(s, n, i, LBRACE);
    SkipWsSound(s, n, i + 1);
    AtOne(s, n, j, RBRACE);
    t := TEmptyObject(w);
    Braced(s, n, i, w);
  }

  // A brace and members behind it.
  lemma ObjectOf(s: bytes, n: nat, i: nat, d: nat, ps: Pairs)
    requires n <= |s| && i < n && At(s, n, i, [LBRACE]) && d < MAX_DEPTH && PairsOk(ps) && PairsInLimits(ps)
    requires Peek(s, n, SkipWs(s, n, i + 1)) != RBRACE && At(s, n, i + 1, PairsYield(ps) + [RBRACE])
    requires ReadPairs(s, n, i + 1, d + 1) == Some((PairsReading(ps), i + 1 + |PairsYield(ps)| + 1))
    ensures At(s, n, i, Yield(TObject(ps)))
    ensures ReadObject(s, n, i, d) == Some((Reading(TObject(ps)), i + |Yield(TObject(ps))|))
  {
    hide At, ReadElems, ReadValue, ReadPairs, PairsYield, PairsReading, PairsOk, PairsInLimits, SkipWs, Peek;
    ReadPastWs(s, n, i + 1, d + 1);
    AtAppend(s, n, i, [LBRACE], PairsYield(ps) + [RBRACE]);
  }

  lemma InsideObject(s: bytes, n: nat, i: nat, d: nat)
    requires n <= |s| && i < n && ReadObject(s, n, i, d).Some? && Peek(s, n, SkipWs(s, n, i + 1)) != RBRACE
    ensures d < MAX_DEPTH && ReadPairs(s, n, i + 1, d + 1).Some?
  {
    hide ReadElems, ReadValue, ReadPairs, SkipWs, Peek;
    ReadPastWs(s, n, i + 1, d + 1);
  }

  lemma {:induction false} ReadObjectSound(s: bytes, n: nat, i: nat, d: nat) returns (t: Tree)
    requires n <= |s| && i < n && s[i] == LBRACE && ReadObject(s, n, i, d).Some?
    ensures TreeOk(t) && InLimits(t) && Height(t) + d <= MAX_DEPTH && At(s, n, i, Yield(t))
    ensures ReadObject(s, n, i, d) == Some((Reading(t), i + |Yield(t)|))
    decreases n - i, 1
  {
    hide At, ReadObject, ReadElems, ReadPairs, ReadValue, PairsYield, PairsOk, PairsInLimits, PairsHeight, PairsReading,
      SkipWs, Peek;
    if Peek(s, n, SkipWs(s, n, i + 1)) == RBRACE {
      t := EmptyObjectSound(s, n, i, d);
    } else {
      AtOne(s, n, i, LBRACE);
      InsideObject(s, n, i, d);
      var ps := ReadPairsSound(s, n, i + 1, d + 1);
      t := TObject(ps);
      ObjectOf(s, n, i, d, ps);
    }
  }

  function KeyYield(pre: bytes, key: seq<Char>, mid: bytes): bytes { pre + (Quoted(key) + (mid + [COLON])) }

  lemma ReadKeySound(s: bytes, n: nat, i: nat) returns (pre: bytes, key: seq<Char>, mid: bytes)
    requires n <= |s| && i <= n && ReadKey(s, n, i).Some?
    ensures AllWs(pre) && StringInLimits(key) && AllWs(mid) && At(s, n, i, KeyYield(pre, key, mid))
    ensures ReadKey(s, n, i) == Some((StringReading(key), i + |KeyYield(pre, key, mid)|))
  {
    hide At, ReadString, CharsYield, StringInLimits, StringReading;
    var j := SkipWs(s, n, i);
    SkipWsSound(s, n, i);
    pre := s[i..j];
    key := ReadStringSound(s, n, j + 1);
    var (text, k) := ReadString(s, n, j + 1).value;
    var m := SkipWs(s, n, k);
    SkipWsSound(s, n, k);
    mid := s[k..m];
    AtOne(s, n, j, QUOTE);
    AtOne(s, n, m, COLON);
    AtAppend(s, n, k, mid, [COLON]);
    AtAppend(s, n, j, [QUOTE], CharsYield(key) + [QUOTE]);
    AtAppend(s, n, j, Quoted(key), mid + [COLON]);
    AtAppend(s, n, i, pre, Quoted(key) + (mid + [COLON]));
  }

  lemma {:induction false} ReadMemberSound(s: bytes, n: nat, i: nat, d: nat, post: bytes) returns (ps: Pairs)
    requires n <= |s| && i <= n && d <= MAX_DEPTH && ReadMember(s, n, i, d).Some?
    requires AllWs(post) && At(s, n, ReadMember(s, n, i, d).value.1, post) && ReadMember(s, n, i, d).value.1 <= n
    ensures ps.OnePair? && PairsOk(ps) && PairsInLimits(ps) && PairsHeight(ps) + d <= MAX_DEPTH
    ensures At(s, n, i, PairYield(ps))
    ensures var (m, j) := ReadMember(s, n, i, d).value;
      m == Member(StringReading(ps.key), Reading(ps.v)) && j + |post| == i + |PairYield(ps)|
    decreases n - i, 3
  {
    hide At, ReadValue, ReadKey, CharsOk, CodePoints, StringReading, Quoted, Yield, TreeOk, InLimits, Height, Reading;
    var (text, h) := ReadKey(s, n, i).value;
    var pre, key, mid := ReadKeySound(s, n, i);
    var sep, t := ReadValueSound(s, n, h, d);
    ps := OnePair(pre, key, mid, sep, t, post);
    AtAppend(s, n, h, sep + Yield(t), post);
    AtAppend(s, n, i, KeyYield(pre, key, mid), sep + Yield(t) + post);
    assert PairYield(ps) == KeyYield(pre, key, mid) + (sep + Yield(t) + post);
  }

  lemma {:induction false} ReadPairsSound(s: bytes, n: nat, i: nat, d: nat) returns (ps: Pairs)
    requires n <= |s| && i <= n && d <= MAX_DEPTH && ReadPairs(s, n, i, d).Some?
    ensures PairsOk(ps) && PairsInLimits(ps) && PairsHeight(ps) + d <= MAX_DEPTH
    ensures At(s, n, i, PairsYield(ps) + [RBRACE])
    ensures ReadPairs(s, n, i, d) == Some((PairsReading(ps), i + |PairsYield(ps)| + 1))
    decreases n - i, 4
  {
    hide At, ReadMember, StringInLimits, StringReading, Quoted, Yield, TreeOk, InLimits, Height, Reading;
    var (m, j) := ReadMember(s, n, i, d).value;
    var k := SkipWs(s, n, j);
    SkipWsSound(s, n, j);
    var one := ReadMemberSound(s, n, i, d, s[j..k]);
    if Peek(s, n, k) == RBRACE {
      ps := one;
      AtOne(s, n, k, RBRACE);
      AtAppend(s, n, i, PairYield(one), [RBRACE]);
    } else {
      var rest := ReadPairsSound(s, n, k + 1, d);
      ps := MorePairs(one.pre, one.key, one.mid, one.sep, one.v, one.post, rest);
      AtOne(s, n, k, COMMA);
      AtAppend(s, n, k, [COMMA], PairsYield(rest) + [RBRACE]);
      AtAppend(s, n, i, PairYield(one), [COMMA] + (PairsYield(rest) + [RBRACE]));
      assert PairsYield(ps) + [RBRACE] == PairYield(one) + ([COMMA] + (PairsYield(rest) + [RBRACE]));
    }
  }

  /* ---- Completeness: every derivation within the limits is read back ---- */

  // A derivation starts with a byte that is neither white space nor a closing bracket.
  lemma YieldStarts(t: Tree)
    requires TreeOk(t)
    ensures |Yield(t)| > 0 && !IsWs(Yield(t)[0]) && Yield(t)[0] != RBRACKET
  {
    if t.TNumber? && !t.lit.minus {
      assert NumYield(t.lit)[0] == t.lit.int_[0];
    }
  }

  lemma AtFirst(s: bytes, n: nat, i: nat, t: bytes)
    requires n <= |s| && At(s, n, i, t) && |t| > 0
    ensures i < n && s[i] == t[0] == Peek(s, n, i)
  {
    assert s[i] == s[i..i + |t|][0];
  }

  lemma SkipTo(s: bytes, n: nat, i: nat, w: bytes, t: bytes)
    requires n <= |s| && AllWs(w) && At(s, n, i, w + t) && |t| > 0 && !IsWs(t[0])
    ensures SkipWs(s, n, i) == i + |w| < n && s[i + |w|] == t[0] && At(s, n, i + |w|, t)
  {
    AtAppend(s, n, i, w, t);
    AtFirst(s, n, i + |w|, t);
    SkipWsComplete(s, n, i, w);
  }

  lemma ScalarComplete(s: bytes, n: nat, i: nat, d: nat, t: Tree)
    requires n <= |s| && TreeOk(t) && InLimits(t) && Height(t) == 0
    requires At(s, n, i, Yield(t)) && Follow(s, n, i + |Yield(t)|)
    ensures ReadValue(s, n, i, d) == Some((Reading(t), i + |Yield(t)|))
  {
    hide ReadString, NumberEnd, CharsYield, CodePoints, CharsOk, NumOk, NumYield, ReadArray, ReadObject, ReadLiteral;
    YieldStarts(t);
    AtFirst(s, n, i, Yield(t));
    if t.TString? {
      AtAppend(s, n, i, [QUOTE], CharsYield(t.chars) + [QUOTE]);
      ReadStringComplete(s, n, i + 1, t.chars);
    } else if t.TNumber? {
      NumberComplete(s, n, i, t.lit);
    } else {
      LiteralComplete(s, n, i, t);
    }
  }

  lemma LiteralComplete(s: bytes, n: nat, i: nat, t: Tree)
    requires n <= |s| && (t.TNull? || t.TTrue? || t.TFalse?) && At(s, n, i, Yield(t))
    ensures i < n && s[i] == Yield(t)[0] && ReadLiteral(s, i) == Some((Reading(t), i + |Yield(t)|))
  {
    AtFirst(s, n, i, Yield(t));
    assert Literal(s, i, Yield(t));
  }

  lemma PastPrefix(s: bytes, n: nat, i: nat, d: nat, pre: bytes, t: Tree)
    requires n <= |s| && AllWs(pre) && TreeOk(t) && At(s, n, i, pre + Yield(t))
    ensures ReadValue(s, n, i, d) == ReadValue(s, n, i + |pre|, d) && At(s, n, i + |pre|, Yield(t))
  {
    hide At, ReadValue, Yield, TreeOk, SkipWs, AllWs;
    YieldStarts(t);
    SkipTo(s, n, i, pre, Yield(t));
    ReadPastWs(s, n, i, d);
  }

  lemma {:induction false} ReadValueComplete(s: bytes, n: nat, i: nat, d: nat, pre: bytes, t: Tree)
    requires n <= |s| && AllWs(pre) && TreeOk(t) && InLimits(t) && Height(t) + d <= MAX_DEPTH
    requires At(s, n, i, pre + Yield(t)) && Follow(s, n, i + |pre| + |Yield(t)|)
    ensures ReadValue(s, n, i, d) == Some((Reading(t), i + |pre| + |Yield(t)|))
    decreases t, 1
  {
    hide At, ReadValue, Yield, Reading, Follow, TreeOk, InLimits, Height, SkipWs, AllWs;
    PastPrefix(s, n, i, d, pre, t);
    if Height(t) == 0 {
      ScalarComplete(s, n, i + |pre|, d, t);
    } else {
      ContainerComplete(s, n, i + |pre|, d, t);
    }
  }

  lemma EmptyComplete(s: bytes, n: nat, i: nat, d: nat, t: Tree)
    requires n <= |s| && TreeOk(t) && (t.TEmptyArray? || t.TEmptyObject?) && 1 + d <= MAX_DEPTH && At(s, n, i, Yield(t))
    ensures ReadValue(s, n, i, d) == Some((Reading(t), i + |Yield(t)|))
  {
    hide At, ReadElems, ReadPairs;
    AtFirst(s, n, i, Yield(t));
    match t
    case TEmptyArray(w) =>
      AtAppend(s, n, i, [LBRACKET], w + [RBRACKET]);
      SkipTo(s, n, i + 1, w, [RBRACKET]);
    case TEmptyObject(w) =>
      AtAppend(s, n, i, [LBRACE], w + [RBRACE]);
      SkipTo(s, n, i + 1, w, [RBRACE]);
  }

  lemma {:induction false} ContainerComplete(s: bytes, n: nat, i: nat, d: nat, t: Tree)
    requires n <= |s| && TreeOk(t) && InLimits(t) && 0 < Height(t) && Height(t) + d <= MAX_DEPTH
    requires At(s, n, i, Yield(t))
    ensures ReadValue(s, n, i, d) == Some((Reading(t), i + |Yield(t)|))
    decreases t, 0
  {
    hide At, ReadValue, ReadArray, ReadObject, ReadElems, ReadPairs, ElemsYield, PairsYield, ElemsReading, PairsReading,
      ElemsOk, PairsOk, ElemsInLimits, PairsInLimits, ElemsHeight, PairsHeight, SkipWs, Peek;
    match t
    case TEmptyArray(w) => EmptyComplete(s, n, i, d, t);
    case TEmptyObject(w) => EmptyComplete(s, n, i, d, t);
    case TArray(es) =>
      Opened(s, n, i, d, LBRACKET, ElemsYield(es) + [RBRACKET]);
      ReadElemsComplete(s, n, i + 1, d + 1, es);
      ArrayOf(s, n, i, d, es);
    case TObject(ps) =>
      Opened(s, n, i, d, LBRACE, PairsYield(ps) + [RBRACE]);
      ReadPairsComplete(s, n, i + 1, d + 1, ps);
      ObjectOf(s, n, i, d, ps);
  }

  // What an opening bracket leads to.
  lemma Opened(s: bytes, n: nat, i: nat, d: nat, c: byte, more: bytes)
    requires n <= |s| && At(s, n, i, [c] + more) && (c == LBRACKET || c == LBRACE)
    ensures i < n && At(s, n, i, [c]) && At(s, n, i + 1, more)
    ensures ReadValue(s, n, i, d) == if c == LBRACKET then ReadArray(s, n, i, d) else ReadObject(s, n, i, d)
  {
    hide At, ReadArray, ReadObject;
    AtFirst(s, n, i, [c] + more);
    AtAppend(s, n, i, [c], more);
  }

  // After a value come white space and a comma or bracket, none of which continue a number.
  lemma AfterValue(s: bytes, n: nat, i: nat, post: bytes, t: bytes)
    requires n <= |s| && AllWs(post) && At(s, n, i, post + t) && |t| > 0
    requires t[0] == COMMA || t[0] == RBRACKET || t[0] == RBRACE
    ensures Follow(s, n, i) && SkipWs(s, n, i) == i + |post| && Peek(s, n, i + |post|) == t[0] &&
      At(s, n, i + |post|, t)
  {
    SkipTo(s, n, i, post, t);
    if post != [] {
      AtAppend(s, n, i, post, t);
      AtFirst(s, n, i, post);
    }
  }

  // The element that opens es, followed by tail.
  lemma {:induction false} ReadElemComplete(s: bytes, n: nat, i: nat, d: nat, es: Elems, tail: bytes)
    requires n <= |s| && ElemsOk(es) && ElemsInLimits(es) && Height(es.v) + d <= MAX_DEPTH
    requires At(s, n, i, ElemYield(es) + tail) && |tail| > 0 && (tail[0] == COMMA || tail[0] == RBRACKET)
    ensures ReadValue(s, n, i, d).Some? && ReadValue(s, n, i, d).value.0 == Reading(es.v)
    ensures var k := SkipWs(s, n, ReadValue(s, n, i, d).value.1);
      k == i + |ElemYield(es)| && Peek(s, n, k) == tail[0] && At(s, n, k, tail)
    ensures Peek(s, n, SkipWs(s, n, i)) != RBRACKET
    decreases es, 0
  {
    hide At, ReadValue, Yield, TreeOk, InLimits, Height, Reading, Follow;
    var head := es.pre + Yield(es.v);
    assert ElemYield(es) + tail == head + (es.post + tail);
    AtAppend(s, n, i, head, es.post + tail);
    AfterValue(s, n, i + |head|, es.post, tail);
    ReadValueComplete(s, n, i, d, es.pre, es.v);
    YieldStarts(es.v);
    SkipTo(s, n, i, es.pre, Yield(es.v));
  }

  lemma {:induction false} ReadElemsComplete(s: bytes, n: nat, i: nat, d: nat, es: Elems)
    requires n <= |s| && ElemsOk(es) && ElemsInLimits(es) && ElemsHeight(es) + d <= MAX_DEPTH
    requires At(s, n, i, ElemsYield(es) + [RBRACKET])
    ensures ReadElems(s, n, i, d) == Some((ElemsReading(es), i + |ElemsYield(es)| + 1))
    ensures Peek(s, n, SkipWs(s, n, i)) != RBRACKET
    decreases es, 1
  {
    hide At, ReadValue, ElemYield, TreeOk, InLimits, Height, Reading;
    if es.OneElem? {
      ReadElemComplete(s, n, i, d, es, [RBRACKET]);
    } else {
      var tail := [COMMA] + (ElemsYield(es.rest) + [RBRACKET]);
      assert ElemsYield(es) + [RBRACKET] == ElemYield(es) + tail;
      ReadElemComplete(s, n, i, d, es, tail);
      var k := i + |ElemYield(es)|;
      AtAppend(s, n, k, [COMMA], ElemsYield(es.rest) + [RBRACKET]);
      ReadElemsComplete(s, n, k + 1, d, es.rest);
    }
  }

  lemma ReadKeyComplete(s: bytes, n: nat, i: nat, pre: bytes, key: seq<Char>, mid: bytes)
    requires n <= |s| && AllWs(pre) && StringInLimits(key) && AllWs(mid) && At(s, n, i, KeyYield(pre, key, mid))
    ensures ReadKey(s, n, i) == Some((StringReading(key), i + |KeyYield(pre, key, mid)|))
    ensures Peek(s, n, SkipWs(s, n, i)) == QUOTE
  {
    hide At, ReadString, CharsYield, StringInLimits, StringReading;
    var j := i + |pre|;
    SkipTo(s, n, i, pre, Quoted(key) + (mid + [COLON]));
    AtAppend(s, n, j, Quoted(key), mid + [COLON]);
    AtAppend(s, n, j, [QUOTE], CharsYield(key) + [QUOTE]);
    ReadStringComplete(s, n, j + 1, key);
    SkipTo(s, n, j + |Quoted(key)|, mid, [COLON]);
  }

  lemma {:induction false} ReadMemberComplete(s: bytes, n: nat, i: nat, d: nat, ps: Pairs, tail: bytes)
    requires n <= |s| && PairsOk(ps) && PairsInLimits(ps) && Height(ps.v) + d <= MAX_DEPTH
    requires At(s, n, i, PairYield(ps) + tail) && |tail| > 0 && (tail[0] == COMMA || tail[0] == RBRACE)
    ensures ReadMember(s, n, i, d).Some?
    ensures ReadMember(s, n, i, d).value.0 == Member(StringReading(ps.key), Reading(ps.v))
    ensures var k := SkipWs(s, n, ReadMember(s, n, i, d).value.1);
      k == i + |PairYield(ps)| && Peek(s, n, k) == tail[0] && At(s, n, k, tail)
    ensures Peek(s, n, SkipWs(s, n, i)) == QUOTE
    decreases ps, 0
  {
    hide At, ReadValue, ReadKey, CharsOk, CodePoints, StringReading, Quoted, Yield, TreeOk, InLimits, Height,
      Reading, Follow, SkipWs, AllWs, Peek;
    var head := KeyYield(ps.pre, ps.key, ps.mid);
    var value := ps.sep + Yield(ps.v);
    assert PairYield(ps) + tail == head + (value + (ps.post + tail));
    AtAppend(s, n, i, head, value + (ps.post + tail));
    ReadKeyComplete(s, n, i, ps.pre, ps.key, ps.mid);
    var h := i + |head|;
    AtAppend(s, n, h, value, ps.post + tail);
    AfterValue(s, n, h + |value|, ps.post, tail);
    ReadValueComplete(s, n, h, d, ps.sep, ps.v);
  }

  lemma {:induction false} ReadPairsComplete(s: bytes, n: nat, i: nat, d: nat, ps: Pairs)
    requires n <= |s| && PairsOk(ps) && PairsInLimits(ps) && PairsHeight(ps) + d <= MAX_DEPTH
    requires At(s, n, i, PairsYield(ps) + [RBRACE])
    ensures ReadPairs(s, n, i, d) == Some((PairsReading(ps), i + |PairsYield(ps)| + 1))
    ensures Peek(s, n, SkipWs(s, n, i)) == QUOTE
    decreases ps, 1
  {
    hide At, ReadMember, PairYield, CharsOk, StringInLimits, StringReading, TreeOk, InLimits, Height, Reading;
    if ps.OnePair? {
      ReadMemberComplete(s, n, i, d, ps, [RBRACE]);
    } else {
      var tail := [COMMA] + (PairsYield(ps.rest) + [RBRACE]);
      assert PairsYield(ps) + [RBRACE] == PairYield(ps) + tail;
      ReadMemberComplete(s, n, i, d, ps, tail);
      var k := i + |PairYield(ps)|;
      AtAppend(s, n, k, [COMMA], PairsYield(ps.rest) + [RBRACE]);
      ReadPairsComplete(s, n, k + 1, d, ps.rest);
    }
  }

  /* ---- json_parse ---- */

  // The byte grammar derives t within the implementation's limits.
  ghost predicate IsDerived(t: bytes)
  {
    exists d :: DocInLimits(d) && DocYield(d) == t
  }

  // The text t is JSON (RFC 8259) within the implementation's limits.
  ghost predicate IsJson(t: bytes) { IsDerived(t) && IsUtf8(t) }

  // The one way the memory after the text matters: the text ends inside a literal
  // that the following memory completes, because strncmp is not given the text length.
  predicate Overhang(s: bytes, n: nat)
    requires n <= |s|
  {
    var p := SkipWs(s, n, 0);
    p < n && ((Literal(s, p, TRUE) && n < p + 4) || (Literal(s, p, FALSE) && n < p + 5) ||
      (Literal(s, p, NULL) && n < p + 4))
  }

  lemma OverhangEnd(s: bytes, n: nat)
    requires n <= |s|
    ensures Overhang(s, n) <==> ReadValue(s, n, 0, 0).Some? && n < ReadValue(s, n, 0, 0).value.1
  {
    hide ReadArray, ReadObject, ReadString, NumberEnd;
    var p := SkipWs(s, n, 0);
    if p < n && (Literal(s, p, TRUE) || Literal(s, p, FALSE) || Literal(s, p, NULL)) {
      assert s[p] in {TRUE[0], FALSE[0], NULL[0]} by {
        if Literal(s, p, TRUE) { AtFirst(s, |s|, p, TRUE); }
        if Literal(s, p, FALSE) { AtFirst(s, |s|, p, FALSE); }
        if Literal(s, p, NULL) { AtFirst(s, |s|, p, NULL); }
      }
    }
  }

  lemma ReadDocSound(s: bytes, n: nat) returns (d: Doc)
    requires n <= |s| && ReadDoc(s, n).Some? && !Overhang(s, n)
    ensures DocInLimits(d) && DocYield(d) == s[..n] && ReadDoc(s, n) == Some(Reading(d.value))
  {
    hide ReadValue, Yield, Reading, Overhang;
    OverhangEnd(s, n);
    var (v, j) := ReadValue(s, n, 0, 0).value;
    var pre, t := ReadValueSound(s, n, 0, 0);
    SkipWsSound(s, n, j);
    d := Doc(pre, t, s[j..n]);
    AtAppend(s, n, 0, pre + Yield(t), s[j..n]);
    assert DocYield(d) == pre + Yield(t) + s[j..n];
    assert s[0..n] == s[..n];
  }

  // Whatever derivation of a text is taken, the reader returns the value it is taken for.
  lemma ReadDocComplete(s: bytes, n: nat, d: Doc)
    requires n <= |s| && DocInLimits(d) && DocYield(d) == s[..n]
    ensures ReadDoc(s, n) == Some(Reading(d.value)) && !Overhang(s, n)
  {
    hide ReadValue, Yield, Reading, Overhang, TreeOk, InLimits, Height;
    var head := d.pre + Yield(d.value);
    assert DocYield(d) == head + d.post;
    assert At(s, n, 0, head + d.post) by { assert s[0..n] == s[..n]; }
    AtAppend(s, n, 0, head, d.post);
    if d.post != [] { AtFirst(s, n, |head|, d.post); }
    ReadValueComplete(s, n, 0, 0, d.pre, d.value);
    SkipWsComplete(s, n, |head|, d.post);
    OverhangEnd(s, n);
  }

  // json_parse decides the byte grammar on the first n bytes exactly when no literal hangs over
  // the end of the text. So it accepts every JSON text, and a text it accepts is JSON exactly
  // when no literal hangs over and the text is UTF-8, which it does not check.
  lemma AcceptsExactlyJson(s: bytes, n: nat)
    requires n <= |s|
    ensures !Overhang(s, n) <==> (ReadDoc(s, n).Some? <==> IsDerived(s[..n]))
    ensures IsJson(s[..n]) ==> ReadDoc(s, n).Some?
    ensures ReadDoc(s, n).Some? ==> (IsJson(s[..n]) <==> !Overhang(s, n) && IsUtf8(s[..n]))
    ensures forall d | DocInLimits(d) && DocYield(d) == s[..n] :: ReadDoc(s, n) == Some(Reading(d.value))
  {
    hide ReadValue, Reading, Overhang, TreeOk, InLimits, Height, DocYield, IsUtf8;
    if ReadDoc(s, n).Some? && !Overhang(s, n) {
      var d := ReadDocSound(s, n);
    }
    forall d | DocInLimits(d) && DocYield(d) == s[..n]
      ensures ReadDoc(s, n) == Some(Reading(d.value)) && !Overhang(s, n)
    {
      ReadDocComplete(s, n, d);
    }
    OverhangEnd(s, n);
    if Overhang(s, n) {
      var j := ReadValue(s, n, 0, 0).value.1;
      assert SkipWs(s, n, j) >= n;
    }
  }

  // A NUL after the text, as parse_index_json writes, rules the overhang out.
  lemma NulTerminatedExact(s: bytes, n: nat)
    requires n < |s| && s[n] == 0
    ensures !Overhang(s, n) && (ReadDoc(s, n).Some? <==> IsDerived(s[..n]))
    ensures IsJson(s[..n]) <==> ReadDoc(s, n).Some? && IsUtf8(s[..n])
  {
    hide IsUtf8, IsDerived, ReadDoc, Literal;
    var p := SkipWs(s, n, 0);
    if p < n {
      if Literal(s, p, TRUE) { LiteralEnds(s, n, p, TRUE); }
      if Literal(s, p, FALSE) { LiteralEnds(s, n, p, FALSE); }
      if Literal(s, p, NULL) { LiteralEnds(s, n, p, NULL); }
    }
    AcceptsExactlyJson(s, n);
  }

  lemma LiteralEnds(s: bytes, n: nat, p: nat, lit: bytes)
    requires p < n < |s| && s[n] == 0 && Literal(s, p, lit) && 0 !in lit
    ensures p + |lit| <= n
  {
    PeekAt(s, |s|, p, lit);
    assert forall k | 0 <= k < |lit| :: lit[k] in lit && lit[k] == Peek(s, |s|, p + k);
    assert p + (n - p) == n;
  }

  // json_parse("true", 2) accepts the text "tr", which no derivation has.
  lemma OverhangWitness()
    ensures ReadDoc(TRUE, 2) == Some(Bool(true)) && !IsDerived(TRUE[..2])
  {
    assert Literal(TRUE, 0, TRUE) by { assert TRUE[0..4] == TRUE; }
    AcceptsExactlyJson(TRUE, 2);
  }
}
