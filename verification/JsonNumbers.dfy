/** The numbers of section 6 of RFC 8259 as an automaton, against the grammar's. */
module JsonNumbers {
  import opened Bytes
  import opened JsonGrammar

  datatype State = Start | Minus | Zero | Whole | Point | Fraction | Mark | Sign | Exponent | Wrong

  function Next(q: State, c: byte): State
  {
    if 0x30 <= c <= 0x39 then
      match q
      case Start => if c == 0x30 then Zero else Whole
      case Minus => if c == 0x30 then Zero else Whole
      case Whole => Whole
      case Point => Fraction
      case Fraction => Fraction
      case Mark => Exponent
      case Sign => Exponent
      case Exponent => Exponent
      case _ => Wrong
    else if c == 0x2D && q == Start then Minus
    else if c == 0x2E && (q == Zero || q == Whole) then Point
    else if (c == 0x65 || c == 0x45) && (q == Zero || q == Whole || q == Fraction) then Mark
    else if (c == 0x2B || c == 0x2D) && q == Mark then Sign
    else Wrong
  }

  function Run(q: State, t: bytes): State
  {
    if t == [] then q else Next(Run(q, t[..|t| - 1]), t[|t| - 1])
  }

  predicate Accepts(t: bytes) { Run(Start, t) in {Zero, Whole, Fraction, Exponent} }

  lemma {:induction false} RunAppend(q: State, a: bytes, b: bytes)
    ensures Run(q, a + b) == Run(Run(q, a), b)
  {
    if b == [] {
      assert a + b == a;
    } else {
      var n := |b| - 1;
      RunAppend(q, a, b[..n]);
      assert (a + b)[..|a + b| - 1] == a + b[..n];
    }
  }

  lemma {:induction false} RunDigits(q: State, t: bytes)
    requires AllDigits(t)
    ensures q in {Whole, Fraction, Exponent} ==> Run(q, t) == q
    ensures |t| > 0 ==> (q == Point ==> Run(q, t) == Fraction) && (q in {Mark, Sign} ==> Run(q, t) == Exponent)
  {
    if t != [] { RunDigits(q, t[..|t| - 1]); }
  }

  lemma RunInt(q: State, t: bytes)
    requires IntOk(t) && (q == Start || q == Minus)
    ensures Run(q, t) == if t == [0x30] then Zero else Whole
  {
    var first := [t[0]];
    assert t == first + t[1..] && first[..0] == [];
    RunAppend(q, first, t[1..]);
    if t[0] == 0x30 { assert t == first; } else { RunDigits(Whole, t[1..]); }
  }

  lemma RunFrac(q: State, t: bytes)
    requires FracOk(t) && (q == Zero || q == Whole)
    ensures Run(q, t) == if t == [] then q else Fraction
  {
    if t != [] {
      assert t == [0x2E] + t[1..] && [0x2E][..0] == [];
      RunAppend(q, [0x2E], t[1..]);
      RunDigits(Point, t[1..]);
    }
  }

  lemma RunExp(q: State, t: bytes)
    requires ExpOk(t) && q in {Zero, Whole, Fraction}
    ensures Run(q, t) == if t == [] then q else Exponent
  {
    if t != [] {
      hide Run, AllDigits;
      RunFirst(q, t);
      var signed := t[1..];
      if signed[0] == 0x2B || signed[0] == 0x2D {
        RunFirst(Mark, signed);
        RunDigits(Sign, signed[1..]);
      } else {
        RunDigits(Mark, signed);
      }
    }
  }

  lemma RunFirst(q: State, t: bytes)
    requires t != []
    ensures Run(q, t) == Run(Next(q, t[0]), t[1..])
  {
    var first := [t[0]];
    assert t == first + t[1..] && first[..0] == [];
    RunAppend(q, first, t[1..]);
  }

  lemma GrammarAccepted(lit: NumLit)
    requires NumOk(lit)
    ensures Accepts(NumYield(lit))
  {
    hide IntOk, FracOk, ExpOk, Next;
    var sign := if lit.minus then [0x2D] else [];
    RunSign(lit.minus);
    RunAppend(Start, sign, lit.int_);
    RunInt(Run(Start, sign), lit.int_);
    RunAppend(Start, sign + lit.int_, lit.frac);
    RunFrac(Run(Start, sign + lit.int_), lit.frac);
    RunAppend(Start, sign + lit.int_ + lit.frac, lit.exp);
    RunExp(Run(Start, sign + lit.int_ + lit.frac), lit.exp);
  }

  lemma RunSign(minus: bool)
    ensures Run(Start, if minus then [0x2D] else []) == if minus then Minus else Start
  {
    assert [0x2D][..0] == [];
  }

  // What has been read when the automaton is in a state.
  predicate Shape(q: State, t: bytes, lit: NumLit)
  {
    match q
    case Start => t == []
    case Minus => t == [0x2D]
    case Zero => NumOk(lit) && t == NumYield(lit) && lit.frac == lit.exp == [] && lit.int_ == [0x30]
    case Whole => NumOk(lit) && t == NumYield(lit) && lit.frac == lit.exp == [] && lit.int_ != [0x30]
    case Point => NumOk(lit) && t == NumYield(lit) + [0x2E] && lit.frac == lit.exp == []
    case Fraction => NumOk(lit) && t == NumYield(lit) && lit.exp == [] && lit.frac != []
    case Mark => NumOk(lit) && lit.exp == [] && (t == NumYield(lit) + [0x65] || t == NumYield(lit) + [0x45])
    case Sign =>
      NumOk(lit) && lit.exp == [] && |t| >= 2 && t == NumYield(lit) + t[|t| - 2..] &&
      t[|t| - 2] in [0x65, 0x45] && t[|t| - 1] in [0x2B, 0x2D]
    case Exponent => NumOk(lit) && t == NumYield(lit) && lit.exp != []
    case Wrong => true
  }

  lemma {:induction false} AcceptedHasShape(t: bytes) returns (lit: NumLit)
    ensures Shape(Run(Start, t), t, lit)
  {
    if t == [] {
      lit := NumLit(false, [], [], []);
    } else {
      var init, c := t[..|t| - 1], t[|t| - 1];
      var before := AcceptedHasShape(init);
      assert t == init + [c];
      lit := Extend(Run(Start, init), init, before, c);
    }
  }

  lemma Extend(q: State, t: bytes, lit: NumLit, c: byte) returns (more: NumLit)
    requires Shape(q, t, lit)
    ensures Shape(Next(q, c), t + [c], more)
  {
    hide Shape, Next;
    if IsDigit(c) {
      more := ExtendDigit(q, t, lit, c);
    } else {
      more := lit;
      ExtendOther(q, t, lit, c);
    }
  }

  lemma ExtendOther(q: State, t: bytes, lit: NumLit, c: byte)
    requires Shape(q, t, lit) && !IsDigit(c)
    ensures Shape(Next(q, c), t + [c], lit)
  {
    hide Shape;
    if Next(q, c) == Sign {
      SignAfterMark(t, lit, c);
    } else if Next(q, c) == Mark {
      MarkAfter(q, t, lit, c);
    } else if Next(q, c) == Point {
      PointAfter(q, t, lit);
    } else if Next(q, c) == Minus {
      MinusFirst(t, lit);
    } else {
      AnyIsWrong(t + [c], lit);
    }
  }

  lemma MinusFirst(t: bytes, lit: NumLit)
    requires Shape(Start, t, lit)
    ensures Shape(Minus, t + [0x2D], lit)
  {
    hide NumOk, NumYield;
    assert t + [0x2D] == [0x2D];
  }

  lemma PointAfter(q: State, t: bytes, lit: NumLit)
    requires Shape(q, t, lit) && (q == Zero || q == Whole)
    ensures Shape(Point, t + [0x2E], lit)
  {
    hide NumOk, NumYield;
  }

  lemma MarkAfter(q: State, t: bytes, lit: NumLit, c: byte)
    requires Shape(q, t, lit) && (q == Zero || q == Whole || q == Fraction) && (c == 0x65 || c == 0x45)
    ensures Shape(Mark, t + [c], lit)
  {
    hide NumOk, NumYield;
  }

  lemma AnyIsWrong(t: bytes, lit: NumLit)
    ensures Shape(Wrong, t, lit)
  {
  }

  lemma SignAfterMark(t: bytes, lit: NumLit, c: byte)
    requires Shape(Mark, t, lit) && (c == 0x2B || c == 0x2D)
    ensures Shape(Sign, t + [c], lit)
  {
    hide NumOk, NumYield;
    var all := t + [c];
    assert all == NumYield(lit) + [t[|t| - 1], c];
    assert all[|all| - 2..] == [t[|t| - 1], c];
  }

  lemma ExtendDigit(q: State, t: bytes, lit: NumLit, c: byte) returns (more: NumLit)
    requires Shape(q, t, lit) && IsDigit(c)
    ensures Shape(Next(q, c), t + [c], more)
  {
    hide Shape;
    if q == Start || q == Minus {
      more := DigitFirst(q, t, lit, c);
    } else if q == Whole {
      more := DigitInt(t, lit, c);
    } else if q == Point || q == Fraction {
      more := DigitFrac(q, t, lit, c);
    } else if q == Mark || q == Sign || q == Exponent {
      more := DigitExp(q, t, lit, c);
    } else {
      more := lit;
      AnyIsWrong(t + [c], lit);
    }
  }

  lemma DigitFirst(q: State, t: bytes, lit: NumLit, c: byte) returns (more: NumLit)
    requires Shape(q, t, lit) && (q == Start || q == Minus) && IsDigit(c)
    ensures Shape(if c == 0x30 then Zero else Whole, t + [c], more)
  {
    hide NumOk, NumYield;
    more := FirstDigit(q == Minus, c);
  }

  lemma DigitInt(t: bytes, lit: NumLit, c: byte) returns (more: NumLit)
    requires Shape(Whole, t, lit) && IsDigit(c)
    ensures Shape(Whole, t + [c], more)
  {
    hide NumOk, NumYield;
    more := IntDigit(lit, c);
  }

  lemma DigitFrac(q: State, t: bytes, lit: NumLit, c: byte) returns (more: NumLit)
    requires Shape(q, t, lit) && (q == Point || q == Fraction) && IsDigit(c)
    ensures Shape(Fraction, t + [c], more)
  {
    hide NumOk, NumYield;
    FracOff(lit);
    more := FracDigit(lit, t, if q == Point then [0x2E] else lit.frac, c);
  }

  lemma DigitExp(q: State, t: bytes, lit: NumLit, c: byte) returns (more: NumLit)
    requires Shape(q, t, lit) && (q == Mark || q == Sign || q == Exponent) && IsDigit(c)
    ensures Shape(Exponent, t + [c], more)
  {
    hide NumOk, NumYield;
    ExpOff(lit);
    var begun := if q == Mark then t[|t| - 1..] else if q == Sign then t[|t| - 2..] else lit.exp;
    more := ExpDigit(lit, t, begun, c);
  }

  lemma FracOff(lit: NumLit)
    requires lit.exp == []
    ensures NumYield(lit.(frac := [])) + lit.frac == NumYield(lit) && (lit.frac == [] ==> lit.(frac := []) == lit)
  {
  }

  lemma ExpOff(lit: NumLit)
    ensures NumYield(lit.(exp := [])) + lit.exp == NumYield(lit) && (lit.exp == [] ==> lit.(exp := []) == lit)
  {
  }

  lemma FirstDigit(minus: bool, c: byte) returns (lit: NumLit)
    requires IsDigit(c)
    ensures lit == NumLit(minus, [c], [], []) && NumOk(lit)
    ensures NumYield(lit) == (if minus then [0x2D] else []) + [c]
  {
    lit := NumLit(minus, [c], [], []);
  }

  lemma IntDigit(lit: NumLit, c: byte) returns (more: NumLit)
    requires NumOk(lit) && lit.frac == lit.exp == [] && lit.int_ != [0x30] && IsDigit(c)
    ensures more == lit.(int_ := lit.int_ + [c]) && NumOk(more) && NumYield(more) == NumYield(lit) + [c]
    ensures more.int_ != [0x30]
  {
    more := lit.(int_ := lit.int_ + [c]);
    assert |lit.int_| == 1 ==> lit.int_ == [lit.int_[0]];
    assert |more.int_| > 1;
  }

  // One more digit behind a fraction or what begins one.
  lemma FracDigit(lit: NumLit, t: bytes, begun: bytes, c: byte) returns (more: NumLit)
    requires NumOk(lit) && lit.exp == [] && IsDigit(c) && t == NumYield(lit.(frac := [])) + begun
    requires begun == [0x2E] || (begun == lit.frac && begun != [])
    ensures more == lit.(frac := begun + [c]) && NumOk(more) && NumYield(more) == t + [c]
  {
    more := lit.(frac := begun + [c]);
    assert more.frac[1..] == begun[1..] + [c];
  }

  // And behind an exponent.
  lemma ExpDigit(lit: NumLit, t: bytes, begun: bytes, c: byte) returns (more: NumLit)
    requires NumOk(lit) && IsDigit(c) && t == NumYield(lit.(exp := [])) + begun
    requires (begun == lit.exp && begun != []) || (|begun| == 1 && begun[0] in [0x65, 0x45]) ||
      (|begun| == 2 && begun[0] in [0x65, 0x45] && begun[1] in [0x2B, 0x2D])
    ensures more == lit.(exp := begun + [c]) && NumOk(more) && NumYield(more) == t + [c]
  {
    more := lit.(exp := begun + [c]);
    assert more.exp[1..] == begun[1..] + [c];
    if begun == lit.exp {
      assert more.exp[1..][1..] == lit.exp[1..][1..] + [c];
    }
  }

  // A text is a number of the grammar exactly when the automaton accepts it.
  lemma NumberExactly(t: bytes)
    ensures Accepts(t) <==> exists lit :: NumOk(lit) && NumYield(lit) == t
  {
    hide NumOk, NumYield, Run;
    if Accepts(t) {
      var lit := AcceptedHasShape(t);
      assert NumOk(lit) && NumYield(lit) == t;
    }
    if lit :| NumOk(lit) && NumYield(lit) == t { GrammarAccepted(lit); }
  }
}
