/** What C++20 itself says the printed operators compute on `int`
    (ISO/IEC 14882:2020, sections 7.6.2.2 [expr.unary.op], 7.6.5 [expr.mul],
    7.6.6 [expr.add] and 7.6.7 [expr.shift]), with `None` where the behaviour
    is undefined. This is the yardstick for the evaluator's arithmetic:
    whatever the search accepts is, operator by operator, C++'s well-defined
    value of that operator on the operands' values. How C++ lexes and parses
    the printed text is not modelled here, and the evaluator does not keep
    two `-` apart: see `DoubleMinusAccepted` and `MinusNegAccepted`. */
module CppSemantics {
  import opened Wrappers
  import opened Int32
  import opened Grammar
  import opened Eval
  import opened Printing

  /** A result is defined only when it is representable (section 7.1, [expr.pre]). */
  function Representable(x: int): Option<int> {
    if InRange(x) then Some(x) else None
  }

  function CppUnary(op: Op, v: int32): Option<int>
    requires IsUnary(op)
  {
    match op
    case Paren => Some(v)
    case Neg => Representable(-(v as int))
    case Compl => Some(-(v as int) - 1)
  }

  function CppBinary(op: Op, a: int32, b: int32): Option<int>
    requires IsBinary(op)
  {
    match op
    case Times => Representable(a * b)
    case Plus => Representable(a + b)
    case Minus => Representable(a - b)
    case Divide => if b == 0 then None else Representable(TruncDiv(a, b))
    case Modulo => if b == 0 || !InRange(TruncDiv(a, b)) then None else Some(a - b * TruncDiv(a, b))
    case Shl => if 0 <= b < 32 then Some(Wrap(a * Pow2(b))) else None
    case Shr => if 0 <= b < 32 then Some(a / Pow2(b)) else None
    case BitAnd => Some(BitwiseInt(And, a, b))
    case BitXor => Some(BitwiseInt(Xor, a, b))
    case BitOr => Some(BitwiseInt(Or, a, b))
  }

  /** For every unary candidate the search accepts, C++'s operator applied to
      the operand's value is defined and gives the value the search records;
      among composable candidates, the search rejects only those where it is
      undefined. */
  lemma {:induction false} UnaryAgreesWithCpp(op: Op, lhs: Expr)
    requires IsUnary(op)
    ensures EvalUnary(op, lhs).Some? ==> CppUnary(op, lhs.value) == Some(EvalUnary(op, lhs).value as int)
    ensures UnaryComposable(op, lhs) && EvalUnary(op, lhs).None? ==> CppUnary(op, lhs.value).None?
  {
    match op
    case Paren =>
    case Neg =>
    case Compl =>
  }

  /** Two int32 values congruent modulo 2^32 are equal. */
  lemma {:induction false} WrapUnique(x: int, v: int32)
    requires (v - x) % TWO32 == 0
    ensures v == Wrap(x)
  {
    var w := Wrap(x);
    var k1 := (v - x) / TWO32;
    var k2 := (w - x) / TWO32;
    assert v - x == TWO32 * k1;
    assert w - x == TWO32 * k2;
    assert v - w == TWO32 * (k1 - k2);
    if k1 > k2 {
      MulAtLeastDivisor(TWO32, k1 - k2);
    } else if k1 < k2 {
      MulAtLeastDivisor(TWO32, k2 - k1);
    }
  }

  /** The remainder the evaluator returns is the one C++ defines: the
      evaluator's contract pins it down through the uniqueness of truncating
      division. */
  lemma {:induction false} RemainderIsCpp(a: int32, b: int32, v: int32)
    requires b != 0
    requires (a - v) % Abs(b) == 0 && Abs(v) < Abs(b) && (v == 0 || (v < 0 <==> a < 0))
    ensures v == a - b * TruncDiv(a, b)
  {
    var k := (a - v) / Abs(b);
    assert a - v == Abs(b) * k;
    var q := if b > 0 then k else -k;
    assert a == b * q + v;
    TruncDivUnique(a, b, q, v);
  }

  /** For every binary candidate the search accepts, C++'s operator applied
      to the operands' values is defined and gives the value the search
      records. */
  lemma {:induction false} BinaryAgreesWithCpp(op: Op, lhs: Expr, rhs: Expr)
    requires IsBinary(op)
    ensures EvalBinary(op, lhs, rhs).Some? ==>
      CppBinary(op, lhs.value, rhs.value) == Some(EvalBinary(op, lhs, rhs).value as int)
  {
    if EvalBinary(op, lhs, rhs).Some? {
      assert EvalBinary(op, lhs, rhs) == ApplyBinary(op, lhs.value, rhs.value);
      ApplyBinaryIsCpp(op, lhs.value, rhs.value);
    }
  }

  /** The operator `switch` of `eval` agrees with C++ wherever it succeeds. */
  lemma ApplyBinaryIsCpp(op: Op, a: int32, b: int32)
    requires IsBinary(op)
    ensures ApplyBinary(op, a, b).Some? ==> CppBinary(op, a, b) == Some(ApplyBinary(op, a, b).value as int)
  {
    match op
    case Divide => QuotientIsCpp(a, b);
    case Modulo => RemainderOpIsCpp(a, b);
    case Shl => ShiftLeftIsCpp(a, b);
    case Shr => ShiftRightIsCpp(a, b);
    case _ =>
  }

  lemma QuotientIsCpp(a: int32, b: int32)
    ensures Quotient(a, b).Some? ==> CppBinary(Divide, a, b) == Some(Quotient(a, b).value as int)
  {
    var r := Quotient(a, b);
    if r.Some? {
      TruncDivUnique(a, b, r.value, a - b * r.value);
      DivFits(a, b);
    }
  }

  lemma RemainderOpIsCpp(a: int32, b: int32)
    ensures Remainder(a, b).Some? ==> CppBinary(Modulo, a, b) == Some(Remainder(a, b).value as int)
  {
    var r := Remainder(a, b);
    if r.Some? {
      RemainderIsCpp(a, b, r.value);
      DivFits(a, b);
    }
  }

  lemma ShiftLeftIsCpp(a: int32, b: int32)
    ensures ShiftLeft(a, b).Some? ==> CppBinary(Shl, a, b) == Some(ShiftLeft(a, b).value as int)
  {
    var r := ShiftLeft(a, b);
    if r.Some? {
      WrapUnique(a * Pow2(b), r.value);
    }
  }

  lemma ShiftRightIsCpp(a: int32, b: int32)
    ensures ShiftRight(a, b).Some? ==> CppBinary(Shr, a, b) == Some(ShiftRight(a, b).value as int)
  {
    var r := ShiftRight(a, b);
    if r.Some? {
      DivUnique(a, Pow2(b), r.value, a - r.value * Pow2(b));
    }
  }

  /** Among composable candidates, the evaluator rejects an operator whose
      C++ value on the operands' values is defined only for the shifts: a
      negative left operand, or a left shift that loses set bits. */
  lemma {:induction false} BinaryRejectsOnlyUndefined(op: Op, lhs: Expr, rhs: Expr)
    requires IsBinary(op) && BinaryComposable(op, lhs, rhs)
    requires EvalBinary(op, lhs, rhs).None?
    ensures op !in {Shl, Shr} ==> CppBinary(op, lhs.value, rhs.value).None?
    ensures op in {Shl, Shr} && CppBinary(op, lhs.value, rhs.value).Some? ==>
      lhs.value < 0 || (op == Shl && lhs.value * Pow2(rhs.value) >= TWO32)
  {
    var a, b := lhs.value, rhs.value;
    if op == Divide || op == Modulo {
      if b != 0 && a == INT_MIN && b == -1 {
        assert TruncDiv(a, b) == -(INT_MIN as int);
      }
    }
  }

  /** The left-shift guard lets a bit into the sign position: `1 << 31` is
      accepted and is `INT_MIN`, which is also its C++20 value. */
  lemma ShiftIntoSignBit()
    ensures ApplyBinary(Shl, 1, 31) == Some(INT_MIN)
    ensures CppBinary(Shl, 1, 31) == Some(INT_MIN)
  {
    Pow2Word();
    assert Wrap(0x8000_0000) == INT_MIN;
  }

  /** A right shift of a negative operand is defined in C++20 but rejected by
      the evaluator. */
  lemma ShiftOfNegativeRejected()
    ensures ApplyBinary(Shr, -1, 0) == None
    ensures CppBinary(Shr, -1, 0) == Some(-1)
  {
  }

  /** The arena `[![]{}, -![]{}, top]`, for a `top` built on those two. */
  function MinusArena(top: Expr): (r: seq<Expr>)
    requires top.a <= 1 && top.b <= 1
    ensures |r| == 3 && r[1].op == Neg && r[2] == top && Acyclic(r)
  {
    var r := [Literal, Expr(Neg, 6, 0, 0, 0), top];
    assert OperandsBefore(r, 0) && OperandsBefore(r, 1) && OperandsBefore(r, 2);
    r
  }

  /** The evaluator asks only for precedence, so it accepts `-` in front of
      a `-` node; `print` writes the two minus signs adjacent, which a C++
      lexer reads as the decrement token `--`. */
  lemma DoubleMinusAccepted()
    ensures EvalUnary(Neg, Expr(Neg, 6, 0, 0, 0)) == Some(0)
    ensures Render(MinusArena(Expr(Neg, 7, 1, 0, 0)), 2) == "--![]{}"
  {
    PrecedenceTable(Neg);
    MinusArenaText(Expr(Neg, 7, 1, 0, 0));
  }

  /** Likewise binary `-` with a `-`-led right operand prints as `x--y`. */
  lemma MinusNegAccepted()
    ensures EvalBinary(Minus, Literal, Expr(Neg, 6, 0, 0, 0)) == Some(0)
    ensures Render(MinusArena(Expr(Minus, 12, 0, 1, 0)), 2) == "![]{}--![]{}"
  {
    PrecedenceTable(Neg);
    PrecedenceTable(Minus);
    MinusArenaText(Expr(Minus, 12, 0, 1, 0));
  }

  /** The texts of the first two nodes of `MinusArena`, and of a `-` on top. */
  lemma MinusArenaText(top: Expr)
    requires top.a <= 1 && top.b <= 1
    ensures Render(MinusArena(top), 0) == "![]{}"
    ensures Render(MinusArena(top), 1) == "-![]{}"
    ensures top == Expr(Neg, 7, 1, 0, 0) ==> Render(MinusArena(top), 2) == "--![]{}"
    ensures top == Expr(Minus, 12, 0, 1, 0) ==> Render(MinusArena(top), 2) == "![]{}--![]{}"
  {
    var exprs := MinusArena(top);
    assert Render(exprs, 0) == "![]{}";
    assert Render(exprs, 1) == "-" + Render(exprs, 0);
  }
}
