/** Expression nodes and the checked evaluator of numbers.cpp: `eval(op, lhs)`
    and `eval(op, lhs, rhs)` compute the value of applying an operator to
    already-built nodes, or reject the candidate when printing it without
    extra parentheses would change its meaning, or when the C++ arithmetic
    would overflow or be undefined. */
module Eval {
  import opened Wrappers
  import opened Int32
  import opened Grammar

  /** One node of the expression arena: the operator applied at the top, the
      printed length of the whole expression, the arena indices of the
      operands (`a` for unary and binary operators, `b` for binary ones only)
      and the value. */
  datatype Expr = Expr(op: Op, length: nat, a: nat, b: nat, value: int32)

  /** The literal node `![]{}`, the only node without operands. */
  const Literal: Expr := Expr(NotLambda, 5, 0, 0, 0)

  /** `length(op, lhs, rhs)`: the printed length of `op` applied to the
      operands it uses. */
  function ExprLength(op: Op, lhs: Expr, rhs: Expr): nat {
    var ops := Operands(op);
    Length(op) + (if ops >= 1 then lhs.length else 0) + (if ops >= 2 then rhs.length else 0)
  }

  /** A unary operator may be printed in front of `lhs` without parentheses
      only when `lhs` is itself in the top precedence class; `(…)` accepts
      anything. */
  predicate UnaryComposable(op: Op, lhs: Expr) {
    op == Paren || Precedence(lhs.op) >= Precedence(op)
  }

  /** A binary operator needs a left operand binding at least as tightly and
      a right operand binding strictly more tightly, so that the printed
      `a op b` parses back left-associatively as the tree it came from. */
  predicate BinaryComposable(op: Op, lhs: Expr, rhs: Expr) {
    Precedence(lhs.op) >= Precedence(op) && Precedence(rhs.op) > Precedence(op)
  }

  /** `eval(op, lhs)` for the three unary operators. */
  function EvalUnary(op: Op, lhs: Expr): (r: Option<int32>)
    requires IsUnary(op)
    ensures !UnaryComposable(op, lhs) ==> r == None
    ensures op == Paren ==> r == Some(lhs.value)
    ensures op == Neg && UnaryComposable(op, lhs) ==>
      (r.Some? <==> lhs.value != INT_MIN) && (r.Some? ==> r.value == -(lhs.value as int))
    ensures op == Compl && UnaryComposable(op, lhs) ==> r == Some(-(lhs.value as int) - 1)
  {
    if op != Paren && Precedence(lhs.op) < Precedence(op) then None
    else
      match op
      case Paren => Some(lhs.value)
      case Neg => if lhs.value == INT_MIN then None else Some(-lhs.value)
      case Compl => Some(ComplementInt(lhs.value))
  }

  /** `eval(op, lhs, rhs)` for the ten binary operators: the precedence
      checks, then the arithmetic of `op` on the operands' values. */
  function EvalBinary(op: Op, lhs: Expr, rhs: Expr): (r: Option<int32>)
    requires IsBinary(op)
    ensures !BinaryComposable(op, lhs, rhs) ==> r == None
    ensures BinaryComposable(op, lhs, rhs) ==> r == ApplyBinary(op, lhs.value, rhs.value)
  {
    if Precedence(lhs.op) < Precedence(op) then None
    else if Precedence(rhs.op) <= Precedence(op) then None
    else ApplyBinary(op, lhs.value, rhs.value)
  }

  /** The `switch` of `eval(op, lhs, rhs)`: each operator's C++ arithmetic,
      rejecting overflow, undefined division, and shifts outside the range
      the search accepts. What it computes is stated by `ArithmeticSpec`, `DivisionSpec`,
      `ShiftSpec` and `BitwiseSpec`. */
  function ApplyBinary(op: Op, a: int32, b: int32): Option<int32>
    requires IsBinary(op)
  {
    match op
    case Times =>
      var c := CheckedMul(a, b);
      if c.overflow then None else Some(c.result)
    case Divide => Quotient(a, b)
    case Modulo => Remainder(a, b)
    case Plus =>
      var c := CheckedAdd(a, b);
      if c.overflow then None else Some(c.result)
    case Minus =>
      var c := CheckedSub(a, b);
      if c.overflow then None else Some(c.result)
    case Shl => ShiftLeft(a, b)
    case Shr => ShiftRight(a, b)
    case BitAnd => Some(BitwiseInt(And, a, b))
    case BitXor => Some(BitwiseInt(Xor, a, b))
    case BitOr => Some(BitwiseInt(Or, a, b))
  }

  /** `* + -` succeed exactly when the exact result is an int32, and give
      it. */
  lemma ArithmeticSpec(op: Op, a: int32, b: int32)
    requires op in {Times, Plus, Minus}
    ensures var exact := if op == Times then a * b else if op == Plus then a + b else a - b;
      var r := ApplyBinary(op, a, b);
      (r.Some? <==> InRange(exact)) && (r.Some? ==> r.value == exact)
  {
  }

  /** `/` and `%` fail exactly on a zero divisor and on `INT_MIN / -1`; the
      quotient leaves a remainder smaller than the divisor with the
      dividend's sign (it is truncated toward zero), and the remainder is
      that remainder. */
  lemma DivisionSpec(op: Op, a: int32, b: int32)
    requires op in {Divide, Modulo}
    ensures ApplyBinary(op, a, b).Some? <==> b != 0 && !(a == INT_MIN && b == -1)
    ensures op == Divide && ApplyBinary(op, a, b).Some? ==>
      var rem := a - b * ApplyBinary(op, a, b).value;
      Abs(rem) < Abs(b) && (rem == 0 || (rem < 0 <==> a < 0))
    ensures op == Modulo && ApplyBinary(op, a, b).Some? ==>
      var rem := ApplyBinary(op, a, b).value;
      (a - rem) % Abs(b) == 0 && Abs(rem) < Abs(b) && (rem == 0 || (rem < 0 <==> a < 0))
  {
  }

  /** `<<` succeeds exactly for a non-negative operand shifted by less than
      32 without losing bits of the 32-bit unsigned image, giving the
      product by `2^b` modulo 2^32; `>>` succeeds exactly for a non-negative
      operand and an amount below 32, giving the floor of the quotient by
      `2^b`. */
  lemma ShiftSpec(op: Op, a: int32, b: int32)
    requires op in {Shl, Shr}
    ensures op == Shl ==> (ApplyBinary(op, a, b).Some? <==> 0 <= b < 32 && a >= 0 && a * Pow2(b) < TWO32)
    ensures op == Shl && ApplyBinary(op, a, b).Some? ==>
      var r := ApplyBinary(op, a, b).value;
      (r - a * Pow2(b)) % TWO32 == 0 && (a * Pow2(b) <= INT_MAX ==> r == a * Pow2(b))
    ensures op == Shr ==> (ApplyBinary(op, a, b).Some? <==> 0 <= b < 32 && a >= 0)
    ensures op == Shr && ApplyBinary(op, a, b).Some? ==>
      var r := ApplyBinary(op, a, b).value;
      0 <= r && r * Pow2(b) <= a < (r + 1) * Pow2(b)
  {
  }

  /** `& ^ |` always succeed; the result is negative as the operator applied
      to the operands' sign bits says, and 0 is absorbing for `&` and neutral
      for `^` and `|`. */
  lemma BitwiseSpec(op: Op, a: int32, b: int32)
    requires op in {BitAnd, BitXor, BitOr}
    ensures ApplyBinary(op, a, b).Some?
    ensures var r := ApplyBinary(op, a, b).value;
      (r < 0 <==>
        if op == BitAnd then a < 0 && b < 0
        else if op == BitXor then (a < 0) != (b < 0)
        else a < 0 || b < 0)
    ensures b == 0 ==> ApplyBinary(op, a, b).value == if op == BitAnd then 0 else a
  {
    var k := if op == BitAnd then And else if op == BitXor then Xor else Or;
    BitwiseSign(k, a, b);
    BitwiseIntZero(k, a);
  }

  /** `a / b`, rejected when the divisor is zero or the quotient overflows. */
  function Quotient(a: int32, b: int32): (r: Option<int32>)
    ensures r.Some? <==> b != 0 && !(a == INT_MIN && b == -1)
    ensures r.Some? ==>
      var rem := a - b * r.value;
      Abs(rem) < Abs(b) && (rem == 0 || (rem < 0 <==> a < 0))
  {
    if b == 0 || (a == INT_MIN && b == -1) then None
    else DivFits(a, b); Some(TruncDiv(a, b))
  }

  /** `a % b`, rejected exactly when `a / b` is. */
  function Remainder(a: int32, b: int32): (r: Option<int32>)
    ensures r.Some? <==> b != 0 && !(a == INT_MIN && b == -1)
    ensures r.Some? ==>
      (a - r.value) % Abs(b) == 0 && Abs(r.value) < Abs(b) && (r.value == 0 || (r.value < 0 <==> a < 0))
  {
    if b == 0 || (a == INT_MIN && b == -1) then None
    else DivFits(a, b); ModMultiple(a, b); Some(TruncMod(a, b))
  }

  /** `a << b` as the search accepts it: a non-negative operand, a shift
      amount below 32, and the unsigned round trip `((unsigned)a << b) >> b == a`;
      the result is C++20's signed shift, so `1 << 31` is accepted and is
      `INT_MIN`. */
  function ShiftLeft(a: int32, b: int32): (r: Option<int32>)
    ensures r.Some? <==> 0 <= b < 32 && a >= 0 && a * Pow2(b) < TWO32
    ensures r.Some? ==>
      (r.value - a * Pow2(b)) % TWO32 == 0 && (a * Pow2(b) <= INT_MAX ==> r.value == a * Pow2(b))
  {
    if 0 <= b < 32 && a >= 0 then
      ShlRoundTripsIff(a, b);
      if ShlRoundTrips(a, b) then Some(SignedShl(a, b)) else None
    else None
  }

  /** `a >> b` as the search accepts it: a non-negative operand and a shift
      amount below 32; the result is the floor of `a / 2^b`. */
  function ShiftRight(a: int32, b: int32): (r: Option<int32>)
    ensures r.Some? <==> 0 <= b < 32 && a >= 0
    ensures r.Some? ==> 0 <= r.value && r.value * Pow2(b) <= a < (r.value + 1) * Pow2(b)
  {
    if 0 <= b < 32 && a >= 0 then Some(ShrNonNeg(a, b)) else None
  }

  /** The truncated quotient of two int32 values is an int32 unless it is
      `INT_MIN / -1`, and so is the remainder. */
  lemma DivFits(a: int32, b: int32)
    requires b != 0 && !(a == INT_MIN && b == -1)
    ensures InRange(TruncDiv(a, b)) && InRange(TruncMod(a, b))
  {
    DivModFacts(a, b);
  }

  lemma ModMultiple(a: int, b: int)
    requires b != 0
    ensures (a - TruncMod(a, b)) % Abs(b) == 0
  {
    var q := TruncDiv(a, b);
    assert a - TruncMod(a, b) == b * q;
    DivUniqueSigned(b * q, b, q);
  }

  lemma DivUniqueSigned(x: int, b: int, q: int)
    requires b != 0 && x == b * q
    ensures x % Abs(b) == 0
  {
    if b > 0 {
      DivUnique(x, b, q, 0);
    } else {
      assert x == (-b) * (-q);
      DivUnique(x, -b, -q, 0);
    }
  }
}
