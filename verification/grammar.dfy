/** The closed operator set of the expressions and its four lookup tables:
    printed symbol, precedence class, printed length and arity. The tables
    are written, as in numbers.cpp, by comparing an operator's position in
    the enumeration against the section boundaries `Unary_Last`,
    `Binary_Modulo`, `Binary_Minus` and `Binary_Shr`. */
module Grammar {

  /** `NotLambda` is the nullary literal `![]{}` (the value `false`, so 0). */
  datatype Op =
    | NotLambda
    | Paren | Neg | Compl
    | Times | Divide | Modulo | Plus | Minus | Shl | Shr | BitAnd | BitXor | BitOr

  /** Position in the enumeration. */
  function Ordinal(op: Op): nat {
    match op
    case NotLambda => 0
    case Paren => 1
    case Neg => 2
    case Compl => 3
    case Times => 4
    case Divide => 5
    case Modulo => 6
    case Plus => 7
    case Minus => 8
    case Shl => 9
    case Shr => 10
    case BitAnd => 11
    case BitXor => 12
    case BitOr => 13
  }

  const UNARY_LAST: nat := 3   // Ordinal(Compl)
  const BINARY_LAST: nat := 13 // Ordinal(BitOr)

  /** The operator at a position of the enumeration. */
  function OpAt(n: nat): (op: Op)
    requires n <= BINARY_LAST
    ensures Ordinal(op) == n
  {
    [NotLambda, Paren, Neg, Compl, Times, Divide, Modulo, Plus, Minus, Shl, Shr, BitAnd, BitXor, BitOr][n]
  }

  /** The cast `(Op)opv` undoes the enumeration: positions name operators
      one to one. */
  lemma OrdinalInjective(a: Op, b: Op)
    ensures Ordinal(a) == Ordinal(b) ==> a == b
    ensures Ordinal(a) <= BINARY_LAST && OpAt(Ordinal(a)) == a
  {
  }

  /** The printed form; `Paren` prints as a pair around its operand. */
  function Symbol(op: Op): (s: string)
    ensures |s| == Length(op)
  {
    match op
    case NotLambda => "![]{}"
    case Paren => "()"
    case Neg => "-"
    case Compl => "~"
    case Times => "*"
    case Divide => "/"
    case Modulo => "%"
    case Plus => "+"
    case Minus => "-"
    case Shl => "<<"
    case Shr => ">>"
    case BitAnd => "&"
    case BitXor => "^"
    case BitOr => "|"
  }

  /** Precedence class: higher binds tighter. */
  function Precedence(op: Op): (p: nat)
    ensures 1 <= p <= 7
  {
    var n := Ordinal(op);
    if n <= UNARY_LAST then 7
    else if n <= Ordinal(Modulo) then 6
    else if n <= Ordinal(Minus) then 5
    else if n <= Ordinal(Shr) then 4
    else if op == BitAnd then 3
    else if op == BitXor then 2
    else 1
  }

  /** Characters the operator itself contributes to a printed expression. */
  function Length(op: Op): (n: nat)
    ensures 1 <= n <= 5
  {
    if op == NotLambda then 5
    else if op == Paren || op == Shl || op == Shr then 2
    else 1
  }

  /** Number of operands. */
  function Operands(op: Op): (n: nat)
    ensures n <= 2
  {
    if op == NotLambda then 0
    else if Ordinal(op) <= UNARY_LAST then 1
    else 2
  }

  predicate IsUnary(op: Op) {
    op == Paren || op == Neg || op == Compl
  }

  predicate IsBinary(op: Op) {
    !(op == NotLambda || IsUnary(op))
  }

  /** The precedence table, class by class, in the order of conventional C++
      precedence (multiplicative above additive above shifts above `&`, `^`,
      `|`), with every unary operator and the literal in the top class. */
  lemma PrecedenceTable(op: Op)
    ensures Precedence(op) == 7 <==> op == NotLambda || IsUnary(op)
    ensures Precedence(op) == 6 <==> op in {Times, Divide, Modulo}
    ensures Precedence(op) == 5 <==> op in {Plus, Minus}
    ensures Precedence(op) == 4 <==> op in {Shl, Shr}
    ensures Precedence(op) == 3 <==> op == BitAnd
    ensures Precedence(op) == 2 <==> op == BitXor
    ensures Precedence(op) == 1 <==> op == BitOr
  {
  }

  /** The arity follows the sections of the enumeration. */
  lemma OperandsBySection(op: Op)
    ensures Operands(op) == 0 <==> op == NotLambda
    ensures Operands(op) == 1 <==> IsUnary(op)
    ensures Operands(op) == 2 <==> IsBinary(op)
    ensures IsUnary(op) <==> 1 <= Ordinal(op) <= UNARY_LAST
    ensures IsBinary(op) <==> UNARY_LAST < Ordinal(op) <= BINARY_LAST
  {
  }

  /** Only the two-character shifts and the parentheses are longer than one
      character; the literal is five. */
  lemma LengthTable(op: Op)
    ensures Length(op) == 5 <==> op == NotLambda
    ensures Length(op) == 2 <==> op in {Paren, Shl, Shr}
    ensures Length(op) == 1 <==> !(op in {NotLambda, Paren, Shl, Shr})
  {
  }
}
