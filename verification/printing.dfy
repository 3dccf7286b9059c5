/** The expression arena and `print(exprs, id)`: a node's operands always sit
    at smaller indices, so printing recurses on strictly smaller indices and
    writes out exactly the characters the node's stored length accounts for. */
module Printing {
  import opened Grammar
  import opened Eval

  /** Node `i` refers only to nodes of the arena, and every operand its
      operator uses was created before it. */
  predicate OperandsBefore(exprs: seq<Expr>, i: nat)
    requires i < |exprs|
  {
    var e := exprs[i];
    && e.a < |exprs| && e.b < |exprs|
    && (Operands(e.op) >= 1 ==> e.a < i)
    && (Operands(e.op) >= 2 ==> e.b < i)
  }

  predicate Acyclic(exprs: seq<Expr>) {
    forall i :: 0 <= i < |exprs| ==> OperandsBefore(exprs, i)
  }

  /** Node `i`'s stored length is `length(op, lhs, rhs)` of its operands. */
  predicate LengthAgreesAt(exprs: seq<Expr>, i: nat)
    requires i < |exprs| && OperandsBefore(exprs, i)
  {
    exprs[i].length == ExprLength(exprs[i].op, exprs[exprs[i].a], exprs[exprs[i].b])
  }

  predicate LengthsAgree(exprs: seq<Expr>)
    requires Acyclic(exprs)
  {
    forall i :: 0 <= i < |exprs| ==> LengthAgreesAt(exprs, i)
  }

  /** `print(exprs, id)`: `(a)` for parentheses, the symbol between the
      operands for a binary operator, the symbol before the operand for `-`
      and `~`, and the symbol alone for the literal. */
  function Render(exprs: seq<Expr>, id: nat): string
    requires id < |exprs| && Acyclic(exprs)
    decreases id
  {
    var e := exprs[id];
    assert OperandsBefore(exprs, id);
    if e.op == Paren then "(" + Render(exprs, e.a) + ")"
    else
      (if Ordinal(e.op) > UNARY_LAST then Render(exprs, e.a) else "")
      + Symbol(e.op)
      + (if Ordinal(e.op) > UNARY_LAST then Render(exprs, e.b)
         else if Ordinal(e.op) > Ordinal(Paren) then Render(exprs, e.a)
         else "")
  }

  /** The printed expression is exactly as long as the length recorded in its
      node, so the length bookkeeping of the search measures what is printed. */
  lemma {:induction false} RenderLength(exprs: seq<Expr>, id: nat)
    requires id < |exprs| && Acyclic(exprs) && LengthsAgree(exprs)
    ensures |Render(exprs, id)| == exprs[id].length
    decreases id
  {
    var e := exprs[id];
    assert OperandsBefore(exprs, id) && LengthAgreesAt(exprs, id);
    OperandsBySection(e.op);
    if Operands(e.op) >= 1 {
      RenderLength(exprs, e.a);
    }
    if Operands(e.op) >= 2 {
      RenderLength(exprs, e.b);
    }
  }
}
