/** Expression trees over the same operators, checked by the same `eval`, and
    what the search guarantees about them: every node of the arena spells out
    a tree with the node's value, length and printed text, and once the
    search has covered a value, no tree with that value (other than the bare
    literal) is shorter than the expression printed for it. */
module Optimality {
  import opened Wrappers
  import opened Int32
  import opened Grammar
  import opened Eval
  import opened Printing
  import opened Index
  import opened Search

  datatype Tree = Lit | Unary(op: Op, arg: Tree) | Binary(op: Op, lhs: Tree, rhs: Tree)

  /** Unary nodes carry unary operators and binary nodes binary ones. */
  predicate WellFormed(t: Tree) {
    match t
    case Lit => true
    case Unary(op, a) => IsUnary(op) && WellFormed(a)
    case Binary(op, l, r) => IsBinary(op) && WellFormed(l) && WellFormed(r)
  }

  /** The operator at the root. */
  function Head(t: Tree): Op {
    match t
    case Lit => NotLambda
    case Unary(op, _) => op
    case Binary(op, _, _) => op
  }

  /** The printed length. */
  function Size(t: Tree): nat {
    match t
    case Lit => Length(NotLambda)
    case Unary(op, a) => Length(op) + Size(a)
    case Binary(op, l, r) => Size(l) + Length(op) + Size(r)
  }

  /** The printed text, as `print` writes it. */
  function Text(t: Tree): (s: string)
    ensures |s| == Size(t)
  {
    match t
    case Lit => Symbol(NotLambda)
    case Unary(op, a) => if op == Paren then "(" + Text(a) + ")" else Symbol(op) + Text(a)
    case Binary(op, l, r) => Text(l) + Symbol(op) + Text(r)
  }

  /** A tree's value seen as a node: only the root operator and the value
      matter to `eval`. */
  function View(t: Tree, v: int32): Expr {
    Expr(Head(t), Size(t), 0, 0, v)
  }

  /** The value `eval` gives the tree bottom-up, `None` as soon as one step is
      rejected. */
  function Value(t: Tree): Option<int32>
    requires WellFormed(t)
  {
    match t
    case Lit => Some(0)
    case Unary(op, a) =>
      (match Value(a)
       case None => None
       case Some(va) => EvalUnary(op, View(a, va)))
    case Binary(op, l, r) =>
      (match (Value(l), Value(r))
       case (Some(vl), Some(vr)) => EvalBinary(op, View(l, vl), View(r, vr))
       case _ => None)
  }

  // ---------------------------------------------------------------------------
  // Arena nodes are trees.

  /** The tree a node of the arena stands for. */
  function TreeOf(exprs: seq<Expr>, id: nat): Tree
    requires id < |exprs| && Arena(exprs)
    decreases id
  {
    var e := exprs[id];
    assert OperandsBefore(exprs, id) && NodeOk(exprs, id);
    if id == 0 then Lit
    else if IsUnary(e.op) then Unary(e.op, TreeOf(exprs, e.a))
    else Binary(e.op, TreeOf(exprs, e.a), TreeOf(exprs, e.b))
  }

  /** The tree of a node has the node's operator, length and value, and
      `print` writes exactly its text. */
  lemma TreeOfNode(exprs: seq<Expr>, id: nat)
    requires id < |exprs| && Arena(exprs)
    ensures var t := TreeOf(exprs, id);
      && WellFormed(t) && (t == Lit <==> id == 0)
      && Head(t) == exprs[id].op && Size(t) == exprs[id].length
      && Value(t) == Some(exprs[id].value)
      && Text(t) == Render(exprs, id)
  {
    TreeOfShape(exprs, id);
    TreeOfValue(exprs, id);
    TreeOfText(exprs, id);
  }

  lemma {:induction false} TreeOfShape(exprs: seq<Expr>, id: nat)
    requires id < |exprs| && Arena(exprs)
    ensures var t := TreeOf(exprs, id);
      && WellFormed(t) && (t == Lit <==> id == 0)
      && Head(t) == exprs[id].op && Size(t) == exprs[id].length
    decreases id
  {
    var e := exprs[id];
    assert OperandsBefore(exprs, id) && NodeOk(exprs, id);
    OperandsBySection(e.op);
    if id != 0 {
      TreeOfShape(exprs, e.a);
      if IsBinary(e.op) {
        TreeOfShape(exprs, e.b);
      }
    }
  }

  lemma {:induction false} TreeOfValue(exprs: seq<Expr>, id: nat)
    requires id < |exprs| && Arena(exprs)
    ensures WellFormed(TreeOf(exprs, id)) && Value(TreeOf(exprs, id)) == Some(exprs[id].value)
    decreases id
  {
    var e := exprs[id];
    assert OperandsBefore(exprs, id) && NodeOk(exprs, id);
    TreeOfShape(exprs, id);
    if id != 0 {
      var ta := TreeOf(exprs, e.a);
      TreeOfShape(exprs, e.a);
      TreeOfValue(exprs, e.a);
      if IsUnary(e.op) {
        UnaryMono(e.op, exprs[e.a], View(ta, exprs[e.a].value));
      } else {
        var tb := TreeOf(exprs, e.b);
        TreeOfShape(exprs, e.b);
        TreeOfValue(exprs, e.b);
        BinaryMono(e.op, exprs[e.a], exprs[e.b], View(ta, exprs[e.a].value), View(tb, exprs[e.b].value));
      }
    }
  }

  /** Only node 0 is the literal; every other node is a unary or binary
      operator over earlier nodes. */
  lemma NodeKind(exprs: seq<Expr>, id: nat)
    requires id < |exprs| && Arena(exprs)
    ensures OperandsBefore(exprs, id)
    ensures id == 0 ==> exprs[id].op == NotLambda
    ensures id != 0 ==> IsUnary(exprs[id].op) || IsBinary(exprs[id].op)
  {
    assert OperandsBefore(exprs, id) && NodeOk(exprs, id);
  }

  lemma {:induction false} TreeOfText(exprs: seq<Expr>, id: nat)
    requires id < |exprs| && Arena(exprs)
    ensures Text(TreeOf(exprs, id)) == Render(exprs, id)
    decreases id
  {
    var e := exprs[id];
    NodeKind(exprs, id);
    OperandsBySection(e.op);
    if id != 0 {
      TreeOfText(exprs, e.a);
      if IsBinary(e.op) {
        TreeOfText(exprs, e.b);
      }
    }
  }

  // ---------------------------------------------------------------------------
  // Every tree is dominated by a stored node.

  /** `eval` looks only at the operands' values and how tightly their roots
      bind, and binding more tightly never hurts. */
  lemma UnaryMono(op: Op, e: Expr, e': Expr)
    requires IsUnary(op) && EvalUnary(op, e).Some?
    requires e'.value == e.value && Precedence(e'.op) >= Precedence(e.op)
    ensures EvalUnary(op, e') == EvalUnary(op, e)
  {
  }

  lemma BinaryMono(op: Op, l: Expr, r: Expr, l': Expr, r': Expr)
    requires IsBinary(op) && EvalBinary(op, l, r).Some?
    requires l'.value == l.value && Precedence(l'.op) >= Precedence(l.op)
    requires r'.value == r.value && Precedence(r'.op) >= Precedence(r.op)
    ensures EvalBinary(op, l', r') == EvalBinary(op, l, r)
  {
  }

  /** A right operand of 0 gives back the left operand or 0, if anything. */
  lemma RhsZero(op: Op, a: int32)
    requires IsBinary(op) && ApplyBinary(op, a, 0).Some?
    ensures ApplyBinary(op, a, 0).value in {0, a}
  {
    match op
    case BitAnd => BitwiseIntZero(And, a);
    case BitXor => BitwiseIntZero(Xor, a);
    case BitOr => BitwiseIntZero(Or, a);
    case _ =>
  }

  lemma DominatedWeaker(exprs: seq<Expr>, v: int32, p: nat, len: nat, p': nat, len': nat)
    requires Dominated(exprs, v, p, len) && p' <= p && len <= len'
    ensures Dominated(exprs, v, p', len')
  {
    var k :| 1 <= k < |exprs| && exprs[k].value == v && Precedence(exprs[k].op) >= p && exprs[k].length <= len;
  }

  /** What the search guarantees about an arena: the literal heads it, every
      other node is 6 to `M` long, and every candidate up to length `M` the
      rounds enumerate is dominated. */
  predicate Explored(exprs: seq<Expr>, M: int) {
    && M >= 6
    && Arena(exprs)
    && Bounded(exprs, M)
    && CompleteUpTo(exprs, M)
  }

  /** A node standing in for subtree `c`: same value, binding at least as
      tightly, no longer; the literal stands for itself. */
  lemma {:induction false} Witness(exprs: seq<Expr>, M: int, c: Tree) returns (k: nat)
    requires Explored(exprs, M)
    requires WellFormed(c) && Value(c).Some? && Size(c) <= M
    ensures k < |exprs| && exprs[k].value == Value(c).value
    ensures Precedence(exprs[k].op) >= Precedence(Head(c)) && exprs[k].length <= Size(c)
    ensures c != Lit ==> k >= 1
    decreases c, 2
  {
    if c == Lit {
      LiteralFirst(exprs, M);
      k := 0;
    } else {
      Dominates(exprs, M, c);
      k :| 1 <= k < |exprs| && exprs[k].value == Value(c).value
        && Precedence(exprs[k].op) >= Precedence(Head(c)) && exprs[k].length <= Size(c);
    }
  }

  /** `-![]{}` is 0, binding as tightly as anything, in 6 characters. */
  lemma ZeroDominated(exprs: seq<Expr>, M: int)
    requires Explored(exprs, M)
    ensures Dominated(exprs, 0, 7, 6)
  {
    LiteralFirst(exprs, M);
    NegLiteral(exprs[0]);
    assert exprs[0].length + Length(Neg) <= M;
    assert UnaryHandled(exprs, exprs[0], Neg);
  }

  lemma NegLiteral(e: Expr)
    requires e.op == NotLambda && e.length == 5 && e.value == 0
    ensures EvalUnary(Neg, e) == Some(0) && Precedence(Neg) == 7 && ExprLength(Neg, e, e) == 6
  {
    PrecedenceTable(NotLambda);
    PrecedenceTable(Neg);
    assert UnaryComposable(Neg, e);
  }

  /** Every tree other than the literal, up to the explored length, has a
      stored node with its value that binds at least as tightly and is no
      longer. The rounds skip right operands shorter than 6, that is, the
      literal; such a tree gives back its left operand or 0, both dominated
      already. */
  lemma {:induction false} Dominates(exprs: seq<Expr>, M: int, t: Tree)
    requires Explored(exprs, M)
    requires WellFormed(t) && t != Lit && Value(t).Some? && Size(t) <= M
    ensures Dominated(exprs, Value(t).value, Precedence(Head(t)), Size(t))
    decreases t, 1
  {
    var v := Value(t).value;
    match t
    case Unary(op, a) =>
      var va := Value(a).value;
      var k := Witness(exprs, M, a);
      UnaryMono(op, View(a, va), exprs[k]);
      assert UnaryHandled(exprs, exprs[k], op);
      DominatedWeaker(exprs, v, Precedence(op), ExprLength(op, exprs[k], exprs[k]), Precedence(op), Size(t));
    case Binary(op, l, r) =>
      var vl, vr := Value(l).value, Value(r).value;
      var kl := Witness(exprs, M, l);
      if r == Lit {
        assert ApplyBinary(op, vl, 0) == Some(v);
        RhsZero(op, vl);
        if v == 0 {
          ZeroDominated(exprs, M);
          PrecedenceTable(op);
          DominatedWeaker(exprs, 0, 7, 6, Precedence(op), Size(t));
        } else {
          assert kl >= 1 && exprs[kl].length <= Size(t);
        }
      } else {
        var kr := Witness(exprs, M, r);
        BinaryMono(op, View(l, vl), View(r, vr), exprs[kl], exprs[kr]);
        assert BinaryHandled(exprs, exprs[kl], exprs[kr], op);
        DominatedWeaker(exprs, v, Precedence(op), ExprLength(op, exprs[kl], exprs[kr]), Precedence(op), Size(t));
      }
  }

  // ---------------------------------------------------------------------------
  // What the search prints is a shortest expression.

  /** After the search, the node recorded for `x` is no longer than any
      well-formed tree other than the literal with value `x`. */
  lemma {:induction false} RecordedIsShortest(st: State, min: int32, max: int32, fol: seq<nat>, length: nat, x: int32, t: Tree)
    requires Valid(st, min, max) && 6 <= length && |fol| == length
    requires LengthIndexed(st.exprs, fol) && Bounded(st.exprs, length - 1) && CompleteUpTo(st.exprs, length - 1)
    requires x in st.best
    requires WellFormed(t) && t != Lit && Value(t) == Some(x)
    ensures st.exprs[st.best[x].id].length <= Size(t)
  {
    RecordedFirst(st, min, max, fol, length, x);
    ExploredAfterSearch(st, min, max, length - 1);
    ShorterThanTree(st.exprs, length - 1, x, st.best[x].id, t);
  }

  /** The state the search ends in, with at least one node after the
      literal, is explored up to its last length. Stated apart so that the
      proof using it receives `Explored` as one fact rather than the
      unfolded invariant. */
  lemma ExploredAfterSearch(st: State, min: int32, max: int32, M: int)
    requires Valid(st, min, max) && 6 <= M
    requires Bounded(st.exprs, M) && CompleteUpTo(st.exprs, M)
    ensures Explored(st.exprs, M)
  {
  }

  /** The node recorded for `x` lies in the arena, within the length bound,
      and no stored node of value `x` is shorter. */
  lemma RecordedFirst(st: State, min: int32, max: int32, fol: seq<nat>, length: nat, x: int32)
    requires Valid(st, min, max) && |fol| == length
    requires LengthIndexed(st.exprs, fol) && Bounded(st.exprs, length - 1)
    requires x in st.best
    ensures st.best[x].id < |st.exprs| && 6 <= st.exprs[st.best[x].id].length <= length - 1
    ensures NoShorterNode(st.exprs, x, st.best[x].id)
  {
    FirstIsShortest(st, min, max, fol, x);
    assert EntryOk(st.exprs, st.best, x);
  }

  /** No stored node other than the literal with value `x` is shorter than
      the node of `id`. */
  ghost predicate NoShorterNode(exprs: seq<Expr>, x: int32, id: nat)
    requires id < |exprs|
  {
    forall i :: 1 <= i < |exprs| && exprs[i].value == x ==> exprs[id].length <= exprs[i].length
  }

  /** If the node of `id` is no longer than any stored node with value `x`,
      it is no longer than any tree with value `x` either. */
  lemma ShorterThanTree(exprs: seq<Expr>, M: int, x: int32, id: nat, t: Tree)
    requires Explored(exprs, M) && id < |exprs| && exprs[id].length <= M
    requires NoShorterNode(exprs, x, id)
    requires WellFormed(t) && t != Lit && Value(t) == Some(x)
    ensures exprs[id].length <= Size(t)
  {
    if Size(t) <= M {
      Dominates(exprs, M, t);
    }
  }

  /** Once `remaining` reaches 0, `search` prints for every `x` of `[min, max]`
      the text of a tree that evaluates to `x`, and no other tree evaluating
      to `x`, the bare literal aside, is shorter. */
  lemma AnswerIsShortest(st: State, min: int32, max: int32, fol: seq<nat>, length: nat, x: int32, t: Tree)
    requires Valid(st, min, max) && 6 <= length && |fol| == length
    requires LengthIndexed(st.exprs, fol) && Bounded(st.exprs, length - 1) && CompleteUpTo(st.exprs, length - 1)
    requires st.remaining == 0 && min <= x <= max
    ensures Answer(st, min, max, x).Some?
    ensures var u := TreeOf(st.exprs, st.best[x].id);
      && WellFormed(u) && u != Lit && Value(u) == Some(x)
      && Text(u) == Answer(st, min, max, x).value
    ensures WellFormed(t) && t != Lit && Value(t) == Some(x) ==> |Answer(st, min, max, x).value| <= Size(t)
  {
    AllCovered(st, min, max);
    assert EntryOk(st.exprs, st.best, x);
    TreeOfNode(st.exprs, st.best[x].id);
    if WellFormed(t) && t != Lit && Value(t) == Some(x) {
      RecordedIsShortest(st, min, max, fol, length, x, t);
    }
  }
}
