/** The length-driven driver of `search(min, max)`: round after round, for
    increasing printed length `L`, every unary operator is tried on every node
    of length `L - length(op)` and every binary operator on every pair of
    nodes whose lengths add up to `L - length(op)`, the left one at least 5
    characters long and the right one at least 6; each success is handed to
    `Add`. `first_of_length[K]` marks where the nodes of length `K` start. */
module Search {
  import opened Wrappers
  import opened Int32
  import opened Grammar
  import opened Eval
  import opened Printing
  import opened Index

  // ---------------------------------------------------------------------------
  // The length buckets.

  /** `first_of_length[K]` is the number of nodes shorter than `K`: the arena
      is sorted by length, and the nodes of length `K` are those from
      `first_of_length[K]` up to `first_of_length[K + 1]`. */
  predicate LengthIndexed(exprs: seq<Expr>, fol: seq<nat>) {
    && (forall k :: 0 <= k < |fol| ==> fol[k] <= |exprs|)
    && (forall k, i :: 0 <= k < |fol| && 0 <= i < |exprs| ==> (i < fol[k] <==> exprs[i].length < k))
  }

  /** Every node after the literal is at least 6 and at most `L` long. */
  predicate Bounded(exprs: seq<Expr>, L: int) {
    forall i :: 0 <= i < |exprs| ==> (i == 0 || 6 <= exprs[i].length) && exprs[i].length <= L
  }

  lemma BucketsOrdered(exprs: seq<Expr>, fol: seq<nat>, k: nat)
    requires LengthIndexed(exprs, fol) && k + 1 < |fol|
    ensures fol[k] <= fol[k + 1]
    ensures forall i :: fol[k] <= i < fol[k + 1] ==> exprs[i].length == k
    ensures forall i :: 0 <= i < |exprs| && exprs[i].length == k ==> fol[k] <= i < fol[k + 1]
  {
    var i := fol[k + 1];
    if i < |exprs| {
      assert i < fol[k] <==> exprs[i].length < k;
      assert !(exprs[i].length < k + 1);
    }
  }

  // ---------------------------------------------------------------------------
  // What a round promises: every candidate it enumerates is dominated.

  /** Some node after the literal has value `v`, binds at least as tightly as
      class `p`, and is no longer than `len`. */
  predicate Dominated(exprs: seq<Expr>, v: int32, p: nat, len: nat) {
    exists k :: 1 <= k < |exprs| && exprs[k].value == v && Precedence(exprs[k].op) >= p && exprs[k].length <= len
  }

  /** Applying unary `op` to `e` either fails or gives a value that a node at
      least as short and as tightly binding already has. */
  predicate UnaryHandled(exprs: seq<Expr>, e: Expr, op: Op)
    requires IsUnary(op)
  {
    var r := EvalUnary(op, e);
    r.Some? ==> Dominated(exprs, r.value, Precedence(op), ExprLength(op, e, e))
  }

  predicate BinaryHandled(exprs: seq<Expr>, l: Expr, r: Expr, op: Op)
    requires IsBinary(op)
  {
    var v := EvalBinary(op, l, r);
    v.Some? ==> Dominated(exprs, v.value, Precedence(op), ExprLength(op, l, r))
  }

  /** Every candidate up to length `L` that the rounds enumerate (a binary
      operator's right operand is never shorter than 6) is dominated. */
  predicate CompleteUpTo(exprs: seq<Expr>, L: int) {
    && (forall op, i :: IsUnary(op) && 0 <= i < |exprs| && exprs[i].length + Length(op) <= L ==>
          UnaryHandled(exprs, exprs[i], op))
    && (forall op, i, j :: ((IsBinary(op) && 0 <= i < |exprs| && 0 <= j < |exprs| && exprs[j].length >= 6
          && exprs[i].length + Length(op) + exprs[j].length <= L)) ==>
          BinaryHandled(exprs, exprs[i], exprs[j], op))
  }

  lemma DominatedGrows(exprs: seq<Expr>, exprs': seq<Expr>, v: int32, p: nat, len: nat)
    requires exprs <= exprs' && Dominated(exprs, v, p, len)
    ensures Dominated(exprs', v, p, len)
  {
    var k :| 1 <= k < |exprs| && exprs[k].value == v && Precedence(exprs[k].op) >= p && exprs[k].length <= len;
    assert exprs'[k] == exprs[k];
  }

  lemma UnaryHandledGrows(exprs: seq<Expr>, exprs': seq<Expr>, e: Expr, op: Op)
    requires IsUnary(op) && exprs <= exprs' && UnaryHandled(exprs, e, op)
    ensures UnaryHandled(exprs', e, op)
  {
    var r := EvalUnary(op, e);
    if r.Some? {
      DominatedGrows(exprs, exprs', r.value, Precedence(op), ExprLength(op, e, e));
    }
  }

  lemma BinaryHandledGrows(exprs: seq<Expr>, exprs': seq<Expr>, l: Expr, r: Expr, op: Op)
    requires IsBinary(op) && exprs <= exprs' && BinaryHandled(exprs, l, r, op)
    ensures BinaryHandled(exprs', l, r, op)
  {
    var v := EvalBinary(op, l, r);
    if v.Some? {
      DominatedGrows(exprs, exprs', v.value, Precedence(op), ExprLength(op, l, r));
    }
  }

  /** After `Add`, the value it was given is dominated at the length of the
      round. */
  lemma AddDominates(st: State, min: int32, max: int32, op: Op, len: nat, lhs: nat, rhs: nat, val: int32)
    requires Valid(st, min, max) && Candidate(st.exprs, op, len, lhs, rhs, val)
    requires Bounded(st.exprs, len)
    ensures Dominated(Add(st, min, max, op, len, lhs, rhs, val).exprs, val, Precedence(op), len)
  {
    var st' := Add(st, min, max, op, len, lhs, rhs, val);
    var n := |st.exprs|;
    if val in st.best && Precedence(op) <= st.best[val].prec {
      assert EntryOk(st.exprs, st.best, val);
      var w :| 1 <= w < n && st.exprs[w].value == val && Precedence(st.exprs[w].op) == st.best[val].prec;
      assert st'.exprs == st.exprs;
    } else {
      if val in st.best {
        assert EntryOk(st.exprs, st.best, val);
      }
      assert st'.exprs[n] == Expr(op, len, lhs, rhs, val);
    }
  }

  // ---------------------------------------------------------------------------
  // One call of `Add` inside a round.

  /** What holds between two `Add` calls of round `L`: the state is valid,
      the buckets up to `L` are in place with `first_of_length[L]` at the end
      of the arena as the round found it, and every node added since is `L`
      long. */
  predicate InRound(st: State, min: int32, max: int32, fol: seq<nat>, L: nat, exprs0: seq<Expr>) {
    && Valid(st, min, max)
    && Grown(st.exprs, fol, L, exprs0)
  }

  /** The arena part of `InRound`. */
  predicate Grown(exprs: seq<Expr>, fol: seq<nat>, L: nat, exprs0: seq<Expr>) {
    && |fol| == L + 1 && fol[L] == |exprs0|
    && exprs0 <= exprs
    && LengthIndexed(exprs, fol)
    && Bounded(exprs, L)
  }

  /** `Add` appends at most the node it is given. */
  lemma AddAppends(st: State, min: int32, max: int32, op: Op, len: nat, lhs: nat, rhs: nat, val: int32)
    requires Valid(st, min, max)
    ensures var st' := Add(st, min, max, op, len, lhs, rhs, val);
      st'.exprs == st.exprs || st'.exprs == st.exprs + [Expr(op, len, lhs, rhs, val)]
  {
    if val in st.best {
      assert EntryOk(st.exprs, st.best, val);
    }
  }

  /** Appending a node of the round's length keeps the buckets in place. */
  lemma GrownAppend(exprs: seq<Expr>, exprs': seq<Expr>, fol: seq<nat>, L: nat, exprs0: seq<Expr>, node: Expr)
    requires Grown(exprs, fol, L, exprs0) && L >= 6 && node.length == L
    requires exprs' == exprs || exprs' == exprs + [node]
    ensures Grown(exprs', fol, L, exprs0) && exprs <= exprs'
  {
    forall k, i | 0 <= k < |fol| && 0 <= i < |exprs'|
      ensures i < fol[k] <==> exprs'[i].length < k
    {
      if i < |exprs| {
        assert exprs'[i] == exprs[i];
      } else {
        FolBelow(exprs, fol, k, L);
      }
    }
  }

  lemma FolBelow(exprs: seq<Expr>, fol: seq<nat>, k: nat, L: nat)
    requires LengthIndexed(exprs, fol) && k <= L < |fol|
    ensures fol[k] <= fol[L]
    decreases L - k
  {
    if k < L {
      BucketsOrdered(exprs, fol, k);
      FolBelow(exprs, fol, k + 1, L);
    }
  }

  /** The literal heads the arena, and no node is shorter than it. */
  lemma LiteralFirst(exprs: seq<Expr>, L: nat)
    requires Arena(exprs) && Bounded(exprs, L)
    ensures exprs[0] == Literal
    ensures forall i :: 0 <= i < |exprs| ==> exprs[i].length >= 5
  {
    assert OperandsBefore(exprs, 0) && NodeOk(exprs, 0);
  }

  lemma UnaryCandidate(exprs: seq<Expr>, op: Op, L: nat, lhs: nat, val: int32)
    requires Arena(exprs) && IsUnary(op) && lhs < |exprs|
    requires exprs[lhs].length + Length(op) == L && EvalUnary(op, exprs[lhs]) == Some(val)
    ensures Candidate(exprs, op, L, lhs, 0, val)
  {
    var ext := exprs + [Expr(op, L, lhs, 0, val)];
    assert ext[lhs] == exprs[lhs];
    OperandsBySection(op);
  }

  lemma BinaryCandidate(exprs: seq<Expr>, op: Op, L: nat, lhs: nat, rhs: nat, val: int32)
    requires Arena(exprs) && IsBinary(op) && lhs < |exprs| && rhs < |exprs|
    requires exprs[lhs].length + Length(op) + exprs[rhs].length == L
    requires EvalBinary(op, exprs[lhs], exprs[rhs]) == Some(val)
    ensures Candidate(exprs, op, L, lhs, rhs, val)
  {
    var ext := exprs + [Expr(op, L, lhs, rhs, val)];
    assert ext[lhs] == exprs[lhs] && ext[rhs] == exprs[rhs];
    OperandsBySection(op);
  }

  /** Hand one successful evaluation to `Add`. */
  lemma AddInRound(st: State, min: int32, max: int32, fol: seq<nat>, L: nat, exprs0: seq<Expr>,
                   op: Op, lhs: nat, rhs: nat, val: int32)
    requires InRound(st, min, max, fol, L, exprs0) && L >= 6
    requires Candidate(st.exprs, op, L, lhs, rhs, val)
    ensures InRound(Add(st, min, max, op, L, lhs, rhs, val), min, max, fol, L, exprs0)
    ensures st.exprs <= Add(st, min, max, op, L, lhs, rhs, val).exprs
    ensures Dominated(Add(st, min, max, op, L, lhs, rhs, val).exprs, val, Precedence(op), L)
  {
    var st' := Add(st, min, max, op, L, lhs, rhs, val);
    AddValid(st, min, max, op, L, lhs, rhs, val);
    AddDominates(st, min, max, op, L, lhs, rhs, val);
    AddAppends(st, min, max, op, L, lhs, rhs, val);
    GrownAppend(st.exprs, st'.exprs, fol, L, exprs0, Expr(op, L, lhs, rhs, val));
  }

  // ---------------------------------------------------------------------------
  // The unary operators of a round.

  /** The body of the unary loop: evaluate `op` on node `lhs` and hand a
      value to `Add`. */
  method UnaryStep(st0: State, min: int32, max: int32, fol: seq<nat>, L: nat, ghost exprs0: seq<Expr>, op: Op, lhs: nat)
    returns (st: State)
    requires IsUnary(op) && L >= 6
    requires InRound(st0, min, max, fol, L, exprs0)
    requires lhs < |exprs0| && exprs0[lhs].length + Length(op) == L
    ensures InRound(st, min, max, fol, L, exprs0)
    ensures st0.exprs <= st.exprs
    ensures UnaryHandled(st.exprs, exprs0[lhs], op)
  {
    var lhse := st0.exprs[lhs];
    assert lhse == exprs0[lhs];
    assert L == ExprLength(op, lhse, Expr(NotLambda, 0, 0, 0, 0));
    var v := EvalUnary(op, lhse);
    if v.Some? {
      UnaryCandidate(st0.exprs, op, L, lhs, v.value);
      AddInRound(st0, min, max, fol, L, exprs0, op, lhs, 0, v.value);
      st := Add(st0, min, max, op, L, lhs, 0, v.value);
    } else {
      st := st0;
    }
  }

  /** The nodes of a length below the round's are exactly those from
      `first_of_length[k]` up to `first_of_length[k + 1]`, all of them in the
      arena as the round found it. */
  lemma Bucket(exprs: seq<Expr>, fol: seq<nat>, L: nat, exprs0: seq<Expr>, k: nat)
    requires Grown(exprs, fol, L, exprs0) && k < L
    ensures fol[k] <= fol[k + 1] <= |exprs0|
    ensures forall i :: fol[k] <= i < fol[k + 1] ==> exprs0[i].length == k
    ensures forall i :: 0 <= i < |exprs0| && exprs0[i].length == k ==> fol[k] <= i < fol[k + 1]
  {
    BucketsOrdered(exprs, fol, k);
    FolBelow(exprs, fol, k + 1, L);
    assert forall i :: 0 <= i < |exprs0| ==> exprs0[i] == exprs[i];
  }

  /** No node of the arena is shorter than the literal. */
  lemma RoundFloor(st: State, min: int32, max: int32, fol: seq<nat>, L: nat, exprs0: seq<Expr>)
    requires InRound(st, min, max, fol, L, exprs0)
    ensures forall i :: 0 <= i < |exprs0| ==> exprs0[i].length >= 5
  {
    LiteralFirst(st.exprs, L);
    assert forall i :: 0 <= i < |exprs0| ==> exprs0[i] == st.exprs[i];
  }

  /** One more node of a row is handled, and those before it stay handled. */
  lemma UnaryRowGrows(exprs: seq<Expr>, exprs': seq<Expr>, exprs0: seq<Expr>, op: Op, lo: nat, lhs: nat)
    requires IsUnary(op) && exprs <= exprs' && lhs < |exprs0|
    requires forall i :: lo <= i < lhs ==> UnaryHandled(exprs, exprs0[i], op)
    requires UnaryHandled(exprs', exprs0[lhs], op)
    ensures forall i :: lo <= i < lhs + 1 ==> UnaryHandled(exprs', exprs0[i], op)
  {
    forall i | lo <= i < lhs
      ensures UnaryHandled(exprs', exprs0[i], op)
    {
      UnaryHandledGrows(exprs, exprs', exprs0[i], op);
    }
  }

  /** Apply unary `op` to every node of length `L - length(op)`. */
  method UnaryRow(st0: State, min: int32, max: int32, fol: seq<nat>, L: nat, ghost exprs0: seq<Expr>, op: Op)
    returns (st: State)
    requires IsUnary(op) && L >= 6
    requires InRound(st0, min, max, fol, L, exprs0)
    ensures InRound(st, min, max, fol, L, exprs0)
    ensures st0.exprs <= st.exprs
    ensures forall i :: 0 <= i < |exprs0| && exprs0[i].length + Length(op) == L ==>
      UnaryHandled(st.exprs, exprs0[i], op)
  {
    st := st0;
    var lhsLen := L - Length(op);
    Bucket(st.exprs, fol, L, exprs0, lhsLen);
    var lhs, lhsMax := fol[lhsLen], fol[lhsLen + 1];
    while lhs != lhsMax
      invariant fol[lhsLen] <= lhs <= lhsMax
      invariant InRound(st, min, max, fol, L, exprs0)
      invariant st0.exprs <= st.exprs
      invariant forall i :: fol[lhsLen] <= i < lhs ==> UnaryHandled(st.exprs, exprs0[i], op)
      decreases lhsMax - lhs
    {
      var st' := UnaryStep(st, min, max, fol, L, exprs0, op, lhs);
      UnaryRowGrows(st.exprs, st'.exprs, exprs0, op, fol[lhsLen], lhs);
      st := st';
      lhs := lhs + 1;
    }
  }

  /** `for (opv = Unary_Paren; opv <= Unary_Last; ++opv)`. */
  method UnaryPass(st0: State, min: int32, max: int32, fol: seq<nat>, L: nat, ghost exprs0: seq<Expr>)
    returns (st: State)
    requires L >= 6 && InRound(st0, min, max, fol, L, exprs0)
    ensures InRound(st, min, max, fol, L, exprs0)
    ensures st0.exprs <= st.exprs
    ensures forall op, i :: IsUnary(op) && 0 <= i < |exprs0| && exprs0[i].length + Length(op) == L ==>
      UnaryHandled(st.exprs, exprs0[i], op)
  {
    st := st0;
    var opv := Ordinal(Paren);
    while opv <= UNARY_LAST
      invariant Ordinal(Paren) <= opv <= UNARY_LAST + 1
      invariant InRound(st, min, max, fol, L, exprs0)
      invariant st0.exprs <= st.exprs
      invariant forall op, i :: IsUnary(op) && Ordinal(op) < opv && 0 <= i < |exprs0| && exprs0[i].length + Length(op) == L ==>
        UnaryHandled(st.exprs, exprs0[i], op)
    {
      var op := OpAt(opv);
      var st' := UnaryRow(st, min, max, fol, L, exprs0, op);
      forall op', i | IsUnary(op') && Ordinal(op') <= opv && 0 <= i < |exprs0| && exprs0[i].length + Length(op') == L
        ensures UnaryHandled(st'.exprs, exprs0[i], op')
      {
        if Ordinal(op') < opv {
          UnaryHandledGrows(st.exprs, st'.exprs, exprs0[i], op');
        } else {
          OrdinalInjective(op', op);
        }
      }
      st := st';
      opv := opv + 1;
    }
  }

  // ---------------------------------------------------------------------------
  // The binary operators of a round.

  /** The body of the innermost binary loop: evaluate `op` on nodes `lhs`
      and `rhs` and hand a value to `Add`. */
  method BinaryStep(st0: State, min: int32, max: int32, fol: seq<nat>, L: nat, ghost exprs0: seq<Expr>,
                    op: Op, lhs: nat, rhs: nat)
    returns (st: State)
    requires IsBinary(op) && L >= 6
    requires InRound(st0, min, max, fol, L, exprs0)
    requires lhs < |exprs0| && rhs < |exprs0| && exprs0[lhs].length + Length(op) + exprs0[rhs].length == L
    ensures InRound(st, min, max, fol, L, exprs0)
    ensures st0.exprs <= st.exprs
    ensures BinaryHandled(st.exprs, exprs0[lhs], exprs0[rhs], op)
  {
    var lhse, rhse := st0.exprs[lhs], st0.exprs[rhs];
    assert lhse == exprs0[lhs] && rhse == exprs0[rhs];
    assert L == ExprLength(op, lhse, rhse);
    var v := EvalBinary(op, lhse, rhse);
    if v.Some? {
      BinaryCandidate(st0.exprs, op, L, lhs, rhs, v.value);
      AddInRound(st0, min, max, fol, L, exprs0, op, lhs, rhs, v.value);
      st := Add(st0, min, max, op, L, lhs, rhs, v.value);
    } else {
      st := st0;
    }
  }

  lemma BinaryRowGrows(exprs: seq<Expr>, exprs': seq<Expr>, exprs0: seq<Expr>, op: Op, lhs: nat, lo: nat, rhs: nat)
    requires IsBinary(op) && exprs <= exprs' && lhs < |exprs0| && rhs < |exprs0|
    requires forall j :: lo <= j < rhs ==> BinaryHandled(exprs, exprs0[lhs], exprs0[j], op)
    requires BinaryHandled(exprs', exprs0[lhs], exprs0[rhs], op)
    ensures forall j :: lo <= j < rhs + 1 ==> BinaryHandled(exprs', exprs0[lhs], exprs0[j], op)
  {
    forall j | lo <= j < rhs
      ensures BinaryHandled(exprs', exprs0[lhs], exprs0[j], op)
    {
      BinaryHandledGrows(exprs, exprs', exprs0[lhs], exprs0[j], op);
    }
  }

  /** Apply binary `op` to node `lhs` and every node of length `rhsLen`. */
  method BinaryRow(st0: State, min: int32, max: int32, fol: seq<nat>, L: nat, ghost exprs0: seq<Expr>,
                   op: Op, lhs: nat, rhsLen: nat)
    returns (st: State)
    requires IsBinary(op) && L >= 6
    requires InRound(st0, min, max, fol, L, exprs0)
    requires lhs < |exprs0| && 6 <= rhsLen && exprs0[lhs].length + Length(op) + rhsLen == L
    ensures InRound(st, min, max, fol, L, exprs0)
    ensures st0.exprs <= st.exprs
    ensures forall j :: 0 <= j < |exprs0| && exprs0[j].length == rhsLen ==>
      BinaryHandled(st.exprs, exprs0[lhs], exprs0[j], op)
  {
    st := st0;
    Bucket(st.exprs, fol, L, exprs0, rhsLen);
    var rhs, rhsMax := fol[rhsLen], fol[rhsLen + 1];
    while rhs != rhsMax
      invariant fol[rhsLen] <= rhs <= rhsMax
      invariant InRound(st, min, max, fol, L, exprs0)
      invariant st0.exprs <= st.exprs
      invariant forall j :: fol[rhsLen] <= j < rhs ==> BinaryHandled(st.exprs, exprs0[lhs], exprs0[j], op)
      decreases rhsMax - rhs
    {
      var st' := BinaryStep(st, min, max, fol, L, exprs0, op, lhs, rhs);
      BinaryRowGrows(st.exprs, st'.exprs, exprs0, op, lhs, fol[rhsLen], rhs);
      st := st';
      rhs := rhs + 1;
    }
  }

  /** Apply binary `op` to every node of length `lhsLen` on the left and every
      node of the complementary length on the right. */
  method BinaryColumn(st0: State, min: int32, max: int32, fol: seq<nat>, L: nat, ghost exprs0: seq<Expr>,
                      op: Op, lhsLen: nat)
    returns (st: State)
    requires IsBinary(op) && L >= 6
    requires InRound(st0, min, max, fol, L, exprs0)
    requires 5 <= lhsLen && lhsLen + Length(op) + 6 <= L
    ensures InRound(st, min, max, fol, L, exprs0)
    ensures st0.exprs <= st.exprs
    ensures forall i, j :: ((0 <= i < |exprs0| && 0 <= j < |exprs0| && exprs0[i].length == lhsLen
      && exprs0[i].length + Length(op) + exprs0[j].length == L)) ==>
      BinaryHandled(st.exprs, exprs0[i], exprs0[j], op)
  {
    st := st0;
    var rhsLen := L - lhsLen - Length(op);
    Bucket(st.exprs, fol, L, exprs0, lhsLen);
    var lhs, lhsMax := fol[lhsLen], fol[lhsLen + 1];
    while lhs != lhsMax
      invariant fol[lhsLen] <= lhs <= lhsMax
      invariant InRound(st, min, max, fol, L, exprs0)
      invariant st0.exprs <= st.exprs
      invariant forall i, j :: fol[lhsLen] <= i < lhs && 0 <= j < |exprs0| && exprs0[j].length == rhsLen ==>
        BinaryHandled(st.exprs, exprs0[i], exprs0[j], op)
      decreases lhsMax - lhs
    {
      var st' := BinaryRow(st, min, max, fol, L, exprs0, op, lhs, rhsLen);
      forall i, j | fol[lhsLen] <= i <= lhs && 0 <= j < |exprs0| && exprs0[j].length == rhsLen
        ensures BinaryHandled(st'.exprs, exprs0[i], exprs0[j], op)
      {
        if i < lhs {
          BinaryHandledGrows(st.exprs, st'.exprs, exprs0[i], exprs0[j], op);
        } else {
          assert exprs0[i] == exprs0[lhs];
        }
      }
      st := st';
      lhs := lhs + 1;
    }
  }

  /** `for (lhs_len = 5, max_lhs_len = length - length(op) - 5; lhs_len <
      max_lhs_len; ++lhs_len)`: every split of the round's length whose right
      part is at least 6 long. */
  method BinaryOp(st0: State, min: int32, max: int32, fol: seq<nat>, L: nat, ghost exprs0: seq<Expr>, op: Op)
    returns (st: State)
    requires IsBinary(op) && L >= 6
    requires InRound(st0, min, max, fol, L, exprs0)
    ensures InRound(st, min, max, fol, L, exprs0)
    ensures st0.exprs <= st.exprs
    ensures OpHandled(st.exprs, exprs0, L, op)
  {
    st := st0;
    RoundFloor(st, min, max, fol, L, exprs0);
    var lhsLen := 5;
    var maxLhsLen := L - Length(op) - 5;
    while lhsLen < maxLhsLen
      invariant 5 <= lhsLen
      invariant InRound(st, min, max, fol, L, exprs0)
      invariant st0.exprs <= st.exprs
      invariant forall i, j :: ((0 <= i < |exprs0| && 0 <= j < |exprs0| && exprs0[i].length < lhsLen
        && exprs0[i].length + Length(op) + exprs0[j].length == L)) ==>
        BinaryHandled(st.exprs, exprs0[i], exprs0[j], op)
      decreases maxLhsLen - lhsLen
    {
      var st' := BinaryColumn(st, min, max, fol, L, exprs0, op, lhsLen);
      forall i, j | 0 <= i < |exprs0| && 0 <= j < |exprs0| && exprs0[i].length <= lhsLen
        && exprs0[i].length + Length(op) + exprs0[j].length == L
        ensures BinaryHandled(st'.exprs, exprs0[i], exprs0[j], op)
      {
        if exprs0[i].length < lhsLen {
          BinaryHandledGrows(st.exprs, st'.exprs, exprs0[i], exprs0[j], op);
        }
      }
      st := st';
      lhsLen := lhsLen + 1;
    }
  }

  /** Every candidate of binary `op` over the round's starting arena
      `exprs0`, of total length `L` and with a right operand at least 6
      long, is handled in `exprs`. */
  predicate OpHandled(exprs: seq<Expr>, exprs0: seq<Expr>, L: nat, op: Op)
    requires IsBinary(op)
  {
    forall i, j :: ((0 <= i < |exprs0| && 0 <= j < |exprs0| && exprs0[j].length >= 6
      && exprs0[i].length + Length(op) + exprs0[j].length == L)) ==>
      BinaryHandled(exprs, exprs0[i], exprs0[j], op)
  }

  /** The same for every binary operator before position `n` of the
      enumeration. */
  predicate OpsHandled(exprs: seq<Expr>, exprs0: seq<Expr>, L: nat, n: nat) {
    forall op :: IsBinary(op) && Ordinal(op) < n ==> OpHandled(exprs, exprs0, L, op)
  }

  lemma OpHandledGrows(exprs: seq<Expr>, exprs': seq<Expr>, exprs0: seq<Expr>, L: nat, op: Op)
    requires IsBinary(op) && exprs <= exprs' && OpHandled(exprs, exprs0, L, op)
    ensures OpHandled(exprs', exprs0, L, op)
  {
    forall i, j | 0 <= i < |exprs0| && 0 <= j < |exprs0| && exprs0[j].length >= 6
      && exprs0[i].length + Length(op) + exprs0[j].length == L
      ensures BinaryHandled(exprs', exprs0[i], exprs0[j], op)
    {
      BinaryHandledGrows(exprs, exprs', exprs0[i], exprs0[j], op);
    }
  }

  /** One more operator of the binary pass handled, the earlier ones still
      handled in the grown arena. */
  lemma BinaryPassGrows(exprs: seq<Expr>, exprs': seq<Expr>, exprs0: seq<Expr>, L: nat, op: Op)
    requires IsBinary(op) && exprs <= exprs'
    requires OpsHandled(exprs, exprs0, L, Ordinal(op)) && OpHandled(exprs', exprs0, L, op)
    ensures OpsHandled(exprs', exprs0, L, Ordinal(op) + 1)
  {
    forall op' | IsBinary(op') && Ordinal(op') < Ordinal(op) + 1
      ensures OpHandled(exprs', exprs0, L, op')
    {
      if Ordinal(op') < Ordinal(op) {
        OpHandledGrows(exprs, exprs', exprs0, L, op');
      } else {
        OrdinalInjective(op', op);
      }
    }
  }

  /** `for (opv = Binary_Times; opv <= Binary_Last; ++opv)`. */
  method BinaryPass(st0: State, min: int32, max: int32, fol: seq<nat>, L: nat, ghost exprs0: seq<Expr>)
    returns (st: State)
    requires L >= 6 && InRound(st0, min, max, fol, L, exprs0)
    ensures InRound(st, min, max, fol, L, exprs0)
    ensures st0.exprs <= st.exprs
    ensures OpsHandled(st.exprs, exprs0, L, BINARY_LAST + 1)
  {
    st := st0;
    var opv := Ordinal(Times);
    while opv <= BINARY_LAST
      invariant Ordinal(Times) <= opv <= BINARY_LAST + 1
      invariant InRound(st, min, max, fol, L, exprs0)
      invariant st0.exprs <= st.exprs
      invariant OpsHandled(st.exprs, exprs0, L, opv)
    {
      var op := OpAt(opv);
      var st' := BinaryOp(st, min, max, fol, L, exprs0, op);
      BinaryPassGrows(st.exprs, st'.exprs, exprs0, L, op);
      st := st';
      opv := opv + 1;
    }
  }

  // ---------------------------------------------------------------------------
  // A round, and the search.

  /** Pushing the arena size onto `first_of_length` opens the bucket of the
      new length. */
  lemma OpenRound(exprs: seq<Expr>, fol0: seq<nat>, L: nat)
    requires |fol0| == L && LengthIndexed(exprs, fol0) && Bounded(exprs, L - 1)
    ensures Grown(exprs, fol0 + [|exprs|], L, exprs)
  {
    var fol := fol0 + [|exprs|];
    forall k, i | 0 <= k < |fol| && 0 <= i < |exprs|
      ensures i < fol[k] <==> exprs[i].length < k
    {
      if k < L {
        assert fol[k] == fol0[k];
      }
    }
  }

  /** The unary candidates of length up to `L` are dominated once those below
      `L` were before the round and those of length `L` are after it. */
  lemma CloseUnary(exprs0: seq<Expr>, exprs1: seq<Expr>, exprs: seq<Expr>, fol: seq<nat>, L: nat)
    requires L >= 6 && Grown(exprs, fol, L, exprs0) && exprs1 <= exprs
    requires CompleteUpTo(exprs0, L - 1)
    requires forall op, i :: IsUnary(op) && 0 <= i < |exprs0| && exprs0[i].length + Length(op) == L ==>
      UnaryHandled(exprs1, exprs0[i], op)
    ensures forall op, i :: IsUnary(op) && 0 <= i < |exprs| && exprs[i].length + Length(op) <= L ==>
      UnaryHandled(exprs, exprs[i], op)
  {
    forall op, i | IsUnary(op) && 0 <= i < |exprs| && exprs[i].length + Length(op) <= L
      ensures UnaryHandled(exprs, exprs[i], op)
    {
      assert i < fol[L];
      assert exprs[i] == exprs0[i];
      if exprs[i].length + Length(op) < L {
        UnaryHandledGrows(exprs0, exprs, exprs0[i], op);
      } else {
        UnaryHandledGrows(exprs1, exprs, exprs0[i], op);
      }
    }
  }

  lemma CloseBinary(exprs0: seq<Expr>, exprs: seq<Expr>, fol: seq<nat>, L: nat)
    requires L >= 6 && Grown(exprs, fol, L, exprs0)
    requires CompleteUpTo(exprs0, L - 1)
    requires OpsHandled(exprs, exprs0, L, BINARY_LAST + 1)
    ensures forall op, i, j :: (IsBinary(op) && 0 <= i < |exprs| && 0 <= j < |exprs| && exprs[j].length >= 6
      && exprs[i].length + Length(op) + exprs[j].length <= L) ==>
      BinaryHandled(exprs, exprs[i], exprs[j], op)
  {
    forall op, i, j | IsBinary(op) && 0 <= i < |exprs| && 0 <= j < |exprs| && exprs[j].length >= 6
      && exprs[i].length + Length(op) + exprs[j].length <= L
      ensures BinaryHandled(exprs, exprs[i], exprs[j], op)
    {
      CloseBinaryAt(exprs0, exprs, fol, L, op, i, j);
    }
  }

  lemma CloseBinaryAt(exprs0: seq<Expr>, exprs: seq<Expr>, fol: seq<nat>, L: nat, op: Op, i: nat, j: nat)
    requires L >= 6 && Grown(exprs, fol, L, exprs0)
    requires CompleteUpTo(exprs0, L - 1)
    requires OpsHandled(exprs, exprs0, L, BINARY_LAST + 1)
    requires IsBinary(op) && i < |exprs| && j < |exprs| && exprs[j].length >= 6
    requires exprs[i].length + Length(op) + exprs[j].length <= L
    ensures BinaryHandled(exprs, exprs[i], exprs[j], op)
  {
    assert i < fol[L] && j < fol[L];
    assert exprs[i] == exprs0[i] && exprs[j] == exprs0[j];
    if exprs[i].length + Length(op) + exprs[j].length < L {
      BinaryHandledGrows(exprs0, exprs, exprs0[i], exprs0[j], op);
    } else {
      assert OpHandled(exprs, exprs0, L, op);
    }
  }

  /** The round's candidates, closed over everything shorter: every
      enumerable candidate up to the round's length is dominated. */
  lemma CloseRound(exprs0: seq<Expr>, exprs1: seq<Expr>, exprs: seq<Expr>, fol: seq<nat>, L: nat)
    requires L >= 6 && Grown(exprs, fol, L, exprs0) && exprs1 <= exprs
    requires CompleteUpTo(exprs0, L - 1)
    requires forall op, i :: IsUnary(op) && 0 <= i < |exprs0| && exprs0[i].length + Length(op) == L ==>
      UnaryHandled(exprs1, exprs0[i], op)
    requires OpsHandled(exprs, exprs0, L, BINARY_LAST + 1)
    ensures CompleteUpTo(exprs, L)
  {
    CloseUnary(exprs0, exprs1, exprs, fol, L);
    CloseBinary(exprs0, exprs, fol, L);
  }

  /** One turn of `for (int length = 6; remaining; ++length)`: open the
      bucket of `length`, then run the unary and the binary pass. */
  method Round(st0: State, min: int32, max: int32, fol0: seq<nat>, L: nat) returns (st: State, fol: seq<nat>)
    requires L >= 6 && |fol0| == L
    requires Valid(st0, min, max) && LengthIndexed(st0.exprs, fol0) && Bounded(st0.exprs, L - 1)
    requires CompleteUpTo(st0.exprs, L - 1)
    ensures fol == fol0 + [|st0.exprs|]
    ensures Valid(st, min, max) && LengthIndexed(st.exprs, fol) && Bounded(st.exprs, L)
    ensures CompleteUpTo(st.exprs, L)
  {
    fol := fol0 + [|st0.exprs|];
    OpenRound(st0.exprs, fol0, L);
    var st1 := UnaryPass(st0, min, max, fol, L, st0.exprs);
    st := BinaryPass(st1, min, max, fol, L, st0.exprs);
    CloseRound(st0.exprs, st1.exprs, st.exprs, fol, L);
  }

  /** `search(min, max)` up to its final printing loop. The loop of the
      source runs while values remain; here it also stops after the rounds of
      length `maxLength`, so that the method terminates on every input. */
  method Search(min: int32, max: int32, maxLength: nat) returns (st: State, fol: seq<nat>, length: nat)
    requires InRange(max - min + 1)
    ensures Valid(st, min, max)
    ensures 6 <= length && |fol| == length
    ensures LengthIndexed(st.exprs, fol) && Bounded(st.exprs, length - 1)
    ensures st.remaining == 0 || length > maxLength
    ensures CompleteUpTo(st.exprs, length - 1)
  {
    st := Start(min, max);
    StartValid(min, max);
    fol := [0, 0, 0, 0, 0, 0];
    length := 6;
    while st.remaining != 0 && length <= maxLength
      invariant 6 <= length && |fol| == length
      invariant Valid(st, min, max)
      invariant LengthIndexed(st.exprs, fol) && Bounded(st.exprs, length - 1)
      invariant CompleteUpTo(st.exprs, length - 1)
      decreases maxLength + 1 - length
    {
      st, fol := Round(st, min, max, fol, length);
      length := length + 1;
    }
  }

  // ---------------------------------------------------------------------------
  // What the search reports.

  /** The int32 values from `lo` to `hi`. */
  function Span(lo: int, hi: int): (r: set<int32>)
    requires INT_MIN <= lo && hi <= INT_MAX
    ensures forall x: int32 :: x in r <==> lo <= x <= hi
    ensures lo <= hi + 1 ==> |r| == hi - lo + 1
    decreases hi - lo
  {
    if lo > hi then {} else Span(lo, hi - 1) + {hi as int32}
  }

  /** A subset is no larger than its superset, and equals it when it is as
      large. */
  lemma {:induction false} SubsetSize<T>(a: set<T>, b: set<T>)
    requires a <= b
    ensures |a| <= |b|
    ensures |a| == |b| ==> a == b
    decreases a
  {
    if a != {} {
      var x :| x in a;
      SubsetSize(a - {x}, b - {x});
    }
  }

  /** The loop of `search` stops on `remaining == 0` only once every value
      of `[min, max]` has an entry. */
  lemma AllCovered(st: State, min: int32, max: int32)
    requires Valid(st, min, max) && st.remaining == 0
    ensures forall x: int32 :: min <= x <= max ==> x in st.best
  {
    CoveredAll(st.best, min, max);
  }

  lemma CoveredAll(best: map<int32, Best>, min: int32, max: int32)
    requires |Covered(best, min, max)| == max - min + 1
    ensures forall x: int32 :: min <= x <= max ==> x in best
  {
    var c, span := Covered(best, min, max), Span(min, max);
    assert c <= span;
    SubsetSize(c, span);
    forall x: int32 | min <= x <= max
      ensures x in best
    {
      assert x in span;
      assert x in c;
    }
  }

  /** Nodes are appended in order of length. */
  lemma ArenaSorted(exprs: seq<Expr>, fol: seq<nat>)
    requires LengthIndexed(exprs, fol) && Bounded(exprs, |fol| - 1)
    ensures forall i, j :: 0 <= i <= j < |exprs| ==> exprs[i].length <= exprs[j].length
  {
    forall i, j | 0 <= i <= j < |exprs|
      ensures exprs[i].length <= exprs[j].length
    {
      var k := exprs[i].length;
      assert i < fol[k] <==> exprs[i].length < k;
      assert j < fol[k] <==> exprs[j].length < k;
    }
  }

  /** The node recorded for a value is the first with that value, so no
      stored node with that value is shorter. */
  lemma FirstIsShortest(st: State, min: int32, max: int32, fol: seq<nat>, v: int32)
    requires Valid(st, min, max) && LengthIndexed(st.exprs, fol) && Bounded(st.exprs, |fol| - 1)
    requires v in st.best
    ensures forall i :: 1 <= i < |st.exprs| && st.exprs[i].value == v ==>
      st.exprs[st.best[v].id].length <= st.exprs[i].length
  {
    assert EntryOk(st.exprs, st.best, v);
    ArenaSorted(st.exprs, fol);
  }

  /** The final loop of `search`: what it prints for `x`, with `None` where
      it prints `(none)`. */
  function Answer(st: State, min: int32, max: int32, x: int32): (r: Option<string>)
    requires Valid(st, min, max)
    ensures r.Some? <==> x in st.best
    ensures r.Some? ==> st.exprs[st.best[x].id].value == x && |r.value| == st.exprs[st.best[x].id].length
  {
    var id := if x in st.best then st.best[x].id else 0;
    assert x in st.best ==> EntryOk(st.exprs, st.best, x);
    if id != 0 then
      assert LengthsAgree(st.exprs) by {
        forall i | 0 <= i < |st.exprs|
          ensures LengthAgreesAt(st.exprs, i)
        {
          assert NodeOk(st.exprs, i);
        }
      }
      RenderLength(st.exprs, id);
      Some(Render(st.exprs, id))
    else None
  }
}
