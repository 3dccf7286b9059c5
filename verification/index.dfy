/** The state of `search` and the `Add` lambda that feeds it: the arena of
    expression nodes, the best-value index keyed by value, the count of values
    of `[min, max]` still to cover, and the two cursors walking outward from 0
    past every covered value. */
module Index {
  import opened Wrappers
  import opened Int32
  import opened Grammar
  import opened Eval
  import opened Printing

  /** `Best`: the first node recorded for a value (0 while none is), and the
      highest precedence class among the nodes recorded for it. */
  datatype Best = Best(id: nat, prec: nat)

  datatype State = State(
    exprs: seq<Expr>,
    best: map<int32, Best>,
    remaining: int,
    firstMissingPos: int,
    firstMissingNeg: int)

  /** The state `search(min, max)` starts from: the literal alone in the
      arena, nothing in the index, every value of the range to cover. */
  function Start(min: int32, max: int32): State
    requires InRange(max - min + 1)
  {
    State([Literal], map[], max - min + 1, 0, 0)
  }

  // ---------------------------------------------------------------------------
  // The coverage cursors.

  /** `while (best.contains(++first_missing_pos)) {}`: the first value above
      `p` that has no entry. */
  function NextMissingUp(keys: set<int32>, p: int): (r: int)
    requires p <= INT_MAX
    ensures r > p && r !in keys
    ensures forall x :: p < x < r ==> x in keys
    decreases INT_MAX - p
  {
    if p + 1 in keys then NextMissingUp(keys, p + 1) else p + 1
  }

  /** `while (best.contains(--first_missing_neg)) {}`: the first value below
      `p` that has no entry. */
  function NextMissingDown(keys: set<int32>, p: int): (r: int)
    requires p >= INT_MIN
    ensures r < p && r !in keys
    ensures forall x :: r < x < p ==> x in keys
    decreases p - INT_MIN
  {
    if p - 1 in keys then NextMissingDown(keys, p - 1) else p - 1
  }

  /** Every value from 0 up to the positive cursor and from 0 down to the
      negative cursor has an entry; the cursors themselves do not. */
  predicate Frontier(best: map<int32, Best>, pos: int, neg: int) {
    && 0 <= pos && pos !in best && (forall x :: 0 <= x < pos ==> x in best)
    && neg <= 0 && neg !in best && (forall x :: neg < x <= 0 ==> x in best)
  }

  // ---------------------------------------------------------------------------
  // `Add`.

  /** `Add(op, len, lhs, rhs, val)`: look the value up (creating an empty
      entry), append the node when its operator binds more tightly than
      everything recorded for the value, make it the value's id if the value
      had none (one value fewer to cover if it lies in `[min, max]`), and move
      a cursor that stood on the value to the next value without an entry. */
  function Add(st: State, min: int32, max: int32, op: Op, len: nat, lhs: nat, rhs: nat, val: int32): (st': State)
    ensures st'.best.Keys == st.best.Keys + {val}
    // a value seen before: a node is appended only for a strictly higher
    // precedence, the id stays, and otherwise nothing but the cursors moves
    ensures val in st.best && st.best[val].id != 0 ==>
      && st'.best[val].id == st.best[val].id
      && st'.remaining == st.remaining
      && (Precedence(op) > st.best[val].prec ==>
            st'.exprs == st.exprs + [Expr(op, len, lhs, rhs, val)]
            && st'.best[val].prec == Precedence(op))
      && (Precedence(op) <= st.best[val].prec ==> st'.exprs == st.exprs && st'.best == st.best)
    // a new value: the node is appended and becomes the value's id
    ensures val !in st.best ==>
      && st'.exprs == st.exprs + [Expr(op, len, lhs, rhs, val)]
      && st'.best == st.best[val := Best(|st.exprs|, Precedence(op))]
      && st'.remaining == st.remaining - (if min <= val <= max then 1 else 0)
    // entries are never removed, ids never change once set, and precedences
    // never drop
    ensures forall v :: v in st.best ==>
      st'.best[v].prec >= st.best[v].prec && (st.best[v].id != 0 ==> st'.best[v].id == st.best[v].id)
    ensures Frontier(st.best, st.firstMissingPos, st.firstMissingNeg) ==>
      Frontier(st'.best, st'.firstMissingPos, st'.firstMissingNeg)
    // a known value that gets a node changes only its own precedence
    ensures val in st.best && st.best[val].id != 0 && Precedence(op) > st.best[val].prec ==>
      st'.best == st.best[val := Best(st.best[val].id, Precedence(op))]
    // the cursors stand on values without an entry, so a known value moves neither
    ensures Frontier(st.best, st.firstMissingPos, st.firstMissingNeg) && val in st.best ==>
      st'.firstMissingPos == st.firstMissingPos && st'.firstMissingNeg == st.firstMissingNeg
  {
    var b := if val in st.best then st.best[val] else Best(0, 0);
    var appended := Precedence(op) > b.prec;
    var exprs := if appended then st.exprs + [Expr(op, len, lhs, rhs, val)] else st.exprs;
    var isNew := appended && b.id == 0;
    var b' := if appended then Best(if isNew then |exprs| - 1 else b.id, Precedence(op)) else b;
    var remaining := if isNew && min <= val <= max then st.remaining - 1 else st.remaining;
    var best := st.best[val := b'];
    var cursors := MoveCursors(best.Keys, val, st.firstMissingPos, st.firstMissingNeg);
    CursorsAdvance(st.best, best, val, st.firstMissingPos, st.firstMissingNeg);
    State(exprs, best, remaining, cursors.0, cursors.1)
  }

  /** The two `if (val == first_missing_…)` steps of `Add`, once `val` has
      its entry. */
  function MoveCursors(keys: set<int32>, val: int32, pos: int, neg: int): (int, int) {
    (if val == pos then NextMissingUp(keys, pos) else pos,
     if val == neg then NextMissingDown(keys, neg) else neg)
  }

  lemma CursorsAdvance(best: map<int32, Best>, best': map<int32, Best>, val: int32, pos: int, neg: int)
    requires best'.Keys == best.Keys + {val}
    ensures Frontier(best, pos, neg) ==>
      var c := MoveCursors(best'.Keys, val, pos, neg);
      Frontier(best', c.0, c.1)
  {
  }

  // ---------------------------------------------------------------------------
  // The invariant of the search state.

  /** Node `i` is the literal (index 0 only) or a unary or binary operator
      applied to earlier nodes, with the length those add up to and the value
      `eval` gives them; unary nodes record 0 as their unused second operand. */
  predicate NodeOk(exprs: seq<Expr>, i: nat)
    requires i < |exprs| && OperandsBefore(exprs, i)
  {
    var e := exprs[i];
    && LengthAgreesAt(exprs, i)
    && if i == 0 then e == Literal
       else if IsUnary(e.op) then e.b == 0 && EvalUnary(e.op, exprs[e.a]) == Some(e.value)
       else IsBinary(e.op) && EvalBinary(e.op, exprs[e.a], exprs[e.b]) == Some(e.value)
  }

  predicate Arena(exprs: seq<Expr>) {
    && |exprs| >= 1
    && Acyclic(exprs)
    && forall i :: 0 <= i < |exprs| ==> NodeOk(exprs, i)
  }

  /** The entry of `v` names the first node (after the literal) with value
      `v`, and its precedence is the highest among the nodes with value `v`. */
  predicate EntryOk(exprs: seq<Expr>, best: map<int32, Best>, v: int32)
    requires v in best
  {
    var b := best[v];
    && 1 <= b.id < |exprs| && exprs[b.id].value == v
    && (forall i :: 1 <= i < b.id ==> exprs[i].value != v)
    && (forall i :: 1 <= i < |exprs| && exprs[i].value == v ==> Precedence(exprs[i].op) <= b.prec)
    && (exists i :: 1 <= i < |exprs| && exprs[i].value == v && Precedence(exprs[i].op) == b.prec)
  }

  /** The index has exactly the values of the nodes after the literal, and
      nodes of equal value have strictly increasing precedence. */
  predicate Indexed(exprs: seq<Expr>, best: map<int32, Best>) {
    && (forall v :: v in best ==> EntryOk(exprs, best, v))
    && (forall i :: 1 <= i < |exprs| ==> exprs[i].value in best)
    && (forall i, j :: 1 <= i < j < |exprs| && exprs[i].value == exprs[j].value ==>
          Precedence(exprs[i].op) < Precedence(exprs[j].op))
  }

  /** The values of `[min, max]` that have an entry. */
  function Covered(best: map<int32, Best>, min: int, max: int): set<int32> {
    set v | v in best && min <= v <= max
  }

  predicate Valid(st: State, min: int32, max: int32) {
    && Arena(st.exprs)
    && Indexed(st.exprs, st.best)
    && Frontier(st.best, st.firstMissingPos, st.firstMissingNeg)
    && st.remaining == (max - min + 1) - |Covered(st.best, min, max)|
  }

  /** A node `Add` may be given: an operator applied to nodes already in the
      arena, with the value `eval` computes and the length its parts add up
      to. */
  predicate Candidate(exprs: seq<Expr>, op: Op, len: nat, lhs: nat, rhs: nat, val: int32) {
    var ext := exprs + [Expr(op, len, lhs, rhs, val)];
    && |exprs| >= 1
    && op != NotLambda
    && OperandsBefore(ext, |exprs|)
    && NodeOk(ext, |exprs|)
  }

  lemma StartValid(min: int32, max: int32)
    requires InRange(max - min + 1)
    ensures Valid(Start(min, max), min, max)
  {
    var st := Start(min, max);
    assert OperandsBefore(st.exprs, 0);
    assert Covered(st.best, min, max) == {};
  }

  /** `Add` keeps the state valid. */
  lemma {:induction false} AddValid(st: State, min: int32, max: int32, op: Op, len: nat, lhs: nat, rhs: nat, val: int32)
    requires Valid(st, min, max)
    requires Candidate(st.exprs, op, len, lhs, rhs, val)
    ensures Valid(Add(st, min, max, op, len, lhs, rhs, val), min, max)
  {
    var st' := Add(st, min, max, op, len, lhs, rhs, val);
    var n := |st.exprs|;
    var node := Expr(op, len, lhs, rhs, val);
    if st'.exprs == st.exprs + [node] {
      ArenaAppend(st.exprs, node);
      IndexedAppend(st, min, max, op, len, lhs, rhs, val);
    } else {
      assert st'.exprs == st.exprs && st'.best == st.best;
    }
    CoveredAdd(st.best, st'.best, val, min, max);
  }

  lemma ArenaAppend(exprs: seq<Expr>, node: Expr)
    requires Arena(exprs)
    requires OperandsBefore(exprs + [node], |exprs|) && NodeOk(exprs + [node], |exprs|)
    ensures Arena(exprs + [node])
  {
    var ext := exprs + [node];
    forall i | 0 <= i < |ext|
      ensures OperandsBefore(ext, i) && NodeOk(ext, i)
    {
      if i < |exprs| {
        assert OperandsBefore(exprs, i) && NodeOk(exprs, i);
        assert ext[i] == exprs[i];
        assert LengthAgreesAt(exprs, i);
      }
    }
  }

  lemma {:induction false} IndexedAppend(st: State, min: int32, max: int32, op: Op, len: nat, lhs: nat, rhs: nat, val: int32)
    requires |st.exprs| >= 1 && Indexed(st.exprs, st.best)
    requires Add(st, min, max, op, len, lhs, rhs, val).exprs == st.exprs + [Expr(op, len, lhs, rhs, val)]
    ensures Indexed(Add(st, min, max, op, len, lhs, rhs, val).exprs, Add(st, min, max, op, len, lhs, rhs, val).best)
  {
    var st' := Add(st, min, max, op, len, lhs, rhs, val);
    var node := Expr(op, len, lhs, rhs, val);
    if val in st.best {
      assert EntryOk(st.exprs, st.best, val);
    }
    var id := if val in st.best then st.best[val].id else |st.exprs|;
    assert st'.best == st.best[val := Best(id, Precedence(op))];
    IndexedExtend(st.exprs, st.best, node);
  }

  /** Appending a node whose value is new, or whose precedence beats every
      node recorded for its value, keeps the index exact. */
  lemma IndexedExtend(exprs: seq<Expr>, best: map<int32, Best>, node: Expr)
    requires |exprs| >= 1 && Indexed(exprs, best)
    requires node.value in best ==> Precedence(node.op) > best[node.value].prec
    ensures
      var id := if node.value in best then best[node.value].id else |exprs|;
      Indexed(exprs + [node], best[node.value := Best(id, Precedence(node.op))])
  {
    var val := node.value;
    var id := if val in best then best[val].id else |exprs|;
    var exprs', best' := exprs + [node], best[val := Best(id, Precedence(node.op))];
    var n := |exprs|;
    forall v | v in best'
      ensures EntryOk(exprs', best', v)
    {
      if v == val {
        EntryExtendSame(exprs, best, node);
      } else {
        EntryExtendOther(exprs, best, node, v);
      }
    }
    forall i, j | 1 <= i < j < |exprs'| && exprs'[i].value == exprs'[j].value
      ensures Precedence(exprs'[i].op) < Precedence(exprs'[j].op)
    {
      if j == n {
        assert exprs[i].value in best;
        assert EntryOk(exprs, best, val);
      }
    }
  }

  lemma EntryExtendSame(exprs: seq<Expr>, best: map<int32, Best>, node: Expr)
    requires |exprs| >= 1 && Indexed(exprs, best)
    requires node.value in best ==> Precedence(node.op) > best[node.value].prec
    ensures
      var id := if node.value in best then best[node.value].id else |exprs|;
      EntryOk(exprs + [node], best[node.value := Best(id, Precedence(node.op))], node.value)
  {
    var val := node.value;
    var n := |exprs|;
    var exprs' := exprs + [node];
    if val in best {
      assert EntryOk(exprs, best, val);
    } else {
      forall i | 1 <= i < n
        ensures exprs[i].value != val
      {
        assert exprs[i].value in best;
      }
    }
    assert exprs'[n] == node;
  }

  lemma EntryExtendOther(exprs: seq<Expr>, best: map<int32, Best>, node: Expr, v: int32)
    requires |exprs| >= 1 && Indexed(exprs, best)
    requires v in best && v != node.value
    ensures
      var id := if node.value in best then best[node.value].id else |exprs|;
      EntryOk(exprs + [node], best[node.value := Best(id, Precedence(node.op))], v)
  {
    assert EntryOk(exprs, best, v);
    var w :| 1 <= w < |exprs| && exprs[w].value == v && Precedence(exprs[w].op) == best[v].prec;
    assert (exprs + [node])[w] == exprs[w];
  }

  lemma CoveredAdd(best: map<int32, Best>, best': map<int32, Best>, val: int32, min: int32, max: int32)
    requires best'.Keys == best.Keys + {val}
    ensures val in best ==> Covered(best', min, max) == Covered(best, min, max)
    ensures val !in best && min <= val <= max ==>
      |Covered(best', min, max)| == |Covered(best, min, max)| + 1
    ensures val !in best && !(min <= val <= max) ==>
      Covered(best', min, max) == Covered(best, min, max)
  {
    if val !in best && min <= val <= max {
      assert Covered(best', min, max) == Covered(best, min, max) + {val};
    }
  }
}
