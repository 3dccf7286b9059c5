/** The final report of `search`, for one value of the range. As written, the
    `best` index uses id 0 to mean "no entry", and node 0 is the literal, so
    the literal `![]{}` is never reported: 0 comes out as `-![]{}`. The
    corrected report prints the literal itself for 0, and is then a shortest
    expression for every value, the literal included. */
module Report {
  import opened Wrappers
  import opened Int32
  import opened Grammar
  import opened Eval
  import opened Index
  import opened Search
  import opened Optimality

  /** Every expression prints at least the five characters of the literal,
      and anything built on it at least one more. */
  lemma {:induction false} SizeAtLeastLiteral(t: Tree)
    ensures Size(t) >= 5
    ensures t != Lit ==> Size(t) >= 6
  {
    match t
    case Lit =>
    case Unary(_, a) =>
      SizeAtLeastLiteral(a);
    case Binary(_, l, r) =>
      SizeAtLeastLiteral(l);
      SizeAtLeastLiteral(r);
  }

  /** The report as written, for 0: it is at least six characters long,
      whereas the literal alone is a five-character expression of value 0. */
  lemma ZeroReportedLong(st: State, min: int32, max: int32)
    requires Valid(st, min, max) && 0 in st.best
    ensures Answer(st, min, max, 0).Some?
    ensures |Answer(st, min, max, 0).value| >= 6
    ensures Value(Lit) == Some(0) && Text(Lit) == "![]{}" && Size(Lit) == 5
  {
    var id := st.best[0].id;
    assert EntryOk(st.exprs, st.best, 0);
    TreeOfNode(st.exprs, id);
    SizeAtLeastLiteral(TreeOf(st.exprs, id));
  }

  /** The report for `x` with the literal printed for 0. */
  function ShortestReport(st: State, min: int32, max: int32, x: int32): (r: Option<string>)
    requires Valid(st, min, max)
    ensures r.Some? <==> x == 0 || x in st.best
    ensures x == 0 ==> r == Some(Text(Lit))
    ensures r.Some? ==> |r.value| == if x == 0 then 5 else st.exprs[st.best[x].id].length
  {
    if x == 0 then Some(Symbol(NotLambda)) else Answer(st, min, max, x)
  }

  /** Once nothing in the range is missing, the corrected report gives every
      `x` of the range the text of a tree of value `x` that no tree of value
      `x`, the bare literal included, undercuts. */
  lemma ShortestReportIsShortest(st: State, min: int32, max: int32, fol: seq<nat>, length: nat, x: int32, t: Tree)
    requires Valid(st, min, max) && 6 <= length && |fol| == length
    requires LengthIndexed(st.exprs, fol) && Bounded(st.exprs, length - 1) && CompleteUpTo(st.exprs, length - 1)
    requires st.remaining == 0 && min <= x <= max
    ensures ShortestReport(st, min, max, x).Some?
    ensures x == 0 ==> ShortestReport(st, min, max, x).value == Text(Lit)
    ensures x != 0 ==>
      var u := TreeOf(st.exprs, st.best[x].id);
      && WellFormed(u) && Value(u) == Some(x)
      && Text(u) == ShortestReport(st, min, max, x).value
    ensures WellFormed(t) && Value(t) == Some(x) ==> |ShortestReport(st, min, max, x).value| <= Size(t)
  {
    AnswerIsShortest(st, min, max, fol, length, x, t);
    SizeAtLeastLiteral(t);
  }
}
