# numbers.cpp: shortest `![]{}` expressions, modelled in Dafny

`numbers.cpp` finds, for every integer in a range `[min, max]`, a shortest C++
expression built from a single literal and a fixed set of operators:

- the literal is `![]{}`, which is "not a lambda", i.e. `false`, i.e. 0;
- the unary operators are `(…)`, `-` and `~`;
- the binary operators are `* / % + - << >> & ^ |`.

The program grows an arena of expression nodes length by length:

- `first_of_length` buckets the arena by printed length;
- every unary operator is applied to every node of the right length, and every
  binary operator to every pair of nodes whose lengths add up to the current
  length, with a right operand of at least 6 characters;
- `eval` computes the value, or rejects the candidate when printing it would
  need extra parentheses, when the C++ arithmetic would overflow or be
  undefined, or for two shifts C++20 does define: a shift of a negative
  operand, and a left shift that loses bits;
- the `Add` lambda appends the node when its precedence beats everything
  recorded for its value, indexes the value in `best`, and counts down the
  values of the range still missing;
- the search stops when none are missing, and `print` writes the recorded
  expression for each value.

The Dafny project models all of this as pure functions and small methods.

| file | module | contents |
|---|---|---|
| `grammar.dfy` | `Grammar` | the operator enumeration and its four tables (`symbol`, `precedence`, `length`, `operands`) |
| `int32.dfy` | `Int32` | 32-bit signed arithmetic: overflow checks, truncating division, shifts, and the bitwise operators bit by bit on the two's-complement image |
| `eval.dfy` | `Eval` | the `Expr` node, `length(op, lhs, rhs)` and both `eval` overloads |
| `cpp.dfy` | `CppSemantics` | the C++20 meaning of each operator on `int` (ISO/IEC 14882:2020, sections 7.6.2.2, 7.6.5, 7.6.6 and 7.6.7), and the proof that every value `eval` accepts is C++'s value of the operator applied to the operands' values |
| `printing.dfy` | `Printing` | `print(exprs, id)` as a function returning the string |
| `index.dfy` | `Index` | the search state (arena, `best`, `remaining`, the two coverage cursors), `Add`, and the invariant `Add` preserves |
| `search.dfy` | `Search` | the bucketed unary and binary loops, one round per length, the driver, and the final report |
| `optimality.dfy` | `Optimality` | expression trees, and the proof that the reported expression is a shortest one |
| `report.dfy` | `Report` | the report for 0 as written, and the corrected report that is shortest for every value |

The headline result is `Optimality.AnswerIsShortest`. When the search ends
with nothing missing, every `x` in `[min, max]` has an answer. That answer is
the text of a well-formed tree whose evaluation gives `x`. No other
expression tree of value `x` is shorter, except the bare literal (see
"Behaviour that follows the code" below). With the literal reported for 0,
`Report.ShortestReportIsShortest` drops that exception.

Behaviour that follows the code, where a plain reading of the program's
description suggests otherwise:

- 0 is reported as `-![]{}`, not as `![]{}`. The `best` index uses id 0 to
  mean "no entry", and the literal is node 0, so the literal is never
  recorded as an answer. See "## Findings".
- The left-shift guard `((unsigned)a << b) >> b == a` admits a shift into the
  sign bit: `1 << 31` is accepted with value `INT_MIN`. That is also its
  C++20 value (`CppSemantics.ShiftIntoSignBit`).
- The binary loop starts the left length at 5 but stops while the right
  length is still at least 6. So the literal is never a right operand. This
  loses nothing, because with a right operand of 0 a binary operator gives 0
  or the left operand (`Optimality.RhsZero`). The optimality proof covers
  trees with such operands.
- `eval`'s precedence test treats the literal as a top-class operand, so `~`
  and `-` apply to it directly (`-![]{}`, `~![]{}`).

## Model

Source paths are relative to the repository root; all of them are in
`content/slides/2023-cppnow-lightning-lut/numbers.cpp`.

| member | source | states |
|---|---|---|
| Grammar.OpAt | content/slides/2023-cppnow-lightning-lut/numbers.cpp:7-26 | the operator at a position of the enumeration has that position |
| Grammar.OrdinalInjective | content/slides/2023-cppnow-lightning-lut/numbers.cpp:7-26 | positions name operators one to one, so the casts `(Op)opv` in the loops reach every operator exactly once |
| Grammar.Symbol | content/slides/2023-cppnow-lightning-lut/numbers.cpp:28-45 | every symbol is exactly as long as `length(op)` says, so the length table measures what `print` writes |
| Grammar.Precedence | content/slides/2023-cppnow-lightning-lut/numbers.cpp:47-55 | precedence classes lie in 1..7 (they fit the 3-bit `prec` field) |
| Grammar.PrecedenceTable | content/slides/2023-cppnow-lightning-lut/numbers.cpp:47-55 | each precedence class holds exactly the conventional C++ group: literal and unary 7, multiplicative 6, additive 5, shifts 4, then `&`, `^`, `|` |
| Grammar.Length | content/slides/2023-cppnow-lightning-lut/numbers.cpp:57-61 | every operator prints in 1 to 5 characters (the exact table is `Grammar.LengthTable`) |
| Grammar.Operands | content/slides/2023-cppnow-lightning-lut/numbers.cpp:63-67 | every operator takes at most two operands (which ones is `Grammar.OperandsBySection`) |
| Grammar.LengthTable | content/slides/2023-cppnow-lightning-lut/numbers.cpp:57-61 | the literal is 5 characters, `()`, `<<` and `>>` are 2, every other operator 1 |
| Grammar.OperandsBySection | content/slides/2023-cppnow-lightning-lut/numbers.cpp:63-67 | arity 0, 1 or 2 exactly for the literal, the unary section and the binary section of the enumeration |
| Eval.ExprLength | content/slides/2023-cppnow-lightning-lut/numbers.cpp:77-83 | the length of a node built from its operands; `Printing.RenderLength` shows it is the length of what `print` writes |
| Eval.EvalUnary | content/slides/2023-cppnow-lightning-lut/numbers.cpp:85-100 | rejects `-` and `~` on an operand below the top class; `()` passes the value through; `-` fails exactly on `INT_MIN` and otherwise negates; `~x` is `-x-1` |
| Eval.EvalBinary | content/slides/2023-cppnow-lightning-lut/numbers.cpp:102-106 | rejects a left operand binding less tightly, or a right operand binding no more tightly, than the operator; otherwise the result is the operator's arithmetic |
| Eval.ApplyBinary | content/slides/2023-cppnow-lightning-lut/numbers.cpp:107-146 | the operator `switch` of `eval`; its behaviour per operator is stated by `Eval.ArithmeticSpec`, `Eval.DivisionSpec`, `Eval.ShiftSpec` and `Eval.BitwiseSpec` |
| Eval.ArithmeticSpec | content/slides/2023-cppnow-lightning-lut/numbers.cpp:109-128 | `* + -` succeed exactly when the exact result fits in int32, and then give the exact result (the `/` and `%` cases in between are `Eval.DivisionSpec`'s) |
| Eval.DivisionSpec | content/slides/2023-cppnow-lightning-lut/numbers.cpp:113-120 | `/` and `%` fail exactly on a zero divisor or `INT_MIN / -1`; the quotient leaves a remainder smaller than the divisor with the dividend's sign, and `%` gives such a remainder congruent to the dividend |
| Eval.ShiftSpec | content/slides/2023-cppnow-lightning-lut/numbers.cpp:129-137 | `<<` succeeds exactly for an amount in 0..31, a non-negative operand and a product below 2^32, giving the product modulo 2^32 (the exact product when it is at most `INT_MAX`); `>>` succeeds exactly for an amount in 0..31 and a non-negative operand, giving the floor quotient by 2^b |
| Eval.BitwiseSpec | content/slides/2023-cppnow-lightning-lut/numbers.cpp:138-143 | `& ^ \|` always succeed; the result is negative exactly when the operation on the operands' signs says so; with 0 on the right, `&` gives 0 and `^`, `\|` give the left operand |
| Eval.ShiftRight | content/slides/2023-cppnow-lightning-lut/numbers.cpp:134-137 | the right shift exists exactly for an amount in 0..31 and a non-negative operand, and is then the floor of `a / 2^b` |
| Eval.Quotient | content/slides/2023-cppnow-lightning-lut/numbers.cpp:113-116 | the quotient exists exactly when defined and leaves a remainder smaller than the divisor with the dividend's sign |
| Eval.Remainder | content/slides/2023-cppnow-lightning-lut/numbers.cpp:117-120 | the remainder exists exactly when the quotient does, is congruent to the dividend, smaller than the divisor, and has the dividend's sign |
| Eval.ShiftLeft | content/slides/2023-cppnow-lightning-lut/numbers.cpp:129-133 | the guard admits exactly the shifts that lose no bit of the 32-bit unsigned image; the result is the product modulo 2^32, and the exact product when it is at most `INT_MAX` |
| Int32.CheckedMul | content/slides/2023-cppnow-lightning-lut/numbers.cpp:110 | `__builtin_smul_overflow` reports overflow exactly when the product is outside int32, and otherwise stores the product |
| Int32.CheckedAdd | content/slides/2023-cppnow-lightning-lut/numbers.cpp:122 | the same for the sum |
| Int32.CheckedSub | content/slides/2023-cppnow-lightning-lut/numbers.cpp:126 | the same for the difference |
| Int32.TruncDiv | content/slides/2023-cppnow-lightning-lut/numbers.cpp:116 | C++'s truncating `/`; with `Int32.TruncMod` it leaves a remainder smaller than the divisor and of the dividend's sign, and `Int32.TruncDivUnique` shows no other quotient does |
| Int32.TruncMod | content/slides/2023-cppnow-lightning-lut/numbers.cpp:116-120 | `a == b * (a / b) + a % b`, with the remainder smaller than the divisor and of the dividend's sign |
| Int32.TruncDivUnique | content/slides/2023-cppnow-lightning-lut/numbers.cpp:116-120 | any quotient and remainder with those properties are C++'s `/` and `%` |
| Int32.ShlRoundTripsIff | content/slides/2023-cppnow-lightning-lut/numbers.cpp:130-131 | `((unsigned)a << b) >> b == a` holds exactly when `a * 2^b < 2^32` |
| Int32.SignedShl | content/slides/2023-cppnow-lightning-lut/numbers.cpp:132 | `a << b` on int32: the int32 congruent to `a * 2^b` modulo 2^32 |
| Int32.ShrNonNeg | content/slides/2023-cppnow-lightning-lut/numbers.cpp:134-136 | `a >> b` of a non-negative `a` is the floor of `a / 2^b` |
| Int32.ComplementInt | content/slides/2023-cppnow-lightning-lut/numbers.cpp:95-96 | `~a == -a - 1` |
| Int32.UnsignedRoundTrip | content/slides/2023-cppnow-lightning-lut/numbers.cpp:171 | the cast to `uint32_t` used as the map key is undone by the cast back, so it is injective |
| Int32.XorAndSum | content/slides/2023-cppnow-lightning-lut/numbers.cpp:138-141 | on 32-bit words, `x + y == (x ^ y) + 2 * (x & y)` |
| Int32.OrXorAnd | content/slides/2023-cppnow-lightning-lut/numbers.cpp:138-143 | `x \| y == (x ^ y) + (x & y)` on words |
| Int32.BitwiseSign | content/slides/2023-cppnow-lightning-lut/numbers.cpp:138-143 | the sign bit of `&`, `^`, `\|` is the same operation on the operands' sign bits |
| Int32.BitwiseIntZero | content/slides/2023-cppnow-lightning-lut/numbers.cpp:138-143 | `a & 0 == 0`, `a ^ 0 == a`, `a \| 0 == a` |
| Int32.BitwiseInt | content/slides/2023-cppnow-lightning-lut/numbers.cpp:138-143 | `& ^ \|` on int32: the bit-by-bit operation `Int32.Bitwise` on the two's-complement images; `Int32.BitwiseSign`, `Int32.BitwiseIntZero` and `Int32.XorAndSumInt` state its properties |
| Int32.XorAndSumInt | content/slides/2023-cppnow-lightning-lut/numbers.cpp:138-141 | on int32, `a + b` and `(a ^ b) + 2 * (a & b)` agree modulo 2^32 |
| CppSemantics.UnaryAgreesWithCpp | content/slides/2023-cppnow-lightning-lut/numbers.cpp:85-100 | every unary value `eval` accepts is C++'s value of the operator applied to the operand's value, and among composable candidates it rejects only those where that is undefined |
| CppSemantics.BinaryAgreesWithCpp | content/slides/2023-cppnow-lightning-lut/numbers.cpp:102-147 | every binary value `eval` accepts is C++'s value of the operator applied to the operands' values |
| CppSemantics.ApplyBinaryIsCpp | content/slides/2023-cppnow-lightning-lut/numbers.cpp:107-146 | wherever the operator `switch` of `eval` succeeds, its result is C++'s value of that operator on the two operand values |
| CppSemantics.DoubleMinusAccepted | content/slides/2023-cppnow-lightning-lut/numbers.cpp:85-100 | `eval` accepts `-` applied to a `-` node (it asks only for precedence 7), and `print` then writes `--![]{}`, two adjacent minus signs |
| CppSemantics.MinusNegAccepted | content/slides/2023-cppnow-lightning-lut/numbers.cpp:102-106 | `eval` accepts binary `-` with a `-`-led right operand, and `print` then writes `![]{}--![]{}` |
| CppSemantics.QuotientIsCpp | content/slides/2023-cppnow-lightning-lut/numbers.cpp:113-116 | the accepted quotient is C++'s `/` |
| CppSemantics.RemainderOpIsCpp | content/slides/2023-cppnow-lightning-lut/numbers.cpp:117-120 | the accepted remainder is C++'s `%` |
| CppSemantics.ShiftLeftIsCpp | content/slides/2023-cppnow-lightning-lut/numbers.cpp:129-133 | the accepted left shift is C++20's `<<` |
| CppSemantics.ShiftRightIsCpp | content/slides/2023-cppnow-lightning-lut/numbers.cpp:134-137 | the accepted right shift is C++20's `>>` |
| CppSemantics.BinaryRejectsOnlyUndefined | content/slides/2023-cppnow-lightning-lut/numbers.cpp:102-147 | among composable candidates, `eval` rejects an operator whose C++ value on the operands' values is defined only for a shift of a negative operand or a left shift that loses bits |
| CppSemantics.ShiftIntoSignBit | content/slides/2023-cppnow-lightning-lut/numbers.cpp:129-133 | `1 << 31` is accepted, with value `INT_MIN`, as in C++20 |
| CppSemantics.ShiftOfNegativeRejected | content/slides/2023-cppnow-lightning-lut/numbers.cpp:134-137 | `-1 >> 0` is defined in C++20 but rejected |
| Printing.Render | content/slides/2023-cppnow-lightning-lut/numbers.cpp:149-164 | `print` as a string: parentheses around the operand of `()`, the symbol between binary operands, the symbol before the operand of `-` and `~`; `Printing.RenderLength` gives its length and `Optimality.TreeOfNode` shows it is the text of the node's tree |
| Printing.RenderLength | content/slides/2023-cppnow-lightning-lut/numbers.cpp:77-83 | in an arena whose stored lengths are `length(op, lhs, rhs)`, `print` writes exactly the stored number of characters |
| Index.NextMissingUp | content/slides/2023-cppnow-lightning-lut/numbers.cpp:187-189 | the positive cursor moves to the first value above it without an entry, past only values that have one |
| Index.NextMissingDown | content/slides/2023-cppnow-lightning-lut/numbers.cpp:190-192 | the negative cursor moves to the first value below it without an entry, past only values that have one |
| Index.Add | content/slides/2023-cppnow-lightning-lut/numbers.cpp:176-193 | a new value gets the appended node as its id and, if in range, lowers `remaining` by one; a known value gets a node only for a strictly higher precedence and keeps its id and count; entries are never lost, ids never change, precedences never drop; a known value that gets a node changes only its own precedence, and a known value moves neither cursor; the cursors keep every value between 0 and them covered |
| Index.MoveCursors | content/slides/2023-cppnow-lightning-lut/numbers.cpp:187-192 | a cursor standing on the new value walks to the next value without an entry (`Index.NextMissingUp`, `Index.NextMissingDown`); `Index.CursorsAdvance` shows the coverage frontier is kept |
| Index.CursorsAdvance | content/slides/2023-cppnow-lightning-lut/numbers.cpp:187-192 | moving the cursors after a new entry keeps everything strictly between them covered and the cursors themselves uncovered |
| Index.Start | content/slides/2023-cppnow-lightning-lut/numbers.cpp:167-174 | the initial state: the literal alone, no entries, `max - min + 1` values to cover, both cursors at 0; `Index.StartValid` shows it satisfies the invariant |
| Index.StartValid | content/slides/2023-cppnow-lightning-lut/numbers.cpp:167-174 | the initial state (the literal alone, an empty index, `max - min + 1` to cover) satisfies the invariant |
| Index.AddValid | content/slides/2023-cppnow-lightning-lut/numbers.cpp:176-193 | `Add` of a well-formed candidate keeps the invariant: an acyclic arena of correctly evaluated, correctly measured nodes; an index naming for each value its first node and its highest precedence; and `remaining` equal to the in-range values still without an entry |
| Index.CoveredAdd | content/slides/2023-cppnow-lightning-lut/numbers.cpp:180-184 | the covered part of the range grows by one exactly when a new in-range value is indexed |
| Search.BucketsOrdered | content/slides/2023-cppnow-lightning-lut/numbers.cpp:195-203 | `first_of_length[k] .. first_of_length[k+1]` is exactly the nodes of length `k` |
| Search.Bucket | content/slides/2023-cppnow-lightning-lut/numbers.cpp:208-210 | during a round, each bucket below the current length lies in the arena as it was at the round's start and holds exactly its nodes of that length |
| Search.AddInRound | content/slides/2023-cppnow-lightning-lut/numbers.cpp:176-193 | an `Add` during a round keeps the invariant and the buckets, and leaves the candidate's value recorded by a node at least as tight and as short |
| Search.UnaryStep | content/slides/2023-cppnow-lightning-lut/numbers.cpp:212-216 | after one unary candidate, its value (if any) is recorded at least as tightly and as shortly |
| Search.UnaryRow | content/slides/2023-cppnow-lightning-lut/numbers.cpp:207-217 | the loop over a bucket handles every unary candidate for one operator |
| Search.UnaryPass | content/slides/2023-cppnow-lightning-lut/numbers.cpp:205-218 | the unary loops handle every unary candidate of the current length |
| Search.BinaryStep | content/slides/2023-cppnow-lightning-lut/numbers.cpp:231-236 | after one binary candidate, its value (if any) is recorded at least as tightly and as shortly |
| Search.BinaryRow | content/slides/2023-cppnow-lightning-lut/numbers.cpp:227-237 | the right-operand loop handles every right operand of one length |
| Search.BinaryColumn | content/slides/2023-cppnow-lightning-lut/numbers.cpp:224-238 | the left-operand loop handles every pair with one left length |
| Search.BinaryOp | content/slides/2023-cppnow-lightning-lut/numbers.cpp:220-239 | the length-split loop handles every pair whose right operand is at least 6 long |
| Search.BinaryPass | content/slides/2023-cppnow-lightning-lut/numbers.cpp:219-240 | the binary loops handle every such pair for every binary operator |
| Search.CloseRound | content/slides/2023-cppnow-lightning-lut/numbers.cpp:197-241 | the nodes a round adds are too long to be operands of that round's candidates, so after the round every candidate up to the current length is handled |
| Search.Round | content/slides/2023-cppnow-lightning-lut/numbers.cpp:197-241 | a round appends the bucket start, keeps the invariant, bounds every node by the current length and handles every candidate up to it |
| Search.Search | content/slides/2023-cppnow-lightning-lut/numbers.cpp:166-241 | the search ends with a valid state, consistent buckets and every candidate up to the last length handled, and it stops only when nothing in the range is missing (or at the length bound) |
| Search.AllCovered | content/slides/2023-cppnow-lightning-lut/numbers.cpp:197 | once `remaining` reaches 0, every value of `[min, max]` has an entry |
| Search.ArenaSorted | content/slides/2023-cppnow-lightning-lut/numbers.cpp:195-203 | the arena is sorted by printed length |
| Search.FirstIsShortest | content/slides/2023-cppnow-lightning-lut/numbers.cpp:180-181 | the node recorded for a value is no longer than any node after the literal with that value |
| Search.Answer | content/slides/2023-cppnow-lightning-lut/numbers.cpp:243-251 | a value has an answer exactly when it has an entry; the answer's node has that value and the answer has the node's length |
| Optimality.Text | content/slides/2023-cppnow-lightning-lut/numbers.cpp:149-164 | a tree's printed text is as long as its size |
| Optimality.TreeOfNode | content/slides/2023-cppnow-lightning-lut/numbers.cpp:149-164 | each arena node is a well-formed tree, the literal only at index 0, with the node's operator, length and value, and `print` writes that tree's text |
| Optimality.UnaryMono | content/slides/2023-cppnow-lightning-lut/numbers.cpp:85-100 | swapping an operand for a tighter one of the same value does not change a successful unary `eval` |
| Optimality.BinaryMono | content/slides/2023-cppnow-lightning-lut/numbers.cpp:102-147 | the same for binary `eval` |
| Optimality.RhsZero | content/slides/2023-cppnow-lightning-lut/numbers.cpp:221-222 | a right operand of 0 gives 0 or the left operand, so never letting the literal be a right operand loses nothing |
| Optimality.Witness | content/slides/2023-cppnow-lightning-lut/numbers.cpp:197-241 | after the search, every evaluable tree no longer than the last length has a node of the same value, at least as tight and no longer |
| Optimality.Dominates | content/slides/2023-cppnow-lightning-lut/numbers.cpp:197-241 | the same for every non-literal tree, with a node after the literal |
| Optimality.RecordedIsShortest | content/slides/2023-cppnow-lightning-lut/numbers.cpp:176-241 | the recorded node for `x` is no longer than any non-literal tree of value `x` |
| Optimality.AnswerIsShortest | content/slides/2023-cppnow-lightning-lut/numbers.cpp:243-251 | when nothing is missing, each `x` of the range has an answer: the text of a well-formed non-literal tree of value `x`, no longer than any non-literal tree of value `x` |
| Report.SizeAtLeastLiteral | content/slides/2023-cppnow-lightning-lut/numbers.cpp:57-61 | every expression is at least 5 characters (the literal), and anything with an operator at least 6 |
| Report.ZeroReportedLong | content/slides/2023-cppnow-lightning-lut/numbers.cpp:246-247 | as written, the expression reported for 0 is at least 6 characters, although the 5-character literal has value 0 |
| Report.ShortestReport | content/slides/2023-cppnow-lightning-lut/numbers.cpp:243-251 | the corrected report exists exactly for 0 and the indexed values; for 0 it is the literal's text `![]{}`, 5 characters |
| Report.ShortestReportIsShortest | content/slides/2023-cppnow-lightning-lut/numbers.cpp:243-251 | when nothing is missing, the corrected report for each `x` of the range is the text of a tree of value `x`, no longer than any tree of value `x`, the literal included |

## Left out

- Output: the progress line of each round, and the writing of the answers to
  standard output. `print` is a function returning the string, and the final
  loop is `Search.Answer` for one value.
- `main` and its `atoi` argument parsing.
- The bit-field widths: `op : 4`, `length : 12` and the `Best` fields
  `id : 29` and `prec : 3`. The model uses unbounded naturals. Operators fit
  4 bits and precedences fit 3 (`Grammar.Precedence`). Lengths above 4095 and
  ids above 2^29 - 1, which would wrap in the program, are not modelled.
- The `uint32_t` map key. The map is keyed by the int32 value; the cast is
  injective (`Int32.UnsignedRoundTrip`), so the index is the same.
- The wrap of the `++first_missing_pos` / `--first_missing_neg` cursors past
  `INT_MAX` / `INT_MIN`. That would need every value of one sign to have an
  entry. The model's cursor walks are bounded there.
- Search.Search: the program's outer loop has no bound and runs until
  `remaining` is 0. The model adds a `maxLength` parameter and stops when the
  length passes it, so the result says "nothing missing, or the bound was
  reached". Termination of the unbounded loop is not proved. It does not
  terminate for `min > max + 1`: `remaining` starts negative, and since no
  value lies in the empty range, it never changes and stays negative.
- Search.Search: `max - min + 1` must be an int32 (a precondition). The
  program computes it in `int` and would overflow for wider ranges.
- The `assert`s of the loops (`first_of_length.size() == length`, and the
  length checks) are proof obligations of the model rather than run-time
  checks.
- The commented-out debug output lines.
- CppSemantics.UnaryAgreesWithCpp: compares `eval` with C++'s operator on
  the operand's value only; how C++ lexes and parses the printed text is not
  modelled. `eval` does not reject `-` applied to a `-` node, which prints as
  `--` and lexes as a decrement (`CppSemantics.DoubleMinusAccepted`).
- CppSemantics.BinaryAgreesWithCpp: likewise on the operands' values only;
  `eval` does not reject binary `-` with a `-`-led right operand, printed as
  `x--y` (`CppSemantics.MinusNegAccepted`). Whether the search ever records
  such a node is not established.

## Findings

| source | as written | input that shows it | evidently intended | confidence | as-written member | corrected member |
|---|---|---|---|---|---|---|
| content/slides/2023-cppnow-lightning-lut/numbers.cpp:246-247 | `best[x].id == 0` means "no entry" (line 180), and the literal is node 0, so the literal is never reported | `search(0, 0)` reports `-![]{}` (6 characters), although `![]{}` (5 characters) is 0 | report `![]{}` for 0 | medium, not executed | Report.ZeroReportedLong | Report.ShortestReportIsShortest |
