/** eval, the recursive evaluator of the expression unit, as a function over
    the token buffer, together with a left-to-right reference semantics for
    flat chains of numbers and operators and the proof that eval agrees with
    it. Values are C `int`s: eval's result is read back as a signed 32-bit
    value by its callers, so the model works on that signed view. */
module Evaluator {
  import opened Tokens
  import opened Brackets
  import opened MainOperator

  function DigitValue(c: char): (n: nat)
    requires IsDigit(c)
    ensures n <= 9
  {
    (c as int) - ('0' as int)
  }

  /** Value of a string of decimal digits, most significant first. */
  function DecimalValue(d: string): (n: nat)
    requires forall i :: 0 <= i < |d| ==> IsDigit(d[i])
  {
    if d == [] then 0 else 10 * DecimalValue(d[..|d| - 1]) + DigitValue(d[|d| - 1])
  }

  /** The value atoi gives a slot's text: its leading digit run. */
  function NumValue(t: Token): nat {
    var n := Span(Digit, t.str);
    DecimalValue(t.str[..n])
  }

  /** atoi(str) on a 32-byte text: the value of its leading digit run; undefined
      when no NUL ends the text inside the buffer (atoi reads past it) or the
      value does not fit an `int`. */
  function Atoi(str: string): (r: Outcome<int>)
    ensures r.Value? ==> 0 <= r.value <= INT_MAX && r.value == NumValue(Token(NumD, str))
    ensures r == Undefined <==> Span(Digit, str) == |str| || NumValue(Token(NumD, str)) > INT_MAX
    ensures !r.Abort?
  {
    var n := Span(Digit, str);
    if n == |str| then Undefined
    else
      var v := DecimalValue(str[..n]);
      if v > INT_MAX then Undefined else Value(v)
  }

  function Abs(x: int): nat { if x < 0 then -x else x }

  /** C's `/` on `int`: the quotient truncated toward zero. */
  function CQuot(a: int, b: int): (r: int)
    requires b != 0
    ensures Abs(a - r * b) < Abs(b)
    ensures a - r * b == 0 || (a - r * b < 0 <==> a < 0)
  {
    var m := Abs(a) / Abs(b);
    QuotBound(Abs(a), Abs(b));
    if (a < 0) == (b < 0) then
      (assert a - m * b == (if a < 0 then -(Abs(a) - m * Abs(b)) else Abs(a) - m * Abs(b)); m)
    else
      (assert a - (-m) * b == (if a < 0 then -(Abs(a) - m * Abs(b)) else Abs(a) - m * Abs(b)); -m)
  }

  lemma {:induction false} QuotBound(x: nat, y: nat)
    requires y > 0
    ensures 0 <= x - (x / y) * y < y
  {
  }

  /** The reference meaning of a binary operator over unbounded integers:
      C truncating division, and 0 for a division by zero or a non-operator. */
  function Arith(k: Kind, a: int, b: int): int {
    match k
    case Plus => a + b
    case Minus => a - b
    case Star => a * b
    case Slash => if b == 0 then 0 else CQuot(a, b)
    case _ => 0
  }

  /** `val1 op val2` in eval's switch: the `int` result of an operator, undefined
      on signed overflow or division by zero, and `assert(0)` for a token that
      is not an operator. */
  function Combine(k: Kind, a: int, b: int): (r: Outcome<int>)
    ensures r == Abort <==> !IsArith(k)
    ensures r == Undefined <==> IsArith(k) && ((k == Slash && b == 0) || !IsInt32(Arith(k, a, b)))
    ensures r.Value? ==> r.value == Arith(k, a, b) && IsInt32(r.value)
  {
    if !IsArith(k) then Abort
    else if k == Slash && b == 0 then Undefined
    else if IsInt32(Arith(k, a, b)) then Value(Arith(k, a, b))
    else Undefined
  }

  /** eval(p, q) over the buffer ts: `assert(0)` when p > q; atoi of the
      slot's text when p == q, whatever the slot's type; the inside of a range
      check_parentheses accepts; otherwise the two sides of the main operator
      combined by it, left side first. Writing more operators than
      find_main_op's arrays hold is undefined. */
  function Eval(ts: seq<Token>, p: int, q: int): (r: Outcome<int>)
    requires WellFormed(ts) && 0 <= p && q < |ts|
    ensures p > q ==> r == Abort
    ensures p < q && !Balanced(ts, p, q) ==> r == Abort
    ensures r.Value? ==> IsInt32(r.value)
    decreases if p <= q then q - p + 1 else 0
  {
    if p > q then Abort
    else if p == q then Atoi(ts[p].str)
    else
      var c := CheckParentheses(ts, p, q);
      if c.Abort? then Abort
      else if c == Value(true) then Eval(ts, p + 1, q - 1)
      else if !FitsOpArrays(ts, p, q) then Undefined
      else
        FindMainOpRange(ts, p, q);
        var op := FindMainOp(ts, p, q);
        var left := Eval(ts, p, op - 1);
        if !left.Value? then left
        else
          var right := Eval(ts, op + 1, q);
          if !right.Value? then right
          else Combine(ts[op].kind, left.value, right.value)
  }

  /** A range of two or more tokens that check_parentheses lets through but
      that holds no top-level operator ends in `assert(0)`: find_main_op
      returns 0 and eval(p, -1) or eval(0, -1) follows. */
  lemma {:induction false} EvalWithoutOperatorAborts(ts: seq<Token>, p: int, q: int)
    requires WellFormed(ts) && 0 <= p < q < |ts|
    requires CheckParentheses(ts, p, q) == Value(false) && FitsOpArrays(ts, p, q)
    requires !HasTop(ts, p, q, AddSub) && !HasTop(ts, p, q, MulDiv)
    ensures Eval(ts, p, q) == Abort
  {
    FindMainOpIsRightmostLowest(ts, p, q);
    assert FindMainOp(ts, p, q) == 0;
    assert Eval(ts, p, -1) == Abort;
  }

  /** A bracketed range whose last token is `)` and whose brackets balance
      never evaluates: check_parentheses stops one token early and asserts. */
  lemma {:induction false} EvalOfClosedRangeAborts(ts: seq<Token>, p: int, q: int)
    requires WellFormed(ts) && 0 <= p < q < |ts| && Balanced(ts, p, q + 1) && ts[q].kind == RParen
    ensures Eval(ts, p, q) == Abort
  {
    ClosingBracketAborts(ts, p, q);
  }

  // ---------------------------------------------------------------------
  // Reference semantics of flat chains

  /** ts[p..q] is a flat chain: numbers at even offsets from p, operators at
      odd offsets, a number at each end. */
  predicate Flat(ts: seq<Token>, p: int, q: int) {
    && 0 <= p <= q < |ts| && (q - p) % 2 == 0
    && (forall k :: p <= k <= q && (k - p) % 2 == 0 ==> ts[k].kind == NumD)
    && (forall k :: p <= k <= q && (k - p) % 2 == 1 ==> IsArith(ts[k].kind))
  }

  /** The state of a left-to-right evaluation with the usual two precedence
      levels: the additive total so far, the pending additive operator, and
      the multiplicative term being built. */
  datatype Acc = Acc(sum: int, addOp: Kind, term: int)

  /** The accumulator after reading the chain ts[p..j-1], which ends with a
      number. */
  function RefState(ts: seq<Token>, p: int, j: int): Acc
    requires 0 <= p < j <= |ts|
    decreases j - p
  {
    if j <= p + 2 then Acc(0, Plus, NumValue(ts[p]))
    else
      var s := RefState(ts, p, j - 2);
      var o := ts[j - 2].kind;
      var n := NumValue(ts[j - 1]);
      if o == Plus || o == Minus then Acc(Arith(s.addOp, s.sum, s.term), o, n)
      else Acc(s.sum, s.addOp, Arith(o, s.term, n))
  }

  function Final(a: Acc): int {
    Arith(a.addOp, a.sum, a.term)
  }

  /** The value of the flat chain ts[p..q] with `*` and `/` binding tighter
      than `+` and `-`, and operators of one level applied left to right. */
  function Reference(ts: seq<Token>, p: int, q: int): int
    requires 0 <= p <= q < |ts|
  {
    Final(RefState(ts, p, q + 1))
  }

  /** Nothing in a flat chain is a bracket, so every position is at depth 0. */
  lemma {:induction false} FlatDepth(ts: seq<Token>, p: int, q: int, j: int)
    requires Flat(ts, p, q) && p <= j <= q + 1
    ensures Depth(ts, p, j) == 0
    decreases j - p
  {
    if j > p {
      FlatDepth(ts, p, q, j - 1);
      assert (j - 1 - p) % 2 == 0 || (j - 1 - p) % 2 == 1;
    }
  }

  lemma {:induction false} FlatBalanced(ts: seq<Token>, p: int, q: int)
    requires Flat(ts, p, q)
    ensures Balanced(ts, p, q)
    ensures forall k :: p <= k < q ==> TopLevel(ts, p, k)
  {
    forall k | p < k <= q ensures Depth(ts, p, k) >= 0 {
      FlatDepth(ts, p, q, k);
    }
    forall k | p <= k < q ensures TopLevel(ts, p, k) {
      FlatDepth(ts, p, q, k + 1);
    }
    FlatDepth(ts, p, q, q);
  }

  lemma {:induction false} FlatSub(ts: seq<Token>, p: int, q: int, p': int, q': int)
    requires Flat(ts, p, q) && p <= p' <= q' <= q && (p' - p) % 2 == 0 && (q' - p) % 2 == 0
    ensures Flat(ts, p', q')
  {
    forall k | p' <= k <= q' && (k - p') % 2 == 0 ensures ts[k].kind == NumD {
      EvenShift(k - p', p' - p);
    }
    forall k | p' <= k <= q' && (k - p') % 2 == 1 ensures IsArith(ts[k].kind) {
      EvenShift(k - p', p' - p);
    }
  }

  /** Operators of a flat chain stand at odd offsets. */
  lemma {:induction false} FlatOperatorOdd(ts: seq<Token>, p: int, q: int, k: int)
    requires Flat(ts, p, q) && p <= k <= q && IsArith(ts[k].kind)
    ensures (k - p) % 2 == 1 && (k - 1 - p) % 2 == 0 && (k + 1 - p) % 2 == 0
  {
  }

  /** No `+` or `-` stands at an operator position of the chain starting at
      p strictly between `from` and `to`. */
  predicate NoAdditive(ts: seq<Token>, p: int, from: int, to: int)
    requires 0 <= p && to <= |ts|
  {
    forall k :: from < k < to && p <= k && (k - p) % 2 == 1 ==> ts[k].kind != Plus && ts[k].kind != Minus
  }

  /** A chain with no `+` or `-` keeps the additive part at its start: the
      whole value is the multiplicative term. */
  lemma {:induction false} ProductChain(ts: seq<Token>, p: int, j: int)
    requires 0 <= p < j <= |ts| && (j - p) % 2 == 1 && NoAdditive(ts, p, p, j)
    ensures RefState(ts, p, j).sum == 0 && RefState(ts, p, j).addOp == Plus
    decreases j - p
  {
    if j > p + 1 {
      ProductChain(ts, p, j - 2);
      assert (j - 2 - p) % 2 == 1;
    }
  }

  /** After the last `+` or `-` at position o, the reference state holds the
      value of everything before o as its sum, o as its pending operator, and
      the product chain after o as its term. */
  lemma {:induction false} AfterLastAdditive(ts: seq<Token>, p: int, o: int, j: int)
    requires 0 <= p < o && o + 1 < j <= |ts| && (o - p) % 2 == 1 && (j - p) % 2 == 1
    requires (ts[o].kind == Plus || ts[o].kind == Minus) && NoAdditive(ts, p, o, j)
    ensures RefState(ts, p, j) == Acc(Reference(ts, p, o - 1), ts[o].kind, RefState(ts, o + 1, j).term)
    decreases j - o
  {
    if j > o + 2 {
      AfterLastAdditive(ts, p, o, j - 2);
      assert (j - 2 - p) % 2 == 1;
      assert ts[j - 2].kind != Plus && ts[j - 2].kind != Minus;
    } else {
      assert RefState(ts, o + 1, j) == Acc(0, Plus, NumValue(ts[o + 1]));
    }
  }

  lemma {:induction false} NoAdditiveShift(ts: seq<Token>, p: int, o: int, j: int)
    requires 0 <= p < o < j <= |ts| && (o - p) % 2 == 1 && NoAdditive(ts, p, o, j)
    ensures NoAdditive(ts, o + 1, o + 1, j)
  {
    forall k | o + 1 < k < j && (k - (o + 1)) % 2 == 1
      ensures ts[k].kind != Plus && ts[k].kind != Minus
    {
      assert (k - p) % 2 == 1;
    }
  }

  /** Splitting a flat chain at its last `+` or `-`. */
  lemma {:induction false} SplitAtAdditive(ts: seq<Token>, p: int, o: int, q: int)
    requires 0 <= p < o < q < |ts| && (o - p) % 2 == 1 && (q - p) % 2 == 0
    requires (ts[o].kind == Plus || ts[o].kind == Minus) && NoAdditive(ts, p, o, q)
    ensures Reference(ts, p, q) == Arith(ts[o].kind, Reference(ts, p, o - 1), Reference(ts, o + 1, q))
  {
    NoAdditiveAtNumber(ts, p, o, q);
    AfterLastAdditive(ts, p, o, q + 1);
    NoAdditiveShift(ts, p, o, q + 1);
    OddGap(q - p, o - p);
    ProductChain(ts, o + 1, q + 1);
    FinalAfterAdditive(RefState(ts, p, q + 1), RefState(ts, o + 1, q + 1));
  }

  /** Position q of a chain starting at p, with q - p even, holds a number,
      so extending the range over it adds no operator position. */
  lemma {:induction false} NoAdditiveAtNumber(ts: seq<Token>, p: int, o: int, q: int)
    requires 0 <= p && q < |ts| && (q - p) % 2 == 0 && NoAdditive(ts, p, o, q)
    ensures NoAdditive(ts, p, o, q + 1)
  {
    forall k | o < k < q + 1 && p <= k && (k - p) % 2 == 1
      ensures ts[k].kind != Plus && ts[k].kind != Minus
    {
      assert k < q;
    }
  }

  /** Moving by an even distance keeps the parity. */
  lemma {:induction false} EvenShift(a: int, b: int)
    requires b % 2 == 0
    ensures (a + b) % 2 == a % 2
  {
  }

  /** An even distance less an odd one is odd. */
  lemma {:induction false} OddGap(a: int, b: int)
    requires a % 2 == 0 && b % 2 == 1
    ensures (a - b) % 2 == 1
  {
  }

  /** The final value of a state whose term is a whole product chain. */
  lemma {:induction false} FinalAfterAdditive(a: Acc, b: Acc)
    requires b.sum == 0 && b.addOp == Plus && a.term == b.term
    ensures Final(a) == Arith(a.addOp, a.sum, Final(b))
  {
  }

  /** Splitting a chain of `*` and `/` at its last operator. */
  lemma {:induction false} SplitAtMultiplicative(ts: seq<Token>, p: int, q: int)
    requires 0 <= p && p + 2 <= q < |ts| && (q - p) % 2 == 0 && NoAdditive(ts, p, p, q)
    ensures Reference(ts, p, q) == Arith(ts[q - 1].kind, Reference(ts, p, q - 2), Reference(ts, q, q))
  {
    ProductChain(ts, p, q + 1);
    ProductChain(ts, p, q - 1);
  }

  /** Where find_main_op splits a flat chain: at its last `+` or `-` when it
      has one, and otherwise at its last operator. */
  lemma {:induction false} FlatMainOp(ts: seq<Token>, p: int, q: int)
    requires Flat(ts, p, q) && p < q
    ensures SplitPoint(ts, p, q, FindMainOp(ts, p, q))
  {
    var op := FindMainOp(ts, p, q);
    FindMainOpRange(ts, p, q);
    if HasTop(ts, p, q, AddSub) {
      LastAdditive(ts, p, q);
      FlatOperatorOdd(ts, p, q, op);
    } else {
      LastMultiplicative(ts, p, q);
      FlatOperatorOdd(ts, p, q, op);
    }
  }

  /** op is where a flat chain ts[p..q] splits: an operator position that
      is either the last `+` or `-`, or the last operator of a chain without
      `+` and `-`. */
  predicate SplitPoint(ts: seq<Token>, p: int, q: int, op: int)
    requires 0 <= p && q < |ts|
  {
    && p < op < q && (op - p) % 2 == 1
    && ((ts[op].kind in {Plus, Minus} && NoAdditive(ts, p, op, q)) || (op == q - 1 && NoAdditive(ts, p, p, q)))
  }

  lemma {:induction false} LastAdditive(ts: seq<Token>, p: int, q: int)
    requires Flat(ts, p, q) && p < q && HasTop(ts, p, q, AddSub)
    ensures var op := FindMainOp(ts, p, q);
      p <= op < q && ts[op].kind in {Plus, Minus} && NoAdditive(ts, p, op, q)
  {
    FlatBalanced(ts, p, q);
    FindMainOpIsRightmostLowest(ts, p, q);
    var op := FindMainOp(ts, p, q);
    forall k | op < k < q && p <= k && (k - p) % 2 == 1
      ensures ts[k].kind != Plus && ts[k].kind != Minus
    {
      assert TopLevel(ts, p, k);
    }
  }

  lemma {:induction false} LastMultiplicative(ts: seq<Token>, p: int, q: int)
    requires Flat(ts, p, q) && p < q && !HasTop(ts, p, q, AddSub)
    ensures FindMainOp(ts, p, q) == q - 1 && IsArith(ts[q - 1].kind) && NoAdditive(ts, p, p, q)
  {
    FlatBalanced(ts, p, q);
    FindMainOpIsRightmostLowest(ts, p, q);
    assert IsArith(ts[q - 1].kind) by {
      assert (q - 1 - p) % 2 == 1;
    }
    assert TopLevel(ts, p, q - 1);
    forall k | p < k < q && p <= k && (k - p) % 2 == 1
      ensures ts[k].kind != Plus && ts[k].kind != Minus
    {
      assert TopLevel(ts, p, k);
    }
  }

  /** eval on a flat chain of two or more tokens that fits find_main_op's
      arrays evaluates both sides of the main operator. */
  lemma {:induction false} EvalAtMainOp(ts: seq<Token>, p: int, q: int)
    requires WellFormed(ts) && Flat(ts, p, q) && p < q && FitsOpArrays(ts, p, q)
    ensures var op := FindMainOp(ts, p, q);
      && p < op < q
      && Eval(ts, p, q) == Sequence(ts[op].kind, Eval(ts, p, op - 1), Eval(ts, op + 1, q))
  {
    FlatBalanced(ts, p, q);
    FlatMainOp(ts, p, q);
    assert CheckParentheses(ts, p, q) == Value(false);
  }

  /** Left side first, then right side, then the operator. */
  function Sequence(k: Kind, left: Outcome<int>, right: Outcome<int>): Outcome<int> {
    if !left.Value? then left
    else if !right.Value? then right
    else Combine(k, left.value, right.value)
  }

  /** A flat chain of two or more tokens splits at find_main_op's choice
      into two flat chains whose reference values the operator combines. */
  lemma {:induction false} FlatSplit(ts: seq<Token>, p: int, q: int) returns (op: int)
    requires Flat(ts, p, q) && p < q
    ensures op == FindMainOp(ts, p, q) && p < op < q && IsArith(ts[op].kind)
    ensures Flat(ts, p, op - 1) && Flat(ts, op + 1, q)
    ensures Reference(ts, p, q) == Arith(ts[op].kind, Reference(ts, p, op - 1), Reference(ts, op + 1, q))
  {
    FlatMainOp(ts, p, q);
    FindMainOpRange(ts, p, q);
    op := FindMainOp(ts, p, q);
    FlatOperatorOdd(ts, p, q, op);
    FlatSub(ts, p, q, p, op - 1);
    FlatSub(ts, p, q, op + 1, q);
    ReferenceAtSplit(ts, p, q, op);
  }

  /** The reference value of a chain is its split point's operator applied
      to the reference values of the two sides. */
  lemma {:induction false} ReferenceAtSplit(ts: seq<Token>, p: int, q: int, op: int)
    requires 0 <= p && q < |ts| && (q - p) % 2 == 0 && SplitPoint(ts, p, q, op)
    ensures Reference(ts, p, q) == Arith(ts[op].kind, Reference(ts, p, op - 1), Reference(ts, op + 1, q))
  {
    if ts[op].kind in {Plus, Minus} && NoAdditive(ts, p, op, q) {
      SplitAtAdditive(ts, p, op, q);
    } else {
      SplitAtMultiplicative(ts, p, q);
      assert op - 1 == q - 2 && op + 1 == q;
    }
  }

  /** eval runs into no undefined behaviour on the flat chain ts[p..q]: atoi
      reads a value from every number slot, find_main_op's arrays hold every
      top-level operator of every range eval splits, and no operator applied
      at a split divides by zero or leaves the range of an `int`. */
  predicate Defined(ts: seq<Token>, p: int, q: int)
    requires 0 <= p <= q < |ts|
    decreases q - p
  {
    if p == q then Atoi(ts[p].str).Value?
    else
      && FitsOpArrays(ts, p, q)
      && (var op := FindMainOp(ts, p, q);
          && p < op < q
          && Defined(ts, p, op - 1) && Defined(ts, op + 1, q)
          && Combine(ts[op].kind, Reference(ts, p, op - 1), Reference(ts, op + 1, q)).Value?)
  }

  /** On a flat chain eval computes the reference value exactly when it runs
      into no undefined behaviour on the way, and is undefined otherwise.
      Splitting at the rightmost operator of the lowest tier makes each tier
      left-associative: 8-3-2 is (8-3)-2. */
  lemma {:induction false} EvalFlat(ts: seq<Token>, p: int, q: int)
    requires WellFormed(ts) && Flat(ts, p, q)
    ensures Eval(ts, p, q) == if Defined(ts, p, q) then Value(Reference(ts, p, q)) else Undefined
    decreases q - p, 1
  {
    if p == q {
      EvalFlatSingle(ts, p);
    } else if FitsOpArrays(ts, p, q) {
      EvalFlatStep(ts, p, q);
    } else {
      EvalFlatOverflow(ts, p, q);
    }
  }

  /** EvalFlat on a single number: atoi's outcome. */
  lemma {:induction false} EvalFlatSingle(ts: seq<Token>, p: int)
    requires WellFormed(ts) && Flat(ts, p, p)
    ensures Eval(ts, p, p) == if Defined(ts, p, p) then Value(Reference(ts, p, p)) else Undefined
  {
    assert Reference(ts, p, p) == NumValue(ts[p]);
  }

  /** EvalFlat on a chain too long for find_main_op's arrays: undefined. */
  lemma {:induction false} EvalFlatOverflow(ts: seq<Token>, p: int, q: int)
    requires WellFormed(ts) && Flat(ts, p, q) && p < q && !FitsOpArrays(ts, p, q)
    ensures Eval(ts, p, q) == Undefined && !Defined(ts, p, q)
  {
    FlatBalanced(ts, p, q);
    assert CheckParentheses(ts, p, q) == Value(false);
  }

  /** The inductive step of EvalFlat: split the chain at the main operator;
      each side evaluates to its reference value exactly when it is defined,
      and so does the whole chain. */
  lemma {:induction false} EvalFlatStep(ts: seq<Token>, p: int, q: int)
    requires WellFormed(ts) && Flat(ts, p, q) && p < q && FitsOpArrays(ts, p, q)
    ensures Eval(ts, p, q) == if Defined(ts, p, q) then Value(Reference(ts, p, q)) else Undefined
    decreases q - p, 0
  {
    var op := FlatSplit(ts, p, q);
    EvalFlat(ts, p, op - 1);
    EvalFlat(ts, op + 1, q);
    EvalAtMainOp(ts, p, q);
    DefinedAtSplit(ts, p, q);
    // the facts SequenceOfSides combines, each stated at this split
    assert IsArith(ts[op].kind);
    assert Eval(ts, p, op - 1) == if Defined(ts, p, op - 1) then Value(Reference(ts, p, op - 1)) else Undefined;
    assert Eval(ts, op + 1, q) == if Defined(ts, op + 1, q) then Value(Reference(ts, op + 1, q)) else Undefined;
    assert Eval(ts, p, q) == Sequence(ts[op].kind, Eval(ts, p, op - 1), Eval(ts, op + 1, q));
    assert Defined(ts, p, q) == (Defined(ts, p, op - 1) && Defined(ts, op + 1, q) && Combine(ts[op].kind, Reference(ts, p, op - 1), Reference(ts, op + 1, q)).Value?);
    assert Reference(ts, p, q) == Arith(ts[op].kind, Reference(ts, p, op - 1), Reference(ts, op + 1, q));
    SequenceOfSides(ts[op].kind, Eval(ts, p, op - 1), Eval(ts, op + 1, q),
                    Defined(ts, p, op - 1), Defined(ts, op + 1, q),
                    Reference(ts, p, op - 1), Reference(ts, op + 1, q),
                    Eval(ts, p, q), Defined(ts, p, q), Reference(ts, p, q));
  }

  /** Defined at a split: both sides defined and the operator defined on
      their reference values. */
  lemma {:induction false} DefinedAtSplit(ts: seq<Token>, p: int, q: int)
    requires 0 <= p < q < |ts| && FitsOpArrays(ts, p, q) && p < FindMainOp(ts, p, q) < q
    ensures var op := FindMainOp(ts, p, q);
      Defined(ts, p, q) == (Defined(ts, p, op - 1) && Defined(ts, op + 1, q)
                            && Combine(ts[op].kind, Reference(ts, p, op - 1), Reference(ts, op + 1, q)).Value?)
  {
  }

  /** Sequencing two sides that each give their reference value exactly when
      defined gives the combined value exactly when both sides and the
      operator are defined, and is undefined otherwise. */
  lemma {:induction false} SequenceOfSides(k: Kind, l: Outcome<int>, r: Outcome<int>, dl: bool, dr: bool, a: int, b: int,
                                           whole: Outcome<int>, d: bool, ref: int)
    requires IsArith(k)
    requires l == (if dl then Value(a) else Undefined) && r == (if dr then Value(b) else Undefined)
    requires whole == Sequence(k, l, r) && d == (dl && dr && Combine(k, a, b).Value?) && ref == Arith(k, a, b)
    ensures whole == if d then Value(ref) else Undefined
  {
  }

  /** The defined half of EvalFlat on its own: a flat chain on which eval
      runs into no undefined behaviour evaluates to its reference value. */
  lemma {:induction false} EvalOfDefined(ts: seq<Token>, p: int, q: int)
    requires WellFormed(ts) && Flat(ts, p, q) && Defined(ts, p, q)
    ensures Eval(ts, p, q) == Value(Reference(ts, p, q))
  {
    EvalFlat(ts, p, q);
  }
}
