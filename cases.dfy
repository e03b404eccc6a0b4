/** Worked consequences of the evaluator's definition on short token
    sequences: subtraction associates to the left, multiplication binds
    tighter than addition, and a bracketed left operand is rejected. */
module Cases {
  import opened Tokens
  import opened Brackets
  import opened MainOperator
  import opened Evaluator
  import opened Lexer
  import opened Sdb

  /** `a - b - c` is `(a - b) - c`: whenever atoi reads the three numbers
      and the result fits an `int`, eval gives exactly that value. */
  lemma {:induction false} SubtractionIsLeftAssociative(ts: seq<Token>, p: nat)
    requires WellFormed(ts) && Flat(ts, p, p + 4) && ts[p + 1].kind == Minus && ts[p + 3].kind == Minus
    requires Atoi(ts[p].str).Value? && Atoi(ts[p + 2].str).Value? && Atoi(ts[p + 4].str).Value?
    requires IsInt32((NumValue(ts[p]) - NumValue(ts[p + 2])) - NumValue(ts[p + 4]))
    ensures Eval(ts, p, p + 4) == Value(Reference(ts, p, p + 4))
    ensures Reference(ts, p, p + 4) == (NumValue(ts[p]) - NumValue(ts[p + 2])) - NumValue(ts[p + 4])
  {
    SubtractionDefined(ts, p);
    EvalOfDefined(ts, p, p + 4);
  }

  /** eval splits `a - b - c` at the second `-`, and each step stays defined. */
  lemma {:induction false} SubtractionDefined(ts: seq<Token>, p: nat)
    requires Flat(ts, p, p + 4) && ts[p + 1].kind == Minus && ts[p + 3].kind == Minus
    requires Atoi(ts[p].str).Value? && Atoi(ts[p + 2].str).Value? && Atoi(ts[p + 4].str).Value?
    requires IsInt32((NumValue(ts[p]) - NumValue(ts[p + 2])) - NumValue(ts[p + 4]))
    ensures Defined(ts, p, p + 4)
    ensures Reference(ts, p, p + 4) == (NumValue(ts[p]) - NumValue(ts[p + 2])) - NumValue(ts[p + 4])
  {
    FlatSub(ts, p, p + 4, p, p + 2);
    DefinedPair(ts, p);
    ShortRangeFits(ts, p, p + 4);
    var op := FlatSplit(ts, p, p + 4);
    FlatMainOp(ts, p, p + 4);
    assert op == p + 3;
    assert Reference(ts, p + 4, p + 4) == NumValue(ts[p + 4]);
  }

  /** `a + b * c` is `a + (b * c)`: whenever atoi reads the three numbers
      and the result fits an `int`, eval gives exactly that value. */
  lemma {:induction false} ProductBindsTighter(ts: seq<Token>, p: nat)
    requires WellFormed(ts) && Flat(ts, p, p + 4) && ts[p + 1].kind == Plus && ts[p + 3].kind == Star
    requires Atoi(ts[p].str).Value? && Atoi(ts[p + 2].str).Value? && Atoi(ts[p + 4].str).Value?
    requires NumValue(ts[p]) + NumValue(ts[p + 2]) * NumValue(ts[p + 4]) <= INT_MAX
    ensures Eval(ts, p, p + 4) == Value(Reference(ts, p, p + 4))
    ensures Reference(ts, p, p + 4) == NumValue(ts[p]) + NumValue(ts[p + 2]) * NumValue(ts[p + 4])
  {
    ProductDefined(ts, p);
    EvalOfDefined(ts, p, p + 4);
  }

  /** eval splits `a + b * c` at the `+`, and each step stays defined. */
  lemma {:induction false} ProductDefined(ts: seq<Token>, p: nat)
    requires Flat(ts, p, p + 4) && ts[p + 1].kind == Plus && ts[p + 3].kind == Star
    requires Atoi(ts[p].str).Value? && Atoi(ts[p + 2].str).Value? && Atoi(ts[p + 4].str).Value?
    requires NumValue(ts[p]) + NumValue(ts[p + 2]) * NumValue(ts[p + 4]) <= INT_MAX
    ensures Defined(ts, p, p + 4)
    ensures Reference(ts, p, p + 4) == NumValue(ts[p]) + NumValue(ts[p + 2]) * NumValue(ts[p + 4])
  {
    ProductFits(NumValue(ts[p]), NumValue(ts[p + 2]), NumValue(ts[p + 4]));
    FlatSub(ts, p, p + 4, p + 2, p + 4);
    DefinedPair(ts, p + 2);
    ShortRangeFits(ts, p, p + 4);
    var op := FlatSplit(ts, p, p + 4);
    FlatMainOp(ts, p, p + 4);
    assert op == p + 1;
    assert Reference(ts, p, p) == NumValue(ts[p]);
  }

  lemma {:induction false} ProductFits(a: nat, b: nat, c: nat)
    requires a + b * c <= INT_MAX
    ensures IsInt32(b * c) && IsInt32(a + b * c)
  {
  }

  /** A chain `a k b` whose numbers atoi reads and whose operator stays
      defined is defined, with the operator applied to the two numbers as
      its value. */
  lemma {:induction false} DefinedPair(ts: seq<Token>, p: nat)
    requires Flat(ts, p, p + 2)
    requires Atoi(ts[p].str).Value? && Atoi(ts[p + 2].str).Value?
    requires Combine(ts[p + 1].kind, NumValue(ts[p]), NumValue(ts[p + 2])).Value?
    ensures Defined(ts, p, p + 2)
    ensures Reference(ts, p, p + 2) == Arith(ts[p + 1].kind, NumValue(ts[p]), NumValue(ts[p + 2]))
  {
    ShortRangeFits(ts, p, p + 2);
    var op := FlatSplit(ts, p, p + 2);
    assert Reference(ts, p, p) == NumValue(ts[p]);
    assert Reference(ts, p + 2, p + 2) == NumValue(ts[p + 2]);
  }

  /** A number make_token can copy into a zeroed slot with a NUL left after
      it, and whose value atoi can return. */
  predicate ShortNumber(d: string) {
    ValidLexeme(Number(d)) && |d| < STR_LEN && DecimalValue(d) <= INT_MAX
  }

  /** A slot whose whole text is NUL, as every slot of the zero-initialised
      buffer is. */
  predicate Blank(t: Token) {
    |t.str| == STR_LEN && forall j :: 0 <= j < |t.str| ==> t.str[j] == '\0'
  }

  lemma {:induction false} InitialBlank(k: nat)
    requires k < NR_TOKENS
    ensures Blank(Initial[k])
  {
  }

  /** `8 - 3 - 2` over slots holding one digit and a NUL: eval returns 3,
      not the 7 a right-to-left reading would give. */
  lemma {:induction false} EightMinusThreeMinusTwo(ts: seq<Token>, p: nat)
    requires WellFormed(ts) && Flat(ts, p, p + 4) && ts[p + 1].kind == Minus && ts[p + 3].kind == Minus
    requires ts[p].str[0] == '8' && ts[p].str[1] == '\0'
    requires ts[p + 2].str[0] == '3' && ts[p + 2].str[1] == '\0'
    requires ts[p + 4].str[0] == '2' && ts[p + 4].str[1] == '\0'
    ensures Eval(ts, p, p + 4) == Value(3)
  {
    OneDigitSlot(ts[p]);
    OneDigitSlot(ts[p + 2]);
    OneDigitSlot(ts[p + 4]);
    SubtractionIsLeftAssociative(ts, p);
    assert Reference(ts, p, p + 4) == 3;
  }

  /** `2 + 3 * 4` over slots holding one digit and a NUL: eval returns 14,
      not the 20 a left-to-right reading would give. */
  lemma {:induction false} TwoPlusThreeTimesFour(ts: seq<Token>, p: nat)
    requires WellFormed(ts) && Flat(ts, p, p + 4) && ts[p + 1].kind == Plus && ts[p + 3].kind == Star
    requires ts[p].str[0] == '2' && ts[p].str[1] == '\0'
    requires ts[p + 2].str[0] == '3' && ts[p + 2].str[1] == '\0'
    requires ts[p + 4].str[0] == '4' && ts[p + 4].str[1] == '\0'
    ensures Eval(ts, p, p + 4) == Value(14)
  {
    OneDigitSlot(ts[p]);
    OneDigitSlot(ts[p + 2]);
    OneDigitSlot(ts[p + 4]);
    ProductBindsTighter(ts, p);
    assert Reference(ts, p, p + 4) == 14;
  }

  /** atoi of a number slot whose text is one digit and a NUL: that digit's
      value, which is also the slot's value. */
  lemma {:induction false} OneDigitSlot(t: Token)
    requires t.kind == NumD && |t.str| >= 2 && IsDigit(t.str[0]) && t.str[1] == '\0'
    ensures Atoi(t.str) == Value(DigitValue(t.str[0]))
    ensures NumValue(t) == DigitValue(t.str[0])
  {
    assert Span(Digit, t.str[1..]) == 0;
    assert Span(Digit, t.str) == 1;
    assert t.str[..1][..0] == [];
    assert DecimalValue(t.str[..1]) == DigitValue(t.str[0]);
    assert t == Token(NumD, t.str);
  }

  /** atoi of a blank slot after one number is copied into it. */
  lemma {:induction false} AtoiOfFreshNumber(t: Token, d: string)
    requires Blank(t) && ShortNumber(d)
    ensures Atoi(Write(t, Number(d)).str) == Value(DecimalValue(d))
    ensures NumValue(Write(t, Number(d))) == DecimalValue(d)
  {
    var str := Write(t, Number(d)).str;
    assert str[..|d|] == d;
    assert forall i :: 0 <= i < |d| ==> IsDigit(str[i]) by {
      forall i | 0 <= i < |d| ensures IsDigit(str[i]) {
        assert str[i] == d[i];
      }
    }
    SpanOfPrefix(Digit, str, |d|);
  }

  /** `expr("+")` right after `expr("12")` on a buffer whose slot 0 is blank
      returns 12: the `+` takes slot 0 without touching its text, and eval
      reads the one-token range with atoi whatever its type. */
  lemma {:induction false} ExprOfPlusAfterNumber(ts: seq<Token>, d: string, success: bool)
    requires WellFormed(ts) && Blank(ts[0]) && ShortNumber(d)
    ensures (LexDigitsOnly(d); LexPlusOnly();
             ExprResult(AfterMakeToken(ts, d), "+", success) == (Value(DecimalValue(d)), success))
  {
    LexDigitsOnly(d);
    LexPlusOnly();
    ExprOfOneNumber(ts, d, d, success);
    var once := AfterMakeToken(ts, d);
    ExprOfOneOperator(once, "+", Plus, success);
    AtoiOfFreshNumber(ts[0], d);
  }

  /** The input `+` lexes to a single plus. */
  lemma {:induction false} LexPlusOnly()
    ensures Lex("+") == LexResult([Op(Plus)], None)
  {
    assert "+"[1..] == [];
  }

  /** `(a + b) * c` fails an `assert(0)`: find_main_op picks the `*`, and
      the left operand `(a + b)` then fails check_parentheses. */
  lemma {:induction false} BracketedOperandAborts(ts: seq<Token>)
    requires WellFormed(ts)
    requires ts[0].kind == LParen && ts[1].kind == NumD && ts[2].kind == Plus && ts[3].kind == NumD
    requires ts[4].kind == RParen && ts[5].kind == Star && ts[6].kind == NumD
    ensures Eval(ts, 0, 6) == Abort
  {
    BracketedOperandShape(ts);
    assert Eval(ts, 0, 4) == Abort;
  }

  /** What check_parentheses and find_main_op see in `(a + b) * c`. */
  lemma {:induction false} BracketedOperandShape(ts: seq<Token>)
    requires WellFormed(ts)
    requires ts[0].kind == LParen && ts[1].kind == NumD && ts[2].kind == Plus && ts[3].kind == NumD
    requires ts[4].kind == RParen && ts[5].kind == Star && ts[6].kind == NumD
    ensures CheckParentheses(ts, 0, 6) == Value(false) && FitsOpArrays(ts, 0, 6)
    ensures FindMainOp(ts, 0, 6) == 5 && CheckParentheses(ts, 0, 4) == Abort
  {
    BracketedOperandDepths(ts);
    ShortRangeFits(ts, 0, 6);
    assert TopOps(ts, 0, 6, Plus) == [] && TopOps(ts, 0, 6, Minus) == [];
    assert TopOps(ts, 0, 6, Star) == [5] && TopOps(ts, 0, 6, Slash) == [];
    ClosingBracketAborts(ts, 0, 4);
  }

  /** The bracket depths along `(a + b) * c`. */
  lemma {:induction false} BracketedOperandDepths(ts: seq<Token>)
    requires |ts| >= 7 && ts[0].kind == LParen && ts[4].kind == RParen
    requires ts[1].kind == NumD && ts[2].kind == Plus && ts[3].kind == NumD && ts[5].kind == Star
    ensures Depth(ts, 0, 1) == 1 && Depth(ts, 0, 2) == 1 && Depth(ts, 0, 3) == 1 && Depth(ts, 0, 4) == 1
    ensures Depth(ts, 0, 5) == 0 && Depth(ts, 0, 6) == 0
    ensures Balanced(ts, 0, 6) && Balanced(ts, 0, 5)
  {
    assert Depth(ts, 0, 1) == 1 && Depth(ts, 0, 2) == 1 && Depth(ts, 0, 3) == 1;
    assert Depth(ts, 0, 4) == 1 && Depth(ts, 0, 5) == 0 && Depth(ts, 0, 6) == 0;
  }

  /** A whole input that is one run of digits lexes to that one number. */
  lemma {:induction false} LexDigitsOnly(d: string)
    requires ValidLexeme(Number(d))
    ensures Lex(d) == LexResult([Number(d)], None)
  {
    assert Span(Digit, d) == |d|;
    assert d[..|d|] == d && d[|d|..] == [];
  }

  /** Evaluating a number and then a shorter one over a blank slot 0 reads
      the shorter one's digits followed by the longer one's surplus digits:
      `12345` then `9` gives 92345 the second time. */
  lemma {:induction false} ExprReadsStaleDigits(ts: seq<Token>, d1: string, d2: string, success: bool)
    requires WellFormed(ts) && Blank(ts[0])
    requires ValidLexeme(Number(d1)) && ValidLexeme(Number(d2)) && |d2| < |d1| < STR_LEN
    requires DecimalValue(d2 + d1[|d2|..]) <= INT_MAX
    ensures (LexDigitsOnly(d1); LexDigitsOnly(d2);
             ExprResult(AfterMakeToken(ts, d1), d2, success) == (Value(DecimalValue(d2 + d1[|d2|..])), success))
  {
    LexDigitsOnly(d1);
    LexDigitsOnly(d2);
    ExprOfOneNumber(ts, d1, d1, success);
    var once := AfterMakeToken(ts, d1);
    ExprOfOneNumber(once, d2, d2, success);
    AtoiOverLongerNumber(ts[0], d1, d2);
  }

  /** atoi of a blank slot after a number and then a shorter one. */
  lemma {:induction false} AtoiOverLongerNumber(t: Token, d1: string, d2: string)
    requires Blank(t)
    requires ValidLexeme(Number(d1)) && ValidLexeme(Number(d2)) && |d2| < |d1| < STR_LEN
    requires DecimalValue(d2 + d1[|d2|..]) <= INT_MAX
    ensures Atoi(Write(Write(t, Number(d1)), Number(d2)).str) == Value(DecimalValue(d2 + d1[|d2|..]))
  {
    WriteOverLongerNumber(t, d1, d2);
    var str := Write(Write(t, Number(d1)), Number(d2)).str;
    assert forall i :: 0 <= i < |d1| ==> IsDigit(str[i]) by {
      forall i | 0 <= i < |d1| ensures IsDigit(str[i]) {
        assert str[i] == str[..|d1|][i];
      }
    }
    SpanOfPrefix(Digit, str, |d1|);
  }
}
