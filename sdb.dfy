/** The state of the expression unit, the static `tokens` buffer and its
    count `nr_token`, as a class whose methods are make_token, the two
    scanning loops check_parentheses2 and find_main_op, and the entry point
    expr. Each method is proved against the function of the same name in
    Lexer, Brackets, MainOperator or Evaluator. */
module Sdb {
  import opened Tokens
  import opened Lexer
  import opened Brackets
  import MainOperator
  import opened Evaluator

  class TokenBuffer {
    /** `static Token tokens[32]`: the array itself never changes, only its slots. */
    const tokens: array<Token>
    /** `static int nr_token`. */
    var nrToken: int

    ghost predicate Valid()
      reads this, tokens
    {
      tokens.Length == NR_TOKENS && WellFormed(tokens[..]) && 0 <= nrToken <= NR_TOKENS
    }

    /** The zero-initialised static state. */
    constructor ()
      ensures Valid() && tokens[..] == Initial && nrToken == 0
    {
      tokens := new Token[NR_TOKENS](_ => Token(Unset, seq(STR_LEN, _ => '\0')));
      nrToken := 0;
      new;
      InitialWellFormed();
    }

    /** One pass of make_token's loop at `position`: try the rules in order;
        when none matches, lexing stops with what is recorded so far;
        otherwise record what the type of the first matching rule calls for
        and move past the match. */
    method NextToken(e: string, position: int, ghost done: seq<Lexeme>, ghost start: seq<Token>)
      returns (matched: bool, next: int, ghost done': seq<Lexeme>)
      requires CString(e) && Fits(Lex(e).emitted) && 0 <= position < |e|
      requires tokens.Length == NR_TOKENS && Lexing(e, position, done, start, tokens[..], nrToken)
      modifies this, tokens
      ensures matched ==> position < next <= |e| && Lexing(e, next, done', start, tokens[..], nrToken)
      ensures !matched ==> Stopped(e, start, tokens[..], nrToken)
    {
      var i, n := TryRules(e, position);
      if i == |Rules| {
        LexStops(e, position, done, start, tokens[..], nrToken);
        return false, position, done;
      }
      done' := Store(e, position, i, n, done, start);
      matched, next := true, position + n;
    }

    /** The switch of make_token for a match of length n of rule i at
        `position`: an operator or bracket takes the next slot and sets its
        type; a number also copies its n digits over the slot's text with no
        terminator; a blank or `==` records nothing. */
    method Store(e: string, position: int, i: nat, n: nat, ghost done: seq<Lexeme>, ghost start: seq<Token>)
      returns (ghost done': seq<Lexeme>)
      requires CString(e) && Fits(Lex(e).emitted) && 0 <= position < |e|
      requires tokens.Length == NR_TOKENS && Lexing(e, position, done, start, tokens[..], nrToken)
      requires FirstRule(e[position..], 0) == Some(i) && n == MatchLen(Rules[i].pattern, e[position..])
      modifies this, tokens
      ensures 0 < n <= |e| - position && Lexing(e, position + n, done', start, tokens[..], nrToken)
    {
      ghost var buf := tokens[..];
      MatchFits(e, position, done, start, buf, i, n);
      done' := done;
      var tokenType := Rules[i].tokenType;
      if IsArith(tokenType) || tokenType == LParen || tokenType == RParen {
        tokens[nrToken] := tokens[nrToken].(kind := tokenType);
        nrToken := nrToken + 1;
        done' := done + [Op(tokenType)];
      } else if tokenType == NumD {
        tokens[nrToken] := tokens[nrToken].(kind := NumD);
        nrToken := nrToken + 1;
        tokens[nrToken - 1] := tokens[nrToken - 1].(str := StrNCpy(tokens[nrToken - 1].str, e[position..], n));
        done' := done + [Number(e[position..][..n])];
      }
      LexStep(e, position, done, start, buf, i, n, done', tokens[..], nrToken);
    }

    /** make_token(e): from position 0, try the rules in order at the cursor;
        on the first that matches there, move the cursor past the match and
        record what its type calls for; when none matches, return false.
        Everything recorded before a failure stays recorded. */
    method MakeToken(e: string) returns (ok: bool)
      requires Valid() && CString(e) && Fits(Lex(e).emitted)
      modifies this, tokens
      ensures Valid()
      ensures ok <==> Lex(e).failedAt.None?
      ensures nrToken == |Lex(e).emitted|
      ensures tokens[..] == Record(old(tokens[..]), Lex(e).emitted)
    {
      ghost var start := tokens[..];
      ghost var done: seq<Lexeme> := [];
      var position := 0;
      nrToken := 0;
      assert e[0..] == e;
      while position < |e|
        invariant Lexing(e, position, done, start, tokens[..], nrToken)
        invariant tokens.Length == NR_TOKENS
        decreases |e| - position
      {
        var matched;
        matched, position, done := NextToken(e, position, done, start);
        if !matched {
          return false;
        }
      }
      LexEnds(e, position, done, start, tokens[..], nrToken);
      ok := true;
    }

    /** check_parentheses2(p, q), the scanning loop. */
    method CheckParentheses2(p: int, q: int) returns (r: Outcome<bool>)
      requires Valid() && 0 <= p && q < NR_TOKENS
      ensures r == Brackets.CheckParentheses2(tokens[..], p, q)
    {
      if p > q {
        return Abort;
      }
      ghost var ts := tokens[..];
      var lp := 0;
      var k := p;
      while k < q
        invariant p <= k <= q
        invariant lp == Depth(ts, p, k) && forall j :: p < j <= k ==> Depth(ts, p, j) >= 0
      {
        if tokens[k].kind == LParen {
          lp := lp + 1;
        } else if tokens[k].kind == RParen {
          if lp == 0 {
            assert Depth(ts, p, k + 1) < 0;
            return Value(false);
          }
          lp := lp - 1;
        }
        k := k + 1;
      }
      if lp != 0 {
        return Value(false);
      }
      return Value(true);
    }

    /** One pass of find_main_op's loop, at token k: track the bracket depth
        and, at top level, append k to the array of its operator. */
    method ScanToken(ghost ts: seq<Token>, p: int, q: int, k: int, lp: int,
                     plus: seq<int>, plusptr: int, sub: seq<int>, subptr: int,
                     mul: seq<int>, mulptr: int, div: seq<int>, divptr: int)
        returns (lp': int, plus': seq<int>, plusptr': int, sub': seq<int>, subptr': int,
                 mul': seq<int>, mulptr': int, div': seq<int>, divptr': int)
      requires Valid() && ts == tokens[..] && 0 <= p <= k < q <= NR_TOKENS
      requires MainOperator.FitsOpArrays(ts, p, q) && lp == Depth(ts, p, k)
      requires Scanned(plus, plusptr, sub, subptr, mul, mulptr, div, divptr, ts, p, k, q)
      ensures lp' == Depth(ts, p, k + 1)
      ensures Scanned(plus', plusptr', sub', subptr', mul', mulptr', div', divptr', ts, p, k + 1, q)
    {
      lp', plus', plusptr', sub', subptr', mul', mulptr', div', divptr' :=
        lp, plus, plusptr, sub, subptr, mul, mulptr, div, divptr;
      if tokens[k].kind == LParen {
        lp' := lp' + 1;
      }
      if tokens[k].kind == RParen {
        lp' := lp' - 1;
      }
      assert lp' == Depth(ts, p, k + 1) && (MainOperator.TopLevel(ts, p, k) <==> lp' == 0);
      // Only an operator at bracket depth 0 is recorded.
      if lp' == 0 {
        var t := tokens[k].kind;
        if t == Plus {
          RoomFor(plus, plusptr, ts, p, k, q, Plus);
          plus' := plus[plusptr := k];
          plusptr' := plusptr + 1;
        } else if t == Minus {
          RoomFor(sub, subptr, ts, p, k, q, Minus);
          sub' := sub[subptr := k];
          subptr' := subptr + 1;
        } else if t == Star {
          RoomFor(mul, mulptr, ts, p, k, q, Star);
          mul' := mul[mulptr := k];
          mulptr' := mulptr + 1;
        } else if t == Slash {
          RoomFor(div, divptr, ts, p, k, q, Slash);
          div' := div[divptr := k];
          divptr' := divptr + 1;
        }
      }
      ScanStep(plus, plusptr, sub, subptr, mul, mulptr, div, divptr,
               plus', plusptr', sub', subptr', mul', mulptr', div', divptr', ts, p, k, q);
    }

    /** find_main_op(p, q), the scanning loop: record the position of every
        top-level operator in its own array, then choose from the last
        entries. Each array starts as {-1, 0, ..., 0}, so an entry 0 that is
        still -1 means the array is empty. */
    method FindMainOp(p: int, q: int) returns (op: int)
      requires Valid() && 0 <= p && q <= NR_TOKENS && MainOperator.FitsOpArrays(tokens[..], p, q)
      ensures op == MainOperator.FindMainOp(tokens[..], p, q)
    {
      ghost var ts := tokens[..];
      var plus: seq<int> := seq(MAXOP, i => if i == 0 then -1 else 0);
      var plusptr := 0;
      var sub: seq<int> := seq(MAXOP, i => if i == 0 then -1 else 0);
      var subptr := 0;
      var mul: seq<int> := seq(MAXOP, i => if i == 0 then -1 else 0);
      var mulptr := 0;
      var div: seq<int> := seq(MAXOP, i => if i == 0 then -1 else 0);
      var divptr := 0;
      var lp := 0;
      op := 0;
      var k := p;
      while k < q
        invariant p <= k && (k <= q || k == p)
        invariant k <= q ==> lp == Depth(ts, p, k)
        invariant Scanned(plus, plusptr, sub, subptr, mul, mulptr, div, divptr, ts, p, k, q)
      {
        lp, plus, plusptr, sub, subptr, mul, mulptr, div, divptr :=
          ScanToken(ts, p, q, k, lp, plus, plusptr, sub, subptr, mul, mulptr, div, divptr);
        k := k + 1;
      }
      ghost var lastPlus, lastSub, lastMul, lastDiv :=
        ScanDone(plus, plusptr, sub, subptr, mul, mulptr, div, divptr, ts, p, k, q);
      if plus[0] != -1 {
        plusptr := plusptr - 1;
        op := plus[plusptr];
      }
      if sub[0] != -1 {
        subptr := subptr - 1;
        if sub[subptr] > op {
          op := sub[subptr];
        }
      }
      if plus[0] == -1 && sub[0] == -1 {
        if mul[0] != -1 {
          mulptr := mulptr - 1;
          op := mul[mulptr];
        }
        if div[0] != -1 {
          divptr := divptr - 1;
          if div[divptr] > op {
            op := div[divptr];
          }
        }
      }
    }

    /** check_parentheses(p, q): `assert(0)` unless check_parentheses2(p, q)
        holds; then, when ts[p] is `(` and ts[q] is `)`, check_parentheses2
        of the inside, and false otherwise. */
    method CheckParentheses(p: int, q: int) returns (r: Outcome<bool>)
      requires Valid() && 0 <= p && q < NR_TOKENS
      ensures r == Brackets.CheckParentheses(tokens[..], p, q)
    {
      var outer := CheckParentheses2(p, q);
      if outer != Value(true) {
        return Abort;
      }
      if tokens[p].kind == LParen && tokens[q].kind == RParen {
        r := CheckParentheses2(p + 1, q - 1);
        return;
      }
      return Value(false);
    }

    /** eval(p, q), recursive over the slots of the buffer. */
    method Eval(p: int, q: int) returns (r: Outcome<int>)
      requires Valid() && 0 <= p && q < NR_TOKENS
      ensures r == Evaluator.Eval(tokens[..], p, q)
      decreases if p <= q then q - p + 1 else 0, 1
    {
      if p > q {
        return Abort;
      }
      if p == q {
        return Atoi(tokens[p].str);
      }
      var c := CheckParentheses(p, q);
      if c.Abort? {
        return Abort;
      }
      if c == Value(true) {
        r := Eval(p + 1, q - 1);
        return;
      }
      if !MainOperator.FitsOpArrays(tokens[..], p, q) {
        return Undefined;
      }
      var op := FindMainOp(p, q);
      MainOperator.FindMainOpRange(tokens[..], p, q);
      r := EvalSides(p, op, q);
      assert Evaluator.Eval(tokens[..], p, q) == Evaluator.Sequence(tokens[op].kind, Evaluator.Eval(tokens[..], p, op - 1), Evaluator.Eval(tokens[..], op + 1, q));
    }

    /** The split step of eval(p, q) at the operator op: the left side
        first, the right side only when the left one has a value, then the
        two values combined by the operator at op. */
    method EvalSides(p: int, op: int, q: int) returns (r: Outcome<int>)
      requires Valid() && 0 <= p <= q < NR_TOKENS && 0 <= op < q
      ensures r == Evaluator.Sequence(tokens[op].kind, Evaluator.Eval(tokens[..], p, op - 1), Evaluator.Eval(tokens[..], op + 1, q))
      decreases q - p + 1, 0
    {
      var val1 := Eval(p, op - 1);
      if !val1.Value? {
        return val1;
      }
      var val2 := Eval(op + 1, q);
      if !val2.Value? {
        return val2;
      }
      r := Combine(tokens[op].kind, val1.value, val2.value);
    }

    /** expr(e, success): tokenize e; on failure clear the flag and return 0;
        otherwise evaluate every recorded token and return the value as an
        unsigned 32-bit word, leaving the flag as the caller set it. */
    method Expr(e: string, success: bool) returns (w: Outcome<nat>, success': bool)
      requires Valid() && CString(e) && Fits(Lex(e).emitted)
      modifies this, tokens
      ensures Valid() && nrToken == |Lex(e).emitted|
      ensures tokens[..] == AfterMakeToken(old(tokens[..]), e)
      ensures (w, success') == ExprResult(old(tokens[..]), e, success)
    {
      var ok := MakeToken(e);
      if !ok {
        return Value(0), false;
      }
      var v := Eval(0, nrToken - 1);
      return WordOf(v), success;
    }
  }

  /** The buffer after make_token(e) has run to completion on ts. */
  function AfterMakeToken(ts: seq<Token>, e: string): (r: seq<Token>)
    requires WellFormed(ts) && Fits(Lex(e).emitted)
    ensures WellFormed(r) && |r| == |ts|
    ensures forall k :: |Lex(e).emitted| <= k < |ts| ==> r[k] == ts[k]
  {
    LexBounds(e);
    Record(ts, Lex(e).emitted)
  }

  /** eval's `uint32_t` result: the `int` it computed, modulo 2^32. */
  function ToWord(v: int): (w: nat)
    ensures w < 0x1_0000_0000
    ensures IsInt32(v) ==> Signed(w) == v
  {
    v % 0x1_0000_0000
  }

  /** A 32-bit word read back as a C `int`, as eval reads its recursive results. */
  function Signed(w: nat): int
    requires w < 0x1_0000_0000
  {
    if w <= INT_MAX then w else w - 0x1_0000_0000
  }

  function WordOf(r: Outcome<int>): (o: Outcome<nat>)
    ensures o.Value? <==> r.Value?
    ensures o.Value? ==> o.value == ToWord(r.value)
    ensures o == Abort <==> r == Abort
  {
    match r
    case Value(v) => Value(ToWord(v))
    case Abort => Abort
    case Undefined => Undefined
  }

  /** What expr(e, success) returns on buffer ts, and the flag afterwards:
      the flag is cleared exactly when tokenizing fails, a failure returns 0,
      and any value is a 32-bit word. */
  function ExprResult(ts: seq<Token>, e: string, success: bool): (r: (Outcome<nat>, bool))
    requires WellFormed(ts) && Fits(Lex(e).emitted)
    ensures r.1 <==> success && Lex(e).failedAt.None?
    ensures Lex(e).failedAt.Some? ==> r.0 == Value(0)
    ensures r.0.Value? ==> r.0.value < 0x1_0000_0000
  {
    if Lex(e).failedAt.Some? then (Value(0), false)
    else (WordOf(Evaluator.Eval(AfterMakeToken(ts, e), 0, |Lex(e).emitted| - 1)), success)
  }

  /** An input holding a character no rule accepts fails to tokenize: expr
      clears the flag and returns 0, whatever comes before that character. */
  lemma {:induction false} ExprRejectsStray(ts: seq<Token>, e: string, success: bool, i: nat)
    requires WellFormed(ts) && Fits(Lex(e).emitted) && i < |e| && Stray(e[i])
    ensures ExprResult(ts, e, success) == (Value(0), false)
  {
    LexFailsOnStray(e, i);
  }

  /** An empty or all-blank input records no token, so expr calls
      eval(0, -1), which fails its `assert(0)`. */
  lemma {:induction false} ExprOfBlanksAborts(ts: seq<Token>, e: string, success: bool)
    requires WellFormed(ts) && Fits(Lex(e).emitted) && forall i :: 0 <= i < |e| ==> e[i] == ' '
    ensures ExprResult(ts, e, success) == (Abort, success)
  {
    LexBlanks(e);
  }

  /** An input that tokenizes to a single operator or bracket is still read
      by atoi: eval reads a one-token range with atoi whatever its type, and
      make_token left the slot's text as it was. */
  lemma {:induction false} ExprOfOneOperator(ts: seq<Token>, e: string, k: Kind, success: bool)
    requires WellFormed(ts) && ValidLexeme(Op(k)) && Lex(e) == LexResult([Op(k)], None)
    ensures Fits(Lex(e).emitted)
    ensures AfterMakeToken(ts, e)[0] == Token(k, ts[0].str)
    ensures ExprResult(ts, e, success) == (WordOf(Atoi(ts[0].str)), success)
  {
    assert Fits(Lex(e).emitted);
    var buf := AfterMakeToken(ts, e);
    assert buf[0] == Write(ts[0], Op(k));
    assert Evaluator.Eval(buf, 0, 0) == Atoi(buf[0].str);
  }

  /** An input that tokenizes to the single number d is read back by atoi
      from slot 0 once d has been copied over its text. */
  lemma {:induction false} ExprOfOneNumber(ts: seq<Token>, e: string, d: string, success: bool)
    requires WellFormed(ts) && ValidLexeme(Number(d)) && |d| <= STR_LEN
    requires Lex(e) == LexResult([Number(d)], None)
    ensures Fits(Lex(e).emitted)
    ensures AfterMakeToken(ts, e)[0] == Write(ts[0], Number(d))
    ensures ExprResult(ts, e, success) == (WordOf(Atoi(Write(ts[0], Number(d)).str)), success)
  {
    assert Fits(Lex(e).emitted);
    var buf := AfterMakeToken(ts, e);
    assert buf[0] == Write(ts[0], Number(d));
    assert Evaluator.Eval(buf, 0, 0) == Atoi(buf[0].str);
  }

  /** Running expr twice on the same input gives the same answer and leaves
      the same buffer: the text the first run leaves behind a number's digits
      is exactly what the second run finds there. */
  lemma {:induction false} ExprRepeatable(ts: seq<Token>, e: string, success: bool)
    requires WellFormed(ts) && Fits(Lex(e).emitted)
    ensures AfterMakeToken(AfterMakeToken(ts, e), e) == AfterMakeToken(ts, e)
    ensures ExprResult(AfterMakeToken(ts, e), e, success) == ExprResult(ts, e, success)
  {
    LexBounds(e);
    RecordIdempotent(ts, Lex(e).emitted);
  }

  /** A whole input whose brackets balance and whose last token is `)` fails
      the `assert(0)` of check_parentheses: `(1+2)` cannot be evaluated. */
  lemma {:induction false} ExprClosingBracketAborts(ts: seq<Token>, e: string, success: bool)
    requires WellFormed(ts) && Fits(Lex(e).emitted) && Lex(e).failedAt.None?
    requires |Lex(e).emitted| >= 2 && Lex(e).emitted[|Lex(e).emitted| - 1] == Op(RParen)
    requires Balanced(AfterMakeToken(ts, e), 0, |Lex(e).emitted|)
    ensures ExprResult(ts, e, success) == (Abort, success)
  {
    var buf := AfterMakeToken(ts, e);
    var q := |Lex(e).emitted| - 1;
    assert buf[q] == Write(ts[q], Op(RParen));
    ClosingBracketAborts(buf, 0, q);
    assert Evaluator.Eval(buf, 0, q) == Abort;
  }

  /** Numbers separated by arithmetic operators, as lexemes. */
  predicate Chain(ls: seq<Lexeme>) {
    && |ls| % 2 == 1
    && (forall k :: 0 <= k < |ls| && k % 2 == 0 ==> ls[k].Number?)
    && (forall k :: 0 <= k < |ls| && k % 2 == 1 ==> ls[k].Op? && IsArith(ls[k].op))
  }

  /** An input that tokenizes to a chain of numbers and operators evaluates
      to the usual left-to-right, multiplication-first value of the numbers
      atoi reads from the slots, as a 32-bit word, exactly when eval runs
      into no undefined behaviour on it; the flag is left alone. */
  lemma {:induction false} ExprOfChain(ts: seq<Token>, e: string, success: bool)
    requires WellFormed(ts) && Fits(Lex(e).emitted) && Lex(e).failedAt.None? && Chain(Lex(e).emitted)
    ensures 0 < |Lex(e).emitted| <= |ts|
    ensures ExprResult(ts, e, success) ==
              (if Defined(AfterMakeToken(ts, e), 0, |Lex(e).emitted| - 1)
               then Value(ToWord(Reference(AfterMakeToken(ts, e), 0, |Lex(e).emitted| - 1)))
               else Undefined,
               success)
  {
    var ls := Lex(e).emitted;
    var buf := AfterMakeToken(ts, e);
    ChainRecordsFlat(ts, ls);
    EvalFlat(buf, 0, |ls| - 1);
    assert ExprResult(ts, e, success) == (WordOf(Evaluator.Eval(buf, 0, |ls| - 1)), success);
  }

  /** A chain of lexemes is recorded as a flat chain of tokens. */
  lemma ChainRecordsFlat(ts: seq<Token>, ls: seq<Lexeme>)
    requires WellFormed(ts) && Fits(ls) && Chain(ls)
    ensures Flat(Record(ts, ls), 0, |ls| - 1)
  {
    var buf := Record(ts, ls);
    forall k | 0 <= k < |ls| && k % 2 == 0
      ensures buf[k].kind == NumD
    {
      assert buf[k] == Write(ts[k], ls[k]);
    }
    forall k | 0 <= k < |ls| && k % 2 == 1
      ensures IsArith(buf[k].kind)
    {
      assert buf[k] == Write(ts[k], ls[k]);
    }
  }

  /** What find_main_op relies on in one of its position arrays once its
      cursor has reached k in the scan of ts[p..q-1]: ptr counts the
      top-level `kind` operators seen so far, entry ptr - 1 is the last of
      them, and entry 0 keeps its initial -1 exactly while none is seen (a
      position is never negative). */
  ghost predicate Records(arr: seq<int>, ptr: int, ts: seq<Token>, p: int, k: int, q: int, kind: Kind)
    requires 0 <= p && q <= |ts|
  {
    var seen := MainOperator.TopOps(ts, p, if k < q then k else q, kind);
    && |arr| == MAXOP && ptr == |seen| && ptr <= MAXOP
    && (if ptr == 0 then arr[0] == -1 else arr[0] >= 0 && arr[ptr - 1] == MainOperator.LastOrZero(seen))
  }

  /** The four arrays of find_main_op after its cursor has reached k. */
  ghost predicate Scanned(plus: seq<int>, plusptr: int, sub: seq<int>, subptr: int,
                          mul: seq<int>, mulptr: int, div: seq<int>, divptr: int,
                          ts: seq<Token>, p: int, k: int, q: int)
    requires 0 <= p && q <= |ts|
  {
    && Records(plus, plusptr, ts, p, k, q, Plus)
    && Records(sub, subptr, ts, p, k, q, Minus)
    && Records(mul, mulptr, ts, p, k, q, Star)
    && Records(div, divptr, ts, p, k, q, Slash)
  }

  /** What one step of the scan does to the array for `kind`: a top-level
      `kind` at k is appended, anything else leaves it as it is. */
  ghost predicate Stepped(arr: seq<int>, ptr: int, arr': seq<int>, ptr': int, ts: seq<Token>, p: int, k: int, kind: Kind)
    requires 0 <= p <= k < |ts|
  {
    if ts[k].kind == kind && MainOperator.TopLevel(ts, p, k) then 0 <= ptr < |arr| && arr' == arr[ptr := k] && ptr' == ptr + 1
    else arr' == arr && ptr' == ptr
  }

  /** The bound on the number of operators leaves room in the array for a
      top-level `kind` at k. */
  lemma RoomFor(arr: seq<int>, ptr: int, ts: seq<Token>, p: int, k: int, q: int, kind: Kind)
    requires 0 <= p <= k < q <= |ts| && Records(arr, ptr, ts, p, k, q, kind)
    requires |MainOperator.TopOps(ts, p, q, kind)| <= MAXOP
    requires ts[k].kind == kind && MainOperator.TopLevel(ts, p, k)
    ensures 0 <= ptr < MAXOP == |arr|
  {
    MainOperator.TopOpsGrow(ts, p, k + 1, q, kind);
  }

  /** One step of the scan for `kind` keeps the array's record. */
  lemma RecordsNext(arr: seq<int>, ptr: int, arr': seq<int>, ptr': int, ts: seq<Token>, p: int, k: int, q: int, kind: Kind)
    requires 0 <= p <= k < q <= |ts| && Records(arr, ptr, ts, p, k, q, kind)
    requires Stepped(arr, ptr, arr', ptr', ts, p, k, kind)
    ensures Records(arr', ptr', ts, p, k + 1, q, kind)
  {
  }

  /** One step of the scan keeps all four records. */
  lemma ScanStep(plus: seq<int>, plusptr: int, sub: seq<int>, subptr: int,
                 mul: seq<int>, mulptr: int, div: seq<int>, divptr: int,
                 plus': seq<int>, plusptr': int, sub': seq<int>, subptr': int,
                 mul': seq<int>, mulptr': int, div': seq<int>, divptr': int,
                 ts: seq<Token>, p: int, k: int, q: int)
    requires 0 <= p <= k < q <= |ts|
    requires Scanned(plus, plusptr, sub, subptr, mul, mulptr, div, divptr, ts, p, k, q)
    requires Stepped(plus, plusptr, plus', plusptr', ts, p, k, Plus)
    requires Stepped(sub, subptr, sub', subptr', ts, p, k, Minus)
    requires Stepped(mul, mulptr, mul', mulptr', ts, p, k, Star)
    requires Stepped(div, divptr, div', divptr', ts, p, k, Slash)
    ensures Scanned(plus', plusptr', sub', subptr', mul', mulptr', div', divptr', ts, p, k + 1, q)
  {
    RecordsNext(plus, plusptr, plus', plusptr', ts, p, k, q, Plus);
    RecordsNext(sub, subptr, sub', subptr', ts, p, k, q, Minus);
    RecordsNext(mul, mulptr, mul', mulptr', ts, p, k, q, Star);
    RecordsNext(div, divptr, div', divptr', ts, p, k, q, Slash);
  }

  /** After the scan: entry 0 is -1 exactly when no top-level `kind` was
      seen, and otherwise entry ptr - 1 is the last of them. */
  lemma RecordedLast(arr: seq<int>, ptr: int, ts: seq<Token>, p: int, k: int, q: int, kind: Kind)
      returns (last: int)
    requires 0 <= p && q <= |ts| && k >= q && Records(arr, ptr, ts, p, k, q, kind)
    ensures last == MainOperator.LastOrZero(MainOperator.TopOps(ts, p, q, kind)) && last >= 0
    ensures arr[0] == -1 <==> MainOperator.TopOps(ts, p, q, kind) == []
    ensures |arr| == MAXOP && if arr[0] == -1 then last == 0 else 0 < ptr <= MAXOP && arr[ptr - 1] == last
  {
    MainOperator.TopOpsSpec(ts, p, q, kind);
    last := MainOperator.LastOrZero(MainOperator.TopOps(ts, p, q, kind));
  }

  /** After the scan, find_main_op's choice in terms of the last entries. */
  lemma ScanDone(plus: seq<int>, plusptr: int, sub: seq<int>, subptr: int,
                 mul: seq<int>, mulptr: int, div: seq<int>, divptr: int,
                 ts: seq<Token>, p: int, k: int, q: int)
      returns (lastPlus: int, lastSub: int, lastMul: int, lastDiv: int)
    requires 0 <= p && q <= |ts| && k >= q
    requires Scanned(plus, plusptr, sub, subptr, mul, mulptr, div, divptr, ts, p, k, q)
    ensures |plus| == MAXOP && lastPlus >= 0 && if plus[0] == -1 then lastPlus == 0 else 0 < plusptr <= MAXOP && plus[plusptr - 1] == lastPlus
    ensures |sub| == MAXOP && lastSub >= 0 && if sub[0] == -1 then lastSub == 0 else 0 < subptr <= MAXOP && sub[subptr - 1] == lastSub
    ensures |mul| == MAXOP && lastMul >= 0 && if mul[0] == -1 then lastMul == 0 else 0 < mulptr <= MAXOP && mul[mulptr - 1] == lastMul
    ensures |div| == MAXOP && lastDiv >= 0 && if div[0] == -1 then lastDiv == 0 else 0 < divptr <= MAXOP && div[divptr - 1] == lastDiv
    ensures MainOperator.FindMainOp(ts, p, q) ==
              if plus[0] != -1 || sub[0] != -1 then MainOperator.Max(lastPlus, lastSub) else MainOperator.Max(lastMul, lastDiv)
  {
    lastPlus := RecordedLast(plus, plusptr, ts, p, k, q, Plus);
    lastSub := RecordedLast(sub, subptr, ts, p, k, q, Minus);
    lastMul := RecordedLast(mul, mulptr, ts, p, k, q, Star);
    lastDiv := RecordedLast(div, divptr, ts, p, k, q, Slash);
  }

  /** The rule loop of make_token: try the rules in order at the cursor and
      stop at the first whose match starts there, with the length of that
      match; i is NR_REGEX when none does. */
  method TryRules(e: string, position: int) returns (i: nat, n: nat)
    requires 0 <= position <= |e|
    ensures i <= |Rules| && FirstRule(e[position..], 0) == (if i < |Rules| then Some(i) else None)
    ensures i < |Rules| ==> n == MatchLen(Rules[i].pattern, e[position..])
  {
    i := 0;
    n := 0;
    while i < |Rules|
      invariant 0 <= i <= |Rules| && FirstRule(e[position..], 0) == FirstRule(e[position..], i)
      decreases |Rules| - i
    {
      n := MatchLen(Rules[i].pattern, e[position..]);
      if n > 0 {
        break;
      }
      i := i + 1;
    }
  }

  /** make_token's state once its cursor has reached `position`: the lexemes
      recorded so far are `done`, lexing the rest of the input gives the rest
      of Lex(e), and the buffer holds `done` recorded over its initial
      contents `start`. */
  ghost predicate Lexing(e: string, position: int, done: seq<Lexeme>, start: seq<Token>, buf: seq<Token>, count: int) {
    && WellFormed(start) && 0 <= position <= |e|
    && Lex(e) == Then(done, position, Lex(e[position..]))
    && count == |done| && Fits(done) && (forall l :: l in done ==> ValidLexeme(l))
    && buf == Record(start, done)
  }

  /** The first rule matching at the cursor advances Lex by its match. */
  lemma Advance(e: string, position: int, done: seq<Lexeme>, i: nat, n: nat)
    requires 0 <= position < |e| && Lex(e) == Then(done, position, Lex(e[position..]))
    requires FirstRule(e[position..], 0) == Some(i) && n == MatchLen(Rules[i].pattern, e[position..])
    ensures 0 < n <= |e| - position
    ensures Lex(e) == Then(done + Emit(Rules[i].tokenType, e[position..][..n]), position + n, Lex(e[position + n..]))
  {
    var s := e[position..];
    LexByRules(s);
    assert TableStep(s, i);
    assert s[n..] == e[position + n..];
    ThenThen(done, position, Emit(Rules[i].tokenType, s[..n]), n, Lex(s[n..]));
  }

  /** The match at the cursor fits: a token it records has a free slot, and
      the digits it copies fit the slot's text. */
  lemma MatchFits(e: string, position: int, done: seq<Lexeme>, start: seq<Token>, buf: seq<Token>, i: nat, n: nat)
    requires Fits(Lex(e).emitted) && position < |e| && Lexing(e, position, done, start, buf, |done|)
    requires FirstRule(e[position..], 0) == Some(i) && n == MatchLen(Rules[i].pattern, e[position..])
    ensures 0 < n <= |e| - position && |buf| == NR_TOKENS
    ensures Emit(Rules[i].tokenType, e[position..][..n]) != [] ==> |done| < NR_TOKENS
    ensures Rules[i].tokenType == NumD ==> n <= STR_LEN
  {
    Advance(e, position, done, i, n);
    var emit := Emit(Rules[i].tokenType, e[position..][..n]);
    assert Lex(e).emitted == done + emit + Lex(e[position + n..]).emitted;
    if Rules[i].tokenType == NumD {
      assert Lex(e).emitted[|done|] == Number(e[position..][..n]);
    }
  }

  /** What the switch of make_token does with a match of length n of a rule
      of type k at `position`: the lexemes and the buffer before and after. */
  ghost predicate Recorded(e: string, position: int, n: int, k: Kind, done: seq<Lexeme>, buf: seq<Token>,
                           done': seq<Lexeme>, buf': seq<Token>, count': int)
    requires CString(e) && 0 <= position && 0 < n && position + n <= |e|
  {
    match k
    case Plus | Minus | Star | Slash | LParen | RParen =>
      && |done| < |buf| && done' == done + [Op(k)] && count' == |done| + 1
      && buf' == buf[|done| := buf[|done|].(kind := k)]
    case NumD =>
      && |done| < |buf| && n <= |buf[|done|].str| && done' == done + [Number(e[position..][..n])] && count' == |done| + 1
      && buf' == buf[|done| := Token(NumD, StrNCpy(buf[|done|].str, e[position..], n))]
    case _ =>
      done' == done && buf' == buf && count' == |done|
  }

  /** One iteration of make_token's loop keeps its state in step with Lex. */
  lemma LexStep(e: string, position: int, done: seq<Lexeme>, start: seq<Token>, buf: seq<Token>, i: nat, n: nat,
                done': seq<Lexeme>, buf': seq<Token>, count': int)
    requires CString(e) && Fits(Lex(e).emitted) && position < |e| && Lexing(e, position, done, start, buf, |done|)
    requires FirstRule(e[position..], 0) == Some(i) && n == MatchLen(Rules[i].pattern, e[position..])
    requires 0 < n <= |e| - position && Recorded(e, position, n, Rules[i].tokenType, done, buf, done', buf', count')
    ensures Lexing(e, position + n, done', start, buf', count')
  {
    Advance(e, position, done, i, n);
    match Rules[i].tokenType {
      case Plus | Minus | Star | Slash | LParen | RParen =>
        StepOperator(e, position, done, start, buf, Rules[i].tokenType, n);
      case NumD =>
        StepNumber(e, position, done, start, buf, n);
      case _ =>
        StepSilent(e, position, done, start, buf, n);
    }
  }

  /** An operator or bracket at the cursor sets the type of the next slot. */
  lemma StepOperator(e: string, position: int, done: seq<Lexeme>, start: seq<Token>, buf: seq<Token>, k: Kind, n: nat)
    requires Fits(Lex(e).emitted) && Lexing(e, position, done, start, buf, |done|)
    requires 0 < n <= |e| - position && Lex(e) == Then(done + [Op(k)], position + n, Lex(e[position + n..]))
    ensures |done| < |buf|
    ensures Lexing(e, position + n, done + [Op(k)], start, buf[|done| := buf[|done|].(kind := k)], |done| + 1)
  {
    LexBounds(e);
    EmittedPrefix(done, [Op(k)], Lex(e[position + n..]).emitted);
    RecordSnoc(start, done, Op(k));
  }

  /** Blanks and `==` at the cursor record nothing. */
  lemma StepSilent(e: string, position: int, done: seq<Lexeme>, start: seq<Token>, buf: seq<Token>, n: nat)
    requires Lexing(e, position, done, start, buf, |done|)
    requires 0 < n <= |e| - position && Lex(e) == Then(done + [], position + n, Lex(e[position + n..]))
    ensures Lexing(e, position + n, done, start, buf, |done|)
  {
    assert done + [] == done;
  }

  /** A run of digits at the cursor sets the type of the next slot and copies
      the digits over the first bytes of its text. */
  lemma StepNumber(e: string, position: int, done: seq<Lexeme>, start: seq<Token>, buf: seq<Token>, n: nat)
    requires CString(e) && Fits(Lex(e).emitted) && Lexing(e, position, done, start, buf, |done|)
    requires 0 < n <= |e| - position
    requires Lex(e) == Then(done + [Number(e[position..][..n])], position + n, Lex(e[position + n..]))
    ensures |done| < |buf| && n <= |buf[|done|].str|
    ensures Lexing(e, position + n, done + [Number(e[position..][..n])], start,
                   buf[|done| := buf[|done|].(kind := NumD).(str := StrNCpy(buf[|done|].str, e[position..], n))],
                   |done| + 1)
  {
    var d := e[position..][..n];
    LexBounds(e);
    EmittedPrefix(done, [Number(d)], Lex(e[position + n..]).emitted);
    RecordSnoc(start, done, Number(d));
    assert Number(d) in done + [Number(d)];
    StrNCpyMatch(buf[|done|].str, e[position..], n);
  }

  /** Lexing stopped at an unmatched character with every lexeme before it
      recorded into a buffer that is still well formed. */
  ghost predicate Stopped(e: string, start: seq<Token>, buf: seq<Token>, count: int) {
    && Lex(e).failedAt.Some? && count == |Lex(e).emitted| && WellFormed(start) && Fits(Lex(e).emitted)
    && buf == Record(start, Lex(e).emitted) && WellFormed(buf) && 0 <= count <= NR_TOKENS
  }

  /** No rule matches at the cursor: lexing stops there with what is recorded. */
  lemma LexStops(e: string, position: int, done: seq<Lexeme>, start: seq<Token>, buf: seq<Token>, count: int)
    requires position < |e| && Lexing(e, position, done, start, buf, count)
    requires FirstRule(e[position..], 0).None?
    ensures Stopped(e, start, buf, count)
  {
    LexByRules(e[position..]);
  }

  /** The cursor reached the end: lexing succeeded with what is recorded. */
  lemma LexEnds(e: string, position: int, done: seq<Lexeme>, start: seq<Token>, buf: seq<Token>, count: int)
    requires position >= |e| && Lexing(e, position, done, start, buf, count)
    ensures Lex(e).failedAt.None?
    ensures count == |Lex(e).emitted| && buf == Record(start, Lex(e).emitted)
    ensures WellFormed(buf) && 0 <= count <= NR_TOKENS
  {
    assert e[position..] == [];
  }

  /** The emitted lexemes are the ones already recorded, then the ones of the
      current match, then the rest; so the ones recorded so far fit. */
  lemma EmittedPrefix(done: seq<Lexeme>, emit: seq<Lexeme>, rest: seq<Lexeme>)
    requires Fits(done + emit + rest) && forall l :: l in done + emit + rest ==> ValidLexeme(l)
    ensures Fits(done + emit) && forall l :: l in done + emit ==> ValidLexeme(l)
  {
    forall l | l in done + emit
      ensures l in done + emit + rest
    {
    }
  }

}
