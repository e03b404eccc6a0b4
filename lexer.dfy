/** The lexer of the expression unit: the rules table, the anchored match of
    one rule, and `Lex`, the specification of what make_token records for
    an input string. The POSIX regular expressions of the table are replaced
    by direct character tests with the same anchored, longest-match result. */
module Lexer {
  import opened Tokens

  /** A rule's regular expression: `Run(cls)` is `cls+` (" +" and
      "[0-9]{1,}"), `Lit(t)` matches exactly the text t. */
  datatype Pattern = Run(cls: CharClass) | Lit(text: string)

  datatype Rule = Rule(pattern: Pattern, tokenType: Kind)

  /** The rules table, in its declaration order. */
  const Rules: seq<Rule> := [
    Rule(Run(Blank), NoType),
    Rule(Lit("+"), Plus),
    Rule(Lit("-"), Minus),
    Rule(Lit("*"), Star),
    Rule(Lit("/"), Slash),
    Rule(Lit("("), LParen),
    Rule(Lit(")"), RParen),
    Rule(Run(Digit), NumD),
    Rule(Lit("=="), Eq)
  ]

  /** What one match makes make_token record: the type of an operator or
      bracket token, or the digits it copies into a number token. */
  datatype Lexeme = Op(op: Kind) | Number(digits: string)

  /** Result of lexing: the lexemes recorded, in order, and the offset at
      which no rule matched, if lexing stopped there. */
  datatype LexResult = LexResult(emitted: seq<Lexeme>, failedAt: Option<nat>)

  /** Length of the match of `pat` starting exactly at the beginning of s,
      or 0 when the leftmost match (if any) does not start there. */
  function MatchLen(pat: Pattern, s: string): (n: nat)
    ensures n <= |s|
  {
    match pat
    case Run(cls) => Span(cls, s)
    case Lit(t) => if |t| <= |s| && s[..|t|] == t then |t| else 0
  }

  /** Index of the first rule, from `from` on, that matches at the start of s. */
  function FirstRule(s: string, from: nat): (r: Option<nat>)
    requires from <= |Rules|
    ensures r.Some? ==> from <= r.value < |Rules| && MatchLen(Rules[r.value].pattern, s) > 0
    ensures forall j :: from <= j < (if r.Some? then r.value else |Rules|) ==> MatchLen(Rules[j].pattern, s) == 0
    decreases |Rules| - from
  {
    if from == |Rules| then None
    else if MatchLen(Rules[from].pattern, s) > 0 then Some(from)
    else FirstRule(s, from + 1)
  }

  /** The lexemes the switch of make_token records for one match of a rule of
      type `tokenType` on `text`: one token for an operator, bracket or number,
      none for blanks, and none for `==`, for which the switch has no case. */
  function Emit(tokenType: Kind, text: string): (r: seq<Lexeme>)
    ensures |r| <= 1
    ensures r == [] <==> tokenType == Unset || tokenType == NoType || tokenType == Eq
    ensures forall l :: l in r ==> (l.Op? ==> l.op == tokenType) && (l.Number? ==> tokenType == NumD && l.digits == text)
  {
    match tokenType
    case Plus | Minus | Star | Slash | LParen | RParen => [Op(tokenType)]
    case NumD => [Number(text)]
    case _ => []
  }

  /** The lexemes `emitted` of one match of length n, then the rest. */
  function Then(emitted: seq<Lexeme>, n: nat, rest: LexResult): LexResult {
    LexResult(emitted + rest.emitted,
              match rest.failedAt case None => None case Some(k) => Some(k + n))
  }

  /** A lexeme make_token can record: an operator or bracket, or a non-empty
      run of digits. */
  predicate ValidLexeme(l: Lexeme) {
    match l
    case Op(k) => IsArith(k) || k == LParen || k == RParen
    case Number(d) => |d| > 0 && forall i :: 0 <= i < |d| ==> IsDigit(d[i])
  }

  /** Lexing of s from its first character, by character tests: a maximal
      run of blanks records nothing, an operator or bracket records one
      token, a maximal run of digits records one number, `==` records
      nothing, and any other character stops lexing at its offset. This is
      the specification of make_token's scanning loop. */
  function Lex(s: string): LexResult
    decreases |s|
  {
    if s == [] then LexResult([], None)
    else if s[0] == ' ' then
      var n := Span(Blank, s);
      Then([], n, Lex(s[n..]))
    else if OperatorKind(s[0]).Some? then
      Then([Op(OperatorKind(s[0]).value)], 1, Lex(s[1..]))
    else if IsDigit(s[0]) then
      var n := Span(Digit, s);
      Then([Number(s[..n])], n, Lex(s[n..]))
    else if |s| >= 2 && s[0] == '=' && s[1] == '=' then
      Then([], 2, Lex(s[2..]))
    else
      LexResult([], Some(0))
  }

  /** Every lexeme Lex records is one make_token can record, there are no
      more of them than characters, and lexing can only stop inside s. */
  lemma {:induction false} LexBounds(s: string)
    ensures forall l :: l in Lex(s).emitted ==> ValidLexeme(l)
    ensures |Lex(s).emitted| <= |s|
    ensures Lex(s).failedAt.Some? ==> Lex(s).failedAt.value < |s|
    decreases |s|
  {
    if s == [] {
    } else if s[0] == ' ' {
      LexBounds(s[Span(Blank, s)..]);
    } else if OperatorKind(s[0]).Some? {
      LexBounds(s[1..]);
    } else if IsDigit(s[0]) {
      LexBounds(s[Span(Digit, s)..]);
    } else if |s| >= 2 && s[0] == '=' && s[1] == '=' {
      LexBounds(s[2..]);
    }
  }

  /** The operator or bracket character c stands for, if any. */
  function OperatorKind(c: char): Option<Kind> {
    match c
    case '+' => Some(Plus)
    case '-' => Some(Minus)
    case '*' => Some(Star)
    case '/' => Some(Slash)
    case '(' => Some(LParen)
    case ')' => Some(RParen)
    case _ => None
  }

  /** s starts with a character no rule accepts: not a blank, an operator, a
      bracket or a digit, and not the start of `==`. */
  predicate StartsUnmatched(s: string) {
    s != [] && s[0] != ' ' && OperatorKind(s[0]).None? && !IsDigit(s[0]) && !(|s| >= 2 && s[0] == '=' && s[1] == '=')
  }

  /** The rule that matches first at the start of s, read off its first character. */
  function RuleFor(s: string): Option<nat>
    requires s != []
  {
    match s[0]
    case ' ' => Some(0)
    case '+' => Some(1)
    case '-' => Some(2)
    case '*' => Some(3)
    case '/' => Some(4)
    case '(' => Some(5)
    case ')' => Some(6)
    case _ => if IsDigit(s[0]) then Some(7) else if |s| >= 2 && s[0] == '=' && s[1] == '=' then Some(8) else None
  }

  /** The rules table tried in order selects the rule the first character names. */
  lemma FirstRuleByChar(s: string)
    requires s != []
    ensures FirstRule(s, 0) == RuleFor(s)
  {
    assert MatchLen(Rules[0].pattern, s) > 0 <==> s[0] == ' ';
    assert MatchLen(Rules[7].pattern, s) > 0 <==> IsDigit(s[0]);
    forall i | 1 <= i <= 6
      ensures MatchLen(Rules[i].pattern, s) > 0 <==> s[0] == Rules[i].pattern.text[0]
    {
      assert |Rules[i].pattern.text| == 1;
    }
  }

  /** What make_token does at the start of s once rule i has matched:
      record the lexemes of that rule's type, move the cursor past the match;
      and Lex takes exactly that step. */
  predicate TableStep(s: string, i: nat)
    requires i < |Rules|
  {
    var n := MatchLen(Rules[i].pattern, s);
    0 < n <= |s| && Lex(s) == Then(Emit(Rules[i].tokenType, s[..n]), n, Lex(s[n..]))
  }

  /** The step make_token takes at the start of s by trying the rules table
      in order is the step Lex takes by looking at the first character: when
      no rule matches, lexing stops there; otherwise the first matching
      rule's lexemes are recorded and the cursor moves past its match. */
  lemma LexByRules(s: string)
    requires s != []
    ensures FirstRule(s, 0).None? ==> Lex(s) == LexResult([], Some(0))
    ensures FirstRule(s, 0).Some? ==> TableStep(s, FirstRule(s, 0).value)
  {
    FirstRuleByChar(s);
    var c := s[0];
    if c == ' ' {
      assert Rules[0] == Rule(Run(Blank), NoType);
      RunRuleStep(s, 0, Blank, NoType);
    } else if c == '+' {
      assert Rules[1] == Rule(Lit("+"), Plus);
      LiteralRuleStep(s, 1, Plus);
    } else if c == '-' {
      assert Rules[2] == Rule(Lit("-"), Minus);
      LiteralRuleStep(s, 2, Minus);
    } else if c == '*' {
      assert Rules[3] == Rule(Lit("*"), Star);
      LiteralRuleStep(s, 3, Star);
    } else if c == '/' {
      assert Rules[4] == Rule(Lit("/"), Slash);
      LiteralRuleStep(s, 4, Slash);
    } else if c == '(' {
      assert Rules[5] == Rule(Lit("("), LParen);
      LiteralRuleStep(s, 5, LParen);
    } else if c == ')' {
      assert Rules[6] == Rule(Lit(")"), RParen);
      LiteralRuleStep(s, 6, RParen);
    } else if IsDigit(c) {
      assert Rules[7] == Rule(Run(Digit), NumD);
      RunRuleStep(s, 7, Digit, NumD);
    } else if |s| >= 2 && s[0] == '=' && s[1] == '=' {
      assert Rules[8] == Rule(Lit("=="), Eq);
      EqualRuleStep(s, 8);
    }
  }

  lemma LiteralRuleStep(s: string, i: nat, k: Kind)
    requires s != [] && i < |Rules| && Rules[i] == Rule(Lit([s[0]]), k) && OperatorKind(s[0]) == Some(k)
    ensures TableStep(s, i)
  {
    assert s[..1] == [s[0]];
  }

  lemma RunRuleStep(s: string, i: nat, cls: CharClass, k: Kind)
    requires s != [] && i < |Rules| && Rules[i] == Rule(Run(cls), k) && InClass(cls, s[0])
    requires (cls == Blank && k == NoType) || (cls == Digit && k == NumD)
    ensures TableStep(s, i)
  {
  }

  lemma EqualRuleStep(s: string, i: nat)
    requires |s| >= 2 && s[0] == '=' && s[1] == '=' && i < |Rules| && Rules[i] == Rule(Lit("=="), Eq)
    ensures TableStep(s, i)
  {
    assert s[..2] == "==";
  }

  /** Lexing stops only at a character no rule accepts. */
  lemma {:induction false} LexFailsAtUnmatched(s: string)
    ensures Lex(s).failedAt.Some? ==> Lex(s).failedAt.value < |s| && StartsUnmatched(s[Lex(s).failedAt.value..])
    decreases |s|
  {
    LexBounds(s);
    if s != [] {
      var n := if s[0] == ' ' then Span(Blank, s) else if OperatorKind(s[0]).Some? then 1
               else if IsDigit(s[0]) then Span(Digit, s) else 2;
      if n <= |s| && (s[0] == ' ' || OperatorKind(s[0]).Some? || IsDigit(s[0]) || (|s| >= 2 && s[0] == '=' && s[1] == '=')) {
        LexFailsAtUnmatched(s[n..]);
        var r := Lex(s[n..]);
        if r.failedAt.Some? {
          assert s[n..][r.failedAt.value..] == s[r.failedAt.value + n..];
        }
      } else {
        assert s[0..] == s;
      }
    }
  }

  /** A character no rule can consume: not a blank, an operator, a bracket, a
      digit or `=`. */
  predicate Stray(c: char) {
    c != ' ' && OperatorKind(c).None? && !IsDigit(c) && c != '='
  }

  /** Lexing stops at or before the first stray character: no rule can step
      over it. */
  lemma {:induction false} LexFailsOnStray(s: string, i: nat)
    requires i < |s| && Stray(s[i])
    ensures Lex(s).failedAt.Some? && Lex(s).failedAt.value <= i
    decreases |s|
  {
    if i > 0 {
      var n := if s[0] == ' ' then Span(Blank, s) else if OperatorKind(s[0]).Some? then 1
               else if IsDigit(s[0]) then Span(Digit, s) else 2;
      if s[0] == ' ' || OperatorKind(s[0]).Some? || IsDigit(s[0]) || (|s| >= 2 && s[0] == '=' && s[1] == '=') {
        assert n <= i;
        LexFailsOnStray(s[n..], i - n);
      }
    }
  }

  /** A leading blank records nothing and only moves a failure offset by one. */
  lemma LexLeadingBlank(s: string)
    ensures Lex([' '] + s) == Then([], 1, Lex(s))
  {
    var t := [' '] + s;
    assert t[1..] == s;
    if s != [] && s[0] == ' ' {
      assert Span(Blank, t) == 1 + Span(Blank, s);
      assert t[Span(Blank, t)..] == s[Span(Blank, s)..];
    } else {
      assert Span(Blank, t) == 1;
    }
  }

  /** An empty or all-blank input records nothing and lexes to the end. */
  lemma LexBlanks(s: string)
    requires forall i :: 0 <= i < |s| ==> s[i] == ' '
    ensures Lex(s) == LexResult([], None)
  {
    if s != [] {
      assert Span(Blank, s) == |s|;
      assert s[|s|..] == [];
    }
  }

  /** `==` is accepted but records nothing. */
  lemma LexEqualSign(s: string)
    ensures Lex("==" + s) == Then([], 2, Lex(s))
  {
    var t := "==" + s;
    assert t[0] == '=' && t[1] == '=' && t[2..] == s;
  }

  /** The text of a lexeme: its operator character or its digits. */
  function Text(l: Lexeme): string
    requires ValidLexeme(l)
  {
    match l
    case Op(k) =>
      if k == Plus then "+" else if k == Minus then "-" else if k == Star then "*"
      else if k == Slash then "/" else if k == LParen then "(" else ")"
    case Number(d) => d
  }

  /** The lexemes written back as text, each followed by one blank. */
  function Unlex(ls: seq<Lexeme>): string
    requires forall l :: l in ls ==> ValidLexeme(l)
  {
    if ls == [] then [] else Text(ls[0]) + " " + Unlex(ls[1..])
  }

  /** Round trip: lexing the text of any sequence of lexemes, blank-separated,
      gives back exactly those lexemes and succeeds. */
  lemma {:induction false} LexUnlex(ls: seq<Lexeme>)
    requires forall l :: l in ls ==> ValidLexeme(l)
    ensures Lex(Unlex(ls)) == LexResult(ls, None)
  {
    if ls != [] {
      var rest := Unlex(ls[1..]);
      calc {
        Lex(Unlex(ls));
        { assert Unlex(ls) == Text(ls[0]) + [' '] + rest; }
        Lex(Text(ls[0]) + [' '] + rest);
        { LexLexemeThenBlank(ls[0], rest); }
        Then([ls[0]], |Text(ls[0])|, Lex([' '] + rest));
        { LexLeadingBlank(rest); }
        Then([ls[0]], |Text(ls[0])|, Then([], 1, Lex(rest)));
        { LexUnlex(ls[1..]); }
        Then([ls[0]], |Text(ls[0])|, Then([], 1, LexResult(ls[1..], None)));
        { assert [ls[0]] + ls[1..] == ls; }
        LexResult(ls, None);
      }
    }
  }

  /** The text of one lexeme followed by a blank lexes to that lexeme, then
      to whatever the blank and the rest lex to. */
  lemma LexLexemeThenBlank(l: Lexeme, rest: string)
    requires ValidLexeme(l)
    ensures Lex(Text(l) + [' '] + rest) == Then([l], |Text(l)|, Lex([' '] + rest))
  {
    match l
    case Op(k) => LexOperatorThenBlank(k, rest);
    case Number(d) => LexNumberThenBlank(d, rest);
  }

  lemma LexOperatorThenBlank(k: Kind, rest: string)
    requires ValidLexeme(Op(k))
    ensures Lex(Text(Op(k)) + [' '] + rest) == Then([Op(k)], 1, Lex([' '] + rest))
  {
    var s := Text(Op(k)) + [' '] + rest;
    assert |Text(Op(k))| == 1 && s[1..] == [' '] + rest;
    assert OperatorKind(s[0]) == Some(k);
  }

  lemma LexNumberThenBlank(d: string, rest: string)
    requires ValidLexeme(Number(d))
    ensures Lex(d + [' '] + rest) == Then([Number(d)], |d|, Lex([' '] + rest))
  {
    var t := [' '] + rest;
    var s := d + t;
    assert d + [' '] + rest == s;
    DigitsThenBlank(d, t);
    LexDigitRun(s, |d|);
  }

  /** The digits d followed by a text starting with a blank. */
  lemma DigitsThenBlank(d: string, t: string)
    requires ValidLexeme(Number(d)) && t != [] && t[0] == ' '
    ensures 0 < |d| < |d + t| && !IsDigit((d + t)[|d|])
    ensures forall i :: 0 <= i < |d| ==> IsDigit((d + t)[i])
    ensures (d + t)[..|d|] == d && (d + t)[|d|..] == t
  {
  }

  /** A run of n digits ended by a non-digit lexes to one number of n digits. */
  lemma LexDigitRun(s: string, n: nat)
    requires 0 < n < |s| && !IsDigit(s[n])
    requires forall i :: 0 <= i < n ==> IsDigit(s[i])
    ensures Lex(s) == Then([Number(s[..n])], n, Lex(s[n..]))
  {
    SpanOfPrefix(Digit, s, n);
    assert IsDigit(s[0]) && s[0] != ' ' && OperatorKind(s[0]).None?;
  }

  /** A prefix of length n in cls followed by a character outside cls spans n. */
  lemma {:induction false} SpanOfPrefix(cls: CharClass, s: string, n: nat)
    requires n < |s| && !InClass(cls, s[n])
    requires forall i :: 0 <= i < n ==> InClass(cls, s[i])
    ensures Span(cls, s) == n
  {
    if n > 0 {
      SpanOfPrefix(cls, s[1..], n - 1);
    }
  }

  /** At most one rule matches at any position: every rule that matches at
      the start of s is the one its first character names, so the order of
      the table does not matter. */
  lemma RuleUnique(s: string, i: nat)
    requires i < |Rules| && MatchLen(Rules[i].pattern, s) > 0
    ensures s != [] && RuleFor(s) == Some(i)
  {
    if i == 0 {
      assert Rules[0] == Rule(Run(Blank), NoType);
    } else if i == 7 {
      assert Rules[7] == Rule(Run(Digit), NumD);
    } else if i == 8 {
      assert Rules[8] == Rule(Lit("=="), Eq);
      assert s[0] == s[..2][0] && s[1] == s[..2][1];
    } else {
      var t := Rules[i].pattern.text;
      assert Rules[i] == [Rule(Lit("+"), Plus), Rule(Lit("-"), Minus), Rule(Lit("*"), Star),
                          Rule(Lit("/"), Slash), Rule(Lit("("), LParen), Rule(Lit(")"), RParen)][i - 1];
      assert |t| == 1 && s[0] == s[..1][0] == t[0];
    }
  }

  /** The lexemes fit the buffer: at most NR_TOKENS of them, and no number
      longer than a token's text buffer. */
  predicate Fits(ls: seq<Lexeme>) {
    |ls| <= NR_TOKENS && forall l :: l in ls && l.Number? ==> |l.digits| <= STR_LEN
  }

  /** Slot t after make_token has recorded lexeme l in it: an operator or
      bracket sets only the type; a number sets the type and copies its
      digits over the first bytes of the text, with no terminator, so the
      rest of the text keeps whatever it held before. */
  function Write(t: Token, l: Lexeme): (r: Token)
    requires l.Number? ==> |l.digits| <= |t.str|
    ensures SlotOk(t) && ValidLexeme(l) ==> SlotOk(r)
  {
    match l
    case Op(k) => t.(kind := k)
    case Number(d) => Token(NumD, d + t.str[|d|..])
  }

  /** The buffer after make_token has recorded ls in slots 0, 1, ...; the
      slots from |ls| on are not touched. */
  function Record(ts: seq<Token>, ls: seq<Lexeme>): (r: seq<Token>)
    requires WellFormed(ts) && Fits(ls)
    ensures |r| == |ts|
    ensures (forall l :: l in ls ==> ValidLexeme(l)) ==> WellFormed(r)
    ensures forall k :: |ls| <= k < |ts| ==> r[k] == ts[k]
  {
    seq(|ts|, k requires 0 <= k < |ts| => if k < |ls| then Write(ts[k], ls[k]) else ts[k])
  }

  /** Slot k of the recorded buffer, for each lexeme k: an operator or
      bracket changes only the type; a number has type NUMD, its digits in
      front and the slot's old text after them. */
  lemma RecordSlots(ts: seq<Token>, ls: seq<Lexeme>, k: int)
    requires WellFormed(ts) && Fits(ls) && 0 <= k < |ls|
    ensures ls[k].Op? ==> Record(ts, ls)[k].kind == ls[k].op && Record(ts, ls)[k].str == ts[k].str
    ensures ls[k].Number? ==>
              && Record(ts, ls)[k].kind == NumD && |Record(ts, ls)[k].str| == |ts[k].str|
              && Record(ts, ls)[k].str[..|ls[k].digits|] == ls[k].digits
              && Record(ts, ls)[k].str[|ls[k].digits|..] == ts[k].str[|ls[k].digits|..]
  {
  }

  /** Recording the same lexemes twice leaves the buffer as recording them
      once: lexing an input again right after lexing it changes nothing. */
  lemma RecordIdempotent(ts: seq<Token>, ls: seq<Lexeme>)
    requires WellFormed(ts) && Fits(ls) && forall l :: l in ls ==> ValidLexeme(l)
    ensures Record(Record(ts, ls), ls) == Record(ts, ls)
  {
    var once := Record(ts, ls);
    forall k | 0 <= k < |ls|
      ensures Write(once[k], ls[k]) == once[k]
    {
      if ls[k].Number? {
        var d := ls[k].digits;
        assert (d + ts[k].str[|d|..])[|d|..] == ts[k].str[|d|..];
      }
    }
  }

  /** A shorter number recorded over a slot that held a longer one reads on
      into the older digits: strncpy writes no terminator, so the slot's text
      starts with the new digits and then the old number's surplus digits. */
  lemma WriteOverLongerNumber(t: Token, d1: string, d2: string)
    requires SlotOk(t) && ValidLexeme(Number(d1)) && ValidLexeme(Number(d2)) && |d2| < |d1| <= STR_LEN
    ensures Write(Write(t, Number(d1)), Number(d2)).str[..|d1|] == d2 + d1[|d2|..]
  {
  }

  /** strncpy(dst, src, n) where src is a C string: n bytes of src, padded
      with NULs once src ends, over the first n bytes of dst. */
  function StrNCpy(dst: string, src: string, n: nat): (r: string)
    requires n <= |dst| && CString(src)
    ensures |r| == |dst|
  {
    seq(|dst|, i requires 0 <= i < |dst| => if i < n then (if i < |src| then src[i] else '\0') else dst[i])
  }

  /** Copying the n characters of a match out of the rest of the input writes
      exactly those characters: strncpy pads with NULs only past the end of
      its source, which the match never reaches. */
  lemma StrNCpyMatch(dst: string, src: string, n: nat)
    requires n <= |dst| && n <= |src| && CString(src)
    ensures StrNCpy(dst, src, n) == src[..n] + dst[n..]
  {
  }

  /** One match after another: the lexemes of both, the offsets added. */
  lemma ThenThen(a: seq<Lexeme>, m: nat, b: seq<Lexeme>, n: nat, rest: LexResult)
    ensures Then(a, m, Then(b, n, rest)) == Then(a + b, m + n, rest)
  {
  }

  /** Recording one more lexeme changes only the next slot. */
  lemma RecordSnoc(ts: seq<Token>, ls: seq<Lexeme>, l: Lexeme)
    requires WellFormed(ts) && Fits(ls + [l]) && forall x :: x in ls + [l] ==> ValidLexeme(x)
    ensures Fits(ls) && Record(ts, ls + [l]) == Record(ts, ls)[|ls| := Write(ts[|ls|], l)]
  {
    assert forall x :: x in ls ==> x in ls + [l];
  }
}
