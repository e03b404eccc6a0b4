# NEMU simple-debugger expressions, modelled in Dafny

NEMU's simple debugger (sdb) evaluates expressions typed at its prompt with
`expr(e, success)` in `nemu/src/monitor/sdb/expr.c`. That file does four
things:

- **make_token** tokenizes `e` into the static buffer `tokens[32]` and the
  count `nr_token`. It tries an ordered table of nine regular-expression
  rules at the cursor: blanks, `+ - * / ( )`, decimal numbers and `==`.
- **check_parentheses2** checks that the brackets of a token range balance.
  **check_parentheses** uses it to decide whether a whole range is wrapped
  in one pair of brackets.
- **find_main_op** picks the operator at which a range is split: the
  rightmost top-level `+`/`-`, or else the rightmost top-level `*`/`/`.
- **eval** evaluates a range recursively on C `int`s. **expr** returns the
  result as an unsigned 32-bit word, or clears `*success` when
  tokenizing fails.

The project has seven modules:

| module | what it holds |
|---|---|
| `Tokens` (tokens.dfy) | token types; the 32-slot, 32-byte token record; the constants `NR_TOKENS`, `STR_LEN`, `MAXOP`; the outcome of a computation (`Value`, `Abort` for a failed `assert(0)`, `Undefined` for C undefined behaviour) |
| `Lexer` (lexer.dfy) | the rules table; the anchored match of a rule; `Lex`, the specification of make_token's loop; `Record`, what make_token leaves in the buffer |
| `Brackets` (brackets.dfy) | check_parentheses2 and check_parentheses as functions |
| `MainOperator` (main_operator.dfy) | find_main_op as a function over the positions its scan records |
| `Evaluator` (evaluator.dfy) | eval as a function; a left-to-right, multiplication-first reference semantics for flat chains of numbers and operators; the proof that eval agrees with it |
| `Sdb` (sdb.dfy) | the class `TokenBuffer`: the static state as an `array<Token>` plus `nrToken`, and the methods make_token, check_parentheses2, check_parentheses, find_main_op, eval and expr, with their loops. Each method is proved against a function: MakeToken against `Lexer.Lex` and `Lexer.Record`; NextToken and Store against `Lexer.Lex`; CheckParentheses2, CheckParentheses, FindMainOp and Eval against the `Brackets`, `MainOperator` and `Evaluator` functions of the same name; ScanToken against `MainOperator.TopOps`; EvalSides against `Evaluator.Eval`; Expr against `Sdb.ExprResult` and `Sdb.AfterMakeToken`. |
| `Cases` (cases.dfy) | consequences on short inputs: `8-3-2`, `2+3*4`, `(a+b)*c`, and stale digits |

Where the code does something other than the textbook behaviour its
comments and surroundings suggest, the model follows the code:

- check_parentheses2 scans only `tokens[p..q-1]`. So a balanced range that
  ends in `)` fails the `assert(0)` of check_parentheses, and `(2+3)*4` or
  `(1+2)` cannot be evaluated (`ExprClosingBracketAborts`,
  `BracketedOperandAborts`). Only a range whose last two tokens are `))`
  can be accepted as wrapped (`AcceptedRangeEndsInTwoClosers`).
- `==` is accepted by the lexer, but the switch of make_token has no case
  for its type, so it records nothing (`LexEqualSign`).
- strncpy copies the digits without a terminator. A number shorter than the
  one a slot held before therefore reads on into the older digits. `12345`
  followed by `9` evaluates to 92345 (`ExprReadsStaleDigits`).
- A single-token range is read by `atoi` whatever the token's type
  (`ExprOfOneOperator`). `+` right after `12` therefore evaluates to 12,
  because the `+` slot still holds the text `12` (`ExprOfPlusAfterNumber`).
  An operator-free range of several tokens makes find_main_op return 0 and
  then fails the `assert(0)` of eval (`EvalWithoutOperatorAborts`).

## Model

| member | source | states |
|---|---|---|
| Tokens.Span | nemu/src/monitor/sdb/expr.c:39-46 | the match of `" +"` or `"[0-9]{1,}"` is the longest prefix in the class: every character in it is in the class, the next one is not |
| Tokens.InitialWellFormed | nemu/src/monitor/sdb/expr.c:77 | the zero-initialised buffer has 32 slots whose texts hold only NULs and digits |
| Lexer.MatchLen | nemu/src/monitor/sdb/expr.c:90 | the anchored match of a rule never runs past the input |
| Lexer.FirstRule | nemu/src/monitor/sdb/expr.c:89-90 | the rule chosen is one that matches at the cursor, and no earlier rule in the table matches there |
| Lexer.FirstRuleByChar | nemu/src/monitor/sdb/expr.c:39-47 | trying the table in order selects exactly the rule that the first character names, or none |
| Lexer.RuleUnique | nemu/src/monitor/sdb/expr.c:39-47 | at most one rule of the table matches at any position, so the order of the rules decides nothing |
| Lexer.LexByRules | nemu/src/monitor/sdb/expr.c:87-122 | the step make_token takes by trying the table is the step of Lex: stop at offset 0 when no rule matches, else record the first matching rule's lexemes and skip its match |
| Lexer.LexBounds | nemu/src/monitor/sdb/expr.c:87-124 | every recorded lexeme is an operator, bracket or non-empty digit run; there are no more lexemes than characters; a failure offset lies inside the input |
| Lexer.LexFailsAtUnmatched | nemu/src/monitor/sdb/expr.c:119-122 | lexing stops only at a character where no rule matches |
| Lexer.LexFailsOnStray | nemu/src/monitor/sdb/expr.c:119-122 | any input holding a character no rule can consume fails, at or before that character |
| Lexer.LexLeadingBlank | nemu/src/monitor/sdb/expr.c:109 | a leading blank records nothing and shifts a failure offset by one |
| Lexer.LexBlanks | nemu/src/monitor/sdb/expr.c:109 | an empty or all-blank input succeeds and records no token |
| Lexer.LexEqualSign | nemu/src/monitor/sdb/expr.c:105-113 | `==` is consumed and records no token |
| Lexer.Emit | nemu/src/monitor/sdb/expr.c:105-113 | the switch records at most one lexeme per match, and none exactly for blanks and `==`; an operator or bracket keeps the rule's type; a number keeps the matched text |
| Lexer.LexUnlex | nemu/src/monitor/sdb/expr.c:87-124 | round trip: the blank-separated text of any sequence of valid lexemes lexes back to exactly those lexemes, with no failure |
| Lexer.Write | nemu/src/monitor/sdb/expr.c:106-112 | writing a valid lexeme into a well-formed slot leaves a well-formed slot |
| Lexer.Record | nemu/src/monitor/sdb/expr.c:105-112 | recording the lexemes keeps the buffer well formed and leaves every slot from the count on untouched |
| Lexer.RecordSlots | nemu/src/monitor/sdb/expr.c:106-112 | an operator or bracket slot changes only its type; a number slot gets type NUMD, its digits in front, and the old text after them |
| Lexer.RecordIdempotent | nemu/src/monitor/sdb/expr.c:105-112 | recording the same lexemes twice leaves the buffer as recording them once |
| Lexer.WriteOverLongerNumber | nemu/src/monitor/sdb/expr.c:110-112 | a shorter number over a longer one leaves the new digits followed by the old number's surplus digits |
| Lexer.StrNCpy | nemu/src/monitor/sdb/expr.c:112 | strncpy leaves the slot's text at its full length |
| Lexer.StrNCpyMatch | nemu/src/monitor/sdb/expr.c:112 | strncpy of the n matched characters writes exactly those characters and keeps the rest of the slot's text |
| Brackets.CheckParentheses2 | nemu/src/monitor/sdb/expr.c:126-142 | it fails its `assert(0)` exactly when p > q, accepts a one-token range, and never runs into undefined behaviour |
| Brackets.CheckParentheses | nemu/src/monitor/sdb/expr.c:143-152 | it aborts exactly when p > q or `tokens[p..q-1]` is unbalanced; it returns true exactly when the range is `(` … `)` with both the scanned range and its inside balanced |
| Brackets.ClosingBracketAborts | nemu/src/monitor/sdb/expr.c:126-146 | a range whose brackets balance and whose last token is `)` fails the `assert(0)` of check_parentheses |
| Brackets.AcceptedRangeEndsInTwoClosers | nemu/src/monitor/sdb/expr.c:143-150 | a range check_parentheses accepts has at least three tokens and ends in `))` |
| MainOperator.TopOpsSpec | nemu/src/monitor/sdb/expr.c:161-179 | what the scan records for an operator is exactly its top-level positions in `tokens[p..q-1]`, in increasing order |
| MainOperator.TopOps | nemu/src/monitor/sdb/expr.c:165-178 | the scan records at most one position per token it reads |
| MainOperator.ShortRangeFits | nemu/src/monitor/sdb/expr.c:155-158 | a range of at most MAXOP tokens never overflows the four position arrays |
| MainOperator.FindMainOp | nemu/src/monitor/sdb/expr.c:180-188 | the selection returns 0 or a position inside the scanned range |
| MainOperator.FindMainOpRange | nemu/src/monitor/sdb/expr.c:180-188 | the result is 0 or the position of a top-level arithmetic operator in `tokens[p..q-1]` |
| MainOperator.FindMainOpIsRightmostLowest | nemu/src/monitor/sdb/expr.c:154-189 | the result is the rightmost top-level `+`/`-` when there is one; else the rightmost top-level `*`/`/`; else 0 |
| MainOperator.RightmostOfTwo | nemu/src/monitor/sdb/expr.c:180-186 | the later of the last recorded operators of a tier is the rightmost top-level operator of that tier |
| Evaluator.Atoi | nemu/src/monitor/sdb/expr.c:196-197 | atoi of a slot is the value of its leading digits; undefined exactly when no NUL ends the text or the value exceeds INT_MAX |
| Evaluator.CQuot | nemu/src/monitor/sdb/expr.c:208 | C division truncates toward zero: the remainder is smaller than the divisor and has the dividend's sign |
| Evaluator.Combine | nemu/src/monitor/sdb/expr.c:204-210 | an operator combines as `+ - * /` on `int`; a non-operator fails `assert(0)`; overflow and division by zero, and only those, are undefined |
| Evaluator.Eval | nemu/src/monitor/sdb/expr.c:191-215 | eval aborts when p > q or the range is unbalanced, and any value it returns fits an `int` |
| Evaluator.EvalWithoutOperatorAborts | nemu/src/monitor/sdb/expr.c:180-203 | a range of several tokens with no top-level operator fails an `assert(0)` |
| Evaluator.EvalOfClosedRangeAborts | nemu/src/monitor/sdb/expr.c:143-146 | a balanced range ending in `)` fails an `assert(0)` |
| Evaluator.EvalAtMainOp | nemu/src/monitor/sdb/expr.c:198-210 | on a flat chain eval splits at find_main_op's choice, which lies strictly inside, and sequences the two sides |
| Evaluator.FlatSplit | nemu/src/monitor/sdb/expr.c:201-203 | splitting a flat chain at the main operator gives two flat chains whose reference values that operator combines into the whole chain's |
| Evaluator.EvalFlat | nemu/src/monitor/sdb/expr.c:191-215 | on every flat chain eval returns the multiplication-first, left-to-right reference value exactly when it runs into no undefined behaviour on the way (`Defined`), and is undefined otherwise |
| Evaluator.EvalOfDefined | nemu/src/monitor/sdb/expr.c:191-215 | a flat chain on which eval runs into no undefined behaviour evaluates to its reference value |
| Sdb.TokenBuffer.constructor | nemu/src/monitor/sdb/expr.c:77-78 | the static state starts zeroed: every slot unset with an all-NUL text, and a count of 0 |
| Sdb.TryRules | nemu/src/monitor/sdb/expr.c:89-90 | the rule loop stops at the first rule that matches at the cursor, with its match length, or at NR_REGEX when none does |
| Sdb.TokenBuffer.NextToken | nemu/src/monitor/sdb/expr.c:87-122 | one pass of the loop keeps buffer and count in step with Lex, or stops with every lexeme before the failure recorded |
| Sdb.TokenBuffer.Store | nemu/src/monitor/sdb/expr.c:105-113 | the switch records the match's lexeme in the next slot and keeps buffer and count in step with Lex |
| Sdb.TokenBuffer.MakeToken | nemu/src/monitor/sdb/expr.c:80-125 | it returns true exactly when Lex succeeds; the count is the number of lexemes; the buffer is the lexemes recorded over its old contents |
| Sdb.TokenBuffer.CheckParentheses2 | nemu/src/monitor/sdb/expr.c:126-142 | the scanning loop computes check_parentheses2 |
| Sdb.TokenBuffer.CheckParentheses | nemu/src/monitor/sdb/expr.c:143-152 | the method computes check_parentheses |
| Sdb.TokenBuffer.ScanToken | nemu/src/monitor/sdb/expr.c:162-178 | one pass of find_main_op's loop keeps the depth counter and all four position arrays in step with the scan |
| Sdb.TokenBuffer.FindMainOp | nemu/src/monitor/sdb/expr.c:154-189 | the scanning loop and the selection from the arrays compute find_main_op |
| Sdb.TokenBuffer.Eval | nemu/src/monitor/sdb/expr.c:191-215 | the recursive method computes eval |
| Sdb.TokenBuffer.EvalSides | nemu/src/monitor/sdb/expr.c:202-210 | the split step evaluates the left side first, the right side only after a left value, and combines by the operator's type |
| Sdb.TokenBuffer.Expr | nemu/src/monitor/sdb/expr.c:217-225 | on a failed tokenize it returns 0 and clears the flag; otherwise it returns eval of every token as a 32-bit word and leaves the flag alone |
| Sdb.AfterMakeToken | nemu/src/monitor/sdb/expr.c:80-125 | the buffer after make_token stays well formed, and the slots past the recorded ones are untouched |
| Sdb.ToWord | nemu/src/monitor/sdb/expr.c:191 | the `uint32_t` result is below 2^32, and read back as an `int` it is the value eval computed |
| Sdb.WordOf | nemu/src/monitor/sdb/expr.c:224 | a value becomes its 32-bit word; an abort stays an abort |
| Sdb.ExprResult | nemu/src/monitor/sdb/expr.c:217-225 | the flag is cleared exactly when tokenizing fails; a failed tokenize returns 0; any value is a 32-bit word |
| Sdb.ExprRejectsStray | nemu/src/monitor/sdb/expr.c:217-221 | an input holding a character no rule accepts makes expr return 0 and clear the flag |
| Sdb.ExprOfBlanksAborts | nemu/src/monitor/sdb/expr.c:217-224 | an empty or all-blank input records nothing, so expr's call eval(0, -1) fails `assert(0)` |
| Sdb.ExprOfOneOperator | nemu/src/monitor/sdb/expr.c:196-197 | an input that is one operator sets only the type of slot 0, and eval reads that slot with atoi whatever its type |
| Sdb.ExprOfOneNumber | nemu/src/monitor/sdb/expr.c:217-224 | an input that is one number is read back by atoi from slot 0 after its digits are copied there |
| Sdb.ExprRepeatable | nemu/src/monitor/sdb/expr.c:217-224 | running expr on the same input a second time gives the same result and leaves the same buffer |
| Sdb.ExprClosingBracketAborts | nemu/src/monitor/sdb/expr.c:217-224 | a balanced input whose last token is `)` fails `assert(0)` |
| Sdb.ExprOfChain | nemu/src/monitor/sdb/expr.c:191-224 | an input of numbers separated by operators evaluates to the reference value as a 32-bit word exactly when eval runs into no undefined behaviour on the recorded chain, and is undefined otherwise; the flag is untouched |
| Sdb.ChainRecordsFlat | nemu/src/monitor/sdb/expr.c:106-112 | numbers and operators alternating as lexemes are recorded as a flat chain of tokens |
| Cases.SubtractionIsLeftAssociative | nemu/src/monitor/sdb/expr.c:201-206 | `a-b-c`, with values atoi reads from its slots, evaluates to exactly `(a-b)-c` whenever that fits an `int` |
| Cases.ProductBindsTighter | nemu/src/monitor/sdb/expr.c:201-207 | `a+b*c`, with values atoi reads from its slots, evaluates to exactly `a+(b*c)` whenever that is at most INT_MAX |
| Cases.EightMinusThreeMinusTwo | nemu/src/monitor/sdb/expr.c:201-206 | the chain `8-3-2` of one-digit, NUL-ended slots evaluates to 3 |
| Cases.TwoPlusThreeTimesFour | nemu/src/monitor/sdb/expr.c:201-207 | the chain `2+3*4` of one-digit, NUL-ended slots evaluates to 14 |
| Cases.OneDigitSlot | nemu/src/monitor/sdb/expr.c:196-197 | atoi of a slot holding one digit and then a NUL is that digit's value |
| Cases.AtoiOfFreshNumber | nemu/src/monitor/sdb/expr.c:110-112 | a number of fewer than 32 digits whose value fits an `int`, copied over a slot of NULs, reads back by atoi as its decimal value |
| Cases.ExprOfPlusAfterNumber | nemu/src/monitor/sdb/expr.c:196-197 | `expr("+")` right after `expr` of a number returns that number: the `+` slot still holds its digits |
| Cases.BracketedOperandAborts | nemu/src/monitor/sdb/expr.c:198-203 | `(a+b)*c` fails `assert(0)` |
| Cases.LexDigitsOnly | nemu/src/monitor/sdb/expr.c:46 | an input that is one run of digits lexes to that single number |
| Cases.AtoiOverLongerNumber | nemu/src/monitor/sdb/expr.c:110-112 | atoi of a slot that held a longer number and then a shorter one reads the new digits and then the old surplus |
| Cases.ExprReadsStaleDigits | nemu/src/monitor/sdb/expr.c:110-112 | expr of a number after expr of a longer one returns the digits of both spliced together |

## Left out

- The POSIX regex library (`init_regex`, `regcomp`, `regexec`, `panic`) is not modelled. Each rule is a direct character test with the same anchored, longest-match result (`Lexer.MatchLen`). A rule that fails to compile cannot happen with this fixed table.
- `Log` and the `printf` of the failing position have no effect on the result and are left out.
- `isa.h`, the `word_t` type and the debugger shell that calls `expr` are not part of this model. Only eval's `uint32_t` result is modelled, which `word_t` zero-extends.
- The `bool *success` out-parameter is a value in and a value out of `Expr`.
- C undefined behaviour is not given a meaning. Signed overflow, division by zero, `INT_MIN / -1`, atoi out of range or without a NUL, and more than MAXOP top-level operators of one kind end in the `Undefined` outcome. On flat chains the predicate `Evaluator.Defined` says exactly when that happens (`EvalFlat`, `ExprOfChain`).
- Sdb.TokenBuffer.MakeToken: requires that the lexemes of the input fit the buffer (`Fits`: at most 32 tokens, no number longer than 32 digits). Writing past `tokens[32]` or past a slot's `str` is undefined behaviour that the model does not follow.
- Sdb.TokenBuffer.Expr: carries the same `Fits` requirement as make_token, for the same reason.
- Sdb.TokenBuffer.FindMainOp: requires that no operator kind has more than MAXOP top-level occurrences. The method cannot write past its arrays. Sdb.TokenBuffer.Eval returns `Undefined` before calling it when this fails.
- find_main_op's four local arrays are `seq<int>` values that the loop reassigns, not C arrays. Only their first entry and their last written entry are specified, which is all the selection reads.
- Evaluator.Atoi: the leading blanks and sign that C `atoi` skips are not modelled, because a slot's text only ever holds digits and NULs.
- Evaluator.Eval: the behaviour past `assert(0)` with assertions compiled out (`NDEBUG`) is not modelled. Every `assert(0)` ends in `Abort`.
- Sdb.TokenBuffer.Eval: C evaluates the right operand even when the left one ran into undefined behaviour. The model stops at the first failure, since an abort ends the program and undefined behaviour already gives no meaning to the result.
- Recursion depth and stack exhaustion are not modelled.
