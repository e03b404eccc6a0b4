/** Data model shared by the lexer and the evaluator of NEMU's simple-debugger
    expression unit (nemu/src/monitor/sdb/expr.c): token types, the
    fixed-size token record, and how a computation ends. */
module Tokens {

  /** Number of slots of the static token buffer. */
  const NR_TOKENS: nat := 32
  /** Size of each token's text buffer `str`. */
  const STR_LEN: nat := 32
  /** Capacity of each of find_main_op's four position arrays. */
  const MAXOP: nat := 10
  /** Largest value of a C `int`. */
  const INT_MAX: int := 0x7fff_ffff

  /** The `type` field of a token, and the token types of the rules table.
      `Unset` is the zero a slot holds before anything has been written to
      it; `NoType` (blanks) and `Eq` (`==`) are rule types that make_token
      never stores. */
  datatype Kind = Unset | NoType | Eq | NumD | Plus | Minus | Star | Slash | LParen | RParen

  /** One slot of the token buffer: its type and its 32-byte text. */
  datatype Token = Token(kind: Kind, str: string)

  /** How a computation of the unit ends: with a value, by a failed
      `assert(0)`, or in C undefined behaviour (signed overflow, division by
      zero, an `atoi` out of range, a write past a fixed-size array). */
  datatype Outcome<T> = Value(value: T) | Abort | Undefined

  datatype Option<T> = None | Some(value: T)

  predicate IsDigit(c: char) { '0' <= c <= '9' }

  predicate IsInt32(x: int) { -0x8000_0000 <= x <= INT_MAX }

  /** The operators find_main_op can choose and eval can combine. */
  predicate IsArith(k: Kind) { k == Plus || k == Minus || k == Star || k == Slash }

  /** A C string's contents: the characters before its terminating NUL. */
  predicate CString(s: string) { forall i :: 0 <= i < |s| ==> s[i] != '\0' }

  /** The character classes the repeated rules (" +" and "[0-9]{1,}") use. */
  datatype CharClass = Blank | Digit

  predicate InClass(cls: CharClass, c: char) {
    match cls
    case Blank => c == ' '
    case Digit => IsDigit(c)
  }

  /** Length of the longest prefix of s whose characters are all in cls. */
  function Span(cls: CharClass, s: string): (n: nat)
    ensures n <= |s|
    ensures forall i :: 0 <= i < n ==> InClass(cls, s[i])
    ensures n < |s| ==> !InClass(cls, s[n])
  {
    if s == [] || !InClass(cls, s[0]) then 0 else 1 + Span(cls, s[1..])
  }

  /** The buffer as make_token leaves it: 32 slots, each with a 32-byte text
      that holds only digits and NULs (the only bytes ever copied into a
      text are the digits of a number). */
  predicate WellFormed(ts: seq<Token>) {
    |ts| == NR_TOKENS && forall k :: 0 <= k < |ts| ==> SlotOk(ts[k])
  }

  predicate SlotOk(t: Token) {
    |t.str| == STR_LEN && forall j :: 0 <= j < |t.str| ==> t.str[j] == '\0' || IsDigit(t.str[j])
  }

  /** The zero-initialised static buffer `tokens[32] = {}`. */
  const Initial: seq<Token> := seq(NR_TOKENS, _ => Token(Unset, seq(STR_LEN, _ => '\0')))

  lemma InitialWellFormed()
    ensures WellFormed(Initial)
  {
  }
}
