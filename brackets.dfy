/** The bracket checkers of the expression unit, check_parentheses2 and
    check_parentheses, as functions over the token buffer. Both take an
    inclusive range [p, q] of slots; check_parentheses2 scans only
    ts[p..q-1] and never looks at ts[q]. */
module Brackets {
  import opened Tokens

  /** How a token moves the bracket depth counter. */
  function Delta(t: Token): int {
    if t.kind == LParen then 1 else if t.kind == RParen then -1 else 0
  }

  /** Net bracket depth of ts[p..j]: opening brackets minus closing ones. */
  function Depth(ts: seq<Token>, p: int, j: int): int
    requires 0 <= p <= j <= |ts|
    decreases j - p
  {
    if j == p then 0 else Depth(ts, p, j - 1) + Delta(ts[j - 1])
  }

  /** ts[p..j] never closes a bracket it has not opened, and closes every
      bracket it opens. */
  predicate Balanced(ts: seq<Token>, p: int, j: int)
    requires 0 <= p <= j <= |ts|
  {
    (forall k :: p < k <= j ==> Depth(ts, p, k) >= 0) && Depth(ts, p, j) == 0
  }

  /** check_parentheses2(p, q): `assert(0)` when p > q; otherwise whether
      ts[p..q-1] is balanced. */
  function CheckParentheses2(ts: seq<Token>, p: int, q: int): (r: Outcome<bool>)
    requires 0 <= p && q < |ts|
    ensures r.Abort? <==> p > q
    ensures p == q ==> r == Value(true)
    ensures !r.Undefined?
  {
    if p > q then Abort else Value(Balanced(ts, p, q))
  }

  /** check_parentheses(p, q): `assert(0)` unless check_parentheses2(p, q)
      holds; then whether ts[p] is `(`, ts[q] is `)` and
      check_parentheses2(p + 1, q - 1) holds. */
  function CheckParentheses(ts: seq<Token>, p: int, q: int): (r: Outcome<bool>)
    requires 0 <= p && q < |ts|
    ensures r.Abort? <==> p > q || !Balanced(ts, p, q)
    ensures r == Value(true) <==>
              && p + 2 <= q && Balanced(ts, p, q)
              && ts[p].kind == LParen && ts[q].kind == RParen && Balanced(ts, p + 1, q - 1)
    ensures !r.Undefined?
  {
    if CheckParentheses2(ts, p, q) != Value(true) then Abort
    else if ts[p].kind == LParen && ts[q].kind == RParen then
      assert Depth(ts, p, p + 1) == 1;
      CheckParentheses2(ts, p + 1, q - 1)
    else Value(false)
  }

  /** The depth after ts[p..j] is the depth after ts[p..i] plus the depth of ts[i..j]. */
  lemma {:induction false} DepthSplit(ts: seq<Token>, p: int, i: int, j: int)
    requires 0 <= p <= i <= j <= |ts|
    ensures Depth(ts, p, j) == Depth(ts, p, i) + Depth(ts, i, j)
    decreases j - i
  {
    if j > i {
      DepthSplit(ts, p, i, j - 1);
    }
  }

  /** Because the scan stops before ts[q], a range whose brackets balance and
      whose last token is `)` always fails check_parentheses: the scanned
      prefix is left one bracket open. So a bracketed sub-expression such
      as `(1+2)` never reaches evaluation. */
  lemma ClosingBracketAborts(ts: seq<Token>, p: int, q: int)
    requires 0 <= p <= q < |ts| && Balanced(ts, p, q + 1) && ts[q].kind == RParen
    ensures CheckParentheses(ts, p, q) == Abort
  {
    assert Depth(ts, p, q + 1) == Depth(ts, p, q) - 1;
  }

  /** check_parentheses accepts a range exactly when it is `(` ... `)` and
      the token before the final `)` is itself `)`: the scanned prefix
      ts[p..q-1] must balance and begin with `(`, so it must end by closing it. */
  lemma {:induction false} AcceptedRangeEndsInTwoClosers(ts: seq<Token>, p: int, q: int)
    requires 0 <= p && q < |ts| && CheckParentheses(ts, p, q) == Value(true)
    ensures p + 2 <= q && ts[q - 1].kind == RParen
  {
    DepthSplit(ts, p, p + 1, q - 1);
    assert Depth(ts, p, p + 1) == 1;
    assert Depth(ts, p + 1, q - 1) == 0;
    assert Depth(ts, p, q) == Depth(ts, p, q - 1) + Delta(ts[q - 1]);
  }
}
