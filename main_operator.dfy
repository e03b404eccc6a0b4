/** find_main_op, the main-operator selector of the expression unit, as a
    function over the token buffer: the positions its scan records for each
    operator, and the choice it makes among them. */
module MainOperator {
  import opened Tokens
  import opened Brackets

  /** find_main_op considers ts[k] only when its depth counter, run from p
      and moved by every bracket without any check, is 0 right after ts[k]. */
  predicate TopLevel(ts: seq<Token>, p: int, k: int)
    requires 0 <= p <= k < |ts|
  {
    Depth(ts, p, k + 1) == 0
  }

  /** The positions find_main_op records for `kind` (in plus[], sub[], mul[]
      or div[]) while it scans ts[p..j], in the order it records them: at
      most one per token read. */
  function TopOps(ts: seq<Token>, p: int, j: int, kind: Kind): (r: seq<int>)
    requires 0 <= p && j <= |ts|
    ensures |r| <= if j <= p then 0 else j - p
    decreases j - p
  {
    if j <= p then []
    else TopOps(ts, p, j - 1, kind) + (if ts[j - 1].kind == kind && TopLevel(ts, p, j - 1) then [j - 1] else [])
  }

  /** What the scan records for `kind` is exactly the top-level positions of
      that operator in ts[p..j-1], in increasing order. */
  lemma {:induction false} TopOpsSpec(ts: seq<Token>, p: int, j: int, kind: Kind)
    requires 0 <= p && j <= |ts|
    ensures forall i :: 0 <= i < |TopOps(ts, p, j, kind)| ==>
              var k := TopOps(ts, p, j, kind)[i]; p <= k < j && ts[k].kind == kind && TopLevel(ts, p, k)
    ensures forall i, i' :: 0 <= i < i' < |TopOps(ts, p, j, kind)| ==> TopOps(ts, p, j, kind)[i] < TopOps(ts, p, j, kind)[i']
    ensures forall k :: p <= k < j && ts[k].kind == kind && TopLevel(ts, p, k) ==> k in TopOps(ts, p, j, kind)
    decreases j - p
  {
    if j > p {
      TopOpsSpec(ts, p, j - 1, kind);
    }
  }

  /** The last recorded position, or the 0 that `op` starts from. */
  function LastOrZero(s: seq<int>): int {
    if s == [] then 0 else s[|s| - 1]
  }

  function Max(a: int, b: int): int {
    if a < b then b else a
  }

  /** Each of the four position arrays has room for what the scan records. */
  predicate FitsOpArrays(ts: seq<Token>, p: int, q: int)
    requires 0 <= p && q <= |ts|
  {
    && |TopOps(ts, p, q, Plus)| <= MAXOP
    && |TopOps(ts, p, q, Minus)| <= MAXOP
    && |TopOps(ts, p, q, Star)| <= MAXOP
    && |TopOps(ts, p, q, Slash)| <= MAXOP
  }

  /** A range of at most MAXOP tokens can never overflow the position arrays. */
  lemma ShortRangeFits(ts: seq<Token>, p: int, q: int)
    requires 0 <= p && q <= |ts| && q - p <= MAXOP
    ensures FitsOpArrays(ts, p, q)
  {
  }

  /** find_main_op(p, q): the later of the last top-level `+` and the last
      top-level `-` when there is either; otherwise the later of the last
      top-level `*` and the last top-level `/`; 0 when there is none. */
  function FindMainOp(ts: seq<Token>, p: int, q: int): (r: int)
    requires 0 <= p && q <= |ts|
    ensures r == 0 || p <= r < q
  {
    LastTopOp(ts, p, q, Plus);
    LastTopOp(ts, p, q, Minus);
    LastTopOp(ts, p, q, Star);
    LastTopOp(ts, p, q, Slash);
    var plus, sub := TopOps(ts, p, q, Plus), TopOps(ts, p, q, Minus);
    var mul, div := TopOps(ts, p, q, Star), TopOps(ts, p, q, Slash);
    if plus != [] || sub != [] then Max(LastOrZero(plus), LastOrZero(sub))
    else Max(LastOrZero(mul), LastOrZero(div))
  }

  /** find_main_op returns 0 or the position of a top-level operator in
      ts[p..q-1]. */
  lemma FindMainOpRange(ts: seq<Token>, p: int, q: int)
    requires 0 <= p && q <= |ts|
    ensures var op := FindMainOp(ts, p, q);
      op == 0 || (p <= op < q && IsArith(ts[op].kind) && TopLevel(ts, p, op))
  {
    LastTopOp(ts, p, q, Plus);
    LastTopOp(ts, p, q, Minus);
    LastTopOp(ts, p, q, Star);
    LastTopOp(ts, p, q, Slash);
  }

  /** The last position recorded for `kind`, when there is one, is a
      top-level `kind` in ts[p..q-1]. */
  lemma LastTopOp(ts: seq<Token>, p: int, q: int, kind: Kind)
    requires 0 <= p && q <= |ts|
    ensures TopOps(ts, p, q, kind) != [] ==>
      var k := LastOrZero(TopOps(ts, p, q, kind)); p <= k < q && ts[k].kind == kind && TopLevel(ts, p, k)
  {
    TopOpsSpec(ts, p, q, kind);
  }

  /** The two precedence tiers: `+`/`-` and `*`/`/`. */
  datatype Tier = AddSub | MulDiv

  predicate InTier(tier: Tier, k: Kind) {
    match tier
    case AddSub => k == Plus || k == Minus
    case MulDiv => k == Star || k == Slash
  }

  /** Some operator of the tier stands at top level in ts[p..q-1]. */
  predicate HasTop(ts: seq<Token>, p: int, q: int, tier: Tier)
    requires 0 <= p && q <= |ts|
  {
    exists k :: p <= k < q && TopLevel(ts, p, k) && InTier(tier, ts[k].kind)
  }

  /** op is the rightmost top-level operator of the tier in ts[p..q-1]. */
  predicate RightmostTop(ts: seq<Token>, p: int, q: int, op: int, tier: Tier)
    requires 0 <= p && q <= |ts|
  {
    && p <= op < q && TopLevel(ts, p, op) && InTier(tier, ts[op].kind)
    && forall k :: op < k < q && TopLevel(ts, p, k) ==> !InTier(tier, ts[k].kind)
  }

  /** The main operator is the rightmost top-level operator of the lowest
      precedence tier present in ts[p..q-1] (ts[q] is never considered), and
      0 when there is none. */
  lemma FindMainOpIsRightmostLowest(ts: seq<Token>, p: int, q: int)
    requires 0 <= p && q <= |ts|
    ensures HasTop(ts, p, q, AddSub) ==> RightmostTop(ts, p, q, FindMainOp(ts, p, q), AddSub)
    ensures !HasTop(ts, p, q, AddSub) && HasTop(ts, p, q, MulDiv) ==> RightmostTop(ts, p, q, FindMainOp(ts, p, q), MulDiv)
    ensures !HasTop(ts, p, q, AddSub) && !HasTop(ts, p, q, MulDiv) ==> FindMainOp(ts, p, q) == 0
  {
    var op := FindMainOp(ts, p, q);
    TopOpsSpec(ts, p, q, Plus);
    TopOpsSpec(ts, p, q, Minus);
    if HasTop(ts, p, q, AddSub) {
      RightmostOfTwo(ts, p, q, Plus, Minus, AddSub);
    } else if HasTop(ts, p, q, MulDiv) {
      RightmostOfTwo(ts, p, q, Star, Slash, MulDiv);
    } else {
      TopOpsSpec(ts, p, q, Star);
      TopOpsSpec(ts, p, q, Slash);
      assert TopOps(ts, p, q, Plus) == [] && TopOps(ts, p, q, Minus) == [];
      assert TopOps(ts, p, q, Star) == [] && TopOps(ts, p, q, Slash) == [];
    }
  }

  /** The later of the last recorded `a` and the last recorded `b` is the
      rightmost top-level operator of their tier. */
  lemma RightmostOfTwo(ts: seq<Token>, p: int, q: int, a: Kind, b: Kind, tier: Tier)
    requires 0 <= p && q <= |ts| && HasTop(ts, p, q, tier)
    requires (tier == AddSub && a == Plus && b == Minus) || (tier == MulDiv && a == Star && b == Slash)
    ensures RightmostTop(ts, p, q, Max(LastOrZero(TopOps(ts, p, q, a)), LastOrZero(TopOps(ts, p, q, b))), tier)
  {
    var sa, sb := TopOps(ts, p, q, a), TopOps(ts, p, q, b);
    var op := Max(LastOrZero(sa), LastOrZero(sb));
    SomeTopOp(ts, p, q, a, b, tier);
    TopOpsSpec(ts, p, q, a);
    TopOpsSpec(ts, p, q, b);
    assert op in sa || op in sb;
    NoneAfter(ts, p, q, a, b, tier, op);
  }

  /** A tier present at top level has a recorded `a` or a recorded `b`. */
  lemma SomeTopOp(ts: seq<Token>, p: int, q: int, a: Kind, b: Kind, tier: Tier)
    requires 0 <= p && q <= |ts| && HasTop(ts, p, q, tier)
    requires (tier == AddSub && a == Plus && b == Minus) || (tier == MulDiv && a == Star && b == Slash)
    ensures TopOps(ts, p, q, a) != [] || TopOps(ts, p, q, b) != []
  {
    TopOpsSpec(ts, p, q, a);
    TopOpsSpec(ts, p, q, b);
    var w :| p <= w < q && TopLevel(ts, p, w) && InTier(tier, ts[w].kind);
    assert w in TopOps(ts, p, q, a) || w in TopOps(ts, p, q, b);
  }

  /** No top-level operator of the tier lies after both last recorded ones. */
  lemma NoneAfter(ts: seq<Token>, p: int, q: int, a: Kind, b: Kind, tier: Tier, op: int)
    requires 0 <= p <= op && q <= |ts|
    requires (tier == AddSub && a == Plus && b == Minus) || (tier == MulDiv && a == Star && b == Slash)
    requires op >= LastOrZero(TopOps(ts, p, q, a)) && op >= LastOrZero(TopOps(ts, p, q, b))
    ensures forall k :: op < k < q && TopLevel(ts, p, k) ==> !InTier(tier, ts[k].kind)
  {
    var sa, sb := TopOps(ts, p, q, a), TopOps(ts, p, q, b);
    TopOpsSpec(ts, p, q, a);
    TopOpsSpec(ts, p, q, b);
    LastIsLargest(sa);
    LastIsLargest(sb);
    forall k | op < k < q && TopLevel(ts, p, k)
      ensures !InTier(tier, ts[k].kind)
    {
      assert ts[k].kind == a ==> k in sa;
      assert ts[k].kind == b ==> k in sb;
    }
  }

  /** The last element of a strictly increasing sequence is its largest. */
  lemma LastIsLargest(s: seq<int>)
    requires forall i, i' :: 0 <= i < i' < |s| ==> s[i] < s[i']
    ensures forall x :: x in s ==> x <= LastOrZero(s)
  {
    forall x | x in s
      ensures x <= LastOrZero(s)
    {
      var i :| 0 <= i < |s| && s[i] == x;
      assert i < |s| - 1 ==> s[i] < s[|s| - 1];
    }
  }

  /** Scanning further never forgets a recorded position. */
  lemma {:induction false} TopOpsGrow(ts: seq<Token>, p: int, j: int, j': int, kind: Kind)
    requires 0 <= p && j <= j' <= |ts|
    ensures |TopOps(ts, p, j, kind)| <= |TopOps(ts, p, j', kind)|
    decreases j' - j
  {
    if j < j' {
      TopOpsGrow(ts, p, j, j' - 1, kind);
    }
  }
}
