/**
 * Operator precedence and the dominant-operator search of the evaluator
 * (`op_prec`, `op_prec_cmp` and `find_dominated_op` in
 * nemu/src/monitor/sdb/expr.c).
 *
 * Token ranges are half-open, `ts[lo..hi)`; the source's inclusive
 * `p..q` is `lo == p`, `hi == q + 1`. `Dominant` is the scan as a
 * function, `DominantSpec` says what it finds, and the loop itself is
 * `TokenBuffer.FindDominatedOp` in token_buffer.dfy.
 */
module Dominance {
  import opened Wrappers
  import opened Tokens

  /** `op_prec`: the larger the number, the looser the operator binds. */
  function Prec(k: Kind): nat
    requires IsOperator(k)
  {
    match k
    case Ref => 0
    case Star => 1
    case Slash => 1
    case Plus => 2
    case Minus => 2
    case Eq => 3
    case Neq => 3
  }

  /** `op_prec_cmp`. */
  function PrecCmp(a: Kind, b: Kind): int
    requires IsOperator(a) && IsOperator(b)
  {
    Prec(a) - Prec(b)
  }

  /** Change of bracket level a token makes. */
  function Delta(k: Kind): int {
    if k == LParen then 1 else if k == RParen then -1 else 0
  }

  /** Bracket level after scanning `ts[lo..i)`. */
  function Depth(ts: seq<Token>, lo: nat, i: nat): int
    requires lo <= i <= |ts|
    decreases i - lo
  {
    if i == lo then 0 else Depth(ts, lo, i - 1) + Delta(ts[i - 1].kind)
  }

  /** The bracket level never drops below zero while scanning `ts[lo..i)`. */
  predicate Nonneg(ts: seq<Token>, lo: nat, i: nat)
    requires lo <= i <= |ts|
  {
    forall k :: lo <= k <= i ==> 0 <= Depth(ts, lo, k)
  }

  /** `ts[lo..hi)` is bracket-balanced. */
  predicate Balanced(ts: seq<Token>, lo: nat, hi: nat)
    requires lo <= hi <= |ts|
  {
    Nonneg(ts, lo, hi) && Depth(ts, lo, hi) == 0
  }

  /** `ts[j]` is an operator outside every bracket of `ts[lo..]`. */
  predicate AtTop(ts: seq<Token>, lo: nat, j: nat)
    requires lo <= j < |ts|
  {
    IsOperator(ts[j].kind) && Depth(ts, lo, j) == 0
  }

  /** The scan's test for replacing the operator it holds, `dom`, by `cur`:
      a looser tier, or the same tier unless `cur` is a dereference. */
  predicate Displaces(dom: Kind, cur: Kind)
    requires IsOperator(dom) && IsOperator(cur)
  {
    PrecCmp(dom, cur) < 0 || (PrecCmp(dom, cur) == 0 && cur != Ref)
  }

  /** The operator the scan holds after `ts[lo..i)`, ignoring the bracket check. */
  function Candidate(ts: seq<Token>, lo: nat, i: nat): (r: Option<nat>)
    requires lo <= i <= |ts|
    ensures r.Some? ==> lo <= r.value < i && AtTop(ts, lo, r.value)
    decreases i - lo
  {
    if i == lo then None
    else
      var c := Candidate(ts, lo, i - 1);
      if AtTop(ts, lo, i - 1) && (c.None? || Displaces(ts[c.value].kind, ts[i - 1].kind)) then Some(i - 1)
      else c
  }

  /** `find_dominated_op` on `ts[lo..hi)`: `None` when a `)` drives the level
      below zero or when no operator sits at level zero. */
  function Dominant(ts: seq<Token>, lo: nat, hi: nat): (r: Option<nat>)
    requires lo <= hi <= |ts|
    ensures r.Some? ==> lo <= r.value < hi && AtTop(ts, lo, r.value)
  {
    if exists k :: lo <= k <= hi && Depth(ts, lo, k) < 0 then None else Candidate(ts, lo, hi)
  }

  /** Operator `ts[d]` wins over operator `ts[j]`: a looser tier; in the same
      tier the rightmost, except among dereferences, where the leftmost wins. */
  predicate Beats(ts: seq<Token>, d: nat, j: nat)
    requires d < |ts| && j < |ts| && IsOperator(ts[d].kind) && IsOperator(ts[j].kind)
  {
    Prec(ts[j].kind) < Prec(ts[d].kind) ||
    (Prec(ts[j].kind) == Prec(ts[d].kind) && (if ts[d].kind == Ref then d < j else j < d))
  }

  /** `ts[d]` is the dominant operator of `ts[lo..hi)`: at level zero and
      winning over every other operator at level zero. */
  ghost predicate Dominates(ts: seq<Token>, lo: nat, hi: nat, d: nat)
    requires lo <= hi <= |ts|
  {
    lo <= d < hi && AtTop(ts, lo, d) &&
    forall j :: lo <= j < hi && j != d && AtTop(ts, lo, j) ==> Beats(ts, d, j)
  }

  /** No operator of `ts[lo..hi)` sits at level zero. */
  ghost predicate NoTopOperator(ts: seq<Token>, lo: nat, hi: nat)
    requires lo <= hi <= |ts|
  {
    forall j :: lo <= j < hi ==> !AtTop(ts, lo, j)
  }

  lemma {:induction false} CandidateSpec(ts: seq<Token>, lo: nat, i: nat)
    requires lo <= i <= |ts|
    ensures Candidate(ts, lo, i).None? ==> NoTopOperator(ts, lo, i)
    ensures Candidate(ts, lo, i).Some? ==> Dominates(ts, lo, i, Candidate(ts, lo, i).value)
    decreases i - lo
  {
    if i > lo {
      CandidateSpec(ts, lo, i - 1);
    }
  }

  /** Two dominant operators of one range are the same. */
  lemma DominatesUnique(ts: seq<Token>, lo: nat, hi: nat, d: nat, e: nat)
    requires lo <= hi <= |ts| && Dominates(ts, lo, hi, d) && Dominates(ts, lo, hi, e)
    ensures d == e
  {
  }

  /** What `find_dominated_op` finds: it fails exactly when the level drops
      below zero or no operator is at level zero, and otherwise returns the
      dominant operator, the only one. */
  lemma DominantSpec(ts: seq<Token>, lo: nat, hi: nat)
    requires lo <= hi <= |ts|
    ensures Dominant(ts, lo, hi).None? <==> !Nonneg(ts, lo, hi) || NoTopOperator(ts, lo, hi)
    ensures forall d: nat :: Dominant(ts, lo, hi) == Some(d) <==> Nonneg(ts, lo, hi) && Dominates(ts, lo, hi, d)
  {
    CandidateSpec(ts, lo, hi);
    forall d: nat | Nonneg(ts, lo, hi) && Dominates(ts, lo, hi, d)
      ensures Dominant(ts, lo, hi) == Some(d)
    {
      assert AtTop(ts, lo, d);
      DominatesUnique(ts, lo, hi, d, Candidate(ts, lo, hi).value);
    }
  }

  /** The level after `ts[lo..k)` is the level after `ts[lo..j)` plus that of `ts[j..k)`. */
  lemma {:induction false} DepthSplit(ts: seq<Token>, lo: nat, j: nat, k: nat)
    requires lo <= j <= k <= |ts|
    ensures Depth(ts, lo, k) == Depth(ts, lo, j) + Depth(ts, j, k)
    decreases k - j
  {
    if j < k {
      DepthSplit(ts, lo, j, k - 1);
    }
  }
}
