/**
 * The recursive evaluator `eval` and the entry point `expr` of
 * nemu/src/monitor/sdb/expr.c, as written.
 *
 * `eval` reports through an in/out `success` flag; `Eval` takes the flag's
 * incoming value and returns it with the value in an `Outcome`. The two
 * `assert`s on malformed input (a single token that is no value, a zero
 * divisor) end the emulator; they are the `Aborted` outcome. The register
 * file (`isa_reg_str2val`) and the 8-byte memory read (`vaddr_read`) are
 * the two functions of a `Machine`.
 */
module Evaluator {
  import opened Wrappers
  import opened Words
  import opened Tokens
  import opened Literals
  import opened Dominance
  import Lexer

  /** Register lookup by name (without `$`), and the word stored at an address. */
  datatype Machine = Machine(reg: string -> Option<Word>, mem: Word -> Word)

  /** The `assert`s that stop the emulator. */
  datatype Fault = NotAValue | DivideByZero

  /** What one call of `eval` does: return a value with the final state of
      the `success` flag, or stop the emulator. */
  datatype Outcome = Returned(value: Word, success: bool) | Aborted(fault: Fault)

  /** The register name a `$name` token stands for (`str + 1`). */
  function RegName(s: string): string {
    if s == [] then [] else s[1..]
  }

  /** A single-token range. A number leaves the incoming flag as it is. */
  function Leaf(m: Machine, t: Token, success: bool): Outcome {
    match t.kind
    case Reg => (match m.reg(RegName(t.str)) case Some(v) => Returned(v, true) case None => Returned(0, false))
    case Num => Returned(LiteralValue(t.str), success)
    case _ => Aborted(NotAValue)
  }

  /** A binary operator on its evaluated operands. */
  function Apply(k: Kind, left: Word, right: Word): Outcome
    requires IsOperator(k) && k != Ref
  {
    match k
    case Plus => Returned(Add(right, left), true)
    case Minus => Returned(Sub(left, right), true)
    case Star => Returned(Mul(left, right), true)
    case Slash => if right == 0 then Aborted(DivideByZero) else Returned(Div(left, right), true)
    case Eq => Returned(if right == left then 1 else 0, true)
    case Neq => Returned(if right != left then 1 else 0, true)
  }

  /** A dereference of the operand's outcome: read the word at the address. */
  function Load(m: Machine, operand: Outcome): Outcome {
    match operand
    case Aborted(f) => Aborted(f)
    case Returned(a, ok) => if ok then Returned(m.mem(a), true) else Returned(0, false)
  }

  /** A binary operator on the outcomes of its operands, the right one looked
      at first: its failure or stop is reported whatever the left one did. */
  function Binary(k: Kind, right: Outcome, left: Outcome): Outcome
    requires IsOperator(k) && k != Ref
  {
    match right
    case Aborted(f) => Aborted(f)
    case Returned(r, ok) =>
      if !ok then Returned(0, false)
      else match left
        case Aborted(f) => Aborted(f)
        case Returned(l, ok') => if ok' then Apply(k, l, r) else Returned(0, false)
  }

  /** `eval` on `ts[lo..hi)` with the incoming flag `success`. The operands
      of the dominant operator start with the flag set, as
      `find_dominated_op` leaves it. */
  function Eval(m: Machine, ts: seq<Token>, lo: nat, hi: nat, success: bool): Outcome
    requires lo <= hi <= |ts|
    decreases hi - lo
  {
    if lo == hi then Returned(0, false)
    else if lo + 1 == hi then Leaf(m, ts[lo], success)
    else if ts[lo].kind == LParen && ts[hi - 1].kind == RParen then Eval(m, ts, lo + 1, hi - 1, success)
    else match Dominant(ts, lo, hi)
      case None => Returned(0, false)
      case Some(d) =>
        if ts[d].kind == Ref then Load(m, Eval(m, ts, d + 1, hi, true))
        else Binary(ts[d].kind, Eval(m, ts, d + 1, hi, true), Eval(m, ts, lo, d, true))
  }

  /** A range that is a number, possibly inside parentheses: the only case
      in which the flag `eval` returns is the one it was given. */
  ghost predicate BareNumber(ts: seq<Token>, lo: nat, hi: nat)
    requires lo <= hi <= |ts|
    decreases hi - lo
  {
    (lo + 1 == hi && ts[lo].kind == Num) ||
    (lo + 2 <= hi && ts[lo].kind == LParen && ts[hi - 1].kind == RParen && BareNumber(ts, lo + 1, hi - 1))
  }

  /** A (parenthesized) number hands back the incoming flag, whatever its
      value; every other range ends with a flag of its own making. */
  lemma {:induction false} FlagMatters(m: Machine, ts: seq<Token>, lo: nat, hi: nat, success: bool)
    requires lo <= hi <= |ts|
    ensures BareNumber(ts, lo, hi) ==>
      Eval(m, ts, lo, hi, true).Returned? && Eval(m, ts, lo, hi, success) == Returned(Eval(m, ts, lo, hi, true).value, success)
    ensures !BareNumber(ts, lo, hi) ==> Eval(m, ts, lo, hi, success) == Eval(m, ts, lo, hi, true)
    decreases hi - lo
  {
    if lo + 1 < hi && ts[lo].kind == LParen && ts[hi - 1].kind == RParen {
      FlagMatters(m, ts, lo + 1, hi - 1, success);
    }
  }

  /** The `*` tokens the pass in `expr` turns into dereferences: the first
      token, or one after a token that does not end an operand. */
  predicate Deref(ts: seq<Token>, i: nat)
    requires i < |ts|
  {
    ts[i].kind == Star && (i == 0 || !EndsOperand(ts[i - 1].kind))
  }

  /** The pass in `expr`, left to right, each test looking at the previous
      token as already rewritten. */
  function Reclassify(ts: seq<Token>): (r: seq<Token>)
    ensures |r| == |ts|
    decreases |ts|
  {
    if ts == [] then []
    else
      var r := Reclassify(ts[..|ts| - 1]);
      r + [Rewrite(r, ts[|ts| - 1])]
  }

  /** The test of the pass for the token `t` after the rewritten tokens `r`. */
  function Rewrite(r: seq<Token>, t: Token): Token {
    if t.kind == Star && (r == [] || !EndsOperand(r[|r| - 1].kind)) then t.(kind := Ref) else t
  }

  /** The pass over one more token of `ts`. */
  lemma ReclassifyPrefix(ts: seq<Token>, i: nat)
    requires i < |ts|
    ensures Reclassify(ts[..i + 1]) == Reclassify(ts[..i]) + [Rewrite(Reclassify(ts[..i]), ts[i])]
  {
    assert ts[..i + 1][..i] == ts[..i];
  }

  /** The pass rewrites exactly the `Deref` stars, judged on the original
      token types, and changes nothing else. */
  lemma {:induction false} ReclassifySpec(ts: seq<Token>)
    ensures forall i :: 0 <= i < |ts| ==> Reclassify(ts)[i] == (if Deref(ts, i) then ts[i].(kind := Ref) else ts[i])
    decreases |ts|
  {
    if ts != [] {
      var front := ts[..|ts| - 1];
      ReclassifySpec(front);
      forall i | 0 <= i < |ts|
        ensures Reclassify(ts)[i] == (if Deref(ts, i) then ts[i].(kind := Ref) else ts[i])
      {
        if i < |front| {
          assert Reclassify(ts)[i] == Reclassify(front)[i];
          assert front[i] == ts[i];
          assert 0 < i ==> front[i - 1] == ts[i - 1];
        } else if 0 < i {
          assert Reclassify(front)[i - 1].kind == Ref || Reclassify(front)[i - 1].kind == ts[i - 1].kind;
        }
      }
    }
  }

  /** Running the pass twice changes nothing more. */
  lemma ReclassifyIdempotent(ts: seq<Token>)
    ensures Reclassify(Reclassify(ts)) == Reclassify(ts)
  {
    NoDerefLeft(ts);
    ReclassifyFixed(Reclassify(ts));
  }

  /** After the pass no `*` is left that the pass would rewrite. */
  lemma NoDerefLeft(ts: seq<Token>)
    ensures forall i :: 0 <= i < |ts| ==> !Deref(Reclassify(ts), i)
  {
    var r := Reclassify(ts);
    ReclassifySpec(ts);
    forall i | 0 <= i < |r| ensures !Deref(r, i) {
      assert r[i] == (if Deref(ts, i) then ts[i].(kind := Ref) else ts[i]);
      if 0 < i {
        assert r[i - 1] == (if Deref(ts, i - 1) then ts[i - 1].(kind := Ref) else ts[i - 1]);
      }
    }
  }

  /** The pass leaves a sequence with no `Deref` star as it is. */
  lemma ReclassifyFixed(ts: seq<Token>)
    requires forall i :: 0 <= i < |ts| ==> !Deref(ts, i)
    ensures Reclassify(ts) == ts
  {
    ReclassifySpec(ts);
  }

  /** Rewriting `*` as a dereference leaves the text of the tokens unchanged. */
  lemma ReclassifyRender(ts: seq<Token>)
    ensures Render(Reclassify(ts)) == Render(ts)
  {
    ReclassifySpec(ts);
    SameText(Reclassify(ts), ts);
  }

  lemma {:induction false} SameText(a: seq<Token>, b: seq<Token>)
    requires |a| == |b| && forall i :: 0 <= i < |a| ==> Text(a[i]) == Text(b[i])
    ensures Render(a) == Render(b)
    decreases |a|
  {
    if a != [] {
      assert Text(a[0]) == Text(b[0]);
      SameText(a[1..], b[1..]);
    }
  }

  /** In a reclassified sequence a dominant dereference is the first token of
      its range, so the tokens left of it that `eval` skips are none. */
  lemma DerefLeads(ts: seq<Token>, lo: nat, hi: nat)
    requires lo <= hi <= |ts|
    requires forall i :: 0 < i < |ts| && ts[i].kind == Ref ==> !EndsOperand(ts[i - 1].kind)
    requires Dominant(ts, lo, hi).Some? && ts[Dominant(ts, lo, hi).value].kind == Ref
    ensures Dominant(ts, lo, hi).value == lo
  {
    var d := Dominant(ts, lo, hi).value;
    DominantSpec(ts, lo, hi);
    if lo < d && ts[d - 1].kind != LParen {
      assert AtTop(ts, lo, d - 1);
    }
  }

  /** The reclassified output of the lexer satisfies `DerefLeads`'s condition. */
  lemma ReclassifiedDerefs(ts: seq<Token>)
    requires forall i :: 0 <= i < |ts| ==> ts[i].kind != Ref
    ensures forall i :: 0 < i < |ts| && Reclassify(ts)[i].kind == Ref ==> !EndsOperand(Reclassify(ts)[i - 1].kind)
  {
    ReclassifySpec(ts);
  }

  /** `expr`: tokenize, reclassify `*`, evaluate the whole sequence; a lexer
      failure reports failure without evaluating. */
  function ExprSpec(m: Machine, e: string, success: bool): Outcome {
    match Lexer.Tokenize(e)
    case Err(_) => Returned(0, false)
    case Ok(ts) => Eval(m, Reclassify(ts), 0, |ts|, success)
  }
}
