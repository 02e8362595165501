/**
 * The evaluator as its design evidently intends it, beside `Evaluator.Eval`
 * as written. Two things differ:
 *   - the outer parentheses are stripped only when they are a matched pair
 *     (nemu/src/monitor/sdb/expr.c:208 tests only that the range starts
 *     with `(` and ends with `)`);
 *   - a number reports success (expr.c:202-205 never sets the flag for a
 *     number, so a bare number reports whatever the caller passed in).
 * Failures are typed errors instead of a cleared flag or a stopped emulator.
 */
module Corrected {
  import opened Wrappers
  import opened Words
  import opened Tokens
  import opened Literals
  import opened Dominance
  import Lexer
  import W = Evaluator

  datatype Error =
    | UnexpectedCharacter(position: nat)
    | TooManyTokens
    | EmptyRange
    | NotAValue
    | UnbalancedParens
    | NoDominantOperator
    | UnknownRegister
    | DivideByZero

  /** `ts[lo..hi)` is a matched pair of parentheses around a balanced interior. */
  predicate Enclosed(ts: seq<Token>, lo: nat, hi: nat)
    requires lo + 2 <= hi <= |ts|
  {
    ts[lo].kind == LParen && ts[hi - 1].kind == RParen && Balanced(ts, lo + 1, hi - 1)
  }

  function Leaf(m: W.Machine, t: Token): Result<Word, Error> {
    match t.kind
    case Reg => (match m.reg(W.RegName(t.str)) case Some(v) => Ok(v) case None => Err(UnknownRegister))
    case Num => Ok(LiteralValue(t.str))
    case _ => Err(NotAValue)
  }

  function Apply(k: Kind, left: Word, right: Word): Result<Word, Error>
    requires IsOperator(k) && k != Ref
  {
    if k == Slash && right == 0 then Err(DivideByZero) else Ok(W.Apply(k, left, right).value)
  }

  function Load(m: W.Machine, operand: Result<Word, Error>): Result<Word, Error> {
    match operand
    case Err(e) => Err(e)
    case Ok(a) => Ok(m.mem(a))
  }

  function Binary(k: Kind, right: Result<Word, Error>, left: Result<Word, Error>): Result<Word, Error>
    requires IsOperator(k) && k != Ref
  {
    match right
    case Err(e) => Err(e)
    case Ok(r) =>
      match left
      case Err(e) => Err(e)
      case Ok(l) => Apply(k, l, r)
  }

  /** The evaluation of `ts[lo..hi)`; the right operand's error is reported first. */
  function Evaluate(m: W.Machine, ts: seq<Token>, lo: nat, hi: nat): Result<Word, Error>
    requires lo <= hi <= |ts|
    decreases hi - lo
  {
    if lo == hi then Err(EmptyRange)
    else if lo + 1 == hi then Leaf(m, ts[lo])
    else if Enclosed(ts, lo, hi) then Evaluate(m, ts, lo + 1, hi - 1)
    else match Dominant(ts, lo, hi)
      case None => Err(if Nonneg(ts, lo, hi) then NoDominantOperator else UnbalancedParens)
      case Some(d) =>
        if ts[d].kind == Ref then Load(m, Evaluate(m, ts, d + 1, hi))
        else Binary(ts[d].kind, Evaluate(m, ts, d + 1, hi), Evaluate(m, ts, lo, d))
  }

  /** A balanced interior wrapped in a matched pair is balanced. */
  lemma Wrap(ts: seq<Token>, lo: nat, hi: nat)
    requires lo + 2 <= hi <= |ts| && Enclosed(ts, lo, hi)
    ensures Balanced(ts, lo, hi)
  {
    forall k | lo + 1 <= k <= hi ensures Depth(ts, lo, k) == 1 + Depth(ts, lo + 1, if k == hi then hi - 1 else k) - (if k == hi then 1 else 0) {
      if k < hi {
        DepthSplit(ts, lo, lo + 1, k);
      } else {
        DepthSplit(ts, lo, lo + 1, hi - 1);
      }
    }
  }

  /** An operator at level zero between two balanced parts: balanced. */
  lemma Join(ts: seq<Token>, lo: nat, d: nat, hi: nat)
    requires lo <= d < hi <= |ts| && Nonneg(ts, lo, hi) && AtTop(ts, lo, d) && Balanced(ts, d + 1, hi)
    ensures Balanced(ts, lo, hi)
  {
    DepthSplit(ts, lo, d + 1, hi);
  }

  /** Whenever `eval` as written succeeds, the range is balanced and the
      corrected evaluator gives the same value: the correction only turns
      failures into results. */
  lemma {:induction false} WrittenSound(m: W.Machine, ts: seq<Token>, lo: nat, hi: nat, success: bool)
    requires lo <= hi <= |ts|
    requires W.Eval(m, ts, lo, hi, success).Returned? && W.Eval(m, ts, lo, hi, success).success
    ensures Balanced(ts, lo, hi)
    ensures Evaluate(m, ts, lo, hi) == Ok(W.Eval(m, ts, lo, hi, success).value)
    decreases hi - lo, 1
  {
    if lo + 1 == hi {
      assert Depth(ts, lo, hi) == 0;
    } else if ts[lo].kind == LParen && ts[hi - 1].kind == RParen {
      WrittenSound(m, ts, lo + 1, hi - 1, success);
      Wrap(ts, lo, hi);
    } else {
      assert Dominant(ts, lo, hi).Some?;
      WrittenSoundAt(m, ts, lo, hi, Dominant(ts, lo, hi).value, success);
    }
  }

  /** `WrittenSound` for a range split at its dominant operator `ts[d]`. */
  lemma {:induction false} WrittenSoundAt(m: W.Machine, ts: seq<Token>, lo: nat, hi: nat, d: nat, success: bool)
    requires lo + 2 <= hi <= |ts| && !(ts[lo].kind == LParen && ts[hi - 1].kind == RParen)
    requires Dominant(ts, lo, hi) == Some(d)
    requires W.Eval(m, ts, lo, hi, success).Returned? && W.Eval(m, ts, lo, hi, success).success
    ensures Balanced(ts, lo, hi)
    ensures Evaluate(m, ts, lo, hi) == Ok(W.Eval(m, ts, lo, hi, success).value)
    decreases hi - lo, 0
  {
    EvalAt(m, ts, lo, hi, d, success);
    EvaluateAt(m, ts, lo, hi, d);
    var right := W.Eval(m, ts, d + 1, hi, true);
    if ts[d].kind == Ref {
      SoundLoad(m, right);
      WrittenSound(m, ts, d + 1, hi, true);
    } else {
      SoundBinary(ts[d].kind, right, W.Eval(m, ts, lo, d, true));
      WrittenSound(m, ts, d + 1, hi, true);
      WrittenSound(m, ts, lo, d, true);
    }
    Join(ts, lo, d, hi);
  }

  /** `eval` as written on a range split at its dominant operator. */
  lemma EvalAt(m: W.Machine, ts: seq<Token>, lo: nat, hi: nat, d: nat, success: bool)
    requires lo + 2 <= hi <= |ts| && !(ts[lo].kind == LParen && ts[hi - 1].kind == RParen)
    requires Dominant(ts, lo, hi) == Some(d)
    ensures lo <= d < hi && IsOperator(ts[d].kind)
    ensures W.Eval(m, ts, lo, hi, success) ==
      if ts[d].kind == Ref then W.Load(m, W.Eval(m, ts, d + 1, hi, true))
      else W.Binary(ts[d].kind, W.Eval(m, ts, d + 1, hi, true), W.Eval(m, ts, lo, d, true))
  {
  }

  /** The corrected evaluator on a range split at its dominant operator. */
  lemma EvaluateAt(m: W.Machine, ts: seq<Token>, lo: nat, hi: nat, d: nat)
    requires lo + 2 <= hi <= |ts| && !(ts[lo].kind == LParen && ts[hi - 1].kind == RParen)
    requires Dominant(ts, lo, hi) == Some(d)
    ensures lo <= d < hi && IsOperator(ts[d].kind)
    ensures Evaluate(m, ts, lo, hi) ==
      if ts[d].kind == Ref then Load(m, Evaluate(m, ts, d + 1, hi))
      else Binary(ts[d].kind, Evaluate(m, ts, d + 1, hi), Evaluate(m, ts, lo, d))
  {
  }

  /** A dereference that succeeds as written had a successful operand and
      reads what the corrected one reads. */
  lemma SoundLoad(m: W.Machine, operand: W.Outcome)
    requires W.Load(m, operand).Returned? && W.Load(m, operand).success
    ensures operand.Returned? && operand.success
    ensures Load(m, Ok(operand.value)) == Ok(W.Load(m, operand).value)
  {
  }

  /** A binary operator that succeeds as written had successful operands and
      computes what the corrected one computes. */
  lemma SoundBinary(k: Kind, right: W.Outcome, left: W.Outcome)
    requires IsOperator(k) && k != Ref
    requires W.Binary(k, right, left).Returned? && W.Binary(k, right, left).success
    ensures right.Returned? && right.success && left.Returned? && left.success
    ensures Binary(k, Ok(right.value), Ok(left.value)) == Ok(W.Binary(k, right, left).value)
  {
  }

  /** Every pair of parentheses `eval` as written strips on its way down is
      a matched pair. */
  ghost predicate StripsMatched(ts: seq<Token>, lo: nat, hi: nat)
    requires lo <= hi <= |ts|
    decreases hi - lo
  {
    if hi < lo + 2 then true
    else if ts[lo].kind == LParen && ts[hi - 1].kind == RParen then Enclosed(ts, lo, hi) && StripsMatched(ts, lo + 1, hi - 1)
    else match Dominant(ts, lo, hi)
      case None => true
      case Some(d) => StripsMatched(ts, d + 1, hi) && (ts[d].kind == Ref || StripsMatched(ts, lo, d))
  }

  /** An outcome as written and a corrected result say the same thing: the
      same value with success, the same stop as the same error, and a
      cleared flag as any other error. */
  predicate Agree(o: W.Outcome, r: Result<Word, Error>) {
    match r
    case Ok(v) => o == W.Returned(v, true)
    case Err(NotAValue) => o == W.Aborted(W.NotAValue)
    case Err(DivideByZero) => o == W.Aborted(W.DivideByZero)
    case Err(_) => o == W.Returned(0, false)
  }

  lemma BinaryAgree(k: Kind, o1: W.Outcome, r1: Result<Word, Error>, o2: W.Outcome, r2: Result<Word, Error>)
    requires IsOperator(k) && k != Ref && Agree(o1, r1) && Agree(o2, r2)
    ensures Agree(W.Binary(k, o1, o2), Binary(k, r1, r2))
  {
    if r1.Ok? && r2.Ok? {
      ApplyStops(k, r2.value, r1.value);
    }
  }

  lemma LoadAgree(m: W.Machine, o: W.Outcome, r: Result<Word, Error>)
    requires Agree(o, r)
    ensures Agree(W.Load(m, o), Load(m, r))
  {
  }

  /** `Apply` as written stops exactly on a zero divisor and otherwise succeeds. */
  lemma ApplyStops(k: Kind, l: Word, r: Word)
    requires IsOperator(k) && k != Ref
    ensures W.Apply(k, l, r).Aborted? <==> k == Slash && r == 0
    ensures W.Apply(k, l, r).Aborted? ==> W.Apply(k, l, r).fault == W.DivideByZero
    ensures W.Apply(k, l, r).Returned? ==> W.Apply(k, l, r).success
  {
  }

  /** Started with the flag set, as every operand is, `eval` as written and
      the corrected evaluator agree on every range whose stripped
      parentheses all match. */
  lemma {:induction false} WrittenAgrees(m: W.Machine, ts: seq<Token>, lo: nat, hi: nat)
    requires lo <= hi <= |ts| && StripsMatched(ts, lo, hi)
    ensures Agree(W.Eval(m, ts, lo, hi, true), Evaluate(m, ts, lo, hi))
    decreases hi - lo, 1
  {
    if hi < lo + 2 {
    } else if ts[lo].kind == LParen && ts[hi - 1].kind == RParen {
      WrittenAgrees(m, ts, lo + 1, hi - 1);
    } else if Dominant(ts, lo, hi).Some? {
      WrittenAgreesAt(m, ts, lo, hi, Dominant(ts, lo, hi).value);
    }
  }

  /** `WrittenAgrees` for a range split at its dominant operator `ts[d]`. */
  lemma {:induction false} WrittenAgreesAt(m: W.Machine, ts: seq<Token>, lo: nat, hi: nat, d: nat)
    requires lo + 2 <= hi <= |ts| && !(ts[lo].kind == LParen && ts[hi - 1].kind == RParen)
    requires Dominant(ts, lo, hi) == Some(d) && StripsMatched(ts, lo, hi)
    ensures Agree(W.Eval(m, ts, lo, hi, true), Evaluate(m, ts, lo, hi))
    decreases hi - lo, 0
  {
    EvalAt(m, ts, lo, hi, d, true);
    EvaluateAt(m, ts, lo, hi, d);
    WrittenAgrees(m, ts, d + 1, hi);
    if ts[d].kind == Ref {
      LoadAgree(m, W.Eval(m, ts, d + 1, hi, true), Evaluate(m, ts, d + 1, hi));
    } else {
      WrittenAgrees(m, ts, lo, d);
      BinaryAgree(ts[d].kind, W.Eval(m, ts, d + 1, hi, true), Evaluate(m, ts, d + 1, hi),
                  W.Eval(m, ts, lo, d, true), Evaluate(m, ts, lo, d));
    }
  }

  /** A range without parentheses strips none. */
  lemma {:induction false} FlatStrips(ts: seq<Token>, lo: nat, hi: nat)
    requires lo <= hi <= |ts|
    requires forall i :: lo <= i < hi ==> ts[i].kind != LParen && ts[i].kind != RParen
    ensures StripsMatched(ts, lo, hi)
    decreases hi - lo
  {
    if lo + 2 <= hi && Dominant(ts, lo, hi).Some? {
      var d := Dominant(ts, lo, hi).value;
      FlatStrips(ts, d + 1, hi);
      FlatStrips(ts, lo, d);
    }
  }

  /** The tokens of `(1)+(2)`. */
  function OnePlusTwo(): seq<Token> {
    [Token(LParen, ""), Token(Num, "1"), Token(RParen, ""), Token(Plus, ""), Token(LParen, ""), Token(Num, "2"), Token(RParen, "")]
  }

  /** `eval` as written strips the unmatched outer `(` and `)` of `(1)+(2)`
      and fails on `1)+(2`; the corrected evaluator gives 3. */
  lemma ParenFinding(m: W.Machine)
    ensures W.Eval(m, OnePlusTwo(), 0, 7, true) == W.Returned(0, false)
    ensures Evaluate(m, OnePlusTwo(), 0, 7) == Ok(3)
  {
    ParenWritten(m);
    ParenCorrected(m);
  }

  /** As written, `(1)+(2)` becomes `1)+(2`, whose `)` drives the level
      below zero, so no operator is found. */
  lemma ParenWritten(m: W.Machine)
    ensures W.Eval(m, OnePlusTwo(), 0, 7, true) == W.Returned(0, false)
  {
    var ts := OnePlusTwo();
    assert Depth(ts, 1, 3) < 0;
    assert W.Eval(m, ts, 0, 7, true) == W.Eval(m, ts, 1, 6, true);
  }

  /** Corrected, `(1)+(2)` is the sum of its two parenthesized operands. */
  lemma ParenCorrected(m: W.Machine)
    ensures Evaluate(m, OnePlusTwo(), 0, 7) == Ok(3)
  {
    OnePlusTwoSplits();
    OnePlusTwoOperands(m);
  }

  /** `(1)+(2)` is not one parenthesized range; its dominant operator is the `+`. */
  lemma OnePlusTwoSplits()
    ensures !Enclosed(OnePlusTwo(), 0, 7)
    ensures Dominant(OnePlusTwo(), 0, 7) == Some(3)
  {
    var ts := OnePlusTwo();
    assert Depth(ts, 1, 3) < 0;
    forall k | 0 <= k <= 7 ensures 0 <= Depth(ts, 0, k) {
      assert k in {0, 1, 2, 3, 4, 5, 6, 7};
    }
    assert Candidate(ts, 0, 3) == None;
  }

  lemma OnePlusTwoOperands(m: W.Machine)
    ensures Evaluate(m, OnePlusTwo(), 0, 3) == Ok(1)
    ensures Evaluate(m, OnePlusTwo(), 4, 7) == Ok(2)
  {
    var ts := OnePlusTwo();
    assert Enclosed(ts, 0, 3) && Enclosed(ts, 4, 7);
    StrtolDigit(1);
    StrtolDigit(2);
  }

  /** A bare number as written keeps the caller's cleared flag and so
      reports failure with the right value; corrected, it is a result. */
  lemma NumberFinding(m: W.Machine)
    ensures W.Eval(m, [Token(Num, "5")], 0, 1, false) == W.Returned(5, false)
    ensures Evaluate(m, [Token(Num, "5")], 0, 1) == Ok(5)
  {
    NumberWritten(m);
    NumberCorrected(m);
  }

  /** As written, `5` evaluated with the flag cleared, as `expr`'s callers
      start it, returns 5 with the flag still cleared. */
  lemma NumberWritten(m: W.Machine)
    ensures W.Eval(m, [Token(Num, "5")], 0, 1, false) == W.Returned(5, false)
  {
    StrtolDigit(5);
  }

  /** Corrected, `5` is the result 5. */
  lemma NumberCorrected(m: W.Machine)
    ensures Evaluate(m, [Token(Num, "5")], 0, 1) == Ok(5)
  {
    StrtolDigit(5);
  }
}
