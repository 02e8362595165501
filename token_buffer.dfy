/**
 * The token array of nemu/src/monitor/sdb/expr.c (`tokens`, `nr_token`) and
 * the code that works on it in place: the loops of `make_token` and
 * `find_dominated_op`, the `*` pass and the entry point `expr`.
 * Each method is proved against the function that specifies it.
 */
module ExprState {
  import opened Wrappers
  import opened Tokens
  import opened Lexer
  import opened Dominance
  import opened Evaluator

  /** The inner loop of `make_token`: the rules tried in table order at
      index `at`, each by `regexec` anchored there (a match at offset 0).
      Gives the first rule that matches with the length of its match, or
      `RuleCount` when none does. */
  method FirstMatch(e: string, at: nat) returns (i: nat, len: nat)
    requires at < |e|
    ensures i <= RuleCount
    ensures i == RuleCount <==> Scan(e, at).None?
    ensures i < RuleCount ==> Scan(e, at) == Some(Match(RuleAt(i), len))
  {
    i := 0;
    while i < RuleCount
      invariant i <= RuleCount
      invariant ScanFrom(e, at, 0) == ScanFrom(e, at, i)
    {
      len := MatchLen(RuleAt(i), e, at);
      if len > 0 {
        return;
      }
      i := i + 1;
    }
    len := 0;
  }

  class TokenBuffer {
    /** `static Token tokens[32]`. */
    const tokens: array<Token>
    /** `nr_token`: how many leading slots hold the current expression. */
    var nrToken: nat

    ghost predicate Valid()
      reads this
    {
      tokens.Length == MaxTokens && nrToken <= MaxTokens
    }

    /** The tokens of the current expression. */
    ghost function Current(): seq<Token>
      reads this, tokens
      requires Valid()
    {
      tokens[..nrToken]
    }

    constructor ()
      ensures Valid() && nrToken == 0 && fresh(tokens)
    {
      tokens := new Token[MaxTokens](_ => Token(Plus, ""));
      nrToken := 0;
    }

    /** Stores `t` in the first free slot (`tokens[nr_token] = ...; nr_token++`). */
    method Record(t: Token)
      requires Valid() && nrToken < MaxTokens
      modifies this, tokens
      ensures Valid() && nrToken == old(nrToken) + 1
      ensures tokens[..nrToken] == old(tokens[..nrToken]) + [t]
    {
      tokens[nrToken] := t;
      nrToken := nrToken + 1;
      assert tokens[..nrToken] == old(tokens[..nrToken]) + [t];
    }

    /** One round of the `make_token` loop at `position`: the first rule
        that matches there is skipped or recorded. `stop`: no rule matches,
        or the token would be a 33rd, and `whole` is an error; otherwise
        the scan goes on at `next`, past the match. */
    method Advance(e: string, position: nat, ghost whole: Result<seq<Token>, LexError>) returns (stop: bool, next: nat)
      requires Valid() && position < |e|
      requires whole == Prepend(tokens[..nrToken], Lex(e, position, MaxTokens - nrToken))
      modifies this, tokens
      ensures Valid()
      ensures stop ==> whole.Err?
      ensures !stop ==> position < next <= |e| && whole == Prepend(tokens[..nrToken], Lex(e, next, MaxTokens - nrToken))
    {
      var i, len := FirstMatch(e, position);
      if i == RuleCount {
        LexStuckStep(whole, tokens[..nrToken], e, position, MaxTokens - nrToken);
        return true, position;
      }
      ghost var before, room, mt := tokens[..nrToken], MaxTokens - nrToken, Match(RuleAt(i), len);
      next := position + len;
      match RuleKind(RuleAt(i))
      case None =>
        LexSkipStep(whole, before, e, position, room, mt);
        stop := false;
      case Some(k) =>
        if nrToken == MaxTokens {
          LexFullStep(whole, before, e, position, mt);
          return true, position;
        }
        var t := TokenOf(k, e[position..next]);
        Record(t);
        LexRecordStep(whole, before, tokens[..nrToken], e, position, next, room, mt, t);
        stop := false;
    }

    /** `make_token`: on success the array holds exactly the tokens `Tokenize`
        gives; it fails exactly where `Tokenize` does, at an index no rule
        matches or on a 33rd token. */
    method MakeToken(e: string) returns (ok: bool)
      requires Valid()
      modifies this, tokens
      ensures Valid()
      ensures ok <==> Tokenize(e).Ok?
      ensures ok ==> Current() == Tokenize(e).value
    {
      var position := 0;
      nrToken := 0;
      assert tokens[..0] == [];
      ghost var whole := Tokenize(e);
      PrependNil(whole);
      while position < |e|
        invariant Valid() && position <= |e|
        invariant whole == Prepend(tokens[..nrToken], Lex(e, position, MaxTokens - nrToken))
        decreases |e| - position
      {
        var stop, next := Advance(e, position, whole);
        if stop {
          return false;
        }
        position := next;
      }
      LexEndStep(whole, tokens[..nrToken], e, MaxTokens - nrToken);
      return true;
    }

    /** `find_dominated_op` on `tokens[lo..hi)`: the scan that tracks the
        bracket level and the operator it holds. It fails at a `)` that
        drives the level below zero, or when it holds no operator at the end. */
    method FindDominatedOp(lo: nat, hi: nat) returns (success: bool, op: int)
      requires Valid() && lo <= hi <= nrToken
      ensures success <==> Dominant(Current(), lo, hi).Some?
      ensures success ==> op == Dominant(Current(), lo, hi).value
      ensures !success ==> op == -1
    {
      ghost var ts := tokens[..nrToken];
      var level := 0;
      var dom := -1;
      var i := lo;
      while i < hi
        invariant lo <= i <= hi
        invariant level == Depth(ts, lo, i) && Nonneg(ts, lo, i)
        invariant dom == if Candidate(ts, lo, i).Some? then Candidate(ts, lo, i).value else -1
      {
        var k := tokens[i].kind;
        if k == Num || k == Reg {
        } else if k == LParen {
          level := level + 1;
        } else if k == RParen {
          level := level - 1;
          if level < 0 {
            assert Depth(ts, lo, i + 1) < 0;
            return false, -1;
          }
        } else if level == 0 {
          if dom == -1 || Displaces(tokens[dom].kind, k) {
            dom := i;
          }
        }
        i := i + 1;
      }
      success := dom != -1;
      op := dom;
    }

    /** The pass of `expr` that turns `*` into a dereference where it cannot
        be a multiplication, rewriting the token types in place. */
    method MarkDereferences()
      requires Valid()
      modifies tokens
      ensures Valid()
      ensures tokens[..nrToken] == Reclassify(old(tokens[..nrToken]))
      ensures forall j :: nrToken <= j < tokens.Length ==> tokens[j] == old(tokens[j])
    {
      ghost var ts := tokens[..nrToken];
      var i := 0;
      while i < nrToken
        invariant i <= nrToken
        invariant tokens[..i] == Reclassify(ts[..i])
        invariant forall j :: i <= j < tokens.Length ==> tokens[j] == old(tokens[j])
      {
        ghost var done := tokens[..i];
        ReclassifyPrefix(ts, i);
        assert tokens[i] == ts[i];
        if tokens[i].kind == Star {
          if i == 0 {
            tokens[i] := tokens[i].(kind := Ref);
          } else {
            var prev := tokens[i - 1].kind;
            if !(prev == RParen || prev == Num || prev == Reg) {
              tokens[i] := tokens[i].(kind := Ref);
            }
          }
        }
        assert tokens[i] == Rewrite(done, ts[i]);
        assert tokens[..i + 1] == done + [tokens[i]];
        i := i + 1;
      }
      assert ts[..nrToken] == ts;
    }

    /** `eval` on `tokens[lo..hi)`, recursive as in the source. */
    method EvalRange(m: Machine, lo: nat, hi: nat, success: bool) returns (o: Outcome)
      requires Valid() && lo <= hi <= nrToken
      ensures o == Eval(m, Current(), lo, hi, success)
      decreases hi - lo, 1
    {
      if lo == hi {
        return Returned(0, false);
      } else if lo + 1 == hi {
        return Leaf(m, tokens[lo], success);
      } else if tokens[lo].kind == LParen && tokens[hi - 1].kind == RParen {
        o := EvalRange(m, lo + 1, hi - 1, success);
        return;
      }
      var found, d := FindDominatedOp(lo, hi);
      if !found {
        return Returned(0, false);
      }
      o := EvalOperator(m, lo, hi, d);
    }

    /** The rest of `eval` once `find_dominated_op` found `tokens[d]`: a
        dereference reads the word at the address its right side gives; a
        binary operator evaluates its right operand first, and a failure
        there skips the left one. */
    method EvalOperator(m: Machine, lo: nat, hi: nat, d: nat) returns (o: Outcome)
      requires Valid() && lo <= d < hi <= nrToken && IsOperator(tokens[d].kind)
      ensures tokens[d].kind == Ref ==> o == Load(m, Eval(m, Current(), d + 1, hi, true))
      ensures tokens[d].kind != Ref ==> o == Binary(tokens[d].kind, Eval(m, Current(), d + 1, hi, true), Eval(m, Current(), lo, d, true))
      decreases hi - lo, 0
    {
      var k := tokens[d].kind;
      if k == Ref {
        var operand := EvalRange(m, d + 1, hi, true);
        return Load(m, operand);
      }
      var right := EvalRange(m, d + 1, hi, true);
      if right.Aborted? || !right.success {
        return Binary(k, right, Returned(0, false));
      }
      var left := EvalRange(m, lo, d, true);
      o := Binary(k, right, left);
    }

    /** `expr`: tokenize `e` into the array, mark the dereferences, and
        evaluate all the tokens; a tokenizer failure reports failure. */
    method Expr(m: Machine, e: string, success: bool) returns (o: Outcome)
      requires Valid()
      modifies this, tokens
      ensures Valid()
      ensures o == ExprSpec(m, e, success)
    {
      var ok := MakeToken(e);
      if !ok {
        return Returned(0, false);
      }
      MarkDereferences();
      o := EvalRange(m, 0, nrToken, success);
    }
  }
}
