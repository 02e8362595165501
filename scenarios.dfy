/**
 * Whole expressions through `expr` (nemu/src/monitor/sdb/expr.c:256-276):
 * tokenizing, the `*` pass and `eval` on concrete inputs, as the
 * debugger's `p` command passes them, with the flag cleared.
 */
module Scenarios {
  import opened Wrappers
  import opened Words
  import opened Tokens
  import opened Dominance
  import opened Lexer
  import opened Evaluator

  /** The scan finds rule `j` when every rule before it from `i` on misses. */
  lemma {:induction false} ScanFromAt(e: string, at: nat, i: nat, j: nat)
    requires at <= |e| && i <= j < RuleCount
    requires forall k :: i <= k < j ==> MatchLen(RuleAt(k), e, at) == 0
    requires MatchLen(RuleAt(j), e, at) > 0
    ensures ScanFrom(e, at, i) == Some(Match(RuleAt(j), MatchLen(RuleAt(j), e, at)))
    decreases j - i
  {
    if i < j {
      ScanFromAt(e, at, i + 1, j);
    }
  }

  /** A single digit, not the start of a longer number or of `0x`, is
      matched by the decimal rule. */
  lemma ScanDigit(e: string, at: nat)
    requires at < |e| && '0' <= e[at] <= '9'
    requires at + 1 == |e| || !('0' <= e[at + 1] <= '9' || e[at + 1] == 'x')
    ensures Scan(e, at) == Some(Match(DecLiteral, 1))
  {
    var to := Min(|e|, at + 20);
    assert Run(e, at + 1, to, DigitChar) == 0;
    assert Run(e, at, to, DigitChar) == 1;
    forall k | 0 <= k < 7 ensures MatchLen(RuleAt(k), e, at) == 0 {
      assert k in {0, 1, 2, 3, 4, 5, 6};
    }
    ScanFromAt(e, at, 0, 7);
  }

  /** The one-character operator and parenthesis rules and their characters. */
  function Symbol(r: Rule): char {
    match r
    case PlusSign => '+'
    case MinusSign => '-'
    case Asterisk => '*'
    case SlashSign => '/'
    case OpenParen => '('
    case CloseParen => ')'
    case _ => ' '
  }

  /** Such a character is matched by its own rule. */
  lemma ScanSymbol(e: string, at: nat, r: Rule)
    requires at < |e| && r in {PlusSign, MinusSign, Asterisk, SlashSign, OpenParen, CloseParen} && e[at] == Symbol(r)
    ensures Scan(e, at) == Some(Match(r, 1))
  {
    var j := IndexOf(r);
    forall k | 0 <= k < j ensures MatchLen(RuleAt(k), e, at) == 0 {
      assert k in {0, 1, 2, 3, 4, 5, 6, 7, 8};
    }
    ScanFromAt(e, at, 0, j);
  }

  /** A string each of whose characters is a token by itself lexes to
      those tokens, given room for all of them. */
  lemma {:induction false} LexWithSingles(step: Stepper, e: string, at: nat, room: nat, ts: seq<Token>)
    requires Consumes(step) && at <= |e| && |ts| == |e| - at <= room
    requires forall k :: at <= k < |e| ==> step(e, k) == Some(Emit(1, ts[k - at]))
    ensures LexWith(step, e, at, room) == Ok(ts)
    decreases |e| - at
  {
    if at < |e| {
      LexWithSingles(step, e, at + 1, room - 1, ts[1..]);
      LexWithEmitStep(step, e, at, room, 1, ts[0]);
      assert [ts[0]] + ts[1..] == ts;
    }
  }

  /** The step at a digit that stands alone records it as a number. */
  lemma StepDigit(e: string, at: nat)
    requires at < |e| && '0' <= e[at] <= '9'
    requires at + 1 == |e| || !('0' <= e[at + 1] <= '9' || e[at + 1] == 'x')
    ensures StepAt(e, at) == Some(Emit(1, Token(Num, [e[at]])))
  {
    ScanDigit(e, at);
    assert e[at..at + 1] == [e[at]];
  }

  /** The step at an operator or parenthesis records its token. */
  lemma StepSymbol(e: string, at: nat, r: Rule)
    requires at < |e| && r in {PlusSign, MinusSign, Asterisk, SlashSign, OpenParen, CloseParen} && e[at] == Symbol(r)
    ensures StepAt(e, at) == Some(Emit(1, Token(RuleKind(r).value, "")))
  {
    ScanSymbol(e, at, r);
  }

  /** The character at `at` is a token by itself: an operator, a
      parenthesis, or a digit that starts neither a longer number nor `0x`. */
  predicate Single(e: string, at: nat)
    requires at < |e|
  {
    e[at] in "+-*/()" ||
    ('0' <= e[at] <= '9' && (at + 1 == |e| || !('0' <= e[at + 1] <= '9' || e[at + 1] == 'x')))
  }

  /** The token a single character stands for. */
  function CharToken(c: char): Token {
    if '0' <= c <= '9' then Token(Num, [c])
    else Token(if c == '+' then Plus else if c == '-' then Minus else if c == '*' then Star
               else if c == '/' then Slash else if c == '(' then LParen else RParen, "")
  }

  function CharTokens(e: string): (ts: seq<Token>)
    ensures |ts| == |e|
  {
    seq(|e|, k requires 0 <= k < |e| => CharToken(e[k]))
  }

  lemma StepChar(e: string, at: nat)
    requires at < |e| && Single(e, at)
    ensures StepAt(e, at) == Some(Emit(1, CharToken(e[at])))
  {
    var c := e[at];
    if '0' <= c <= '9' {
      StepDigit(e, at);
    } else {
      var r := if c == '+' then PlusSign else if c == '-' then MinusSign else if c == '*' then Asterisk
               else if c == '/' then SlashSign else if c == '(' then OpenParen else CloseParen;
      StepSymbol(e, at, r);
    }
  }

  /** A string of at most 32 characters, each a token by itself, lexes to
      one token per character. */
  lemma Singles(e: string)
    requires |e| <= MaxTokens && forall k :: 0 <= k < |e| ==> Single(e, k)
    ensures Tokenize(e) == Ok(CharTokens(e))
  {
    var ts := CharTokens(e);
    forall k | 0 <= k < |e| ensures StepAt(e, k) == Some(Emit(1, ts[k - 0])) {
      StepChar(e, k);
    }
    StepAtConsumes();
    LexWithSingles(StepAt, e, 0, MaxTokens, ts);
  }

  function Num1(c: char): Token { Token(Num, [c]) }
  function Op(k: Kind): Token { Token(k, "") }

  /** Without brackets the level stays zero. */
  lemma {:induction false} FlatDepth(ts: seq<Token>, lo: nat, i: nat)
    requires lo <= i <= |ts|
    requires forall k :: lo <= k < i ==> Delta(ts[k].kind) == 0
    ensures Depth(ts, lo, i) == 0
    decreases i - lo
  {
    if i > lo {
      FlatDepth(ts, lo, i - 1);
    }
  }

  /** Without brackets the search never gives up on a `)`. */
  lemma FlatDominant(ts: seq<Token>, lo: nat, hi: nat)
    requires lo <= hi <= |ts|
    requires forall k :: lo <= k < hi ==> Delta(ts[k].kind) == 0
    ensures Dominant(ts, lo, hi) == Candidate(ts, lo, hi)
  {
    forall k | lo <= k <= hi ensures Depth(ts, lo, k) == 0 {
      FlatDepth(ts, lo, k);
    }
  }

  /** A one-digit number evaluates to its digit. */
  lemma EvalDigit(m: Machine, ts: seq<Token>, i: nat, d: nat, success: bool)
    requires i < |ts| && d < 10 && ts[i] == Num1(Literals.DigitChar(d))
    ensures Eval(m, ts, i, i + 1, success) == Returned(d, success)
  {
    Literals.StrtolDigit(d);
  }

  /** A string whose every character is a token by itself lexes to the
      tokens `ts`. */
  lemma LexSingles(e: string, ts: seq<Token>)
    requires |e| <= MaxTokens && forall k :: 0 <= k < |e| ==> Single(e, k)
    requires ts == CharTokens(e)
    ensures Tokenize(e) == Ok(ts)
  {
    Singles(e);
  }

  function SumTokens(): seq<Token> { [Num1('2'), Op(Plus), Num1('3'), Op(Star), Num1('4')] }
  function ParenTokens(): seq<Token> { [Op(LParen), Num1('2'), Op(Plus), Num1('3'), Op(RParen), Op(Star), Num1('4')] }
  function QuotientTokens(): seq<Token> { [Num1('1'), Op(Slash), Num1('0')] }
  function DerefTokens(): seq<Token> { [Num1('2'), Op(Star), Op(Star), Num1('8')] }

  /** `2+3*4` reads as five tokens. */
  lemma LexSum(e: string)
    requires e == "2+3*4"
    ensures Tokenize(e) == Ok(SumTokens())
  {
    assert forall k :: 0 <= k < |e| ==> Single(e, k);
    LexSingles(e, SumTokens());
  }

  lemma LexParen(e: string)
    requires e == "(2+3)*4"
    ensures Tokenize(e) == Ok(ParenTokens())
  {
    assert forall k :: 0 <= k < |e| ==> Single(e, k);
    LexSingles(e, ParenTokens());
  }

  lemma LexQuotient(e: string)
    requires e == "1/0"
    ensures Tokenize(e) == Ok(QuotientTokens())
  {
    assert forall k :: 0 <= k < |e| ==> Single(e, k);
    LexSingles(e, QuotientTokens());
  }

  lemma LexDeref(e: string)
    requires e == "2**8"
    ensures Tokenize(e) == Ok(DerefTokens())
  {
    assert forall k :: 0 <= k < |e| ==> Single(e, k);
    LexSingles(e, DerefTokens());
  }

  /** `2+3*4` is 14: `*` binds tighter than `+`. */
  lemma PrecedenceExample(m: Machine, e: string)
    requires e == "2+3*4"
    ensures ExprSpec(m, e, false) == Returned(14, true)
  {
    LexSum(e);
    EvalSumTokens(m);
  }

  lemma EvalSumTokens(m: Machine)
    ensures Eval(m, Reclassify(SumTokens()), 0, 5, false) == Returned(14, true)
  {
    var ts := SumTokens();
    ReclassifyFixed(ts);
    EvalSum(m, ts, 2, 3, 4);
    Arithmetic();
  }

  /** `(2+3)*4` is 20: brackets override precedence. */
  lemma ParenExample(m: Machine, e: string)
    requires e == "(2+3)*4"
    ensures ExprSpec(m, e, false) == Returned(20, true)
  {
    LexParen(e);
    EvalParenTokens(m);
  }

  lemma EvalParenTokens(m: Machine)
    ensures Eval(m, Reclassify(ParenTokens()), 0, 7, false) == Returned(20, true)
  {
    var ts := ParenTokens();
    ReclassifyFixed(ts);
    EvalParen(m, ts, 2, 3, 4);
    Arithmetic();
  }

  /** The word arithmetic of the examples does not wrap. */
  lemma Arithmetic()
    ensures Add(2, Mul(3, 4)) == 14 && Mul(Add(2, 3), 4) == 20
  {
  }

  /** `1/0` stops the emulator on the division guard. */
  lemma DivideByZeroExample(m: Machine, e: string)
    requires e == "1/0"
    ensures ExprSpec(m, e, false) == Aborted(DivideByZero)
  {
    LexQuotient(e);
    EvalQuotientTokens(m);
  }

  lemma EvalQuotientTokens(m: Machine)
    ensures Eval(m, Reclassify(QuotientTokens()), 0, 3, false) == Aborted(DivideByZero)
  {
    var ts := QuotientTokens();
    ReclassifyFixed(ts);
    EvalFlat(m, ts, 0, 1, 0, false);
  }

  /** `2**8`: the first `*` follows a number and multiplies, the second
      follows an operator and reads the word at address 8. */
  lemma DerefExample(m: Machine, e: string)
    requires e == "2**8"
    ensures ExprSpec(m, e, false) == Returned(Mul(2, m.mem(8)), true)
  {
    LexDeref(e);
    EvalDerefTokens(m);
  }

  lemma EvalDerefTokens(m: Machine)
    ensures Eval(m, Reclassify(DerefTokens()), 0, 4, false) == Returned(Mul(2, m.mem(8)), true)
  {
    var ts := DerefTokens();
    ReclassifySpec(ts);
    assert !Deref(ts, 1) && Deref(ts, 2);
    EvalDeref(m, Reclassify(ts), 2, 8);
  }

  /** A range split at its dominant binary operator. */
  lemma EvalBinaryAt(m: Machine, ts: seq<Token>, lo: nat, hi: nat, d: nat, success: bool)
    requires lo + 1 < hi <= |ts| && !(ts[lo].kind == LParen && ts[hi - 1].kind == RParen)
    requires Dominant(ts, lo, hi) == Some(d) && ts[d].kind != Ref
    ensures IsOperator(ts[d].kind)
    ensures Eval(m, ts, lo, hi, success) == Binary(ts[d].kind, Eval(m, ts, d + 1, hi, true), Eval(m, ts, lo, d, true))
  {
  }

  /** Digit, binary operator, digit. */
  lemma EvalFlat(m: Machine, ts: seq<Token>, lo: nat, a: nat, b: nat, success: bool)
    requires a < 10 && b < 10 && lo + 3 <= |ts|
    requires ts[lo] == Num1(Literals.DigitChar(a)) && ts[lo + 2] == Num1(Literals.DigitChar(b))
    requires IsOperator(ts[lo + 1].kind) && ts[lo + 1].kind != Ref
    ensures Eval(m, ts, lo, lo + 3, success) == Apply(ts[lo + 1].kind, a, b)
  {
    FlatDominant(ts, lo, lo + 3);
    FlatDepth(ts, lo, lo + 1);
    assert Candidate(ts, lo, lo + 1) == None;
    assert Candidate(ts, lo, lo + 2) == Some(lo + 1);
    EvalDigit(m, ts, lo, a, true);
    EvalDigit(m, ts, lo + 2, b, true);
    EvalBinaryAt(m, ts, lo, lo + 3, lo + 1, success);
  }

  /** `a+b*c` on one-digit numbers is `a + (b * c)`. */
  lemma EvalSum(m: Machine, ts: seq<Token>, a: nat, b: nat, c: nat)
    requires a < 10 && b < 10 && c < 10 && |ts| == 5
    requires ts[0] == Num1(Literals.DigitChar(a)) && ts[1].kind == Plus && ts[2] == Num1(Literals.DigitChar(b))
    requires ts[3].kind == Star && ts[4] == Num1(Literals.DigitChar(c))
    ensures Eval(m, ts, 0, 5, false) == Returned(Add(a, Mul(b, c)), true)
  {
    FlatDominant(ts, 0, 5);
    assert Candidate(ts, 0, 5) == Some(1);
    EvalDigit(m, ts, 0, a, true);
    EvalFlat(m, ts, 2, b, c, true);
    EvalBinaryAt(m, ts, 0, 5, 1, false);
  }

  /** The bracket level of `(a+b)*c` never drops below zero. */
  lemma ParenDepth(ts: seq<Token>)
    requires |ts| == 7 && ts[0].kind == LParen && ts[4].kind == RParen
    requires forall k :: 1 <= k < 7 && k != 4 ==> Delta(ts[k].kind) == 0
    ensures forall k :: 0 <= k <= 7 ==> Depth(ts, 0, k) == (if 1 <= k <= 4 then 1 else 0)
  {
    forall k | 0 <= k <= 7 ensures Depth(ts, 0, k) == (if 1 <= k <= 4 then 1 else 0) {
      DepthAt(ts, k);
    }
  }

  lemma {:induction false} DepthAt(ts: seq<Token>, k: nat)
    requires |ts| == 7 && ts[0].kind == LParen && ts[4].kind == RParen && k <= 7
    requires forall k :: 1 <= k < 7 && k != 4 ==> Delta(ts[k].kind) == 0
    ensures Depth(ts, 0, k) == (if 1 <= k <= 4 then 1 else 0)
  {
    if k > 0 {
      DepthAt(ts, k - 1);
    }
  }

  /** The `*` after the brackets is the dominant operator of `(a+b)*c`. */
  lemma ParenDominant(ts: seq<Token>)
    requires |ts| == 7 && ts[0].kind == LParen && ts[4].kind == RParen
    requires ts[1].kind == Num && ts[2].kind == Plus && ts[3].kind == Num && ts[5].kind == Star && ts[6].kind == Num
    ensures Dominant(ts, 0, 7) == Some(5)
  {
    ParenDepth(ts);
    assert Candidate(ts, 0, 3) == None;
    assert Candidate(ts, 0, 5) == None;
    assert Candidate(ts, 0, 7) == Some(5);
  }

  /** `(a+b)*c` on one-digit numbers is `(a + b) * c`. */
  lemma EvalParen(m: Machine, ts: seq<Token>, a: nat, b: nat, c: nat)
    requires a < 10 && b < 10 && c < 10 && |ts| == 7
    requires ts[0].kind == LParen && ts[1] == Num1(Literals.DigitChar(a)) && ts[2].kind == Plus
    requires ts[3] == Num1(Literals.DigitChar(b)) && ts[4].kind == RParen
    requires ts[5].kind == Star && ts[6] == Num1(Literals.DigitChar(c))
    ensures Eval(m, ts, 0, 7, false) == Returned(Mul(Add(a, b), c), true)
  {
    ParenDominant(ts);
    EvalBracketed(m, ts, a, b);
    EvalDigit(m, ts, 6, c, true);
    EvalBinaryAt(m, ts, 0, 7, 5, false);
  }

  /** The bracketed `(a+b)` of `(a+b)*c`. */
  lemma EvalBracketed(m: Machine, ts: seq<Token>, a: nat, b: nat)
    requires a < 10 && b < 10 && 5 <= |ts|
    requires ts[0].kind == LParen && ts[1] == Num1(Literals.DigitChar(a)) && ts[2].kind == Plus
    requires ts[3] == Num1(Literals.DigitChar(b)) && ts[4].kind == RParen
    ensures Eval(m, ts, 0, 5, true) == Returned(Add(a, b), true)
  {
    EvalFlat(m, ts, 1, a, b, true);
  }

  /** `a**b`: a times the word at address b. */
  lemma EvalDeref(m: Machine, ts: seq<Token>, a: nat, b: nat)
    requires a < 10 && b < 10 && |ts| == 4
    requires ts[0] == Num1(Literals.DigitChar(a)) && ts[1].kind == Star
    requires ts[2].kind == Ref && ts[3] == Num1(Literals.DigitChar(b))
    ensures Eval(m, ts, 0, 4, false) == Returned(Mul(a, m.mem(b)), true)
  {
    FlatDominant(ts, 0, 4);
    FlatDominant(ts, 2, 4);
    assert Candidate(ts, 0, 4) == Some(1);
    assert Candidate(ts, 2, 4) == Some(2);
    EvalDigit(m, ts, 0, a, true);
    EvalDigit(m, ts, 3, b, true);
    assert Eval(m, ts, 2, 4, true) == Returned(m.mem(b), true);
    EvalBinaryAt(m, ts, 0, 4, 1, false);
  }
}
