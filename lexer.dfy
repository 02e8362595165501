/**
 * The lexer of nemu/src/monitor/sdb/expr.c: the ordered `rules` table and
 * the scan of `make_token`.
 *
 * The source compiles each rule as a POSIX extended regular expression and
 * accepts a rule at the current position when `regexec` finds a match that
 * starts there; POSIX matching then takes the longest such match. Here each
 * rule gets a hand-written matcher (`MatchLen`) and `LongestMatch` proves
 * that it returns the length of the longest prefix in the rule's language
 * (`InLanguage`). `Lex` is the scan as a function; the loop itself is
 * `TokenBuffer.MakeToken` in token_buffer.dfy.
 */
module Lexer {
  import opened Wrappers
  import opened Tokens

  /** The rules, named after what they match. */
  datatype Rule =
    | Spaces      // " +"
    | PlusSign    // "\\+"
    | DoubleEq    // "=="
    | MinusSign   // "-"
    | Asterisk    // "\\*"
    | SlashSign   // "/"
    | HexLiteral  // "0x[0-9a-fA-F]{1,16}"
    | DecLiteral  // "[0-9]{1,20}"
    | OpenParen   // "\\("
    | CloseParen  // "\\)"
    | Register    // "\\$[a-z0-9]{1,31}"
    | NotEq       // "!="

  /** Number of rules in the table. */
  const RuleCount: nat := 12

  /** The rules in the order `make_token` tries them. */
  function RuleAt(i: nat): Rule
    requires i < RuleCount
  {
    if i == 0 then Spaces
    else if i == 1 then PlusSign
    else if i == 2 then DoubleEq
    else if i == 3 then MinusSign
    else if i == 4 then Asterisk
    else if i == 5 then SlashSign
    else if i == 6 then HexLiteral
    else if i == 7 then DecLiteral
    else if i == 8 then OpenParen
    else if i == 9 then CloseParen
    else if i == 10 then Register
    else NotEq
  }

  /** Where a rule sits in the table: every rule is in it. */
  function IndexOf(r: Rule): (i: nat)
    ensures i < RuleCount && RuleAt(i) == r
  {
    match r
    case Spaces => 0
    case PlusSign => 1
    case DoubleEq => 2
    case MinusSign => 3
    case Asterisk => 4
    case SlashSign => 5
    case HexLiteral => 6
    case DecLiteral => 7
    case OpenParen => 8
    case CloseParen => 9
    case Register => 10
    case NotEq => 11
  }

  /** The table lists every rule once. */
  lemma RuleAtIndex(i: nat)
    requires i < RuleCount
    ensures IndexOf(RuleAt(i)) == i
  {
  }

  /** The token type a rule records; spaces (TK_NOTYPE) record nothing. */
  function RuleKind(r: Rule): Option<Kind> {
    match r
    case Spaces => None
    case PlusSign => Some(Plus)
    case DoubleEq => Some(Eq)
    case MinusSign => Some(Minus)
    case Asterisk => Some(Star)
    case SlashSign => Some(Slash)
    case HexLiteral => Some(Num)
    case DecLiteral => Some(Num)
    case OpenParen => Some(LParen)
    case CloseParen => Some(RParen)
    case Register => Some(Reg)
    case NotEq => Some(Neq)
  }

  datatype CharClass = SpaceChar | DigitChar | HexChar | RegChar

  /** The bracket expressions of the rules: ` `, `[0-9]`, `[0-9a-fA-F]`, `[a-z0-9]`. */
  predicate InClass(c: char, cls: CharClass) {
    match cls
    case SpaceChar => c == ' '
    case DigitChar => '0' <= c <= '9'
    case HexChar => '0' <= c <= '9' || 'a' <= c <= 'f' || 'A' <= c <= 'F'
    case RegChar => '0' <= c <= '9' || 'a' <= c <= 'z'
  }

  /** Every character of `t` from index `from` on is in `cls`. */
  predicate AllIn(t: string, from: nat, cls: CharClass) {
    forall k :: from <= k < |t| ==> InClass(t[k], cls)
  }

  /** Length of the longest run of `cls` characters in `e` from index `from`,
      not reaching past index `to`. */
  function Run(e: string, from: nat, to: nat, cls: CharClass): (n: nat)
    requires from <= to <= |e|
    ensures from + n <= to
    decreases (to as int) - (from as int)
  {
    if from == to || !InClass(e[from], cls) then 0 else 1 + Run(e, from + 1, to, cls)
  }

  /** A run covers only `cls` characters and stops at the first other one. */
  lemma {:induction false} RunChars(e: string, from: nat, to: nat, cls: CharClass)
    requires from <= to <= |e|
    ensures forall k :: from <= k < from + Run(e, from, to, cls) ==> InClass(e[k], cls)
    ensures from + Run(e, from, to, cls) < to ==> !InClass(e[from + Run(e, from, to, cls)], cls)
    decreases (to as int) - (from as int)
  {
    if from < to && InClass(e[from], cls) {
      RunChars(e, from + 1, to, cls);
    }
  }

  function Min(a: nat, b: nat): nat {
    if a <= b then a else b
  }

  /** Match of a one-character literal at index `at` of `e`. */
  function Char1(e: string, at: nat, c: char): nat {
    if at < |e| && e[at] == c then 1 else 0
  }

  /** Match of a two-character literal at index `at` of `e`. */
  function Char2(e: string, at: nat, c: char, d: char): nat {
    if at + 1 < |e| && e[at] == c && e[at + 1] == d then 2 else 0
  }

  /** The language of each rule's regular expression. */
  predicate InLanguage(r: Rule, t: string) {
    match r
    case Spaces => 1 <= |t| && AllIn(t, 0, SpaceChar)
    case PlusSign => t == "+"
    case DoubleEq => t == "=="
    case MinusSign => t == "-"
    case Asterisk => t == "*"
    case SlashSign => t == "/"
    case HexLiteral => 3 <= |t| <= 18 && t[0] == '0' && t[1] == 'x' && AllIn(t, 2, HexChar)
    case DecLiteral => 1 <= |t| <= 20 && AllIn(t, 0, DigitChar)
    case OpenParen => t == "("
    case CloseParen => t == ")"
    case Register => 2 <= |t| <= 32 && t[0] == '$' && AllIn(t, 1, RegChar)
    case NotEq => t == "!="
  }

  /** Length of the match of rule `r` at index `at` of `e`, 0 when there is none. */
  function MatchLen(r: Rule, e: string, at: nat): (n: nat)
    requires at <= |e|
    ensures at + n <= |e|
  {
    match r
    case Spaces => Run(e, at, |e|, SpaceChar)
    case PlusSign => Char1(e, at, '+')
    case DoubleEq => Char2(e, at, '=', '=')
    case MinusSign => Char1(e, at, '-')
    case Asterisk => Char1(e, at, '*')
    case SlashSign => Char1(e, at, '/')
    case HexLiteral =>
      if at + 1 < |e| && e[at] == '0' && e[at + 1] == 'x' then
        var h := Run(e, at + 2, Min(|e|, at + 18), HexChar);
        if h == 0 then 0 else 2 + h
      else 0
    case DecLiteral => Run(e, at, Min(|e|, at + 20), DigitChar)
    case OpenParen => Char1(e, at, '(')
    case CloseParen => Char1(e, at, ')')
    case Register =>
      if at < |e| && e[at] == '$' then
        var k := Run(e, at + 1, Min(|e|, at + 32), RegChar);
        if k == 0 then 0 else 1 + k
      else 0
    case NotEq => Char2(e, at, '!', '=')
  }

  /** A run from `from` is the longest stretch of `cls` characters there:
      the text from `at` to the run's end has only `cls` characters from
      `from` on, and no longer text up to `to` has. */
  lemma LongestRun(e: string, at: nat, from: nat, to: nat, cls: CharClass)
    requires at <= from <= to <= |e|
    ensures AllIn(e[at..from + Run(e, from, to, cls)], from - at, cls)
    ensures forall m :: from + Run(e, from, to, cls) < m <= to ==> !AllIn(e[at..m], from - at, cls)
  {
    var n := Run(e, from, to, cls);
    RunChars(e, from, to, cls);
    forall m | from + n < m <= to ensures !AllIn(e[at..m], from - at, cls) {
      assert e[at..m][from + n - at] == e[from + n];
    }
  }

  lemma LongestSpaces(e: string, at: nat)
    requires at <= |e|
    ensures MatchLen(Spaces, e, at) > 0 ==> InLanguage(Spaces, e[at..at + MatchLen(Spaces, e, at)])
    ensures forall j :: at + MatchLen(Spaces, e, at) < j <= |e| ==> !InLanguage(Spaces, e[at..j])
  {
    var n := MatchLen(Spaces, e, at);
    LongestRun(e, at, at, |e|, SpaceChar);
    forall j | at + n < j <= |e| ensures !AllIn(e[at..j], 0, SpaceChar) {
    }
  }

  lemma LongestDecimal(e: string, at: nat)
    requires at <= |e|
    ensures MatchLen(DecLiteral, e, at) > 0 ==> InLanguage(DecLiteral, e[at..at + MatchLen(DecLiteral, e, at)])
    ensures forall j :: at + MatchLen(DecLiteral, e, at) < j <= |e| ==> !InLanguage(DecLiteral, e[at..j])
  {
    var n := MatchLen(DecLiteral, e, at);
    LongestRun(e, at, at, Min(|e|, at + 20), DigitChar);
    forall j | at + n < j <= |e| && j <= at + 20 ensures !AllIn(e[at..j], 0, DigitChar) {
    }
  }

  lemma LongestHex(e: string, at: nat)
    requires at <= |e|
    ensures MatchLen(HexLiteral, e, at) > 0 ==> InLanguage(HexLiteral, e[at..at + MatchLen(HexLiteral, e, at)])
    ensures forall j :: at + MatchLen(HexLiteral, e, at) < j <= |e| ==> !InLanguage(HexLiteral, e[at..j])
  {
    var n := MatchLen(HexLiteral, e, at);
    if at + 1 < |e| && e[at] == '0' && e[at + 1] == 'x' {
      LongestRun(e, at, at + 2, Min(|e|, at + 18), HexChar);
      forall j | at + n < j <= |e| && at + 3 <= j <= at + 18 ensures !AllIn(e[at..j], 2, HexChar) {
      }
    } else {
      forall j | at + n < j <= |e| ensures !InLanguage(HexLiteral, e[at..j]) {
        if at + 3 <= j {
          assert e[at..j][0] == e[at] && e[at..j][1] == e[at + 1];
        }
      }
    }
  }

  lemma LongestRegister(e: string, at: nat)
    requires at <= |e|
    ensures MatchLen(Register, e, at) > 0 ==> InLanguage(Register, e[at..at + MatchLen(Register, e, at)])
    ensures forall j :: at + MatchLen(Register, e, at) < j <= |e| ==> !InLanguage(Register, e[at..j])
  {
    var n := MatchLen(Register, e, at);
    if at < |e| && e[at] == '$' {
      LongestRun(e, at, at + 1, Min(|e|, at + 32), RegChar);
      forall j | at + n < j <= |e| && at + 2 <= j <= at + 32 ensures !AllIn(e[at..j], 1, RegChar) {
      }
    } else {
      forall j | at + n < j <= |e| ensures !InLanguage(Register, e[at..j]) {
        if at + 2 <= j {
          assert e[at..j][0] == e[at];
        }
      }
    }
  }

  /** `MatchLen` is POSIX leftmost-longest matching anchored at `at`: the
      text it takes is in the rule's language and no longer text is. */
  lemma LongestMatch(r: Rule, e: string, at: nat)
    requires at <= |e|
    ensures MatchLen(r, e, at) > 0 ==> InLanguage(r, e[at..at + MatchLen(r, e, at)])
    ensures forall j :: at + MatchLen(r, e, at) < j <= |e| ==> !InLanguage(r, e[at..j])
  {
    match r
    case Spaces => LongestSpaces(e, at);
    case DecLiteral => LongestDecimal(e, at);
    case HexLiteral => LongestHex(e, at);
    case Register => LongestRegister(e, at);
    case _ => LongestLiteral(r, e, at);
  }

  /** The same for the rules that match a fixed string. */
  lemma LongestLiteral(r: Rule, e: string, at: nat)
    requires at <= |e|
    requires r !in {Spaces, DecLiteral, HexLiteral, Register}
    ensures MatchLen(r, e, at) > 0 ==> InLanguage(r, e[at..at + MatchLen(r, e, at)])
    ensures forall j :: at + MatchLen(r, e, at) < j <= |e| ==> !InLanguage(r, e[at..j])
  {
    var n := MatchLen(r, e, at);
    forall j | at + n < j <= |e| ensures !InLanguage(r, e[at..j]) {
      assert e[at..j][0] == e[at];
      if at + 2 <= j {
        assert e[at..j][1] == e[at + 1];
      }
    }
  }

  datatype LexError =
    | NoMatch(position: nat)   // no rule matches at this position
    | TooManyTokens            // a 33rd token would not fit the token array

  /** The token recorded for a match: numbers and registers keep the matched text. */
  function TokenOf(k: Kind, matched: string): Token {
    Token(k, if HasText(k) then matched else "")
  }

  function Prepend(ts: seq<Token>, r: Result<seq<Token>, LexError>): Result<seq<Token>, LexError> {
    match r
    case Ok(rest) => Ok(ts + rest)
    case Err(x) => Err(x)
  }

  lemma PrependNil(r: Result<seq<Token>, LexError>)
    ensures Prepend([], r) == r
  {
    if r.Ok? {
      assert [] + r.value == r.value;
    }
  }

  lemma PrependPrepend(a: seq<Token>, b: seq<Token>, r: Result<seq<Token>, LexError>)
    ensures Prepend(a, Prepend(b, r)) == Prepend(a + b, r)
  {
    if r.Ok? {
      assert a + (b + r.value) == (a + b) + r.value;
    }
  }

  /** A rule that matched and the length of its match. */
  datatype Match = Match(rule: Rule, len: nat)

  /** The inner loop of `make_token` from rule `i` of the table on: the first
      rule that matches at index `at` of `e`, with its match. */
  function ScanFrom(e: string, at: nat, i: nat): (r: Option<Match>)
    requires at <= |e| && i <= RuleCount
    ensures r.Some? ==> 0 < r.value.len && at + r.value.len <= |e|
    decreases RuleCount - i
  {
    if i == RuleCount then None
    else if MatchLen(RuleAt(i), e, at) > 0 then Some(Match(RuleAt(i), MatchLen(RuleAt(i), e, at)))
    else ScanFrom(e, at, i + 1)
  }

  /** The rules tried in table order at index `at` of `e`. The loop of
      `make_token` stops at the end of the string, where no rule could match. */
  function Scan(e: string, at: nat): (r: Option<Match>)
    ensures r.Some? ==> 0 < r.value.len && at + r.value.len <= |e|
  {
    if at < |e| then ScanFrom(e, at, 0) else None
  }

  /** The token a non-space match at `at` records. */
  function MatchToken(e: string, at: nat, m: Match): Token
    requires at + m.len <= |e| && m.rule != Spaces
  {
    TokenOf(RuleKind(m.rule).value, e[at..at + m.len])
  }

  /** What one step of `make_token` does with a match: skip `len`
      characters (spaces, TK_NOTYPE) or record `token` and skip them. */
  datatype Step = Skip(len: nat) | Emit(len: nat, token: Token)

  /** The step `make_token` takes at index `at` of `e`: the `switch` on the
      token type of the rule the scan found. */
  function StepAt(e: string, at: nat): (r: Option<Step>)
    ensures r.Some? ==> 0 < r.value.len && at + r.value.len <= |e|
  {
    match Scan(e, at)
    case None => None
    case Some(m) => Some(if m.rule == Spaces then Skip(m.len) else Emit(m.len, MatchToken(e, at, m)))
  }

  /** A step function: the step taken at a position of a string, if any. */
  type Stepper = (string, nat) -> Option<Step>

  /** The step at `at` stays inside the string and makes progress. */
  ghost predicate ConsumesAt(step: Stepper, e: string, at: nat) {
    step(e, at).Some? ==> 0 < step(e, at).value.len && at + step(e, at).value.len <= |e|
  }

  /** A step function whose steps stay inside the string and make progress. */
  ghost predicate Consumes(step: Stepper) {
    forall e: string, at: nat :: ConsumesAt(step, e, at)
  }

  /** The outer loop of `make_token` over a step function, from index `at`
      of `e` on, with room for `room` more tokens in the token array.
      Written over any step function that consumes input, so that its
      properties follow from what is proved about the step. */
  function LexWith(step: Stepper, e: string, at: nat, room: nat): (r: Result<seq<Token>, LexError>)
    requires Consumes(step) && at <= |e|
    ensures r.Ok? ==> |r.value| <= room
    ensures r.Err? && r.error.NoMatch? ==> at <= r.error.position < |e|
    decreases |e| - at
  {
    if at == |e| then Ok([])
    else
      assert ConsumesAt(step, e, at);
      match step(e, at)
      case None => Err(NoMatch(at))
      case Some(Skip(n)) => LexWith(step, e, at + n, room)
      case Some(Emit(n, t)) =>
        if room == 0 then Err(TooManyTokens)
        else Prepend([t], LexWith(step, e, at + n, room - 1))
  }

  lemma StepAtConsumes()
    ensures Consumes(StepAt)
  {
    forall e: string, at: nat ensures ConsumesAt(StepAt, e, at) {
    }
  }

  /** The outer loop of `make_token` with the rules of the table. */
  function Lex(e: string, at: nat, room: nat): (r: Result<seq<Token>, LexError>)
    requires at <= |e|
    ensures r.Ok? ==> |r.value| <= room
    ensures r.Err? && r.error.NoMatch? ==> at <= r.error.position < |e|
  {
    StepAtConsumes();
    LexWith(StepAt, e, at, room)
  }

  /** One step of the outer loop after the scan found spaces at `at`: they
      are skipped. */
  lemma LexSkipAdvance(e: string, at: nat, room: nat, mt: Match)
    requires at < |e| && Scan(e, at) == Some(mt) && mt.rule == Spaces
    ensures at + mt.len <= |e| && Lex(e, at, room) == Lex(e, at + mt.len, room)
  {
    StepAtConsumes();
    assert StepAt(e, at) == Some(Skip(mt.len));
    LexWithSkip(StepAt, e, at, room, mt.len);
  }

  /** One step of the outer loop after the scan found any other match at
      `at`: its token is recorded if there is room. */
  lemma LexEmitAdvance(e: string, at: nat, room: nat, mt: Match)
    requires at < |e| && Scan(e, at) == Some(mt) && mt.rule != Spaces
    ensures at + mt.len <= |e|
    ensures Lex(e, at, room) ==
      if room == 0 then Err(TooManyTokens) else Prepend([MatchToken(e, at, mt)], Lex(e, at + mt.len, room - 1))
  {
    StepAtConsumes();
    assert StepAt(e, at) == Some(Emit(mt.len, MatchToken(e, at, mt)));
    LexWithEmitStep(StepAt, e, at, room, mt.len, MatchToken(e, at, mt));
  }

  /** The outer loop's invariant `whole == Prepend(before, Lex(e, at, room))`
      across a step that skips spaces. */
  lemma LexSkipStep(whole: Result<seq<Token>, LexError>, before: seq<Token>, e: string, at: nat, room: nat, mt: Match)
    requires at < |e| && Scan(e, at) == Some(mt) && RuleKind(mt.rule).None?
    requires whole == Prepend(before, Lex(e, at, room))
    ensures at + mt.len <= |e| && whole == Prepend(before, Lex(e, at + mt.len, room))
  {
    LexSkipAdvance(e, at, room, mt);
  }

  /** ... across a step that records token `t` in one of `room > 0` free slots. */
  lemma LexRecordStep(whole: Result<seq<Token>, LexError>, before: seq<Token>, after: seq<Token>,
                      e: string, at: nat, next: nat, room: nat, mt: Match, t: Token)
    requires at < |e| && Scan(e, at) == Some(mt) && RuleKind(mt.rule).Some? && 0 < room
    requires next == at + mt.len <= |e| && t == TokenOf(RuleKind(mt.rule).value, e[at..next])
    requires whole == Prepend(before, Lex(e, at, room)) && after == before + [t]
    ensures whole == Prepend(after, Lex(e, next, room - 1))
  {
    LexEmitAdvance(e, at, room, mt);
    assert t == MatchToken(e, at, mt);
    PrependPrepend(before, [t], Lex(e, next, room - 1));
  }

  /** ... where a token is due and the array is full: the result is `TooManyTokens`. */
  lemma LexFullStep(whole: Result<seq<Token>, LexError>, before: seq<Token>, e: string, at: nat, mt: Match)
    requires at < |e| && Scan(e, at) == Some(mt) && RuleKind(mt.rule).Some?
    requires whole == Prepend(before, Lex(e, at, 0))
    ensures whole == Err(TooManyTokens)
  {
    LexEmitAdvance(e, at, 0, mt);
  }

  /** ... where no rule matches: the result is `NoMatch` at that index. */
  lemma LexStuckStep(whole: Result<seq<Token>, LexError>, before: seq<Token>, e: string, at: nat, room: nat)
    requires at < |e| && Scan(e, at) == None
    requires whole == Prepend(before, Lex(e, at, room))
    ensures whole == Err(NoMatch(at))
  {
    StepAtConsumes();
  }

  /** ... at the end of the string: the result is what was recorded. */
  lemma LexEndStep(whole: Result<seq<Token>, LexError>, before: seq<Token>, e: string, room: nat)
    requires whole == Prepend(before, Lex(e, |e|, room))
    ensures whole == Ok(before)
  {
    StepAtConsumes();
    assert before + [] == before;
  }

  /** `make_token`: the whole string, into the 32-slot token array. */
  function Tokenize(e: string): Result<seq<Token>, LexError> {
    Lex(e, 0, MaxTokens)
  }

  /** The inner loop finds nothing only when no rule from `i` on matches. */
  lemma {:induction false} ScanFromMisses(e: string, at: nat, i: nat)
    requires at <= |e| && i <= RuleCount && ScanFrom(e, at, i).None?
    ensures forall j :: i <= j < RuleCount ==> MatchLen(RuleAt(j), e, at) == 0
    decreases RuleCount - i
  {
    if i < RuleCount {
      ScanFromMisses(e, at, i + 1);
    }
  }

  /** What the inner loop finds is the match of the first rule from `i` on
      that matches. */
  lemma {:induction false} ScanFromHits(e: string, at: nat, i: nat)
    requires at <= |e| && i <= RuleCount && ScanFrom(e, at, i).Some?
    ensures
      var m := ScanFrom(e, at, i).value;
      i <= IndexOf(m.rule) && m.len == MatchLen(m.rule, e, at) &&
      forall k :: i <= k < IndexOf(m.rule) ==> MatchLen(RuleAt(k), e, at) == 0
    decreases RuleCount - i
  {
    if MatchLen(RuleAt(i), e, at) == 0 {
      ScanFromHits(e, at, i + 1);
    } else {
      RuleAtIndex(i);
    }
  }

  /** Both halves of what the inner loop finds. */
  lemma ScanFromFinds(e: string, at: nat, i: nat)
    requires at <= |e| && i <= RuleCount
    ensures ScanFrom(e, at, i).None? ==> forall j :: i <= j < RuleCount ==> MatchLen(RuleAt(j), e, at) == 0
    ensures ScanFrom(e, at, i).Some? ==>
      var m := ScanFrom(e, at, i).value;
      i <= IndexOf(m.rule) && m.len == MatchLen(m.rule, e, at) &&
      forall k :: i <= k < IndexOf(m.rule) ==> MatchLen(RuleAt(k), e, at) == 0
  {
    if ScanFrom(e, at, i).None? {
      ScanFromMisses(e, at, i);
    } else {
      ScanFromHits(e, at, i);
    }
  }

  /** The scan finds nothing exactly when no rule matches at `at`. */
  lemma ScanNone(e: string, at: nat)
    requires at <= |e|
    ensures Scan(e, at).None? <==> forall r: Rule :: MatchLen(r, e, at) == 0
  {
    ScanFromFinds(e, at, 0);
    if at == |e| {
      assert Scan(e, at) == ScanFrom(e, at, 0);
    }
    if Scan(e, at).None? {
      forall r: Rule ensures MatchLen(r, e, at) == 0 {
        var j := IndexOf(r);
      }
    } else {
      var r := Scan(e, at).value.rule;
    }
  }

  /** What the scan finds is the match of the first rule in table order
      that matches at all. */
  lemma ScanFirst(e: string, at: nat)
    requires at <= |e| && Scan(e, at).Some?
    ensures
      var m := Scan(e, at).value;
      m.len == MatchLen(m.rule, e, at) &&
      forall k :: 0 <= k < IndexOf(m.rule) ==> MatchLen(RuleAt(k), e, at) == 0
  {
    ScanFromFinds(e, at, 0);
  }

  /** The scan's match is the longest one of its rule at `at`. */
  lemma ScanLongest(e: string, at: nat)
    requires at <= |e| && Scan(e, at).Some?
    ensures
      var m := Scan(e, at).value;
      InLanguage(m.rule, e[at..at + m.len]) &&
      forall j :: at + m.len < j <= |e| ==> !InLanguage(m.rule, e[at..j])
  {
    var m := Scan(e, at).value;
    ScanFirst(e, at);
    LongestMatch(m.rule, e, at);
  }

  /** What a token produced by the lexer looks like: a number token holds a
      hexadecimal or decimal literal, a register token a `$` name, and no
      other token holds text. */
  predicate LexedToken(t: Token) {
    match t.kind
    case Num => InLanguage(HexLiteral, t.str) || InLanguage(DecLiteral, t.str)
    case Reg => InLanguage(Register, t.str)
    case Ref => false
    case _ => t.str == []
  }

  /** Text matched by a rule other than the spaces rule has no space in it,
      and the token recorded for it writes out as that text. */
  lemma TokenText(r: Rule, t: string)
    requires r != Spaces && InLanguage(r, t)
    ensures forall k :: 0 <= k < |t| ==> t[k] != ' '
    ensures Text(TokenOf(RuleKind(r).value, t)) == t
    ensures LexedToken(TokenOf(RuleKind(r).value, t))
  {
  }

  /** A match other than spaces keeps its text, as the text of its token. */
  lemma KeepMatch(e: string, at: nat, m: Match)
    requires at + m.len <= |e| && m.rule != Spaces && InLanguage(m.rule, e[at..at + m.len])
    ensures NoSpacesFrom(e, at) == Text(MatchToken(e, at, m)) + NoSpacesFrom(e, at + m.len)
    ensures LexedToken(MatchToken(e, at, m))
  {
    TokenText(m.rule, e[at..at + m.len]);
    KeepToken(e, at, at + m.len, MatchToken(e, at, m));
  }

  /** A token that writes out as a space-free stretch of the string. */
  lemma KeepToken(e: string, i: nat, j: nat, t: Token)
    requires i <= j <= |e| && Text(t) == e[i..j]
    requires forall k :: 0 <= k < j - i ==> e[i..j][k] != ' '
    ensures NoSpacesFrom(e, i) == Text(t) + NoSpacesFrom(e, j)
  {
    SpaceFree(e, i, j);
    KeepText(e, i, j);
  }

  lemma SpaceFree(e: string, i: nat, j: nat)
    requires i <= j <= |e| && forall k :: 0 <= k < j - i ==> e[i..j][k] != ' '
    ensures forall k :: i <= k < j ==> e[k] != ' '
  {
    forall k | i <= k < j ensures e[k] != ' ' {
      assert e[i..j][k - i] == e[k];
    }
  }

  /** A match of the spaces rule is dropped. */
  lemma DropMatch(e: string, at: nat, m: Match)
    requires at + m.len <= |e| && m.rule == Spaces && InLanguage(m.rule, e[at..at + m.len])
    ensures NoSpacesFrom(e, at) == NoSpacesFrom(e, at + m.len)
  {
    forall k | at <= k < at + m.len ensures e[k] == ' ' {
      assert e[at..at + m.len][k - at] == e[k];
    }
    SkipSpaces(e, at, at + m.len);
  }

  /** A step, as far as the text is concerned: skipped characters are
      spaces, and a recorded token writes out as the characters it skips. */
  ghost predicate StepText(e: string, at: nat, st: Step) {
    at + st.len <= |e| &&
    match st
    case Skip(n) => NoSpacesFrom(e, at) == NoSpacesFrom(e, at + n)
    case Emit(n, t) => NoSpacesFrom(e, at) == Text(t) + NoSpacesFrom(e, at + n)
  }

  /** The step at `at` satisfies `StepText`. */
  ghost predicate TextualAt(step: Stepper, e: string, at: nat) {
    step(e, at).Some? ==> StepText(e, at, step(e, at).value)
  }

  /** A step function all of whose steps in `e` satisfy `StepText`. */
  ghost predicate Textual(step: Stepper, e: string) {
    forall at: nat :: TextualAt(step, e, at)
  }

  /** The token the step at `at` records, if any, is a lexed token. */
  ghost predicate TidyAt(step: Stepper, e: string, at: nat) {
    step(e, at).Some? && step(e, at).value.Emit? ==> LexedToken(step(e, at).value.token)
  }

  /** A step function all of whose recorded tokens in `e` are lexed tokens. */
  ghost predicate Tidy(step: Stepper, e: string) {
    forall at: nat :: TidyAt(step, e, at)
  }

  lemma StepAtText(e: string, at: nat)
    requires StepAt(e, at).Some?
    ensures StepText(e, at, StepAt(e, at).value)
    ensures StepAt(e, at).value.Emit? ==> LexedToken(StepAt(e, at).value.token)
  {
    var m := Scan(e, at).value;
    ScanLongest(e, at);
    if m.rule == Spaces {
      DropMatch(e, at, m);
    } else {
      KeepMatch(e, at, m);
    }
  }

  lemma StepAtTextual(e: string)
    ensures Textual(StepAt, e) && Tidy(StepAt, e)
  {
    forall at: nat ensures TextualAt(StepAt, e, at) && TidyAt(StepAt, e, at) {
      if StepAt(e, at).Some? {
        StepAtText(e, at);
      }
    }
  }

  /** A skip step leaves the outcome to the rest of the string. */
  lemma LexWithSkip(step: Stepper, e: string, at: nat, room: nat, n: nat)
    requires Consumes(step) && at < |e| && step(e, at) == Some(Skip(n))
    ensures 0 < n && at + n <= |e| && LexWith(step, e, at, room) == LexWith(step, e, at + n, room)
  {
    assert ConsumesAt(step, e, at);
  }

  /** A successful emit step puts its token in front of the rest. */
  lemma LexWithEmit(step: Stepper, e: string, at: nat, room: nat, n: nat, t: Token)
    requires Consumes(step) && at < |e| && step(e, at) == Some(Emit(n, t))
    requires LexWith(step, e, at, room).Ok?
    ensures 0 < n && at + n <= |e| && 0 < room
    ensures LexWith(step, e, at + n, room - 1).Ok?
    ensures LexWith(step, e, at, room) == Ok([t] + LexWith(step, e, at + n, room - 1).value)
  {
    assert ConsumesAt(step, e, at);
  }

  lemma {:induction false} LexWithRenders(step: Stepper, e: string, at: nat, room: nat)
    requires Consumes(step) && Textual(step, e)
    requires at <= |e| && LexWith(step, e, at, room).Ok?
    ensures Render(LexWith(step, e, at, room).value) == NoSpacesFrom(e, at)
    decreases |e| - at
  {
    if at < |e| {
      var st := step(e, at).value;
      assert TextualAt(step, e, at);
      match st
      case Skip(n) =>
        LexWithSkip(step, e, at, room, n);
        LexWithRenders(step, e, at + n, room);
      case Emit(n, t) =>
        LexWithEmit(step, e, at, room, n, t);
        LexWithRenders(step, e, at + n, room - 1);
        RenderCons(t, LexWith(step, e, at + n, room - 1).value);
    }
  }

  lemma {:induction false} LexWithTidy(step: Stepper, e: string, at: nat, room: nat)
    requires Consumes(step) && Tidy(step, e)
    requires at <= |e| && LexWith(step, e, at, room).Ok?
    ensures forall t :: t in LexWith(step, e, at, room).value ==> LexedToken(t)
    decreases |e| - at
  {
    if at < |e| {
      var st := step(e, at).value;
      match st
      case Skip(n) =>
        LexWithSkip(step, e, at, room, n);
        LexWithTidy(step, e, at + n, room);
      case Emit(n, t) =>
        LexWithEmit(step, e, at, room, n, t);
        assert TidyAt(step, e, at);
        LexWithTidy(step, e, at + n, room - 1);
    }
  }

  /** An emit step records its token if there is room for it. */
  lemma LexWithEmitStep(step: Stepper, e: string, at: nat, room: nat, n: nat, t: Token)
    requires Consumes(step) && at < |e| && step(e, at) == Some(Emit(n, t))
    ensures 0 < n && at + n <= |e|
    ensures LexWith(step, e, at, room) ==
      if room == 0 then Err(TooManyTokens) else Prepend([t], LexWith(step, e, at + n, room - 1))
  {
    assert ConsumesAt(step, e, at);
  }

  lemma {:induction false} LexWithNoMatch(step: Stepper, e: string, at: nat, room: nat, p: nat)
    requires Consumes(step) && at <= |e| && LexWith(step, e, at, room) == Err(NoMatch(p))
    ensures at <= p < |e| && step(e, p).None?
    decreases |e| - at
  {
    if at < |e| {
      match step(e, at)
      case None =>
      case Some(Skip(n)) =>
        LexWithSkip(step, e, at, room, n);
        LexWithNoMatch(step, e, at + n, room, p);
      case Some(Emit(n, t)) =>
        LexWithEmitStep(step, e, at, room, n, t);
        LexWithNoMatch(step, e, at + n, room - 1, p);
    }
  }

  /** With room for as many tokens as there are characters left, the
      token array never fills up: every token takes a character. */
  lemma {:induction false} LexWithNeverFull(step: Stepper, e: string, at: nat, room: nat)
    requires Consumes(step) && at <= |e| && |e| - at <= room
    ensures LexWith(step, e, at, room) != Err(TooManyTokens)
    decreases |e| - at
  {
    if at < |e| {
      match step(e, at)
      case None =>
      case Some(Skip(n)) =>
        LexWithSkip(step, e, at, room, n);
        LexWithNeverFull(step, e, at + n, room);
      case Some(Emit(n, t)) =>
        LexWithEmitStep(step, e, at, room, n, t);
        LexWithNeverFull(step, e, at + n, room - 1);
    }
  }

  /** The room only limits the number of tokens: with less room the outcome
      is the same as with more, unless the tokens no longer fit. */
  lemma {:induction false} LexWithRoom(step: Stepper, e: string, at: nat, room: nat, big: nat)
    requires Consumes(step) && at <= |e| && room <= big
    ensures LexWith(step, e, at, room).Ok? ==> LexWith(step, e, at, big) == LexWith(step, e, at, room)
    ensures LexWith(step, e, at, big).Ok? ==>
      LexWith(step, e, at, room) ==
        if |LexWith(step, e, at, big).value| <= room then LexWith(step, e, at, big) else Err(TooManyTokens)
    decreases |e| - at
  {
    if at < |e| {
      match step(e, at)
      case None =>
      case Some(Skip(n)) =>
        LexWithSkip(step, e, at, room, n);
        LexWithSkip(step, e, at, big, n);
        LexWithRoom(step, e, at + n, room, big);
      case Some(Emit(n, t)) =>
        LexWithEmitStep(step, e, at, room, n, t);
        LexWithEmitStep(step, e, at, big, n, t);
        if room > 0 {
          LexWithRoom(step, e, at + n, room - 1, big - 1);
        }
    }
  }

  /** Lexing drops exactly the spaces: written out again, the tokens give
      the input without its spaces, so tokens come out in input order and
      number and register tokens keep their text verbatim. Every token is
      one the rules can produce. */
  lemma TokenizeRenders(e: string)
    requires Tokenize(e).Ok?
    ensures Render(Tokenize(e).value) == NoSpaces(e)
    ensures forall t :: t in Tokenize(e).value ==> LexedToken(t)
  {
    StepAtConsumes();
    StepAtTextual(e);
    LexWithRenders(StepAt, e, 0, MaxTokens);
    LexWithTidy(StepAt, e, 0, MaxTokens);
  }

  /** The input lexed with no limit on the number of tokens. */
  function LexAll(e: string): Result<seq<Token>, LexError> {
    Lex(e, 0, |e|)
  }

  /** `make_token` fails for lack of room exactly when the input has more
      tokens than the 32-slot array holds; otherwise it gives the tokens of
      the input. */
  lemma TokenizeCapacity(e: string)
    ensures LexAll(e) != Err(TooManyTokens)
    ensures Tokenize(e).Ok? ==> LexAll(e) == Tokenize(e)
    ensures LexAll(e).Ok? ==>
      Tokenize(e) == if |LexAll(e).value| <= MaxTokens then LexAll(e) else Err(TooManyTokens)
  {
    StepAtConsumes();
    LexWithNeverFull(StepAt, e, 0, |e|);
    if MaxTokens <= |e| {
      LexWithRoom(StepAt, e, 0, MaxTokens, |e|);
    } else {
      LexWithRoom(StepAt, e, 0, |e|, MaxTokens);
      LexWithNeverFull(StepAt, e, 0, MaxTokens);
    }
  }

  /** `make_token` fails with `NoMatch(p)` only where no rule of the table
      matches the input at `p`. */
  lemma TokenizeNoMatch(e: string, p: nat)
    requires Tokenize(e) == Err(NoMatch(p))
    ensures p < |e|
    ensures forall r: Rule :: MatchLen(r, e, p) == 0
  {
    StepAtConsumes();
    LexWithNoMatch(StepAt, e, 0, MaxTokens, p);
    ScanNone(e, p);
  }

  /** A string of spaces alone, the empty string included, gives no tokens. */
  lemma TokenizeBlank(e: string)
    requires forall k :: 0 <= k < |e| ==> e[k] == ' '
    ensures Tokenize(e) == Ok([])
  {
    StepAtConsumes();
    if e != [] {
      RunChars(e, 0, |e|, SpaceChar);
      assert MatchLen(Spaces, e, 0) == |e|;
      assert StepAt(e, 0) == Some(Skip(|e|));
      LexWithSkip(StepAt, e, 0, MaxTokens, |e|);
    }
  }
}
