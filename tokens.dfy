/**
 * Tokens of the debugger's expression language (the `token` struct and the
 * token-type enumeration of nemu/src/monitor/sdb/expr.c).
 */
module Tokens {

  /** Token types. `Ref` is the unary dereference that the pass in `expr`
      makes out of some `Star` tokens; the lexer itself never produces it. */
  datatype Kind =
    | Plus | Minus | Star | Slash
    | LParen | RParen
    | Eq | Neq
    | Num | Reg
    | Ref

  /** A token: its type and, for numbers and registers, the matched text. */
  datatype Token = Token(kind: Kind, str: string)

  /** Capacity of the static token array. */
  const MaxTokens: nat := 32

  /** Number and register tokens keep their text; no other token does. */
  predicate HasText(k: Kind) {
    k == Num || k == Reg
  }

  /** Token types that end an operand: a `*` right after one of these is a multiplication. */
  predicate EndsOperand(k: Kind) {
    k == RParen || k == Num || k == Reg
  }

  /** Everything `find_dominated_op` treats as an operator (its `default` arm). */
  predicate IsOperator(k: Kind) {
    !(k == Num || k == Reg || k == LParen || k == RParen)
  }

  /** The source text a token stands for. */
  function Text(t: Token): string {
    match t.kind
    case Plus => "+"
    case Minus => "-"
    case Star => "*"
    case Ref => "*"
    case Slash => "/"
    case LParen => "("
    case RParen => ")"
    case Eq => "=="
    case Neq => "!="
    case Num => t.str
    case Reg => t.str
  }

  /** The text of a token sequence, tokens written one after another. */
  function Render(ts: seq<Token>): string {
    if ts == [] then [] else Text(ts[0]) + Render(ts[1..])
  }

  lemma RenderCons(t: Token, ts: seq<Token>)
    ensures Render([t] + ts) == Text(t) + Render(ts)
  {
    assert ([t] + ts)[1..] == ts;
  }

  /** The characters of `s` from index `i` on that are not spaces, in order. */
  function NoSpacesFrom(s: string, i: nat): string
    requires i <= |s|
    decreases |s| - i
  {
    if i == |s| then [] else (if s[i] == ' ' then [] else [s[i]]) + NoSpacesFrom(s, i + 1)
  }

  /** The characters of `s` that are not spaces, in order. */
  function NoSpaces(s: string): string {
    NoSpacesFrom(s, 0)
  }

  /** Dropping the spaces from text that has none leaves it whole. */
  lemma {:induction false} KeepText(e: string, i: nat, j: nat)
    requires i <= j <= |e|
    requires forall k :: i <= k < j ==> e[k] != ' '
    ensures NoSpacesFrom(e, i) == e[i..j] + NoSpacesFrom(e, j)
    decreases j - i
  {
    if i < j {
      KeepText(e, i + 1, j);
      assert NoSpacesFrom(e, i) == [e[i]] + NoSpacesFrom(e, i + 1);
      assert e[i..j] == [e[i]] + e[i + 1..j];
    }
  }

  /** Dropping the spaces from a run of spaces leaves nothing. */
  lemma {:induction false} SkipSpaces(e: string, i: nat, j: nat)
    requires i <= j <= |e|
    requires forall k :: i <= k < j ==> e[k] == ' '
    ensures NoSpacesFrom(e, i) == NoSpacesFrom(e, j)
    decreases j - i
  {
    if i < j {
      SkipSpaces(e, i + 1, j);
    }
  }
}
