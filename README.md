# NEMU `sdb`: expression evaluator and watchpoint pool

NEMU's simple debugger (`sdb`) evaluates small expressions over the
emulated machine, for example `p $pc + 4` or `w *0x80000000 == 0`. It also
keeps up to 32 watchpoints, which are re-evaluated after each step and stop
the emulator when a value changes. This project models the two files that
do the work and proves what they compute.

- **`expr.c`**
  - The lexer `make_token`. It tries an ordered table of twelve rules and takes the first one that matches at the current position. A match is the longest one, as POSIX `regexec` finds it.
  - The pass in `expr` that turns some `*` tokens into dereferences.
  - `op_prec`, `op_prec_cmp` and `find_dominated_op`, which find the operator a range splits at.
  - The recursive evaluator `eval`, and `strtol(…, NULL, 0)` for number literals.
- **`watchpoint.c`**
  - A static array of 32 records, threaded by `next` links into an active list (`head`) and a free list (`free_`).
  - `init_wp_pool`, `new_wp`, `free_wp`, `new_watchpoint`, `delete_watchpoint`, `watchpoint_display`, and the change check `wp_is_toggle`.

The model takes the source's form:

- **Pure code becomes functions with lemmas about them.**
  - `op_prec` is `Dominance.Prec`.
  - `eval` is `Evaluator.Eval`. It keeps the in/out `success` flag, and the `assert`s that end the emulator are the `Aborted` outcome.
  - The lexer is `Lexer.Lex`.
- **Code that changes state becomes classes and methods.** Each method is proved against those functions.
  - The token array `tokens` and its count `nr_token` form `ExprState.TokenBuffer`. Its methods `MakeToken`, `MarkDereferences`, `FindDominatedOp`, `EvalRange` and `Expr` are the C loops and recursion.
  - The watchpoint pool is `Watchpoints.Pool`.
    - Links are slot indices, and `Null` (-1) stands for `NULL`.
    - Ghost sequences `active` and `freeList` list the slots along each list. `Valid` ties the links to them and keeps every slot on at most one list, which makes both lists acyclic.
    - The `expr` field is the 256-character buffer itself, and readers see it up to its first NUL.

Other modelling choices:

- **Words.** `word_t` is 64 bits wide. `Words.Word` is the integers modulo 2^64, with wrap-around `+`, `-` and `*` and truncating `/`.
- **Register file and memory.** `isa_reg_str2val` and `vaddr_read(addr, 8)` are the two functions of an `Evaluator.Machine`.
- **Ranges.** Token ranges are half-open, `ts[lo..hi)`. C's inclusive `p..q` is `lo == p`, `hi == q + 1`.
- **Number literals.** `strtol(s, NULL, 0)` is `Literals.Strtol`.
  - `0x` selects hexadecimal and a leading `0` selects octal. The scan stops at the first digit that is not valid in the base, so `09` is 0.
  - Values above `LONG_MAX` (2^63 - 1) saturate, as section 7.22.1.4 of ISO C11 says. So `0xffffffffffffffff` evaluates to 2^63 - 1, not to 2^64 - 1.

Module `Scenarios` runs whole expressions through the model of `expr` on concrete inputs: `2+3*4`, `(2+3)*4`, `1/0` and `2**8`.

Where the code and the debugger's design disagree, the model follows the code:

- `free_wp` never puts a deleted slot back on the free list (see Findings).
- Deleting a slot that is not active walks off the end of the list, where the design reports "not found".
- An empty free list makes the code stop on an `assert`, where the design returns an error value.
- An over-long expression is not rejected at all: `memcpy` copies past the end of the 256-byte buffer (watchpoint.c:77-82). The model's precondition on `Pool.NewWatchpoint` excludes that case.

## Model

| member | source | states |
|---|---|---|
| Literals.Strtol | nemu/src/monitor/sdb/expr.c:203 | `strtol` with base 0 never returns more than `LONG_MAX`: it saturates. |
| Literals.StrtolHex | nemu/src/monitor/sdb/expr.c:203 | `0x` followed by the hex digits of `n` converts to `n`, saturated at `LONG_MAX`. |
| Literals.StrtolOctal | nemu/src/monitor/sdb/expr.c:203 | A `0` followed by the octal digits of `n` converts to `n` read as octal, saturated. |
| Literals.StrtolDecimal | nemu/src/monitor/sdb/expr.c:203 | The decimal digits of `n > 0` (no leading zero) convert to `n`, saturated. |
| Literals.StrtolOctalExample | nemu/src/monitor/sdb/expr.c:203 | The number token `010` is 8, not 10. |
| Literals.StrtolStopExample | nemu/src/monitor/sdb/expr.c:203 | The number token `09` is 0: the octal scan stops at `9`. |
| Literals.StrtolDigit | nemu/src/monitor/sdb/expr.c:203 | A single digit `d` converts to `d`. |
| Lexer.LongestMatch | nemu/src/monitor/sdb/expr.c:43-55 | Each rule's matcher returns the longest prefix at the position that is in the rule's regular language, and no longer prefix is in it (POSIX leftmost-longest). |
| Lexer.ScanFirst | nemu/src/monitor/sdb/expr.c:95-96 | The rule the scan picks is the first rule in table order that matches, with that rule's match length; every earlier rule fails to match. |
| Lexer.ScanNone | nemu/src/monitor/sdb/expr.c:95-125 | The scan finds nothing if and only if no rule of the table matches at the position. |
| Lexer.ScanLongest | nemu/src/monitor/sdb/expr.c:96-98 | The text the scan consumes is in its rule's language, and no longer text from that position is. |
| Lexer.TokenText | nemu/src/monitor/sdb/expr.c:110-116 | A match of any rule other than spaces has no space in it and writes out as its own token; numbers and registers keep their text, every other token records only its type. |
| Lexer.Lex | nemu/src/monitor/sdb/expr.c:93-126 | The scan records at most as many tokens as there is room for, and a no-match error names a position inside the string. |
| Lexer.TokenizeRenders | nemu/src/monitor/sdb/expr.c:93-128 | On success the tokens, written out one after another, give the input without its spaces: spaces make no token, order is kept and number and register text is kept verbatim. Every token is one a rule can produce. |
| Lexer.TokenizeCapacity | nemu/src/monitor/sdb/expr.c:113-115 | Without the 32-slot limit the scan never runs out of room; with it, the scan fails for lack of room exactly when the input has more than 32 tokens, and otherwise gives the same tokens. |
| Lexer.TokenizeNoMatch | nemu/src/monitor/sdb/expr.c:122-125 | Tokenizing fails with no match at `p` only if `p` is inside the input and no rule of the table matches there. |
| Lexer.TokenizeBlank | nemu/src/monitor/sdb/expr.c:91-128 | An input of spaces only, the empty input included, tokenizes to no tokens, with success. |
| Dominance.CandidateSpec | nemu/src/monitor/sdb/expr.c:155-182 | The operator the scan holds after a prefix is the one that beats every other level-zero operator of the prefix: a looser tier; in a tie the rightmost, except that a later dereference never displaces an earlier one. If the scan holds none, the prefix has no level-zero operator. |
| Dominance.DominantSpec | nemu/src/monitor/sdb/expr.c:151-186 | `find_dominated_op` fails exactly when a `)` drives the bracket level below zero or no operator sits at level zero. Otherwise it returns `d` if and only if `d` is the dominant operator, which is unique. |
| Dominance.Candidate | nemu/src/monitor/sdb/expr.c:172-179 | The operator the scan holds lies inside the range and at bracket level zero. |
| Evaluator.FlagMatters | nemu/src/monitor/sdb/expr.c:196-209 | A number, possibly in parentheses, returns the caller's incoming `success` flag unchanged, so `eval` never sets it for a number. Every other range gives the same outcome whatever the incoming flag. |
| Evaluator.ReclassifySpec | nemu/src/monitor/sdb/expr.c:263-274 | The pass turns a `*` into a dereference exactly when it is the first token or follows a token other than `)`, a number or a register, judged on the original types; every other token is unchanged. |
| Evaluator.NoDerefLeft | nemu/src/monitor/sdb/expr.c:263-274 | After the pass no `*` is left that the pass would rewrite. |
| Evaluator.ReclassifyIdempotent | nemu/src/monitor/sdb/expr.c:263-274 | Running the pass a second time changes nothing. |
| Evaluator.ReclassifyRender | nemu/src/monitor/sdb/expr.c:263-274 | The pass changes no token's text. |
| Evaluator.ReclassifiedDerefs | nemu/src/monitor/sdb/expr.c:263-274 | In the pass's output every dereference after the first token follows a token that ends no operand. |
| Evaluator.DerefLeads | nemu/src/monitor/sdb/expr.c:217-225 | In such a sequence a dominant dereference is the first token of its range, so reading memory at the value of the tokens to its right skips nothing. |
| Corrected.WrittenSound | nemu/src/monitor/sdb/expr.c:191-253 | Whenever `eval` as written reports success, the range is bracket-balanced and the corrected evaluator gives the same value. |
| Corrected.WrittenAgrees | nemu/src/monitor/sdb/expr.c:191-253 | On every range whose stripped parentheses all match, `eval` as written, started with the flag set, and the corrected evaluator agree on every input. They agree on value and success, on each assertion stop, and on every failure. |
| Corrected.ApplyStops | nemu/src/monitor/sdb/expr.c:236-247 | A binary operator stops the emulator exactly on division by zero, and otherwise succeeds. |
| Corrected.ParenWritten | nemu/src/monitor/sdb/expr.c:208-209 | As written, `(1)+(2)` is stripped to `1)+(2` and fails. |
| Corrected.ParenCorrected | nemu/src/monitor/sdb/expr.c:208-209 | Corrected, `(1)+(2)` evaluates to 3. |
| Corrected.ParenFinding | nemu/src/monitor/sdb/expr.c:208-209 | Both of the above. |
| Corrected.NumberWritten | nemu/src/monitor/sdb/expr.c:196-207 | As written, `5` evaluated with the flag cleared, as the `p` and `w` commands start it, returns 5 but reports failure. |
| Corrected.NumberCorrected | nemu/src/monitor/sdb/expr.c:196-207 | Corrected, `5` evaluates to 5. |
| Corrected.NumberFinding | nemu/src/monitor/sdb/expr.c:196-207 | Both of the above. |
| ExprState.FirstMatch | nemu/src/monitor/sdb/expr.c:95-125 | The rule loop stops at the first rule that matches and returns that rule with its match; it runs to the end of the table exactly when no rule matches. |
| ExprState.TokenBuffer.constructor | nemu/src/monitor/sdb/expr.c:83-84 | The 32-slot token array starts with no tokens. |
| ExprState.TokenBuffer.Record | nemu/src/monitor/sdb/expr.c:113-115 | A recorded token goes into the first free slot; the tokens before it stay as they were. |
| ExprState.TokenBuffer.Advance | nemu/src/monitor/sdb/expr.c:95-125 | One round of the scan either skips spaces or records one token and continues after the match, keeping the array a prefix of the final result. It stops only where the final result is an error. |
| ExprState.TokenBuffer.MakeToken | nemu/src/monitor/sdb/expr.c:86-129 | `make_token` succeeds exactly when tokenizing succeeds, and then the array holds exactly the tokens of the input. |
| ExprState.TokenBuffer.FindDominatedOp | nemu/src/monitor/sdb/expr.c:151-186 | The loop succeeds exactly when a dominant operator exists and returns it; it returns -1 on failure. |
| ExprState.TokenBuffer.MarkDereferences | nemu/src/monitor/sdb/expr.c:262-274 | The in-place pass leaves the tokens as `Reclassify` gives them and leaves the unused slots untouched. |
| ExprState.TokenBuffer.EvalRange | nemu/src/monitor/sdb/expr.c:191-215 | The recursive `eval` over the array computes `Eval`'s outcome. |
| ExprState.TokenBuffer.EvalOperator | nemu/src/monitor/sdb/expr.c:217-250 | At the dominant operator: a dereference reads memory at the value of its right side; a binary operator evaluates its right operand first, and a failure there skips the left one. |
| ExprState.TokenBuffer.Expr | nemu/src/monitor/sdb/expr.c:256-276 | `expr` tokenizes, marks dereferences and evaluates the whole sequence. A lexer failure reports failure without evaluating. |
| Watchpoints.CStr | nemu/src/monitor/sdb/watchpoint.c:71 | The string a buffer holds is its longest prefix without a NUL, ended by a NUL unless it fills the buffer. |
| Watchpoints.MemcpyText | nemu/src/monitor/sdb/watchpoint.c:80 | Copying text without its terminator over a buffer reads back as that text followed by what the old buffer held beyond it. |
| Watchpoints.FreshText | nemu/src/monitor/sdb/watchpoint.c:80 | Into a zero-filled buffer, a text shorter than 256 characters reads back exactly. |
| Watchpoints.ChainShaped | nemu/src/monitor/sdb/watchpoint.c:32-38 | Chaining every slot to the next makes an empty active list and a free list of slots 0..31 in ascending order, with no slot on both. |
| Watchpoints.PushShaped | nemu/src/monitor/sdb/watchpoint.c:43-51 | Moving the first free slot to the front of the active list keeps both lists linked, distinct and disjoint. |
| Watchpoints.UnlinkShaped | nemu/src/monitor/sdb/watchpoint.c:53-65 | Unlinking the active slot at any position, whether at `head` or behind a predecessor, keeps both lists linked, distinct and disjoint. |
| Watchpoints.CheckFromSpec | nemu/src/monitor/sdb/watchpoint.c:91-105 | The check visits every watchpoint without stopping early. It fails exactly when some evaluation fails, and otherwise asks to stop exactly when some current value differs from the recorded one. |
| Watchpoints.Quiet | nemu/src/monitor/sdb/watchpoint.c:91-105 | Watchpoints that all still evaluate to their recorded values do not stop the emulator. |
| Watchpoints.Pool.constructor | nemu/src/monitor/sdb/watchpoint.c:27-28 | The static pool starts zero-filled, with both lists empty. |
| Watchpoints.Pool.ChainSlots | nemu/src/monitor/sdb/watchpoint.c:32-35 | The loop gives slot `i` the number `i` and links it to slot `i + 1`, the last to `NULL`; texts and values are kept. |
| Watchpoints.Pool.InitWpPool | nemu/src/monitor/sdb/watchpoint.c:30-40 | After `init_wp_pool` the active list is empty, the free list holds slots 0..31 ascending, and slot `i` has number `i`. Texts and values are kept, so zero-filled buffers stay zero-filled. |
| Watchpoints.Pool.NewWp | nemu/src/monitor/sdb/watchpoint.c:43-51 | `new_wp` pops the head of the free list and pushes it onto the front of the active list. Only that slot's link changes, and the lists stay well formed. |
| Watchpoints.Pool.NewWatchpoint | nemu/src/monitor/sdb/watchpoint.c:77-82 | With a free slot, the new slot heads the active list and holds the copied text and the value. With a pristine pool the text reads back exactly. Without a free slot nothing changes. |
| Watchpoints.Pool.FindPrev | nemu/src/monitor/sdb/watchpoint.c:54-59 | The walk from `head` reaches the slot and returns the slot before it on the active list, `NULL` if it is the first. |
| Watchpoints.Pool.FreeWp | nemu/src/monitor/sdb/watchpoint.c:53-65 | `free_wp` removes the slot from the active list, keeping the order of the others. The free list is unchanged, and nothing changes but one link. |
| Watchpoints.Pool.FreeWpRecycling | nemu/src/monitor/sdb/watchpoint.c:53-65 | Corrected `free_wp`: the slot leaves the active list and heads the free list, linked to the old free head, and the number of slots on the two lists is kept. Every slot keeps its number, text and value. |
| Watchpoints.Pool.DeleteWatchpoint | nemu/src/monitor/sdb/watchpoint.c:85-88 | A number of 32 or more stops on the assertion and nothing changes. Otherwise the slot is unlinked from the active list, the free list and its head are unchanged, and every slot keeps its number, text and value. |
| Watchpoints.Pool.WatchpointDisplay | nemu/src/monitor/sdb/watchpoint.c:67-74 | Display lists the number and text of every active slot, in list order from `head`. |
| Watchpoints.Pool.WpIsToggle | nemu/src/monitor/sdb/watchpoint.c:91-105 | The loop computes the check: every watchpoint is evaluated in list order with `success` carried from one call to the next, and recorded values are never updated. |
| Watchpoints.OneWatch | nemu/src/monitor/sdb/watchpoint.c:77-82 | After `init_wp_pool`, a first watchpoint takes slot 0, and slot 1 heads the free list. |
| Watchpoints.TwoWatches | nemu/src/monitor/sdb/watchpoint.c:77-82 | A second watchpoint takes slot 1 and goes in front of slot 0. |
| Watchpoints.NewestFirst | nemu/src/monitor/sdb/watchpoint.c:67-74 | After creating `a` and then `b`, display lists `b` (number 1) first and `a` (number 0) second. |
| Watchpoints.LeakedSlot | nemu/src/monitor/sdb/watchpoint.c:85-88 | As written, creating and deleting one watchpoint leaves slot 0 on neither list: only 31 slots remain. |
| Watchpoints.RecycledSlot | nemu/src/monitor/sdb/watchpoint.c:53-65 | With the corrected `free_wp`, creating and deleting one watchpoint gives back both lists as `init_wp_pool` left them: nothing active, every slot free in ascending order. Slot 0 keeps the text it held. |
| Watchpoints.StaleText | nemu/src/monitor/sdb/watchpoint.c:77-82 | With the corrected `free_wp`, a text `b` shorter than an earlier text `a` in the same slot reads back as `b` followed by the rest of `a`, because the copy writes no terminator. |
| Scenarios.Singles | nemu/src/monitor/sdb/expr.c:86-129 | An input of at most 32 characters, each an operator, a bracket or a digit that starts no longer number, tokenizes to one token per character. |
| Scenarios.LexSum | nemu/src/monitor/sdb/expr.c:86-129 | `2+3*4` tokenizes to number, `+`, number, `*`, number. |
| Scenarios.PrecedenceExample | nemu/src/monitor/sdb/expr.c:256-276 | `expr("2+3*4")` is 14 with `success` set: `*` binds tighter than `+`. |
| Scenarios.ParenExample | nemu/src/monitor/sdb/expr.c:256-276 | `expr("(2+3)*4")` is 20 with `success` set: brackets override precedence. |
| Scenarios.DivideByZeroExample | nemu/src/monitor/sdb/expr.c:256-276 | `expr("1/0")` stops the emulator on the division-by-zero assertion. |
| Scenarios.DerefExample | nemu/src/monitor/sdb/expr.c:256-276 | In `expr("2**8")` the first `*` multiplies and the second reads memory: the result is 2 times the word at address 8. |
| Scenarios.EvalSum | nemu/src/monitor/sdb/expr.c:191-253 | `a+b*c` on one-digit numbers evaluates to `a + (b * c)` in word arithmetic. |
| Scenarios.EvalParen | nemu/src/monitor/sdb/expr.c:191-253 | `(a+b)*c` on one-digit numbers evaluates to `(a + b) * c` in word arithmetic. |
| Scenarios.EvalDeref | nemu/src/monitor/sdb/expr.c:191-253 | `a * *b` on one-digit numbers evaluates to `a` times the word at address `b`. |

## Left out

- The regular-expression engine (`regcomp`, `regexec`, `init_regex`). Each rule is a hand-written matcher, proved to give POSIX's longest match (`Lexer.LongestMatch`).
- `Log`, `printf` and the other output of `make_token`, `watchpoint_display` and `wp_is_toggle`. Display returns its lines instead of printing them.
- `nemu_state`: the check returns "stop requested" as a boolean instead of setting `NEMU_STOP`.
- `Assert`, `assert` and `panic`. These are the `Aborted` outcome, a `None` result, or `ok == false` with nothing changed.
- The 33rd token. The C code writes it past the end of `tokens`; the model ends tokenizing with a `TooManyTokens` error, so `make_token` fails.
- Token text buffers. `sprintf` writes a 32-character register token's terminator one byte past `str[32]`. Token text is kept as a sequence, so this overflow is not modelled.
- Stale operator text. Operator tokens keep whatever `str` an earlier token left, but nothing reads it, so the model stores the empty string.
- Input characters. A NUL inside the input string is not modelled: inputs are the characters before the terminator.
- ExprState.TokenBuffer.EvalRange: the `Assert` on the dominant operator's index always holds, so it is not modelled.
- Literals.Strtol: leading white space and a sign are not modelled, because the lexer never passes them.
- Evaluator.Machine: `isa_reg_str2val` is taken to set `success` exactly when the register exists. `vaddr_read` is a total function of the address; memory faults are not modelled.
- Watchpoints.Pool.DeleteWatchpoint: requires a number that is either 32 or more, or non-negative and active. A negative number indexes outside `wp_pool`, and an inactive slot makes `free_wp` dereference `NULL`.
- Watchpoints.Pool.NewWatchpoint: requires a text with no NUL and shorter than 256 characters. Without a terminator, a longer `memcpy` overflows the buffer, and one of exactly 256 leaves the buffer with no terminator.
- Watchpoints.Pool.FreeWpRecycling: the freed slot keeps its old text, so a later shorter text reads back with the old text's tail (`Watchpoints.StaleText`). A fuller correction would also copy the terminator in `new_watchpoint`; that is not modelled.
- Watchpoints.Pool.InitWpPool: requires a well-formed pool, as the constructor or any earlier operation leaves it.
- Corrected: the error values of the corrected evaluator are a design choice. The C code has only the `success` flag and assertion stops.
- Concurrency and the command loop of `sdb.c` are outside this model.

## Findings

The rest of the model keeps the behaviour as written: `ExprState` evaluates with `Evaluator.Eval`, and `delete_watchpoint` calls `Pool.FreeWp`. The corrected definitions sit beside them: `Corrected.Evaluate` and `Pool.FreeWpRecycling`. `Corrected.WrittenSound` proves that the corrected evaluator only turns failures into results.

| source | as written | input that shows it | evidently intended | confidence | as-written member | corrected member |
|---|---|---|---|---|---|---|
| nemu/src/monitor/sdb/expr.c:208-209 | Outer parentheses are stripped whenever a range starts with `(` and ends with `)`, matched or not. | `(1)+(2)` becomes `1)+(2`, whose `)` drives the bracket level below zero, so `p (1)+(2)` fails. | Strip only a matched pair, giving 3. | high, not executed | Corrected.ParenWritten | Corrected.ParenCorrected |
| nemu/src/monitor/sdb/expr.c:196-207 | A number leaf never sets `*success`: the `*success = true` sits after `assert(0)` in the `default` arm. | `p 5` starts with the flag cleared (sdb.c:125), so `5` evaluates to 5 and is reported invalid. | A number reports success. | high, not executed | Corrected.NumberWritten | Corrected.NumberCorrected |
| nemu/src/monitor/sdb/watchpoint.c:53-65 | `free_wp` unlinks the slot from the active list but never links it onto `free_`. | After `init_wp_pool`, `w $pc` then `d 0`: slot 0 is on neither list, and at most 31 more watchpoints can be created. | The freed slot goes back on the free list, so every slot stays on a list. | high, not executed | Watchpoints.LeakedSlot | Watchpoints.Pool.FreeWpRecycling |
