/**
 * The watchpoint pool of nemu/src/monitor/sdb/watchpoint.c.
 *
 * `wp_pool` is an array of 32 records threaded by `next` links into two
 * singly-linked lists, the active list from `head` and the free list from
 * `free_`. Links are slot indices here, `Null` (-1) for `NULL`. The ghost
 * sequences `active` and `freeList` are the slots along each list in link
 * order; `Valid` ties the links to them and keeps every slot on at most
 * one list, which also makes both lists acyclic.
 *
 * The `expr` field is the 256-byte buffer itself: `new_watchpoint` copies
 * the text without its terminator over what the buffer held, and readers
 * see the buffer up to its first NUL (`CStr`).
 */
module Watchpoints {
  import opened Wrappers
  import opened Words
  import opened Evaluator
  import opened ExprState

  /** `NR_WP`. */
  const NrWp: nat := 32
  /** The size of a record's `expr` buffer. */
  const ExprSize: nat := 256
  /** The `NULL` link. */
  const Null: int := -1

  /** A `WP` record: its number, its link, its text buffer and the value
      recorded when it was created. */
  datatype Wp = Wp(no: int, next: int, expr: seq<char>, oriResult: Word)

  /** A zero-filled buffer, as static storage starts out. */
  function Zeros(n: nat): (z: seq<char>)
    ensures |z| == n && forall i :: 0 <= i < n ==> z[i] == '\0'
  {
    seq(n, _ => '\0')
  }

  /** The C string a buffer holds: its longest prefix without a NUL. */
  function CStr(buf: seq<char>): (s: string)
    ensures |s| <= |buf| && s == buf[..|s|]
    ensures '\0' !in s
    ensures |s| < |buf| ==> buf[|s|] == '\0'
  {
    if buf == [] || buf[0] == '\0' then [] else [buf[0]] + CStr(buf[1..])
  }

  /** `memcpy(buf, e, strlen(e))`: the text over the front of the buffer,
      without a terminator. */
  function Memcpy(buf: seq<char>, e: string): seq<char>
    requires |e| <= |buf|
  {
    e + buf[|e|..]
  }

  /** Reading the buffer back gives the copied text followed by whatever
      text the rest of the old buffer held up to its first NUL. */
  lemma {:induction false} MemcpyText(buf: seq<char>, e: string)
    requires '\0' !in e && |e| <= |buf|
    ensures CStr(Memcpy(buf, e)) == e + CStr(buf[|e|..])
    decreases |e|
  {
    if e != [] {
      assert Memcpy(buf, e)[1..] == Memcpy(buf[1..], e[1..]);
      assert buf[1..][|e| - 1..] == buf[|e|..];
      MemcpyText(buf[1..], e[1..]);
      assert e == [e[0]] + e[1..];
    } else {
      assert Memcpy(buf, e) == buf[|e|..];
    }
  }

  /** Past the front of a text, a buffer reads back as the rest of it. */
  lemma {:induction false} CStrDrop(buf: seq<char>, k: nat)
    requires k <= |CStr(buf)|
    ensures CStr(buf[k..]) == CStr(buf)[k..]
    decreases k
  {
    if k > 0 {
      assert buf[k..] == buf[1..][k - 1..];
      CStrDrop(buf[1..], k - 1);
    }
  }

  /** Into a buffer that was never written, a text shorter than the buffer
      is copied intact: reading it back gives exactly that text. */
  lemma FreshText(e: string)
    requires '\0' !in e && |e| < ExprSize
    ensures CStr(Memcpy(Zeros(ExprSize), e)) == e
  {
    MemcpyText(Zeros(ExprSize), e);
    assert Zeros(ExprSize)[|e|..][0] == '\0';
    assert e + [] == e;
  }

  /** No slot occurs twice. */
  predicate Distinct(s: seq<nat>) {
    forall i, j :: 0 <= i < j < |s| ==> s[i] != s[j]
  }

  /** The slots `0, 1, ..., n - 1` in ascending order. */
  function Ascending(n: nat): (s: seq<nat>)
    ensures |s| == n && forall k :: 0 <= k < n ==> s[k] == k
  {
    seq(n, k => k)
  }

  /** Following `next` links in the records `p` from `first` visits exactly
      the slots `s`, in order, and then reaches `NULL`. */
  predicate Linked(p: seq<Wp>, first: int, s: seq<nat>) {
    (forall k :: 0 <= k < |s| ==> s[k] < |p|) &&
    first == After(s, -1) &&
    forall k :: 0 <= k < |s| ==> p[s[k]].next == After(s, k)
  }

  /** The link that follows position `k` of the list `s` (`k == -1`: the
      list's first link). */
  function After(s: seq<nat>, k: int): int
    requires -1 <= k < |s|
  {
    if k + 1 < |s| then s[k + 1] else Null
  }

  /** The pool's shape: two linked lists with no slot in common or repeated,
      and every text buffer of full size. */
  predicate Shaped(p: seq<Wp>, head: int, free: int, active: seq<nat>, freeList: seq<nat>) {
    |p| == NrWp && Linked(p, head, active) && Linked(p, free, freeList) &&
    Distinct(active + freeList) &&
    forall i :: 0 <= i < |p| ==> |p[i].expr| == ExprSize
  }

  /** Slot `freeList[k]` lies on the active list nowhere and on the free
      list only at `k`. */
  lemma Unlisted(active: seq<nat>, freeList: seq<nat>, k: nat)
    requires Distinct(active + freeList) && k < |freeList|
    ensures freeList[k] !in active
    ensures forall j :: 0 <= j < |freeList| && j != k ==> freeList[j] != freeList[k]
  {
    var all := active + freeList;
    assert all[|active| + k] == freeList[k];
    forall i | 0 <= i < |active| ensures active[i] != freeList[k] {
      assert all[i] == active[i];
    }
    forall j | 0 <= j < |freeList| && j != k ensures freeList[j] != freeList[k] {
      assert all[|active| + j] == freeList[j];
    }
  }

  /** Moving the first free slot to the front of the active list keeps the
      slots distinct. */
  lemma DistinctPush(active: seq<nat>, freeList: seq<nat>)
    requires Distinct(active + freeList) && freeList != []
    ensures Distinct([freeList[0]] + active + freeList[1..])
  {
    var all, all' := active + freeList, [freeList[0]] + active + freeList[1..];
    forall i, j | 0 <= i < j < |all'| ensures all'[i] != all'[j] {
      var i', j' := if i == 0 then |active| else if i <= |active| then i - 1 else i,
                    if j <= |active| then j - 1 else j;
      assert all'[i] == all[i'] && all'[j] == all[j'] && i' != j';
    }
  }

  /** Taking the active slot at `i` out keeps the slots distinct. */
  lemma DistinctUnlink(active: seq<nat>, freeList: seq<nat>, i: nat)
    requires Distinct(active + freeList) && i < |active|
    ensures Distinct(active[..i] + active[i + 1..] + freeList)
    ensures Distinct(active)
  {
    var all, all' := active + freeList, active[..i] + active[i + 1..] + freeList;
    forall a, b | 0 <= a < b < |all'| ensures all'[a] != all'[b] {
      assert all'[a] == all[if a < i then a else a + 1];
      assert all'[b] == all[if b < i then b else b + 1];
    }
    forall a, b | 0 <= a < b < |active| ensures active[a] != active[b] {
      assert all[a] == active[a] && all[b] == active[b];
    }
  }

  /** Changing a record off the list `s` leaves the list as it was. */
  lemma LinkedFrame(p: seq<Wp>, first: int, s: seq<nat>, x: nat, v: Wp)
    requires Linked(p, first, s) && x < |p| && x !in s
    ensures Linked(p[x := v], first, s)
  {
    forall k | 0 <= k < |s| ensures p[x := v][s[k]] == p[s[k]] {
      assert s[k] in s;
    }
  }

  /** A list without its first slot starts at that slot's link. */
  lemma LinkedTail(p: seq<Wp>, first: int, s: seq<nat>)
    requires Linked(p, first, s) && s != []
    ensures Linked(p, p[s[0]].next, s[1..])
  {
    forall k | 0 <= k < |s| - 1 ensures p[s[1..][k]].next == After(s[1..], k) {
      assert s[1..][k] == s[k + 1];
    }
  }

  /** Slot `w`, off the list, linked to its old first slot, heads it. */
  lemma LinkedPush(p: seq<Wp>, first: int, s: seq<nat>, w: nat)
    requires Linked(p, first, s) && w < |p| && w !in s
    ensures Linked(p[w := p[w].(next := first)], w, [w] + s)
  {
    var q, s' := p[w := p[w].(next := first)], [w] + s;
    forall k | 0 <= k < |s'| ensures q[s'[k]].next == After(s', k) {
      if k > 0 {
        assert s'[k] == s[k - 1] && s[k - 1] in s;
      }
    }
  }

  /** In a list without repetitions, the slot at `i - 1` taking over the
      link of the slot at `i` splices the latter out. */
  lemma LinkedSplice(p: seq<Wp>, first: int, s: seq<nat>, i: nat)
    requires Linked(p, first, s) && Distinct(s) && 0 < i < |s|
    ensures Linked(p[s[i - 1] := p[s[i - 1]].(next := p[s[i]].next)], first, s[..i] + s[i + 1..])
  {
    var prev, s' := s[i - 1], s[..i] + s[i + 1..];
    var q := p[prev := p[prev].(next := p[s[i]].next)];
    assert s'[0] == s[0];
    forall k | 0 <= k < |s'| ensures s'[k] < |p| && q[s'[k]].next == After(s', k) {
      if k < i - 1 {
        assert s'[k] == s[k] != prev;
      } else if k == i - 1 {
        assert s'[k] == prev;
      } else {
        assert s'[k] == s[k + 1] != prev;
      }
    }
  }

  /** `new_wp` keeps the shape: the first free slot, linked to the old
      `head`, heads the active list; the free list starts at its old link. */
  lemma PushShaped(p: seq<Wp>, head: int, free: int, active: seq<nat>, freeList: seq<nat>)
    requires Shaped(p, head, free, active, freeList) && freeList != []
    ensures Shaped(p[free := p[free].(next := head)], free, p[free].next, [freeList[0]] + active, freeList[1..])
  {
    var w := freeList[0];
    Unlisted(active, freeList, 0);
    DistinctPush(active, freeList);
    LinkedPush(p, head, active, w);
    LinkedTail(p, free, freeList);
    assert w !in freeList[1..] by {
      forall k | 0 <= k < |freeList| - 1 ensures freeList[1..][k] != w {
        assert freeList[1..][k] == freeList[k + 1];
      }
    }
    LinkedFrame(p, p[free].next, freeList[1..], w, p[w].(next := head));
  }

  /** The slots `p` as `init_wp_pool` leaves them: slot `j` numbered `j`
      and linked to slot `j + 1`, the last one to `NULL`. */
  function Chain(p: seq<Wp>): (c: seq<Wp>)
    requires |p| == NrWp
    ensures |c| == NrWp
  {
    seq(NrWp, j requires 0 <= j < NrWp => p[j].(no := j, next := if j == NrWp - 1 then Null else j + 1))
  }

  /** Chained slots form an empty active list and a free list of every
      slot in ascending order. */
  lemma ChainShaped(p: seq<Wp>)
    requires |p| == NrWp && forall j :: 0 <= j < NrWp ==> |p[j].expr| == ExprSize
    ensures Shaped(Chain(p), Null, 0, [], Ascending(NrWp))
  {
    var s, c := Ascending(NrWp), Chain(p);
    assert [] + s == s;
    forall k | 0 <= k < |s| ensures c[s[k]].next == After(s, k) { }
  }

  /** `free_wp` keeps the shape when it unlinks the active slot at position
      `i`: at the front `head` moves to its link, elsewhere the slot before
      it takes over its link. */
  lemma UnlinkShaped(p: seq<Wp>, head: int, free: int, active: seq<nat>, freeList: seq<nat>, i: nat)
    requires Shaped(p, head, free, active, freeList) && i < |active|
    ensures i == 0 ==> Shaped(p, p[active[0]].next, free, active[1..], freeList)
    ensures 0 < i ==> Shaped(p[active[i - 1] := p[active[i - 1]].(next := p[active[i]].next)], head, free, active[..i] + active[i + 1..], freeList)
  {
    DistinctUnlink(active, freeList, i);
    if i == 0 {
      assert active[..0] + active[1..] == active[1..];
      LinkedTail(p, head, active);
    } else {
      var prev := active[i - 1];
      LinkedSplice(p, head, active, i);
      assert prev !in freeList by {
        var all := active + freeList;
        assert all[i - 1] == prev;
        forall k | 0 <= k < |freeList| ensures freeList[k] != prev {
          assert all[|active| + k] == freeList[k];
        }
      }
      LinkedFrame(p, free, freeList, prev, p[prev].(next := p[active[i]].next));
    }
  }

  /** `s` with `x` taken out, the rest in order. */
  function Without(s: seq<nat>, x: nat): seq<nat> {
    if s == [] then []
    else (if s[0] == x then [] else [s[0]]) + Without(s[1..], x)
  }

  lemma {:induction false} WithoutAbsent(s: seq<nat>, x: nat)
    requires x !in s
    ensures Without(s, x) == s
  {
    if s != [] {
      WithoutAbsent(s[1..], x);
      assert s == [s[0]] + s[1..];
    }
  }

  /** In a list without repetitions, taking out the slot at position `i`
      splices the list around it. */
  lemma {:induction false} WithoutAt(s: seq<nat>, i: nat)
    requires Distinct(s) && i < |s|
    ensures Without(s, s[i]) == s[..i] + s[i + 1..]
  {
    if i == 0 {
      assert s[i] !in s[1..];
      WithoutAbsent(s[1..], s[0]);
    } else {
      WithoutAt(s[1..], i - 1);
      assert s[1..][..i - 1] + s[1..][i..] == s[1..i] + s[i + 1..];
      assert s[..i] == [s[0]] + s[1..i];
    }
  }

  /** Taking out a slot that occurs once shortens the list by one and
      leaves no copy of it. */
  lemma WithoutOnce(s: seq<nat>, x: nat)
    requires Distinct(s) && x in s
    ensures |Without(s, x)| == |s| - 1 && x !in Without(s, x)
  {
    var i :| 0 <= i < |s| && s[i] == x;
    WithoutAt(s, i);
    forall k | 0 <= k < |s| && k != i ensures s[k] != x { }
    assert forall y :: y in s[..i] + s[i + 1..] ==> y in s[..i] || y in s[i + 1..];
  }

  /** An active slot is on the free list nowhere, and the active slots are
      distinct. */
  lemma ActiveUnlisted(active: seq<nat>, freeList: seq<nat>, w: nat)
    requires Distinct(active + freeList) && w in active
    ensures w !in freeList && Distinct(active)
  {
    var i :| 0 <= i < |active| && active[i] == w;
    DistinctUnlink(active, freeList, i);
    var all := active + freeList;
    assert all[i] == w;
    forall k | 0 <= k < |freeList| ensures freeList[k] != w {
      assert all[|active| + k] == freeList[k];
    }
  }

  /** A slot on neither list, put in front of the free list, keeps the
      slots distinct. */
  lemma DistinctInsert(active: seq<nat>, freeList: seq<nat>, w: nat)
    requires Distinct(active + freeList) && w !in active && w !in freeList
    ensures Distinct(active + ([w] + freeList))
  {
    var all, all' := active + freeList, active + ([w] + freeList);
    forall m | 0 <= m < |all| ensures all[m] != w {
      if m < |active| {
        assert all[m] == active[m];
      } else {
        assert all[m] == freeList[m - |active|];
      }
    }
    forall i, j | 0 <= i < j < |all'| ensures all'[i] != all'[j] {
      if i == |active| {
        assert all'[j] == all[j - 1];
      } else if j == |active| {
        assert all'[i] == all[i];
      } else {
        assert all'[i] == all[if i < |active| then i else i - 1];
        assert all'[j] == all[if j < |active| then j else j - 1];
      }
    }
  }

  /** A slot on neither list, linked to the old first free slot, heads the
      free list. */
  lemma RecycleShaped(p: seq<Wp>, head: int, free: int, active: seq<nat>, freeList: seq<nat>, w: nat)
    requires Shaped(p, head, free, active, freeList) && w < |p| && w !in active && w !in freeList
    ensures Shaped(p[w := p[w].(next := free)], head, w, active, [w] + freeList)
  {
    LinkedFrame(p, head, active, w, p[w].(next := free));
    LinkedPush(p, free, freeList, w);
    DistinctInsert(active, freeList, w);
  }

  /** The (number, text) pairs of the slots `s`, as the display prints them. */
  function Entries(p: seq<Wp>, s: seq<nat>): seq<(int, string)>
    requires forall k :: 0 <= k < |s| ==> s[k] < |p|
  {
    seq(|s|, k requires 0 <= k < |s| => (p[s[k]].no, CStr(p[s[k]].expr)))
  }

  /** The (text, recorded value) pairs of the slots `s`. */
  function Watches(p: seq<Wp>, s: seq<nat>): seq<(string, Word)>
    requires forall k :: 0 <= k < |s| ==> s[k] < |p|
  {
    seq(|s|, k requires 0 <= k < |s| => (CStr(p[s[k]].expr), p[s[k]].oriResult))
  }

  /** An expression evaluator: `expr` on a text with the incoming flag. */
  type Evaluate = (string, bool) -> Outcome

  /** `expr` on the machine `m`. */
  function ExprOn(m: Machine): Evaluate {
    (e, success) => ExprSpec(m, e, success)
  }

  /** The loop of `wp_is_toggle` over the watches `ws` still to visit, with
      the `success` flag as the last evaluation left it and `halt` set once
      a value has changed: `None` when an evaluation fails (the assertion
      stops the emulator), otherwise whether to stop. */
  function CheckFrom(ev: Evaluate, ws: seq<(string, Word)>, success: bool, halt: bool): Option<bool>
    decreases |ws|
  {
    if ws == [] then Some(halt)
    else
      var o := ev(ws[0].0, success);
      if o.Aborted? || !o.success then None
      else CheckFrom(ev, ws[1..], o.success, halt || o.value != ws[0].1)
  }

  /** One visit of the check: the first watch evaluates to `o`. */
  lemma CheckStep(ev: Evaluate, ws: seq<(string, Word)>, success: bool, halt: bool, o: Outcome)
    requires ws != [] && o == ev(ws[0].0, success)
    ensures CheckFrom(ev, ws, success, halt) ==
      if o.Aborted? || !o.success then None else CheckFrom(ev, ws[1..], o.success, halt || o.value != ws[0].1)
  {
  }

  /** `wp_is_toggle` over all the watches on machine `m`: the flag starts
      out false. */
  function CheckAll(m: Machine, ws: seq<(string, Word)>): Option<bool> {
    CheckFrom(ExprOn(m), ws, false, false)
  }

  /** Every watch evaluates: only the first sees the incoming flag, the
      others see the flag the previous evaluation left set. */
  predicate AllEvaluate(ev: Evaluate, ws: seq<(string, Word)>, success: bool) {
    forall k :: 0 <= k < |ws| ==> ev(ws[k].0, success || k > 0).Returned? && ev(ws[k].0, success || k > 0).success
  }

  /** Some watch's current value differs from its recorded one. */
  predicate Changed(ev: Evaluate, ws: seq<(string, Word)>, success: bool) {
    exists k :: 0 <= k < |ws| && ev(ws[k].0, success || k > 0).Returned? && ev(ws[k].0, success || k > 0).value != ws[k].1
  }

  /** The check visits every watch, never stopping early: it fails exactly
      when some evaluation fails, and otherwise asks to stop exactly when
      some value changed. */
  lemma {:induction false} CheckFromSpec(ev: Evaluate, ws: seq<(string, Word)>, success: bool, halt: bool)
    ensures CheckFrom(ev, ws, success, halt) == if AllEvaluate(ev, ws, success) then Some(halt || Changed(ev, ws, success)) else None
    decreases |ws|
  {
    if ws != [] {
      var o := ev(ws[0].0, success);
      var rest := ws[1..];
      assert ev(ws[0].0, success || 0 > 0) == o;
      if o.Returned? && o.success {
        CheckFromSpec(ev, rest, true, halt || o.value != ws[0].1);
        assert AllEvaluate(ev, ws, success) <==> AllEvaluate(ev, rest, true) by {
          forall k | 0 <= k < |rest| ensures rest[k] == ws[k + 1] { }
        }
        if AllEvaluate(ev, ws, success) {
          if Changed(ev, ws, success) {
            var k :| 0 <= k < |ws| && ev(ws[k].0, success || k > 0).Returned? && ev(ws[k].0, success || k > 0).value != ws[k].1;
            assert k > 0 ==> rest[k - 1] == ws[k];
          }
          if Changed(ev, rest, true) {
            var k :| 0 <= k < |rest| && ev(rest[k].0, true).Returned? && ev(rest[k].0, true).value != rest[k].1;
            assert rest[k] == ws[k + 1];
          }
        }
      }
    }
  }

  /** Watches whose expressions still evaluate to their recorded values
      do not stop the emulator. */
  lemma Quiet(m: Machine, ws: seq<(string, Word)>)
    requires forall k :: 0 <= k < |ws| ==> ExprSpec(m, ws[k].0, k > 0) == Returned(ws[k].1, true)
    ensures CheckAll(m, ws) == Some(false)
  {
    CheckFromSpec(ExprOn(m), ws, false, false);
    assert AllEvaluate(ExprOn(m), ws, false) by {
      forall k | 0 <= k < |ws| ensures ExprOn(m)(ws[k].0, false || k > 0) == Returned(ws[k].1, true) { }
    }
  }

  class Pool {
    /** `wp_pool`. */
    const pool: array<Wp>
    /** `head`, the first active slot. */
    var head: int
    /** `free_`, the first free slot. */
    var free: int
    /** The slots along the active list, from `head`. */
    ghost var active: seq<nat>
    /** The slots along the free list, from `free_`. */
    ghost var freeList: seq<nat>

    ghost predicate Valid()
      reads this, pool
    {
      Shaped(pool[..], head, free, active, freeList)
    }

    /** Slot `i` carries the number `i`. */
    ghost predicate Numbered()
      reads this, pool
    {
      forall i :: 0 <= i < pool.Length ==> pool[i].no == i
    }

    /** Every free slot still has the zero-filled buffer it started with. */
    ghost predicate Pristine()
      reads this, pool
      requires Valid()
    {
      forall k :: 0 <= k < |freeList| ==> pool[freeList[k]].expr == Zeros(ExprSize)
    }

    /** The static storage: every field zero, both lists empty. */
    constructor ()
      ensures Valid() && active == [] && freeList == [] && fresh(pool)
      ensures forall i :: 0 <= i < NrWp ==> pool[i] == Wp(0, Null, Zeros(ExprSize), 0)
    {
      pool := new Wp[NrWp](_ => Wp(0, Null, Zeros(ExprSize), 0));
      head, free := Null, Null;
      active, freeList := [], [];
    }

    /** The loop of `init_wp_pool`: numbers every slot and links it to the
        next one; texts and recorded values are left as they were. */
    method ChainSlots()
      requires pool.Length == NrWp
      modifies pool
      ensures pool[..] == Chain(old(pool[..]))
    {
      var i := 0;
      while i < NrWp
        invariant i <= NrWp
        invariant forall j :: 0 <= j < i ==> pool[j] == old(pool[j]).(no := j, next := if j == NrWp - 1 then Null else j + 1)
        invariant forall j :: i <= j < NrWp ==> pool[j] == old(pool[j])
      {
        pool[i] := pool[i].(no := i, next := if i == NrWp - 1 then Null else i + 1);
        i := i + 1;
      }
      assert pool[..] == Chain(old(pool[..]));
    }

    /** `init_wp_pool`: numbers the slots and chains all of them, in
        ascending order, into the free list; the active list is empty.
        Texts and recorded values are left as they were. */
    method InitWpPool()
      requires Valid()
      modifies this, pool
      ensures Valid() && Numbered()
      ensures active == [] && freeList == Ascending(NrWp)
      ensures forall i :: 0 <= i < NrWp ==> pool[i].expr == old(pool[i].expr) && pool[i].oriResult == old(pool[i].oriResult)
      ensures (forall i :: 0 <= i < NrWp ==> old(pool[i].expr) == Zeros(ExprSize)) ==> Pristine()
    {
      ghost var before := pool[..];
      ChainSlots();
      ChainShaped(before);
      head, free := Null, 0;
      active, freeList := [], Ascending(NrWp);
    }

    /** `new_wp`: takes the first free slot and pushes it onto the front of
        the active list. Only that slot's link changes. */
    method NewWp() returns (w: nat)
      requires Valid() && freeList != []
      modifies this, pool
      ensures Valid()
      ensures w == old(freeList[0]) && w == old(free)
      ensures active == [w] + old(active) && freeList == old(freeList[1..]) && w !in freeList
      ensures pool[..] == old(pool[..])[w := old(pool[w]).(next := old(head))]
    {
      PushShaped(pool[..], head, free, active, freeList);
      Unlisted(active, freeList, 0);
      assert freeList[0] !in freeList[1..] by {
        forall k | 0 <= k < |freeList| - 1 ensures freeList[1..][k] != freeList[0] {
          assert freeList[1..][k] == freeList[k + 1];
        }
      }
      w := free;
      free := pool[w].next;
      pool[w] := pool[w].(next := head);
      head := w;
      active, freeList := [w] + active, freeList[1..];
    }

    /** The displayed list and the watches, from the active list. */
    ghost function Listing(): seq<(int, string)>
      reads this, pool
      requires Valid()
    {
      Entries(pool[..], active)
    }

    ghost function Watched(): seq<(string, Word)>
      reads this, pool
      requires Valid()
    {
      Watches(pool[..], active)
    }

    /** `new_watchpoint`: a new watch on `e` with the value `result`, in the
        slot `new_wp` hands out. `e` is a C string (no NUL inside) that must
        fit the buffer with room to spare, since no terminator is copied.
        With no free slot left the assertion in `new_wp` stops the emulator:
        `ok` is false and nothing changes. */
    method NewWatchpoint(e: string, result: Word) returns (ok: bool)
      requires Valid() && '\0' !in e && |e| < ExprSize
      modifies this, pool
      ensures Valid()
      ensures ok <==> old(freeList) != []
      ensures !ok ==> unchanged(this) && unchanged(pool)
      ensures ok ==> active == [old(freeList[0])] + old(active) && freeList == old(freeList[1..])
      ensures ok ==> pool[..] == old(pool[..])[old(freeList[0]) := Wp(old(pool[freeList[0]].no), old(head), Memcpy(old(pool[freeList[0]].expr), e), result)]
      ensures ok && old(Pristine()) ==> Pristine() && CStr(pool[active[0]].expr) == e
    {
      if free == Null {
        return false;
      }
      ghost var rest := freeList[1..];
      var w := NewWp();
      pool[w] := pool[w].(expr := Memcpy(pool[w].expr, e), oriResult := result);
      ok := true;
      if old(Pristine()) {
        FreshText(e);
        forall k | 0 <= k < |freeList| ensures pool[freeList[k]].expr == Zeros(ExprSize) {
          assert freeList[k] in freeList && freeList[k] == old(freeList)[k + 1];
        }
      }
    }

    /** The walk of `free_wp`: from `head` along the active list until
        slot `w`, remembering the slot before it. */
    method FindPrev(w: nat) returns (prev: int, ghost i: nat)
      requires Valid() && w in active
      ensures i < |active| && active[i] == w
      ensures prev == if i == 0 then Null else active[i - 1]
    {
      ghost var at :| 0 <= at < |active| && active[at] == w;
      i := 0;
      prev := Null;
      var cur := head;
      DistinctUnlink(active, freeList, at);
      while cur != w
        invariant i <= at && cur == active[i]
        invariant prev == if i == 0 then Null else active[i - 1]
        decreases at - i
      {
        assert pool[..][active[i]].next == After(active, i);
        prev := cur;
        cur := pool[cur].next;
        i := i + 1;
      }
    }

    /** `free_wp`: walks the active list from `head` to slot `w` and unlinks
        it; the other active slots keep their order. The slot is not put
        back on the free list, and no slot off the active list changes. */
    method FreeWp(w: nat)
      requires Valid() && w in active
      modifies this, pool
      ensures Valid()
      ensures active == Without(old(active), w)
      ensures freeList == old(freeList) && free == old(free)
      ensures forall j :: 0 <= j < NrWp && j !in active ==> pool[j] == old(pool[j])
      ensures forall j :: 0 <= j < NrWp ==> pool[j].(next := 0) == old(pool[j]).(next := 0)
    {
      var prev, i := FindPrev(w);
      DistinctUnlink(active, freeList, i);
      UnlinkShaped(pool[..], head, free, active, freeList, i);
      WithoutAt(active, i);
      if prev == Null {
        head := pool[w].next;
      } else {
        pool[prev] := pool[prev].(next := pool[w].next);
      }
      active := active[..i] + active[i + 1..];
    }

    /** `free_wp` as the pool's design intends it: the slot unlinked from
        the active list goes back to the front of the free list, so every
        slot stays on one of the two lists and the next `new_wp` hands the
        slot out again. */
    method FreeWpRecycling(w: nat)
      requires Valid() && w in active
      modifies this, pool
      ensures Valid()
      ensures active == Without(old(active), w) && freeList == [w] + old(freeList) && free == w
      ensures |active| + |freeList| == old(|active| + |freeList|)
      ensures pool[w].next == old(free)
      ensures forall j :: 0 <= j < NrWp ==> pool[j].(next := 0) == old(pool[j]).(next := 0)
    {
      ActiveUnlisted(active, freeList, w);
      WithoutOnce(active, w);
      FreeWp(w);
      RecycleShaped(pool[..], head, free, active, freeList, w);
      pool[w] := pool[w].(next := free);
      free := w;
      freeList := [w] + freeList;
    }

    /** `delete_watchpoint`: a number past the pool fails the assertion,
        which stops the emulator (`ok` false, nothing changes); otherwise
        the slot, which must be active, is unlinked by `free_wp`. */
    method DeleteWatchpoint(num: int) returns (ok: bool)
      requires Valid() && (num < NrWp ==> 0 <= num && num in active)
      modifies this, pool
      ensures Valid()
      ensures ok <==> num < NrWp
      ensures !ok ==> unchanged(this) && unchanged(pool)
      ensures ok ==> active == Without(old(active), num) && freeList == old(freeList) && free == old(free)
      ensures ok ==> forall j :: 0 <= j < NrWp && j !in active ==> pool[j] == old(pool[j])
      ensures ok ==> forall j :: 0 <= j < NrWp ==> pool[j].(next := 0) == old(pool[j]).(next := 0)
    {
      if num >= NrWp {
        return false;
      }
      FreeWp(num);
      ok := true;
    }

    /** `watchpoint_display`: the numbers and texts along the active list,
        from `head`, so the newest watchpoint comes first. */
    method WatchpointDisplay() returns (lines: seq<(int, string)>)
      requires Valid()
      ensures lines == Listing()
    {
      lines := [];
      var wp := head;
      ghost var all, k := Listing(), 0;
      while wp != Null
        invariant k <= |active| && wp == After(active, k - 1)
        invariant lines == all[..k]
        decreases |active| - k
      {
        assert wp == active[k] && all[k] == (pool[wp].no, CStr(pool[wp].expr));
        assert all[..k + 1] == all[..k] + [all[k]];
        assert pool[..][active[k]].next == After(active, k);
        lines := lines + [(pool[wp].no, CStr(pool[wp].expr))];
        wp := pool[wp].next;
        k := k + 1;
      }
      assert all[..k] == all;
    }

    /** `wp_is_toggle`: re-evaluates every active watchpoint with `expr`
        into the token buffer `buf`, in list order, the `success` flag
        carried from one call to the next. `None`: an evaluation failed and
        the assertion stopped the emulator; otherwise whether some value
        changed (the emulator is to stop). Recorded values are not updated. */
    method WpIsToggle(m: Machine, buf: TokenBuffer) returns (r: Option<bool>)
      requires Valid() && buf.Valid()
      modifies buf, buf.tokens
      ensures buf.Valid()
      ensures r == CheckAll(m, Watched())
    {
      ghost var ws := Watched();
      var wp := head;
      var success := false;
      var halt := false;
      ghost var k := 0;
      while wp != Null
        invariant buf.Valid()
        invariant k <= |active| && wp == After(active, k - 1)
        invariant CheckAll(m, ws) == CheckFrom(ExprOn(m), ws[k..], success, halt)
        decreases |active| - k
      {
        var o := buf.Expr(m, CStr(pool[wp].expr), success);
        ghost var rest := ws[k..];
        assert rest[0] == (CStr(pool[wp].expr), pool[wp].oriResult);
        assert ExprOn(m)(rest[0].0, success) == o;
        CheckStep(ExprOn(m), rest, success, halt, o);
        assert rest[1..] == ws[k + 1..];
        if o.Aborted? || !o.success {
          return None;
        }
        success := o.success;
        if pool[wp].oriResult != o.value {
          halt := true;
        }
        wp := pool[wp].next;
        k := k + 1;
      }
      return Some(halt);
    }
  }

  /** After `init_wp_pool`, a watch on `a` takes slot 0 and slot 1 is next
      on the free list. */
  method OneWatch(a: string) returns (wps: Pool)
    requires '\0' !in a && |a| < ExprSize
    ensures fresh(wps) && fresh(wps.pool)
    ensures wps.Valid() && wps.Pristine() && wps.active == [0]
    ensures wps.freeList == Ascending(NrWp)[1..] && wps.pool[1].no == 1
    ensures wps.pool[0].no == 0 && CStr(wps.pool[0].expr) == a
  {
    wps := new Pool();
    wps.InitWpPool();
    assert wps.freeList[0] == 0;
    var ok := wps.NewWatchpoint(a, 0);
  }

  /** As written, deleting the only watch leaves its slot on neither list:
      the active list is empty and the free list lacks slot 0, so only 31
      watchpoints can be created from here on. */
  method LeakedSlot(a: string) returns (wps: Pool)
    requires '\0' !in a && |a| < ExprSize
    ensures wps.Valid() && wps.active == [] && wps.freeList == Ascending(NrWp)[1..]
    ensures 0 !in wps.active + wps.freeList && |wps.active| + |wps.freeList| == NrWp - 1
  {
    wps := OneWatch(a);
    var ok := wps.DeleteWatchpoint(0);
  }

  /** With the slot recycled, deleting the only watch gives back the two
      lists `init_wp_pool` left: no active slot, every slot free in
      ascending order. Slot 0 still holds the text `a`. */
  method RecycledSlot(a: string) returns (wps: Pool)
    requires '\0' !in a && |a| < ExprSize
    ensures wps.Valid() && wps.active == [] && wps.freeList == Ascending(NrWp)
    ensures CStr(wps.pool[0].expr) == a
  {
    wps := OneWatch(a);
    wps.FreeWpRecycling(0);
  }

  /** With the slot recycled, a shorter text `b` put into slot 0 after
      `a` reads back as `b` followed by the rest of `a`: the copy writes no
      terminator. */
  method StaleText(a: string, b: string) returns (wps: Pool)
    requires '\0' !in a && |a| < ExprSize && '\0' !in b && |b| < |a|
    ensures wps.Valid() && wps.active == [0]
    ensures CStr(wps.pool[0].expr) == b + a[|b|..]
  {
    wps := OneWatch(a);
    wps.FreeWpRecycling(0);
    ghost var buf := wps.pool[0].expr;
    assert CStr(buf) == a;
    var ok := wps.NewWatchpoint(b, 0);
    MemcpyText(buf, b);
    CStrDrop(buf, |b|);
  }

  /** A second watch, on `b`, takes slot 1 and goes to the head of the
      active list. */
  method TwoWatches(a: string, b: string) returns (wps: Pool)
    requires '\0' !in a && |a| < ExprSize && '\0' !in b && |b| < ExprSize
    ensures wps.Valid() && wps.active == [1, 0]
    ensures wps.pool[1].no == 1 && CStr(wps.pool[1].expr) == b
    ensures wps.pool[0].no == 0 && CStr(wps.pool[0].expr) == a
  {
    wps := OneWatch(a);
    ghost var first := wps.pool[0];
    var ok := wps.NewWatchpoint(b, 0);
    assert wps.active == [1] + [0];
    assert wps.pool[0] == first;
  }

  /** Display after two creations lists the newest watchpoint first. */
  method NewestFirst(a: string, b: string) returns (lines: seq<(int, string)>)
    requires '\0' !in a && |a| < ExprSize && '\0' !in b && |b| < ExprSize
    ensures lines == [(1, b), (0, a)]
  {
    var wps := TwoWatches(a, b);
    lines := wps.WatchpointDisplay();
    assert |lines| == 2 && lines[0] == (1, b) && lines[1] == (0, a);
    TwoLines(lines, (1, b), (0, a));
  }

  /** A listing of two lines is determined by its two lines. */
  lemma TwoLines(lines: seq<(int, string)>, x: (int, string), y: (int, string))
    requires |lines| == 2 && lines[0] == x && lines[1] == y
    ensures lines == [x, y]
  {
  }
}
