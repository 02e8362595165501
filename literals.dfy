/**
 * Number literals: the `strtol(str, NULL, 0)` call of `eval`
 * (nemu/src/monitor/sdb/expr.c:203), as ISO C11 section 7.22.1.4 defines it
 * for base 0: a `0x` or `0X` prefix followed by a hexadecimal digit selects
 * base 16, a leading `0` base 8, anything else base 10; the longest run of
 * digits of that base is converted, and a value above `LONG_MAX`
 * saturates to `LONG_MAX`.
 */
module Literals {
  import opened Words

  /** `LONG_MAX` of the 64-bit C `long`. */
  const LongMax: nat := 0x7fff_ffff_ffff_ffff

  /** The value of a digit character in bases up to 16; 16 for anything
      that is a digit in no such base. */
  function DigitValue(c: char): nat {
    if '0' <= c <= '9' then c as nat - '0' as nat
    else if 'a' <= c <= 'f' then c as nat - 'a' as nat + 10
    else if 'A' <= c <= 'F' then c as nat - 'A' as nat + 10
    else 16
  }

  predicate IsDigit(c: char, base: nat) {
    DigitValue(c) < base
  }

  /** The digit character of a value below 16 (lower-case letters). */
  function DigitChar(d: nat): (c: char)
    requires d < 16
    ensures DigitValue(c) == d
  {
    if d < 10 then ('0' as nat + d) as char else ('a' as nat + d - 10) as char
  }

  /** Number of consecutive `base` digits of `s` from index `from` on. */
  function DigitRun(s: string, from: nat, base: nat): (n: nat)
    requires from <= |s|
    ensures from + n <= |s|
    decreases |s| - from
  {
    if from == |s| || !IsDigit(s[from], base) then 0 else 1 + DigitRun(s, from + 1, base)
  }

  /** The value of a string of digits in `base`, most significant first. */
  function ParseDigits(t: string, base: nat): nat {
    if t == [] then 0 else ParseDigits(t[..|t| - 1], base) * base + DigitValue(t[|t| - 1])
  }

  /** A value as a C `long` after `strtol`'s overflow check: at most `LONG_MAX`. */
  function Saturate(v: nat): nat {
    if v <= LongMax then v else LongMax
  }

  /** `s` starts with `0x` or `0X` followed by a hexadecimal digit. */
  predicate HexPrefix(s: string) {
    3 <= |s| && s[0] == '0' && (s[1] == 'x' || s[1] == 'X') && IsDigit(s[2], 16)
  }

  /** `strtol(s, NULL, 0)` on a string with no leading white space or sign. */
  function Strtol(s: string): (v: nat)
    ensures v <= LongMax
  {
    if HexPrefix(s) then Saturate(ParseDigits(s[2..2 + DigitRun(s, 2, 16)], 16))
    else if 1 <= |s| && s[0] == '0' then Saturate(ParseDigits(s[..DigitRun(s, 0, 8)], 8))
    else Saturate(ParseDigits(s[..DigitRun(s, 0, 10)], 10))
  }

  /** The literal's value as `word_t`: the `long` result converted to 64 bits. */
  function LiteralValue(s: string): Word {
    Strtol(s)
  }

  /** The digits of `n` in `base`, most significant first, without leading zeros. */
  function Digits(n: nat, base: nat): (t: string)
    requires 2 <= base <= 16
    ensures 1 <= |t|
    ensures forall k :: 0 <= k < |t| ==> IsDigit(t[k], base)
    decreases n
  {
    if n < base then [DigitChar(n)]
    else
      DivMod(n, base);
      Digits(n / base, base) + [DigitChar(n % base)]
  }

  /** Reading back the digits of `n` gives `n`. */
  lemma {:induction false} ParseDigitsOf(n: nat, base: nat)
    requires 2 <= base <= 16
    ensures ParseDigits(Digits(n, base), base) == n
    decreases n
  {
    var t := Digits(n, base);
    if n < base {
      assert t[..0] == [];
    } else {
      var q, d := n / base, n % base;
      DivMod(n, base);
      ParseDigitsOf(q, base);
      assert t[..|t| - 1] == Digits(q, base);
      assert DigitValue(t[|t| - 1]) == d;
      assert ParseDigits(t, base) == q * base + d;
      assert n == q * base + d;
    }
  }

  lemma DivMod(n: nat, base: nat)
    requires 2 <= base <= n
    ensures n == (n / base) * base + n % base && n / base < n
  {
  }

  /** A run over a string of digits covers all of it. */
  lemma {:induction false} DigitRunAll(s: string, from: nat, base: nat)
    requires from <= |s|
    requires forall k :: from <= k < |s| ==> IsDigit(s[k], base)
    ensures DigitRun(s, from, base) == |s| - from
    decreases |s| - from
  {
    if from < |s| {
      DigitRunAll(s, from + 1, base);
    }
  }

  /** `strtol` reads the hexadecimal digits of `n` after `0x` as `n`, saturated. */
  lemma StrtolHex(n: nat)
    ensures Strtol("0x" + Digits(n, 16)) == Saturate(n)
  {
    var s := "0x" + Digits(n, 16);
    assert s[2] == Digits(n, 16)[0];
    assert forall k :: 2 <= k < |s| ==> s[k] == Digits(n, 16)[k - 2];
    DigitRunAll(s, 2, 16);
    assert s[2..|s|] == Digits(n, 16);
    ParseDigitsOf(n, 16);
  }

  /** `strtol` reads the octal digits of `n` after a `0` as `n`, saturated. */
  lemma StrtolOctal(n: nat)
    ensures Strtol("0" + Digits(n, 8)) == Saturate(n)
  {
    var s := "0" + Digits(n, 8);
    assert !HexPrefix(s) by {
      if 3 <= |s| { assert s[1] == Digits(n, 8)[0]; }
    }
    assert forall k :: 1 <= k < |s| ==> s[k] == Digits(n, 8)[k - 1];
    DigitRunAll(s, 0, 8);
    assert s[..|s|] == s;
    ParseDigitsOf(n, 8);
    LeadingZero(Digits(n, 8), 8);
  }

  /** A leading zero does not change the value of a string of digits. */
  lemma {:induction false} LeadingZero(t: string, base: nat)
    ensures ParseDigits("0" + t, base) == ParseDigits(t, base)
    decreases |t|
  {
    if t == [] {
      assert ("0" + t)[..0] == [];
    } else {
      assert ("0" + t)[..|"0" + t| - 1] == "0" + t[..|t| - 1];
      LeadingZero(t[..|t| - 1], base);
    }
  }

  /** `strtol` reads the decimal digits of a positive `n` as `n`, saturated. */
  lemma StrtolDecimal(n: nat)
    requires 0 < n
    ensures Strtol(Digits(n, 10)) == Saturate(n)
  {
    var s := Digits(n, 10);
    LeadingDigit(n, 10);
    DigitRunAll(s, 0, 10);
    assert s[..|s|] == s;
    ParseDigitsOf(n, 10);
  }

  /** The first digit of a positive number is not `0`. */
  lemma {:induction false} LeadingDigit(n: nat, base: nat)
    requires 2 <= base <= 16 && 0 < n
    ensures Digits(n, base)[0] != '0'
    decreases n
  {
    if n < base {
      assert DigitValue(Digits(n, base)[0]) == n;
    } else {
      var q := n / base;
      DivMod(n, base);
      assert 0 < q;
      LeadingDigit(q, base);
      assert Digits(n, base)[0] == Digits(q, base)[0];
    }
  }

  /** A decimal-looking token with a leading zero is read in octal. */
  lemma StrtolOctalExample()
    ensures Strtol("010") == 8
  {
    assert DigitRun("010", 0, 8) == 3;
    assert "010"[..3] == "010" && "010"[..2] == "01" && "01"[..1] == "0" && "0"[..0] == "";
    assert ParseDigits("01", 8) == 1;
  }

  /** Octal conversion stops at the first digit that is not octal. */
  lemma StrtolStopExample()
    ensures Strtol("09") == 0
  {
    assert DigitRun("09", 0, 8) == 1;
    assert "09"[..1] == "0" && "0"[..0] == "";
  }

  /** A one-digit literal is its digit. */
  lemma StrtolDigit(d: nat)
    requires d < 10
    ensures Strtol([DigitChar(d)]) == d
  {
    var s := [DigitChar(d)];
    assert s[..1] == s && s[..0] == [];
    assert ParseDigits(s, 10) == d && ParseDigits(s, 8) == d;
    if d == 0 {
      assert DigitRun(s, 0, 8) == 1;
    } else {
      assert DigitRun(s, 0, 10) == 1;
    }
  }
}
