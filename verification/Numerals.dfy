/** Printing and parsing integers the way strconv and fmt do. */
module Numerals {
  import opened Common

  const INT64_MAX: int := 0x7FFF_FFFF_FFFF_FFFF
  const INT64_MIN: int := -0x8000_0000_0000_0000

  predicate IsInt64(n: int) { INT64_MIN <= n <= INT64_MAX }

  function DigitChar(d: nat): char
    requires d < 16
  {
    "0123456789abcdef"[d]
  }

  /** The value of a digit of any base up to 16; 16 for other characters. */
  function DigitValue(c: char): nat {
    if '0' <= c <= '9' then c as int - '0' as int
    else if 'a' <= c <= 'f' then c as int - 'a' as int + 10
    else if 'A' <= c <= 'F' then c as int - 'A' as int + 10
    else 16
  }

  /** Digits are printed in small letters, read in either, and nothing else is a digit. */
  lemma DigitsAndLetters(c: char, d: nat)
    requires d < 16
    ensures DigitChar(d) == if d < 10 then '0' + d as char else 'a' + (d - 10) as char
    ensures DigitValue(c) == d <==> c == DigitChar(d) || (10 <= d && c == 'A' + (d - 10) as char)
  {
  }

  predicate AllDigits(s: string, base: nat) { forall i :: 0 <= i < |s| ==> DigitValue(s[i]) < base }

  /** The bases in use. */
  predicate IsBase(base: nat) { base == 10 || base == 16 }

  function Times(base: nat, n: nat): nat { if base == 10 then 10 * n else 16 * n }

  function Quotient(n: nat, base: nat): nat { if base == 10 then n / 10 else n / 16 }

  function Remainder(n: nat, base: nat): (r: nat)
    ensures IsBase(base) ==> r < base && Times(base, Quotient(n, base)) + r == n
  {
    if base == 10 then n % 10 else n % 16
  }

  /** strconv.FormatInt for a natural number, without leading zeros. */
  function Print(n: nat, base: nat): string
    requires IsBase(base)
  {
    if n < base then [DigitChar(n)] else Print(Quotient(n, base), base) + [DigitChar(Remainder(n, base))]
  }

  function Value(s: string, base: nat): nat
    requires AllDigits(s, base)
  {
    if s == [] then 0 else Times(base, Value(s[..|s| - 1], base)) + DigitValue(s[|s| - 1])
  }

  /** strconv.ParseInt(s, base, 64) */
  function ParseInt64(s: string, base: nat): Option<int>
    requires IsBase(base)
  {
    var negative := s != [] && s[0] == '-';
    var digits := if s != [] && (s[0] == '-' || s[0] == '+') then s[1..] else s;
    if digits == [] || !AllDigits(digits, base) then None
    else
      var v: int := Value(digits, base);
      var n := if negative then -v else v;
      if IsInt64(n) then Some(n) else None
  }

  function Zeros(k: nat): string { seq(k, _ => '0') }

  /** Left padding with zeros to a width. */
  function Pad(s: string, width: nat): string {
    if |s| < width then Zeros(width - |s|) + s else s
  }

  function Pow(b: nat, k: nat): nat { if k == 0 then 1 else Times(b, Pow(b, k - 1)) }

  // ----- Printing and reading back -----

  lemma {:induction false} ValueOfPrint(n: nat, base: nat)
    requires IsBase(base)
    ensures AllDigits(Print(n, base), base) && Print(n, base) != []
    ensures Value(Print(n, base), base) == n
    ensures n > 0 ==> DigitValue(Print(n, base)[0]) > 0
  {
    if n >= base {
      var q, r := Quotient(n, base), Remainder(n, base);
      ValueOfPrint(q, base);
      PrintedDigits(Print(q, base), q, r, base);
    } else {
      DigitRoundTrip(n);
      assert [DigitChar(n)][..0] == [];
    }
  }

  lemma {:induction false} ValueOfLast(init: string, c: char, base: nat)
    requires IsBase(base) && AllDigits(init, base) && DigitValue(c) < base
    ensures AllDigits(init + [c], base) && Value(init + [c], base) == Times(base, Value(init, base)) + DigitValue(c)
  {
    assert (init + [c])[..|init|] == init;
  }

  lemma {:induction false} PrintedDigits(init: string, q: nat, r: nat, base: nat)
    requires IsBase(base) && r < base
    requires init != [] && AllDigits(init, base) && Value(init, base) == q && DigitValue(init[0]) > 0
    ensures var s := init + [DigitChar(r)];
            AllDigits(s, base) && Value(s, base) == Times(base, q) + r && DigitValue(s[0]) > 0
  {
    DigitRoundTrip(r);
    ValueOfLast(init, DigitChar(r), base);
  }

  lemma DigitRoundTrip(d: nat)
    requires d < 16
    ensures DigitValue(DigitChar(d)) == d
  {
  }

  lemma {:induction false} ValueOfZeros(k: nat, s: string, base: nat)
    requires IsBase(base) && AllDigits(s, base)
    ensures AllDigits(Zeros(k) + s, base) && Value(Zeros(k) + s, base) == Value(s, base)
    decreases k + |s|
  {
    var t := Zeros(k) + s;
    if s != [] {
      ValueOfZeros(k, s[..|s| - 1], base);
      assert t[..|t| - 1] == Zeros(k) + s[..|s| - 1];
    } else if k > 0 {
      ValueOfZeros(k - 1, [], base);
      assert t[..|t| - 1] == Zeros(k - 1) + [];
    }
  }

  lemma {:induction false} ValueIsBounded(s: string, base: nat)
    requires IsBase(base) && AllDigits(s, base)
    ensures Value(s, base) < Pow(base, |s|)
  {
    if s != [] {
      var init := s[..|s| - 1];
      ValueIsBounded(init, base);
    }
  }

  /** Splitting off the first digit. */
  lemma {:induction false} ValueOfFirst(s: string, base: nat)
    requires IsBase(base) && s != [] && AllDigits(s, base)
    ensures Value(s, base) == DigitValue(s[0]) * Pow(base, |s| - 1) + Value(s[1..], base)
  {
    if |s| == 1 {
      assert s[..0] == [] && s[1..] == [];
    } else {
      var init, rest := s[..|s| - 1], s[1..];
      ValueOfFirst(init, base);
      assert init[1..] == rest[..|rest| - 1];
      ValueStep(DigitValue(s[0]), Pow(base, |s| - 2), Value(init[1..], base), DigitValue(s[|s| - 1]), base);
    }
  }

  /** One more digit at the end. */
  lemma ValueStep(d: nat, p: nat, v: nat, last: nat, base: nat)
    ensures Times(base, d * p + v) + last == d * Times(base, p) + (Times(base, v) + last)
  {
    Distribute(d, p, v, base);
  }

  lemma Distribute(d: nat, p: nat, v: nat, base: nat)
    ensures Times(base, d * p + v) == d * Times(base, p) + Times(base, v)
  {
  }

  /** A numeral without leading zero has more digits than another only if its value is larger. */
  lemma {:induction false} PrintLength(n: nat, base: nat, k: nat)
    requires IsBase(base) && k >= 1
    ensures |Print(n, base)| <= k <==> n < Pow(base, k)
  {
    if k == 1 {
      assert Pow(base, 1) == Times(base, Pow(base, 0)) == base;
    } else {
      PrintLength(Quotient(n, base), base, k - 1);
      PowAtLeastOne(base, k - 1);
    }
  }

  lemma {:induction false} PowAtLeastOne(b: nat, k: nat)
    ensures Pow(b, k) >= 1
  {
    if k > 0 {
      PowAtLeastOne(b, k - 1);
    }
  }
}
