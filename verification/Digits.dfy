/** Printing and parsing of unsigned integers in base 10 and 16, and the order of strings. */
module Digits {
  import opened Basics

  predicate IsBase(base: nat) {
    base == 10 || base == 16
  }

  // The two bases are told apart here, so that all arithmetic below is by constants.

  function Times(n: nat, base: nat): nat
    requires IsBase(base)
  {
    if base == 16 then 16 * n else 10 * n
  }

  function Quotient(n: nat, base: nat): nat
    requires IsBase(base)
  {
    if base == 16 then n / 16 else n / 10
  }

  function LowDigit(n: nat, base: nat): nat
    requires IsBase(base)
  {
    if base == 16 then n % 16 else n % 10
  }

  function DigitChar(d: nat, upper: bool): char
    requires d < 16
  {
    if d < 10 then '0' + (d as char)
    else if upper then 'A' + ((d - 10) as char)
    else 'a' + ((d - 10) as char)
  }

  /** The digit a character stands for in a base, whatever its case. */
  function DigitValue(c: char, base: nat): (r: Option<nat>)
    ensures r.Some? ==> r.value < base
  {
    var v := if '0' <= c <= '9' then (c - '0') as nat
             else if 'a' <= c <= 'f' then (c - 'a') as nat + 10
             else if 'A' <= c <= 'F' then (c - 'A') as nat + 10
             else base;
    if v < base then Some(v) else None
  }

  lemma DigitValueOfChar(d: nat, upper: bool, base: nat)
    requires IsBase(base) && d < base
    ensures DigitValue(DigitChar(d, upper), base) == Some(d)
  {
  }

  function Pow(base: nat, w: nat): nat
    requires IsBase(base)
  {
    if w == 0 then 1 else Times(Pow(base, w - 1), base)
  }

  /** Shortest representation, as Rust's `{}`, `{:x}` and `{:X}`. */
  function Print(n: nat, base: nat, upper: bool): string
    requires IsBase(base)
  {
    if n < base then [DigitChar(n, upper)]
    else Print(Quotient(n, base), base, upper) + [DigitChar(LowDigit(n, base), upper)]
  }

  function Zeros(k: nat): string {
    seq(k, _ => '0')
  }

  /** At least `w` characters, padded with zeros on the left, as Rust's `{:0w}`. */
  function Padded(n: nat, w: nat, base: nat, upper: bool): string
    requires IsBase(base)
  {
    var s := Print(n, base, upper);
    Zeros(SaturatingSub(w, |s|)) + s
  }

  /** Exactly `w` digits: the last `w` of the number. */
  function Fixed(n: nat, w: nat, base: nat, upper: bool): (s: string)
    requires IsBase(base)
    ensures |s| == w
  {
    if w == 0 then "" else Fixed(Quotient(n, base), w - 1, base, upper) + [DigitChar(LowDigit(n, base), upper)]
  }

  /** The number a string of digits denotes; none if a character is not a digit. */
  function Value(s: string, base: nat): Option<nat>
    requires IsBase(base)
  {
    if s == "" then Some(0)
    else
      var high := Value(s[..|s| - 1], base);
      var low := DigitValue(s[|s| - 1], base);
      if high.None? || low.None? then None else Some(Times(high.value, base) + low.value)
  }

  /**
   Rust's `from_str_radix` and `parse` for unsigned integers: one leading plus sign is allowed,
   an empty digit string and a value above `max` are errors.
   */
  function FromStrRadix(s: string, base: nat, max: nat): Option<nat>
    requires IsBase(base)
  {
    var digits := if s != "" && s[0] == '+' then s[1..] else s;
    if digits == "" then None
    else
      var v := Value(digits, base);
      if v.Some? && v.value <= max then v else None
  }

  // ---------------------------------------------------------------- round trips

  lemma ValueSnoc(s: string, c: char, base: nat)
    requires IsBase(base)
    ensures Value(s + [c], base) ==
            if Value(s, base).None? || DigitValue(c, base).None? then None
            else Some(Times(Value(s, base).value, base) + DigitValue(c, base).value)
  {
    assert (s + [c])[..|s + [c]| - 1] == s;
  }

  lemma QuotientBelow(m: nat, w: nat, base: nat)
    requires IsBase(base) && w > 0 && m < Pow(base, w)
    ensures Quotient(m, base) < Pow(base, w - 1)
  {
  }

  lemma Recompose(n: nat, base: nat)
    requires IsBase(base)
    ensures Times(Quotient(n, base), base) + LowDigit(n, base) == n
  {
  }

  lemma {:induction false} ValueOfPrint(n: nat, base: nat, upper: bool)
    requires IsBase(base)
    ensures Value(Print(n, base, upper), base) == Some(n)
  {
    if n < base {
      DigitValueOfChar(n, upper, base);
      ValueSnoc("", DigitChar(n, upper), base);
      assert "" + [DigitChar(n, upper)] == [DigitChar(n, upper)];
    } else {
      DigitValueOfChar(LowDigit(n, base), upper, base);
      ValueOfPrint(Quotient(n, base), base, upper);
      ValueSnoc(Print(Quotient(n, base), base, upper), DigitChar(LowDigit(n, base), upper), base);
      Recompose(n, base);
    }
  }

  lemma {:induction false} FixedOfSmall(k: nat, base: nat, upper: bool)
    requires IsBase(base)
    ensures Fixed(0, k, base, upper) == Zeros(k)
  {
    if k > 0 {
      FixedOfSmall(k - 1, base, upper);
    }
  }

  /** Numbers that fit are padded to exactly their fixed-width form. */
  lemma {:induction false} PaddedIsFixed(n: nat, w: nat, base: nat, upper: bool)
    requires IsBase(base) && w > 0 && n < Pow(base, w)
    ensures Padded(n, w, base, upper) == Fixed(n, w, base, upper)
  {
    if n < base {
      FixedOfSmall(w - 1, base, upper);
      assert Quotient(n, base) == 0 && LowDigit(n, base) == n;
    } else {
      assert w > 1 by { assert Pow(base, 1) == base; }
      QuotientBelow(n, w, base);
      PaddedIsFixed(Quotient(n, base), w - 1, base, upper);
    }
  }

  lemma {:induction false} ValueOfFixed(n: nat, w: nat, base: nat, upper: bool)
    requires IsBase(base) && n < Pow(base, w)
    ensures Value(Fixed(n, w, base, upper), base) == Some(n)
  {
    if w > 0 {
      QuotientBelow(n, w, base);
      ValueOfFixed(Quotient(n, base), w - 1, base, upper);
      DigitValueOfChar(LowDigit(n, base), upper, base);
      ValueSnoc(Fixed(Quotient(n, base), w - 1, base, upper), DigitChar(LowDigit(n, base), upper), base);
      Recompose(n, base);
    }
  }

  /** Every character of a printed number is a digit of its base. */
  lemma {:induction false} PrintIsDigits(n: nat, base: nat, upper: bool)
    requires IsBase(base)
    ensures Print(n, base, upper) != ""
    ensures forall i :: 0 <= i < |Print(n, base, upper)| ==> DigitValue(Print(n, base, upper)[i], base).Some?
  {
    DigitValueOfChar(LowDigit(n, base), upper, base);
    if n >= base {
      PrintIsDigits(Quotient(n, base), base, upper);
    } else {
      DigitValueOfChar(n, upper, base);
    }
  }

  lemma FromStrRadixOfPrint(n: nat, base: nat, upper: bool, max: nat)
    requires IsBase(base) && n <= max
    ensures FromStrRadix(Print(n, base, upper), base, max) == Some(n)
  {
    PrintIsDigits(n, base, upper);
    ValueOfPrint(n, base, upper);
  }

  // ---------------------------------------------------------------- order

  /** Strings compared byte by byte. */
  predicate LexLess(s: string, t: string) {
    t != "" && (s == "" || s[0] < t[0] || (s[0] == t[0] && LexLess(s[1..], t[1..])))
  }

  lemma {:induction false} LexLessOfConcat(a: string, b: string, c: string, d: string)
    requires |a| == |c|
    ensures LexLess(a + b, c + d) <==> LexLess(a, c) || (a == c && LexLess(b, d))
  {
    if a == "" {
      assert a + b == b && c + d == d;
    } else {
      assert (a + b)[1..] == a[1..] + b && (c + d)[1..] == c[1..] + d;
      LexLessOfConcat(a[1..], b, c[1..], d);
    }
  }

  lemma DigitOrder(b: nat, d: nat, upper: bool)
    requires b < 16 && d < 16
    ensures LexLess([DigitChar(b, upper)], [DigitChar(d, upper)]) <==> b < d
    ensures DigitChar(b, upper) == DigitChar(d, upper) <==> b == d
  {
  }

  lemma SnocEquality(a: string, b: char, c: string, d: char)
    ensures a + [b] == c + [d] <==> a == c && b == d
  {
    if a + [b] == c + [d] {
      assert (a + [b])[|a|] == (c + [d])[|c|];
      assert (a + [b])[..|a|] == a && (c + [d])[..|c|] == c;
    }
  }

  lemma QuotientOrder(m: nat, n: nat, base: nat)
    requires IsBase(base)
    ensures m < n <==> Quotient(m, base) < Quotient(n, base) || (Quotient(m, base) == Quotient(n, base) && LowDigit(m, base) < LowDigit(n, base))
  {
  }

  /** Fixed-width numbers compare as strings exactly as they do as numbers. */
  lemma {:induction false} FixedOrder(m: nat, n: nat, w: nat, base: nat, upper: bool)
    requires IsBase(base) && m < Pow(base, w) && n < Pow(base, w)
    ensures LexLess(Fixed(m, w, base, upper), Fixed(n, w, base, upper)) <==> m < n
    ensures Fixed(m, w, base, upper) == Fixed(n, w, base, upper) <==> m == n
  {
    if w > 0 {
      QuotientBelow(m, w, base);
      QuotientBelow(n, w, base);
      FixedOrder(Quotient(m, base), Quotient(n, base), w - 1, base, upper);
      var a, c := Fixed(Quotient(m, base), w - 1, base, upper), Fixed(Quotient(n, base), w - 1, base, upper);
      var b, d := LowDigit(m, base), LowDigit(n, base);
      LexLessOfConcat(a, [DigitChar(b, upper)], c, [DigitChar(d, upper)]);
      DigitOrder(b, d, upper);
      SnocEquality(a, DigitChar(b, upper), c, DigitChar(d, upper));
      QuotientOrder(m, n, base);
      QuotientOrder(n, m, base);
    }
  }
}
