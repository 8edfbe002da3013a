/**
 * String facts the store relies on: the ordering SQLite and Python use for
 * text (code point by code point), decimal digit strings, zero padding as in
 * Python's `{n:04d}`, and ASCII lower-casing.
 */
module Strings {
  import opened Wrappers

  // ---------------------------------------------------------------------------
  // Lexicographic order on strings
  // ---------------------------------------------------------------------------

  /** `a <= b` as Python's `str` comparison and SQLite's BINARY collation order them. */
  predicate LexLe(a: string, b: string)
    ensures a <= b ==> LexLe(a, b)
    ensures |a| > 0 && |b| > 0 && a[0] != b[0] ==> (LexLe(a, b) <==> a[0] < b[0])
  {
    if |a| == 0 then true
    else if |b| == 0 then false
    else if a[0] != b[0] then a[0] < b[0]
    else LexLe(a[1..], b[1..])
  }

  predicate LexLt(a: string, b: string)
  {
    LexLe(a, b) && a != b
  }

  lemma {:induction false} LexLeReflexive(a: string)
    ensures LexLe(a, a)
  {
    if |a| > 0 {
      LexLeReflexive(a[1..]);
    }
  }

  lemma {:induction false} LexLeAntisymmetric(a: string, b: string)
    requires LexLe(a, b) && LexLe(b, a)
    ensures a == b
  {
    if |a| > 0 && |b| > 0 {
      LexLeAntisymmetric(a[1..], b[1..]);
      assert a == [a[0]] + a[1..];
      assert b == [b[0]] + b[1..];
    }
  }

  lemma {:induction false} LexLeTransitive(a: string, b: string, c: string)
    requires LexLe(a, b) && LexLe(b, c)
    ensures LexLe(a, c)
  {
    if |a| > 0 && |b| > 0 && |c| > 0 && a[0] == b[0] && b[0] == c[0] {
      LexLeTransitive(a[1..], b[1..], c[1..]);
    }
  }

  lemma {:induction false} LexLeTotal(a: string, b: string)
    ensures LexLe(a, b) || LexLe(b, a)
  {
    if |a| > 0 && |b| > 0 && a[0] == b[0] {
      LexLeTotal(a[1..], b[1..]);
    }
  }

  /** The four order laws at once, for proofs that need them under quantifiers. */
  lemma LexLeIsTotalOrder()
    ensures forall a: string :: LexLe(a, a)
    ensures forall a: string, b: string :: LexLe(a, b) && LexLe(b, a) ==> a == b
    ensures forall a: string, b: string, c: string :: LexLe(a, b) && LexLe(b, c) ==> LexLe(a, c)
    ensures forall a: string, b: string :: LexLe(a, b) || LexLe(b, a)
  {
    forall a: string ensures LexLe(a, a) {
      LexLeReflexive(a);
    }
    forall a: string, b: string | LexLe(a, b) && LexLe(b, a) ensures a == b {
      LexLeAntisymmetric(a, b);
    }
    forall a: string, b: string, c: string | LexLe(a, b) && LexLe(b, c) ensures LexLe(a, c) {
      LexLeTransitive(a, b, c);
    }
    forall a: string, b: string ensures LexLe(a, b) || LexLe(b, a) {
      LexLeTotal(a, b);
    }
  }

  /** A common first character does not change the order of two strings. */
  lemma LexLeCommonHead(c: char, a: string, b: string)
    ensures LexLe([c] + a, [c] + b) <==> LexLe(a, b)
  {
    assert ([c] + a)[1..] == a;
    assert ([c] + b)[1..] == b;
  }

  // ---------------------------------------------------------------------------
  // Decimal digit strings
  // ---------------------------------------------------------------------------

  predicate IsDigit(c: char)
  {
    '0' <= c <= '9'
  }

  predicate AllDigits(s: string)
  {
    forall i :: 0 <= i < |s| ==> IsDigit(s[i])
  }

  function DigitValue(c: char): nat
    requires IsDigit(c)
  {
    c as int - '0' as int
  }

  function DigitChar(d: nat): (c: char)
    requires d < 10
    ensures IsDigit(c) && DigitValue(c) == d
  {
    ('0' as int + d) as char
  }

  /** The number a string of decimal digits denotes, most significant digit first. */
  function DigitsValue(s: string): nat
    requires AllDigits(s)
  {
    if |s| == 0 then 0 else DigitsValue(s[..|s| - 1]) * 10 + DigitValue(s[|s| - 1])
  }

  function Pow10(k: nat): (p: nat)
    ensures p >= 1
  {
    if k == 0 then 1 else 10 * Pow10(k - 1)
  }

  /**
   * Parsing of a query id's numeric suffix: a non-empty run of decimal digits,
   * anything else fails (the source's `ValueError`).
   */
  function ParseNat(s: string): (r: Option<nat>)
    ensures r.Some? <==> |s| > 0 && AllDigits(s)
  {
    if |s| > 0 && AllDigits(s) then Some(DigitsValue(s)) else None
  }

  /** The shortest decimal representation of `n` (no leading zero unless `n == 0`). */
  function NatToDigits(n: nat): (s: string)
    ensures |s| > 0 && AllDigits(s)
    ensures DigitsValue(s) == n
    ensures s[0] != '0' || n == 0
    ensures n < Pow10(|s|)
    ensures |s| > 1 ==> Pow10(|s| - 1) <= n
  {
    if n < 10 then [DigitChar(n)]
    else
      var p := NatToDigits(n / 10);
      var s := p + [DigitChar(n % 10)];
      assert s[..|s| - 1] == p;
      assert Pow10(|s|) == 10 * Pow10(|p|);
      s
  }

  lemma {:induction false} Pow10Monotone(j: nat, k: nat)
    requires j <= k
    ensures Pow10(j) <= Pow10(k)
  {
    if j < k {
      Pow10Monotone(j, k - 1);
    }
  }

  /** Numbers below 10000 have at most four digits, and only they do. */
  lemma NatToDigitsAtMostFour(n: nat)
    ensures |NatToDigits(n)| <= 4 <==> n < 10000
  {
    var s := NatToDigits(n);
    assert Pow10(4) == 10000;
    if |s| <= 4 {
      Pow10Monotone(|s|, 4);
    } else {
      Pow10Monotone(4, |s| - 1);
    }
  }

  function Zeros(k: nat): (z: string)
    ensures |z| == k
    ensures forall i :: 0 <= i < k ==> z[i] == '0'
  {
    if k == 0 then [] else ['0'] + Zeros(k - 1)
  }

  /** Left-pads with '0' to at least `width` characters, as a format width `0w` does. */
  function ZeroPad(s: string, width: nat): (r: string)
    ensures |r| == if |s| >= width then |s| else width
    ensures r[|r| - |s|..] == s
    ensures forall i :: 0 <= i < |r| - |s| ==> r[i] == '0'
  {
    if |s| >= width then s else Zeros(width - |s|) + s
  }

  /** `n` in decimal, zero-padded to at least `width` digits: Python's `f"{n:0{width}d}"` for `n >= 0`. */
  function FormatPadded(n: nat, width: nat): (s: string)
  {
    ZeroPad(NatToDigits(n), width)
  }

  lemma {:induction false} LeadingZeroValue(s: string)
    requires AllDigits(s)
    ensures AllDigits(['0'] + s) && DigitsValue(['0'] + s) == DigitsValue(s)
  {
    var z := ['0'] + s;
    if |s| > 0 {
      assert z[..|z| - 1] == ['0'] + s[..|s| - 1];
      LeadingZeroValue(s[..|s| - 1]);
    }
  }

  lemma {:induction false} ZerosValue(k: nat, s: string)
    requires AllDigits(s)
    ensures AllDigits(Zeros(k) + s) && DigitsValue(Zeros(k) + s) == DigitsValue(s)
  {
    if k > 0 {
      var rest := Zeros(k - 1) + s;
      ZerosValue(k - 1, s);
      LeadingZeroValue(rest);
      assert Zeros(k) + s == ['0'] + rest;
    } else {
      assert Zeros(k) + s == s;
    }
  }

  /** Padding is undone by parsing: the formatted number parses back to itself. */
  lemma FormatPaddedParses(n: nat, width: nat)
    ensures |FormatPadded(n, width)| >= width
    ensures ParseNat(FormatPadded(n, width)) == Some(n)
  {
    var d := NatToDigits(n);
    var r := FormatPadded(n, width);
    if |d| < width {
      assert r == Zeros(width - |d|) + d;
      ZerosValue(width - |d|, d);
    } else {
      assert r == d;
    }
    assert |r| > 0 && AllDigits(r) && DigitsValue(r) == n;
  }

  /** The value of a digit string split after its first digit. */
  lemma {:induction false} DigitsValueHead(s: string)
    requires |s| > 0 && AllDigits(s)
    ensures DigitsValue(s) == DigitValue(s[0]) * Pow10(|s| - 1) + DigitsValue(s[1..])
  {
    if |s| > 1 {
      var init := s[..|s| - 1];
      DigitsValueHead(init);
      assert init[1..] == s[1..][..|s| - 2];
      assert init[0] == s[0];
      calc {
        DigitsValue(s);
        DigitsValue(init) * 10 + DigitValue(s[|s| - 1]);
        (DigitValue(s[0]) * Pow10(|s| - 2) + DigitsValue(init[1..])) * 10 + DigitValue(s[|s| - 1]);
        DigitValue(s[0]) * (Pow10(|s| - 2) * 10) + (DigitsValue(init[1..]) * 10 + DigitValue(s[|s| - 1]));
        DigitValue(s[0]) * Pow10(|s| - 1) + DigitsValue(s[1..]);
      }
    }
  }

  lemma {:induction false} DigitsValueBound(s: string)
    requires AllDigits(s)
    ensures DigitsValue(s) < Pow10(|s|)
  {
    if |s| > 0 {
      DigitsValueBound(s[..|s| - 1]);
      assert DigitsValue(s[..|s| - 1]) + 1 <= Pow10(|s| - 1);
      assert DigitsValue(s) < (DigitsValue(s[..|s| - 1]) + 1) * 10;
    }
  }

  /** A higher leading digit outweighs any tail shorter than the digit's place value. */
  lemma LeadingDigitDominates(da: nat, db: nat, ra: nat, rb: nat, p: nat)
    requires da < db && ra < p
    ensures da * p + ra < db * p + rb
  {
    calc {
      da * p + ra;
    <
      da * p + p;
    ==
      (da + 1) * p;
    <=
      db * p;
    <=
      db * p + rb;
    }
  }

  /**
   * For digit strings of equal length, string order is numeric order: this is
   * why zero-padded ids sort correctly, and only while they keep one length.
   */
  lemma {:induction false} LexLeDigitsValue(a: string, b: string)
    requires |a| == |b| && AllDigits(a) && AllDigits(b)
    requires LexLe(a, b)
    ensures DigitsValue(a) <= DigitsValue(b)
    ensures a != b ==> DigitsValue(a) < DigitsValue(b)
  {
    if |a| > 0 {
      var p := Pow10(|a| - 1);
      var da, db := DigitValue(a[0]), DigitValue(b[0]);
      var ra, rb := DigitsValue(a[1..]), DigitsValue(b[1..]);
      DigitsValueHead(a);
      DigitsValueHead(b);
      assert DigitsValue(a) == da * p + ra;
      assert DigitsValue(b) == db * p + rb;
      if a[0] == b[0] {
        LexLeDigitsValue(a[1..], b[1..]);
        assert a == [a[0]] + a[1..] && b == [b[0]] + b[1..];
      } else {
        DigitsValueBound(a[1..]);
        LeadingDigitDominates(da, db, ra, rb, p);
      }
    }
  }

  /** Equal-length digit strings are ordered as their values are, in both directions. */
  lemma DigitsOrder(a: string, b: string)
    requires |a| == |b| && AllDigits(a) && AllDigits(b)
    ensures LexLe(a, b) <==> DigitsValue(a) <= DigitsValue(b)
  {
    if LexLe(a, b) {
      LexLeDigitsValue(a, b);
    } else {
      LexLeTotal(a, b);
      LexLeDigitsValue(b, a);
    }
  }

  // ---------------------------------------------------------------------------
  // ASCII lower-casing
  // ---------------------------------------------------------------------------

  function LowerChar(c: char): char
  {
    if 'A' <= c <= 'Z' then (c as int + 32) as char else c
  }

  function LowerAscii(s: string): (r: string)
    ensures |r| == |s|
  {
    seq(|s|, i requires 0 <= i < |s| => LowerChar(s[i]))
  }
}
