/** Binary digit strings as binary_fractions.py handles them: the digits of
    Python's `bin(n)[2:]`, padding with '0' on either side (`rjust`, `ljust`),
    the base-2 reading of a digit string, and the w low-order digits of a
    number. */
module Bits {

  function Pow2(n: nat): (r: nat)
    ensures r >= 1
  {
    if n == 0 then 1 else 2 * Pow2(n - 1)
  }

  /** The character Python writes for one binary digit. */
  function Digit(b: bool): char
  {
    if b then '1' else '0'
  }

  predicate IsBinary(s: string)
  {
    forall k :: 0 <= k < |s| ==> s[k] == '0' || s[k] == '1'
  }

  function Zeros(k: nat): (s: string)
  {
    seq(k, _ => '0')
  }

  /** `s.rjust(w, "0")`: zeros added on the left up to width w. */
  function RJust(s: string, w: nat): string
  {
    if |s| < w then Zeros(w - |s|) + s else s
  }

  /** `rjust` keeps s at the right end and fills the places before it with
      '0', up to width w. */
  lemma RJustPads(s: string, w: nat)
    ensures |RJust(s, w)| == if |s| < w then w else |s|
    ensures RJust(s, w)[|RJust(s, w)| - |s|..] == s
    ensures forall k :: 0 <= k < |RJust(s, w)| - |s| ==> RJust(s, w)[k] == '0'
  {
  }

  /** `s.ljust(w, "0")`: zeros added on the right up to width w. */
  function LJust(s: string, w: nat): (r: string)
    ensures |r| == if |s| < w then w else |s|
    ensures r[..|s|] == s
    ensures forall k :: |s| <= k < |r| ==> r[k] == '0'
  {
    if |s| < w then s + Zeros(w - |s|) else s
  }

  /** The digits of `bin(n)[2:]`: no leading zero, and "0" for zero. Its
      length is the number of binary digits of n (Python's `n.bit_length()`,
      except that zero has one digit). */
  function Binary(n: nat): (s: string)
    ensures |s| >= 1
  {
    if n < 2 then [Digit(n == 1)] else Binary(n / 2) + [Digit(n % 2 == 1)]
  }

  /** bin() writes only binary digits, starts with '1' unless n is zero, and
      uses as many digits as n needs: 2^(len-1) <= n < 2^len, for n >= 1. */
  lemma {:induction false} BinaryDigits(n: nat)
    ensures IsBinary(Binary(n))
    ensures n < Pow2(|Binary(n)|)
    ensures |Binary(n)| > 1 ==> Pow2(|Binary(n)| - 1) <= n
    ensures Binary(n)[0] == '1' <==> n >= 1
    decreases n
  {
    if n >= 2 {
      BinaryDigits(n / 2);
    }
  }

  /** The base-2 reading of a digit string (as `int(s, 2)` reads it). */
  function Value(s: string): nat
  {
    if s == [] then 0
    else 2 * Value(s[..|s| - 1]) + (if s[|s| - 1] == '1' then 1 else 0)
  }

  /** The w low-order binary digits of n, most significant first. */
  function Fixed(n: nat, w: nat): (s: string)
    ensures |s| == w && IsBinary(s)
  {
    if w == 0 then [] else Fixed(n / 2, w - 1) + [Digit(n % 2 == 1)]
  }

  /** Index of the first position at or after k where a and b differ, or |a|. */
  function FirstDiff(a: string, b: string, k: nat): (p: nat)
    requires |a| == |b| && k <= |a|
    ensures k <= p <= |a|
    ensures forall m :: k <= m < p ==> a[m] == b[m]
    ensures p < |a| ==> a[p] != b[p]
    decreases |a| - k
  {
    if k == |a| then k else if a[k] != b[k] then k else FirstDiff(a, b, k + 1)
  }

  /** a comes before b in lexicographic order, over the digits '0' < '1'. */
  predicate LexBelow(a: string, b: string)
    requires |a| == |b|
  {
    var p := FirstDiff(a, b, 0);
    p < |a| && a[p] == '0' && b[p] == '1'
  }

  lemma {:induction false} Pow2Add(a: nat, b: nat)
    ensures Pow2(a + b) == Pow2(a) * Pow2(b)
  {
    if b > 0 {
      Pow2Add(a, b - 1);
      assert Pow2(a + b) == 2 * Pow2(a + b - 1);
    }
  }

  lemma {:induction false} Pow2Monotone(a: nat, b: nat)
    requires a <= b
    ensures Pow2(a) <= Pow2(b)
  {
    if a < b {
      Pow2Monotone(a, b - 1);
    }
  }

  /** A fixed-width rendering of n reads back as n when n fits the width. */
  lemma {:induction false} ValueOfFixed(n: nat, w: nat)
    requires n < Pow2(w)
    ensures Value(Fixed(n, w)) == n
  {
    if w > 0 {
      var s := Fixed(n, w);
      assert s[..|s| - 1] == Fixed(n / 2, w - 1);
      ValueOfFixed(n / 2, w - 1);
    }
  }

  /** Filling the width exactly, the fixed-width rendering is bin()'s. */
  lemma {:induction false} BinaryIsFixed(n: nat)
    ensures Fixed(n, |Binary(n)|) == Binary(n)
    decreases n
  {
    if n >= 2 {
      BinaryIsFixed(n / 2);
    }
  }

  /** bin() reads back as the number it renders. */
  lemma {:induction false} BinaryValue(n: nat)
    ensures Value(Binary(n)) == n
  {
    BinaryIsFixed(n);
    BinaryDigits(n);
    ValueOfFixed(n, |Binary(n)|);
  }

  /** Splitting off the leading digit of a (w+1)-digit rendering: it is '1'
      exactly when n >= 2^w, and the rest renders n without that digit. */
  lemma {:induction false} FixedHead(n: nat, w: nat)
    requires n < 2 * Pow2(w)
    ensures Fixed(n, w + 1)
         == [Digit(n >= Pow2(w))] + Fixed(if n >= Pow2(w) then n - Pow2(w) else n, w)
  {
    if w > 0 {
      FixedHead(n / 2, w - 1);
      var m := if n >= Pow2(w) then n - Pow2(w) else n;
      assert m / 2 == (if n / 2 >= Pow2(w - 1) then n / 2 - Pow2(w - 1) else n / 2);
      assert m % 2 == n % 2;
    }
  }

  /** Shifting a digit in on the right appends it to the rendering. */
  lemma FixedShiftIn(n: nat, w: nat, b: bool)
    ensures Fixed(2 * n + (if b then 1 else 0), w + 1) == Fixed(n, w) + [Digit(b)]
  {
  }

  /** A rendering wider than bin()'s is bin()'s with leading zeros. */
  lemma {:induction false} FixedIsPaddedBinary(n: nat, w: nat)
    requires |Binary(n)| <= w
    ensures Fixed(n, w) == Zeros(w - |Binary(n)|) + Binary(n)
  {
    var b := Binary(n);
    BinaryDigits(n);
    if w == |b| {
      BinaryIsFixed(n);
      assert Zeros(0) + b == b;
    } else {
      Pow2Monotone(|b|, w - 1);
      FixedHead(n, w - 1);
      FixedIsPaddedBinary(n, w - 1);
      assert Zeros(w - |b|) == ['0'] + Zeros(w - 1 - |b|);
    }
  }

  lemma {:induction false} ValueOfZeros(k: nat)
    ensures Value(Zeros(k)) == 0
  {
    if k > 0 {
      assert Zeros(k)[..k - 1] == Zeros(k - 1);
      ValueOfZeros(k - 1);
    }
  }

  /** Leading zeros do not change the base-2 reading. */
  lemma {:induction false} ValueLeadingZeros(k: nat, s: string)
    ensures Value(Zeros(k) + s) == Value(s)
    decreases |s|
  {
    if s == [] {
      assert Zeros(k) + s == Zeros(k);
      ValueOfZeros(k);
    } else {
      var t := Zeros(k) + s;
      assert t[..|t| - 1] == Zeros(k) + s[..|s| - 1];
      ValueLeadingZeros(k, s[..|s| - 1]);
    }
  }

  /** Trailing zeros multiply the base-2 reading by a power of two. */
  lemma {:induction false} ValueTrailingZeros(s: string, k: nat)
    ensures Value(s + Zeros(k)) == Value(s) * Pow2(k)
  {
    if k == 0 {
      assert s + Zeros(0) == s;
    } else {
      var t := s + Zeros(k);
      assert t[..|t| - 1] == s + Zeros(k - 1) && t[|t| - 1] == '0';
      assert Value(t) == 2 * Value(s + Zeros(k - 1));
      ValueTrailingZeros(s, k - 1);
      assert Pow2(k) == 2 * Pow2(k - 1);
      DoubleProduct(Value(s), Pow2(k - 1));
    }
  }

  lemma DoubleProduct(v: nat, p: nat)
    ensures 2 * (v * p) == v * (2 * p)
  {
  }

  lemma {:induction false} ValueBound(s: string)
    ensures Value(s) < Pow2(|s|)
  {
    if s != [] {
      ValueBound(s[..|s| - 1]);
    }
  }

  /** The base-2 reading, split at the first digit instead of the last. */
  lemma {:induction false} ValueFront(s: string)
    requires |s| >= 1
    ensures Value(s) == (if s[0] == '1' then Pow2(|s| - 1) else 0) + Value(s[1..])
  {
    if |s| > 1 {
      var init := s[..|s| - 1];
      ValueFront(init);
      assert init[1..] == s[1..][..|s| - 2];
    }
  }

  /** On binary strings of one length, lexicographic order from position k
      on is the order of their base-2 readings. */
  lemma {:induction false} LexBelowFrom(a: string, b: string, k: nat)
    requires |a| == |b| && k <= |a| && IsBinary(a) && IsBinary(b)
    ensures (var p := FirstDiff(a, b, k); p < |a| && a[p] == '0' && b[p] == '1')
        <==> Value(a[k..]) < Value(b[k..])
    decreases |a| - k
  {
    if k < |a| {
      ValueFront(a[k..]);
      ValueFront(b[k..]);
      assert a[k..][1..] == a[k + 1..];
      assert b[k..][1..] == b[k + 1..];
      ValueBound(a[k + 1..]);
      ValueBound(b[k + 1..]);
      if a[k] == b[k] {
        LexBelowFrom(a, b, k + 1);
      }
    }
  }

  lemma LexBelowIsValueOrder(a: string, b: string)
    requires |a| == |b| && IsBinary(a) && IsBinary(b)
    ensures LexBelow(a, b) <==> Value(a) < Value(b)
  {
    LexBelowFrom(a, b, 0);
    assert a[0..] == a && b[0..] == b;
  }
}
