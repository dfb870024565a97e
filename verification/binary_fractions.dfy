/** binary_fractions.py: a number in [0, 1] held as an integer `i` whose
    binary digits, left-padded to `msb + 1` places, are the number's digits
    from the units place on ("0.011" is i = 3, msb = 3). The float copy the
    source keeps beside them (`decimal`) only feeds two `np.isclose` tests;
    here those tests are taken exactly, on the value the digits stand for. */
module BinaryFractions {
  import opened Bits

  datatype Option<T> = None | Some(value: T)

  /** The constructor's float argument, as the constructor's comparisons see
      it: close to 0, close to 1, or, in between, the outcome of each
      `x >= power` test of the digit loop, in order. */
  datatype Input = CloseToZero | CloseToOne | Expansion(decisions: seq<bool>)

  /** Where a fraction stands for the endpoint tests of `get_msb` and `pop_msb`. */
  datatype Position = AtOne | AtZero | Between

  /** What `pop_msb` returns: the bare digit at an endpoint, or the digit it
      shifted out of a fraction strictly between 0 and 1. */
  datatype Popped = Bare(digit: char) | Shifted(digit: char)

  function Max(a: nat, b: nat): nat
  {
    if a < b then b else a
  }

  /** `bin(i)[2:].rjust(msb + 1, "0")` */
  function BinString(i: nat, msb: nat): string
  {
    RJust(Binary(i), msb + 1)
  }

  /** The number a digit string stands for when its first digit is the units
      digit: what `bin_string_to_float` adds up, without rounding. */
  function FractionValue(s: string): real
  {
    if s == [] then 0.0 else (Value(s) as real) / (Pow2(|s| - 1) as real)
  }

  /** The endpoint tests, read exactly: is the represented value 1, or 0?
      (`PositionMeaning` states that this is what the cases mean.) */
  function PositionOf(i: nat, msb: nat): Position
  {
    var len := |BinString(i, msb)|;
    if i == Pow2(len - 1) then AtOne else if i == 0 then AtZero else Between
  }

  /** The endpoint tests compare the represented value with 1 and with 0. */
  lemma PositionMeaning(i: nat, msb: nat)
    ensures PositionOf(i, msb) == AtOne <==> FractionValue(BinString(i, msb)) == 1.0
    ensures PositionOf(i, msb) == AtZero <==> FractionValue(BinString(i, msb)) == 0.0
  {
    BinStringDigits(i, msb);
    RatioIsOne(i, Pow2(|BinString(i, msb)| - 1));
  }

  /** The digit string is bin(i) padded on the left: its length is the larger
      of msb + 1 and the number of digits of i, it holds only '0' and '1', and
      it reads back as i. */
  lemma BinStringDigits(i: nat, msb: nat)
    ensures |BinString(i, msb)| == Max(msb + 1, |Binary(i)|)
    ensures IsBinary(BinString(i, msb))
    ensures Value(BinString(i, msb)) == i
  {
    var b := Binary(i);
    BinaryValue(i);
    BinaryDigits(i);
    if |b| < msb + 1 {
      ValueLeadingZeros(msb + 1 - |b|, b);
    }
  }

  /** When i has at most msb + 1 digits, the digit string is exactly the
      msb + 1 low-order digits of i. */
  lemma BinStringIsFixed(i: nat, msb: nat)
    requires i < Pow2(msb + 1)
    ensures BinString(i, msb) == Fixed(i, msb + 1)
  {
    var b := Binary(i);
    BinaryDigits(i);
    if |b| > msb + 1 {
      Pow2Monotone(msb + 1, |b| - 1);
    }
    FixedIsPaddedBinary(i, msb + 1);
    assert Zeros(0) + b == b;
  }

  /** On a valid fraction (i <= 2^msb) the digit string has msb + 1
      places, and the endpoint tests read i directly: 1 is i = 2^msb, 0 is
      i = 0, and anything else has msb >= 1 and 0 < i < 2^msb. */
  lemma PositionOfValid(i: nat, msb: nat)
    requires i <= Pow2(msb)
    ensures |BinString(i, msb)| == msb + 1
    ensures PositionOf(i, msb) == AtOne <==> i == Pow2(msb)
    ensures PositionOf(i, msb) == AtZero <==> i == 0
    ensures PositionOf(i, msb) == Between <==> 1 <= msb && 0 < i < Pow2(msb)
  {
    assert |BinString(i, msb)| == msb + 1 by {
      BinStringDigits(i, msb);
      BinaryDigits(i);
      if |Binary(i)| > msb + 1 {
        Pow2Monotone(msb + 1, |Binary(i)| - 1);
      }
    }
  }

  /** Strictly between 0 and 1, the digit string has at least two places,
      so `get_msb` can read the second. */
  lemma BetweenHasTwoDigits(i: nat, msb: nat)
    requires PositionOf(i, msb) == Between
    ensures |BinString(i, msb)| >= 2
    ensures BinString(i, msb)[1] == '0' || BinString(i, msb)[1] == '1'
  {
    BinStringDigits(i, msb);
    BinaryDigits(i);
  }

  lemma RatioIsOne(v: nat, d: nat)
    requires d >= 1
    ensures (v as real) / (d as real) == 1.0 <==> v == d
    ensures (v as real) / (d as real) == 0.0 <==> v == 0
  {
  }

  lemma RatioOrder(v: nat, w: nat, d: nat)
    requires d >= 1
    ensures v < w <==> (v as real) / (d as real) < (w as real) / (d as real)
  {
  }

  lemma RatioCancel(v: nat, d: nat, e: nat)
    requires d >= 1 && e >= 1
    ensures ((v * e) as real) / ((d * e) as real) == (v as real) / (d as real)
  {
  }

  /** Two different pairs of a valid fraction never render alike. */
  lemma BinStringInjective(i1: nat, msb1: nat, i2: nat, msb2: nat)
    requires i1 <= Pow2(msb1) && i2 <= Pow2(msb2)
    ensures BinString(i1, msb1) == BinString(i2, msb2) <==> i1 == i2 && msb1 == msb2
  {
    var s1, s2 := BinString(i1, msb1), BinString(i2, msb2);
    assert |s1| == msb1 + 1 && Value(s1) == i1 by {
      PositionOfValid(i1, msb1);
      BinStringDigits(i1, msb1);
    }
    assert |s2| == msb2 + 1 && Value(s2) == i2 by {
      PositionOfValid(i2, msb2);
      BinStringDigits(i2, msb2);
    }
  }

  /** The first two digits of a fraction below 1: the units digit '0', then
      the digit of weight 1/2, which is '1' exactly when i >= 2^(msb-1). */
  lemma {:induction false} LeadingDigits(i: nat, msb: nat)
    requires 1 <= msb && i < Pow2(msb)
    ensures |BinString(i, msb)| == msb + 1
    ensures BinString(i, msb)
         == ['0', Digit(i >= Pow2(msb - 1))]
            + Fixed(if i >= Pow2(msb - 1) then i - Pow2(msb - 1) else i, msb - 1)
  {
    assert Pow2(msb + 1) == 2 * Pow2(msb);
    BinStringIsFixed(i, msb);
    FixedTwoHeads(i, msb);
  }

  lemma FixedTwoHeads(i: nat, msb: nat)
    requires 1 <= msb && i < Pow2(msb)
    ensures Fixed(i, msb + 1)
         == ['0', Digit(i >= Pow2(msb - 1))]
            + Fixed(if i >= Pow2(msb - 1) then i - Pow2(msb - 1) else i, msb - 1)
  {
    FixedHead(i, msb);
    FixedHead(i, msb - 1);
  }

  /** The base-2 value of the loop's decisions: each step shifts left and
      adds the decision. */
  function BitsValue(d: seq<bool>): nat
  {
    if d == [] then 0 else 2 * BitsValue(d[..|d| - 1]) + (if d[|d| - 1] then 1 else 0)
  }

  /** The decisions written as digits. */
  function Chars(d: seq<bool>): string
  {
    seq(|d|, k requires 0 <= k < |d| => Digit(d[k]))
  }

  /** The decisions a float strictly between 0 and 1 can produce: the loop
      runs at least once (its condition is the negation of the first endpoint
      test), the first test `x >= 1` fails (x < 1 here), and the loop stops only
      after a subtraction, so the last decision is a set digit. */
  predicate Expanding(d: seq<bool>)
  {
    |d| >= 1 && !d[0] && d[|d| - 1]
  }

  /** The digit loop's result fits in |d| digits and its |d|-digit
      rendering is exactly its decisions. */
  lemma {:induction false} ExpansionFixed(d: seq<bool>)
    ensures BitsValue(d) < Pow2(|d|)
    ensures Fixed(BitsValue(d), |d|) == Chars(d)
  {
    if d != [] {
      var init := d[..|d| - 1];
      ExpansionFixed(init);
      FixedShiftIn(BitsValue(init), |init|, d[|d| - 1]);
      assert Chars(d) == Chars(init) + [Digit(d[|d| - 1])];
    }
  }

  /** After the digit loop, `get_bin_string` (with msb = steps - 1) renders
      exactly the decisions. */
  lemma {:induction false} ExpansionDigits(d: seq<bool>)
    requires |d| >= 1
    ensures BitsValue(d) < Pow2(|d|)
    ensures BinString(BitsValue(d), |d| - 1) == Chars(d)
  {
    ExpansionFixed(d);
    BinStringIsFixed(BitsValue(d), |d| - 1);
  }

  /** A failed first decision is a leading 0: i < 2^(|d| - 1). */
  lemma {:induction false} LeadingDecision(d: seq<bool>)
    requires |d| >= 1 && !d[0]
    ensures BitsValue(d) < Pow2(|d| - 1)
  {
    var n, w := BitsValue(d), |d| - 1;
    ExpansionFixed(d);
    assert Pow2(w + 1) == 2 * Pow2(w);
    FixedHead(n, w);
    assert Fixed(n, w + 1)[0] == Digit(n >= Pow2(w));
    assert Fixed(n, w + 1)[0] == Chars(d)[0] == '0';
  }

  /** i is odd exactly when the last decision holds. */
  lemma {:induction false} LastDecision(d: seq<bool>)
    requires |d| >= 1
    ensures BitsValue(d) % 2 == 1 <==> d[|d| - 1]
  {
    ShiftParity(BitsValue(d[..|d| - 1]), d[|d| - 1]);
  }

  /** The integer `pop_msb` leaves in place of i on a fraction below 1: the
      digit of weight 2^(msb-1) cleared, everything shifted left, and `upper`
      shifted in as the new last digit. */
  function ShiftedValue(i: nat, msb: nat, upper: bool): nat
    requires 1 <= msb && i < Pow2(msb)
  {
    2 * (if i >= Pow2(msb - 1) then i - Pow2(msb - 1) else i) + (if upper then 1 else 0)
  }

  /** Renormalization on the digits: the string keeps its width, the digit
      of weight 1/2 (the one `get_msb` reports) leaves it, and the new digit
      enters at the end. */
  lemma PopShiftsDigits(i: nat, msb: nat, upper: bool)
    requires 1 <= msb && i < Pow2(msb)
    ensures var s := BinString(i, msb);
            |s| == msb + 1 && s[1] == Digit(i >= Pow2(msb - 1))
            && BinString(ShiftedValue(i, msb, upper), msb) == s[..1] + s[2..] + [Digit(upper)]
  {
    var j := if i >= Pow2(msb - 1) then i - Pow2(msb - 1) else i;
    var n := ShiftedValue(i, msb, upper);
    var s := BinString(i, msb);
    assert |s| == msb + 1 && s[..1] == ['0'] && s[1] == Digit(i >= Pow2(msb - 1))
           && s[2..] == Fixed(j, msb - 1) by {
      LeadingDigits(i, msb);
    }
    assert Pow2(msb) == 2 * Pow2(msb - 1);
    ShiftInDigits(j, msb, upper);
  }

  /** Shifting a digit into a number of msb - 1 digits gives msb + 1 digits:
      a leading '0', the old digits, the new one. */
  lemma ShiftInDigits(j: nat, msb: nat, upper: bool)
    requires 1 <= msb && j < Pow2(msb - 1)
    ensures BinString(2 * j + (if upper then 1 else 0), msb) == ['0'] + Fixed(j, msb - 1) + [Digit(upper)]
  {
    var n := 2 * j + (if upper then 1 else 0);
    assert Pow2(msb) == 2 * Pow2(msb - 1);
    assert Pow2(msb + 1) == 2 * Pow2(msb);
    FixedShiftIn(j, msb, upper);
    FixedHead(n, msb);
    BinStringIsFixed(n, msb);
  }

  /** Renormalization on the number: the result is still below 1, it is odd
      exactly when `upper` holds, and it is twice the old i, less the popped
      digit's weight, plus `upper`. */
  lemma {:induction false} PopShiftsValue(i: nat, msb: nat, upper: bool)
    requires 1 <= msb && i < Pow2(msb)
    ensures ShiftedValue(i, msb, upper) < Pow2(msb)
    ensures ShiftedValue(i, msb, upper) % 2 == 1 <==> upper
    ensures ShiftedValue(i, msb, upper) + (if i >= Pow2(msb - 1) then Pow2(msb) else 0)
         == 2 * i + (if upper then 1 else 0)
  {
    var j := if i >= Pow2(msb - 1) then i - Pow2(msb - 1) else i;
    assert Pow2(msb) == 2 * Pow2(msb - 1);
    ShiftParity(j, upper);
  }

  lemma ShiftParity(j: nat, b: bool)
    ensures (2 * j + (if b then 1 else 0)) % 2 == 1 <==> b
  {
  }

  /** Python's `out[1:]`. */
  function Drop1(s: string): string
  {
    if s == [] then [] else s[1..]
  }

  /** The first position at or after k that does not hold d, or |s|. */
  function FirstNot(s: string, k: nat, d: char): (q: nat)
    requires k <= |s|
    ensures k <= q <= |s|
    ensures forall m :: k <= m < q ==> s[m] == d
    ensures q < |s| ==> s[q] != d
    decreases |s| - k
  {
    if k == |s| then k else if s[k] != d then k else FirstNot(s, k + 1, d)
  }

  /** The outer loop of `shortest_bin_in_interval` from position i on, with
      `out` built so far, as written: a shared digit is copied; at a
      differing digit, "0" is appended and the inner loop `Run` takes over.
      The result is the final `out`. */
  function Scan(lo: string, hi: string, i: nat, out: string): string
    requires |lo| == |hi| && i <= |lo|
    decreases |lo| - i, |lo| + 1
  {
    if i == |lo| then out
    else if lo[i] == hi[i] then Scan(lo, hi, i + 1, out + [lo[i]])
    else Run(lo, hi, i, i, out + "0")
  }

  /** The inner loop from j on: a '1' for each digit of lo, stopping (and
      returning) right after the first digit that is not '1'; if every digit
      up to the end was '1', one more '1' when lo's last digit is '1', and the
      outer loop goes on from i + 1. */
  function Run(lo: string, hi: string, i: nat, j: nat, out: string): string
    requires |lo| == |hi| && i < |lo| && i <= j <= |lo|
    decreases |lo| - i, |lo| - j
  {
    if j == |lo| then Scan(lo, hi, i + 1, if lo[|lo| - 1] == '1' then out + "1" else out)
    else if lo[j] == '1' then Run(lo, hi, i, j + 1, out + "1")
    else out + "1"
  }

  /** `out` of `shortest_bin_in_interval` on two digit strings, padded on the
      right to a common width. */
  function ScanCode(a: string, b: string): string
  {
    var n := Max(|a|, |b|);
    Scan(LJust(a, n), LJust(b, n), 0, [])
  }

  /** For lo below hi, the scan copies the common prefix and, at the first
      differing position p (where lo has '0'), appends "01" and stops: it
      never looks at lo's digits after p. */
  lemma {:induction false} ScanOfOrderedFrom(lo: string, hi: string, k: nat)
    requires |lo| == |hi| && LexBelow(lo, hi) && k <= FirstDiff(lo, hi, 0)
    ensures Scan(lo, hi, k, lo[..k]) == lo[..FirstDiff(lo, hi, 0)] + "01"
    decreases FirstDiff(lo, hi, 0) - k
  {
    var p := FirstDiff(lo, hi, 0);
    if k < p {
      assert lo[..k] + [lo[k]] == lo[..k + 1];
      ScanOfOrderedFrom(lo, hi, k + 1);
    }
  }

  /** `out` for ordered, padded lo and hi: their common prefix, then "01". */
  lemma ScanOfOrdered(lo: string, hi: string)
    requires |lo| == |hi| && LexBelow(lo, hi)
    ensures FirstDiff(lo, hi, 0) < |lo|
    ensures Scan(lo, hi, 0, []) == lo[..FirstDiff(lo, hi, 0)] + "01"
  {
    assert lo[..0] == [];
    ScanOfOrderedFrom(lo, hi, 0);
  }

  /** Right-padding with zeros does not change the represented value. */
  lemma FractionValuePadded(s: string, n: nat)
    requires |s| >= 1
    ensures FractionValue(LJust(s, n)) == FractionValue(s)
  {
    if |s| < n {
      var k := n - |s|;
      var t := LJust(s, n);
      assert t == s + Zeros(k) && |t| - 1 == (|s| - 1) + k;
      ValueTrailingZeros(s, k);
      Pow2Add(|s| - 1, k);
      RatioCancel(Value(s), Pow2(|s| - 1), Pow2(k));
    }
  }

  /** On binary strings of one length, the order of the represented values
      is the lexicographic order. */
  lemma FractionOrder(x: string, y: string)
    requires |x| == |y| >= 1 && IsBinary(x) && IsBinary(y)
    ensures LexBelow(x, y) <==> FractionValue(x) < FractionValue(y)
  {
    LexBelowIsValueOrder(x, y);
    RatioOrder(Value(x), Value(y), Pow2(|x| - 1));
  }

  /** The assertion `lower < upper`, which compares the two numbers, holds
      exactly when lower's digits, right-padded to the common width, come
      lexicographically before upper's. */
  lemma AssertionIsLexOrder(a: string, b: string)
    requires |a| >= 1 && |b| >= 1 && IsBinary(a) && IsBinary(b)
    ensures FractionValue(a) < FractionValue(b)
        <==> LexBelow(LJust(a, Max(|a|, |b|)), LJust(b, Max(|a|, |b|)))
  {
    var n := Max(|a|, |b|);
    FractionValuePadded(a, n);
    FractionValuePadded(b, n);
    FractionOrder(LJust(a, n), LJust(b, n));
  }

  /** What `shortest_bin_in_interval` returns once its assertion holds:
      lower's padded digits up to the first place p where upper's differ,
      then "01", less the units digit. Nothing of lower after p is used. */
  lemma ScanCodeOfOrdered(a: string, b: string)
    requires |a| >= 1 && |b| >= 1 && IsBinary(a) && IsBinary(b)
    requires FractionValue(a) < FractionValue(b)
    ensures var n := Max(|a|, |b|);
            var p := FirstDiff(LJust(a, n), LJust(b, n), 0);
            p < n && Drop1(ScanCode(a, b)) == (LJust(a, n)[..p] + "01")[1..]
  {
    var n := Max(|a|, |b|);
    AssertionIsLexOrder(a, b);
    ScanOfOrdered(LJust(a, n), LJust(b, n));
  }

  /** The code `shortest_bin_in_interval` returns for lower = 0.011 (i = 3,
      msb = 3) and upper = 0.1 (i = 1, msb = 1): "01", that is 0.01, which
      lies BELOW lower. */
  lemma AsWrittenCodeBelowLower()
    ensures BinString(3, 3) == "0011" && BinString(1, 1) == "01"
    ensures FractionValue("0011") < FractionValue("01")
    ensures Drop1(ScanCode("0011", "01")) == "01"
    ensures FractionValue("0" + "01") < FractionValue("0011")
  {
    assert BinString(3, 3) == "0011" by {
      assert Binary(3) == "11";
      assert Zeros(2) == "00";
    }
    assert BinString(1, 1) == "01" by {
      assert Binary(1) == "1";
      assert Zeros(1) == "0";
    }
    assert ScanCode("0011", "01") == "001" by {
      var lo, hi := "0011", "0100";
      assert Zeros(2) == "00";
      assert LJust("01", 4) == hi && LJust(lo, 4) == lo;
      assert Scan(lo, hi, 0, []) == Scan(lo, hi, 1, "0");
      assert Scan(lo, hi, 1, "0") == Run(lo, hi, 1, 1, "00");
    }
    assert "0" + "01" == "001";
    CounterexampleValues();
  }

  /** The three numbers of the counterexample: 0.011 = 3/8, 0.1 = 1/2 and
      0.01 = 1/4. */
  lemma CounterexampleValues()
    ensures FractionValue("0011") == 0.375
    ensures FractionValue("01") == 0.5
    ensures FractionValue("001") == 0.25
  {
    assert Value("00") == 0 by {
      assert "00"[..1] == "0";
    }
    assert Value("001") == 1 by {
      assert "001"[..2] == "00";
    }
    assert Value("0011") == 3 by {
      assert "0011"[..3] == "001";
    }
    assert Value("01") == 1 by {
      assert "01"[..1] == "0";
    }
    assert Pow2(3) == 8 && Pow2(2) == 4 && Pow2(1) == 2;
  }

  /** The code just above lo: keep lo up to its first differing digit p,
      copy lo's '1's after p, and turn the first '0' after p into '1'; if lo
      has only '1's after p, add one '1' past its end. This is the code the
      inner loop of `shortest_bin_in_interval` is built to reach. */
  function LowerSideCode(lo: string, hi: string): string
    requires |lo| == |hi| && LexBelow(lo, hi)
  {
    var q := FirstNot(lo, FirstDiff(lo, hi, 0) + 1, '1');
    if q < |lo| then lo[..q] + "1" else lo + "1"
  }

  /** The shortest code strictly between padded lo and hi. When hi has a
      '1' after the first differing place p, hi's digits through p are one.
      Otherwise hi is those digits followed by zeros, no p + 1 digits lie
      strictly between, and the code is the one just above lo. */
  function ShortestCode(lo: string, hi: string): (c: string)
    requires |lo| == |hi| && LexBelow(lo, hi)
    ensures 1 <= |c| <= |lo| + 1
  {
    var p := FirstDiff(lo, hi, 0);
    if FirstNot(hi, p + 1, '0') < |hi| then hi[..p + 1] else LowerSideCode(lo, hi)
  }

  /** The loops of `shortest_bin_in_interval` as they are evidently meant:
      copy the common prefix; at the first differing place, stop with
      upper's '1' there when upper has another '1' further on; otherwise
      append '0', read lower's digits after the differing one, and stop at
      the first '0', written as '1'. The result is the shortest code. */
  method CorrectedScanLoops(lo: string, hi: string) returns (out: string)
    requires |lo| == |hi| && LexBelow(lo, hi)
    ensures out == ShortestCode(lo, hi)
  {
    var n := |lo|;
    ghost var p := FirstDiff(lo, hi, 0);
    out := "";
    var i := 0;
    while lo[i] == hi[i]
      invariant i <= p && out == lo[..i]
      decreases p - i
    {
      out := out + [lo[i]];
      i := i + 1;
    }
    var k := i + 1;
    while k < n && hi[k] == '0'
      invariant p + 1 <= k <= n
      invariant forall m :: p < m < k ==> hi[m] == '0'
    {
      k := k + 1;
    }
    if k < n {
      assert FirstNot(hi, p + 1, '0') == k;
      assert lo[..p] + "1" == hi[..p + 1];
      out := out + "1";
      return;
    }
    assert FirstNot(hi, p + 1, '0') == n;
    out := out + "0";
    var j := i + 1;
    while j < n
      invariant p + 1 <= j <= n && out == lo[..j]
      invariant forall m :: p < m < j ==> lo[m] == '1'
    {
      out := out + "1";
      if lo[j] != '1' {
        assert FirstNot(lo, p + 1, '1') == j;
        return;
      }
      j := j + 1;
    }
    assert FirstNot(lo, p + 1, '1') == n;
    assert lo[..n] == lo;
    out := out + "1";
  }

  /** a and b agree before p, and a has '0' where b has '1' at p. */
  lemma LexBelowAt(a: string, b: string, p: nat)
    requires |a| == |b| && p < |a| && a[..p] == b[..p] && a[p] == '0' && b[p] == '1'
    ensures LexBelow(a, b)
  {
  }

  /** Binary strings of one length that first differ at k, with '0' in a
      and '1' in b there, stand for a smaller and a larger number. */
  lemma FractionBelowAt(a: string, b: string, k: nat)
    requires |a| == |b| && IsBinary(a) && IsBinary(b)
    requires k < |a| && a[..k] == b[..k] && a[k] == '0' && b[k] == '1'
    ensures FractionValue(a) < FractionValue(b)
  {
    LexBelowAt(a, b, k);
    FractionOrder(a, b);
  }

  /** When lo has a '0' after p, the code just above lo is lo cut before
      that '0', with a '1' in its place: above lo, and still below hi since
      it keeps lo's '0' at p. */
  lemma LowerSideCodeShort(lo: string, hi: string)
    requires |lo| == |hi| && IsBinary(lo) && IsBinary(hi) && LexBelow(lo, hi)
    requires FirstNot(lo, FirstDiff(lo, hi, 0) + 1, '1') < |lo|
    ensures var c := LowerSideCode(lo, hi);
            |c| <= |lo| && IsBinary(c)
            && FractionValue(lo) < FractionValue(c) < FractionValue(hi)
  {
    var n, p := |lo|, FirstDiff(lo, hi, 0);
    var q := FirstNot(lo, p + 1, '1');
    var c := lo[..q] + "1";
    var cp := LJust(c, n);
    assert cp == lo[..q] + "1" + Zeros(n - q - 1);
    assert IsBinary(c) && IsBinary(cp);
    assert FractionValue(lo) < FractionValue(c) by {
      FractionBelowAt(lo, cp, q);
      FractionValuePadded(c, n);
    }
    assert FractionValue(c) < FractionValue(hi) by {
      assert cp[..p] == lo[..p] == hi[..p];
      FractionBelowAt(cp, hi, p);
      FractionValuePadded(c, n);
    }
  }

  /** When lo has only '1's after p, the code just above lo is lo with a
      '1' added at its end: above lo, and below hi since it keeps lo's '0'
      at p. */
  lemma LowerSideCodeLong(lo: string, hi: string)
    requires |lo| == |hi| && IsBinary(lo) && IsBinary(hi) && LexBelow(lo, hi)
    requires FirstNot(lo, FirstDiff(lo, hi, 0) + 1, '1') == |lo|
    ensures var c := LowerSideCode(lo, hi);
            |c| == |lo| + 1 && IsBinary(c)
            && FractionValue(lo) < FractionValue(c) < FractionValue(hi)
  {
    var n, p := |lo|, FirstDiff(lo, hi, 0);
    var c := lo + "1";
    assert IsBinary(c);
    assert FractionValue(lo) < FractionValue(c) by {
      var lo1 := LJust(lo, n + 1);
      assert lo1 == lo + "0" by {
        assert Zeros(1) == "0";
      }
      assert lo1[..n] == c[..n];
      FractionBelowAt(lo1, c, n);
      FractionValuePadded(lo, n + 1);
    }
    assert FractionValue(c) < FractionValue(hi) by {
      var hi1 := LJust(hi, n + 1);
      assert hi1 == hi + "0" by {
        assert Zeros(1) == "0";
      }
      assert c[..p] == lo[..p] == hi[..p] == hi1[..p];
      FractionBelowAt(c, hi1, p);
      FractionValuePadded(hi, n + 1);
    }
  }

  /** When hi has a '1' after p, hi's digits through p lie strictly
      between: above lo, which has '0' at p, and below hi, which goes on
      after p with that '1'. */
  lemma UpperSideCode(lo: string, hi: string)
    requires |lo| == |hi| && IsBinary(lo) && IsBinary(hi) && LexBelow(lo, hi)
    requires FirstNot(hi, FirstDiff(lo, hi, 0) + 1, '0') < |hi|
    ensures var c := hi[..FirstDiff(lo, hi, 0) + 1];
            IsBinary(c) && FractionValue(lo) < FractionValue(c) < FractionValue(hi)
  {
    var n, p := |lo|, FirstDiff(lo, hi, 0);
    var k := FirstNot(hi, p + 1, '0');
    var c := hi[..p + 1];
    var cp := LJust(c, n);
    assert IsBinary(c) && IsBinary(cp);
    assert FractionValue(lo) < FractionValue(c) by {
      assert lo[..p] == cp[..p];
      FractionBelowAt(lo, cp, p);
      FractionValuePadded(c, n);
    }
    assert FractionValue(c) < FractionValue(hi) by {
      assert cp[..k] == hi[..k];
      FractionBelowAt(cp, hi, k);
      FractionValuePadded(c, n);
    }
  }

  /** Once `lower < upper` holds, the shortest code stands for a number
      strictly between lower and upper. */
  lemma ShortestCodeInInterval(a: string, b: string)
    requires |a| >= 1 && |b| >= 1 && IsBinary(a) && IsBinary(b)
    requires FractionValue(a) < FractionValue(b)
    ensures var n := Max(|a|, |b|);
            LexBelow(LJust(a, n), LJust(b, n))
            && var c := ShortestCode(LJust(a, n), LJust(b, n));
            IsBinary(c) && FractionValue(a) < FractionValue(c) < FractionValue(b)
  {
    var n := Max(|a|, |b|);
    var lo, hi := LJust(a, n), LJust(b, n);
    AssertionIsLexOrder(a, b);
    FractionValuePadded(a, n);
    FractionValuePadded(b, n);
    assert IsBinary(lo) && IsBinary(hi);
    var p := FirstDiff(lo, hi, 0);
    if FirstNot(hi, p + 1, '0') < n {
      UpperSideCode(lo, hi);
    } else if FirstNot(lo, p + 1, '1') < n {
      LowerSideCodeShort(lo, hi);
    } else {
      LowerSideCodeLong(lo, hi);
    }
  }

  /** x comes after lo from a place d1 where lo and hi still agree: then x
      is past hi as well. */
  lemma AbovePrefixIsAboveUpper(lo: string, hi: string, x: string)
    requires |lo| == |hi| == |x| && LexBelow(lo, x)
    requires FirstDiff(lo, x, 0) < FirstDiff(lo, hi, 0)
    ensures !LexBelow(x, hi)
  {
    var d1 := FirstDiff(lo, x, 0);
    assert x[d1] != hi[d1];
    assert forall k :: 0 <= k < d1 ==> x[k] == hi[k];
    assert FirstDiff(x, hi, 0) == d1;
  }

  /** No digit string of lo's width that holds only '0' from place m on,
      with m below the shortest code's length, lies strictly between lo and
      hi. */
  lemma NothingShorterPadded(lo: string, hi: string, x: string, m: nat)
    requires |lo| == |hi| == |x| && LexBelow(lo, hi)
    requires m <= |x| && m < |ShortestCode(lo, hi)|
    requires forall k :: m <= k < |x| ==> x[k] == '0'
    ensures !(LexBelow(lo, x) && LexBelow(x, hi))
  {
    var n, p := |lo|, FirstDiff(lo, hi, 0);
    if LexBelow(lo, x) {
      var d1 := FirstDiff(lo, x, 0);
      assert d1 < m;
      if FirstNot(hi, p + 1, '0') < n {
        assert d1 < p;
        AbovePrefixIsAboveUpper(lo, hi, x);
      } else {
        var q := FirstNot(lo, p + 1, '1');
        assert m <= q;
        assert d1 <= p;
        if d1 < p {
          AbovePrefixIsAboveUpper(lo, hi, x);
        } else {
          assert forall k :: 0 <= k <= p ==> x[k] == hi[k];
          assert p < FirstDiff(x, hi, 0);
        }
      }
    }
  }

  /** No digit string shorter than the shortest code stands for a number
      strictly between lower and upper. */
  lemma ShortestCodeMinimal(a: string, b: string, c: string)
    requires |a| >= 1 && |b| >= 1 && |c| >= 1 && IsBinary(a) && IsBinary(b) && IsBinary(c)
    requires FractionValue(a) < FractionValue(b)
    ensures var n := Max(|a|, |b|);
            LexBelow(LJust(a, n), LJust(b, n))
            && (|c| < |ShortestCode(LJust(a, n), LJust(b, n))|
                ==> !(FractionValue(a) < FractionValue(c) < FractionValue(b)))
  {
    var n := Max(|a|, |b|);
    var lo, hi := LJust(a, n), LJust(b, n);
    AssertionIsLexOrder(a, b);
    if |c| < |ShortestCode(lo, hi)| {
      var x := LJust(c, n);
      FractionValuePadded(a, n);
      FractionValuePadded(b, n);
      FractionValuePadded(c, n);
      FractionOrder(lo, x);
      FractionOrder(x, hi);
      NothingShorterPadded(lo, hi, x, |c|);
    }
  }

  class BinaryFraction {
    var i: nat
    var msb: nat

    /** The represented value i / 2^msb is at most 1. */
    ghost predicate Valid()
      reads this
    {
      i <= Pow2(msb)
    }

    /** `__init__`: the endpoints become (0, 0) and (1, 0); otherwise the
        loop shifts i left once per decision, adding 1 where the decision
        holds, and msb is the number of steps less one. */
    constructor (x: Input)
      requires x.Expansion? ==> Expanding(x.decisions)
      ensures Valid()
      ensures x.CloseToZero? ==> i == 0 && msb == 0 && PositionOf(i, msb) == AtZero
      ensures x.CloseToOne? ==> i == 1 && msb == 0 && PositionOf(i, msb) == AtOne
      ensures x.Expansion? ==>
                && i == BitsValue(x.decisions)
                && msb == |x.decisions| - 1
                && GetBinString() == Chars(x.decisions)
                && i % 2 == 1 && i < Pow2(msb)
                && PositionOf(i, msb) == Between
    {
      match x
      case CloseToZero =>
        i, msb := 0, 0;
      case CloseToOne =>
        i, msb := 1, 0;
      case Expansion(d) =>
        var exp := 0;
        var n := 0;
        while exp < |d|
          invariant exp <= |d|
          invariant n == BitsValue(d[..exp])
        {
          assert d[..exp + 1][..exp] == d[..exp];
          n := n * 2;
          if d[exp] {
            n := n + 1;
          }
          exp := exp + 1;
        }
        assert d[..exp] == d;
        ExpansionDigits(d);
        LeadingDecision(d);
        LastDecision(d);
        i, msb := n, exp - 1;
    }

    /** `get_bin_string` */
    function GetBinString(): (s: string)
      reads this
      ensures |s| == Max(msb + 1, |Binary(i)|)
      ensures IsBinary(s) && Value(s) == i
    {
      BinStringDigits(i, msb);
      BinString(i, msb)
    }

    /** `get_msb`: "1" at the endpoint 1, "0" at 0, otherwise the digit of
        weight 1/2; on a valid fraction it is '1' exactly when the value is
        at least 1/2. */
    function GetMsb(): (c: char)
      reads this
      ensures c == '0' || c == '1'
      ensures Valid() ==> (c == '1' <==> 2 * i >= Pow2(msb))
      ensures PositionOf(i, msb) == Between ==> |GetBinString()| >= 2 && c == GetBinString()[1]
    {
      match PositionOf(i, msb)
      case AtOne =>
        assert Valid() ==> i == Pow2(msb) by {
          if Valid() {
            PositionOfValid(i, msb);
          }
        }
        '1'
      case AtZero =>
        assert Valid() ==> i == 0 by {
          if Valid() {
            PositionOfValid(i, msb);
          }
        }
        '0'
      case Between =>
        BetweenHasTwoDigits(i, msb);
        assert Valid() ==> (BinString(i, msb)[1] == '1' <==> 2 * i >= Pow2(msb)) by {
          if Valid() {
            PositionOfValid(i, msb);
            PopShiftsDigits(i, msb, false);
            assert Pow2(msb) == 2 * Pow2(msb - 1);
          }
        }
        BinString(i, msb)[1]
    }

    /** `msb_check`: on valid fractions, both lie on the same side of 1/2. */
    function MsbCheck(other: BinaryFraction): (r: bool)
      reads this, other
      ensures Valid() && other.Valid() ==>
                (r <==> (2 * i >= Pow2(msb) <==> 2 * other.i >= Pow2(other.msb)))
    {
      GetMsb() == other.GetMsb()
    }

    /** `__eq__` between two fractions: the same fields, which on valid
        fractions is the same digit string. */
    function Equals(other: BinaryFraction): (r: bool)
      reads this, other
      ensures r <==> i == other.i && msb == other.msb
      ensures Valid() && other.Valid() ==> (r <==> GetBinString() == other.GetBinString())
    {
      assert Valid() && other.Valid() ==>
               (i == other.i && msb == other.msb <==> GetBinString() == other.GetBinString()) by {
        if Valid() && other.Valid() {
          BinStringInjective(i, msb, other.i, other.msb);
        }
      }
      i == other.i && msb == other.msb
    }

    /** `pop_msb`: at an endpoint, the bare digit and no change; otherwise
        the digit `get_msb` reports is removed from the digit string and
        `upper` shifted in at its end, msb untouched: the value doubles, less
        the popped digit, plus `upper` in the last place. */
    method PopMsb(upper: bool) returns (p: Popped)
      requires Valid()
      modifies this
      ensures Valid() && msb == old(msb)
      ensures PositionOf(old(i), msb) != Between ==> i == old(i) && p == Bare(old(GetMsb()))
      ensures PositionOf(old(i), msb) == Between ==>
                && 1 <= msb && 0 < old(i) < Pow2(msb)
                && p == Shifted(old(GetMsb()))
                && i == ShiftedValue(old(i), msb, upper)
                && GetBinString() == old(GetBinString())[..1] + old(GetBinString())[2..] + [Digit(upper)]
                && i < Pow2(msb)
                && (i % 2 == 1 <==> upper)
                && i + (if p.digit == '1' then Pow2(msb) else 0) == 2 * old(i) + (if upper then 1 else 0)
    {
      PositionOfValid(i, msb);
      var where := PositionOf(i, msb);
      if where == AtOne {
        return Bare('1');
      } else if where == AtZero {
        return Bare('0');
      }
      PopShiftsDigits(i, msb, upper);
      PopShiftsValue(i, msb, upper);
      var popped := GetMsb();
      assert popped == '1' <==> i >= Pow2(msb - 1);
      if popped == '1' {
        i := i - Pow2(msb - 1);
      }
      i := i * 2;
      if upper {
        i := i + 1;
      }
      return Shifted(popped);
    }

    /** `shortest_bin_in_interval`, as written: None where the assertion
        `lower < upper` fails; otherwise the scan's `out` without its units
        digit. `ScanCodeOfOrdered` gives that code in closed form. */
    static method ShortestBinInInterval(lower: BinaryFraction, upper: BinaryFraction)
      returns (r: Option<string>)
      ensures r.None? <==> !(FractionValue(lower.GetBinString()) < FractionValue(upper.GetBinString()))
      ensures r.Some? ==> r.value == Drop1(ScanCode(lower.GetBinString(), upper.GetBinString()))
    {
      var lo := lower.GetBinString();
      var hi := upper.GetBinString();
      if !(FractionValue(lo) < FractionValue(hi)) {
        return None;
      }
      var n := if |lo| < |hi| then |hi| else |lo|;
      var out := ScanLoops(LJust(lo, n), LJust(hi, n));
      return Some(Drop1(out));
    }

    /** `shortest_bin_in_interval` with its loops corrected: None where the
        assertion `lower < upper` fails; otherwise the shortest code strictly
        between the two, without its units digit. */
    static method CorrectedShortestBinInInterval(lower: BinaryFraction, upper: BinaryFraction)
      returns (r: Option<string>)
      ensures r.None? <==> !(FractionValue(lower.GetBinString()) < FractionValue(upper.GetBinString()))
      ensures r.Some? ==>
                var lo, hi := lower.GetBinString(), upper.GetBinString();
                var n := Max(|lo|, |hi|);
                LexBelow(LJust(lo, n), LJust(hi, n))
                && r.value == Drop1(ShortestCode(LJust(lo, n), LJust(hi, n)))
    {
      var lo := lower.GetBinString();
      var hi := upper.GetBinString();
      if !(FractionValue(lo) < FractionValue(hi)) {
        return None;
      }
      var n := if |lo| < |hi| then |hi| else |lo|;
      AssertionIsLexOrder(lo, hi);
      var out := CorrectedScanLoops(LJust(lo, n), LJust(hi, n));
      return Some(Drop1(out));
    }
  }

  /** The two loops of `shortest_bin_in_interval` over the padded digit
      strings; `out` is what they leave when they finish or return. */
  method ScanLoops(lo: string, hi: string) returns (out: string)
    requires |lo| == |hi|
    ensures out == Scan(lo, hi, 0, [])
  {
    var n := |lo|;
    out := "";
    var i := 0;
    while i < n
      invariant i <= n
      invariant Scan(lo, hi, 0, []) == Scan(lo, hi, i, out)
    {
      if lo[i] == hi[i] {
        out := out + [lo[i]];
      } else {
        out := out + "0";
        var j := i;
        while j < n
          invariant i <= j <= n
          invariant Scan(lo, hi, 0, []) == Run(lo, hi, i, j, out)
        {
          out := out + "1";
          if lo[j] != '1' {
            return;
          }
          j := j + 1;
        }
        if lo[n - 1] == '1' {
          out := out + "1";
        }
      }
      i := i + 1;
    }
  }
}
