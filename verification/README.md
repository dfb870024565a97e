# Binary fractions and symbol intervals of an arithmetic coder

This project models, in Dafny, the exact (non-floating-point) core of a small
arithmetic-coding prototype:

- `BinaryFraction` (binary_fractions.py). A number in [0, 1] is held as an
  integer `i` and a place count `msb`. The digit string `get_bin_string()` is
  `bin(i)` left-padded with '0' to `msb + 1` places. Its first character is
  the units digit and the rest are the binary digits after the point, so
  "0011" (i = 3, msb = 3) stands for 0.011 = 3/8. The model covers:
  - the digit loop of the constructor;
  - `get_bin_string`, `get_msb`, `msb_check` and `__eq__` between two
    fractions;
  - the renormalization step `pop_msb`;
  - `shortest_bin_in_interval`, which builds a code string from two padded
    digit strings, both as written and with its loops corrected so that the
    code is the shortest one strictly between the two fractions.
- `freq_dist_to_interval_dict` (arithmetic_coding.py). It lays the symbols
  of a frequency table side by side, each over an interval
  [start, end) as wide as its weight.

Files:

- `bits.dfy` (module `Bits`): Python's `bin()`, `rjust` and `ljust` on digit
  strings, the base-2 reading of a digit string, and fixed-width renderings.
- `binary_fractions.dfy` (module `BinaryFractions`): the class
  `BinaryFraction`, with fields `i` and `msb`. Its constructor and `PopMsb`
  update them in place. Its queries are functions that read them. The two
  loops of `shortest_bin_in_interval` are the method `ScanLoops`, proved
  against the reference functions `Scan`/`Run`, which follow the loops step
  by step. `CorrectedScanLoops` is the corrected version of the loops; it
  computes `ShortestCode`, which is proved to lie strictly between the two
  fractions and to be as short as any such code.
- `arithmetic_coding.dfy` (module `ArithmeticCoding`):
  `freq_dist_to_interval_dict` as a function. A Python dict keeps insertion
  order, so the table is a sequence of (key, weight) pairs in that order.

The source's floating-point parts are replaced as follows.

- The constructor's argument is a datatype `Input`: close to 0, close to 1,
  or the sequence of outcomes of the loop's `x >= power` tests.
- The endpoint tests `np.isclose(self.decimal, 1.0)` and
  `np.isclose(self.decimal, 0.0)` are read exactly, on the number the digits
  stand for (`PositionOf`, and `PositionMeaning` for what its cases mean).
- `lower < upper` compares `to_float()` of both fractions. It is read
  exactly as `FractionValue`, the sum that `bin_string_to_float` forms,
  without rounding.
- Frequency weights are exact reals.

## Model

| member | source | states |
|---|---|---|
| Bits.Binary | binary_fractions.py:85 | `bin(i)[2:]`: the digits of i from the high end, "0" for zero; always at least one digit (the next two rows state the rest) |
| Bits.BinaryDigits | binary_fractions.py:85 | `bin(i)[2:]` holds only '0'/'1' and i < 2^len; its first digit is '1' exactly when i >= 1; and when it has more than one digit, 2^(len-1) <= i, so it has no leading zero (for i = 0 it is the single digit "0") |
| Bits.BinaryValue | binary_fractions.py:85 | the digits of `bin(i)` read back in base 2 give i |
| Bits.RJust | binary_fractions.py:85 | `s.rjust(w, "0")`: zeros added on the left up to width w (its shape is stated by `RJustPads`) |
| Bits.RJustPads | binary_fractions.py:85 | `rjust` gives length max(len(s), w), keeps s at the right end, and puts '0' in every place before it |
| Bits.LJust | binary_fractions.py:133-134 | `s.ljust(w, "0")` gives length max(len(s), w), keeps s at the front, and puts '0' in every place after it |
| BinaryFractions.FractionValue | binary_fractions.py:76-82 | the number a digit string stands for, units digit first (value / 2^(len-1)): the exact sum `bin_string_to_float` adds up, which `lower < upper` (:56-57, :123) compares |
| BinaryFractions.PositionOf | binary_fractions.py:88-91 | the endpoint tests `np.isclose(decimal, 1.0)` and `np.isclose(decimal, 0.0)`, read exactly on i and the digit string's width (`PositionMeaning` and `PositionOfValid` state what its cases mean) |
| BinaryFractions.BinStringDigits | binary_fractions.py:84-85 | the digit string has length max(msb + 1, number of digits of i), holds only '0'/'1', and reads back as i: the padding adds only leading zeros |
| BinaryFractions.BinaryFraction.GetBinString | binary_fractions.py:84-85 | `get_bin_string`: same length, alphabet and base-2 reading as above, for the object's fields |
| BinaryFractions.PositionMeaning | binary_fractions.py:87-91 | the endpoint tests: the "1" case holds exactly when the represented value is 1, the "0" case exactly when it is 0 |
| BinaryFractions.PositionOfValid | binary_fractions.py:99-104 | on a fraction with i <= 2^msb, the digit string has msb + 1 places; the "1" endpoint is i = 2^msb, the "0" endpoint is i = 0, and otherwise msb >= 1 and 0 < i < 2^msb |
| BinaryFractions.Expanding | binary_fractions.py:24-35 | the decisions an argument strictly between 0 and 1 produces: at least one step, a failed first test (power 1), and a successful last test |
| BinaryFractions.BitsValue | binary_fractions.py:24-37 | the i the loop builds: shifted left once per decision, plus 1 where the decision holds |
| BinaryFractions.BinaryFraction.constructor | binary_fractions.py:10-37 | near 0 gives (i, msb) = (0, 0), near 1 gives (1, 0); otherwise the loop's i is the base-2 value of its decisions, msb is the step count less one, the digit string spells out the decisions, i is odd and i < 2^msb (leading digit 0), and the result is strictly between 0 and 1 |
| BinaryFractions.ExpansionDigits | binary_fractions.py:24-37 | after the loop, i < 2^(steps) and `get_bin_string` with msb = steps - 1 is exactly the decisions as digits |
| BinaryFractions.LeadingDecision | binary_fractions.py:28-33 | when the first test (power 1) fails, i < 2^msb: the units digit is 0 |
| BinaryFractions.LastDecision | binary_fractions.py:29-35 | i is odd exactly when the last test succeeded |
| BinaryFractions.BinaryFraction.GetMsb | binary_fractions.py:87-94 | `get_msb` returns '0' or '1'; on a fraction with i <= 2^msb it is '1' exactly when the value is at least 1/2; off the endpoints it is character 1 of the digit string, which exists |
| BinaryFractions.BetweenHasTwoDigits | binary_fractions.py:92-94 | off the endpoints the digit string has at least two characters, and character 1 is a binary digit |
| BinaryFractions.BinaryFraction.MsbCheck | binary_fractions.py:96-97 | `msb_check` holds exactly when both fractions lie on the same side of 1/2 |
| BinaryFractions.BinaryFraction.Equals | binary_fractions.py:39-41 | `__eq__` between two fractions holds exactly when both i and msb match; on fractions with i <= 2^msb that is exactly equality of their digit strings |
| BinaryFractions.BinStringInjective | binary_fractions.py:39-41 | for i <= 2^msb, two (i, msb) pairs render the same digit string exactly when they are equal |
| BinaryFractions.ShiftedValue | binary_fractions.py:109-115 | the i `pop_msb` leaves: the digit of weight 2^(msb-1) cleared when set, the rest shifted left, and `upper` added as the last digit |
| BinaryFractions.BinaryFraction.PopMsb | binary_fractions.py:99-119 | at an endpoint, returns the bare digit and changes nothing; otherwise returns the digit `get_msb` reported, never changes msb, removes character 1 from the digit string and appends `upper`'s digit, keeps i < 2^msb, makes i odd exactly when `upper`, and doubles i less the popped digit's weight plus `upper` |
| BinaryFractions.PopShiftsDigits | binary_fractions.py:107-115 | on 0 < i < 2^msb: the digit string keeps its msb + 1 places, character 1 is the digit of weight 1/2, and the new string is the old one without character 1, followed by `upper`'s digit |
| BinaryFractions.PopShiftsValue | binary_fractions.py:109-115 | the new i is below 2^msb, is odd exactly when `upper`, and equals 2i + upper less 2^msb when the popped digit was '1' |
| BinaryFractions.BinaryFraction.ShortestBinInInterval | binary_fractions.py:121-150 | None exactly when the assertion `lower < upper` fails on the represented values; otherwise the scan's `out` over the right-padded digit strings, without its first character |
| BinaryFractions.Scan | binary_fractions.py:136-150 | the outer loop from place i with `out` built so far: a shared digit is copied; at a differing one, '0' is appended and `Run` takes over; at the end, `out` |
| BinaryFractions.Run | binary_fractions.py:141-148 | the inner loop from place j: a '1' for each '1' of lower, returning right after the first digit that is not '1'; when it reaches the end, one more '1' if lower's last digit is '1', and the outer loop continues at i + 1 |
| BinaryFractions.Drop1 | binary_fractions.py:146-150 | `out[1:]`: the code without its units digit |
| BinaryFractions.ScanLoops | binary_fractions.py:136-150 | the nested loops, with the early return, leave in `out` what the step-by-step reference `Scan`/`Run` computes |
| BinaryFractions.AssertionIsLexOrder | binary_fractions.py:123-134 | `lower < upper` holds exactly when lower's digits, right-padded to the common width, come lexicographically before upper's |
| BinaryFractions.FractionValuePadded | binary_fractions.py:133-134 | right-padding with '0' (`ljust`) does not change the number a digit string stands for |
| BinaryFractions.ScanOfOrdered | binary_fractions.py:136-146 | for padded lower below upper, `out` is their common prefix followed by "01": the scan stops at the first differing place p |
| BinaryFractions.ScanCodeOfOrdered | binary_fractions.py:123-150 | once the assertion holds, the result is (padded lower)[0..p) + "01" without its first character; so it has length p + 1 and ignores every digit of lower after p |
| BinaryFractions.AsWrittenCodeBelowLower | binary_fractions.py:141-146 | for lower = 0.011 (i = 3, msb = 3) and upper = 0.1 (i = 1, msb = 1) the assertion holds, and the returned code "01" (0.01 = 1/4) lies below lower (3/8) |
| BinaryFractions.LowerSideCode | binary_fractions.py:141-148 | the code just above lower that the inner loop is built to reach: lower up to the first '0' after the differing place p, with that '0' turned into '1'; lower followed by '1' when only '1's follow p |
| BinaryFractions.ShortestCode | binary_fractions.py:136-150 | the corrected code: upper's digits through p when upper has another '1' after p, otherwise the code just above lower; it has between 1 and n + 1 digits |
| BinaryFractions.CorrectedScanLoops | binary_fractions.py:136-150 | the loops as evidently meant (common prefix; stop with upper's '1' at p when upper has a '1' further on; otherwise read lower's digits after p and stop at the first '0'): they compute `ShortestCode` |
| BinaryFractions.BinaryFraction.CorrectedShortestBinInInterval | binary_fractions.py:121-150 | `shortest_bin_in_interval` with the corrected loops: None exactly when `lower < upper` fails; otherwise `ShortestCode` of the right-padded digit strings, without its units digit |
| BinaryFractions.UpperSideCode | binary_fractions.py:136-150 | when upper has a '1' after p, upper's digits through p stand for a number strictly between lower and upper |
| BinaryFractions.LowerSideCodeShort | binary_fractions.py:141-146 | when lower has a '0' after p, cutting lower there and writing '1' gives a number strictly between the two |
| BinaryFractions.LowerSideCodeLong | binary_fractions.py:141-148 | when lower has only '1's after p, lower followed by '1' lies strictly between the two |
| BinaryFractions.ShortestCodeInInterval | binary_fractions.py:121-150 | whenever `lower < upper`, the corrected code is a binary string standing for a number strictly between lower and upper |
| BinaryFractions.NothingShorterPadded | binary_fractions.py:136-150 | on the padded strings: no string of the common width that is '0' from some place m on, with m below the corrected code's length, lies lexicographically strictly between lower and upper |
| BinaryFractions.ShortestCodeMinimal | binary_fractions.py:121-150 | whenever `lower < upper`, no binary string shorter than the corrected code stands for a number strictly between lower and upper: the corrected code is a shortest one |
| ArithmeticCoding.Keys | arithmetic_coding.py:11 | `keys`: the table's keys, in insertion order, one per entry |
| ArithmeticCoding.Weights | arithmetic_coding.py:12 | `vals`: the table's values, in key order, one per entry |
| ArithmeticCoding.Sum | arithmetic_coding.py:13 | a running total of `np.cumsum`: the weights added from the left (`SumStep` states the step from one total to the next) |
| ArithmeticCoding.FreqDistToIntervalDict | arithmetic_coding.py:10-15 | the keys come out in the table's order; each interval is as wide as its key's weight; the first starts at 0; each later one starts where the previous one ends; the last ends at the total weight; interval k is (sum of the weights before k, sum up to and including k) |
| ArithmeticCoding.Interval | arithmetic_coding.py:13-14 | `ends[k] - vals[k]` with `ends = cumsum(vals)` is the sum of the weights before k |
| ArithmeticCoding.SumStep | arithmetic_coding.py:13 | each running total of `cumsum` is the previous one plus the next weight |
| ArithmeticCoding.IntervalsDoNotOverlap | arithmetic_coding.py:13-14 | with non-negative weights, every interval ends no later than any later interval starts, so starts and ends rise in key order |
| ArithmeticCoding.IntervalsCover | arithmetic_coding.py:13-15 | every point of [0, total weight) lies in the interval of some key |

## Left out

- Floating point. The `decimal` field, `to_float`, `bin_string_to_float`, `__lt__`/`__gt__` and the float subtraction in the constructor's loop are not modelled. The loop's `x >= power` outcomes are an input. Numbers are read exactly from the digits.
- BinaryFractions.PositionOf: `np.isclose`'s tolerance is not modelled. The endpoint tests are exact equality with 1 and 0, on the number the digits stand for.
- BinaryFractions.BinaryFraction.constructor: the assertion `0 <= x <= 1` is not modelled. `Input` only describes arguments in range. For the middle case it requires what such an argument produces: at least one step, a failed first test and a successful last test.
- BinaryFractions.BinaryFraction.PopMsb: the second element of the returned tuple (`BinaryFraction(self.decimal)`, a float round trip) is not modelled. The method requires i <= 2^msb. The constructor establishes that bound, and the method preserves it.
- BinaryFractions.BinaryFraction.GetMsb, BinaryFractions.BinaryFraction.MsbCheck and BinaryFractions.BinaryFraction.Equals: their link to the represented value or the digit string is stated for fractions with i <= 2^msb, the only ones the constructor and `PopMsb` produce.
- BinaryFractions.BinaryFraction.ShortestBinInInterval: a failing `assert lower < upper` (an AssertionError) is modelled as the result None.
- `__eq__` against a non-`BinaryFraction` (float conversion, `np.isclose`, ValueError) is not modelled, because it is floating point.
- `__repr__` and `__str__` are not modelled, because they only format text.
- ArithmeticCoding.FreqDistToIntervalDict: numpy's float rounding in `cumsum` and `ends - vals` is not modelled. In floats, an interval's start need not equal the previous end exactly.
- `entropy` (arithmetic_coding.py) is not modelled, because it uses floating-point `log2`.
- `main` (arithmetic_coding.py) is not modelled, because it is file reading, printing and float interval narrowing.
- language_models.py is not part of this model. It reads a file and normalizes counts in floating point.
- test_.py is not part of this model. It imports functions that binary_fractions.py does not define.

## Findings

| source | as written | input that shows it | evidently intended | confidence | as-written member | corrected member |
|---|---|---|---|---|---|---|
| binary_fractions.py:141 | At the first place p where the padded strings differ, the inner loop `for j in range(i, max_len)` starts at p itself. There lower has '0', so the loop appends "01" and returns at once, and lower's later digits are never read. The code can fall below lower. | lower with i = 3, msb = 3 ("0011", 3/8); upper with i = 1, msb = 1 ("01", 1/2). The assertion holds, and the result is "01", that is 0.01 = 1/4 < 3/8. | As the routine's name says, the shortest code strictly between lower and upper. At p, take upper's '1' when upper has another '1' after p. Otherwise read lower's digits after p, and write '1' at the first '0' found, or one '1' after lower's last digit if there is none. Then stop. (Changing only the start to `i + 1` would not be enough: after an inner loop that runs to the end, the outer loop goes on appending.) | not executed | BinaryFractions.AsWrittenCodeBelowLower | BinaryFractions.CorrectedScanLoops, BinaryFractions.ShortestCodeInInterval, BinaryFractions.ShortestCodeMinimal |
