/** The meaning of the few Python built-ins the converter relies on: the values of
    `range(start, stop, step)`, list slicing `s[a:b]`, `str` of an int and the
    `", ".join` that `str` of a list performs. */
module Python {

  import opened Wrappers

  // ---------------------------------------------------------------------------
  // range(start, stop, step)
  // ---------------------------------------------------------------------------

  /** The values `range(start, stop, step)` yields. Python raises ValueError for a
      zero step; callers model that case themselves. */
  function RangeValues(start: int, stop: int, step: int): seq<int>
    requires step != 0
    decreases if step > 0 then stop - start else start - stop
  {
    if (step > 0 && start < stop) || (step < 0 && start > stop) then
      [start] + RangeValues(start + step, stop, step)
    else
      []
  }

  /** Element k of a range is `start + k * step`. */
  lemma {:induction false} RangeValuesAt(start: int, stop: int, step: int, k: nat)
    requires step != 0
    requires k < |RangeValues(start, stop, step)|
    ensures RangeValues(start, stop, step)[k] == start + k * step
    decreases k
  {
    if k > 0 {
      RangeValuesAt(start + step, stop, step, k - 1);
      assert (k - 1) * step + step == k * step;
    }
  }

  /** Every element of a range, at once. */
  lemma RangeValuesElements(start: int, stop: int, step: int)
    requires step != 0
    ensures var r := RangeValues(start, stop, step);
      forall k :: 0 <= k < |r| ==> r[k] == start + k * step
  {
    forall k | 0 <= k < |RangeValues(start, stop, step)| {
      RangeValuesAt(start, stop, step, k);
    }
  }

  /** `range(0, x * y, x)` for a positive x has one value per row: `max(y, 0)`. */
  lemma RowStarts(x: int, y: int)
    requires x > 0
    ensures |RangeValues(0, x * y, x)| == if y > 0 then y else 0
    ensures forall k :: 0 <= k < |RangeValues(0, x * y, x)| ==> RangeValues(0, x * y, x)[k] == k * x
  {
    var r := RangeValues(0, x * y, x);
    RangeValuesElements(0, x * y, x);
    AscendingRangeBounds(0, x * y, x);
    if y > 0 {
      MulLessEq(1, y, x);
      MulCancelLess(|r| - 1, y, x);
      MulCancelLessEq(y, |r|, x);
    } else {
      MulLessEq(y, 0, x);
    }
  }

  /** An ascending range is empty exactly when `start >= stop`; every value is below
      `stop`, and the first value it leaves out, `start + |r| * step`, is not. */
  lemma {:induction false} AscendingRangeBounds(start: int, stop: int, step: int)
    requires step > 0
    ensures var r := RangeValues(start, stop, step);
      && (|r| == 0 <==> start >= stop)
      && (|r| > 0 ==> start + (|r| - 1) * step < stop)
      && (|r| > 0 ==> start + |r| * step >= stop)
    decreases stop - start
  {
    if start < stop {
      var r' := RangeValues(start + step, stop, step);
      AscendingRangeBounds(start + step, stop, step);
      assert |RangeValues(start, stop, step)| == |r'| + 1;
      assert start + step + (|r'| - 1) * step == start + |r'| * step;
      assert start + step + |r'| * step == start + (|r'| + 1) * step;
    }
  }

  /** A descending range is empty exactly when `start <= stop`; every value is above
      `stop`, and `start + |r| * step` is not. */
  lemma {:induction false} DescendingRangeBounds(start: int, stop: int, step: int)
    requires step < 0
    ensures var r := RangeValues(start, stop, step);
      && (|r| == 0 <==> start <= stop)
      && (|r| > 0 ==> start + (|r| - 1) * step > stop)
      && (|r| > 0 ==> start + |r| * step <= stop)
    decreases start - stop
  {
    if start > stop {
      var r' := RangeValues(start + step, stop, step);
      DescendingRangeBounds(start + step, stop, step);
      assert |RangeValues(start, stop, step)| == |r'| + 1;
      assert start + step + (|r'| - 1) * step == start + |r'| * step;
      assert start + step + |r'| * step == start + (|r'| + 1) * step;
    }
  }

  /** Membership in an ascending range: exactly the values from `start` (inclusive) to
      `stop` (exclusive) that are a whole number of steps away from `start`. */
  lemma AscendingRangeMembers(start: int, stop: int, step: int, v: int)
    requires step > 0
    ensures v in RangeValues(start, stop, step) <==> start <= v < stop && (v - start) % step == 0
  {
    if v in RangeValues(start, stop, step) {
      AscendingRangeMember(start, stop, step, v);
    }
    if start <= v < stop && (v - start) % step == 0 {
      AscendingRangeHas(start, stop, step, v);
    }
  }

  lemma AscendingRangeMember(start: int, stop: int, step: int, v: int)
    requires step > 0 && v in RangeValues(start, stop, step)
    ensures start <= v < stop && (v - start) % step == 0
  {
    var r := RangeValues(start, stop, step);
    AscendingRangeBounds(start, stop, step);
    var k :| 0 <= k < |r| && r[k] == v;
    RangeValuesAt(start, stop, step, k);
    MulNonNegative(k, step);
    MulLessEq(k, |r| - 1, step);
    ModOfMultiple(k, step);
  }

  lemma AscendingRangeHas(start: int, stop: int, step: int, v: int)
    requires step > 0 && start <= v < stop && (v - start) % step == 0
    ensures v in RangeValues(start, stop, step)
  {
    var r := RangeValues(start, stop, step);
    AscendingRangeBounds(start, stop, step);
    var m := (v - start) / step;
    assert v == start + m * step;
    MulNonNegativeInverse(m, step, v - start);
    if m >= |r| {
      MulLessEq(|r|, m, step);
    }
    RangeValuesAt(start, stop, step, m);
    assert r[m] == v;
  }

  lemma MulNonNegative(a: int, b: int)
    requires a >= 0 && b >= 0
    ensures a * b >= 0
  {
  }

  lemma MulLessEq(a: int, b: int, c: int)
    requires a <= b && c >= 0
    ensures a * c <= b * c
  {
    assert b * c - a * c == (b - a) * c;
    MulNonNegative(b - a, c);
  }

  lemma MulCancelLess(a: int, b: int, c: int)
    requires c > 0 && a * c < b * c
    ensures a < b
  {
    if a >= b {
      MulLessEq(b, a, c);
    }
  }

  lemma MulCancelLessEq(a: int, b: int, c: int)
    requires c > 0 && a * c <= b * c
    ensures a <= b
  {
    MulSucc(b, c);
    MulCancelLess(a, b + 1, c);
  }

  lemma MulSucc(b: int, c: int)
    ensures (b + 1) * c == b * c + c
  {
  }

  lemma MulNonNegativeInverse(m: int, step: int, d: int)
    requires step > 0 && d >= 0 && d == m * step
    ensures m >= 0
  {
    if m < 0 {
      MulLessEq(m, -1, step);
    }
  }

  lemma ModOfMultiple(k: int, step: int)
    requires step > 0
    ensures (k * step) % step == 0
  {
    var q, r := (k * step) / step, (k * step) % step;
    assert k * step == q * step + r && 0 <= r < step;
    assert (k - q) * step == r;
    if k - q >= 1 {
      MulLessEq(1, k - q, step);
    } else if k - q <= -1 {
      MulLessEq(k - q, -1, step);
    }
  }

  // ---------------------------------------------------------------------------
  // s[a:b]
  // ---------------------------------------------------------------------------

  function Min(a: int, b: int): int { if a <= b then a else b }

  /** Python's normalisation of a slice bound: a negative bound counts from the end,
      and every bound is clamped to `0..n`. */
  function SliceBound(a: int, n: nat): (b: nat)
    ensures b <= n
    ensures 0 <= a <= n ==> b == a
  {
    if a < 0 then (if a + n < 0 then 0 else a + n)
    else if a > n then n
    else a
  }

  /** `s[a:b]` for a step of one. */
  function Slice<T>(s: seq<T>, a: int, b: int): (r: seq<T>)
    ensures 0 <= a <= b ==> r == s[Min(a, |s|)..Min(b, |s|)]
  {
    var lo, hi := SliceBound(a, |s|), SliceBound(b, |s|);
    if lo < hi then s[lo..hi] else []
  }

  // ---------------------------------------------------------------------------
  // str(n) for an int n, and its inverse int(s)
  // ---------------------------------------------------------------------------

  function DigitChar(d: nat): char
    requires d < 10
  {
    "0123456789"[d]
  }

  predicate IsDigitChar(c: char) { '0' <= c <= '9' }

  function DigitValue(c: char): (d: nat)
    requires IsDigitChar(c)
    ensures d < 10
  {
    c as int - '0' as int
  }

  /** Every character of `s` is a decimal digit. */
  predicate AllDigits(s: string)
  {
    forall i :: 0 <= i < |s| ==> IsDigitChar(s[i])
  }

  /** Decimal text of a natural number, without leading zeros. */
  function NatText(n: nat): (s: string)
    ensures |s| > 0
    ensures AllDigits(s)
  {
    if n < 10 then [DigitChar(n)] else NatText(n / 10) + [DigitChar(n % 10)]
  }

  /** `str(n)` for a Python int. */
  function IntText(n: int): string
  {
    if n < 0 then "-" + NatText(-n) else NatText(n)
  }

  /** `str(n)` has a minus sign exactly for a negative n, then at least one decimal
      digit. */
  lemma IntTextShape(n: int)
    ensures |IntText(n)| > 0
    ensures IntText(n)[0] == '-' <==> n < 0
    ensures n < 0 ==> |IntText(n)| > 1 && AllDigits(IntText(n)[1..])
    ensures n >= 0 ==> AllDigits(IntText(n))
  {
    if n < 0 {
      var t := NatText(-n);
      assert ("-" + t)[1..] == t;
    } else {
      assert IsDigitChar(NatText(n)[0]);
    }
  }

  /** The value of a string of decimal digits. */
  function DigitsValue(s: string): nat
    requires AllDigits(s)
  {
    if |s| == 0 then 0
    else DigitsValue(s[..|s| - 1]) * 10 + DigitValue(s[|s| - 1])
  }

  /** `int(s)` restricted to what `str` of an int produces: an optional minus sign
      followed by at least one decimal digit. */
  function ParseInt(s: string): Option<int>
  {
    if |s| > 0 && s[0] == '-' then
      if |s| > 1 && AllDigits(s[1..]) then Some(0 - DigitsValue(s[1..]) as int) else None
    else if |s| > 0 && AllDigits(s) then Some(DigitsValue(s))
    else None
  }

  lemma {:induction false} NatTextRoundTrip(n: nat)
    ensures DigitsValue(NatText(n)) == n
  {
    if n >= 10 {
      NatTextRoundTrip(n / 10);
      var s := NatText(n);
      assert s[..|s| - 1] == NatText(n / 10);
      assert DigitValue(DigitChar(n % 10)) == n % 10;
    } else {
      assert DigitValue(DigitChar(n)) == n;
    }
  }

  /** `int(str(n)) == n`: the decimal text of an int identifies it. */
  lemma {:induction false} IntTextRoundTrip(n: int)
    ensures ParseInt(IntText(n)) == Some(n)
  {
    if n < 0 {
      assert IntText(n) == "-" + NatText(-n);
      NegativeTextRoundTrip(-n);
    } else {
      assert IntText(n) == NatText(n);
      NatTextParses(n);
    }
  }

  /** The digits of m parse as m. */
  lemma {:induction false} NatTextParses(m: nat)
    ensures ParseInt(NatText(m)) == Some(m)
  {
    var t := NatText(m);
    assert IsDigitChar(t[0]);
    NatTextRoundTrip(m);
  }

  /** A minus sign before the digits of m parses as -m. */
  lemma {:induction false} NegativeTextRoundTrip(m: nat)
    ensures ParseInt("-" + NatText(m)) == Some(0 - m)
  {
    var t := NatText(m);
    var s := "-" + t;
    assert s[0] == '-' && |s| > 1;
    assert s[1..] == t;
    NatTextRoundTrip(m);
  }

  /** Distinct ints have distinct texts. */
  lemma IntTextInjective(a: int, b: int)
    requires IntText(a) == IntText(b)
    ensures a == b
  {
    IntTextRoundTrip(a);
    IntTextRoundTrip(b);
  }

  // ---------------------------------------------------------------------------
  // sep.join(parts) and str(list)
  // ---------------------------------------------------------------------------

  /** `sep + parts[0] + sep + parts[1] + ...`: every part preceded by the separator. */
  function Prefixed(sep: string, parts: seq<string>): string
  {
    if |parts| == 0 then "" else sep + parts[0] + Prefixed(sep, parts[1..])
  }

  /** `sep.join(parts)`. */
  function Join(sep: string, parts: seq<string>): string
  {
    if |parts| == 0 then "" else parts[0] + Prefixed(sep, parts[1..])
  }

  /** `str(items)` of a Python list whose elements print as `items`. */
  function ListRepr(items: seq<string>): string
  {
    "[" + Join(", ", items) + "]"
  }

  /** `str` of a list is bracketed: `[]` for no items and `[x]` for one. */
  lemma ListReprShape(items: seq<string>)
    ensures var r := ListRepr(items); |r| >= 2 && r[0] == '[' && r[|r| - 1] == ']'
    ensures items == [] ==> ListRepr(items) == "[]"
    ensures |items| == 1 ==> ListRepr(items) == "[" + items[0] + "]"
  {
  }

  /** Appending one more separated part, as a loop doing `acc += sep + part` does. */
  lemma {:induction false} PrefixedSnoc(sep: string, parts: seq<string>, part: string)
    ensures Prefixed(sep, parts + [part]) == Prefixed(sep, parts) + sep + part
  {
    if |parts| == 0 {
      assert parts + [part] == [part];
    } else {
      assert (parts + [part])[1..] == parts[1..] + [part];
      PrefixedSnoc(sep, parts[1..], part);
    }
  }
}
