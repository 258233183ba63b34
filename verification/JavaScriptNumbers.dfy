/** JavaScript numbers as far as sequence numbers need them: reading a decimal numeral, adding one, and
    printing the result. All of it is about non-negative integers below 10^21. */
module JavaScriptNumbers {
  import opened Prelude

  const MAX_EXACT := 0x20_0000_0000_0000  // 2^53

  /** The spacing of the doubles around `n`. */
  function Spacing(n: nat): (u: nat)
    ensures u >= 1
    ensures n < MAX_EXACT ==> u == 1
  {
    if n < MAX_EXACT then 1 else 2 * Spacing(n / 2)
  }

  /** Number(...) of a decimal integer: the nearest double, ties to the even mantissa. */
  function ToNumber(n: nat): (r: nat)
    ensures n <= MAX_EXACT ==> r == n
  {
    var u := Spacing(n);
    var q, r := n / u, n % u;
    if n <= MAX_EXACT then n
    else if 2 * r < u || (2 * r == u && q % 2 == 0) then q * u else (q + 1) * u
  }

  /** The numeral `c` with `j` zeros appended. */
  function WithZeros(c: nat, j: nat): nat {
    if j == 0 then c else 10 * WithZeros(c, j - 1)
  }

  /** The numeral `x` without its last `j` digits. */
  function WithoutDigits(x: nat, j: nat): nat {
    if j == 0 then x else WithoutDigits(x, j - 1) / 10
  }

  /** Of two numerals `lo` and `hi` around `x` the closer one that reads back as `x`; if both do and are
      equally close, the one whose last digit before the zeros is even. */
  function ReadsBackAs(x: nat, lo: nat, hi: nat, loIsEven: bool): (c: Option<nat>)
    ensures c.Some? ==> ToNumber(c.value) == x && (c.value == lo || c.value == hi)
    ensures c.None? <==> ToNumber(lo) != x && ToNumber(hi) != x
  {
    var loIsNearer := x - lo < hi - x || (x - lo == hi - x && loIsEven);
    if ToNumber(lo) == x && (loIsNearer || ToNumber(hi) != x) then Some(lo)
    else if ToNumber(hi) == x then Some(hi)
    else None
  }

  /** The closest numeral to `x` that ends in `j` zeros and reads back as `x`, if there is one. */
  function RoundNumeral(x: nat, j: nat): Option<nat> {
    var c := WithoutDigits(x, j);
    ReadsBackAs(x, WithZeros(c, j), WithZeros(c + 1, j), c % 2 == 0)
  }

  /** The decimal digits of a double below 10^21, as String(x) and template literals print it: of all
      numerals that read back as `x` one with the most zeros at the end, here at most `j`, and of those
      the one closest to `x`. */
  function PrintedWith(x: nat, j: nat): (c: nat)
    ensures ToNumber(x) == x ==> ToNumber(c) == x
  {
    if j == 0 then x
    else
      var c := RoundNumeral(x, j);
      if c.Some? then c.value else PrintedWith(x, j - 1)
  }

  const MOST_ZEROS: nat := 20

  function Printed(x: nat): nat {
    PrintedWith(x, MOST_ZEROS)
  }

  /** `${Number(n) + 1}`: the numeral is read, one is added, and the sum is printed. */
  function Successor(n: nat): nat {
    Printed(ToNumber(ToNumber(n) + 1))
  }

  lemma TimesMonotone(a: int, b: int, c: int)
    requires a <= b && c >= 0
    ensures a * c <= b * c
  {
  }

  // From 2^53 on the doubles are Spacing(n) apart, and the bound is rounded twice: when the sequence
  // number is read and after adding one.

  /** `n` is nearer to the double above it than to the one below, or in the middle with the one above
      even. */
  predicate RoundsUp(n: nat) {
    n >= MAX_EXACT && var u := Spacing(n); 2 * (n % u) > u || (2 * (n % u) == u && n / u % 2 == 1)
  }

  /** Which numbers have a successor that is too large. From 2^54 on adding one is lost, and what counts
      is how the double nearest to the number is printed. */
  predicate SkipsNext(n: nat) {
    if n < MAX_EXACT then false
    else if n < 2 * MAX_EXACT then n % 4 == 2
    else Printed(ToNumber(n)) > n + 1
  }

  /** Which numbers have the right successor. */
  predicate ReachesNext(n: nat) {
    if n < MAX_EXACT then true
    else if n < 2 * MAX_EXACT then n % 4 == 3
    else Printed(ToNumber(n)) == n + 1
  }

  /** Between 2^53 * h and 2^53 * 2h the doubles are 2h apart. */
  lemma {:induction false} SpacingRange(n: nat) returns (h: nat)
    requires n >= MAX_EXACT
    ensures Spacing(n) == 2 * h && h >= 1 && h * MAX_EXACT <= n < 2 * h * MAX_EXACT
  {
    if n / 2 < MAX_EXACT {
      h := 1;
    } else {
      var half := SpacingRange(n / 2);
      h := 2 * half;
    }
  }

  lemma {:induction false} SpacingInRange(n: nat, h: nat, m: nat)
    requires n >= MAX_EXACT && Spacing(n) == 2 * h && h * MAX_EXACT <= m < 4 * h * MAX_EXACT
    ensures Spacing(m) == if m < 2 * h * MAX_EXACT then 2 * h else 4 * h
    decreases n
  {
    if n / 2 < MAX_EXACT {
      assert h == 1;
      assert m / 2 >= MAX_EXACT ==> m / 2 / 2 < MAX_EXACT;
    } else {
      var half := SpacingRange(n / 2);
      assert h == 2 * half;
      SpacingInRange(n / 2, half, m / 2);
    }
  }

  lemma NextMultiple(a: int, b: int, u: nat)
    ensures a < b ==> a * u + u <= b * u
  {
    if a < b {
      TimesMonotone(a + 1, b, u);
      assert (a + 1) * u == a * u + u;
    }
  }

  lemma QuotientBounds(n: nat, u: nat, a: nat, b: nat)
    requires u >= 1 && a * u <= n < b * u
    ensures a <= n / u < b
  {
    NextMultiple(n / u, a, u);
    NextMultiple(b, n / u, u);
  }

  lemma QuotientIs(n: nat, u: nat, k: nat, r: nat)
    requires n == k * u + r && r < u
    ensures n / u == k && n % u == r
  {
    NextMultiple(n / u, k, u);
    NextMultiple(k, n / u, u);
  }

  /** Where the doubles are `s` apart, one above the double `k * s` rounds back to it, except between
      consecutive even numbers. */
  lemma OneAboveDouble(x: nat, k: nat, s: nat)
    requires s >= 2 && x == k * s && x >= MAX_EXACT && Spacing(x + 1) == s
    ensures ToNumber(x + 1) == if s == 2 && k % 2 == 1 then x + 2 else x
  {
    QuotientIs(x + 1, s, k, 1);
    assert (k + 1) * s == x + s;
  }

  lemma MultipleInRange(h: nat, k: nat)
    requires h >= 1 && MAX_EXACT / 2 <= k <= MAX_EXACT
    ensures h * MAX_EXACT <= k * (2 * h) <= 2 * h * MAX_EXACT
    ensures k < MAX_EXACT ==> k * (2 * h) + 2 * h <= 2 * h * MAX_EXACT
  {
    TimesMonotone(MAX_EXACT / 2, k, 2 * h);
    TimesMonotone(k, MAX_EXACT, 2 * h);
    if k < MAX_EXACT {
      TimesMonotone(k + 1, MAX_EXACT, 2 * h);
    }
  }

  /** Above the double `x`, which is `k` spacings, the doubles are as far apart as around `n`, unless
      it is the last one of its range. */
  lemma SpacingAbove(n: nat, h: nat, k: nat, x: nat)
    requires n >= MAX_EXACT && Spacing(n) == 2 * h && h >= 1 && MAX_EXACT / 2 <= k < MAX_EXACT && x == k * (2 * h)
    ensures x >= MAX_EXACT
    ensures Spacing(x + 1) == 2 * h
  {
    MultipleInRange(h, k);
    SpacingInRange(n, h, x + 1);
  }

  lemma SpacingAboveLast(n: nat, h: nat, x: nat)
    requires n >= MAX_EXACT && Spacing(n) == 2 * h && h >= 1 && x == 2 * h * MAX_EXACT
    ensures x >= MAX_EXACT && Spacing(x + 1) == 4 * h
  {
    SpacingInRange(n, h, x + 1);
  }

  lemma LastOfRange(h: nat)
    ensures MAX_EXACT * (2 * h) == 2 * h * MAX_EXACT
    ensures MAX_EXACT / 2 * (4 * h) == 2 * h * MAX_EXACT
  {
  }

  /** Where they are at least 4 apart, it always rounds back. */
  lemma OneAboveWide(x: nat, k: nat, s: nat)
    requires s >= 4 && x == k * s && x >= MAX_EXACT && Spacing(x + 1) == s
    ensures ToNumber(x + 1) == x
  {
    QuotientIs(x + 1, s, k, 1);
  }

  lemma RoundedAtTheEnd(n: nat, h: nat, x: nat)
    requires n >= MAX_EXACT && Spacing(n) == 2 * h && h >= 1 && x == MAX_EXACT * (2 * h)
    ensures ToNumber(x + 1) == x
  {
    LastOfRange(h);
    SpacingAboveLast(n, h, x);
    OneAboveWide(x, MAX_EXACT / 2, 4 * h);
  }

  lemma RoundedInside(n: nat, h: nat, u: nat, k: nat, x: nat)
    requires n >= MAX_EXACT && Spacing(n) == u == 2 * h && h >= 1 && MAX_EXACT / 2 <= k < MAX_EXACT && x == k * u
    ensures ToNumber(x + 1) == if u == 2 && k % 2 == 1 then x + 2 else x
  {
    SpacingAbove(n, h, k, x);
    OneAboveDouble(x, k, u);
  }

  /** Adding one to that double and rounding again gives it back, except that an odd multiple of 2 goes
      to the next one. */
  lemma RoundedAgain(n: nat, h: nat, k: nat, x: nat)
    requires n >= MAX_EXACT && Spacing(n) == 2 * h && h >= 1 && MAX_EXACT / 2 <= k <= MAX_EXACT && x == k * (2 * h)
    ensures ToNumber(x + 1) == if h == 1 && k % 2 == 1 then x + 2 else x
  {
    if k < MAX_EXACT {
      RoundedInside(n, h, 2 * h, k, x);
    } else {
      RoundedAtTheEnd(n, h, x);
    }
  }

  /** Rounding to p or the next double, then adding one and rounding again. */
  function SumAbove(h: nat, q: nat, p: nat, up: bool): nat {
    var k, x := if up then q + 1 else q, if up then p + 2 * h else p;
    if h == 1 && k % 2 == 1 then x + 2 else x
  }

  lemma RoundedFrom(n: nat)
    requires n >= MAX_EXACT
    ensures var u := Spacing(n);
            ToNumber(n) == if RoundsUp(n) then (n / u + 1) * u else n / u * u
  {
  }

  /** Number(n) for a large `n`, which lies `r` above the double `p` that is `q` spacings of 2h. */
  lemma RoundedOnce(n: nat) returns (h: nat, q: nat, r: nat, p: nat)
    requires n >= MAX_EXACT
    ensures Spacing(n) == 2 * h && h >= 1 && q == n / (2 * h) && r == n % (2 * h)
    ensures p == q * (2 * h) && n == p + r && MAX_EXACT / 2 <= q < MAX_EXACT
    ensures ToNumber(n) == if RoundsUp(n) then p + 2 * h else p
  {
    h := SpacingRange(n);
    q, r := n / (2 * h), n % (2 * h);
    p := n - r;
    LowerHalf(h);
    QuotientBounds(n, 2 * h, MAX_EXACT / 2, MAX_EXACT);
    assert (q + 1) * (2 * h) == p + 2 * h;
    assert n == MAX_EXACT ==> h == 1;
  }

  lemma LowerHalf(h: nat)
    ensures MAX_EXACT / 2 * (2 * h) == h * MAX_EXACT && MAX_EXACT * (2 * h) == 2 * h * MAX_EXACT
  {
  }

  /** What comes of reading a large number and adding one. */
  lemma LargeSum(n: nat) returns (h: nat, q: nat, r: nat, p: nat)
    requires n >= MAX_EXACT
    ensures Spacing(n) == 2 * h && h >= 1 && r < 2 * h && n == p + r && p == q * (2 * h)
    ensures RoundsUp(n) <==> 2 * r > 2 * h || (2 * r == 2 * h && q % 2 == 1)
    ensures ToNumber(n) == if RoundsUp(n) then p + 2 * h else p
    ensures ToNumber(ToNumber(n) + 1) == SumAbove(h, q, p, RoundsUp(n))
  {
    h, q, r, p := RoundedOnce(n);
    if RoundsUp(n) {
      assert (q + 1) * (2 * h) == p + 2 * h;
      RoundedAgain(n, h, q + 1, p + 2 * h);
    } else {
      RoundedAgain(n, h, q, p);
    }
  }

  lemma ModuloFour(n: nat, q: nat, r: nat)
    requires n == 2 * q + r && r < 2
    ensures n % 4 == 2 * (q % 2) + r
  {
    assert q == 2 * (q / 2) + q % 2;
    QuotientIs(n, 4, q / 2, 2 * (q % 2) + r);
  }

  lemma SumByModuloFour(n: nat, q: nat, r: nat, up: bool)
    requires n == 2 * q + r && r < 2 && (up <==> r == 1 && q % 2 == 1)
    ensures SumAbove(1, q, 2 * q, up) ==
              if n % 4 == 2 then n + 2 else if n % 4 == 3 then n + 1 else if n % 4 == 1 then n - 1 else n
  {
    ModuloFour(n, q, r);
  }

  /** Between 2^53 and 2^54 only every other sum is exact. */
  lemma SumBelow54(n: nat)
    requires MAX_EXACT <= n < 2 * MAX_EXACT
    ensures ToNumber(ToNumber(n) + 1) ==
              if n % 4 == 2 then n + 2 else if n % 4 == 3 then n + 1 else if n % 4 == 1 then n - 1 else n
  {
    var h, q, r, p := LargeSum(n);
    SpacingBelow54(n);
    SumByModuloFour(n, q, r, RoundsUp(n));
  }

  lemma SpacingBelow54(n: nat)
    requires MAX_EXACT <= n < 2 * MAX_EXACT
    ensures Spacing(n) == 2
  {
    assert n / 2 < MAX_EXACT;
  }

  /** From 2^54 on adding one is lost. */
  lemma SumFrom54(n: nat)
    requires n >= 2 * MAX_EXACT
    ensures ToNumber(ToNumber(n) + 1) == ToNumber(n)
  {
    var h, q, r, p := LargeSum(n);
    assert h >= 2 by {
      var g := SpacingRange(n);
    }
  }

  /** Even numbers up to 2^54 are doubles. */
  lemma EvenIsExact(c: nat)
    requires c % 2 == 0 && c <= 2 * MAX_EXACT
    ensures ToNumber(c) == c
  {
    if MAX_EXACT < c < 2 * MAX_EXACT {
      assert c / 2 < MAX_EXACT;
      assert Spacing(c) == 2;
    } else if c == 2 * MAX_EXACT {
      assert Spacing(c) == 4;
    }
  }

  /** The last double of a range and the ones inside it are read exactly. */
  lemma NextDouble(n: nat, h: nat, q: nat)
    requires n >= MAX_EXACT && Spacing(n) == 2 * h && h >= 1 && MAX_EXACT / 2 <= q < MAX_EXACT
    requires n + 1 == (q + 1) * (2 * h)
    ensures ToNumber(n + 1) == n + 1
  {
    MultipleInRange(h, q + 1);
    SpacingInRange(n, h, n + 1);
    if q + 1 < MAX_EXACT {
      QuotientIs(n + 1, 2 * h, q + 1, 0);
    } else {
      LastOfRange(h);
      QuotientIs(n + 1, 4 * h, MAX_EXACT / 2, 0);
    }
  }

  lemma SameDouble(n: nat, h: nat, q: nat, r: nat, p: nat)
    requires n >= MAX_EXACT && Spacing(n) == 2 * h && h >= 1 && MAX_EXACT / 2 <= q < MAX_EXACT
    requires p == q * (2 * h) && n == p + r && r + 1 < 2 * h
    ensures Spacing(n + 1) == 2 * h && (n + 1) / (2 * h) == q && (n + 1) % (2 * h) == r + 1
  {
    MultipleInRange(h, q);
    SpacingInRange(n, h, n + 1);
    QuotientIs(n + 1, 2 * h, q, r + 1);
  }

  lemma ReadingGrowsByOne(n: nat)
    ensures ToNumber(n) <= ToNumber(n + 1)
  {
    if n >= MAX_EXACT {
      var h, q, r, p := RoundedOnce(n);
      assert (q + 1) * (2 * h) == p + 2 * h;
      if r + 1 == 2 * h {
        NextDouble(n, h, q);
      } else {
        SameDouble(n, h, q, r, p);
        RoundedFrom(n + 1);
      }
    }
  }

  /** Reading a numeral is monotone. */
  lemma {:induction false} ReadingIsMonotone(m: nat, n: nat)
    requires m <= n
    ensures ToNumber(m) <= ToNumber(n)
    decreases n
  {
    if m < n {
      ReadingIsMonotone(m, n - 1);
      ReadingGrowsByOne(n - 1);
    }
  }

  lemma LargeReadsLarge(c: nat)
    requires c >= 2 * MAX_EXACT + 4
    ensures ToNumber(c) >= 2 * MAX_EXACT + 4
  {
    assert Spacing(2 * MAX_EXACT + 4) == 4;
    ReadingIsMonotone(2 * MAX_EXACT + 4, c);
  }

  /** A round number reads back as a double up to 2^54 only if it is that double. */
  lemma RoundNumeralIsExact(c: nat, x: nat)
    requires c % 10 == 0 && x <= 2 * MAX_EXACT
    ensures ToNumber(c) == x ==> c == x
  {
    if c <= 2 * MAX_EXACT {
      EvenIsExact(c);
    } else {
      LargeReadsLarge(c);
    }
  }

  lemma {:induction false} ZerosAreMonotone(c: nat, d: nat, j: nat)
    requires c <= d
    ensures WithZeros(c, j) <= WithZeros(d, j)
  {
    if j > 0 {
      ZerosAreMonotone(c, d, j - 1);
    }
  }

  lemma {:induction false} ZeroFirst(c: nat, j: nat)
    ensures WithZeros(10 * c, j) == 10 * WithZeros(c, j)
  {
    if j > 0 {
      ZeroFirst(c, j - 1);
    }
  }

  /** Replacing the last digits by zeros rounds down. */
  lemma {:induction false} RoundsDown(x: nat, j: nat)
    ensures var c := WithoutDigits(x, j); WithZeros(c, j) <= x < WithZeros(c + 1, j)
  {
    if j > 0 {
      RoundsDown(x, j - 1);
      var d := WithoutDigits(x, j - 1);
      ZerosAreMonotone(10 * (d / 10), d, j - 1);
      ZerosAreMonotone(d + 1, 10 * (d / 10 + 1), j - 1);
      ZeroFirst(d / 10, j - 1);
      ZeroFirst(d / 10 + 1, j - 1);
    }
  }

  lemma EndsInZero(c: nat, j: nat)
    requires j > 0
    ensures WithZeros(c, j) % 10 == 0
  {
  }

  lemma CandidatesUpTo54(x: nat, lo: nat, hi: nat, loIsEven: bool)
    requires x <= 2 * MAX_EXACT && lo % 10 == 0 && hi % 10 == 0
    ensures var c := ReadsBackAs(x, lo, hi, loIsEven); c.None? || c.value == x
  {
    RoundNumeralIsExact(lo, x);
    RoundNumeralIsExact(hi, x);
  }

  lemma RoundNumeralUpTo54(x: nat, j: nat)
    requires x <= 2 * MAX_EXACT && j > 0
    ensures var c := RoundNumeral(x, j); c.None? || c.value == x
  {
    var c := WithoutDigits(x, j);
    EndsInZero(c, j);
    EndsInZero(c + 1, j);
    CandidatesUpTo54(x, WithZeros(c, j), WithZeros(c + 1, j), c % 2 == 0);
  }

  /** Doubles up to 2^54 are printed exactly. */
  lemma {:induction false} PrintedExactly(x: nat, j: nat)
    requires x <= 2 * MAX_EXACT
    ensures PrintedWith(x, j) == x
  {
    if j > 0 {
      RoundNumeralUpTo54(x, j);
      PrintedExactly(x, j - 1);
    }
  }

  lemma PrintedUpTo54(x: nat)
    requires x <= 2 * MAX_EXACT
    ensures Printed(x) == x
  {
    PrintedExactly(x, MOST_ZEROS);
  }

  function Distance(a: nat, b: nat): nat {
    if a <= b then b - a else a - b
  }

  /** If any numeral with `j` zeros reads back as the double, then the chosen one does, and none that
      does is closer. */
  lemma RoundNumeralIsClosest(x: nat, k: nat, j: nat)
    requires ToNumber(x) == x && ToNumber(WithZeros(k, j)) == x
    ensures var c := RoundNumeral(x, j); c.Some? && Distance(c.value, x) <= Distance(WithZeros(k, j), x)
  {
    var c := WithoutDigits(x, j);
    RoundsDown(x, j);
    if k <= c {
      ZerosAreMonotone(k, c, j);
      ReadingIsMonotone(WithZeros(k, j), WithZeros(c, j));
      ReadingIsMonotone(WithZeros(c, j), x);
    } else {
      ZerosAreMonotone(c + 1, k, j);
      ReadingIsMonotone(x, WithZeros(c + 1, j));
      ReadingIsMonotone(WithZeros(c + 1, j), WithZeros(k, j));
    }
  }

  /** What is printed reads back as the double, and no numeral that does ends in more zeros: if one with
      `j` zeros reads back, the printed one ends in `j` zeros or more. */
  lemma {:induction false} PrintedIsRoundest(x: nat, k: nat, j: nat, most: nat)
    requires ToNumber(x) == x && ToNumber(WithZeros(k, j)) == x && j <= most
    ensures ToNumber(PrintedWith(x, most)) == x
    ensures exists d: nat, i: nat :: j <= i && PrintedWith(x, most) == WithZeros(d, i)
  {
    var c := RoundNumeral(x, most);
    if most == 0 {
      assert PrintedWith(x, most) == WithZeros(x, 0);
    } else if c.Some? {
      var d := WithoutDigits(x, most);
      assert c.value == WithZeros(d, most) || c.value == WithZeros(d + 1, most);
    } else {
      if j == most {
        RoundNumeralIsClosest(x, k, j);
      }
      PrintedIsRoundest(x, k, j, most - 1);
    }
  }

  lemma SuccessorOf(n: nat, x: nat)
    requires x == ToNumber(ToNumber(n) + 1)
    ensures Successor(n) == Printed(x)
  {
  }

  lemma SmallSum(n: nat)
    requires n < MAX_EXACT
    ensures ToNumber(ToNumber(n) + 1) == n + 1
  {
  }

  lemma SmallSuccessor(n: nat)
    requires n < MAX_EXACT
    ensures Successor(n) == n + 1
  {
    SmallSum(n);
    SuccessorOf(n, n + 1);
    PrintedUpTo54(n + 1);
  }

  lemma SuccessorBelow54(n: nat)
    requires MAX_EXACT <= n < 2 * MAX_EXACT
    ensures Successor(n) == if n % 4 == 2 then n + 2 else if n % 4 == 3 then n + 1 else if n % 4 == 1 then n - 1 else n
  {
    SumBelow54(n);
    PrintedUpTo54(ToNumber(ToNumber(n) + 1));
  }

  lemma SuccessorFrom54(n: nat)
    requires n >= 2 * MAX_EXACT
    ensures Successor(n) == Printed(ToNumber(n))
  {
    SumFrom54(n);
  }

  /** How the successor compares with the number after `n`. */
  lemma SuccessorAgainstNext(n: nat)
    ensures Successor(n) > n + 1 <==> SkipsNext(n)
    ensures Successor(n) == n + 1 <==> ReachesNext(n)
  {
    if n < MAX_EXACT {
      SmallSuccessor(n);
    } else if n < 2 * MAX_EXACT {
      SuccessorBelow54(n);
    } else {
      SuccessorFrom54(n);
    }
  }

  /** The first number that skips. */
  lemma FirstSkip()
    ensures Successor(MAX_EXACT + 2) == MAX_EXACT + 4
  {
    SuccessorBelow54(MAX_EXACT + 2);
  }

  lemma NoSmallerSkip(n: nat)
    requires n < MAX_EXACT + 2
    ensures !SkipsNext(n)
  {
    if n >= MAX_EXACT {
      QuotientIs(n, 4, MAX_EXACT / 4, n - MAX_EXACT);
    }
  }

  // Printing matters: 2^54 + 24 is a double, adding one gives it back, and it is printed as 2^54 + 26,
  // which ends in a zero.

  const EXAMPLE := 2 * MAX_EXACT + 24  // 18014398509482008

  lemma ExampleDoubles()
    ensures ToNumber(EXAMPLE) == EXAMPLE == ToNumber(EXAMPLE + 2)
    ensures ToNumber(EXAMPLE - 8) < EXAMPLE < ToNumber(EXAMPLE + 8)
  {
    forall n: nat | 2 * MAX_EXACT <= n < 2 * MAX_EXACT + 100 ensures Spacing(n) == 4 {
      assert n / 2 / 2 < MAX_EXACT <= n / 2;
    }
  }

  lemma HundredsWithZeros(c: nat, j: nat)
    requires j >= 2
    ensures WithZeros(c, j) % 100 == 0
  {
    EndsInZero(c, j - 1);
    TenTimes(WithZeros(c, j - 1));
  }

  lemma TenTimes(y: nat)
    requires y % 10 == 0
    ensures 10 * y % 100 == 0
  {
    assert 10 * y == 100 * (y / 10);
  }

  /** No multiple of 100 reads back as the example. */
  lemma NoHundredReadsBack(m: nat)
    requires m % 100 == 0
    ensures ToNumber(m) != EXAMPLE
  {
    ExampleDoubles();
    if m <= EXAMPLE - 8 {
      ReadingIsMonotone(m, EXAMPLE - 8);
    } else {
      assert m >= EXAMPLE + 8;
      ReadingIsMonotone(EXAMPLE + 8, m);
    }
  }

  /** With two zeros or more there is none, with one there is the next multiple of ten. */
  lemma ExampleNumerals(j: nat)
    requires j >= 1
    ensures RoundNumeral(EXAMPLE, j) == if j == 1 then Some(EXAMPLE + 2) else None
  {
    var c := WithoutDigits(EXAMPLE, j);
    if j >= 2 {
      HundredsWithZeros(c, j);
      HundredsWithZeros(c + 1, j);
      NoHundredReadsBack(WithZeros(c, j));
      NoHundredReadsBack(WithZeros(c + 1, j));
    } else {
      ExampleDoubles();
      TenAroundExample();
    }
  }

  lemma TenAroundExample()
    ensures var c := WithoutDigits(EXAMPLE, 1); WithZeros(c, 1) == EXAMPLE - 8 && WithZeros(c + 1, 1) == EXAMPLE + 2
  {
    assert WithoutDigits(EXAMPLE, 1) == WithoutDigits(EXAMPLE, 0) / 10 == EXAMPLE / 10;
    var c := EXAMPLE / 10;
    assert WithZeros(c, 1) == 10 * WithZeros(c, 0) == 10 * c;
    assert WithZeros(c + 1, 1) == 10 * WithZeros(c + 1, 0) == 10 * c + 10;
  }

  lemma {:induction false} ExampleIsPrinted(j: nat)
    requires j >= 1
    ensures PrintedWith(EXAMPLE, j) == EXAMPLE + 2
  {
    ExampleNumerals(j);
    if j > 1 {
      ExampleIsPrinted(j - 1);
    }
  }

  /** The sum is right, and its numeral skips a number. */
  lemma PrintingSkips()
    ensures ToNumber(ToNumber(EXAMPLE) + 1) == EXAMPLE
    ensures Successor(EXAMPLE) == EXAMPLE + 2 && SkipsNext(EXAMPLE)
  {
    ExampleDoubles();
    SumFrom54(EXAMPLE);
    ExampleIsPrinted(MOST_ZEROS);
  }

  // ---------------------------------------------------------------- reading is rounding to nearest

  function Pow2(e: nat): (r: nat)
    ensures r >= 1
  {
    if e == 0 then 1 else 2 * Pow2(e - 1)
  }

  /** A mantissa of 53 bits, shifted. */
  function Scaled(k: nat, e: nat): nat {
    k * Pow2(e)
  }

  /** The doubles among the natural numbers. */
  ghost predicate IsDouble(x: nat) {
    exists k: nat, e: nat :: k <= MAX_EXACT && x == Scaled(k, e)
  }

  lemma {:induction false} SpacingIsPower(n: nat) returns (a: nat)
    ensures Spacing(n) == Pow2(a) && (n >= MAX_EXACT ==> a >= 1)
  {
    if n < MAX_EXACT {
      a := 0;
    } else {
      var b := SpacingIsPower(n / 2);
      a := b + 1;
    }
  }

  lemma {:induction false} PowerDivides(a: nat, b: nat) returns (m: nat)
    requires a <= b
    ensures Pow2(b) == m * Pow2(a) && m >= 1
  {
    if a == b {
      m := 1;
    } else {
      var half := PowerDivides(a, b - 1);
      m := 2 * half;
    }
  }

  lemma MultiplesAround(q: nat, u: nat, j: nat)
    ensures j * u <= q * u || q * u + u <= j * u
  {
    if j <= q {
      TimesMonotone(j, q, u);
    } else {
      NextMultiple(q, j, u);
    }
  }

  lemma LargeDouble(q: nat, a: nat, k: nat, e: nat)
    requires a <= e
    ensures Scaled(k, e) <= q * Pow2(a) || q * Pow2(a) + Pow2(a) <= Scaled(k, e)
  {
    var m := PowerDivides(a, e);
    Associate(k, m, Pow2(a));
    MultiplesAround(q, Pow2(a), k * m);
  }

  lemma Associate(a: nat, b: nat, c: nat)
    ensures a * (b * c) == a * b * c
  {
  }

  lemma SmallDouble(n: nat, h: nat, k: nat, e: nat, a: nat)
    requires Spacing(n) == Pow2(a) == 2 * h && h * MAX_EXACT <= n && k <= MAX_EXACT && e < a
    ensures Scaled(k, e) <= n / Spacing(n) * Spacing(n)
  {
    var m := PowerDivides(e, a - 1);
    TimesMonotone(1, m, Pow2(e));
    TimesMonotone(k, MAX_EXACT, Pow2(e));
    HalfRangeIsMultiple(n, h);
  }

  lemma HalfRangeIsMultiple(n: nat, h: nat)
    requires h >= 1 && h * MAX_EXACT <= n
    ensures h * MAX_EXACT <= n / (2 * h) * (2 * h)
  {
    var u := 2 * h;
    NextMultiple(n / u, MAX_EXACT / 2, u);
    TimesMonotone(MAX_EXACT / 2, n / u, u);
  }

  /** No double lies strictly between the multiples of the spacing around `n`. */
  lemma DoublesAroundNumber(n: nat, x: nat)
    requires n >= MAX_EXACT && IsDouble(x)
    ensures var lo := n / Spacing(n) * Spacing(n); x <= lo || lo + Spacing(n) <= x
  {
    var k: nat, e: nat :| k <= MAX_EXACT && x == Scaled(k, e);
    var a := SpacingIsPower(n);
    var h := SpacingRange(n);
    if e >= a {
      LargeDouble(n / Spacing(n), a, k, e);
    } else {
      SmallDouble(n, h, k, e, a);
    }
  }

  lemma NumberIsDouble(n: nat)
    ensures IsDouble(ToNumber(n))
  {
    if n <= MAX_EXACT {
      assert n == Scaled(n, 0);
    } else {
      var a := SpacingIsPower(n);
      var h := SpacingRange(n);
      QuotientBounds(n, Spacing(n), 0, MAX_EXACT);
      assert ToNumber(n) == Scaled(n / Spacing(n), a) || ToNumber(n) == Scaled(n / Spacing(n) + 1, a);
    }
  }

  lemma NearerOfTwo(n: nat, lo: nat, u: nat, down: bool, x: nat)
    requires lo <= n < lo + u && (x <= lo || lo + u <= x)
    requires 2 * (n - lo) < u ==> down
    requires 2 * (n - lo) > u ==> !down
    ensures var t := if down then lo else lo + u;
            && Distance(t, n) <= Distance(x, n)
            && (Distance(t, n) == Distance(x, n) && x != t ==> 2 * (n - lo) == u)
  {
  }

  lemma EvenMultiple(q: nat, u: nat)
    requires u >= 1 && q % 2 == 0
    ensures q * u % (2 * u) == 0
  {
    QuotientIs(q * u, 2 * u, q / 2, 0);
  }

  lemma Decompose(n: nat, u: nat) returns (q: nat, r: nat, lo: nat)
    requires u >= 1
    ensures q == n / u && r == n % u && lo == q * u
    ensures n == lo + r && r < u && (q + 1) * u == lo + u
  {
    q, r := n / u, n % u;
    lo := q * u;
  }

  lemma NumberIs(n: nat, u: nat, q: nat, r: nat)
    requires n > MAX_EXACT && u == Spacing(n) && q == n / u && r == n % u
    ensures ToNumber(n) == if 2 * r < u || (2 * r == u && q % 2 == 0) then q * u else (q + 1) * u
  {
  }

  /** The two candidates, and which of them is taken. */
  lemma Candidates(n: nat) returns (lo: nat, u: nat, down: bool)
    requires n > MAX_EXACT
    ensures u == Spacing(n) && lo == n / u * u && lo <= n < lo + u
    ensures ToNumber(n) == if down then lo else lo + u
    ensures 2 * (n - lo) < u ==> down
    ensures 2 * (n - lo) > u ==> !down
    ensures 2 * (n - lo) == u ==> (down <==> n / u % 2 == 0)
  {
    u := Spacing(n);
    var q, r;
    q, r, lo := Decompose(n, u);
    NumberIs(n, u, q, r);
    down := 2 * r < u || (2 * r == u && q % 2 == 0);
  }

  lemma TieIsEven(n: nat, lo: nat, u: nat, down: bool)
    requires u >= 1 && lo == n / u * u && (down <==> n / u % 2 == 0)
    ensures (if down then lo else lo + u) % (2 * u) == 0
  {
    var q, r, lo' := Decompose(n, u);
    EvenMultiple(if down then q else q + 1, u);
  }

  /** Reading a numeral gives the double nearest to it, and of two equally near ones that with an even
      last bit of the mantissa. */
  lemma ReadingIsRoundToNearestEven(n: nat, x: nat)
    requires IsDouble(x)
    ensures IsDouble(ToNumber(n))
    ensures Distance(ToNumber(n), n) <= Distance(x, n)
    ensures Distance(ToNumber(n), n) == Distance(x, n) && x != ToNumber(n) ==> ToNumber(n) % (2 * Spacing(n)) == 0
  {
    NumberIsDouble(n);
    if n > MAX_EXACT {
      var lo, u, down := Candidates(n);
      DoublesAroundNumber(n, x);
      NearerOfTwo(n, lo, u, down, x);
      if 2 * (n - lo) == u {
        TieIsEven(n, lo, u, down);
      }
    }
  }
}
