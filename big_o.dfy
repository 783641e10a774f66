/**
 * The nine example functions of the Big-O tutorial script (index.js).
 *
 * Each JavaScript function writes its result with console.log; here that
 * output is the method's result: a returned number, or the returned sequence
 * of the lines it emits, in emission order.
 */
module BigO {
  import opened Sequences

  // ---------------------------------------------------------------------------
  // addUpTo and addUpToo: the sum 1 + 2 + ... + n, by a loop and in closed form
  // ---------------------------------------------------------------------------

  /** 1 + 2 + ... + n; the empty sum 0 when n <= 0. */
  function SumTo(n: int): int
    decreases if n < 0 then 0 else n
  {
    if n <= 0 then 0 else SumTo(n - 1) + n
  }

  /** Of two consecutive integers one is even, so n * (n + 1) is even. */
  lemma ConsecutiveProductIsEven(n: int)
    ensures (n * (n + 1)) % 2 == 0
  {
    var q := n / 2;
    if n % 2 == 0 {
      assert n * (n + 1) == 2 * (q * (n + 1));
    } else {
      assert n + 1 == 2 * (q + 1);
      assert n * (n + 1) == 2 * (n * (q + 1));
    }
  }

  /** Twice the sum 1 + ... + n is n * (n + 1), for every n >= 0. */
  lemma {:induction false} SumToClosedForm(n: int)
    requires n >= 0
    ensures 2 * SumTo(n) == n * (n + 1)
  {
    if n > 0 {
      SumToClosedForm(n - 1);
      assert (n - 1) * n + 2 * n == n * (n + 1);
    }
  }

  /**
   * addUpToo: the closed form n * (n + 1) / 2. The division is exact, and for
   * every n >= 0 the value is the sum that addUpTo computes; for n <= -2 the
   * formula is positive, whereas addUpTo prints 0.
   */
  function AddUpToo(n: int): (r: int)
    ensures 2 * r == n * (n + 1)
    ensures n >= 0 ==> r == SumTo(n)
    ensures n <= -2 ==> r > 0 && SumTo(n) == 0
  {
    ConsecutiveProductIsEven(n);
    if n >= 0 then SumToClosedForm(n); n * (n + 1) / 2
    else
      assert n <= -2 ==> n * (n + 1) == (-n) * (-n - 1) && (-n) * (-n - 1) > 0;
      n * (n + 1) / 2
  }

  /**
   * addUpTo: adds i to a running total for i = 1, 2, ..., n. The loop never
   * runs when n <= 0, and the total is then 0.
   */
  method AddUpTo(n: int) returns (total: int)
    ensures total == SumTo(n)
    ensures n <= 0 ==> total == 0
    ensures n >= 0 ==> total == AddUpToo(n) && 2 * total == n * (n + 1)
  {
    total := 0;
    var i := 1;
    while i <= n
      invariant 1 <= i <= Max(1, n + 1)
      invariant total == SumTo(i - 1)
    {
      total := total + i;
      i := i + 1;
    }
  }

  /** The values the script's driver calls print: 21, 5050 and 500000500000. */
  lemma AddUpToDemo()
    ensures SumTo(6) == 21 && SumTo(100) == 5050 && SumTo(1000000) == 500000500000
  {
    SumToClosedForm(6);
    SumToClosedForm(100);
    SumToClosedForm(1000000);
  }

  /** The closed form gives the same values for the same driver inputs. */
  lemma AddUpTooDemo()
    ensures AddUpToo(6) == 21 && AddUpToo(100) == 5050 && AddUpToo(1000000) == 500000500000
  {
    AddUpToDemo();
  }

  // ---------------------------------------------------------------------------
  // countUpAndDown
  // ---------------------------------------------------------------------------

  /** One line written by countUpAndDown: a marker text or a number. */
  datatype Line = Text(text: string) | Number(value: int)

  const GoingUp: string := "Going Up!"
  const AtTheTop: string := "At the top"
  const BackDown: string := "Back down safely!"

  /**
   * The lines lo, lo + 1, ..., hi - 1, counting up: Interval's run, each
   * number as a line. It is defined by its own recursion, mirroring
   * Descending, so that each pass of the counting loops unfolds it by one step
   * without reasoning about a mapped sequence.
   */
  function Ascending(lo: int, hi: int): seq<Line>
    decreases hi - lo
  {
    if hi <= lo then [] else Ascending(lo, hi - 1) + [Number(hi - 1)]
  }

  /** The lines hi - 1, hi - 2, ..., lo, counting down. */
  function Descending(lo: int, hi: int): seq<Line>
    decreases hi - lo
  {
    if hi <= lo then [] else Descending(lo + 1, hi) + [Number(lo)]
  }

  /** Counting up from lo to hi - 1 gives max(0, hi - lo) lines, line k holding lo + k. */
  lemma {:induction false} AscendingAt(lo: int, hi: int)
    ensures |Ascending(lo, hi)| == Max(0, hi - lo)
    ensures forall k :: 0 <= k < |Ascending(lo, hi)| ==> Ascending(lo, hi)[k] == Number(lo + k)
    decreases hi - lo
  {
    if lo < hi {
      AscendingAt(lo, hi - 1);
    }
  }

  /** Counting up can also be read from its low end: lo first, then lo + 1 .. hi - 1. */
  lemma {:induction false} AscendingFromLow(lo: int, hi: int)
    requires lo < hi
    ensures Ascending(lo, hi) == [Number(lo)] + Ascending(lo + 1, hi)
    decreases hi - lo
  {
    if lo + 1 < hi {
      AscendingFromLow(lo, hi - 1);
    }
  }

  /** Counting down over a range is counting up over it, reversed. */
  lemma {:induction false} DescendingIsReversed(lo: int, hi: int)
    ensures Descending(lo, hi) == Reversed(Ascending(lo, hi))
    decreases hi - lo
  {
    if lo < hi {
      DescendingIsReversed(lo + 1, hi);
      AscendingFromLow(lo, hi);
      var t := Ascending(lo + 1, hi);
      assert ([Number(lo)] + t)[1..] == t;
    }
  }

  /** What countUpAndDown(n) writes, block by block. */
  function UpAndDown(n: int): seq<Line>
  {
    [Text(GoingUp)] + Ascending(0, n) + [Text(AtTheTop)] + Descending(0, n) + [Text(BackDown)]
  }

  /**
   * Where the markers and the two blocks sit: 2n numbers and three markers
   * (n taken as 0 when negative), the ascending block 0 .. n-1, and the
   * descending block its reverse.
   */
  lemma UpAndDownLayout(n: int)
    ensures var out, m := UpAndDown(n), Max(0, n);
      |out| == 2 * m + 3 && out[0] == Text(GoingUp) && out[m + 1] == Text(AtTheTop) &&
      out[2 * m + 2] == Text(BackDown) &&
      (forall k :: 0 <= k < m ==> out[1..m + 1][k] == Number(k)) &&
      out[m + 2..2 * m + 2] == Reversed(out[1..m + 1])
  {
    var up, down := Ascending(0, n), Descending(0, n);
    AscendingAt(0, n);
    DescendingIsReversed(0, n);
    var out := UpAndDown(n);
    assert out[1..|up| + 1] == up;
    assert out[|up| + 2..2 * |up| + 2] == down;
  }

  /** The script's driver call countUpAndDown(15): 33 lines, 14 then 0 just before the end marker. */
  lemma CountUpAndDownDemo()
    ensures |UpAndDown(15)| == 33
    ensures UpAndDown(15)[0] == Text(GoingUp) && UpAndDown(15)[16] == Text(AtTheTop)
    ensures UpAndDown(15)[32] == Text(BackDown)
    ensures UpAndDown(15)[1..16] == Ascending(0, 15)
    ensures forall k :: 0 <= k < 15 ==> UpAndDown(15)[1 + k] == Number(k) && UpAndDown(15)[31 - k] == Number(k)
  {
    UpAndDownLayout(15);
    var out := UpAndDown(15);
    forall k | 0 <= k < 15
      ensures out[1 + k] == Number(k) && out[31 - k] == Number(k)
    {
      assert out[1..16][k] == Number(k);
      assert out[17..32][14 - k] == out[1..16][k];
    }
  }

  /**
   * countUpAndDown: the start marker, 0 .. n-1 ascending, the middle marker,
   * n-1 .. 0 descending, the end marker.
   */
  method CountUpAndDown(n: int) returns (out: seq<Line>)
    ensures out == UpAndDown(n)
  {
    out := [Text(GoingUp)];
    var i := 0;
    while i < n
      invariant 0 <= i <= Max(0, n)
      invariant out == [Text(GoingUp)] + Ascending(0, i)
    {
      out := out + [Number(i)];
      i := i + 1;
    }
    out := out + [Text(AtTheTop)];
    var j := n - 1;
    while j >= 0
      invariant j <= n - 1 && (j >= -1 || j == n - 1)
      invariant out == [Text(GoingUp)] + Ascending(0, n) + [Text(AtTheTop)] + Descending(j + 1, n)
    {
      out := out + [Number(j)];
      j := j - 1;
    }
    out := out + [Text(BackDown)];
  }

  // ---------------------------------------------------------------------------
  // printAllPairs
  // ---------------------------------------------------------------------------

  /** Row i of the pairs: (i, 0), (i, 1), ..., (i, n - 1). */
  function Row(i: int, n: nat): seq<(int, int)>
  {
    seq(n, j requires 0 <= j < n => (i, j))
  }

  /** Rows 0 .. rows-1 of the pairs, one after the other (row-major order). */
  function AllPairs(rows: nat, n: nat): (r: seq<(int, int)>)
    ensures |r| == rows * n
  {
    if rows == 0 then [] else AllPairs(rows - 1, n) + Row(rows - 1, n)
  }

  /** The pair at position i * n + j is (i, j). */
  lemma {:induction false} AllPairsAt(rows: nat, n: nat, i: int, j: int)
    requires 0 <= i < rows && 0 <= j < n
    ensures i * n + j < |AllPairs(rows, n)| && AllPairs(rows, n)[i * n + j] == (i, j)
  {
    var prev := AllPairs(rows - 1, n);
    if i == rows - 1 {
      assert AllPairs(rows, n)[|prev| + j] == Row(rows - 1, n)[j];
    } else {
      AllPairsAt(rows - 1, n, i, j);
      assert AllPairs(rows, n)[i * n + j] == prev[i * n + j];
    }
  }

  /** Multiplying by a non-negative number keeps the order. */
  lemma MulMonotone(a: int, b: int, n: nat)
    requires a <= b
    ensures a * n <= b * n
  {
  }

  /** Conversely, the pair at position k is (k / n, k % n): every position is some (i, j). */
  lemma AllPairsIndex(rows: nat, n: nat, k: int)
    requires 0 <= k < |AllPairs(rows, n)|
    ensures n > 0 && AllPairs(rows, n)[k] == (k / n, k % n)
  {
    var i, j := k / n, k % n;
    assert k == i * n + j;
    if i >= rows {
      MulMonotone(rows, i, n);
      assert false;
    }
    AllPairsAt(rows, n, i, j);
  }

  /**
   * printAllPairs: for i in 0 .. n-1 and, inside, j in 0 .. n-1, emits (i, j).
   * Exactly n * n pairs, none when n <= 0.
   */
  method PrintAllPairs(n: int) returns (pairs: seq<(int, int)>)
    ensures |pairs| == Max(0, n) * Max(0, n)
    ensures n <= 0 ==> pairs == []
    ensures pairs == AllPairs(Max(0, n), Max(0, n))
    ensures forall k :: 0 <= k < |pairs| ==> pairs[k] == (k / Max(0, n), k % Max(0, n))
  {
    var m := Max(0, n);
    pairs := [];
    var i := 0;
    while i < n
      invariant 0 <= i <= m
      invariant pairs == AllPairs(i, m)
    {
      var j := 0;
      while j < n
        invariant 0 <= j <= m
        invariant pairs == AllPairs(i, m) + Row(i, m)[..j]
      {
        assert Row(i, m)[..j + 1] == Row(i, m)[..j] + [(i, j)];
        pairs := pairs + [(i, j)];
        j := j + 1;
      }
      assert Row(i, m)[..m] == Row(i, m);
      i := i + 1;
    }
    forall k | 0 <= k < |pairs|
      ensures pairs[k] == (k / m, k % m)
    {
      AllPairsIndex(m, m, k);
    }
  }

  /** The order the script's driver call printAllPairs(3) prints. */
  lemma PrintAllPairsDemo()
    ensures AllPairs(3, 3) == [(0, 0), (0, 1), (0, 2), (1, 0), (1, 1), (1, 2), (2, 0), (2, 1), (2, 2)]
  {
  }

  // ---------------------------------------------------------------------------
  // numberOfHalves
  // ---------------------------------------------------------------------------

  /** 2 to the power k, as a real number. */
  function Pow2(k: nat): (r: real)
    ensures r >= 1.0
  {
    if k == 0 then 1.0 else 2.0 * Pow2(k - 1)
  }

  /** Powers of two grow with the exponent. */
  lemma {:induction false} Pow2Monotone(i: nat, j: nat)
    requires i <= j
    ensures Pow2(i) <= Pow2(j)
    decreases j
  {
    if i < j {
      Pow2Monotone(i, j - 1);
    }
  }

  /** 2^k exceeds k, so every real number is below some power of two. */
  lemma {:induction false} Pow2Exceeds(k: nat)
    ensures Pow2(k) >= k as real + 1.0
  {
    if k > 0 {
      Pow2Exceeds(k - 1);
    }
  }

  /** For a positive divisor p, n / p exceeds 1 exactly when n exceeds p. */
  lemma QuotientAboveOne(n: real, p: real)
    requires p > 0.0
    ensures n / p > 1.0 <==> n > p
  {
    assert n / p * p == n;
  }

  /** Halving n / 2^k once more gives n / 2^(k+1). */
  lemma HalveAgain(n: real, k: nat)
    ensures n / Pow2(k) / 2.0 == n / Pow2(k + 1)
  {
    var p := Pow2(k);
    assert Pow2(k + 1) == 2.0 * p;
    assert n / p / 2.0 * (2.0 * p) == n;
  }

  /** c is the least number of halvings after which n is at most 1. */
  ghost predicate IsHalvingCount(n: real, c: nat)
  {
    n / Pow2(c) <= 1.0 && forall k: nat :: k < c ==> n / Pow2(k) > 1.0
  }

  /** The least number of halvings is unique. */
  lemma HalvingCountUnique(n: real, c1: nat, c2: nat)
    requires IsHalvingCount(n, c1) && IsHalvingCount(n, c2)
    ensures c1 == c2
  {
  }

  /**
   * The least halving count, read as a bracket between powers of two: c is
   * it exactly when n <= 2^c and, for c > 0, 2^(c-1) < n. For n > 1 that is
   * the ceiling of log2(n).
   */
  lemma HalvingCountIsCeilLog2(n: real, c: nat)
    ensures IsHalvingCount(n, c) <==> n <= Pow2(c) && (c > 0 ==> Pow2(c - 1) < n)
  {
    QuotientAboveOne(n, Pow2(c));
    if c > 0 {
      QuotientAboveOne(n, Pow2(c - 1));
      if n <= Pow2(c) && Pow2(c - 1) < n {
        forall k: nat | k < c
          ensures n / Pow2(k) > 1.0
        {
          Pow2Monotone(k, c - 1);
          QuotientAboveOne(n, Pow2(k));
        }
      }
    }
  }

  /**
   * numberOfHalves: halves n (real division) and counts while n > 1. The
   * count is 0 exactly when n <= 1, and otherwise the c with
   * 2^(c-1) < n <= 2^c, so n / 2^c <= 1 < n / 2^(c-1).
   */
  method NumberOfHalves(n: real) returns (count: nat)
    ensures n <= 1.0 <==> count == 0
    ensures n <= Pow2(count)
    ensures count > 0 ==> Pow2(count - 1) < n
  {
    var x := n;
    count := 0;
    ghost var bound: nat := if n <= 1.0 then 0 else n.Floor + 1;
    Pow2Exceeds(bound);
    while x > 1.0
      invariant x == n / Pow2(count)
      invariant count > 0 ==> Pow2(count - 1) < n
      invariant count <= bound
      decreases bound - count
    {
      QuotientAboveOne(n, Pow2(count));
      if count >= bound {
        Pow2Monotone(bound, count);
        assert false;
      }
      HalveAgain(n, count);
      x := x / 2.0;
      count := count + 1;
    }
    QuotientAboveOne(n, Pow2(count));
  }

  /** 2^16 and 2^17, computed one doubling at a time. */
  lemma Pow2Sixteen()
    ensures Pow2(16) == 65536.0 && Pow2(17) == 131072.0
  {
    assert Pow2(1) == 2.0 && Pow2(2) == 4.0 && Pow2(3) == 8.0 && Pow2(4) == 16.0;
    assert Pow2(5) == 32.0 && Pow2(6) == 64.0 && Pow2(7) == 128.0 && Pow2(8) == 256.0;
    assert Pow2(9) == 512.0 && Pow2(10) == 1024.0 && Pow2(11) == 2048.0 && Pow2(12) == 4096.0;
    assert Pow2(13) == 8192.0 && Pow2(14) == 16384.0 && Pow2(15) == 32768.0;
  }

  /** The script's driver call numberOfHalves(100000) prints 17. */
  lemma NumberOfHalvesDemo(c: nat)
    requires IsHalvingCount(100000.0, c)
    ensures c == 17
  {
    HalvingCountIsCeilLog2(100000.0, c);
    Pow2Sixteen();
    if c <= 16 {
      Pow2Monotone(c, 16);
    } else if c >= 18 {
      Pow2Monotone(17, c - 1);
    }
  }

  // ---------------------------------------------------------------------------
  // logAtLeastFive and logAtMostFive
  // ---------------------------------------------------------------------------

  /** logAtLeastFive: emits 1, 2, ..., max(5, n), so never fewer than five numbers. */
  method LogAtLeastFive(n: int) returns (out: seq<int>)
    ensures out == Interval(1, Max(5, n) + 1)
    ensures |out| == Max(5, n) && |out| >= 5
    ensures forall k :: 0 <= k < |out| ==> out[k] == k + 1
  {
    out := [];
    var i := 1;
    while i <= Max(5, n)
      invariant 1 <= i <= Max(5, n) + 1
      invariant out == Interval(1, i)
    {
      out := out + [i];
      i := i + 1;
    }
  }

  /** logAtMostFive: emits 1, 2, ..., min(5, n), so never more than five numbers. */
  method LogAtMostFive(n: int) returns (out: seq<int>)
    ensures out == Interval(1, Min(5, n) + 1)
    ensures |out| == Max(0, Min(5, n)) && |out| <= 5
    ensures forall k :: 0 <= k < |out| ==> out[k] == k + 1
  {
    out := [];
    var i := 1;
    while i <= Min(5, n)
      invariant 1 <= i <= Max(1, Min(5, n) + 1)
      invariant out == Interval(1, i)
    {
      out := out + [i];
      i := i + 1;
    }
  }

  /**
   * What the two functions emit: logAtMostFive's numbers are always a prefix
   * of logAtLeastFive's, and the two agree exactly when n is 5.
   */
  lemma LogsCompared(n: int)
    ensures Interval(1, Min(5, n) + 1) <= Interval(1, Max(5, n) + 1)
    ensures Interval(1, Min(5, n) + 1) == Interval(1, Max(5, n) + 1) <==> n == 5
  {
  }

  /** The script's driver calls: logAtLeastFive(9), logAtLeastFive(3), logAtMostFive(9), logAtMostFive(3). */
  lemma LogFiveDemo()
    ensures Interval(1, Max(5, 9) + 1) == [1, 2, 3, 4, 5, 6, 7, 8, 9]
    ensures Interval(1, Max(5, 3) + 1) == [1, 2, 3, 4, 5]
    ensures Interval(1, Min(5, 9) + 1) == [1, 2, 3, 4, 5]
    ensures Interval(1, Min(5, 3) + 1) == [1, 2, 3]
  {
  }

  // ---------------------------------------------------------------------------
  // onlyElementsAtEvenIndex
  // ---------------------------------------------------------------------------

  /** The elements of s at the even positions 0, 2, 4, ..., in order. */
  function EvenIndexed<T>(s: seq<T>): (r: seq<T>)
    ensures |r| == (|s| + 1) / 2
    ensures forall k :: 0 <= k < |r| ==> r[k] == s[2 * k]
  {
    if |s| <= 1 then s else [s[0]] + EvenIndexed(s[2..])
  }

  /**
   * onlyElementsAtEvenIndex: a new array of ceil(length / 2) slots whose slot
   * i / 2 receives a[i] for each even i, so every slot is filled. The input
   * array is not modified (the method has no modifies clause).
   */
  method OnlyElementsAtEvenIndex<T(0)>(a: array<T>) returns (b: array<T>)
    ensures fresh(b)
    ensures b.Length == (a.Length + 1) / 2
    ensures forall k :: 0 <= k < b.Length ==> b[k] == a[2 * k]
    ensures b[..] == EvenIndexed(a[..])
  {
    b := new T[(a.Length + 1) / 2];
    var i := 0;
    while i < a.Length
      invariant 0 <= i <= a.Length
      invariant forall k :: 0 <= k < (i + 1) / 2 ==> b[k] == a[2 * k]
    {
      if i % 2 == 0 {
        b[i / 2] := a[i];
      }
      i := i + 1;
    }
  }

  /** The script's driver call onlyElementsAtEvenIndex([5,6,2,7,8,9,4,5]). */
  lemma EvenIndexedDemo()
    ensures EvenIndexed([5, 6, 2, 7, 8, 9, 4, 5]) == [5, 2, 8, 4]
  {
  }

  // ---------------------------------------------------------------------------
  // subtotals
  // ---------------------------------------------------------------------------

  /** out[i] == s[0] + ... + s[i] for every position i. */
  function PrefixSums(s: seq<int>): seq<int>
  {
    seq(|s|, i requires 0 <= i < |s| => Sum(s[..i + 1]))
  }

  /**
   * The running-total reading of the prefix sums: each entry is the previous
   * entry plus the next element (the linear-time alternative to subtotals).
   */
  function RunningTotals(s: seq<int>): (r: seq<int>)
    ensures |r| == |s|
  {
    if s == [] then []
    else
      var p := RunningTotals(s[..|s| - 1]);
      p + [(if p == [] then 0 else p[|p| - 1]) + s[|s| - 1]]
  }

  /** Re-summing every prefix from scratch and keeping a running total agree. */
  lemma {:induction false} PrefixSumsAreRunningTotals(s: seq<int>)
    ensures PrefixSums(s) == RunningTotals(s)
    decreases |s|
  {
    if s != [] {
      var init := s[..|s| - 1];
      PrefixSumsAreRunningTotals(init);
      var p, q, r := PrefixSums(s), PrefixSums(init), RunningTotals(init);
      var last := (if r == [] then 0 else r[|r| - 1]) + s[|s| - 1];
      assert RunningTotals(s) == r + [last];
      forall i | 0 <= i < |s|
        ensures p[i] == (r + [last])[i]
      {
        if i < |s| - 1 {
          assert s[..i + 1] == init[..i + 1];
          assert p[i] == q[i];
        } else {
          assert s[..i + 1] == s;
          assert p[i] == Sum(s) == Sum(init) + s[|s| - 1];
          if i > 0 {
            assert init[..i] == init;
            assert r[|r| - 1] == q[i - 1] == Sum(init);
          }
        }
      }
    }
  }

  /** Each prefix sum is the one before it plus the next element. */
  lemma PrefixSumsStep(s: seq<int>, i: int)
    requires 0 < i < |s|
    ensures PrefixSums(s)[i] == PrefixSums(s)[i - 1] + s[i]
  {
    assert s[..i + 1][..i] == s[..i];
  }

  /**
   * subtotals: a new array of the input's length whose slot i holds
   * a[0] + ... + a[i], each re-summed from scratch by the inner loop.
   */
  method Subtotals(a: array<int>) returns (b: array<int>)
    ensures fresh(b)
    ensures b[..] == PrefixSums(a[..])
    ensures b.Length > 0 ==> b[0] == a[0]
    ensures forall i :: 0 < i < b.Length ==> b[i] == b[i - 1] + a[i]
  {
    b := new int[a.Length];
    var i := 0;
    while i < a.Length
      invariant 0 <= i <= a.Length
      invariant forall k :: 0 <= k < i ==> b[k] == Sum(a[..k + 1])
    {
      var subtotal := 0;
      var j := 0;
      while j <= i
        invariant 0 <= j <= i + 1
        invariant subtotal == Sum(a[..j])
      {
        assert a[..j + 1][..j] == a[..j];
        subtotal := subtotal + a[j];
        j := j + 1;
      }
      b[i] := subtotal;
      i := i + 1;
    }
    forall i | 0 < i < b.Length
      ensures b[i] == b[i - 1] + a[i]
    {
      PrefixSumsStep(a[..], i);
    }
  }

  /** The script's driver call subtotals([23,92,12,34,94]). */
  lemma SubtotalsDemo()
    ensures PrefixSums([23, 92, 12, 34, 94]) == [23, 115, 127, 161, 255]
  {
    var s := [23, 92, 12, 34, 94];
    assert s[..1] == [23] && [23][..0] == [];
    PrefixSumsStep(s, 1);
    PrefixSumsStep(s, 2);
    PrefixSumsStep(s, 3);
    PrefixSumsStep(s, 4);
  }
}
