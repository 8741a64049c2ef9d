/** The truncated mean of hive/src/TruncMean.cxx. Square roots come from a parameter `sqrt`
    that is only known to be a non-negative root. */
module TruncMean {
  import opened Sorting
  import Doubles

  type Sqrt = real -> real

  function Product(a: real, b: real): real { a * b }

  function Square(d: real): real { Product(d, d) }

  ghost predicate IsRoot(sqrt: Sqrt) {
    forall x :: x >= 0.0 ==> sqrt(x) >= 0.0 && Square(sqrt(x)) == x
  }

  // ----- Mean, median and RMS -----

  function Sum(v: seq<real>): real {
    if v == [] then 0.0 else Sum(v[..|v| - 1]) + v[|v| - 1]
  }

  function MeanOf(v: seq<real>): real
    requires v != []
  {
    Sum(v) / |v| as real
  }

  method Mean(v: seq<real>) returns (mean: real)
    requires v != []
    ensures mean == MeanOf(v)
  {
    mean := 0.0;
    for i := 0 to |v|
      invariant mean == Sum(v[..i])
    {
      assert v[..i + 1][..i] == v[..i];
      mean := mean + v[i];
    }
    assert v[..|v|] == v;
    mean := mean / |v| as real;
  }

  const VALUE_ORDER: Order<real> := (x, y) => x <= y

  /** `Median`: the upper middle element of the sorted copy. */
  function Median(v: seq<real>): real
    requires v != []
  {
    if |v| == 1 then v[0] else Sorted(VALUE_ORDER, v)[|v| / 2]
  }

  lemma MedianIsElement(v: seq<real>)
    requires v != []
    ensures Median(v) in v
  {
    SortedIsSorted(VALUE_ORDER, v);
    assert Sorted(VALUE_ORDER, v)[|v| / 2] in multiset(Sorted(VALUE_ORDER, v));
  }

  function SquaredDeviations(v: seq<real>, avg: real): real {
    if v == [] then 0.0
    else SquaredDeviations(v[..|v| - 1], avg) + Square(v[|v| - 1] - avg)
  }

  /** `RMS`: of a single value it is that value, sign included. */
  function RmsOf(v: seq<real>, sqrt: Sqrt): real
    requires v != []
  {
    if |v| == 1 then v[0] else sqrt(SquaredDeviations(v, MeanOf(v)) / (|v| - 1) as real)
  }

  method Rms(v: seq<real>, sqrt: Sqrt) returns (rms: real)
    requires v != []
    ensures rms == RmsOf(v, sqrt)
  {
    if |v| == 1 {
      return v[0];
    }
    var avg := Mean(v);
    rms := 0.0;
    for i := 0 to |v|
      invariant rms == SquaredDeviations(v[..i], avg)
    {
      assert v[..i + 1][..i] == v[..i];
      rms := rms + (v[i] - avg) * (v[i] - avg);
    }
    assert v[..|v|] == v;
    rms := sqrt(rms / (|v| - 1) as real);
  }

  ghost predicate Within(v: seq<real>, lo: real, hi: real) {
    forall x :: x in v ==> lo <= x <= hi
  }

  lemma {:induction false} SumBounds(v: seq<real>, lo: real, hi: real)
    requires Within(v, lo, hi)
    ensures lo * |v| as real <= Sum(v) <= hi * |v| as real
  {
    if v != [] {
      var n := |v| - 1;
      assert v == v[..n] + [v[n]] && v[n] in v;
      forall x | x in v[..n]
        ensures lo <= x <= hi
      {
        assert x in v;
      }
      SumBounds(v[..n], lo, hi);
      assert lo * |v| as real == lo * n as real + lo;
      assert hi * |v| as real == hi * n as real + hi;
    }
  }

  lemma MeanBounds(v: seq<real>, lo: real, hi: real)
    requires v != [] && Within(v, lo, hi)
    ensures lo <= MeanOf(v) <= hi
  {
    SumBounds(v, lo, hi);
    Quotient(Sum(v), |v| as real, lo, hi);
  }

  lemma Quotient(x: real, n: real, lo: real, hi: real)
    requires n > 0.0 && lo * n <= x <= hi * n
    ensures lo <= x / n <= hi
  {
    var q := x / n;
    assert q * n == x;
    if q < lo {
      MulStrict(q, lo, n);
    }
    if q > hi {
      MulStrict(hi, q, n);
    }
  }

  lemma MulStrict(a: real, b: real, n: real)
    requires a < b && n > 0.0
    ensures a * n < b * n
  {
    assert (b - a) * n > 0.0;
  }

  lemma {:induction false} DeviationsSign(v: seq<real>, avg: real)
    ensures SquaredDeviations(v, avg) >= 0.0
    ensures SquaredDeviations(v, avg) == 0.0 <==> forall i :: 0 <= i < |v| ==> v[i] == avg
  {
    if v != [] {
      var n := |v| - 1;
      DeviationsSign(v[..n], avg);
      hide Square;
      SquareSign(v[n] - avg);
    }
  }

  lemma ProductSign(a: real, b: real)
    ensures a > 0.0 && b > 0.0 ==> Product(a, b) > 0.0
    ensures a > 0.0 && b < 0.0 ==> Product(a, b) < 0.0
    ensures a < 0.0 && b < 0.0 ==> Product(a, b) > 0.0
    ensures a == 0.0 || b == 0.0 ==> Product(a, b) == 0.0
  {
    if a > 0.0 && b < 0.0 {
      assert a * (-b) > 0.0;
    } else if a < 0.0 && b < 0.0 {
      assert (-a) * (-b) > 0.0;
    }
  }

  lemma SquareSign(d: real)
    ensures Square(d) >= 0.0 && (Square(d) == 0.0 <==> d == 0.0)
  {
    hide Product;
    ProductSign(d, d);
  }

  ghost predicate AllEqual(v: seq<real>) {
    forall i :: 0 <= i < |v| ==> v[i] == v[0]
  }

  /** The spread of several values is never negative and vanishes exactly when they agree. */
  lemma RmsSign(v: seq<real>, sqrt: Sqrt)
    requires IsRoot(sqrt) && |v| > 1
    ensures RmsOf(v, sqrt) >= 0.0
    ensures RmsOf(v, sqrt) == 0.0 <==> AllEqual(v)
  {
    hide Square, MeanOf;
    var avg := MeanOf(v);
    var s, n := SquaredDeviations(v, avg), (|v| - 1) as real;
    DeviationsSign(v, avg);
    QuotientSign(s, n);
    SquareSign(sqrt(s / n));
    if AllEqual(v) {
      assert Within(v, v[0], v[0]);
      MeanBounds(v, v[0], v[0]);
    }
  }

  lemma QuotientSign(s: real, n: real)
    requires s >= 0.0 && n > 0.0
    ensures s / n >= 0.0 && (s / n == 0.0 <==> s == 0.0)
  {
    assert (s / n) * n == s;
  }

  function SumOfSquares(v: seq<real>): real {
    if v == [] then 0.0 else SumOfSquares(v[..|v| - 1]) + Square(v[|v| - 1])
  }

  lemma Distributes(a: real, x: real, y: real)
    ensures Product(a, x + y) == Product(a, x) + Product(a, y)
    ensures Product(x + y, a) == Product(x, a) + Product(y, a)
    ensures Square(x - a) == Square(x) - 2.0 * Product(a, x) + Square(a)
  {}

  lemma {:induction false} DeviationsExpanded(v: seq<real>, a: real)
    ensures SquaredDeviations(v, a) == SumOfSquares(v) - 2.0 * Product(a, Sum(v)) + Product(|v| as real, Square(a))
  {
    if v == [] {
      ProductSign(a, 0.0);
      ProductSign(0.0, Square(a));
    } else {
      var n := |v| - 1;
      DeviationsExpanded(v[..n], a);
      hide Product, Square;
      Distributes(a, v[n], 0.0);
      Distributes(a, Sum(v[..n]), v[n]);
      Distributes(Square(a), n as real, 1.0);
      OneTimes(Square(a));
    }
  }

  lemma OneTimes(x: real)
    ensures Product(1.0, x) == x
  {}

  /** The spread by the textbook formula: n (n - 1) RMS^2 = n sum(x^2) - (sum x)^2. */
  lemma RmsByMoments(v: seq<real>, sqrt: Sqrt)
    requires IsRoot(sqrt) && |v| > 1
    ensures Product(|v| as real, Product((|v| - 1) as real, Square(RmsOf(v, sqrt))))
         == Product(|v| as real, SumOfSquares(v)) - Square(Sum(v))
  {
    var n, s, q, a := |v| as real, Sum(v), SumOfSquares(v), MeanOf(v);
    var d := SquaredDeviations(v, a);
    DeviationsSign(v, a);
    QuotientSign(d, (|v| - 1) as real);
    DeviationsExpanded(v, a);
    assert Product((|v| - 1) as real, Square(RmsOf(v, sqrt))) == d by {
      QuotientTimes(d, (|v| - 1) as real);
    }
    QuotientTimes(s, n);
    MomentAlgebra(n, s, q, a);
  }

  lemma QuotientTimes(x: real, n: real)
    requires n > 0.0
    ensures Product(n, x / n) == x
  {}

  lemma MomentAlgebra(n: real, s: real, q: real, a: real)
    requires Product(n, a) == s
    ensures Product(n, q - 2.0 * Product(a, s) + Product(n, Square(a))) == Product(n, q) - Square(s)
  {
    assert s == n * a;
    assert n * (q - 2.0 * (a * (n * a)) + n * (a * a)) == n * q - (n * a) * (n * a);
  }

  // ----- The median as a rank -----

  function CountBelow(v: seq<real>, m: real): nat {
    if v == [] then 0 else (if v[0] < m then 1 else 0) + CountBelow(v[1..], m)
  }

  function CountAbove(v: seq<real>, m: real): nat {
    if v == [] then 0 else (if v[0] > m then 1 else 0) + CountAbove(v[1..], m)
  }

  lemma {:induction false} InsertCounts(x: real, t: seq<real>, m: real)
    ensures CountBelow(Insert(VALUE_ORDER, x, t), m) == CountBelow(t, m) + if x < m then 1 else 0
    ensures CountAbove(Insert(VALUE_ORDER, x, t), m) == CountAbove(t, m) + if x > m then 1 else 0
  {
    if t != [] && x > t[0] {
      InsertCounts(x, t[1..], m);
    }
  }

  lemma {:induction false} SortedCounts(v: seq<real>, m: real)
    ensures CountBelow(Sorted(VALUE_ORDER, v), m) == CountBelow(v, m)
    ensures CountAbove(Sorted(VALUE_ORDER, v), m) == CountAbove(v, m)
  {
    if v != [] {
      SortedCounts(v[1..], m);
      InsertCounts(v[0], Sorted(VALUE_ORDER, v[1..]), m);
    }
  }

  lemma {:induction false} AscendingCounts(s: seq<real>, k: int, m: real)
    requires Ascending(VALUE_ORDER, s) && -1 <= k < |s|
    requires (k >= 0 ==> s[k] >= m) || k == -1
    ensures k >= 0 && s[k] == m ==> CountBelow(s, m) <= k && CountAbove(s, m) <= |s| - 1 - k
    ensures k == -1 && (forall i :: 0 <= i < |s| ==> s[i] >= m) ==> CountBelow(s, m) == 0 && CountAbove(s, m) <= |s|
  {
    if s != [] {
      AscendingCounts(s[1..], if k >= 1 then k - 1 else -1, m);
    }
  }

  /** The median is the upper middle: at most half of the values are below it, and fewer
      than half above. */
  lemma MedianRank(v: seq<real>)
    requires v != []
    ensures CountBelow(v, Median(v)) <= |v| / 2
    ensures CountAbove(v, Median(v)) <= |v| - 1 - |v| / 2
  {
    var m := Median(v);
    if |v| > 1 {
      SortedIsSorted(VALUE_ORDER, v);
      AscendingCounts(Sorted(VALUE_ORDER, v), |v| / 2, m);
      SortedCounts(v, m);
    }
  }

  // ----- The iterative truncated mean -----

  datatype Settings = Settings(nmin: nat, nmax: nat, limit: real, nsigma: real)

  /** A mean, or the read past the end that `Median` makes on an empty vector. */
  datatype Outcome = Value(r: real) | ReadPastEnd

  predicate Keeps(x: real, med: real, width: real) {
    !(x < med - width || x > med + width)
  }

  /** The half width of the band kept around the median. */
  function Width(nsigma: real, rms: real): real { Product(nsigma, rms) }

  /** What `erase(remove_if(...))` leaves. */
  function Trim(v: seq<real>, med: real, width: real): (t: seq<real>)
    ensures |t| <= |v|
  {
    if v == [] then []
    else
      var front := Trim(v[..|v| - 1], med, width);
      if Keeps(v[|v| - 1], med, width) then front + [v[|v| - 1]] else front
  }

  method EraseTails(v: seq<real>, med: real, nsigma: real, rms: real) returns (t: seq<real>)
    ensures t == Trim(v, med, Width(nsigma, rms))
  {
    t := [];
    for i := 0 to |v|
      invariant t == Trim(v[..i], med, Width(nsigma, rms))
    {
      assert v[..i + 1][..i] == v[..i];
      var x := v[i];
      if !(x < med - nsigma * rms || x > med + nsigma * rms) {
        t := t + [x];
      }
    }
    assert v[..|v|] == v;
  }

  /** `fabs(med - oldmed) / oldmed < limit`; a division by zero gives no small number. */
  predicate Converged(med: real, oldmed: real, limit: real) {
    oldmed != 0.0 && (if med >= oldmed then med - oldmed else oldmed - med) / oldmed < limit
  }

  /** The stopping test reads as intended for a positive previous median only: a negative one
      passes every positive limit, whatever the change, and a zero one never does. */
  lemma ConvergedIff(med: real, oldmed: real, limit: real)
    requires limit > 0.0
    ensures var change := if med >= oldmed then med - oldmed else oldmed - med;
      Converged(med, oldmed, limit) <==> oldmed < 0.0 || (oldmed > 0.0 && change < Product(limit, oldmed))
  {
    var change := if med >= oldmed then med - oldmed else oldmed - med;
    if oldmed != 0.0 {
      var f := change / oldmed;
      assert f * oldmed == change;
      if oldmed > 0.0 {
        if f < limit {
          MulStrict(f, limit, oldmed);
        } else if f > limit {
          MulStrict(limit, f, oldmed);
        }
      } else if f > 0.0 {
        ProductSign(f, -oldmed);
      }
    }
  }

  function TrimOnce(v: seq<real>, nsigma: real, sqrt: Sqrt): (t: seq<real>)
    requires v != []
    ensures |t| <= |v|
  {
    Trim(v, Median(v), Width(nsigma, RmsOf(v, sqrt)))
  }

  /** The recursion as written: the recursive call passes `lmin` where the parameter list has
      the iteration number, and the next iteration number where it has `lmin`. */
  function Iterate(v: seq<real>, s: Settings, iteration: nat, lmin: nat, oldmed: real, sqrt: Sqrt): Outcome
    decreases s.nmax + |v| - iteration - lmin
  {
    if v == [] then ReadPastEnd
    else if |v| < lmin || iteration >= s.nmax then Value(MeanOf(v))
    else if iteration >= s.nmin && Converged(Median(v), oldmed, s.limit) then Value(MeanOf(v))
    else Iterate(TrimOnce(v, s.nsigma, sqrt), s, lmin, iteration + 1, Median(v), sqrt)
  }

  method CalcIterativeTruncMean(v: seq<real>, s: Settings, currentiteration: nat, lmin: nat, oldmed: real, sqrt: Sqrt)
    returns (result: Outcome)
    ensures result == Iterate(v, s, currentiteration, lmin, oldmed, sqrt)
    decreases s.nmax + |v| - currentiteration - lmin
  {
    if v == [] {
      return ReadPastEnd;
    }
    var mean := Mean(v);
    var med := Median(v);
    var rms := Rms(v, sqrt);
    if |v| < lmin {
      return Value(mean);
    }
    if currentiteration >= s.nmax {
      return Value(mean);
    }
    if currentiteration >= s.nmin && Converged(med, oldmed, s.limit) {
      return Value(mean);
    }
    var w := EraseTails(v, med, s.nsigma, rms);
    result := CalcIterativeTruncMean(w, s, lmin, currentiteration + 1, med, sqrt);
  }

  lemma {:induction false} TrimMeaning(v: seq<real>, med: real, width: real, x: real)
    ensures x in Trim(v, med, width) <==> x in v && Keeps(x, med, width)
  {
    if v != [] {
      var n := |v| - 1;
      TrimMeaning(v[..n], med, width, x);
      assert v == v[..n] + [v[n]];
      assert x in v <==> x in v[..n] || x == v[n];
    }
  }

  /** A trim keeps exactly the values within nsigma RMS of the median, as often as they occur. */
  lemma TrimKeepsBand(v: seq<real>, nsigma: real, sqrt: Sqrt, x: real)
    requires v != []
    ensures var width := nsigma * RmsOf(v, sqrt);
      multiset(TrimOnce(v, nsigma, sqrt))[x] == if -width <= x - Median(v) <= width then multiset(v)[x] else 0
  {
    TrimBag(v, Median(v), Width(nsigma, RmsOf(v, sqrt)), x);
  }

  lemma {:induction false} TrimBag(v: seq<real>, med: real, width: real, x: real)
    ensures multiset(Trim(v, med, width))[x] == if -width <= x - med <= width then multiset(v)[x] else 0
  {
    if v != [] {
      var n := |v| - 1;
      TrimBag(v[..n], med, width, x);
      assert v == v[..n] + [v[n]];
    }
  }

  /** A trim empties the list exactly when the signed width is negative, since otherwise the
      median, which is one of the values, survives. */
  lemma TrimEmptiesIff(v: seq<real>, nsigma: real, sqrt: Sqrt)
    requires v != []
    ensures TrimOnce(v, nsigma, sqrt) == [] <==> Width(nsigma, RmsOf(v, sqrt)) < 0.0
  {
    var med, width := Median(v), Width(nsigma, RmsOf(v, sqrt));
    MedianIsElement(v);
    TrimMeaning(v, med, width, med);
    var t := Trim(v, med, width);
    if t != [] {
      TrimMeaning(v, med, width, t[0]);
      assert t[0] in t;
    }
  }

  /** Trimming only drops values. */
  lemma TrimWithin(v: seq<real>, nsigma: real, sqrt: Sqrt)
    requires v != []
    ensures forall x :: x in TrimOnce(v, nsigma, sqrt) ==> x in v
  {
    var med, width := Median(v), Width(nsigma, RmsOf(v, sqrt));
    forall x | x in Trim(v, med, width)
      ensures x in v
    {
      TrimMeaning(v, med, width, x);
    }
  }

  lemma TrimStaysWithin(v: seq<real>, nsigma: real, sqrt: Sqrt, lo: real, hi: real)
    requires v != [] && Within(v, lo, hi)
    ensures Within(TrimOnce(v, nsigma, sqrt), lo, hi)
  {
    TrimWithin(v, nsigma, sqrt);
    hide TrimOnce;
    forall x | x in TrimOnce(v, nsigma, sqrt)
      ensures lo <= x <= hi
    {
      assert x in v;
    }
  }

  /** With a non-negative number of sigmas, non-negative data never run empty. */
  lemma TrimKeepsNonNegativeData(v: seq<real>, nsigma: real, sqrt: Sqrt)
    requires IsRoot(sqrt) && v != [] && nsigma >= 0.0
    requires forall x :: x in v ==> x >= 0.0
    ensures TrimOnce(v, nsigma, sqrt) != []
  {
    if |v| > 1 {
      RmsSign(v, sqrt);
    } else {
      assert v[0] in v;
    }
    ProductSign(nsigma, RmsOf(v, sqrt));
    TrimEmptiesIff(v, nsigma, sqrt);
  }

  /** None of the three returns is taken: the list is trimmed and tried again. */
  predicate GoesOn(v: seq<real>, s: Settings, iteration: nat, lmin: nat, oldmed: real): (goesOn: bool)
    ensures v == [] || |v| < lmin || iteration >= s.nmax ==> !goesOn
    ensures v != [] && lmin <= |v| && iteration < s.nmax && iteration < s.nmin ==> goesOn
    ensures v != [] && lmin <= |v| && s.nmin <= iteration < s.nmax ==>
              (goesOn <==> !Converged(Median(v), oldmed, s.limit))
  {
    && v != [] && |v| >= lmin && iteration < s.nmax
    && !(iteration >= s.nmin && Converged(Median(v), oldmed, s.limit))
  }

  lemma IterateStep(v: seq<real>, s: Settings, iteration: nat, lmin: nat, oldmed: real, sqrt: Sqrt)
    ensures Iterate(v, s, iteration, lmin, oldmed, sqrt)
         == if v == [] then ReadPastEnd
            else if GoesOn(v, s, iteration, lmin, oldmed) then
              Iterate(TrimOnce(v, s.nsigma, sqrt), s, lmin, iteration + 1, Median(v), sqrt)
            else Value(MeanOf(v))
    ensures GoesOn(v, s, iteration, lmin, oldmed) ==> v != [] && |v| >= lmin && iteration < s.nmax
  {}

  /** Any value returned lies between the bounds of the data, whatever the settings. */
  lemma {:induction false} ValueWithinData(v: seq<real>, s: Settings, iteration: nat, lmin: nat, oldmed: real,
                                           sqrt: Sqrt, lo: real, hi: real)
    requires Within(v, lo, hi)
    ensures var r := Iterate(v, s, iteration, lmin, oldmed, sqrt); r.Value? ==> lo <= r.r <= hi
    decreases s.nmax + |v| - iteration - lmin
  {
    IterateStep(v, s, iteration, lmin, oldmed, sqrt);
    hide *;
    if GoesOn(v, s, iteration, lmin, oldmed) {
      TrimStaysWithin(v, s.nsigma, sqrt, lo, hi);
      ValueWithinData(TrimOnce(v, s.nsigma, sqrt), s, lmin, iteration + 1, Median(v), sqrt, lo, hi);
    } else if v != [] {
      MeanBounds(v, lo, hi);
    }
  }

  /** For non-empty non-negative data and nsigma >= 0 there is always a value. */
  lemma {:induction false} NonNegativeDataHaveMean(v: seq<real>, s: Settings, iteration: nat, lmin: nat, oldmed: real,
                                                   sqrt: Sqrt)
    requires IsRoot(sqrt) && v != [] && s.nsigma >= 0.0
    requires forall x :: x in v ==> x >= 0.0
    ensures Iterate(v, s, iteration, lmin, oldmed, sqrt).Value?
    decreases s.nmax + |v| - iteration - lmin
  {
    IterateStep(v, s, iteration, lmin, oldmed, sqrt);
    hide *;
    if GoesOn(v, s, iteration, lmin, oldmed) {
      TrimKeepsNonNegativeData(v, s.nsigma, sqrt);
      TrimWithin(v, s.nsigma, sqrt);
      NonNegativeDataHaveMean(TrimOnce(v, s.nsigma, sqrt), s, lmin, iteration + 1, Median(v), sqrt);
    }
  }

  // ----- When the recursion reads past the end -----

  /** A single negative value: its "RMS" is the value itself. */
  predicate Lone(v: seq<real>) {
    |v| == 1 && v[0] < 0.0
  }

  /** A trim with nsigma > 0 empties a single negative value and nothing else. */
  lemma NegativeWidthIff(v: seq<real>, nsigma: real, sqrt: Sqrt)
    requires IsRoot(sqrt) && v != [] && nsigma > 0.0
    ensures TrimOnce(v, nsigma, sqrt) == [] <==> Lone(v)
  {
    TrimEmptiesIff(v, nsigma, sqrt);
    if |v| > 1 {
      RmsSign(v, sqrt);
    }
    ProductSign(nsigma, RmsOf(v, sqrt));
  }

  /** With nsigma >= 0 a minimal length of two or more, in this call and the next, protects
      data of any sign: only a list of one value can be emptied. */
  lemma {:induction false} LongEnoughListsHaveMean(v: seq<real>, s: Settings, iteration: nat, lmin: nat, oldmed: real,
                                                   sqrt: Sqrt)
    requires IsRoot(sqrt) && v != [] && s.nsigma >= 0.0
    requires iteration >= 1 && lmin >= 2
    ensures Iterate(v, s, iteration, lmin, oldmed, sqrt).Value?
    decreases s.nmax + |v| - iteration - lmin
  {
    if GoesOn(v, s, iteration, lmin, oldmed) {
      RmsSign(v, sqrt);
      ProductSign(s.nsigma, RmsOf(v, sqrt));
      TrimEmptiesIff(v, s.nsigma, sqrt);
      LongEnoughListsHaveMean(TrimOnce(v, s.nsigma, sqrt), s, lmin, iteration + 1, Median(v), sqrt);
    }
  }

  /** One call, for nsigma > 0. */
  lemma ReadStep(v: seq<real>, s: Settings, iteration: nat, lmin: nat, oldmed: real, sqrt: Sqrt)
    requires IsRoot(sqrt) && v != [] && s.nsigma > 0.0
    ensures Iterate(v, s, iteration, lmin, oldmed, sqrt) == ReadPastEnd
       <==> (GoesOn(v, s, iteration, lmin, oldmed)
             && (Lone(v)
                 || Iterate(TrimOnce(v, s.nsigma, sqrt), s, lmin, iteration + 1, Median(v), sqrt) == ReadPastEnd))
    ensures TrimOnce(v, s.nsigma, sqrt) == [] <==> Lone(v)
  {
    NegativeWidthIff(v, s.nsigma, sqrt);
  }

  /** For nsigma > 0 the failing read happens exactly when one of the first three lists is
      trimmed while it is a single negative value. The exchanged arguments make the minimal
      length at least two from the fourth call on, so no later list can be emptied. */
  lemma ReadPastEndIff(v: seq<real>, s: Settings, iteration: nat, lmin: nat, oldmed: real, sqrt: Sqrt)
    requires IsRoot(sqrt) && v != [] && s.nsigma > 0.0
    ensures Iterate(v, s, iteration, lmin, oldmed, sqrt) == ReadPastEnd
       <==> (GoesOn(v, s, iteration, lmin, oldmed)
             && (Lone(v)
                 || var v1 := TrimOnce(v, s.nsigma, sqrt);
                    GoesOn(v1, s, lmin, iteration + 1, Median(v))
                    && (Lone(v1)
                        || var v2 := TrimOnce(v1, s.nsigma, sqrt);
                           GoesOn(v2, s, iteration + 1, lmin + 1, Median(v1)) && Lone(v2))))
  {
    hide Iterate, TrimOnce, Median;
    ReadStep(v, s, iteration, lmin, oldmed, sqrt);
    if GoesOn(v, s, iteration, lmin, oldmed) && !Lone(v) {
      var v1 := TrimOnce(v, s.nsigma, sqrt);
      ReadStep(v1, s, lmin, iteration + 1, Median(v), sqrt);
      if GoesOn(v1, s, lmin, iteration + 1, Median(v)) && !Lone(v1) {
        var v2 := TrimOnce(v1, s.nsigma, sqrt);
        ReadStep(v2, s, iteration + 1, lmin + 1, Median(v1), sqrt);
        if GoesOn(v2, s, iteration + 1, lmin + 1, Median(v1)) && !Lone(v2) {
          var v3 := TrimOnce(v2, s.nsigma, sqrt);
          ReadStep(v3, s, lmin + 1, iteration + 2, Median(v2), sqrt);
          if GoesOn(v3, s, lmin + 1, iteration + 2, Median(v2)) {
            LongEnoughListsHaveMean(TrimOnce(v3, s.nsigma, sqrt), s, iteration + 2, lmin + 2, Median(v3), sqrt);
          }
        }
      }
    }
  }

  /** A trim whose signed width is not negative keeps a list of equal values as it is. */
  lemma {:induction false} TrimKeepsEqualValues(v: seq<real>, med: real, width: real)
    requires width >= 0.0 && forall x :: x in v ==> x == med
    ensures Trim(v, med, width) == v
  {
    if v != [] {
      var n := |v| - 1;
      assert v == v[..n] + [v[n]];
      assert forall x :: x in v[..n] ==> x in v;
      assert v[n] in v;
      TrimKeepsEqualValues(v[..n], med, width);
    }
  }

  lemma {:induction false} UnchangedListHasMean(v: seq<real>, s: Settings, iteration: nat, lmin: nat, oldmed: real,
                                                sqrt: Sqrt)
    requires v != [] && TrimOnce(v, s.nsigma, sqrt) == v
    ensures Iterate(v, s, iteration, lmin, oldmed, sqrt).Value?
    decreases s.nmax + |v| - iteration - lmin
  {
    if GoesOn(v, s, iteration, lmin, oldmed) {
      UnchangedListHasMean(v, s, lmin, iteration + 1, Median(v), sqrt);
    }
  }

  lemma {:induction false} ZeroSigmasHaveMean(v: seq<real>, s: Settings, iteration: nat, lmin: nat, oldmed: real,
                                              sqrt: Sqrt)
    requires v != [] && s.nsigma == 0.0
    ensures Iterate(v, s, iteration, lmin, oldmed, sqrt).Value?
    decreases s.nmax + |v| - iteration - lmin
  {
    if GoesOn(v, s, iteration, lmin, oldmed) {
      ProductSign(0.0, RmsOf(v, sqrt));
      TrimEmptiesIff(v, s.nsigma, sqrt);
      ZeroSigmasHaveMean(TrimOnce(v, s.nsigma, sqrt), s, lmin, iteration + 1, Median(v), sqrt);
    }
  }

  /** For nsigma <= 0 the first trim decides: the read happens exactly when nsigma is negative
      and the list is trimmed while it holds a positive value alone or several that differ. */
  lemma ReadPastEndUpToZeroIff(v: seq<real>, s: Settings, iteration: nat, lmin: nat, oldmed: real, sqrt: Sqrt)
    requires IsRoot(sqrt) && v != [] && s.nsigma <= 0.0
    ensures Iterate(v, s, iteration, lmin, oldmed, sqrt) == ReadPastEnd
       <==> (s.nsigma < 0.0 && GoesOn(v, s, iteration, lmin, oldmed)
             && if |v| == 1 then v[0] > 0.0 else !AllEqual(v))
  {
    if s.nsigma == 0.0 {
      ZeroSigmasHaveMean(v, s, iteration, lmin, oldmed, sqrt);
    } else if GoesOn(v, s, iteration, lmin, oldmed) {
      if |v| > 1 {
        RmsSign(v, sqrt);
      }
      var width := Width(s.nsigma, RmsOf(v, sqrt));
      ProductSign(-s.nsigma, RmsOf(v, sqrt));
      assert width == -Product(-s.nsigma, RmsOf(v, sqrt));
      TrimEmptiesIff(v, s.nsigma, sqrt);
      if width >= 0.0 {
        MedianIsElement(v);
        forall x | x in v
          ensures x == Median(v)
        {
        }
        TrimKeepsEqualValues(v, Median(v), width);
        UnchangedListHasMean(v, s, iteration, lmin, oldmed, sqrt);
      }
    }
  }

  /** One negative value, at least one iteration and no convergence: the failing input. */
  lemma LoneValueReadsPastEnd(oldmed: real, sqrt: Sqrt)
    requires oldmed > 1000.0
    ensures Iterate([-1.0], Settings(0, 1, 0.5, 1.0), 0, 1, oldmed, sqrt) == ReadPastEnd
  {
    var v := [-1.0];
    ConvergedIff(-1.0, oldmed, 0.5);
    assert Product(0.5, oldmed) < oldmed + 1.0;
    TrimEmptiesIff(v, 1.0, sqrt);
    assert TrimOnce(v, 1.0, sqrt) == [];
  }

  /** One effect of the exchanged arguments: a minimal length of at least the maximal number
      of iterations stops the loop after a single trim, however many were allowed. */
  lemma LargeLminTrimsOnce(v: seq<real>, s: Settings, iteration: nat, lmin: nat, oldmed: real, sqrt: Sqrt)
    requires v != [] && lmin >= s.nmax
    ensures var r, t := Iterate(v, s, iteration, lmin, oldmed, sqrt), TrimOnce(v, s.nsigma, sqrt);
      r == Value(MeanOf(v)) || r == if t == [] then ReadPastEnd else Value(MeanOf(t))
  {}

  // ----- The truncated mean profile -----

  /** One output value; 0/0 is not a number. */
  datatype Sample = Number(r: real) | NotANumber

  function Distance(x: real, y: real): real {
    if x - y < 0.0 then -(x - y) else x - y
  }

  /** The values at indices lo .. hi - 1 whose coordinate is within `rad` of point n. */
  function Near(rr: seq<real>, dq: seq<real>, n: nat, lo: nat, hi: int, rad: real): seq<real>
    requires n < |dq| <= |rr| && hi <= |dq|
    decreases hi - lo
  {
    if hi <= lo then []
    else
      var front := Near(rr, dq, n, lo, hi - 1, rad);
      if Distance(rr[n], rr[hi - 1]) > rad then front else front + [dq[hi - 1]]
  }

  function FirstIndex(n: nat, neighbours: int): nat {
    if n - neighbours < 0 then 0 else n - neighbours
  }

  /** One past the last index looked at; the last point itself is never looked at. */
  function LastIndex(n: nat, neighbours: int, size: nat): int
    requires size > 0
  {
    if n + neighbours > size - 1 then size - 1 else n + neighbours
  }

  function Window(rr: seq<real>, dq: seq<real>, n: nat, rad: real): seq<real>
    requires n < |dq| <= |rr|
  {
    var neighbours := Doubles.Truncate(rad * 3.0 * 2.0);
    Near(rr, dq, n, FirstIndex(n, neighbours), LastIndex(n, neighbours, |dq|), rad)
  }

  /** The values strictly inside the band around the median. */
  function Inside(w: seq<real>, med: real, width: real): seq<real> {
    if w == [] then []
    else
      var front, x := Inside(w[..|w| - 1], med, width), w[|w| - 1];
      if x < med + width && x > med - width then front + [x] else front
  }

  function Band(w: seq<real>, nsigma: real, sqrt: Sqrt): seq<real>
    requires w != []
  {
    Inside(w, Median(w), Product(RmsOf(w, sqrt), nsigma))
  }

  function ProfileAt(rr: seq<real>, dq: seq<real>, n: nat, rad: real, nsigma: real, sqrt: Sqrt): Sample
    requires n < |dq| <= |rr|
  {
    var w := Window(rr, dq, n, rad);
    if w == [] then Number(dq[n])
    else
      var band := Band(w, nsigma, sqrt);
      if band == [] then NotANumber else Number(MeanOf(band))
  }

  method LocalMean(w: seq<real>, nsigma: real, sqrt: Sqrt) returns (s: Sample)
    requires w != []
    ensures var band := Band(w, nsigma, sqrt); s == if band == [] then NotANumber else Number(MeanOf(band))
  {
    var median := Median(w);
    var rms := Rms(w, sqrt);
    var truncated, npts := 0.0, 0;
    hide Product;
    ghost var width := Product(rms, nsigma);
    for i := 0 to |w|
      invariant truncated == Sum(Inside(w[..i], median, width)) && npts == |Inside(w[..i], median, width)|
    {
      assert w[..i + 1][..i] == w[..i];
      var dq := w[i];
      ghost var front := Inside(w[..i], median, width);
      if dq < median + Product(rms, nsigma) && dq > median - Product(rms, nsigma) {
        assert (front + [dq])[..|front|] == front;
        truncated := truncated + dq;
        npts := npts + 1;
      }
    }
    assert w[..|w|] == w;
    s := if npts == 0 then NotANumber else Number(truncated / npts as real);
  }

  /** The inner loop: the values around point n. */
  method LocalValues(rr: seq<real>, dq: seq<real>, n: nat, neighbours: int, rad: real) returns (local: seq<real>)
    requires n < |dq| <= |rr|
    ensures local == Near(rr, dq, n, FirstIndex(n, neighbours), LastIndex(n, neighbours, |dq|), rad)
  {
    var nmin, nmax := n - neighbours, n + neighbours;
    if nmin < 0 {
      nmin := 0;
    }
    if nmax > |dq| - 1 {
      nmax := |dq| - 1;
    }
    local := [];
    if nmin < nmax {
      for i := nmin to nmax
        invariant local == Near(rr, dq, n, nmin, i, rad)
      {
        var dr := rr[n] - rr[i];
        if dr < 0.0 {
          dr := dr * -1.0;
        }
        if dr > rad {
          continue;
        }
        local := local + [dq[i]];
      }
    }
  }

  method CalcTruncMeanProfile(rr: seq<real>, dq: seq<real>, rad: real, nsigma: real, sqrt: Sqrt)
    returns (out: seq<Sample>)
    requires |dq| <= |rr|
    ensures |out| == |dq|
    ensures forall n :: 0 <= n < |dq| ==> out[n] == ProfileAt(rr, dq, n, rad, nsigma, sqrt)
  {
    hide Near, Band, FirstIndex, LastIndex, Doubles.Truncate;
    var neighbours := Doubles.Truncate(rad * 3.0 * 2.0);
    out := [];
    for n := 0 to |dq|
      invariant |out| == n
      invariant forall m :: 0 <= m < n ==> out[m] == ProfileAt(rr, dq, m, rad, nsigma, sqrt)
    {
      var local := LocalValues(rr, dq, n, neighbours, rad);
      if |local| == 0 {
        out := out + [Number(dq[n])];
        continue;
      }
      var s := LocalMean(local, nsigma, sqrt);
      out := out + [s];
    }
  }

  lemma {:induction false} InsideMeaning(w: seq<real>, med: real, width: real, x: real)
    ensures x in Inside(w, med, width) <==> x in w && med - width < x < med + width
  {
    if w != [] {
      var n := |w| - 1;
      InsideMeaning(w[..n], med, width, x);
      assert w == w[..n] + [w[n]];
      assert x in w <==> x in w[..n] || x == w[n];
    }
  }

  lemma {:induction false} InsideBag(w: seq<real>, med: real, width: real, x: real)
    ensures multiset(Inside(w, med, width))[x] == if med - width < x < med + width then multiset(w)[x] else 0
  {
    if w != [] {
      var n := |w| - 1;
      InsideBag(w[..n], med, width, x);
      assert w == w[..n] + [w[n]];
    }
  }

  /** The band of a window: exactly the values strictly within `width` of the median. */
  ghost predicate IsBand(band: seq<real>, w: seq<real>, med: real, width: real) {
    forall x :: multiset(band)[x] == if -width < x - med < width then multiset(w)[x] else 0
  }

  lemma InsideIsBand(w: seq<real>, med: real, width: real)
    ensures IsBand(Inside(w, med, width), w, med, width)
  {
    forall x
      ensures multiset(Inside(w, med, width))[x] == if -width < x - med < width then multiset(w)[x] else 0
    {
      InsideBag(w, med, width, x);
    }
  }

  lemma MeanTimesCount(v: seq<real>)
    requires v != []
    ensures MeanOf(v) * |v| as real == Sum(v)
  {}

  /** A profile value is the mean of exactly those values of the window that lie strictly within
      nsigma RMS of its median. */
  lemma ProfileIsMean(rr: seq<real>, dq: seq<real>, n: nat, rad: real, nsigma: real, sqrt: Sqrt)
    requires n < |dq| <= |rr| && Window(rr, dq, n, rad) != []
    ensures var w, s := Window(rr, dq, n, rad), ProfileAt(rr, dq, n, rad, nsigma, sqrt);
      var band := Band(w, nsigma, sqrt);
      && IsBand(band, w, Median(w), Product(RmsOf(w, sqrt), nsigma))
      && (s.Number? ==> band != [] && s.r * |band| as real == Sum(band))
  {
    hide Median, RmsOf, MeanOf, IsBand, Inside, Sum, Product;
    var w := Window(rr, dq, n, rad);
    hide Window;
    var band := Band(w, nsigma, sqrt);
    InsideIsBand(w, Median(w), Product(RmsOf(w, sqrt), nsigma));
    if band != [] {
      MeanTimesCount(band);
    }
  }

  /** A profile value is the point itself when its window is empty, and otherwise lies between
      the bounds of the window. */
  lemma ProfileBounds(rr: seq<real>, dq: seq<real>, n: nat, rad: real, nsigma: real, sqrt: Sqrt, lo: real, hi: real)
    requires n < |dq| <= |rr|
    ensures var w, s := Window(rr, dq, n, rad), ProfileAt(rr, dq, n, rad, nsigma, sqrt);
      && (w == [] ==> s == Number(dq[n]))
      && (w != [] && Within(w, lo, hi) && s.Number? ==> lo <= s.r <= hi)
  {
    var w := Window(rr, dq, n, rad);
    if w != [] && Within(w, lo, hi) {
      var med, width := Median(w), Product(RmsOf(w, sqrt), nsigma);
      var band := Inside(w, med, width);
      forall x | x in band
        ensures lo <= x <= hi
      {
        InsideMeaning(w, med, width, x);
      }
      if band != [] {
        MeanBounds(band, lo, hi);
      }
    }
  }

  /** The division by zero happens exactly when the signed width of the band is not positive:
      a positive one always holds the median. */
  lemma NotANumberIff(rr: seq<real>, dq: seq<real>, n: nat, rad: real, nsigma: real, sqrt: Sqrt)
    requires n < |dq| <= |rr|
    ensures var w := Window(rr, dq, n, rad);
      ProfileAt(rr, dq, n, rad, nsigma, sqrt) == NotANumber
      <==> w != [] && Product(RmsOf(w, sqrt), nsigma) <= 0.0
  {
    hide Product;
    var w := Window(rr, dq, n, rad);
    if w != [] {
      var med, width := Median(w), Product(RmsOf(w, sqrt), nsigma);
      MedianIsElement(w);
      InsideMeaning(w, med, width, med);
      var band := Inside(w, med, width);
      if band != [] {
        InsideMeaning(w, med, width, band[0]);
        assert band[0] in band;
      }
    }
  }

  /** With positive data and nsigma > 0: exactly for windows of several equal values. */
  lemma PositiveDataNotANumberIff(rr: seq<real>, dq: seq<real>, n: nat, rad: real, nsigma: real, sqrt: Sqrt)
    requires IsRoot(sqrt) && n < |dq| <= |rr| && nsigma > 0.0
    requires forall i :: 0 <= i < |dq| ==> dq[i] > 0.0
    ensures var w := Window(rr, dq, n, rad);
      ProfileAt(rr, dq, n, rad, nsigma, sqrt) == NotANumber <==> |w| > 1 && AllEqual(w)
  {
    hide Product;
    var w := Window(rr, dq, n, rad);
    NotANumberIff(rr, dq, n, rad, nsigma, sqrt);
    if w != [] {
      if |w| > 1 {
        RmsSign(w, sqrt);
      } else {
        var neighbours := Doubles.Truncate(rad * 3.0 * 2.0);
        NearFromData(rr, dq, n, FirstIndex(n, neighbours), LastIndex(n, neighbours, |dq|), rad);
        assert w[0] in w;
      }
      ProductSign(nsigma, RmsOf(w, sqrt));
      ProductCommutes(nsigma, RmsOf(w, sqrt));
    }
  }

  lemma ProductCommutes(a: real, b: real)
    ensures Product(a, b) == Product(b, a)
  {}

  lemma {:induction false} NearFromData(rr: seq<real>, dq: seq<real>, n: nat, lo: nat, hi: int, rad: real)
    requires n < |dq| <= |rr| && hi <= |dq|
    ensures forall x :: x in Near(rr, dq, n, lo, hi, rad) ==> x in dq
    decreases hi - lo
  {
    if hi > lo {
      NearFromData(rr, dq, n, lo, hi - 1, rad);
    }
  }

  /** The indices behind `Near`. */
  function NearIndices(rr: seq<real>, n: nat, lo: nat, hi: int, rad: real): seq<nat>
    requires n < |rr| && hi <= |rr|
    decreases hi - lo
  {
    if hi <= lo then []
    else
      var front := NearIndices(rr, n, lo, hi - 1, rad);
      if Distance(rr[n], rr[hi - 1]) > rad then front else front + [hi - 1]
  }

  function WindowIndices(rr: seq<real>, size: nat, n: nat, rad: real): seq<nat>
    requires n < size <= |rr|
  {
    var neighbours := Doubles.Truncate(rad * 3.0 * 2.0);
    NearIndices(rr, n, FirstIndex(n, neighbours), LastIndex(n, neighbours, size), rad)
  }

  lemma {:induction false} NearValues(rr: seq<real>, dq: seq<real>, n: nat, lo: nat, hi: int, rad: real)
    requires n < |dq| <= |rr| && hi <= |dq|
    ensures var idx := NearIndices(rr, n, lo, hi, rad);
      && (forall k :: 0 <= k < |idx| ==> idx[k] < |dq|)
      && Near(rr, dq, n, lo, hi, rad) == seq(|idx|, k requires 0 <= k < |idx| && idx[k] < |dq| => dq[idx[k]])
    decreases hi - lo
  {
    if hi > lo {
      NearValues(rr, dq, n, lo, hi - 1, rad);
    }
  }

  lemma {:induction false} NearMeaning(rr: seq<real>, n: nat, lo: nat, hi: int, rad: real, i: nat)
    requires n < |rr| && hi <= |rr| && i < |rr|
    ensures i in NearIndices(rr, n, lo, hi, rad) <==> lo <= i < hi && Distance(rr[n], rr[i]) <= rad
    decreases hi - lo
  {
    if hi > lo {
      NearMeaning(rr, n, lo, hi - 1, rad, i);
    }
  }

  /** The window of a point holds the values of all indices closer than int(6 rad) steps, the
      last point excepted, whose coordinate is within `rad`. */
  lemma WindowMeaning(rr: seq<real>, dq: seq<real>, n: nat, rad: real, i: nat)
    requires n < |dq| <= |rr| && i < |dq|
    ensures var idx, neighbours := WindowIndices(rr, |dq|, n, rad), Doubles.Truncate(rad * 3.0 * 2.0);
      && (forall k :: 0 <= k < |idx| ==> idx[k] < |dq|)
      && Window(rr, dq, n, rad) == seq(|idx|, k requires 0 <= k < |idx| && idx[k] < |dq| => dq[idx[k]])
      && (i in idx <==> i < |dq| - 1 && n - neighbours <= i < n + neighbours
                        && -rad <= rr[n] - rr[i] <= rad)
      && (forall k, l :: 0 <= k < l < |idx| ==> idx[k] < idx[l])
  {
    hide Doubles.Truncate;
    var neighbours := Doubles.Truncate(rad * 3.0 * 2.0);
    var lo, hi := FirstIndex(n, neighbours), LastIndex(n, neighbours, |dq|);
    NearValues(rr, dq, n, lo, hi, rad);
    NearMeaning(rr, n, lo, hi, rad, i);
    forall k, l | 0 <= k < l < |NearIndices(rr, n, lo, hi, rad)|
      ensures NearIndices(rr, n, lo, hi, rad)[k] < NearIndices(rr, n, lo, hi, rad)[l]
    {
      NearAscends(rr, n, lo, hi, rad, k, l);
    }
  }

  lemma {:induction false} NearAscends(rr: seq<real>, n: nat, lo: nat, hi: int, rad: real, k: nat, l: nat)
    requires n < |rr| && hi <= |rr| && k < l < |NearIndices(rr, n, lo, hi, rad)|
    ensures var idx := NearIndices(rr, n, lo, hi, rad); idx[k] < idx[l]
    decreases hi - lo
  {
    var front := NearIndices(rr, n, lo, hi - 1, rad);
    if l < |front| {
      NearAscends(rr, n, lo, hi - 1, rad, k, l);
    } else {
      NearBound(rr, n, lo, hi - 1, rad, k);
    }
  }

  lemma {:induction false} NearBound(rr: seq<real>, n: nat, lo: nat, hi: int, rad: real, k: nat)
    requires n < |rr| && hi <= |rr| && k < |NearIndices(rr, n, lo, hi, rad)|
    ensures NearIndices(rr, n, lo, hi, rad)[k] < hi
    decreases hi - lo
  {
    var front := NearIndices(rr, n, lo, hi - 1, rad);
    if k < |front| {
      NearBound(rr, n, lo, hi - 1, rad, k);
      assert NearIndices(rr, n, lo, hi, rad)[k] == front[k];
    }
  }

  /** Among points in each other's reach, the last one excepted, being a neighbour is mutual. */
  lemma NeighboursAreMutual(rr: seq<real>, dq: seq<real>, n: nat, i: nat, rad: real)
    requires n < |dq| - 1 && i < |dq| - 1 && |dq| <= |rr|
    requires -Doubles.Truncate(rad * 3.0 * 2.0) < n - i < Doubles.Truncate(rad * 3.0 * 2.0)
    ensures i in WindowIndices(rr, |dq|, n, rad) <==> n in WindowIndices(rr, |dq|, i, rad)
  {
    WindowMeaning(rr, dq, n, rad, i);
    WindowMeaning(rr, dq, i, rad, n);
  }

  /** So a point takes part in its own average exactly when it is not the last one and the
      radius is at least one sixth: the upper end of the window is exclusive. */
  lemma OwnWindowIff(rr: seq<real>, dq: seq<real>, n: nat, rad: real)
    requires n < |dq| <= |rr|
    ensures n in WindowIndices(rr, |dq|, n, rad) <==> n < |dq| - 1 && rad * 6.0 >= 1.0
  {
    WindowMeaning(rr, dq, n, rad, n);
    assert rad * 3.0 * 2.0 == rad * 6.0;
    assert Doubles.Truncate(rad * 6.0) >= 1 <==> rad * 6.0 >= 1.0;
  }
}
