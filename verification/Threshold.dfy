/** Otsu's threshold of a histogram (src/Transforms.cc, threshold), in exact arithmetic. */
module Threshold {

  /** The number of pixels at levels lo to hi. */
  function Count(h: seq<nat>, lo: nat, hi: nat): (n: nat)
    requires lo <= hi <= |h|
  {
    if lo == hi then 0 else Count(h, lo, hi - 1) + h[hi - 1]
  }

  /** The sum of their levels. */
  function Moment(h: seq<nat>, lo: nat, hi: nat): nat
    requires lo <= hi <= |h|
  {
    if lo == hi then 0 else Moment(h, lo, hi - 1) + (hi - 1) * h[hi - 1]
  }

  function Mean(h: seq<nat>, lo: nat, hi: nat): real
    requires lo <= hi <= |h| && Count(h, lo, hi) > 0
  {
    Moment(h, lo, hi) as real / Count(h, lo, hi) as real
  }

  /** Level n splits the pixels into two classes, at most n and above n, neither of them empty. */
  predicate Splits(h: seq<nat>, n: nat) {
    n < |h| && Count(h, 0, n + 1) > 0 && Count(h, n + 1, |h|) > 0
  }

  lemma {:induction false} CountPositiveIff(h: seq<nat>, lo: nat, hi: nat)
    requires lo <= hi <= |h|
    ensures Count(h, lo, hi) > 0 <==> exists i :: lo <= i < hi && h[i] > 0
    decreases hi
  {
    if lo < hi { CountPositiveIff(h, lo, hi - 1); }
  }

  /** A level splits the pixels if and only if there are pixels at most that bright and brighter ones. */
  lemma SplitsIff(h: seq<nat>, n: nat)
    ensures Splits(h, n) <==> exists i, j :: 0 <= i <= n < j < |h| && h[i] > 0 && h[j] > 0
  {
    if n < |h| {
      CountPositiveIff(h, 0, n + 1);
      CountPositiveIff(h, n + 1, |h|);
    }
  }

  /** The variance between the two classes, times the square of the number of pixels. */
  function Between(h: seq<nat>, n: nat): real
    requires Splits(h, n)
  {
    Variance(Count(h, 0, n + 1) as real, Count(h, n + 1, |h|) as real, Mean(h, 0, n + 1), Mean(h, n + 1, |h|))
  }

  function Variance(wb: real, wf: real, mb: real, mf: real): real {
    Spread(wb * wf, mb - mf)
  }

  function Spread(w: real, d: real): real {
    Times(w, Times(d, d))
  }

  function Times(x: real, y: real): real {
    x * y
  }

  lemma {:induction false} Adds(h: seq<nat>, lo: nat, mid: nat, hi: nat)
    requires lo <= mid <= hi <= |h|
    ensures Count(h, lo, hi) == Count(h, lo, mid) + Count(h, mid, hi)
    ensures Moment(h, lo, hi) == Moment(h, lo, mid) + Moment(h, mid, hi)
    decreases hi
  {
    if mid < hi { Adds(h, lo, mid, hi - 1); }
  }

  lemma {:induction false} AtLeast(h: seq<nat>, lo: nat, hi: nat, k: nat)
    requires k <= lo <= hi <= |h|
    ensures k * Count(h, lo, hi) <= Moment(h, lo, hi)
    decreases hi
  {
    if lo < hi {
      AtLeast(h, lo, hi - 1, k);
      Step(Count(h, lo, hi - 1), h[hi - 1], k, hi - 1);
    }
  }

  lemma {:induction false} AtMost(h: seq<nat>, lo: nat, hi: nat, k: nat)
    requires lo <= hi <= |h| && hi <= k + 1
    ensures Moment(h, lo, hi) <= k * Count(h, lo, hi)
    decreases hi
  {
    if lo < hi {
      AtMost(h, lo, hi - 1, k);
      Step(Count(h, lo, hi - 1), h[hi - 1], hi - 1, k);
    }
  }

  lemma Step(c: nat, x: nat, j: nat, k: nat)
    requires j <= k
    ensures j * x <= k * x && j * (c + x) == j * c + j * x && k * (c + x) == k * c + k * x
  {
    assert k * x == j * x + (k - j) * x;
  }

  lemma QuotientAtMost(n: nat, d: nat, k: nat)
    requires d > 0 && n <= k * d
    ensures n as real / d as real <= k as real
  {
    assert n as real / d as real * d as real == n as real <= k as real * d as real;
  }

  lemma QuotientAtLeast(n: nat, d: nat, k: nat)
    requires d > 0 && k * d <= n
    ensures k as real <= n as real / d as real
  {
    assert n as real / d as real * d as real == n as real >= k as real * d as real;
  }

  /** The classes of a split have different means, so their variance is never zero. */
  lemma BetweenPositive(h: seq<nat>, n: nat)
    requires Splits(h, n)
    ensures Between(h, n) > 0.0
  {
    var wb, wf := Count(h, 0, n + 1), Count(h, n + 1, |h|);
    AtMost(h, 0, n + 1, n);
    AtLeast(h, n + 1, |h|, n + 1);
    QuotientAtMost(Moment(h, 0, n + 1), wb, n);
    QuotientAtLeast(Moment(h, n + 1, |h|), wf, n + 1);
    VariancePositive(wb as real, wf as real, Mean(h, 0, n + 1), Mean(h, n + 1, |h|));
  }

  lemma VariancePositive(wb: real, wf: real, mb: real, mf: real)
    requires wb > 0.0 && wf > 0.0 && mb < mf
    ensures Variance(wb, wf, mb, mf) > 0.0
  {
    hide Spread;
    assert wb * wf > 0.0;
    SpreadPositive(wb * wf, mb - mf);
  }

  lemma SpreadPositive(w: real, d: real)
    requires w > 0.0 && d < 0.0
    ensures Spread(w, d) > 0.0
  {
    hide Times;
    TimesPositive(d, d);
    TimesPositive(w, Times(d, d));
  }

  lemma TimesPositive(x: real, y: real)
    requires (x > 0.0 && y > 0.0) || (x < 0.0 && y < 0.0)
    ensures Times(x, y) > 0.0
  {
  }

  /** best is the smallest of the levels below n that split h with the greatest variance. */
  ghost predicate Best(h: seq<nat>, n: nat, best: nat) {
    && best < n && Splits(h, best)
    && (forall k :: 0 <= k < n && Splits(h, k) ==> Between(h, k) <= Between(h, best))
    && (forall k :: 0 <= k < best && Splits(h, k) ==> Between(h, k) < Between(h, best))
  }

  predicate NoSplit(h: seq<nat>, n: nat) {
    forall k :: 0 <= k < n ==> !Splits(h, k)
  }

  /** The state of the second loop. */
  ghost predicate Seen(h: seq<nat>, n: nat, best: nat, max: real) {
    if NoSplit(h, n) then best == 0 && max == 0.0 else Best(h, n, best) && max == Between(h, best)
  }

  lemma SeenStep(h: seq<nat>, n: nat, best: nat, max: real)
    requires n < |h| && Seen(h, n, best, max)
    ensures !Splits(h, n) ==> Seen(h, n + 1, best, max)
    ensures Splits(h, n) && Between(h, n) > max ==> Seen(h, n + 1, n, Between(h, n))
    ensures Splits(h, n) && Between(h, n) <= max ==> Seen(h, n + 1, best, max)
  {
    hide Splits, Between;
    if Splits(h, n) { BetweenPositive(h, n); }
    assert !NoSplit(h, n) ==> !NoSplit(h, n + 1);
  }

  /** Once the upper class is empty, so are all later ones. */
  lemma {:induction false} NoneLater(h: seq<nat>, n: nat, k: nat)
    requires n <= k < |h| && Count(h, n + 1, |h|) == 0
    ensures !Splits(h, k)
  {
    Adds(h, n + 1, k + 1, |h|);
  }

  lemma SeenAll(h: seq<nat>, n: nat, best: nat, max: real)
    requires n < |h| && Seen(h, n, best, max) && Count(h, n + 1, |h|) == 0
    ensures Seen(h, |h|, best, max)
  {
    forall k | n <= k < |h| ensures !Splits(h, k) { NoneLater(h, n, k); }
    hide Splits, Between;
  }

  function Term(n: nat, x: nat): real { n as real * x as real }

  lemma SumStep(h: seq<nat>, n: nat)
    requires n < |h|
    ensures Count(h, 0, n + 1) == Count(h, 0, n) + h[n]
    ensures Moment(h, 0, n + 1) as real == Moment(h, 0, n) as real + Term(n, h[n])
    ensures Count(h, 0, n + 1) == 0 ==> Term(n, h[n]) == 0.0
  {
  }

  /** What the loop computes from its running sums, up to and including level n. */
  lemma LevelIs(h: seq<nat>, n: nat, np: nat, sum: real, wb: real, sumb: real)
    requires n < |h| && np == Count(h, 0, |h|) && sum == Moment(h, 0, |h|) as real
    requires wb == Count(h, 0, n + 1) as real && sumb == Moment(h, 0, n + 1) as real
    ensures wb == 0.0 ==> !Splits(h, n)
    ensures np as real - wb == Count(h, n + 1, |h|) as real
    ensures wb != 0.0 && np as real - wb != 0.0 ==>
      Splits(h, n) && Between(h, n) == Variance(wb, np as real - wb, sumb / wb, (sum - sumb) / (np as real - wb))
  {
    hide Variance;
    Adds(h, 0, n + 1, |h|);
  }

  /** The smallest level of greatest variance, as a byte; 0 if no level splits the pixels. */
  method Otsu(histogram: seq<nat>) returns (otsu: nat)
    ensures NoSplit(histogram, |histogram|) ==> otsu == 0
    ensures !NoSplit(histogram, |histogram|) ==> exists best: nat :: Best(histogram, |histogram|, best) && otsu == best % 256
  {
    hide Count, Moment, Term, Variance, Splits, Between, Seen;
    var bits := |histogram|;
    var sum, sumb, np := 0.0, 0.0, 0;
    NothingSeen(histogram);
    for n := 0 to bits
      invariant np == Count(histogram, 0, n) && sum == Moment(histogram, 0, n) as real
    {
      np := np + histogram[n];
      sum := sum + Term(n, histogram[n]);
      SumStep(histogram, n);
    }
    var wb, max := 0.0, 0.0;
    ghost var best := 0;
    otsu := 0;
    for n := 0 to bits
      invariant wb == Count(histogram, 0, n) as real && sumb == Moment(histogram, 0, n) as real
      invariant Seen(histogram, n, best, max) && otsu == best % 256
    {
      wb := wb + histogram[n] as real;
      SumStep(histogram, n);
      LevelIs(histogram, n, np, sum, wb, sumb + Term(n, histogram[n]));
      SeenStep(histogram, n, best, max);
      if wb == 0.0 {
        continue;
      }
      var wf := np as real - wb;
      if wf == 0.0 {
        SeenAll(histogram, n, best, max);
        break;
      }
      sumb := sumb + Term(n, histogram[n]);
      var mb := sumb / wb;
      var mf := (sum - sumb) / wf;
      var diff := Variance(wb, wf, mb, mf);
      if diff > max {
        otsu := n % 256;
        max := diff;
        best := n;
      }
    }
    SeenIs(histogram, best, max);
  }

  lemma SeenIs(h: seq<nat>, best: nat, max: real)
    requires Seen(h, |h|, best, max)
    ensures if NoSplit(h, |h|) then best == 0 else Best(h, |h|, best)
  {
  }

  lemma NothingSeen(h: seq<nat>)
    ensures Count(h, 0, 0) == Moment(h, 0, 0) == 0 && Seen(h, 0, 0, 0.0)
  {
  }

  /******* What the greatest variance between the classes means *******/

  /** The squared distances from m of the levels of the pixels at levels lo to hi. */
  function Scatter(h: seq<nat>, lo: nat, hi: nat, m: real): real
    requires lo <= hi <= |h|
  {
    if lo == hi then 0.0 else Scatter(h, lo, hi - 1, m) + Deviation(h[hi - 1] as real, (hi - 1) as real, m)
  }

  function Deviation(x: real, level: real, m: real): real {
    x * (level - m) * (level - m)
  }

  /** The scatter within the two classes of a split, each about its own mean. */
  function Within(h: seq<nat>, n: nat): real
    requires Splits(h, n)
  {
    Scatter(h, 0, n + 1, Mean(h, 0, n + 1)) + Scatter(h, n + 1, |h|, Mean(h, n + 1, |h|))
  }

  function Squares(h: seq<nat>, lo: nat, hi: nat): real
    requires lo <= hi <= |h|
  {
    if lo == hi then 0.0 else Squares(h, lo, hi - 1) + Deviation(h[hi - 1] as real, (hi - 1) as real, 0.0)
  }

  lemma {:induction false} SquaresAdd(h: seq<nat>, lo: nat, mid: nat, hi: nat)
    requires lo <= mid <= hi <= |h|
    ensures Squares(h, lo, hi) == Squares(h, lo, mid) + Squares(h, mid, hi)
    decreases hi
  {
    hide Deviation;
    if mid < hi { SquaresAdd(h, lo, mid, hi - 1); }
  }

  function Expanded(q: real, s: real, w: real, m: real): real {
    q - 2.0 * m * s + m * m * w
  }

  lemma DeviationIs(q: real, s: real, w: real, x: nat, level: nat, m: real)
    ensures Expanded(q, s, w, m) + Deviation(x as real, level as real, m)
         == Expanded(q + Deviation(x as real, level as real, 0.0), s + Term(level, x), w + x as real, m)
  {
  }

  lemma LastLevel(h: seq<nat>, lo: nat, hi: nat)
    requires lo < hi <= |h|
    ensures Count(h, lo, hi) as real == Count(h, lo, hi - 1) as real + h[hi - 1] as real
    ensures Moment(h, lo, hi) as real == Moment(h, lo, hi - 1) as real + Term(hi - 1, h[hi - 1])
  {
  }

  lemma {:induction false} ScatterIs(h: seq<nat>, lo: nat, hi: nat, m: real)
    requires lo <= hi <= |h|
    ensures Scatter(h, lo, hi, m) == Expanded(Squares(h, lo, hi), Moment(h, lo, hi) as real, Count(h, lo, hi) as real, m)
    decreases hi
  {
    if lo < hi {
      hide Expanded, Deviation, Count, Moment, Term;
      ScatterIs(h, lo, hi - 1, m);
      LastLevel(h, lo, hi);
      DeviationIs(Squares(h, lo, hi - 1), Moment(h, lo, hi - 1) as real, Count(h, lo, hi - 1) as real, h[hi - 1], hi - 1, m);
    }
  }

  function Balance(all: real, within: real, between: real): real {
    all * within + between
  }

  function Total(all: real, squares: real, moment: real): real {
    all * squares - moment * moment
  }

  /** Two classes of weights wb and wf with means mb and mf. */
  lemma TwoClasses(wb: real, wf: real, mb: real, mf: real, qb: real, qf: real, sb: real, sf: real)
    requires sb == mb * wb && sf == mf * wf
    ensures Balance(wb + wf, Expanded(qb, sb, wb, mb) + Expanded(qf, sf, wf, mf), Variance(wb, wf, mb, mf))
         == Total(wb + wf, qb + qf, sb + sf)
  {
  }

  lemma MeanIs(h: seq<nat>, lo: nat, hi: nat)
    requires lo <= hi <= |h| && Count(h, lo, hi) > 0
    ensures Moment(h, lo, hi) as real == Mean(h, lo, hi) * Count(h, lo, hi) as real
  {
  }

  /** The scatter within the classes and the variance between them add up to a total that does not
      depend on where the pixels are split. */
  lemma ScatterSplits(h: seq<nat>, n: nat)
    requires Splits(h, n)
    ensures Balance(Count(h, 0, |h|) as real, Within(h, n), Between(h, n))
         == Total(Count(h, 0, |h|) as real, Squares(h, 0, |h|), Moment(h, 0, |h|) as real)
  {
    hide Expanded, Variance, Mean, Moment, Count, Squares, Scatter, Balance, Total;
    Adds(h, 0, n + 1, |h|);
    SquaresAdd(h, 0, n + 1, |h|);
    MeanIs(h, 0, n + 1);
    MeanIs(h, n + 1, |h|);
    ScatterIs(h, 0, n + 1, Mean(h, 0, n + 1));
    ScatterIs(h, n + 1, |h|, Mean(h, n + 1, |h|));
    TwoClasses(Count(h, 0, n + 1) as real, Count(h, n + 1, |h|) as real, Mean(h, 0, n + 1), Mean(h, n + 1, |h|),
               Squares(h, 0, n + 1), Squares(h, n + 1, |h|), Moment(h, 0, n + 1) as real, Moment(h, n + 1, |h|) as real);
  }

  /** The best level is the one with the least scatter within its classes. */
  lemma BestScattersLeast(h: seq<nat>, best: nat, k: nat)
    requires Best(h, |h|, best) && Splits(h, k)
    ensures Within(h, best) <= Within(h, k) && (k < best ==> Within(h, best) < Within(h, k))
  {
    hide Between, Within, Count, Moment, Squares, Balance, Total;
    ScatterSplits(h, best);
    ScatterSplits(h, k);
    Adds(h, 0, k + 1, |h|);
    Cancel(Count(h, 0, |h|) as real, Within(h, best), Between(h, best), Within(h, k), Between(h, k));
  }

  lemma Cancel(all: real, x: real, u: real, y: real, v: real)
    requires all > 0.0 && Balance(all, x, u) == Balance(all, y, v)
    ensures v <= u ==> x <= y
    ensures v < u ==> x < y
  {
    assert all * (y - x) == u - v;
  }
}
