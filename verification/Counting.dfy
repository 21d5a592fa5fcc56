/** `layer_size`: how many digit vectors the target-sum encoding accepts, by inclusion-exclusion. */
module Counting {
  import Bytes
  import TweakHash

  // ----- binomials -----

  function Binom(n: nat, k: nat): nat {
    if k == 0 then 1
    else if n == 0 then 0
    else Binom(n - 1, k - 1) + Binom(n - 1, k)
  }

  lemma {:induction false} BinomAbove(n: nat, k: nat)
    requires k > n
    ensures Binom(n, k) == 0
  {
    if n > 0 {
      BinomAbove(n - 1, k - 1);
      BinomAbove(n - 1, k);
    }
  }

  lemma {:induction false} BinomFull(n: nat)
    ensures Binom(n, n) == 1
  {
    if n > 0 {
      BinomFull(n - 1);
      BinomAbove(n - 1, n);
    }
  }

  /** Every division of the fold is exact. */
  lemma {:induction false} FoldExact(n: nat, k: nat)
    requires k <= n
    ensures Binom(n, k) * (n - k) == Binom(n, k + 1) * (k + 1)
  {
    if n == 0 {
    } else if k == n {
      BinomAbove(n, n + 1);
    } else if k == 0 {
      FoldExact(n - 1, 0);
    } else {
      var a, b, c := Binom(n - 1, k - 1), Binom(n - 1, k), Binom(n - 1, k + 1);
      FoldExact(n - 1, k - 1);
      FoldExact(n - 1, k);
      FoldAlgebra(a, b, c, n, k);
    }
  }

  lemma FoldAlgebra(a: int, b: int, c: int, n: int, k: int)
    requires a * (n - k) == b * k && b * (n - 1 - k) == c * (k + 1)
    ensures (a + b) * (n - k) == (b + c) * (k + 1)
  {
    Distribute(n - k, a, b);
    Distribute(b, k, n - k);
    Distribute(k + 1, b, c);
    Distribute(b, k + 1, n - 1 - k);
  }

  lemma Distribute(a: int, b: int, c: int)
    ensures a * (b + c) == a * b + a * c && (b + c) * a == b * a + c * a
  {
  }

  /** The fold with division: multiply by `n - i`, divide by `i + 1`, exactly each time. */
  method BinomByFold(n: nat, k: nat) returns (acc: nat)
    requires k <= n
    ensures acc == Binom(n, k)
  {
    acc := 1;
    for i := 0 to k
      invariant acc == Binom(n, i)
    {
      FoldExact(n, i);
      var product := acc * (n - i);
      assert product == Binom(n, i + 1) * (i + 1);
      DivideProduct(Binom(n, i + 1), i + 1);
      assert product % (i + 1) == 0;
      acc := product / (i + 1);
    }
  }

  lemma DivideProduct(a: nat, b: nat)
    requires b > 0
    ensures a * b / b == a && a * b % b == 0
  {
    Bytes.QuotientUnique(a * b, b, a, 0);
  }

  // ----- the set being counted -----

  /** The points of `[0, w)^v`. */
  ghost function Points(v: nat, w: nat): set<seq<nat>> {
    if v == 0 then {[]}
    else set x, j: nat | x in Points(v - 1, w) && 0 <= j < w :: x + [j]
  }

  lemma {:induction false} PointsExactly(v: nat, w: nat, x: seq<nat>)
    ensures x in Points(v, w) <==> |x| == v && forall i :: 0 <= i < v ==> x[i] < w
  {
    if v > 0 {
      if |x| > 0 {
        PointsExactly(v - 1, w, x[..|x| - 1]);
        assert x == x[..|x| - 1] + [x[|x| - 1]];
      }
      if x in Points(v, w) {
        var y, j: nat :| y in Points(v - 1, w) && j < w && x == y + [j];
        assert y == x[..|x| - 1];
      }
    }
  }

  /** The points with this coordinate sum. */
  ghost function Slice(v: nat, w: nat, total: int): set<seq<nat>> {
    set x | x in Points(v, w) && TweakHash.Sum(x) == total
  }

  /** The points with coordinate sum `v * (w - 1) - d`. */
  ghost function Layer(v: nat, w: nat, d: int): set<seq<nat>> {
    Slice(v, w, v * (w - 1) - d)
  }

  /** Points of a slice whose last coordinate misses `w - 1` by less than `n`. */
  ghost function SlicePart(v: nat, w: nat, total: int, n: nat): set<seq<nat>> {
    set x | x in Slice(v + 1, w, total) && |x| > 0 && w - 1 - x[|x| - 1] < n
  }

  ghost function Extend(s: set<seq<nat>>, j: nat): set<seq<nat>> {
    set x | x in s :: x + [j]
  }

  lemma {:induction false} ExtendSize(s: set<seq<nat>>, j: nat)
    ensures |Extend(s, j)| == |s|
  {
    if s != {} {
      var x :| x in s;
      ExtendSize(s - {x}, j);
      assert Extend(s, j) == Extend(s - {x}, j) + {x + [j]};
      forall y | y in s - {x}
        ensures y + [j] != x + [j]
      {
        assert (y + [j])[..|y + [j]| - 1] == y && (x + [j])[..|x + [j]| - 1] == x;
      }
    }
  }

  /** The number of points, by the recurrence on the last coordinate's distance from `w - 1`. */
  function Count(v: nat, w: nat, d: int): nat
    decreases v, 1, 0
  {
    if v == 0 then (if d == 0 then 1 else 0) else CountPart(v - 1, w, d, w)
  }

  function CountPart(v: nat, w: nat, d: int, n: nat): nat
    decreases v, 2, n
  {
    if n == 0 then 0 else CountPart(v, w, d, n - 1) + Count(v, w, d - (n - 1))
  }

  lemma PartGrows(v: nat, w: nat, total: int, n: nat)
    requires n < w
    ensures var j := w - 1 - n;
            && SlicePart(v, w, total, n + 1) == SlicePart(v, w, total, n) + Extend(Slice(v, w, total - j), j)
            && SlicePart(v, w, total, n) !! Extend(Slice(v, w, total - j), j)
  {
    var j := w - 1 - n;
    forall x | x in SlicePart(v, w, total, n + 1) && x !in SlicePart(v, w, total, n)
      ensures x in Extend(Slice(v, w, total - j), j)
    {
      var y := x[..|x| - 1];
      assert x[|x| - 1] == j && x == y + [j];
      PointsExactly(v + 1, w, x);
      PointsExactly(v, w, y);
    }
    forall x | x in Extend(Slice(v, w, total - j), j)
      ensures x in SlicePart(v, w, total, n + 1) && x !in SlicePart(v, w, total, n)
    {
      var y :| y in Slice(v, w, total - j) && x == y + [j];
      assert x[..|x| - 1] == y;
      PointsExactly(v + 1, w, x);
      PointsExactly(v, w, y);
    }
  }

  /** What is left of a layer's sum after a last coordinate of `w - 1 - n`. */
  lemma LayerTotal(v: nat, w: nat, d: int, n: nat)
    ensures (v + 1) * (w - 1) - d - (w - 1 - n) == v * (w - 1) - (d - n)
  {
  }

  lemma {:induction false} CountsLayer(v: nat, w: nat, d: int)
    ensures Count(v, w, d) == |Layer(v, w, d)|
    decreases v, 1, 0
  {
    if v == 0 {
      assert Layer(v, w, d) == if d == 0 then {[]} else {};
    } else {
      var total := v * (w - 1) - d;
      CountsPart(v - 1, w, d, total, w);
      WholeSlice(v - 1, w, total);
    }
  }

  lemma WholeSlice(v: nat, w: nat, total: int)
    ensures SlicePart(v, w, total, w) == Slice(v + 1, w, total)
  {
    forall x | x in Slice(v + 1, w, total)
      ensures x in SlicePart(v, w, total, w)
    {
      PointsExactly(v + 1, w, x);
    }
  }

  lemma {:induction false} CountsPart(v: nat, w: nat, d: int, total: int, n: nat)
    requires n <= w && total == (v + 1) * (w - 1) - d
    ensures CountPart(v, w, d, n) == |SlicePart(v, w, total, n)|
    decreases v, 2, n
  {
    if n == 0 {
      PartEmpty(v, w, total);
    } else {
      CountsPart(v, w, d, total, n - 1);
      CountsLayer(v, w, d - (n - 1));
      LayerTotal(v, w, d, n - 1);
      PartGrowsBy(v, w, total, n - 1);
    }
  }

  lemma PartEmpty(v: nat, w: nat, total: int)
    ensures SlicePart(v, w, total, 0) == {}
  {
    forall x | x in Slice(v + 1, w, total)
      ensures x !in SlicePart(v, w, total, 0)
    {
      PointsExactly(v + 1, w, x);
    }
  }

  lemma PartGrowsBy(v: nat, w: nat, total: int, n: nat)
    requires n < w
    ensures |SlicePart(v, w, total, n + 1)| == |SlicePart(v, w, total, n)| + |Slice(v, w, total - (w - 1 - n))|
  {
    PartGrows(v, w, total, n);
    ExtendSize(Slice(v, w, total - (w - 1 - n)), w - 1 - n);
  }

  // ----- inclusion-exclusion -----

  /** Multisets of size `d` over `m` kinds: `binom(d + m - 1, m - 1)` for `m > 0`, none of negative size. */
  function Multichoose(m: nat, d: int): nat {
    if d < 0 then 0
    else if m == 0 then (if d == 0 then 1 else 0)
    else Binom(d + m - 1, m - 1)
  }

  lemma MultichooseSplits(m: nat, d: int)
    ensures Multichoose(m + 1, d) == Multichoose(m, d) + Multichoose(m + 1, d - 1)
  {
    if d == 0 {
      BinomFull(m);
      if m > 0 {
        BinomFull(m - 1);
      }
    }
  }

  /** `n` alternating terms from index `s` on: binom(v, s) * multichoose(m, d), then `d - w`, ... */
  function Alternating(v: nat, m: nat, w: nat, s: nat, d: int, n: nat): int
    decreases n
  {
    if n == 0 then 0
    else
      var term := Binom(v, s) * Multichoose(m, d);
      (if s % 2 == 0 then term else -term) + Alternating(v, m, w, s + 1, d - w, n - 1)
  }

  lemma {:induction false} AlternatingNegative(v: nat, m: nat, w: nat, s: nat, d: int, n: nat)
    requires d < 0
    ensures Alternating(v, m, w, s, d, n) == 0
    decreases n
  {
    if n > 0 {
      AlternatingNegative(v, m, w, s + 1, d - w, n - 1);
      assert Binom(v, s) * 0 == 0;
    }
  }

  lemma {:induction false} AlternatingAbove(v: nat, m: nat, w: nat, s: nat, d: int, n: nat)
    requires s > v
    ensures Alternating(v, m, w, s, d, n) == 0
    decreases n
  {
    if n > 0 {
      BinomAbove(v, s);
      AlternatingAbove(v, m, w, s + 1, d - w, n - 1);
      assert 0 * Multichoose(m, d) == 0;
    }
  }

  /** Differences in `d` take one kind away. */
  lemma {:induction false} AlternatingDifference(v: nat, m: nat, w: nat, s: nat, d: int, n: nat)
    ensures Alternating(v, m + 1, w, s, d, n) - Alternating(v, m + 1, w, s, d - 1, n) == Alternating(v, m, w, s, d, n)
    decreases n
  {
    if n > 0 {
      MultichooseSplits(m, d);
      AlternatingDifference(v, m, w, s + 1, d - w, n - 1);
      Distribute(Binom(v, s), Multichoose(m, d), Multichoose(m + 1, d - 1));
    }
  }

  /** Pascal's rule in `v` shifts by `w`, from index 1 on ... */
  lemma {:induction false} AlternatingPascalTail(v: nat, m: nat, w: nat, s: nat, d: int, n: nat)
    requires s > 0
    ensures Alternating(v + 1, m, w, s, d, n) == Alternating(v, m, w, s, d, n) - Alternating(v, m, w, s - 1, d, n)
    decreases n
  {
    if n > 0 {
      AlternatingPascalTail(v, m, w, s + 1, d - w, n - 1);
      Distribute(Multichoose(m, d), Binom(v, s - 1), Binom(v, s));
    }
  }

  /** ... and from index 0. */
  lemma AlternatingPascal(v: nat, m: nat, w: nat, d: int, n: nat)
    ensures Alternating(v + 1, m, w, 0, d, n + 1) == Alternating(v, m, w, 0, d, n + 1) - Alternating(v, m, w, 0, d - w, n)
  {
    AlternatingPascalTail(v, m, w, 1, d - w, n);
  }

  lemma {:induction false} CountNegative(v: nat, w: nat, d: int)
    requires d < 0
    ensures Count(v, w, d) == 0
    decreases v, 1, 0
  {
    if v > 0 {
      CountPartNegative(v - 1, w, d, w);
    }
  }

  lemma {:induction false} CountPartNegative(v: nat, w: nat, d: int, n: nat)
    requires d < 0
    ensures CountPart(v, w, d, n) == 0
    decreases v, 2, n
  {
    if n > 0 {
      CountPartNegative(v, w, d, n - 1);
      CountNegative(v, w, d - (n - 1));
    }
  }

  lemma {:induction false} CountPartDifference(v: nat, w: nat, d: int, n: nat)
    ensures CountPart(v, w, d, n) - CountPart(v, w, d - 1, n) == Count(v, w, d) - Count(v, w, d - n)
  {
    if n > 0 {
      CountPartDifference(v, w, d, n - 1);
    }
  }

  /** The alternating sum counts the layer, for every `v`, `w` and `d`, with any `n > v` terms. */
  lemma {:induction false} AlternatingCounts(v: nat, w: nat, d: int, n: nat)
    requires n > v
    ensures Alternating(v, v, w, 0, d, n) == Count(v, w, d)
    decreases v, if d < 0 then 0 else d + 1
  {
    if d < 0 {
      AlternatingNegative(v, v, w, 0, d, n);
      CountNegative(v, w, d);
    } else if v == 0 {
      AlternatingAbove(0, 0, w, 1, d - w, n - 1);
    } else {
      AlternatingCounts(v, w, d - 1, n);
      AlternatingDifference(v, v - 1, w, 0, d, n);
      AlternatingPascal(v - 1, v - 1, w, d, n - 1);
      AlternatingCounts(v - 1, w, d, n);
      AlternatingCounts(v - 1, w, d - w, n - 1);
      CountPartDifference(v - 1, w, d, w);
    }
  }

  // ----- the loop -----

  /** `layer_size(v, w, d)`: the loop over `s` keeps positive and negative terms apart; their final
      difference never underflows, and is the number of points with sum `v * (w - 1) - d`. */
  method LayerSize(v: nat, w: nat, d: nat) returns (size: nat)
    requires v >= 1 && w >= 1 && d <= v * (w - 1)
    ensures size == |Layer(v, w, d)|
  {
    var plus, minus: nat := 0, 0;
    var last := d / w;
    ghost var n, rest: int := last + 1 + v + 1, d;
    for s := 0 to last + 1
      invariant rest == d - s * w
      invariant plus - minus + Alternating(v, v, w, s, rest, n - s) == Alternating(v, v, w, 0, d, n)
    {
      var term := Term(v, w, d, s);
      if s % 2 == 0 {
        plus := plus + term;
      } else {
        minus := minus + term;
      }
      Distribute(w, s, 1);
      rest := rest - w;
    }
    LastTerm(d, w);
    AlternatingNegative(v, v, w, last + 1, rest, n - (last + 1));
    AlternatingCounts(v, w, d, n);
    CountsLayer(v, w, d);
    size := plus - minus;
  }

  method Term(v: nat, w: nat, d: nat, s: nat) returns (term: nat)
    requires v >= 1 && w >= 1 && d <= v * (w - 1) && s <= d / w
    ensures term == Binom(v, s) * Multichoose(v, d - s * w)
  {
    TermInRange(v, w, d, s);
    var choose := BinomByFold(v, s);
    var spread := BinomByFold(d - s * w + v - 1, v - 1);
    term := choose * spread;
  }

  lemma TermInRange(v: nat, w: nat, d: nat, s: nat)
    requires v >= 1 && w >= 1 && d <= v * (w - 1) && s <= d / w
    ensures s <= v && s * w <= d
  {
    assert d == w * (d / w) + d % w;
    Bytes.Scale(w, s, d / w);
    Distribute(v, w, -1);
    if s > v {
      Bytes.Scale(w, v + 1, s);
    }
  }

  lemma LastTerm(d: nat, w: nat)
    requires w >= 1
    ensures d - (d / w + 1) * w < 0
  {
    assert d == w * (d / w) + d % w;
    Distribute(w, d / w, 1);
  }

  /** The encodings `encode` can accept are exactly the layer at 243 verifier steps. */
  lemma AcceptedAreLayer(x: TweakHash.Digits)
    ensures TweakHash.Sum(x) == TweakHash.TARGET_SUM <==> x in Layer(TweakHash.CHAINS, TweakHash.POSITIONS, 243)
  {
    PointsExactly(TweakHash.CHAINS, TweakHash.POSITIONS, x);
  }
}
