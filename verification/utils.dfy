/** The pure list helpers of the shared utilities: `difference`, the
    Fisher–Yates `shuffle`, and `randomInt`. The random source is not
    modelled: `randomInt` takes the value `Math.random()` returned as a
    parameter, and `shuffle` chooses each swap partner nondeterministically
    from the range `randomInt(0, i)` can return. */
module Utils {

  // ---------------------------------------------------------------------------
  // difference
  // ---------------------------------------------------------------------------

  /** `arrA.filter(x => !arrB.includes(x))`. */
  function Difference<T(==)>(a: seq<T>, b: seq<T>): (r: seq<T>)
    ensures |r| <= |a|
  {
    if |a| == 0 then []
    else
      var rest := Difference(a[1..], b);
      if a[0] in b then rest else [a[0]] + rest
  }

  /** The result holds exactly the elements of `a` that are not in `b`,
      each as often as `a` holds it. */
  lemma {:induction false} DifferenceMembers<T>(a: seq<T>, b: seq<T>, x: T)
    ensures x in Difference(a, b) <==> x in a && x !in b
    ensures multiset(Difference(a, b))[x] == if x in b then 0 else multiset(a)[x]
  {
    if |a| > 0 {
      DifferenceMembers(a[1..], b, x);
      assert a == [a[0]] + a[1..];
    }
  }

  /** Removing nothing keeps the whole list, in order. */
  lemma {:induction false} DifferenceOfEmpty<T>(a: seq<T>)
    ensures Difference(a, []) == a
  {
    if |a| > 0 {
      DifferenceOfEmpty(a[1..]);
      assert a == [a[0]] + a[1..];
    }
  }

  /** The filter works element by element and keeps the order: the
      difference of a concatenation is the concatenation of the differences. */
  lemma {:induction false} DifferenceOfAppend<T>(a: seq<T>, c: seq<T>, b: seq<T>)
    ensures Difference(a + c, b) == Difference(a, b) + Difference(c, b)
  {
    if |a| == 0 {
      assert a + c == c;
    } else {
      var x, t := a[0], a[1..];
      SplitHead(a, c);
      DifferenceOfAppend(t, c, b);
      DifferenceCons(x, t + c, b);
      DifferenceCons(x, t, b);
      if x !in b {
        ConsAppend(x, Difference(t, b), Difference(c, b));
      }
    }
  }

  lemma SplitHead<T>(a: seq<T>, c: seq<T>)
    requires |a| > 0
    ensures a == [a[0]] + a[1..] && a + c == [a[0]] + (a[1..] + c)
  {
  }

  lemma ConsAppend<T>(x: T, l: seq<T>, r: seq<T>)
    ensures [x] + (l + r) == ([x] + l) + r
  {
  }

  /** One step of the filter. */
  lemma DifferenceCons<T>(x: T, t: seq<T>, b: seq<T>)
    ensures Difference([x] + t, b) == if x in b then Difference(t, b) else [x] + Difference(t, b)
  {
    assert ([x] + t)[0] == x && ([x] + t)[1..] == t;
  }

  /** A one-element list survives exactly when its element is not removed. */
  lemma DifferenceOfSingleton<T>(x: T, b: seq<T>)
    ensures Difference([x], b) == if x in b then [] else [x]
  {
    assert [x][1..] == [];
  }

  // ---------------------------------------------------------------------------
  // randomInt
  // ---------------------------------------------------------------------------

  function Floor(x: real): int {
    x.Floor
  }

  function Ceil(x: real): int {
    -((-x).Floor)
  }

  /** `randomInt(min, max)` with `Math.random()` returning `u`. */
  function RandomInt(min: real, max: real, u: real): (r: int)
    requires 0.0 <= u < 1.0
    ensures Ceil(min) <= Floor(max) ==> Ceil(min) <= r <= Floor(max)
    ensures Floor(max) < Ceil(min) ==> Floor(max) < r <= Ceil(min)
  {
    var mi := Ceil(min);
    var ma := Floor(max);
    var n := ma - mi + 1;
    ScaledDrawBounds(u, n);
    (u * n as real).Floor + mi
  }

  /** `Math.floor(u * n)` for a draw `u` in `[0, 1)` lies in `[0, n - 1]`
      when `n` is positive and in `[n, 0]` otherwise. */
  lemma ScaledDrawBounds(u: real, n: int)
    requires 0.0 <= u < 1.0
    ensures n >= 1 ==> 0 <= (u * n as real).Floor <= n - 1
    ensures n <= 0 ==> n <= (u * n as real).Floor <= 0
  {
    var x := u * n as real;
    if n >= 1 {
      assert 0.0 <= x;
      assert x < n as real by {
        assert (1.0 - u) * n as real > 0.0;
      }
    } else {
      var m: real := -(n as real);
      assert m >= 0.0;
      assert x == -(u * m);
      NonNegativeProduct(u, m);
      NonNegativeProduct(1.0 - u, m);
      assert (1.0 - u) * m == m - u * m;
    }
  }

  lemma NonNegativeProduct(a: real, b: real)
    requires a >= 0.0 && b >= 0.0
    ensures a * b >= 0.0
  {
  }

  // ---------------------------------------------------------------------------
  // shuffle
  // ---------------------------------------------------------------------------

  /** The three-assignment swap through `temp`. */
  function Swap<T>(s: seq<T>, i: nat, j: nat): (r: seq<T>)
    requires i < |s| && j < |s|
    ensures |r| == |s| && r[i] == s[j] && r[j] == s[i]
    ensures forall k :: 0 <= k < |s| && k != i && k != j ==> r[k] == s[k]
    ensures multiset(r) == multiset(s)
  {
    s[i := s[j]][j := s[i]]
  }

  /** The swap partners of a (possibly partial) run over a list of length
      `n`: the k-th iteration handles index `n - 1 - k` and its partner lies
      in `[0, n - 1 - k]`, the range of `randomInt(0, i)`. */
  ghost predicate ValidDraws(n: nat, draws: seq<int>) {
    && |draws| <= (if n == 0 then 0 else n - 1)
    && forall k :: 0 <= k < |draws| ==> 0 <= draws[k] <= n - 1 - k
  }

  lemma DrawsPrefix(n: nat, d: seq<int>, m: nat)
    requires ValidDraws(n, d) && m <= |d|
    ensures ValidDraws(n, d[..m])
  {
    forall q | 0 <= q < m ensures 0 <= d[..m][q] <= n - 1 - q {
      assert d[..m][q] == d[q];
    }
  }

  /** The list after the iterations that used `draws`. */
  function Shuffled<T>(s: seq<T>, draws: seq<int>): (r: seq<T>)
    requires ValidDraws(|s|, draws)
    ensures |r| == |s|
    ensures multiset(r) == multiset(s)
    decreases |draws|
  {
    if |draws| == 0 then s
    else
      var k := |draws| - 1;
      DrawsPrefix(|s|, draws, k);
      Swap(Shuffled(s, draws[..k]), |s| - 1 - k, draws[k])
  }

  /** The last iteration of a run swaps index `|s| - |d|` with its partner. */
  lemma ShuffledLastStep<T>(s: seq<T>, d: seq<int>)
    requires ValidDraws(|s|, d) && |d| > 0
    ensures ValidDraws(|s|, d[..|d| - 1])
    ensures Shuffled(s, d) == Swap(Shuffled(s, d[..|d| - 1]), |s| - |d|, d[|d| - 1])
  {
    DrawsPrefix(|s|, d, |d| - 1);
  }

  /** Positions that an iteration has passed are never touched again: once
      the first `m` draws have been used, the entries from index `|s| - m`
      upward keep their values through every later iteration. */
  lemma {:induction false} ShuffledSettlesSuffix<T>(s: seq<T>, d: seq<int>, m: nat)
    requires ValidDraws(|s|, d) && m <= |d|
    ensures ValidDraws(|s|, d[..m])
    ensures forall p :: |s| - m <= p < |s| ==> Shuffled(s, d)[p] == Shuffled(s, d[..m])[p]
    decreases |d| - m
  {
    DrawsPrefix(|s|, d, m);
    if m < |d| {
      var k := |d| - 1;
      ShuffledLastStep(s, d);
      PrefixOfPrefix(d, k, m);
      ShuffledSettlesSuffix(s, d[..k], m);
      assert d[k] <= |s| - |d|;
    } else {
      PrefixOfPrefix(d, |d|, m);
    }
  }

  lemma PrefixOfPrefix<T>(d: seq<T>, k: nat, m: nat)
    requires m <= k <= |d|
    ensures d[..k][..m] == d[..m] && d[..|d|] == d
  {
  }

  /** One more iteration: index `|s| - 1 - |d|` swapped with partner `j`. */
  lemma DrawStep<T>(s: seq<T>, d: seq<int>, j: int)
    requires ValidDraws(|s|, d) && |d| < |s| - 1 && 0 <= j <= |s| - 1 - |d|
    ensures ValidDraws(|s|, d + [j])
    ensures Shuffled(s, d + [j]) == Swap(Shuffled(s, d), |s| - 1 - |d|, j)
  {
    var e := d + [j];
    assert e[..|d|] == d;
    forall k | 0 <= k < |e| ensures 0 <= e[k] <= |s| - 1 - k {
      if k < |d| {
        assert e[k] == d[k];
      }
    }
    ShuffledLastStep(s, e);
  }

  /** `shuffle(arr)` on an array holding `a`. Returns the shuffled contents
      and the swap partners that were chosen. */
  method Shuffle<T>(a: seq<T>) returns (r: seq<T>, draws: seq<int>)
    ensures ValidDraws(|a|, draws)
    ensures |draws| == if |a| == 0 then 0 else |a| - 1
    ensures r == Shuffled(a, draws)
    ensures |r| == |a| && multiset(r) == multiset(a)
  {
    r := a;
    draws := [];
    var i := |a| - 1;
    while i > 0
      invariant -1 <= i < |a| && (|a| > 0 ==> i >= 0)
      invariant |draws| == |a| - 1 - i
      invariant ValidDraws(|a|, draws)
      invariant r == Shuffled(a, draws)
    {
      var j :| 0 <= j <= i;
      DrawStep(a, draws, j);
      var temp := r[i];
      r := r[i := r[j]];
      r := r[j := temp];
      draws := draws + [j];
      i := i - 1;
    }
  }
}
