/** Small vocabulary shared by every component: optional values and finite-set counting facts. */
module Common {

  datatype Option<+T> = None | Some(value: T)

  function Min(a: int, b: int): int
  {
    if b < a then b else a
  }

  function Max(a: int, b: int): int
  {
    if b > a then b else a
  }

  /** The later of two times, where an unknown one says nothing. */
  function Later(a: Option<int>, b: Option<int>): (r: Option<int>)
    ensures r in {a, b} && (r.None? ==> a.None? && b.None?)
    ensures (a.Some? ==> r.value >= a.value) && (b.Some? ==> r.value >= b.value)
  {
    if a.None? then b else if b.None? then a else Some(Max(a.value, b.value))
  }

  function Earlier(a: Option<int>, b: Option<int>): (r: Option<int>)
    ensures r in {a, b} && (r.None? ==> a.None? && b.None?)
    ensures (a.Some? ==> r.value <= a.value) && (b.Some? ==> r.value <= b.value)
  {
    if a.None? then b else if b.None? then a else Some(Min(a.value, b.value))
  }

  /** The first n naturals, as a set. */
  function Below(n: nat): (s: set<nat>)
    ensures forall i: nat :: i in s <==> i < n
  {
    if n == 0 then {} else Below(n - 1) + {n - 1}
  }

  lemma {:induction false} BelowSize(n: nat)
    ensures |Below(n)| == n
  {
    if n > 0 {
      BelowSize(n - 1);
    }
  }

  lemma {:induction false} SubsetSize<T>(small: set<T>, big: set<T>)
    requires small <= big
    ensures |small| <= |big|
  {
    if small != {} {
      var x :| x in small;
      SubsetSize(small - {x}, big - {x});
    }
  }

  /** A set strictly inside another one is strictly smaller. */
  lemma ProperSubsetSize<T>(small: set<T>, big: set<T>)
    requires small < big
    ensures |small| < |big|
  {
    var x :| x in big && x !in small;
    SubsetSize(small, big - {x});
  }

  lemma MulAtLeast(d: int, n: int)
    requires d >= 1 && n >= 0
    ensures d * n >= n
  {
  }

  /** Quotient and remainder are determined by the defining equation. */
  lemma QuotientUnique(n: int, a: int, m: int, q: int, r: int)
    requires 0 <= m < n && 0 <= r < n && a * n + m == q * n + r
    ensures a == q && m == r
  {
    assert (a - q) * n == a * n - q * n && (q - a) * n == q * n - a * n;
    if a > q {
      MulAtLeast(a - q, n);
    } else if a < q {
      MulAtLeast(q - a, n);
    }
  }

  lemma DivModUnique(x: int, n: int, q: int, r: int)
    requires 0 <= r < n && x == q * n + r
    ensures x / n == q && x % n == r
  {
    QuotientUnique(n, x / n, x % n, q, r);
  }
}
