/** The index arithmetic of the lightbox's next/previous navigation (timeline.js
  * and app.js): `(i + 1) % n` and `(i - 1 + n) % n` with JavaScript's `%`. */
module Carousel {

  /** JavaScript's `a % n` for `n > 0`: the remainder takes the sign of `a`
    * (Dafny's `%` never gives a negative remainder). */
  function JsRem(a: int, n: int): (r: int)
    requires n > 0
    ensures a >= 0 ==> r == a % n
    ensures a < 0 ==> -n < r <= 0
  {
    if a >= 0 then a % n else -((-a) % n)
  }

  /** The index `showNext` moves to. */
  function NextIndex(i: int, n: int): int
    requires n > 0
  {
    JsRem(i + 1, n)
  }

  /** The index `showPrev` moves to. */
  function PrevIndex(i: int, n: int): int
    requires n > 0
  {
    JsRem(i - 1 + n, n)
  }

  /** From a valid index both moves give a valid index: the successor and the
    * predecessor modulo `n`, the last wrapping to the first and back. */
  lemma StepsStayInRange(i: int, n: int)
    requires 0 <= i < n
    ensures 0 <= NextIndex(i, n) < n && 0 <= PrevIndex(i, n) < n
    ensures NextIndex(i, n) == (if i == n - 1 then 0 else i + 1)
    ensures PrevIndex(i, n) == (if i == 0 then n - 1 else i - 1)
  {
    BelowTwiceRem(i + 1, n);
    BelowTwiceRem(i - 1 + n, n);
  }

  /** Dafny's remainder of a value below `2 * n` subtracts `n` at most once. */
  lemma BelowTwiceRem(a: int, n: int)
    requires 0 <= a < 2 * n
    ensures a % n == (if a < n then a else a - n)
  {
    var b := if a < n then a else a - n;
    assert a == n * (if a < n then 0 else 1) + b && 0 <= b < n;
    DivModUnique(a, n, if a < n then 0 else 1, b);
  }

  /** Quotient and remainder are unique. */
  lemma DivModUnique(a: int, n: int, q: int, r: int)
    requires n > 0 && a == n * q + r && 0 <= r < n
    ensures a % n == r
  {
    var k := q - a / n;
    assert n * q == n * (a / n) + n * k;
    assert n * k == a % n - r;
    MulBounds(n, k);
  }

  /** A non-zero multiple of `n` is at least `n` away from zero. */
  lemma {:induction false} MulBounds(n: int, k: int)
    requires n > 0
    ensures k >= 1 ==> n * k >= n
    ensures k <= -1 ==> n * k <= -n
    decreases if k < 0 then -k else k
  {
    if k > 1 {
      MulBounds(n, k - 1);
      assert n * k == n * (k - 1) + n;
    } else if k < -1 {
      MulBounds(n, k + 1);
      assert n * k == n * (k + 1) - n;
    }
  }

  /** Next then previous, or previous then next, returns to the start. */
  lemma NextPrevInverse(i: int, n: int)
    requires 0 <= i < n
    ensures PrevIndex(NextIndex(i, n), n) == i
    ensures NextIndex(PrevIndex(i, n), n) == i
  {
    StepsStayInRange(i, n);
    StepsStayInRange(NextIndex(i, n), n);
    StepsStayInRange(PrevIndex(i, n), n);
  }

  /** The index after `k` moves forward. */
  function Forward(i: int, n: int, k: nat): int
    requires n > 0
  {
    if k == 0 then i else NextIndex(Forward(i, n, k - 1), n)
  }

  /** Short of the end of the list, `k` forward moves advance by `k`. */
  lemma {:induction false} ForwardAdvances(i: int, n: int, k: nat)
    requires 0 <= i && i + k < n
    ensures Forward(i, n, k) == i + k
  {
    if k > 0 {
      ForwardAdvances(i, n, k - 1);
      StepsStayInRange(i + k - 1, n);
    }
  }

  /** Moving `a` then `b` times is moving `a + b` times. */
  lemma {:induction false} ForwardAdd(i: int, n: int, a: nat, b: nat)
    requires n > 0
    ensures Forward(i, n, a + b) == Forward(Forward(i, n, a), n, b)
  {
    if b > 0 {
      ForwardAdd(i, n, a, b - 1);
    }
  }

  /** `n` forward moves from a valid index come back to it, passing the last
    * photo to the first on the way. */
  lemma FullCircle(i: int, n: int)
    requires 0 <= i < n
    ensures Forward(i, n, n - 1 - i) == n - 1
    ensures Forward(i, n, n - i) == 0
    ensures Forward(i, n, n) == i
  {
    ForwardAdvances(i, n, n - 1 - i);
    StepsStayInRange(n - 1, n);
    ForwardAdd(i, n, n - i, i);
    ForwardAdvances(0, n, i);
  }
}
