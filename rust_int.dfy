/** Integer operators of Rust that differ from Dafny's. */
module RustInt {

  /** Rust's `/` on signed integers: the quotient is truncated toward zero,
      whereas Dafny's `/` on `int` is Euclidean. */
  function TruncDiv(a: int, b: int): (q: int)
    requires b > 0
    ensures a >= 0 ==> 0 <= a - q * b < b
    ensures a < 0 ==> -b < a - q * b <= 0
    ensures (a >= 0) == (q >= 0) || q == 0
  {
    if a >= 0 then a / b else -((-a) / b)
  }

  /** `v.max(lo).min(hi)` in Rust: for `lo <= hi`, the value closest to `v`
      in the range `[lo, hi]`. */
  function Clamp(v: int, lo: int, hi: int): (r: int)
    requires lo <= hi
    ensures lo <= r <= hi
    ensures lo <= v <= hi ==> r == v
    ensures v < lo ==> r == lo
    ensures hi < v ==> r == hi
  {
    if v < lo then lo else if hi < v then hi else v
  }

  /** A multiple of a positive number is at least that number when the
      factor is positive, and at most its negation when it is negative. */
  lemma MulSign(k: int, s: int)
    requires s > 0
    ensures k >= 1 ==> k * s >= s
    ensures k <= -1 ==> k * s <= -s
  {
  }

  /** Euclidean division finds the quotient of a value written as
      quotient times divisor plus a remainder below the divisor. */
  lemma DivUnique(a: int, b: int, c: int, r: int)
    requires b > 0 && 0 <= r < b && a == c * b + r
    ensures a / b == c && a % b == r
  {
    var q := a / b;
    var m := a % b;
    assert (c - q) * b == m - r;
    MulSign(c - q, b);
  }

  /** Truncating division undoes a multiplication. */
  lemma TruncDivExact(x: int, s: int)
    requires s > 0
    ensures TruncDiv(x * s, s) == x
  {
    MulSign(x, s);
    DivUnique(x * s, s, x, 0);
    DivUnique((-x) * s, s, -x, 0);
    assert -(x * s) == (-x) * s;
  }
}
