/** Facts about multiplication, division and remainder that several modules need. */
module Arithmetic {

  function Least(a: int, b: int): int {
    if a < b then a else b
  }

  function Max(a: int, b: int): int {
    if a < b then b else a
  }

  /** 2 to the n. */
  function Power(n: nat): (p: nat)
    ensures p > 0
  {
    if n == 0 then 1 else 2 * Power(n - 1)
  }

  lemma MulAtLeast(k: int, s: int)
    requires k >= 1 && s > 0
    ensures k * s >= s
  {
  }

  lemma MulOrder(x: int, y: int, s: int)
    requires x < y && s > 0
    ensures x * s + s <= y * s
  {
    assert (y - x) * s == y * s - x * s;
    MulAtLeast(y - x, s);
  }

  lemma DivUnique(o: int, s: int, q: int, r: int)
    requires s > 0 && 0 <= r < s && o == q * s + r
    ensures o / s == q && o % s == r
  {
    var q', r' := o / s, o % s;
    assert o == q' * s + r';
    if q' > q {
      MulOrder(q, q', s);
    } else if q' < q {
      MulOrder(q', q, s);
    }
  }

  /** One divisor less. */
  lemma DivStep(j: int, s: int)
    requires s > 0
    ensures j / s == (j - s) / s + 1 && j % s == (j - s) % s
  {
    var q, r := (j - s) / s, (j - s) % s;
    assert j - s == q * s + r;
    MulStep(q + 1, s);
    DivUnique(j, s, q + 1, r);
  }

  /** Line y of a grid of `h` lines of `s` cells lies inside the grid. */
  lemma LineBounds(y: int, h: int, s: int)
    requires 0 <= y < h && s > 0
    ensures 0 <= y * s && y * s + s <= h * s
  {
    assert (h - y) * s == h * s - y * s;
    MulAtLeast(h - y, s);
  }

  lemma MulStep(n: int, s: int)
    ensures n * s == (n - 1) * s + s
  {
  }
}
