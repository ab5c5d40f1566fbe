/** Facts about integer division with a variable divisor, proved once. */
module Division {

  lemma Quotient(x: int, d: int, q: int, r: int)
    requires d > 0 && x == d * q + r && 0 <= r < d
    ensures x / d == q
  {
    var e := q - x / d;
    assert d * e == x % d - r;
    assert e >= 1 ==> d * e >= d;
    assert e <= -1 ==> d * e <= -d;
  }

  lemma DivDiv(x: int, w: int, g: int)
    requires w > 0 && g > 0
    ensures w * g > 0 && x / (w * g) == x / w / g
  {
    var q, r, s := x / w / g, x / w % g, x % w;
    assert x == w * (q * g + r) + s;
    assert w * (q * g + r) == (w * g) * q + w * r;
    assert w * r <= w * (g - 1);
    assert w * (g - 1) == w * g - w;
    Quotient(x, w * g, q, w * r + s);
  }

  lemma DivShift(x: int, w: int, f: int)
    requires w > 0
    ensures (x + f * w) / w == x / w + f
  {
    assert w * (x / w + f) == w * (x / w) + f * w;
    Quotient(x + f * w, w, x / w + f, x % w);
  }
}
