/** pow of math.c: halving the exponent with C's truncating division. */
module Powers {

  function CHalf(y: int): int { if y >= 0 then y / 2 else -((-y) / 2) }

  predicate COdd(y: int) { if y >= 0 then y % 2 != 0 else (-y) % 2 != 0 }

  /** What one level of the recursion does with the power of half the exponent. */
  function Combine(x: real, y: int, temp: real): real
    requires y != 0 && (x != 0.0 || y > 0)
  {
    if !COdd(y) then temp * temp
    else if y > 0 then x * temp * temp
    else (temp * temp) / x
  }

  /** pow and powf, over exact reals. */
  function Pow(x: real, y: int): real
    requires x != 0.0 || y >= 0
    decreases if y >= 0 then y else -y
  {
    if y == 0 then 1.0 else Combine(x, y, Pow(x, CHalf(y)))
  }

  /** x multiplied by itself n times. */
  function Product(x: real, n: nat): real
  {
    if n == 0 then 1.0 else x * Product(x, n - 1)
  }

  /** The mathematical x^y. */
  function Power(x: real, y: int): real
    requires x != 0.0 || y >= 0
  {
    if y >= 0 then Product(x, y) else NonZero(x, -y); 1.0 / Product(x, -y)
  }

  lemma {:induction false} NonZero(x: real, n: nat)
    requires x != 0.0
    ensures Product(x, n) != 0.0
  {
    if n > 0 { NonZero(x, n - 1); }
  }

  lemma {:induction false} ProductAdds(x: real, a: nat, b: nat)
    ensures Product(x, a + b) == Product(x, a) * Product(x, b)
  {
    if a > 0 {
      ProductAdds(x, a - 1, b);
      var p, q := Product(x, a - 1), Product(x, b);
      assert x * (p * q) == (x * p) * q;
    }
  }

  lemma Reciprocals(p: real, q: real)
    requires p != 0.0 && q != 0.0
    ensures p * q != 0.0 && (1.0 / p) * (1.0 / q) == (1.0 / p) / q == 1.0 / (p * q)
  {
    var a, b := 1.0 / p, 1.0 / q;
    assert a * p == 1.0 && b * q == 1.0;
    assert (a * b) * (p * q) == (a * p) * (b * q);
    assert a / q == a * b;
  }

  lemma ProductStep(x: real, n: nat)
    ensures Product(x, n + 1) == x * Product(x, n) && Product(x, 0) == 1.0
  {
  }

  lemma SquareOrMore(x: real, y: nat, t: real)
    requires y > 0 && t == Product(x, y / 2)
    ensures Product(x, y) == Combine(x, y, t) == if y % 2 == 0 then t * t else x * t * t
  {
    var h := y / 2;
    ProductAdds(x, h, h);
    ProductStep(x, h + h);
    hide Product;
    assert y == h + h || y == h + h + 1;
    assert x * t * t == x * (t * t);
  }

  lemma InverseSquare(x: real, y: int, t: real)
    requires y > 0 && x != 0.0 && t == Product(x, y / 2)
    ensures t != 0.0 && Product(x, y) != 0.0
    ensures 1.0 / Product(x, y) == Combine(x, -y, 1.0 / t)
  {
    SquareOrMore(x, y, t);
    NonZero(x, y / 2);
    NonZero(x, y);
    Reciprocals(t, t);
    Reciprocals(t * t, x);
    hide Product;
    assert x * t * t == t * t * x;
  }

  /** The halving recursion computes x^y, for every exponent and every base that has one. */
  lemma {:induction false} PowIsPower(x: real, y: int)
    requires x != 0.0 || y >= 0
    ensures Pow(x, y) == Power(x, y)
    decreases if y >= 0 then y else -y
  {
    hide Product;
    if y == 0 {
      ProductStep(x, 0);
    } else {
      PowIsPower(x, CHalf(y));
      hide Combine;
      if y > 0 {
        SquareOrMore(x, y, Product(x, y / 2));
      } else {
        InverseSquare(x, -y, Product(x, (-y) / 2));
        ProductStep(x, 0);
      }
    }
  }

  /** pow turns sums of exponents into products, across zero as well. */
  lemma PowAdds(x: real, a: int, b: int)
    requires x != 0.0
    ensures Pow(x, a + b) == Pow(x, a) * Pow(x, b)
  {
    hide Pow, Power;
    PowIsPower(x, a);
    PowIsPower(x, b);
    PowIsPower(x, a + b);
    PowerAdds(x, a, b);
  }

  lemma Cancel(p: real, q: real)
    requires q != 0.0
    ensures (p * q) * (1.0 / q) == p
  {
    assert q * (1.0 / q) == 1.0;
    assert (p * q) * (1.0 / q) == p * (q * (1.0 / q));
  }

  lemma PowerAdds(x: real, a: int, b: int)
    requires x != 0.0
    ensures Power(x, a + b) == Power(x, a) * Power(x, b)
  {
    hide Product;
    if a >= 0 && b >= 0 {
      ProductAdds(x, a, b);
    } else if a < 0 && b < 0 {
      NonZero(x, -a);
      NonZero(x, -b);
      ProductAdds(x, -a, -b);
      Reciprocals(Product(x, -a), Product(x, -b));
    } else if a < 0 {
      MixedAdds(x, b, -a);
    } else {
      MixedAdds(x, a, -b);
    }
  }

  lemma MixedAdds(x: real, a: int, b: int)
    requires x != 0.0 && a >= 0 && b > 0
    ensures Power(x, a - b) == Power(x, a) * Power(x, -b)
  {
    NonZero(x, b);
    if a >= b {
      ProductAdds(x, a - b, b);
      Cancel(Product(x, a - b), Product(x, b));
    } else {
      NonZero(x, a);
      NonZero(x, b - a);
      ProductAdds(x, a, b - a);
      Reciprocals(Product(x, a), Product(x, b - a));
      hide Product;
      var p, q := Product(x, a), Product(x, b - a);
      assert p * ((1.0 / p) * (1.0 / q)) == (p * (1.0 / p)) * (1.0 / q);
    }
  }
}
