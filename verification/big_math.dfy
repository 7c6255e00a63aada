/** `java.math.BigInteger.modPow` on the values the cipher gives it: a
    non-negative base, a signed exponent and a signed modulus. Numbers are
    unbounded, as `BigInteger` is. */
module BigMath {
  import opened Wrappers

  /** The two `ArithmeticException`s `modPow` can raise. */
  datatype ArithmeticError =
    | ModulusNotPositive   // "BigInteger: modulus not positive"
    | NotInvertible        // "BigInteger not invertible."

  /** Reference definition of exponentiation. */
  function Pow(b: nat, e: nat): nat
    decreases e
  {
    if e == 0 then 1 else b * Pow(b, e - 1)
  }

  lemma {:induction false} PowAdd(b: nat, x: nat, y: nat)
    ensures Pow(b, x + y) == Pow(b, x) * Pow(b, y)
    decreases x
  {
    if x > 0 {
      var p, q := Pow(b, x - 1), Pow(b, y);
      calc {
        Pow(b, x + y);
        b * Pow(b, x - 1 + y);
        { PowAdd(b, x - 1, y); }
        b * (p * q);
        (b * p) * q;
        Pow(b, x) * q;
      }
    }
  }

  lemma {:induction false} MulAtLeast(n: int, d: int)
    requires n > 0 && d >= 1
    ensures n * d >= n
  {
    if d > 1 { MulAtLeast(n, d - 1); assert n * d == n * (d - 1) + n; }
  }
  /** Euclidean division has a unique quotient and remainder. */
  lemma DivModUnique(a: int, n: int, q: int, r: int)
    requires n > 0 && 0 <= r < n && a == n * q + r
    ensures a / n == q && a % n == r
  {
    var q', r' := a / n, a % n;
    assert a == n * q' + r';
    var d := q - q';
    assert n * q - n * q' == n * d;
    assert n * d == r' - r;
    if d >= 1 {
      MulAtLeast(n, d);
    } else if d <= -1 {
      MulAtLeast(n, -d);
    }
  }
  /** Reducing a factor modulo `n` does not change a product modulo `n`. */
  lemma MulMod(x: nat, y: nat, n: nat)
    requires n > 0
    ensures (x % n) * (y % n) % n == x * y % n
  {
    var qx, rx := x / n, x % n;
    var qy, ry := y / n, y % n;
    var k, m := rx * ry / n, rx * ry % n;
    calc {
      x * y;
      (n * qx + rx) * y;
      n * qx * y + rx * y;
      n * qx * y + rx * (n * qy + ry);
      n * qx * y + rx * (n * qy) + rx * ry;
      n * (qx * y + rx * qy) + rx * ry;
      n * (qx * y + rx * qy) + (n * k + m);
      n * (qx * y + rx * qy + k) + m;
    }
    DivModUnique(x * y, n, qx * y + rx * qy + k, m);
  }

  lemma ModSmall(x: int, n: int)
    requires 0 <= x < n
    ensures x % n == x
  {
    DivModUnique(x, n, 0, x);
  }

  /** Multiplication respects congruence modulo `n`. */
  lemma MulCongruent(a: nat, b: nat, c: nat, d: nat, n: nat)
    requires n > 0 && a % n == c % n && b % n == d % n
    ensures a * b % n == c * d % n
  {
    MulMod(a, b, n);
    MulMod(c, d, n);
  }

  /** `x` is an inverse of `a` modulo `n`. */
  predicate IsInverse(a: nat, x: nat, n: nat)
    requires n > 0
  {
    a * x % n == 1 % n
  }

  /** Exponentiation modulo `n` by repeated squaring, the algorithm a
      big-integer library uses. Its result is the reduced power. */
  function ModPow(b: nat, e: nat, n: nat): (r: nat)
    requires n > 0
    ensures r == Pow(b, e) % n
    decreases e
  {
    if e == 0 then 1 % n
    else
      var h := ModPow(b, e / 2, n);
      var sq := h * h % n;
      var r := if e % 2 == 0 then sq else sq * (b % n) % n;
      SquareStep(b, e, n, h);
      r
  }

  lemma SquareStep(b: nat, e: nat, n: nat, h: nat)
    requires n > 0 && e > 0 && h == Pow(b, e / 2) % n
    ensures e % 2 == 0 ==> h * h % n == Pow(b, e) % n
    ensures e % 2 == 1 ==> (h * h % n) * (b % n) % n == Pow(b, e) % n
  {
    var half := Pow(b, e / 2);
    var sq := half * half;
    PowAdd(b, e / 2, e / 2);
    assert Pow(b, e / 2 + e / 2) == sq;
    MulMod(half, half, n);
    assert h * h % n == sq % n;
    if e % 2 == 1 {
      PowAdd(b, e / 2 + e / 2, 1);
      assert Pow(b, 1) == b;
      assert Pow(b, e) == sq * b;
      MulMod(sq, b, n);
    }
  }

  /** A power modulo `n` depends on the base only modulo `n`. */
  lemma {:induction false} PowMod(b: nat, e: nat, n: nat)
    requires n > 0
    ensures Pow(b % n, e) % n == Pow(b, e) % n
    decreases e
  {
    if e > 0 {
      var r := b % n;
      PowMod(b, e - 1, n);
      ModSmall(r, n);
      MulCongruent(r, Pow(r, e - 1), b, Pow(b, e - 1), n);
    }
  }

  /** Searches `k, k+1, ..., n-1` for an inverse of `a` modulo `n`. */
  function InverseFrom(a: nat, n: nat, k: nat): (r: Option<nat>)
    requires 0 < n && k <= n
    ensures r.Some? ==> k <= r.value < n && IsInverse(a, r.value, n)
    ensures r.None? ==> forall x :: k <= x < n ==> !IsInverse(a, x, n)
    decreases n - k
  {
    if k == n then None
    else if IsInverse(a, k, n) then Some(k)
    else InverseFrom(a, n, k + 1)
  }

  /** `a` has an inverse modulo `n`. */
  predicate Invertible(a: nat, n: nat)
    requires n > 0
  {
    exists x :: 0 <= x < n && IsInverse(a, x, n)
  }

  /** `BigInteger.modInverse`: the inverse of `a` in `[0, n)`, if there is one. */
  function ModInverse(a: nat, n: nat): (r: Option<nat>)
    requires n > 0
    ensures r.Some? ==> r.value < n && IsInverse(a, r.value, n)
    ensures r.None? <==> !Invertible(a, n)
  {
    InverseFrom(a, n, 0)
  }

  /** An inverse modulo `n` is unique in `[0, n)`, so the value the search
      finds is the one `BigInteger.modInverse` returns. */
  lemma InverseUnique(a: nat, x: nat, y: nat, n: nat)
    requires n > 0 && x < n && y < n
    requires IsInverse(a, x, n) && IsInverse(a, y, n)
    ensures x == y
  {
    if n > 1 {
      // x == x * (a * y) == (a * x) * y == y, all modulo n
      ModSmall(1, n);
      ModSmall(x, n);
      ModSmall(y, n);
      MulCongruent(x, a * y, x, 1, n);
      MulCongruent(a * x, y, 1, y, n);
      assert x * (a * y) == (a * x) * y;
    }
  }

  /** An inverse of `a` is an inverse of every number congruent to `a`. */
  lemma InverseMod(a: nat, n: nat)
    requires n > 0
    ensures forall x :: IsInverse(a % n, x, n) <==> IsInverse(a, x, n)
  {
    forall x: nat
      ensures IsInverse(a % n, x, n) <==> IsInverse(a, x, n)
    {
      ModSmall(a % n, n);
      MulCongruent(a % n, x, a, x, n);
    }
  }

  /** `b.modPow(e, n)` for a non-negative `b`: an exception when `n <= 0`;
      `b^e mod n` when `e >= 0`; the inverse of `b^-e` modulo `n` when
      `e < 0`, and an exception exactly when that inverse does not exist. */
  function BigModPow(b: nat, e: int, n: int): (r: Result<nat, ArithmeticError>)
    ensures n <= 0 <==> r == Failure(ModulusNotPositive)
    ensures r.Success? ==> r.value < n
    ensures n > 0 && e >= 0 ==> r == Success(Pow(b, e) % n)
    ensures n > 0 && e < 0 && r.Success? ==> IsInverse(Pow(b, -e), r.value, n)
    ensures n > 0 && e < 0 ==> (r == Failure(NotInvertible) <==> !Invertible(Pow(b, -e), n))
  {
    if n <= 0 then Failure(ModulusNotPositive)
    else if e >= 0 then Success(ModPow(b, e, n))
    else
      InverseMod(Pow(b, -e), n);
      match ModInverse(ModPow(b, -e, n), n)
      case Some(x) => Success(x)
      case None => Failure(NotInvertible)
  }

  /** `modPow` depends on the base only modulo `n`. */
  lemma BigModPowMod(b: nat, e: int, n: int)
    requires n > 0
    ensures BigModPow(b % n, e, n) == BigModPow(b, e, n)
  {
    if e >= 0 {
      PowMod(b, e, n);
    } else {
      PowMod(b, -e, n);
    }
  }
}
