/** Polynomials over GF(2^8), and the code they define. A word s stands for the polynomial
    whose highest coefficient is s[0]; this is the order in which a block is transmitted. */
module RSPoly {
  import opened GF256

  type Word = seq<Byte>

  function Zeros(n: nat): Word { seq(n, _ => 0) }

  function AddW(a: Word, b: Word): (r: Word)
    requires |a| == |b|
    ensures |r| == |a|
  {
    seq(|a|, i requires 0 <= i < |a| => Add(a[i], b[i]))
  }

  function Scale(c: Byte, a: Word): (r: Word)
    ensures |r| == |a|
  {
    seq(|a|, i requires 0 <= i < |a| => Mul(c, a[i]))
  }

  function Exp(r: Byte, m: nat): Byte {
    if m == 0 then 1 else Mul(Exp(r, m - 1), r)
  }

  /** The value of the polynomial at r. */
  function Eval(s: Word, r: Byte): Byte {
    if s == [] then 0 else Add(Mul(Eval(s[..|s| - 1], r), r), s[|s| - 1])
  }

  /** The product of two polynomials: for every coefficient of q, shift what there is and add
      that multiple of g. */
  function PolyMul(q: Word, g: Word): (r: Word)
    requires g != []
    ensures |r| == |q| + |g| - 1
  {
    if q == [] then Zeros(|g| - 1)
    else
      var n := |q| - 1;
      AddW(PolyMul(q[..n], g) + [0], Zeros(n) + Scale(q[n], g))
  }

  // ---- Evaluation is a ring homomorphism ----

  lemma {:induction false} EvalAdd(a: Word, b: Word, r: Byte)
    requires |a| == |b|
    ensures Eval(AddW(a, b), r) == Add(Eval(a, r), Eval(b, r))
  {
    hide Add, Mul;
    if a == [] {
      AddZero(0);
    } else {
      var n := |a| - 1;
      EvalAdd(a[..n], b[..n], r);
      assert AddW(a, b)[..n] == AddW(a[..n], b[..n]);
      MulAddLeft(Eval(a[..n], r), Eval(b[..n], r), r);
      AddSwap(Mul(Eval(a[..n], r), r), Mul(Eval(b[..n], r), r), a[n], b[n]);
    }
  }

  lemma {:induction false} EvalScale(c: Byte, a: Word, r: Byte)
    ensures Eval(Scale(c, a), r) == Mul(c, Eval(a, r))
  {
    hide Add, Mul;
    if a == [] {
      MulZero(c);
    } else {
      var n := |a| - 1;
      EvalScale(c, a[..n], r);
      assert Scale(c, a)[..n] == Scale(c, a[..n]);
      MulAssoc(c, Eval(a[..n], r), r);
      MulAddRight(c, Mul(Eval(a[..n], r), r), a[n]);
    }
  }

  lemma {:induction false} EvalZeros(n: nat, a: Word, r: Byte)
    ensures Eval(Zeros(n) + a, r) == Eval(a, r)
  {
    hide Add, Mul;
    var w := Zeros(n) + a;
    if a != [] {
      assert w[..|w| - 1] == Zeros(n) + a[..|a| - 1];
      EvalZeros(n, a[..|a| - 1], r);
    } else if n > 0 {
      assert w[..n - 1] == Zeros(n - 1) + a;
      EvalZeros(n - 1, a, r);
      MulZero(r); AddZero(0);
    }
  }

  lemma {:induction false} EvalPolyMul(q: Word, g: Word, r: Byte)
    requires g != []
    ensures Eval(PolyMul(q, g), r) == Mul(Eval(q, r), Eval(g, r))
  {
    hide Add, Mul;
    if q == [] {
      assert PolyMul(q, g) == Zeros(|g| - 1) + [];
      EvalZeros(|g| - 1, [], r);
      MulZero(Eval(g, r));
    } else {
      var n := |q| - 1;
      var p, t := PolyMul(q[..n], g) + [0], Zeros(n) + Scale(q[n], g);
      EvalAdd(p, t, r);
      EvalPolyMul(q[..n], g, r);
      assert p[..|p| - 1] == PolyMul(q[..n], g);
      AddZero(Eval(p, r)); AddZero(Mul(Eval(PolyMul(q[..n], g), r), r));
      EvalZeros(n, Scale(q[n], g), r);
      EvalScale(q[n], g, r);
      var u, v := Eval(q[..n], r), Eval(g, r);
      MulAssoc(u, v, r); MulComm(v, r); MulAssoc(u, r, v);
      MulAddLeft(Mul(u, r), q[n], v);
    }
  }

  // ---- The generator polynomial ----

  /** The monic product of (x - x^i) for i below n. */
  function Generator(n: nat): (g: Word)
    ensures |g| == n + 1
  {
    if n == 0 then [1] else PolyMul(Generator(n - 1), [1, Pow(n - 1)])
  }

  /** The coefficient of x^k in Generator(n), by the recurrence that multiplying with
      one more linear factor gives. */
  function Coef(n: nat, k: int): Byte {
    if n == 0 then (if k == 0 then 1 else 0)
    else Add(Coef(n - 1, k - 1), Mul(Pow(n - 1), Coef(n - 1, k)))
  }

  lemma {:induction false} CoefOutside(n: nat, k: int)
    requires k < 0 || n < k
    ensures Coef(n, k) == 0
  {
    hide Add, Mul, Pow;
    if n > 0 {
      CoefOutside(n - 1, k - 1); CoefOutside(n - 1, k);
      MulZero(Pow(n - 1)); AddZero(0);
    }
  }

  lemma {:induction false} CoefMonic(n: nat)
    ensures Coef(n, n) == 1
  {
    hide Add, Mul, Pow;
    if n > 0 {
      CoefMonic(n - 1); CoefOutside(n - 1, n);
      MulZero(Pow(n - 1)); AddZero(1);
    }
  }

  lemma {:induction false} TimesLinear(q: Word, c: Byte, k: nat)
    requires k <= |q|
    ensures PolyMul(q, [1, c])[k] ==
            Add(if k < |q| then q[k] else 0, Mul(c, if 0 < k then q[k - 1] else 0))
  {
    hide Add, Mul;
    MulZero(c);
    AddZero(0);
    if q != [] {
      var n := |q| - 1;
      var x := q[n];
      MulOne(x); MulComm(x, 1); MulComm(x, c);
      var p := PolyMul(q[..n], [1, c]);
      if k <= n {
        TimesLinear(q[..n], c, k);
      }
      AddComm(Mul(c, x), 0); AddZero(Mul(c, x));
      if k == n {
        AddZero(p[n]); AddZero(x);
        assert Scale(x, [1, c])[0] == x;
        AddComm(p[n], x);
        if 0 < n { AddZero(Mul(c, q[n - 1])); }
      } else if k < n {
        AddZero(p[k]);
      } else {
        assert Scale(x, [1, c])[1] == Mul(x, c);
      }
    }
  }

  lemma {:induction false} GeneratorCoef(n: nat, k: nat)
    requires k <= n
    ensures Generator(n)[k] == Coef(n, n - k)
  {
    hide Add, Mul, Pow, PolyMul;
    if n > 0 {
      var q := Generator(n - 1);
      TimesLinear(q, Pow(n - 1), k);
      CoefOutside(n - 1, -1); CoefOutside(n - 1, n);
      if k < n { GeneratorCoef(n - 1, k); }
      if 0 < k { GeneratorCoef(n - 1, k - 1); }
    }
  }

  lemma {:induction false} GeneratorRoot(n: nat, j: nat)
    requires j < n
    ensures Eval(Generator(n), Pow(j)) == 0
  {
    hide Add, Mul, Pow, PolyMul;
    var a := Pow(n - 1);
    EvalPolyMul(Generator(n - 1), [1, a], Pow(j));
    if j == n - 1 {
      assert [1, a][..1] == [1] && [1][..0] == [];
      assert Eval([], a) == 0;
      MulZero(a); AddZero(1); MulOne(a); AddSelf(a);
      assert Eval([1], a) == 1;
      assert Eval([1, a], a) == 0;
    } else {
      GeneratorRoot(n - 1, j);
    }
    MulZero(Eval(Generator(n - 1), Pow(j))); MulZero(Eval([1, a], Pow(j)));
  }

  /** Comparing coefficients in g(a*x) * (x - a^(n-1)) == a^n * (x - a^(-1)) * g(x):
      neighbouring coefficients determine each other. */
  lemma {:induction false} CoefRatio(n: nat, k: nat)
    ensures Mul(Coef(n, k), Add(Pow(n + k), Pow(n))) == Mul(Coef(n, k - 1), Add(Pow(n + 1), Pow(k)))
  {
    hide Add, Mul, Pow;
    if n == 0 {
      MulZero(Add(Pow(1), Pow(k))); MulZero(Add(Pow(k), Pow(0)));
      AddSelf(Pow(1)); AddSelf(Pow(0)); MulZero(1);
    } else {
      var m := n - 1;
      var a, b, c := Coef(m, k - 2), Coef(m, k - 1), Coef(m, k);
      CoefRatio(m, k);
      RatioLeft(m, k, b, c);
      if k > 0 {
        CoefRatio(m, k - 1);
      } else {
        CoefOutside(m, -2); CoefOutside(m, -1);
      }
      RatioRight(m, k, a, b);
    }
  }

  lemma RatioLeft(m: nat, k: nat, b: Byte, c: Byte)
    requires Mul(c, Add(Pow(m + k), Pow(m))) == Mul(b, Add(Pow(m + 1), Pow(k)))
    ensures Mul(Add(b, Mul(Pow(m), c)), Add(Pow(m + 1 + k), Pow(m + 1)))
         == Mul(b, Add(Pow(m + 1), Pow(2 * m + 2)))
  {
    hide *;
    var p, q := Pow(m + 1 + k), Pow(m + 1);
    calc {
      Mul(Add(b, Mul(Pow(m), c)), Add(p, q));
      { MulAddLeft(b, Mul(Pow(m), c), Add(p, q)); MulComm(Pow(m), c); MulAssoc(c, Pow(m), Add(p, q)); }
      Add(Mul(b, Add(p, q)), Mul(c, Mul(Pow(m), Add(p, q))));
      { ShiftSum(m, m + 1 + k, m + 1); ShiftSum(m + 1, m + k, m); }
      Add(Mul(b, Add(p, q)), Mul(c, Mul(q, Add(Pow(m + k), Pow(m)))));
      { MulComm(q, Add(Pow(m + k), Pow(m))); MulAssoc(c, Add(Pow(m + k), Pow(m)), q);
        MulAssoc(b, Add(Pow(m + 1), Pow(k)), q); MulComm(q, Add(Pow(m + 1), Pow(k))); }
      Add(Mul(b, Add(p, q)), Mul(b, Mul(q, Add(Pow(m + 1), Pow(k)))));
      { ShiftSum(m + 1, m + 1, k); MulAddRight(b, Add(p, q), Add(Pow(2 * m + 2), p)); }
      Mul(b, Add(Add(p, q), Add(Pow(2 * m + 2), p)));
      { AddCancelOuter(p, q, Pow(2 * m + 2)); }
      Mul(b, Add(q, Pow(2 * m + 2)));
    }
  }

  lemma ShiftSum(i: nat, j: nat, k: nat)
    ensures Mul(Pow(i), Add(Pow(j), Pow(k))) == Add(Pow(i + j), Pow(i + k))
  {
    hide *;
    MulAddRight(Pow(i), Pow(j), Pow(k)); MulPow(i, j); MulPow(i, k);
  }

  lemma AddCancelOuter(p: Byte, q: Byte, r: Byte)
    ensures Add(Add(p, q), Add(r, p)) == Add(q, r)
    ensures Add(Add(q, p), Add(p, r)) == Add(q, r)
  {
    hide *;
    AddComm(r, p); AddComm(q, p);
    AddSwap(p, q, p, r); AddSelf(p); AddZero(Add(q, r));
  }

  lemma RatioRight(m: nat, k: nat, a: Byte, b: Byte)
    requires k > 0 ==> Mul(b, Add(Pow(m + k - 1), Pow(m))) == Mul(a, Add(Pow(m + 1), Pow(k - 1)))
    requires k == 0 ==> a == 0 && b == 0
    ensures Mul(Add(a, Mul(Pow(m), b)), Add(Pow(m + 2), Pow(k)))
         == Mul(b, Add(Pow(m + 1), Pow(2 * m + 2)))
  {
    hide *;
    if k == 0 {
      MulZero(Pow(m)); AddZero(0);
      MulZero(Add(Pow(m + 2), Pow(k))); MulZero(Add(Pow(m + 1), Pow(2 * m + 2)));
    } else {
      var t := Add(Pow(m + 2), Pow(k));
      var u, v := Add(Pow(m + 1), Pow(k - 1)), Add(Pow(m + k - 1), Pow(m));
      calc {
        Mul(Add(a, Mul(Pow(m), b)), t);
        { MulAddLeft(a, Mul(Pow(m), b), t); MulComm(Pow(m), b); MulAssoc(b, Pow(m), t); }
        Add(Mul(a, t), Mul(b, Mul(Pow(m), t)));
        { ShiftSum(1, m + 1, k - 1); MulComm(Pow(1), u); MulAssoc(a, u, Pow(1)); MulAssoc(b, v, Pow(1));
          MulComm(v, Pow(1)); }
        Add(Mul(b, Mul(Pow(1), v)), Mul(b, Mul(Pow(m), t)));
        { ShiftSum(1, m + k - 1, m); ShiftSum(m, m + 2, k); }
        Add(Mul(b, Add(Pow(m + k), Pow(m + 1))), Mul(b, Add(Pow(2 * m + 2), Pow(m + k))));
        { MulAddRight(b, Add(Pow(m + k), Pow(m + 1)), Add(Pow(2 * m + 2), Pow(m + k))); }
        Mul(b, Add(Add(Pow(m + k), Pow(m + 1)), Add(Pow(2 * m + 2), Pow(m + k))));
        { AddCancelOuter(Pow(m + k), Pow(m + 1), Pow(2 * m + 2)); }
        Mul(b, Add(Pow(m + 1), Pow(2 * m + 2)));
      }
    }
  }

  /** No coefficient of a generator polynomial is zero: the logarithm of every one exists. */
  lemma {:induction false} CoefNonzero(n: nat, k: nat)
    requires k <= n <= 254
    ensures Coef(n, k) != 0
    decreases n - k
  {
    hide *;
    if k == n {
      CoefMonic(n);
    } else {
      var i := k + 1;
      CoefNonzero(n, i);
      CoefRatio(n, i);
      assert n < n + i;
      PowApart(n, n + i);
      PowApart(k + 1, n + 1);
      AddComm(Pow(k + 1), Pow(n + 1));
      MulNonzero(Coef(n, i), Add(Pow(n + i), Pow(n)));
      MulNonzero(Coef(n, k), Add(Pow(n + 1), Pow(i)));
      AddComm(Pow(n + i), Pow(n));
    }
  }

  lemma PowApart(i: nat, j: nat)
    requires i < j < i + 255
    ensures Add(Pow(i), Pow(j)) != 0
  {
    hide *;
    if Add(Pow(i), Pow(j)) == 0 {
      AddCancel(Pow(i), Pow(j));
      LogPow(i); LogPow(j);
    }
  }
}
