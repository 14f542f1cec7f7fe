/** What the shift-register encoder computes, and why its codewords are far apart. */
module RSEncoder {
  import opened GF256
  import opened RSPoly

  /** One step of the shift register: the feedback is the sum of the incoming byte and the
      byte shifted out, and it is multiplied into the lower coefficients of the generator. */
  function Step(parity: Word, d: Byte, g: Word): (r: Word)
    requires |g| == |parity| + 1 && parity != []
    ensures |r| == |parity|
  {
    AddW(parity[1..] + [0], Scale(Add(d, parity[0]), g[1..]))
  }

  function Parity(data: Word, n: nat): (r: Word)
    requires 1 <= n
    ensures |r| == n
  {
    if data == [] then Zeros(n)
    else Step(Parity(data[..|data| - 1], n), data[|data| - 1], Generator(n))
  }

  /** The feedback bytes, in order: they are the quotient of the division. */
  function Feedback(data: Word, n: nat): (r: Word)
    requires 1 <= n
    ensures |r| == |data|
  {
    if data == [] then []
    else
      var m := |data| - 1;
      Feedback(data[..m], n) + [Add(data[m], Parity(data[..m], n)[0])]
  }

  function Codeword(data: Word, n: nat): Word
    requires 1 <= n
  {
    data + Parity(data, n)
  }

  /** One step of the register, seen on the whole word: shift and add a multiple of g. */
  lemma StepWord(w: Word, p: Word, d: Byte, g: Word)
    requires |g| == |p| + 1 && p != [] && g[0] == 1
    ensures (w + [d]) + Step(p, d, g) == AddW((w + p) + [0], Zeros(|w|) + Scale(Add(d, p[0]), g))
  {
    hide Add, Mul;
    var f, m := Add(d, p[0]), |w|;
    var l, r := (w + [d]) + Step(p, d, g), AddW((w + p) + [0], Zeros(m) + Scale(f, g));
    forall k | 0 <= k < |l|
      ensures l[k] == r[k]
    {
      if k < m {
        AddZero(w[k]);
      } else if k == m {
        AddComm(p[0], f); AddAssoc(d, p[0], p[0]); AddSelf(p[0]); AddZero(d);
        MulOne(f); MulComm(f, 1);
      } else {
        var j := k - m;
        assert l[k] == Step(p, d, g)[j - 1] == Add(if j < |p| then p[j] else 0, Mul(f, g[j]));
        assert ((w + p) + [0])[k] == (if j < |p| then p[j] else 0) && (Zeros(m) + Scale(f, g))[k] == Mul(f, g[j]);
      }
    }
  }

  /** Every codeword is a multiple of the generator polynomial. */
  lemma {:induction false} CodewordMultiple(data: Word, n: nat)
    requires 1 <= n
    ensures Codeword(data, n) == PolyMul(Feedback(data, n), Generator(n))
  {
    hide Add, Mul, Pow, Generator, Step;
    var g := Generator(n);
    if data != [] {
      var m := |data| - 1;
      var w, p := data[..m], Parity(data[..m], n);
      CodewordMultiple(w, n);
      GeneratorCoef(n, 0); CoefMonic(n);
      assert Feedback(data, n)[..m] == Feedback(w, n);
      StepWord(w, p, data[m], g);
      assert w + [data[m]] == data;
    }
  }

  /** The word is a zero of the parity checks at x^0 .. x^(n-1). */
  ghost predicate Checks(w: Word, n: nat) {
    forall j: nat :: j < n ==> Eval(w, Pow(j)) == 0
  }

  lemma CodewordChecks(data: Word, n: nat)
    requires 1 <= n
    ensures Checks(Codeword(data, n), n)
  {
    hide Add, Mul, Pow, Generator, PolyMul, Codeword, Eval;
    forall j: nat | j < n
      ensures Eval(Codeword(data, n), Pow(j)) == 0
    {
      CodewordMultiple(data, n);
      EvalPolyMul(Feedback(data, n), Generator(n), Pow(j));
      GeneratorRoot(n, j);
      MulZero(Eval(Feedback(data, n), Pow(j)));
    }
  }

  // ---- Minimum distance ----

  function Weight(w: Word): (r: nat)
    ensures r <= |w|
  {
    if w == [] then 0 else Weight(w[..|w| - 1]) + (if w[|w| - 1] == 0 then 0 else 1)
  }

  /** A term c * z^j of a power sum. */
  datatype Term = Term(c: Byte, z: Byte)

  ghost function PowerSum(ts: seq<Term>, j: nat): Byte {
    if ts == [] then 0
    else Add(PowerSum(ts[..|ts| - 1], j), Mul(ts[|ts| - 1].c, Exp(ts[|ts| - 1].z, j)))
  }

  ghost predicate Proper(ts: seq<Term>) {
    && (forall i :: 0 <= i < |ts| ==> ts[i].c != 0)
    && (forall i, j :: 0 <= i < j < |ts| ==> ts[i].z != ts[j].z)
  }

  /** Subtracting z times one power sum from the next removes the terms at z. */
  ghost function Eliminate(ts: seq<Term>, z: Byte): (r: seq<Term>)
    ensures |r| == |ts|
  {
    seq(|ts|, i requires 0 <= i < |ts| => Term(Mul(ts[i].c, Add(ts[i].z, z)), ts[i].z))
  }

  lemma {:induction false} EliminateSum(ts: seq<Term>, z: Byte, j: nat)
    ensures PowerSum(Eliminate(ts, z), j) == Add(PowerSum(ts, j + 1), Mul(z, PowerSum(ts, j)))
  {
    hide Add, Mul;
    if ts == [] {
      MulZero(z); AddZero(0);
    } else {
      var n := |ts| - 1;
      var c, y := ts[n].c, ts[n].z;
      var e := Exp(y, j);
      EliminateSum(ts[..n], z, j);
      assert Eliminate(ts, z)[..n] == Eliminate(ts[..n], z);
      calc {
        Mul(Mul(c, Add(y, z)), e);
        { MulAssoc(c, Add(y, z), e); MulAddLeft(y, z, e); MulAddRight(c, Mul(y, e), Mul(z, e)); }
        Add(Mul(c, Mul(y, e)), Mul(c, Mul(z, e)));
        { MulComm(y, e); MulAssoc(c, z, e); MulComm(c, z); MulAssoc(z, c, e); }
        Add(Mul(c, Exp(y, j + 1)), Mul(z, Mul(c, e)));
      }
      MulAddRight(z, PowerSum(ts[..n], j), Mul(c, e));
      AddSwap(PowerSum(ts[..n], j + 1), Mul(z, PowerSum(ts[..n], j)), Mul(c, Exp(y, j + 1)), Mul(z, Mul(c, e)));
    }
  }

  /** Vandermonde: at most n proper terms whose first n power sums vanish are no terms. */
  lemma {:induction false} Vandermonde(ts: seq<Term>, n: nat)
    requires Proper(ts) && |ts| <= n
    requires forall j: nat :: j < n ==> PowerSum(ts, j) == 0
    ensures ts == []
    decreases n
  {
    hide Add, Mul;
    if ts != [] {
      var m := |ts| - 1;
      var z := ts[m].z;
      var all, rest := Eliminate(ts, z), Eliminate(ts[..m], z);
      forall j: nat | j < n - 1
        ensures PowerSum(rest, j) == 0
      {
        EliminateSum(ts, z, j);
        MulZero(z); AddZero(0);
        assert all[..m] == rest;
        AddSelf(z); MulZero(ts[m].c); MulZero(Exp(z, j)); AddZero(PowerSum(rest, j));
      }
      forall i | 0 <= i < m
        ensures rest[i].c != 0
      {
        MulNonzero(ts[i].c, Add(ts[i].z, z));
        if Add(ts[i].z, z) == 0 { AddCancel(ts[i].z, z); }
      }
      Vandermonde(rest, n - 1);
      assert PowerSum(ts, 0) == Add(PowerSum(ts[..m], 0), Mul(ts[m].c, 1));
      MulComm(ts[m].c, 1); MulOne(ts[m].c); AddZero(ts[m].c);
    }
  }

  /** The nonzero coefficients of w as terms located at the powers of x, where w is followed
      by `low` further coefficients. */
  ghost function Terms(w: Word, low: nat): (ts: seq<Term>)
    ensures |ts| == Weight(w)
  {
    if w == [] then []
    else
      var ts := Terms(w[..|w| - 1], low + 1);
      if w[|w| - 1] == 0 then ts else ts + [Term(w[|w| - 1], Pow(low))]
  }

  lemma {:induction false} TermPlace(w: Word, low: nat, i: nat) returns (k: nat)
    requires i < |Terms(w, low)|
    ensures low <= k < low + |w| && Terms(w, low)[i].z == Pow(k)
  {
    hide Pow;
    if i < |Terms(w[..|w| - 1], low + 1)| {
      k := TermPlace(w[..|w| - 1], low + 1, i);
    } else {
      k := low;
    }
  }

  lemma {:induction false} TermsProper(w: Word, low: nat)
    requires |w| + low <= 255
    ensures Proper(Terms(w, low))
  {
    hide Pow;
    if w != [] {
      var ts := Terms(w[..|w| - 1], low + 1);
      TermsProper(w[..|w| - 1], low + 1);
      forall i | 0 <= i < |ts|
        ensures ts[i].z != Pow(low)
      {
        var k := TermPlace(w[..|w| - 1], low + 1, i);
        PowDistinct(low, k);
      }
    }
  }

  lemma {:induction false} ExpPow(k: nat, j: nat)
    ensures Exp(Pow(k), j) == Pow(k * j)
  {
    hide Mul, Pow;
    if j > 0 {
      ExpPow(k, j - 1);
      MulPow(k * (j - 1), k);
      assert k * (j - 1) + k == k * j;
    } else {
      assert Pow(0) == 1 by { PowZero(); }
    }
  }

  lemma PowZero()
    ensures Pow(0) == 1
  {}

  lemma {:induction false} TermsSum(w: Word, low: nat, j: nat)
    ensures PowerSum(Terms(w, low), j) == Mul(Eval(w, Pow(j)), Pow(low * j))
  {
    hide Add, Mul, Pow;
    if w == [] {
      MulZero(Pow(low * j));
    } else {
      var n := |w| - 1;
      var c, e := w[n], Eval(w[..n], Pow(j));
      TermsSum(w[..n], low + 1, j);
      ExpPow(low, j);
      MulAddLeft(Mul(e, Pow(j)), c, Pow(low * j));
      MulAssoc(e, Pow(j), Pow(low * j)); MulPow(j, low * j);
      assert j + low * j == (low + 1) * j;
      var ts := Terms(w[..n], low + 1);
      if c == 0 {
        MulZero(Pow(low * j)); AddZero(PowerSum(ts, j));
      } else {
        assert (ts + [Term(c, Pow(low))])[..|ts|] == ts;
      }
    }
  }

  /** A word of length at most 255 that passes n checks is zero or has weight above n. */
  lemma ChecksWeight(w: Word, n: nat)
    requires |w| <= 255 && Checks(w, n) && Weight(w) <= n
    ensures Weight(w) == 0
  {
    hide Add, Mul, Pow, Eval, Terms, Weight, PowerSum;
    TermsProper(w, 0);
    forall j: nat | j < n
      ensures PowerSum(Terms(w, 0), j) == 0
    {
      TermsSum(w, 0, j);
      MulZero(Pow(0));
    }
    Vandermonde(Terms(w, 0), n);
  }

  function Distance(a: Word, b: Word): nat
    requires |a| == |b|
  {
    if a == [] then 0
    else
      var n := |a| - 1;
      Distance(a[..n], b[..n]) + (if a[n] == b[n] then 0 else 1)
  }

  lemma {:induction false} DistanceWeight(a: Word, b: Word)
    requires |a| == |b|
    ensures Weight(AddW(a, b)) == Distance(a, b)
    ensures Distance(a, b) == 0 <==> a == b
  {
    hide Add;
    if a != [] {
      var n := |a| - 1;
      DistanceWeight(a[..n], b[..n]);
      assert AddW(a, b)[..n] == AddW(a[..n], b[..n]);
      AddSelf(a[n]);
      if Add(a[n], b[n]) == 0 { AddCancel(a[n], b[n]); }
    }
  }

  lemma {:induction false} DistanceTriangle(a: Word, b: Word, c: Word)
    requires |a| == |b| == |c|
    ensures Distance(a, c) <= Distance(a, b) + Distance(b, c)
    ensures Distance(a, b) == Distance(b, a)
  {
    if a != [] {
      var n := |a| - 1;
      DistanceTriangle(a[..n], b[..n], c[..n]);
    }
  }

  lemma ChecksLinear(a: Word, b: Word, n: nat)
    requires |a| == |b| && Checks(a, n) && Checks(b, n)
    ensures Checks(AddW(a, b), n)
  {
    hide Add, Mul, Pow, Eval, AddW;
    forall j: nat | j < n
      ensures Eval(AddW(a, b), Pow(j)) == 0
    {
      EvalAdd(a, b, Pow(j));
      AddZero(0);
    }
  }

  /** Two different words that pass n checks differ in more than n places. */
  lemma ChecksDistance(a: Word, b: Word, n: nat)
    requires |a| == |b| <= 255 && Checks(a, n) && Checks(b, n) && a != b
    ensures Distance(a, b) >= n + 1
  {
    hide Add, Mul, Pow, Eval, Weight, Distance, Checks;
    DistanceWeight(a, b);
    ChecksLinear(a, b, n);
    if Distance(a, b) <= n {
      ChecksWeight(AddW(a, b), n);
    }
  }

  /** Minimum distance: codewords of different data differ in at least n + 1 bytes. */
  lemma MinimumDistance(a: Word, b: Word, n: nat)
    requires 1 <= n && |a| == |b| && |a| + n <= 255 && a != b
    ensures Distance(Codeword(a, n), Codeword(b, n)) >= n + 1
  {
    hide Checks, Distance, Parity;
    CodewordChecks(a, n); CodewordChecks(b, n);
    assert Codeword(a, n)[..|a|] == a && Codeword(b, n)[..|b|] == b;
    ChecksDistance(Codeword(a, n), Codeword(b, n), n);
  }

  /** A received word lies within n/2 errors of at most one codeword. */
  lemma UniqueDecoding(received: Word, a: Word, b: Word, n: nat)
    requires 1 <= n && |a| == |b| && |a| + n == |received| <= 255
    requires 2 * Distance(received, Codeword(a, n)) <= n
    requires 2 * Distance(received, Codeword(b, n)) <= n
    ensures a == b
  {
    hide Distance, Parity;
    DistanceTriangle(Codeword(a, n), received, Codeword(b, n));
    DistanceTriangle(received, Codeword(a, n), received);
    if a != b {
      MinimumDistance(a, b, n);
    }
  }

  /** The parity bytes are the only ones that complete the data to a word passing all checks. */
  lemma ParityUnique(data: Word, p: Word, n: nat)
    requires 1 <= n == |p| && |data| + n <= 255
    ensures Checks(data + p, n) <==> p == Parity(data, n)
  {
    hide Checks, Parity;
    CodewordChecks(data, n);
    var c := Codeword(data, n);
    if Checks(data + p, n) && data + p != c {
      ChecksDistance(data + p, c, n);
      DistanceSuffix(data, p, Parity(data, n));
    }
    assert (data + p)[|data|..] == p && c[|data|..] == Parity(data, n);
  }

  lemma {:induction false} DistanceSuffix(data: Word, p: Word, q: Word)
    requires |p| == |q|
    ensures Distance(data + p, data + q) <= |p|
  {
    if p == [] {
      assert data + p == data == data + q;
      DistanceWeight(data, data);
    } else {
      var n := |p| - 1;
      DistanceSuffix(data, p[..n], q[..n]);
      assert (data + p)[..|data| + n] == data + p[..n];
      assert (data + q)[..|data| + n] == data + q[..n];
    }
  }

  /** Encoding is linear. */
  lemma ParityLinear(a: Word, b: Word, n: nat)
    requires 1 <= n && |a| == |b| && |a| + n <= 255
    ensures Parity(AddW(a, b), n) == AddW(Parity(a, n), Parity(b, n))
  {
    hide Checks, Parity, Add;
    CodewordChecks(a, n); CodewordChecks(b, n);
    ChecksLinear(Codeword(a, n), Codeword(b, n), n);
    assert AddW(Codeword(a, n), Codeword(b, n)) == AddW(a, b) + AddW(Parity(a, n), Parity(b, n));
    ParityUnique(AddW(a, b), AddW(Parity(a, n), Parity(b, n)), n);
  }
}
