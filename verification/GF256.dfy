/** The field GF(2^8) of the Reed-Solomon code: bytes are polynomials over GF(2),
    multiplied modulo x^8 + x^4 + x^3 + x^2 + 1 (0x11d). */
module GF256 {
  type Byte = bv8

  /** Addition of polynomials over GF(2). */
  function Add(a: Byte, b: Byte): Byte { a ^ b }

  /** Multiplication by x: shift, and subtract the modulus when the degree reaches 8. */
  function XTime(a: Byte): Byte { (a << 1) ^ ((a >> 7) * 0x1d) }

  predicate Odd(b: Byte) { b & 1 == 1 }

  function Half(b: Byte): Byte { b >> 1 }

  /** Shift-and-add multiplication by the low k bits of b. */
  function MulBits(a: Byte, b: Byte, k: nat): Byte
    decreases k
  {
    if k == 0 then 0
    else if Odd(b) then Add(a, MulBits(XTime(a), Half(b), k - 1))
    else MulBits(XTime(a), Half(b), k - 1)
  }

  /** Carry-less multiplication modulo 0x11d. */
  function Mul(a: Byte, b: Byte): Byte { MulBits(a, b, 8) }

  /** The powers of the element x, which generates the multiplicative group. */
  function Pow(k: nat): Byte {
    if k == 0 then 1 else XTime(Pow(k - 1))
  }

  /** A byte as a number. */
  function Ord(a: Byte): (n: nat)
    ensures n < 256
  {
    a as int
  }

  lemma OrdNext(a: Byte)
    requires a != 255
    ensures Ord(a + 1) == Ord(a) + 1
  {}

  lemma OrdInverse(a: Byte)
    ensures Ord(a) as Byte == a
  {}

  lemma {:induction false} ByteWithOrd(n: nat) returns (a: Byte)
    requires n < 256
    ensures Ord(a) == n
  {
    if n == 0 {
      a := 0;
    } else {
      var b := ByteWithOrd(n - 1);
      OrdNext(b);
      a := b + 1;
    }
  }

  lemma OrdOfNumber(n: nat)
    requires n < 256
    ensures Ord(n as Byte) == n
  {
    var a := ByteWithOrd(n);
    OrdInverse(a);
  }

  /** A number as a byte. */
  function Chr(n: nat): (a: Byte)
    requires n < 256
    ensures Ord(a) == n
  {
    OrdOfNumber(n);
    n as Byte
  }

  lemma OrdFacts(a: Byte, b: Byte)
    ensures Ord(a) == Ord(b) <==> a == b
    ensures Chr(Ord(a)) == a
    ensures Ord(a) == 0 <==> a == 0
  {}

  lemma ChrIs(n: nat, a: Byte)
    requires n == Ord(a)
    ensures Chr(n) == a
  {
    OrdFacts(a, a);
  }

  // ---- Addition ----

  lemma AddAssoc(a: Byte, b: Byte, c: Byte)
    ensures Add(Add(a, b), c) == Add(a, Add(b, c))
  {}

  lemma AddComm(a: Byte, b: Byte)
    ensures Add(a, b) == Add(b, a)
  {}

  lemma AddZero(a: Byte)
    ensures Add(a, 0) == a == Add(0, a)
  {}

  lemma AddSelf(a: Byte)
    ensures Add(a, a) == 0
  {}

  lemma AddCancel(a: Byte, b: Byte)
    requires Add(a, b) == 0
    ensures a == b
  {}

  lemma AddSwap(p: Byte, q: Byte, r: Byte, s: Byte)
    ensures Add(Add(p, q), Add(r, s)) == Add(Add(p, r), Add(q, s))
  {
    hide Add;
    AddAssoc(p, q, Add(r, s)); AddAssoc(q, r, s); AddComm(q, r);
    AddAssoc(r, q, s); AddAssoc(p, r, Add(q, s));
  }

  // ---- Multiplication by x and by single bits ----

  lemma XTimeAdd(a: Byte, b: Byte)
    ensures XTime(Add(a, b)) == Add(XTime(a), XTime(b))
  {}

  lemma XTimeZero(a: Byte)
    ensures XTime(a) == 0 <==> a == 0
  {}

  lemma BitsAdd(b: Byte, c: Byte)
    ensures Odd(Add(b, c)) == (Odd(b) != Odd(c))
    ensures Half(Add(b, c)) == Add(Half(b), Half(c))
  {}

  lemma {:induction false} MulBitsAdd(a: Byte, b: Byte, c: Byte, k: nat)
    ensures MulBits(a, Add(b, c), k) == Add(MulBits(a, b, k), MulBits(a, c, k))
    decreases k
  {
    hide Add, XTime, Odd, Half;
    if k == 0 {
      AddZero(0);
    } else {
      BitsAdd(b, c);
      var x, y := MulBits(XTime(a), Half(b), k - 1), MulBits(XTime(a), Half(c), k - 1);
      MulBitsAdd(XTime(a), Half(b), Half(c), k - 1);
      AddSwap(a, x, a, y); AddSelf(a); AddZero(Add(x, y));
      AddAssoc(a, x, y);
      AddComm(a, y); AddAssoc(x, y, a); AddComm(Add(x, y), a);
    }
  }

  lemma {:induction false} MulBitsXTime(a: Byte, b: Byte, k: nat)
    ensures MulBits(XTime(a), b, k) == XTime(MulBits(a, b, k))
    decreases k
  {
    hide Add, XTime, Odd, Half;
    if k == 0 {
      XTimeZero(0);
    } else {
      MulBitsXTime(XTime(a), Half(b), k - 1);
      XTimeAdd(a, MulBits(XTime(a), Half(b), k - 1));
    }
  }

  lemma MulAddRight(a: Byte, b: Byte, c: Byte)
    ensures Mul(a, Add(b, c)) == Add(Mul(a, b), Mul(a, c))
  {
    hide Add;
    MulBitsAdd(a, b, c, 8);
  }

  lemma MulXTime(a: Byte, b: Byte)
    ensures Mul(XTime(a), b) == XTime(Mul(a, b))
  {
    hide Add, XTime;
    MulBitsXTime(a, b, 8);
  }

  /** The number of places from a single bit to the top, both included. */
  function Left(p: Byte): nat {
    match p
    case 1 => 8 case 2 => 7 case 4 => 6 case 8 => 5
    case 0x10 => 4 case 0x20 => 3 case 0x40 => 2 case 0x80 => 1
    case _ => 0
  }

  lemma LeftStep(p: Byte)
    requires Left(p) >= 1
    ensures Left(p) > 1 ==> Left(p << 1) == Left(p) - 1 && XTime(p) == p << 1
    ensures Left(p) == 1 ==> p << 1 == 0
  {}

  lemma ShiftedFactor(p: Byte, b: Byte)
    requires Left(p) >= 1
    ensures b * p == if Odd(b) then Add(p, Half(b) * (p << 1)) else Half(b) * (p << 1)
  {}

  /** A factor that is a single bit shifts the other one up, as long as no reduction happens. */
  lemma {:induction false} MulBitsSingle(p: Byte, b: Byte, k: nat)
    requires 1 <= k == Left(p)
    ensures MulBits(p, b, k) == b * p
    decreases k
  {
    hide Left, Add, XTime, Odd, Half;
    LeftStep(p);
    ShiftedFactor(p, b);
    if k == 1 {
      NoFactor(Half(b));
    } else {
      MulBitsSingle(p << 1, Half(b), k - 1);
    }
  }

  lemma NoFactor(b: Byte)
    ensures b * 0 == 0
  {}

  lemma MulOne(b: Byte)
    ensures Mul(1, b) == b
  {
    MulBitsSingle(1, b, 8);
  }

  lemma {:induction false} MulPow(i: nat, j: nat)
    ensures Mul(Pow(i), Pow(j)) == Pow(i + j)
  {
    hide Mul, XTime;
    if i == 0 {
      MulOne(Pow(j));
    } else {
      MulXTime(Pow(i - 1), Pow(j));
      MulPow(i - 1, j);
    }
  }

  // ---- The order of x is 255 ----

  lemma {:induction false} PowNonzero(k: nat)
    ensures Pow(k) != 0
  {
    hide XTime;
    if k > 0 {
      PowNonzero(k - 1);
      XTimeZero(Pow(k - 1));
    }
  }

  function XTime5(a: Byte): Byte { XTime(XTime(XTime(XTime(XTime(a))))) }

  lemma PowFive(k: nat)
    ensures Pow(k + 5) == XTime5(Pow(k))
  {
    hide XTime;
    assert Pow(k + 3) == XTime(Pow(k + 2)) && Pow(k + 2) == XTime(Pow(k + 1));
    assert Pow(k + 5) == XTime(Pow(k + 4)) && Pow(k + 4) == XTime(Pow(k + 3));
  }

  function XTime15(a: Byte): Byte { XTime5(XTime5(XTime5(a))) }

  lemma PowFifteen(k: nat)
    ensures Pow(k + 15) == XTime15(Pow(k))
  {
    hide XTime5, XTime, Pow;
    PowFive(k); PowFive(k + 5); PowFive(k + 10);
  }

  /** Fifteen steps at a time, the shift register walks through these values. */
  lemma FifteenTable()
    ensures XTime15(0x1) == 0x26
    ensures XTime15(0x26) == 0x60
    ensures XTime15(0x60) == 0xc1
    ensures XTime15(0xc1) == 0xb9
    ensures XTime15(0xb9) == 0xf
    ensures XTime15(0xf) == 0xdf
    ensures XTime15(0xdf) == 0x1a
    ensures XTime15(0x1a) == 0x3b
    ensures XTime15(0x3b) == 0xa9
    ensures XTime15(0xa9) == 0x55
    ensures XTime15(0x55) == 0x91
    ensures XTime15(0x91) == 0x96
    ensures XTime15(0x96) == 0x64
    ensures XTime15(0x64) == 0x59
    ensures XTime15(0x59) == 0x24
    ensures XTime15(0x24) == 0x2c
    ensures XTime15(0x2c) == 0x1
    ensures XTime(XTime5(0xc1)) == 0xa && XTime5(XTime5(0xf)) == 0xd6
  {}

  lemma PowLandmarksLow()
    ensures Pow(15) == 0x26 && Pow(51) == 0xa && Pow(85) == 0xd6 && Pow(90) == 0xdf
  {
    assert Pow(0) == 1;
    assert Pow(51) == XTime(Pow(50));
    hide *;
    FifteenTable();
    PowFifteen(0); PowFifteen(15); PowFifteen(30);
    PowFifteen(45); PowFifteen(60); PowFifteen(75);
    PowFive(45); PowFive(75); PowFive(80);
  }

  lemma PowLandmarks()
    ensures Pow(15) == 0x26 && Pow(51) == 0xa && Pow(85) == 0xd6 && Pow(255) == 1
  {
    hide *;
    PowLandmarksLow();
    FifteenTable();
    PowFifteen(90); PowFifteen(105); PowFifteen(120); PowFifteen(135); PowFifteen(150); PowFifteen(165);
    PowFifteen(180); PowFifteen(195); PowFifteen(210); PowFifteen(225); PowFifteen(240);
  }

  lemma {:induction false} PowMultiple(d: nat, q: nat)
    requires Pow(d) == 1
    ensures Pow(d * q) == 1
  {
    hide XTime;
    if q > 0 {
      PowMultiple(d, q - 1);
      MulPow(d * (q - 1), d);
      MulOne(1);
      assert d * (q - 1) + d == d * q;
    } 
  }

  lemma SmallFactor(d: nat, q: nat)
    requires 0 < d <= 15 && d * q == 255
    ensures d == 1 || d == 3 || d == 5 || d == 15
  {
    assert 255 % d == 0;
  }

  lemma ProperDivisor(d: nat, q: nat)
    requires 0 < d < 255 && d * q == 255
    ensures 15 % d == 0 || 51 % d == 0 || 85 % d == 0
  {
    if d <= 15 {
      SmallFactor(d, q);
    } else {
      assert d * q >= 16 * q;
      SmallFactor(q, d);
    }
  }

  /** No smaller positive power of x is 1: the order would divide 255, hence 15, 51 or 85. */
  lemma {:induction false} PowNotOne(d: nat)
    requires 0 < d < 255
    ensures Pow(d) != 1
  {
    hide *;
    if Pow(d) == 1 {
      PowLandmarks();
      var q, r := 255 / d, 255 % d;
      PowMultiple(d, q);
      MulPow(d * q, r);
      MulOne(Pow(r));
      if r != 0 {
        PowNotOne(r);
      } else {
        ProperDivisor(d, q);
        PowMultiple(d, 15 / d); PowMultiple(d, 51 / d); PowMultiple(d, 85 / d);
      }
    }
  }

  lemma PowPeriod(k: nat)
    ensures Pow(k + 255) == Pow(k)
    ensures Pow(k % 255) == Pow(k)
  {
    hide *;
    PowLandmarks();
    MulPow(255, k);
    MulOne(Pow(k));
    PowMultiple(255, k / 255);
    assert k == 255 * (k / 255) + k % 255;
    MulPow(255 * (k / 255), k % 255);
    MulOne(Pow(k % 255));
  }

  lemma PowDistinct(i: nat, j: nat)
    requires i < j < 255
    ensures Pow(i) != Pow(j)
  {
    hide *;
    if Pow(i) == Pow(j) {
      MulPow(255 - i, i); MulPow(255 - i, j);
      PowLandmarks();
      PowPeriod(j - i);
      PowNotOne(j - i);
    }
  }

  // ---- Every nonzero byte is a power of x ----

  ghost function Elements(s: seq<nat>): (r: set<int>)
    ensures forall v: int :: v in r <==> v in s
  {
    if s == [] then {} else Elements(s[..|s| - 1]) + {s[|s| - 1]}
  }

  ghost function Below(n: nat): (r: set<int>)
    ensures forall v: int :: v in r <==> 0 <= v < n
    ensures |r| == n
  {
    if n == 0 then {} else Below(n - 1) + {n - 1}
  }

  ghost predicate Distinct(s: seq<nat>) {
    forall i, j :: 0 <= i < j < |s| ==> s[i] != s[j]
  }

  lemma {:induction false} DistinctCount(s: seq<nat>)
    requires Distinct(s)
    ensures |Elements(s)| == |s|
  {
    if s != [] {
      DistinctCount(s[..|s| - 1]);
    }
  }

  /** n distinct numbers below n are all the numbers below n. */
  lemma Pigeonhole(s: seq<nat>, v: nat)
    requires Distinct(s) && v < |s|
    requires forall u :: u in s ==> u < |s|
    ensures v in s
  {
    DistinctCount(s);
    if v !in s {
      assert Elements(s) <= Below(|s|) - {v};
      SubsetCount(Elements(s), Below(|s|) - {v});
    }
  }

  lemma SubsetCount(a: set<int>, b: set<int>)
    requires a <= b
    ensures |a| <= |b|
  {
    assert |b - a| == |b| - |a|;
  }

  /** The discrete logarithm: the exponent below 255 whose power is a. */
  ghost function Log(a: Byte): (k: nat)
    requires a != 0
    ensures k < 255 && Pow(k) == a
  {
    LogExists(a);
    var k: nat :| k < 255 && Pow(k) == a;
    k
  }

  lemma LogExists(a: Byte)
    requires a != 0
    ensures exists k: nat :: k < 255 && Pow(k) == a
  {
    hide Pow, Ord;
    var s := seq(255, (i: nat) requires i < 255 => PowIndex(i));
    forall i, j | 0 <= i < j < 255
      ensures s[i] != s[j]
    {
      PowDistinct(i, j);
      OrdFacts(Pow(i), Pow(j)); OrdFacts(Pow(i), 0); OrdFacts(Pow(j), 0);
      PowNonzero(i); PowNonzero(j);
    }
    OrdFacts(a, 0);
    Pigeonhole(s, Ord(a) - 1);
    var k :| 0 <= k < 255 && s[k] == Ord(a) - 1;
    PowNonzero(k);
    OrdFacts(Pow(k), 0); OrdFacts(Pow(k), a);
  }

  function PowIndex(i: nat): (n: nat)
    ensures n < 255
  {
    PowNonzero(i);
    OrdFacts(Pow(i), 0);
    Ord(Pow(i)) - 1
  }

  // ---- Field laws ----

  lemma XTimeFixed(a: Byte)
    ensures XTime(a) == a ==> a == 0
    ensures XTime(0) == 0
  {}

  lemma MulZero(a: Byte)
    ensures Mul(a, 0) == 0 == Mul(0, a)
  {
    hide *;
    AddSelf(0); AddSelf(Mul(a, 0));
    MulAddRight(a, 0, 0);
    MulXTime(0, a);
    XTimeFixed(Mul(0, a));
  }

  lemma MulComm(a: Byte, b: Byte)
    ensures Mul(a, b) == Mul(b, a)
  {
    hide *;
    if a == 0 || b == 0 {
      MulZero(a); MulZero(b);
    } else {
      MulPow(Log(a), Log(b)); MulPow(Log(b), Log(a));
    }
  }

  lemma MulAssoc(a: Byte, b: Byte, c: Byte)
    ensures Mul(Mul(a, b), c) == Mul(a, Mul(b, c))
  {
    hide *;
    if a == 0 || b == 0 || c == 0 {
      MulZero(a); MulZero(b); MulZero(c); MulZero(Mul(a, b)); MulZero(Mul(b, c));
    } else {
      var i, j, k := Log(a), Log(b), Log(c);
      MulPow(i, j); MulPow(i + j, k); MulPow(j, k); MulPow(i, j + k);
    }
  }

  lemma MulAddLeft(a: Byte, b: Byte, c: Byte)
    ensures Mul(Add(a, b), c) == Add(Mul(a, c), Mul(b, c))
  {
    hide *;
    MulComm(Add(a, b), c); MulComm(a, c); MulComm(b, c);
    MulAddRight(c, a, b);
  }

  lemma MulNonzero(a: Byte, b: Byte)
    ensures Mul(a, b) == 0 <==> a == 0 || b == 0
  {
    hide *;
    if a == 0 || b == 0 {
      MulZero(a); MulZero(b);
    } else {
      MulPow(Log(a), Log(b));
      PowNonzero(Log(a) + Log(b));
    }
  }

  lemma LogPow(k: nat)
    ensures Pow(k) != 0 && Log(Pow(k)) == k % 255
  {
    hide *;
    PowNonzero(k); PowPeriod(k);
    var l := Log(Pow(k));
    if l < k % 255 {
      PowDistinct(l, k % 255);
    } else if k % 255 < l {
      PowDistinct(k % 255, l);
    }
  }
}
