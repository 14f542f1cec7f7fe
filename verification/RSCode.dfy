/** The Reed-Solomon codec: log and antilog tables built by a shift register, a generator
    polynomial built in place, and the shift-register encoder that works on logarithms. */
module RSCode {
  import opened GF256
  import opened RSPoly
  import opened RSEncoder

  const NN := 255  // symbols in a block
  const A0 := 255  // stands for the logarithm of zero

  /** Adding logarithms, modulo 255, multiplies. */
  lemma LogMul(a: Byte, b: Byte)
    requires a != 0 && b != 0
    ensures Pow((Log(a) + Log(b)) % NN) == Mul(a, b)
  {
    hide Pow, Mul;
    MulPow(Log(a), Log(b));
    PowPeriod(Log(a) + Log(b));
  }

  /** Reduction modulo 255 without division. */
  method ModNN(x: nat) returns (r: nat)
    ensures r == x % NN
  {
    r := x;
    while r >= NN
      invariant r % NN == x % NN
    {
      r := r - NN;
      r := r / 256 + r % 256;
    }
  }

  // ---- Log and antilog tables ----

  /** One shift of the table generator's register. */
  function ShiftRegister(sr: bv32): bv32 {
    var t := sr << 1;
    (if t & 0x100 != 0 then t ^ 0x11d else t) & 0xff
  }

  function Wide(a: Byte): (w: bv32)
    ensures Narrow(w) == a
  {
    a as bv32
  }

  function Narrow(w: bv32): Byte { (w & 0xff) as Byte }

  /** The shift register computes multiplication by x. */
  lemma ShiftRegisterIsXTime(a: Byte)
    ensures ShiftRegister(Wide(a)) == Wide(XTime(a))
    ensures Wide(1) == 1
  {}

  lemma NextRegister(k: nat)
    ensures ShiftRegister(Wide(Pow(k))) == Wide(Pow(k + 1))
  {
    hide XTime, ShiftRegister, Wide;
    ShiftRegisterIsXTime(Pow(k));
  }

  /** The antilog table holds the powers of x; the log table inverts it. */
  ghost predicate Tables(alphaTo: seq<Byte>, indexOf: seq<Byte>) {
    && |alphaTo| == |indexOf| == 256
    && (forall k: nat :: k < NN ==> alphaTo[k] == Pow(k))
    && alphaTo[A0] == 0
    && (forall a: Byte :: a != 0 ==> Ord(indexOf[Ord(a)]) == Log(a))
    && Ord(indexOf[0]) == A0
  }

  lemma LogTable(alphaTo: seq<Byte>, indexOf: seq<Byte>, a: Byte)
    requires Tables(alphaTo, indexOf)
    ensures |alphaTo| == |indexOf| == 256
    ensures Ord(indexOf[Ord(a)]) == if a == 0 then A0 else Log(a)
    ensures Ord(indexOf[Ord(a)]) == A0 <==> a == 0
  {
    OrdFacts(a, 0);
  }

  /** The first n entries of the antilog table, and the log entries pointing back at them. */
  ghost predicate Filled(alphaTo: seq<Byte>, indexOf: seq<Byte>, n: nat) {
    && n <= NN && |alphaTo| == |indexOf| == 256
    && (forall k: nat :: k < n ==> alphaTo[k] == Pow(k))
    && (forall k: nat :: k < n ==> Ord(indexOf[Ord(Pow(k))]) == k)
    && alphaTo[A0] == 0 && Ord(indexOf[0]) == A0
  }

  lemma PowOrds(i: nat)
    requires i < NN
    ensures Ord(Pow(i)) != 0
    ensures forall k: nat :: k < i ==> Ord(Pow(k)) != Ord(Pow(i))
  {
    hide Pow, Ord;
    PowNonzero(i);
    OrdFacts(Pow(i), 0);
    forall k: nat | k < i ensures Ord(Pow(k)) != Ord(Pow(i)) {
      PowDistinct(k, i);
      OrdFacts(Pow(k), Pow(i));
    }
  }

  lemma TablesComplete(alphaTo: seq<Byte>, indexOf: seq<Byte>)
    requires Filled(alphaTo, indexOf, NN)
    ensures Tables(alphaTo, indexOf)
  {
    hide Pow, Log;
    forall a: Byte | a != 0
      ensures Ord(indexOf[Ord(a)]) == Log(a)
    {
      assert Pow(Log(a)) == a;
    }
  }

  /** Run the shift register once through all non-zero bytes; it comes back to 1, which shows that
      the polynomial is primitive. */
  method GenerateTables() returns (alphaTo: array<Byte>, indexOf: array<Byte>, primitive: bool)
    ensures fresh(alphaTo) && fresh(indexOf) && Tables(alphaTo[..], indexOf[..]) && primitive
  {
    assert Pow(0) == 1;
    PowPeriod(0);
    hide Pow, XTime, Wide, Narrow, ShiftRegister, Ord, Chr, Tables;
    ShiftRegisterIsXTime(1);
    alphaTo, indexOf := new Byte[256], new Byte[256];
    indexOf[0] := Chr(A0);
    alphaTo[A0] := 0;
    assert Filled(alphaTo[..], indexOf[..], 0);
    hide Filled;
    var sr: bv32 := 1;
    for i := 0 to NN
      invariant sr == Wide(Pow(i))
      invariant Filled(alphaTo[..], indexOf[..], i)
    {
      StoreEntry(alphaTo, indexOf, i, Narrow(sr));
      NextRegister(i);
      sr := ShiftRegister(sr);
    }
    TablesComplete(alphaTo[..], indexOf[..]);
    primitive := sr == 1;
  }

  method StoreEntry(alphaTo: array<Byte>, indexOf: array<Byte>, i: nat, a: Byte)
    requires alphaTo != indexOf && i < NN && a == Pow(i) && Filled(alphaTo[..], indexOf[..], i)
    modifies alphaTo, indexOf
    ensures Filled(alphaTo[..], indexOf[..], i + 1)
  {
    hide Pow, Ord, Chr;
    PowOrds(i);
    indexOf[Ord(a)] := Chr(i);
    alphaTo[i] := a;
  }

  /** alphaTo[(log a + log b) mod 255] is the product of a and b. */
  method TableMul(alphaTo: seq<Byte>, indexOf: seq<Byte>, a: Byte, logB: nat, ghost b: Byte) returns (r: Byte)
    requires Tables(alphaTo, indexOf) && a != 0 && b != 0 && logB == Log(b)
    ensures r == Mul(a, b)
  {
    hide Pow, Mul, Log;
    var e := ModNN(Ord(indexOf[Ord(a)]) + logB);
    LogMul(a, b);
    r := alphaTo[e];
  }

  // ---- Generator polynomial ----

  lemma AddIsXor(a: Byte, b: Byte)
    ensures a ^ b == Add(a, b)
  {}

  lemma CoefNext(n: nat, k: nat)
    ensures k > 0 ==> Coef(n + 1, k) == Add(Coef(n, k - 1), Mul(Coef(n, k), Pow(n)))
    ensures Coef(n, k) == 0 && k > 0 ==> Coef(n + 1, k) == Coef(n, k - 1)
    ensures k == 0 ==> Coef(n + 1, k) == Mul(Coef(n, k), Pow(n))
  {
    hide Add, Mul, Pow;
    MulComm(Pow(n), Coef(n, k));
    MulZero(Pow(n)); AddZero(Coef(n, k - 1));
    CoefOutside(n, -1);
    AddZero(Mul(Coef(n, k), Pow(n)));
  }

  /** Multiply in place by one linear factor after the other. */
  method FormGenerator(alphaTo: seq<Byte>, indexOf: seq<Byte>, nroots: nat) returns (genpoly: array<Byte>)
    requires Tables(alphaTo, indexOf) && nroots <= 254
    ensures fresh(genpoly) && genpoly.Length == nroots + 1
    ensures forall k: nat :: k <= nroots ==> genpoly[k] == Coef(nroots, k)
  {
    CoefMonic(0);
    hide *;
    genpoly := new Byte[nroots + 1];
    genpoly[0] := 1;
    for i := 0 to nroots
      invariant forall k: nat :: k <= i ==> genpoly[k] == Coef(i, k)
    {
      MulLinear(alphaTo, indexOf, genpoly, i);
    }
  }

  /** Multiply the polynomial of degree i by (x - x^i), from the top coefficient down. */
  method MulLinear(alphaTo: seq<Byte>, indexOf: seq<Byte>, genpoly: array<Byte>, i: nat)
    requires Tables(alphaTo, indexOf) && i < 254 && i + 1 < genpoly.Length
    requires forall k: nat :: k <= i ==> genpoly[k] == Coef(i, k)
    modifies genpoly
    ensures forall k: nat :: k <= i + 1 ==> genpoly[k] == Coef(i + 1, k)
  {
    hide *;
    LogPow(i);
    CoefMonic(i + 1);
    genpoly[i + 1] := 1;
    var j := i;
    while j > 0
      invariant 0 <= j <= i
      invariant forall k: nat :: k <= j ==> genpoly[k] == Coef(i, k)
      invariant forall k: nat :: j < k <= i + 1 ==> genpoly[k] == Coef(i + 1, k)
    {
      CoefNext(i, j);
      if genpoly[j] != 0 {
        var t := TableMul(alphaTo, indexOf, genpoly[j], i, Pow(i));
        AddIsXor(genpoly[j - 1], t);
        genpoly[j] := genpoly[j - 1] ^ t;
      } else {
        genpoly[j] := genpoly[j - 1];
      }
      j := j - 1;
    }
    CoefNext(i, 0);
    CoefNonzero(i, 0);
    var t := TableMul(alphaTo, indexOf, genpoly[0], i, Pow(i));
    genpoly[0] := t;
  }

  /** Replace every coefficient by its logarithm; none is zero, so none becomes A0. */
  method ToIndexForm(alphaTo: seq<Byte>, indexOf: seq<Byte>, genpoly: array<Byte>, nroots: nat)
    requires Tables(alphaTo, indexOf) && nroots <= 254 && genpoly.Length == nroots + 1
    requires forall k: nat :: k <= nroots ==> genpoly[k] == Coef(nroots, k)
    modifies genpoly
    ensures forall k: nat :: k <= nroots ==>
              Coef(nroots, k) != 0 && Ord(genpoly[k]) == Log(Coef(nroots, k)) != A0
  {
    hide *;
    for i := 0 to nroots + 1
      invariant forall k: nat :: i <= k <= nroots ==> genpoly[k] == Coef(nroots, k)
      invariant forall k: nat :: k < i ==>
                  Coef(nroots, k) != 0 && Ord(genpoly[k]) == Log(Coef(nroots, k)) != A0
    {
      CoefNonzero(nroots, i);
      LogTable(alphaTo, indexOf, genpoly[i]);
      genpoly[i] := indexOf[Ord(genpoly[i])];
    }
  }

  // ---- The codec ----

  /** The codec control block for 8-bit symbols, modulus 0x11d, first root x^0. It does not
      change once it is built. */
  class RS {
    const nroots: nat
    const pad: nat
    const alphaTo: seq<Byte>
    const indexOf: seq<Byte>
    const genpoly: seq<Byte>  // the generator's coefficients, as logarithms

    ghost predicate Valid() {
      && Tables(alphaTo, indexOf)
      && nroots <= 254 && nroots + pad < NN
      && |genpoly| == nroots + 1
      && (forall k: nat :: k <= nroots ==> Coef(nroots, k) != 0 && Ord(genpoly[k]) == Log(Coef(nroots, k)))
    }

    constructor (nroots: nat, pad: nat, a: seq<Byte>, x: seq<Byte>)
      requires nroots + pad < NN && Tables(a, x)
      ensures Valid() && this.nroots == nroots && this.pad == pad
    {
      hide Tables, Coef, Log, Ord;
      var g := FormGenerator(a, x, nroots);
      ToIndexForm(a, x, g, nroots);
      this.nroots := nroots;
      this.pad := pad;
      alphaTo, indexOf, genpoly := a, x, g[..];
    }

    lemma GenpolyEntry(k: nat)
      requires Valid() && k <= nroots
      ensures var g := Generator(nroots)[k]; g != 0 && Ord(genpoly[nroots - k]) == Log(g)
    {
      hide Pow, Mul, Log, Coef, Add, Generator;
      GeneratorCoef(nroots, k);
    }

    /** Encode the block data[dp..], leaving its parity bytes in parity[ep..]. */
    method Encode(data: array<Byte>, dp: nat, parity: array<Byte>, ep: nat)
      requires Valid() && 1 <= nroots
      requires dp + NN - nroots - pad <= data.Length && ep + nroots <= parity.Length
      requires data != parity
      modifies parity
      ensures parity[ep..ep + nroots] == Parity(data[dp..dp + NN - nroots - pad], nroots)
      ensures parity[..ep] == old(parity[..ep]) && parity[ep + nroots..] == old(parity[ep + nroots..])
    {
      hide Pow, Mul, Log, Coef, Add, Generator, Step, Tables;
      forall k | ep <= k < ep + nroots { parity[k] := 0; }
      var blockLength := NN - nroots - pad;
      assert parity[ep..ep + nroots] == Parity(data[dp..dp], nroots);
      for i := 0 to blockLength
        invariant parity[ep..ep + nroots] == Parity(data[dp..dp + i], nroots)
        invariant parity[..ep] == old(parity[..ep]) && parity[ep + nroots..] == old(parity[ep + nroots..])
      {
        ghost var p := parity[ep..ep + nroots];
        var d := data[dp + i];
        AddIsXor(d, parity[ep]);
        FeedbackStep(d ^ parity[ep], parity, ep);
        assert data[dp..dp + i + 1][..i] == data[dp..dp + i];
        StepShifted(p, d, Generator(nroots));
      }
    }

    /** The body of the encoding loop, given the sum of the incoming and the outgoing byte. */
    method FeedbackStep(sum: Byte, parity: array<Byte>, ep: nat)
      requires Valid() && 1 <= nroots && ep + nroots <= parity.Length
      modifies parity
      ensures parity[ep..ep + nroots] == Shifted(old(parity[ep..ep + nroots]), sum, Generator(nroots))
      ensures parity[..ep] == old(parity[..ep]) && parity[ep + nroots..] == old(parity[ep + nroots..])
    {
      hide Pow, Mul, Log, Coef, Add, Generator, Tables, Ord, Shifted, Added;
      ghost var p, g := parity[ep..ep + nroots], Generator(nroots);
      LogTable(alphaTo, indexOf, sum);
      var feedback := Ord(indexOf[Ord(sum)]);
      if feedback != A0 {
        AddMultiple(feedback, sum, parity, ep);
      } else {
        ZeroMultiple(p, g);
      }
      ghost var q := parity[ep..ep + nroots];
      var last: Byte := 0;
      if feedback != A0 {
        GenpolyEntry(nroots);
        last := TableMul(alphaTo, indexOf, sum, Ord(genpoly[0]), g[nroots]);
      }
      ShiftIn(parity, ep, ep + nroots - 1, last);
      ShiftedIs(p, sum, g, q, last);
    }

    /** Move the bytes after `from`, up to and including `to`, one place down, and store a byte at the end. */
    method ShiftIn(a: array<Byte>, from: nat, to: nat, b: Byte)
      requires from <= to < a.Length
      modifies a
      ensures a[from..to + 1] == old(a[from..to + 1])[1..] + [b]
      ensures a[..from] == old(a[..from]) && a[to + 1..] == old(a[to + 1..])
    {
      forall k | from <= k < to { a[k] := a[k + 1]; }
      a[to] := b;
    }

    /** Add the feedback times the generator's inner coefficients to the register. */
    method AddMultiple(feedback: nat, sum: Byte, parity: array<Byte>, ep: nat)
      requires Valid() && 1 <= nroots && ep + nroots <= parity.Length
      requires sum != 0 && feedback == Log(sum)
      modifies parity
      ensures Added(old(parity[ep..ep + nroots]), parity[ep..ep + nroots], sum, Generator(nroots))
      ensures parity[..ep] == old(parity[..ep]) && parity[ep + nroots..] == old(parity[ep + nroots..])
    {
      hide Pow, Mul, Log, Coef, Add, Generator, Tables, Ord;
      for j := 1 to nroots
        invariant forall k :: ep < k < ep + j ==>
                    parity[k] == Add(old(parity[k]), Mul(sum, Generator(nroots)[k - ep]))
        invariant forall k :: ep + j <= k < ep + nroots ==> parity[k] == old(parity[k])
        invariant parity[..ep + 1] == old(parity[..ep + 1]) && parity[ep + nroots..] == old(parity[ep + nroots..])
      {
        GenpolyEntry(j);
        var e := ModNN(feedback + Ord(genpoly[nroots - j]));
        FeedbackProduct(sum, j, e);
        AddIsXor(parity[ep + j], alphaTo[e]);
        parity[ep + j] := parity[ep + j] ^ alphaTo[e];
      }
    }

    lemma FeedbackProduct(sum: Byte, j: nat, e: nat)
      requires Valid() && sum != 0 && j <= nroots
      requires e == (Log(sum) + Ord(genpoly[nroots - j])) % NN
      ensures e < |alphaTo| && alphaTo[e] == Mul(sum, Generator(nroots)[j])
    {
      hide Pow, Mul, Log, Coef, Add, Generator;
      GenpolyEntry(j);
      LogMul(sum, Generator(nroots)[j]);
    }
  }

  /** The register after one step with the feedback byte f, coefficient by coefficient. */
  ghost function Shifted(p: Word, f: Byte, g: Word): (r: Word)
    requires p != [] && |g| == |p| + 1
  {
    var n := |p|;
    seq(n, (k: nat) requires k < n =>
      if k < n - 1 then Add(p[k + 1], Mul(f, g[k + 1])) else Mul(f, g[n]))
  }

  /** The multiple f * g is added to the register p, except at its first place. */
  ghost predicate Added(p: Word, q: Word, f: Byte, g: Word)
    requires |g| == |p| + 1
  {
    |q| == |p| && forall k :: 0 < k < |p| ==> q[k] == Add(p[k], Mul(f, g[k]))
  }

  lemma ShiftedIs(p: Word, f: Byte, g: Word, q: Word, last: Byte)
    requires p != [] && |g| == |p| + 1 && Added(p, q, f, g)
    requires last == Mul(f, g[|p|])
    ensures q[1..] + [last] == Shifted(p, f, g)
  {
    hide Add, Mul;
  }

  lemma ZeroMultiple(p: Word, g: Word)
    requires |g| == |p| + 1
    ensures Added(p, p, 0, g)
    ensures Mul(0, g[|p|]) == 0
  {
    hide Add, Mul;
    forall k | 0 <= k < |p| ensures Add(p[k], Mul(0, g[k])) == p[k] {
      MulZero(g[k]); AddZero(p[k]);
    }
    MulZero(g[|p|]);
  }

  lemma StepShifted(p: Word, d: Byte, g: Word)
    requires p != [] && |g| == |p| + 1
    ensures Step(p, d, g) == Shifted(p, Add(d, p[0]), g)
  {
    hide Add, Mul;
    var m := Mul(Add(d, p[0]), g[|p|]);
    AddComm(0, m); AddZero(m);
  }

  // ---- The codec cache ----

  /** Parameters are accepted exactly when the block has room for some data. */
  predicate Accepted(nroots: int, pad: int) { 0 <= nroots && 0 <= pad && nroots + pad < 255 }

  method InitRSChar(nroots: int, pad: int) returns (rs: RS?)
    ensures rs != null <==> Accepted(nroots, pad)
    ensures rs != null ==> fresh(rs) && rs.Valid() && rs.nroots == nroots && rs.pad == pad
  {
    hide RS.Valid, Tables;
    if nroots < 0 || nroots >= 256 { return null; }
    if pad < 0 || pad >= 255 - nroots { return null; }
    var alphaTo, indexOf, primitive := GenerateTables();
    if !primitive { return null; }
    rs := new RS(nroots, pad, alphaTo[..], indexOf[..]);
  }

  lemma TablesUnique(a: seq<Byte>, x: seq<Byte>, b: seq<Byte>, y: seq<Byte>)
    requires Tables(a, x) && Tables(b, y)
    ensures a == b && x == y
  {
    hide Pow, Log, Ord, Chr;
    assert a == b;
    forall i: nat | i < 256 ensures x[i] == y[i] {
      ChrIs(i, Chr(i));
      OrdFacts(Chr(i), 0);
      LogTable(a, x, Chr(i)); LogTable(b, y, Chr(i));
      OrdFacts(x[i], y[i]);
    }
  }

  /** The key determines the codec: two valid codecs with the same key have the same tables and the
      same generator, whichever of them the cache returns. */
  lemma CodecUnique(r: RS, q: RS)
    requires r.Valid() && q.Valid() && r.nroots == q.nroots && r.pad == q.pad
    ensures r.alphaTo == q.alphaTo && r.indexOf == q.indexOf && r.genpoly == q.genpoly
  {
    hide Pow, Log, Ord, Coef, Tables;
    TablesUnique(r.alphaTo, r.indexOf, q.alphaTo, q.indexOf);
    forall k: nat | k <= r.nroots ensures r.genpoly[k] == q.genpoly[k] {
      OrdFacts(r.genpoly[k], q.genpoly[k]);
    }
  }

  /** The list of codecs built so far. */
  class Cache {
    var list: seq<RS>

    /** Every codec is what building it afresh would give, and no key occurs twice. */
    ghost predicate Valid()
      reads this
    {
      && (forall i :: 0 <= i < |list| ==> list[i].Valid())
      && (forall i, j :: 0 <= i < j < |list| ==> list[i].nroots != list[j].nroots || list[i].pad != list[j].pad)
    }

    predicate Has(nroots: int, pad: int)
      reads this
    {
      exists i :: 0 <= i < |list| && list[i].nroots == nroots && list[i].pad == pad
    }

    constructor ()
      ensures Valid() && list == []
    {
      list := [];
    }

    method InitRS(nroots: int, pad: int) returns (rs: RS?)
      requires Valid()
      modifies this
      ensures Valid()
      ensures rs != null <==> Accepted(nroots, pad)
      ensures rs != null ==> rs.Valid() && rs.nroots == nroots && rs.pad == pad && rs in list
      ensures list == if rs == null || old(Has(nroots, pad)) then old(list) else [rs] + old(list)
    {
      hide RS.Valid;
      for i := 0 to |list|
        invariant forall k :: 0 <= k < i ==> list[k].nroots != nroots || list[k].pad != pad
      {
        if list[i].pad == pad && list[i].nroots == nroots {
          assert Accepted(nroots, pad) by { AcceptedCodec(list[i]); }
          return list[i];
        }
      }
      rs := InitRSChar(nroots, pad);
      if rs == null { return; }
      list := [rs] + list;
    }

    method Free()
      modifies this
      ensures list == [] && Valid()
    {
      list := [];
    }
  }

  lemma AcceptedCodec(rs: RS)
    requires rs.Valid()
    ensures Accepted(rs.nroots, rs.pad)
  {}
}
