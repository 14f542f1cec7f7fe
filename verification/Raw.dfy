/** The raw code object: codewords, parity, blocks, and a counter that walks through them. */
module Raw {
  import opened Arith
  import opened GF256
  import opened QRSpec
  import opened RSPoly
  import opened RSEncoder
  import opened RSCode
  import opened RawCode

  /** A block, as offsets into the codewords and into the parity bytes. */
  datatype RSBlock = RSBlock(dataLength: nat, data: nat, eccLength: nat, ecc: nat)

  function BlockOf(s: EccSpec, k: nat): RSBlock {
    RSBlock(BlockLength(s, k), BlockStart(s, k), s.e, k * s.e)
  }

  class QRRawCode {
    const version: nat
    const spec: EccSpec
    const datacode: array<Byte>
    const ecccode: array<Byte>
    var rsblock: seq<RSBlock>
    var count: nat

    ghost predicate Valid()
      reads this, datacode, ecccode
    {
      && Shape()
      && BlocksDone(spec.Blocks())
      && count <= spec.DataTotal() + spec.EccTotal()
    }

    ghost predicate Shape() {
      && spec.Valid() && datacode != ecccode
      && datacode.Length == spec.DataTotal() && ecccode.Length == spec.EccTotal()
    }

    ghost predicate ParityDone(k: nat)
      requires Shape() && k <= spec.Blocks()
      reads datacode, ecccode
    {
      k * spec.e <= ecccode.Length && ecccode[..k * spec.e] == EccCodes(spec, datacode[..], k)
    }

    /** The first k blocks are described, and their parity bytes are in place. */
    ghost predicate BlocksDone(k: nat)
      requires Shape() && k <= spec.Blocks()
      reads this, datacode, ecccode
    {
      && |rsblock| == k && (forall i: nat :: i < k ==> rsblock[i] == BlockOf(spec, i))
      && ParityDone(k)
    }

    /** Everything that GetCode emits. */
    ghost function Codes(): Word
      requires Shape()
      reads datacode
    {
      Interleave(spec, datacode[..])
    }

    constructor (version: nat, spec: EccSpec, bytes: seq<Byte>, cache: Cache)
      requires spec.Valid() && |bytes| == spec.DataTotal() && cache.Valid()
      modifies cache
      ensures Valid() && cache.Valid() && this.version == version && this.spec == spec && count == 0
      ensures datacode[..] == bytes && fresh(datacode) && fresh(ecccode)
      ensures Codes() == Interleave(spec, bytes)
    {
      this.version := version;
      this.spec := spec;
      datacode := new Byte[|bytes|](i requires 0 <= i < |bytes| => bytes[i]);
      ecccode := new Byte[spec.EccTotal()];
      rsblock, count := [], 0;
      new;
      assert datacode[..] == bytes;
      InitBlocks(cache);
    }

    /** Describe and encode the blocks of the first type, then those of the second. */
    method InitBlocks(cache: Cache)
      requires Shape() && cache.Valid() && rsblock == [] && count == 0
      modifies this`rsblock, ecccode, cache
      ensures Valid() && cache.Valid()
    {
      hide EccCodes, BlockStart, EccSpec.DataTotal, EccSpec.EccTotal, RS.Valid, Cache.Valid, BlocksDone;
      var dl, el := spec.d1, spec.e;
      FirstBlock();
      var rs := cache.InitRS(el, 255 - dl - el);
      var dp, ep := InitRun(0, spec.n1, dl, 0, el, 0, rs);
      if spec.n2 > 0 {
        dl := spec.d2;
        rs := cache.InitRS(el, 255 - dl - el);
        dp, ep := InitRun(spec.n1, spec.n1 + spec.n2, dl, dp, el, ep, rs);
      }
    }

    /** Describe and encode the blocks lo up to hi, which all have dl data bytes. */
    method InitRun(ghost lo: nat, hi: nat, dl: nat, dp: nat, el: nat, ep: nat, rs: RS) returns (dp': nat, ep': nat)
      requires lo <= hi <= spec.Blocks() && Shape() && BlocksDone(lo)
      requires rs.Valid() && rs.nroots == el == spec.e && rs.pad == 255 - dl - el
      requires dp == BlockStart(spec, lo) && ep == lo * el
      requires forall k: nat :: lo <= k < hi ==> BlockLength(spec, k) == dl
      modifies this`rsblock, ecccode
      ensures Shape() && BlocksDone(hi)
      ensures dp' == BlockStart(spec, hi) && ep' == hi * el
    {
      hide EccCodes, BlockStart, EccSpec.DataTotal, EccSpec.EccTotal, RS.Valid, BlockLength;
      dp', ep' := dp, ep;
      var i := |rsblock|;
      while i < hi
        invariant lo <= i <= hi && Shape() && BlocksDone(i) && rs.Valid()
        invariant dp' == BlockStart(spec, i) && ep' == i * el
      {
        InitBlock(i, dl, dp', el, ep', rs);
        dp' := dp' + dl;
        ep' := ep' + el;
        i := i + 1;
      }
    }

    lemma FirstBlock()
      requires Shape() && rsblock == []
      ensures BlocksDone(0) && BlockStart(spec, 0) == 0
    {}

    method InitBlock(ghost k: nat, dl: nat, dp: nat, el: nat, ep: nat, rs: RS)
      requires Shape() && k < spec.Blocks() && BlocksDone(k)
      requires rs.Valid() && rs.nroots == el && rs.pad == 255 - dl - el
      requires dl == BlockLength(spec, k) && dp == BlockStart(spec, k) && el == spec.e && ep == k * el
      modifies this`rsblock, ecccode
      ensures Shape() && BlocksDone(k + 1)
      ensures BlockStart(spec, k + 1) == dp + dl && (k + 1) * el == ep + el
    {
      hide EccCodes, BlockStart, Parity, RS.Valid, EccSpec.DataTotal, EccSpec.EccTotal;
      BlockEnd(spec, k);
      MulSucc(k, el);
      rsblock := rsblock + [RSBlock(dl, dp, el, ep)];
      ghost var before := ecccode[..ep];
      rs.Encode(datacode, dp, ecccode, ep);
      assert ecccode[..ep + el] == before + ecccode[ep..ep + el];
      assert datacode[dp..dp + dl] == Block(spec, datacode[..], k);
      NextEccCodes(spec, datacode[..], k);
    }

    /** The next code: data of the blocks column by column, then parity; zero when all is emitted. */
    method GetCode() returns (ret: Byte)
      requires Valid()
      modifies this`count
      ensures Valid()
      ensures old(count) < |Codes()| ==> ret == Codes()[old(count)] && count == old(count) + 1
      ensures old(count) == |Codes()| ==> ret == 0 && count == old(count)
    {
      hide EccCodes, BlockStart, Position;
      var dataLength, blocks := spec.DataTotal(), spec.Blocks();
      if count < dataLength {
        var row, col := count % blocks, count / blocks;
        SourceInside(spec, count);
        BlockAtStart(spec);
        if col >= rsblock[0].dataLength {
          row := row + spec.n1;
        }
        BlockEnd(spec, row);
        PositionInside(spec, row, col);
        assert datacode[rsblock[row].data + col] == datacode[..][Source(spec, count)] by { PositionIs(spec, row, col); }
        ret := datacode[rsblock[row].data + col];
      } else if count < dataLength + spec.EccTotal() {
        var c := count - dataLength;
        var row, col := c % blocks, c / blocks;
        EccBijective(spec, c);
        EccColumn(spec, c);
        ret := ecccode[rsblock[row].ecc + col];
        assert ecccode[..][EccSource(spec, c)] == ret;
        assert ecccode[..] == EccCodes(spec, datacode[..], blocks);
      } else {
        return 0;
      }
      count := count + 1;
    }
  }

  lemma NextEccCodes(s: EccSpec, data: Word, k: nat)
    requires s.Valid() && |data| == s.DataTotal() && k < s.Blocks()
    ensures EccCodes(s, data, k + 1) == EccCodes(s, data, k) + Parity(Block(s, data, k), s.e)
  {}

  lemma PositionIs(s: EccSpec, k: nat, col: nat)
    ensures Position(s, k, col) == BlockStart(s, k) + col
  {}

  lemma BlockAtStart(s: EccSpec)
    requires s.Valid()
    ensures BlockOf(s, 0).dataLength == s.d1
  {}

  lemma EccColumn(s: EccSpec, c: nat)
    requires s.Valid() && c < s.EccTotal()
    ensures c / s.Blocks() < s.e
  {
    assert s.e * s.Blocks() == s.Blocks() * s.e;
    Quotient(c, s.e, s.Blocks());
  }
}
