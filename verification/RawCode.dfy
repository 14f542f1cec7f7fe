/** Splitting the codewords into Reed-Solomon blocks, and interleaving the blocks. */
module RawCode {
  import opened Arith
  import opened GF256
  import opened QRSpec
  import opened RSPoly
  import opened RSEncoder

  // ---- Layout of the blocks ----

  function BlockLength(s: EccSpec, k: nat): nat { if k < s.n1 then s.d1 else s.d2 }

  function BlockStart(s: EccSpec, k: nat): nat {
    if k <= s.n1 then k * s.d1 else s.n1 * s.d1 + (k - s.n1) * s.d2
  }

  lemma BlockEnd(s: EccSpec, k: nat)
    requires s.Valid() && k < s.Blocks()
    ensures BlockStart(s, k + 1) == BlockStart(s, k) + BlockLength(s, k)
    ensures BlockStart(s, k + 1) <= s.DataTotal()
    ensures k * s.e + s.e <= s.EccTotal()
  {
    var n1, n2, d1, d2, e := s.n1, s.n2, s.d1, s.d2, s.e;
    MulSucc(k, e); MulLe(k + 1, n1 + n2, e);
    if k < n1 {
      MulSucc(k, d1); MulLe(k + 1, n1, d1); MulLe(0, n2, d2);
    } else {
      MulSucc(k - n1, d2); MulLe(k + 1 - n1, n2, d2);
    }
  }

  /** The position in the codewords of column col of block k. */
  function Position(s: EccSpec, k: nat, col: nat): nat { BlockStart(s, k) + col }

  /** The block that data code number count comes from. */
  function SourceBlock(s: EccSpec, count: nat): nat
    requires s.Valid()
  {
    var row := count % s.Blocks();
    if count / s.Blocks() >= s.d1 then row + s.n1 else row
  }

  function SourceColumn(s: EccSpec, count: nat): nat
    requires s.Valid()
  {
    count / s.Blocks()
  }

  /** The number of the data code that carries column col of block k. */
  function Turn(s: EccSpec, k: nat, col: nat): int {
    if col < s.d1 then col * s.Blocks() + k else s.d1 * s.Blocks() + (k - s.n1)
  }

  lemma Totals(s: EccSpec)
    requires s.Valid()
    ensures s.DataTotal() == s.d1 * s.Blocks() + s.n2
  {
    var n1, n2, d1 := s.n1, s.n2, s.d1;
    assert n2 * (d1 + 1) == n2 * d1 + n2;
    assert d1 * (n1 + n2) == n1 * d1 + n2 * d1;
    if n2 == 0 { assert n2 * s.d2 == 0; }
  }

  /** With n codes to a round, code number count is in round col at place row. */
  lemma Rounds(count: nat, n: nat, full: nat, extra: nat)
    requires 1 <= n && extra < n && count < full * n + extra
    ensures count / n <= full
    ensures count / n == full ==> count % n < extra && count == full * n + count % n
    ensures count == count / n * n + count % n
  {
    var col, row := count / n, count % n;
    assert count == n * col + row;
    if col > full {
      MulLe(full + 1, col, n); MulSucc(full, n);
    }
  }

  lemma SourceInside(s: EccSpec, count: nat)
    requires s.Valid() && count < s.DataTotal()
    ensures SourceBlock(s, count) < s.Blocks()
    ensures SourceColumn(s, count) < BlockLength(s, SourceBlock(s, count))
    ensures Turn(s, SourceBlock(s, count), SourceColumn(s, count)) == count
  {
    Totals(s);
    Rounds(count, s.Blocks(), s.d1, s.n2);
  }

  lemma TurnInverse(s: EccSpec, k: nat, col: nat)
    requires s.Valid() && k < s.Blocks() && col < BlockLength(s, k)
    ensures 0 <= Turn(s, k, col) < s.DataTotal()
    ensures SourceBlock(s, Turn(s, k, col)) == k && SourceColumn(s, Turn(s, k, col)) == col
  {
    var n, d1 := s.Blocks(), s.d1;
    Totals(s);
    if col < d1 {
      MulSucc(col, n); MulLe(col + 1, d1, n); MulLe(0, col, n);
      DivMod(col * n + k, n, col, k);
    } else {
      MulLe(0, d1, n);
      DivMod(d1 * n + (k - s.n1), n, d1, k - s.n1);
    }
  }

  // ---- Position in the codewords, and back ----

  function BlockAt(s: EccSpec, i: nat): nat
    requires s.Valid()
  {
    if i < s.n1 * s.d1 then Quot(i, s.d1) else if s.n2 == 0 then 0 else s.n1 + Quot(i - s.n1 * s.d1, s.d2)
  }

  function ColumnAt(s: EccSpec, i: nat): nat
    requires s.Valid()
  {
    if i < s.n1 * s.d1 then Rem(i, s.d1) else if s.n2 == 0 then 0 else Rem(i - s.n1 * s.d1, s.d2)
  }

  lemma PositionInverse(s: EccSpec, i: nat)
    requires s.Valid() && i < s.DataTotal()
    ensures BlockAt(s, i) < s.Blocks() && ColumnAt(s, i) < BlockLength(s, BlockAt(s, i))
    ensures Position(s, BlockAt(s, i), ColumnAt(s, i)) == i
  {
    hide Quot, Rem;
    var n1, n2, d1, d2 := s.n1, s.n2, s.d1, s.d2;
    assert n2 == 0 ==> n2 * d2 == 0;
    if i < n1 * d1 {
      Quotient(i, n1, d1);
    } else {
      Quotient(i - n1 * d1, n2, d2);
    }
  }

  lemma PositionInside(s: EccSpec, k: nat, col: nat)
    requires s.Valid() && k < s.Blocks() && col < BlockLength(s, k)
    ensures Position(s, k, col) < s.DataTotal()
    ensures BlockAt(s, Position(s, k, col)) == k && ColumnAt(s, Position(s, k, col)) == col
  {
    BlockEnd(s, k);
    var n1, d1, d2 := s.n1, s.d1, s.d2;
    if k < n1 {
      MulSucc(k, d1); MulLe(k + 1, n1, d1);
      DivMod(k * d1 + col, d1, k, col);
    } else {
      MulLe(0, k - n1, d2);
      DivMod((k - n1) * d2 + col, d2, k - n1, col);
    }
  }

  /** Where in the codewords the data code number count is taken from. */
  function Source(s: EccSpec, count: nat): nat
    requires s.Valid()
  {
    Position(s, SourceBlock(s, count), SourceColumn(s, count))
  }

  /** When the codeword at position i is emitted. */
  function Destination(s: EccSpec, i: nat): int
    requires s.Valid()
  {
    Turn(s, BlockAt(s, i), ColumnAt(s, i))
  }

  /** Interleaving is a permutation of the data codewords, and this is its inverse. */
  lemma InterleavingBijective(s: EccSpec, x: nat)
    requires s.Valid() && x < s.DataTotal()
    ensures Source(s, x) < s.DataTotal() && Destination(s, Source(s, x)) == x
    ensures 0 <= Destination(s, x) < s.DataTotal() && Source(s, Destination(s, x)) == x
  {
    hide BlockStart, BlockLength, SourceBlock, SourceColumn, Turn, BlockAt, ColumnAt, Position;
    SourceInside(s, x);
    PositionInside(s, SourceBlock(s, x), SourceColumn(s, x));
    PositionInverse(s, x);
    TurnInverse(s, BlockAt(s, x), ColumnAt(s, x));
  }

  // ---- Parity codes ----

  function EccSource(s: EccSpec, count: nat): nat
    requires s.Valid()
  {
    count % s.Blocks() * s.e + count / s.Blocks()
  }

  function EccDestination(s: EccSpec, i: nat): nat
    requires s.Valid()
  {
    i % s.e * s.Blocks() + i / s.e
  }

  lemma EccBijective(s: EccSpec, x: nat)
    requires s.Valid() && x < s.EccTotal()
    ensures EccSource(s, x) < s.EccTotal() && EccDestination(s, EccSource(s, x)) == x
    ensures EccDestination(s, x) < s.EccTotal() && EccSource(s, EccDestination(s, x)) == x
  {
    Transpose(x, s.e, s.Blocks());
    assert s.e * s.Blocks() == s.Blocks() * s.e;
    Transpose(x, s.Blocks(), s.e);
  }

  /** Reading an a-by-b table by columns, and back. */
  lemma Transpose(x: nat, a: nat, b: nat)
    requires 1 <= a && 1 <= b && x < a * b
    ensures var y := x % b * a + x / b; y < b * a && y % a * b + y / a == x
  {
    Quotient(x, a, b);
    var q, r := x / b, x % b;
    MulSucc(r, a); MulLe(r + 1, b, a);
    DivMod(r * a + q, a, r, q);
  }

  // ---- The sequence of codes ----

  /** The data of block k. */
  function Block(s: EccSpec, data: Word, k: nat): (b: Word)
    requires s.Valid() && |data| == s.DataTotal() && k < s.Blocks()
    ensures |b| == BlockLength(s, k)
  {
    BlockEnd(s, k);
    data[BlockStart(s, k)..BlockStart(s, k) + BlockLength(s, k)]
  }

  /** The parity bytes of the first k blocks. */
  function EccCodes(s: EccSpec, data: Word, k: nat): (r: Word)
    requires s.Valid() && |data| == s.DataTotal() && k <= s.Blocks()
    ensures |r| == k * s.e
  {
    if k == 0 then []
    else
      MulSucc(k - 1, s.e);
      EccCodes(s, data, k - 1) + Parity(Block(s, data, k - 1), s.e)
  }

  lemma {:induction false} EccCodeAt(s: EccSpec, data: Word, n: nat, k: nat, col: nat)
    requires s.Valid() && |data| == s.DataTotal() && k < n <= s.Blocks() && col < s.e
    ensures k * s.e + col < n * s.e
    ensures EccCodes(s, data, n)[k * s.e + col] == Parity(Block(s, data, k), s.e)[col]
  {
    hide Parity, Block;
    MulSucc(n - 1, s.e);
    MulSucc(k, s.e); MulLe(k + 1, n, s.e);
    if k < n - 1 {
      EccCodeAt(s, data, n - 1, k, col);
    }
  }

  function DataCode(s: EccSpec, data: Word, count: nat): Byte
    requires s.Valid() && |data| == s.DataTotal() && count < s.DataTotal()
  {
    InterleavingBijective(s, count);
    data[Source(s, count)]
  }

  function EccCode(s: EccSpec, ecc: Word, count: nat): Byte
    requires s.Valid() && |ecc| == s.EccTotal() && count < s.EccTotal()
  {
    EccBijective(s, count);
    ecc[EccSource(s, count)]
  }

  /** All data codes, block by block and column by column, then all parity codes. */
  function Interleave(s: EccSpec, data: Word): (r: Word)
    requires s.Valid() && |data| == s.DataTotal()
    ensures |r| == s.DataTotal() + s.EccTotal()
  {
    var ecc := EccCodes(s, data, s.Blocks());
    seq(s.DataTotal(), c requires 0 <= c < s.DataTotal() => DataCode(s, data, c)) +
    seq(s.EccTotal(), c requires 0 <= c < s.EccTotal() => EccCode(s, ecc, c))
  }

  // ---- The order of the codes: column by column, and in a column by block ----

  /** The bytes in one column of a list of blocks, from the first block to the last; a block that is
      too short has none. */
  function CodeColumn(blocks: seq<Word>, c: nat): Word {
    if blocks == [] then [] else (if c < |blocks[0]| then [blocks[0][c]] else []) + CodeColumn(blocks[1..], c)
  }

  /** The first n columns, one after the other. */
  function CodeColumns(blocks: seq<Word>, n: nat): Word {
    if n == 0 then [] else CodeColumns(blocks, n - 1) + CodeColumn(blocks, n - 1)
  }

  function Concatenated(blocks: seq<Word>): Word {
    if blocks == [] then [] else Concatenated(blocks[..|blocks| - 1]) + blocks[|blocks| - 1]
  }

  /** The data of the first k blocks. */
  function DataBlocks(s: EccSpec, data: Word, k: nat): (r: seq<Word>)
    requires s.Valid() && |data| == s.DataTotal() && k <= s.Blocks()
    ensures |r| == k
  {
    seq(k, i requires 0 <= i < k => Block(s, data, i))
  }

  function ParityBlocks(s: EccSpec, data: Word, k: nat): (r: seq<Word>)
    requires s.Valid() && |data| == s.DataTotal() && k <= s.Blocks()
    ensures |r| == k
  {
    seq(k, i requires 0 <= i < k => Parity(Block(s, data, i), s.e))
  }

  /** The blocks follow each other in the data: n1 of d1 bytes, and then n2 of d2 bytes. */
  lemma {:induction false} BlocksPartition(s: EccSpec, data: Word, k: nat)
    requires s.Valid() && |data| == s.DataTotal() && k <= s.Blocks()
    ensures BlockStart(s, k) <= |data| && Concatenated(DataBlocks(s, data, k)) == data[..BlockStart(s, k)]
    ensures forall i :: 0 <= i < k ==> |DataBlocks(s, data, k)[i]| == if i < s.n1 then s.d1 else s.d2
    ensures k == s.Blocks() ==> Concatenated(DataBlocks(s, data, k)) == data
  {
    hide BlockStart;
    if k == 0 {
      assert BlockStart(s, 0) == 0 by { NoBlocks(s); }
      FewBlocks(s);
    } else {
      BlocksPartition(s, data, k - 1);
      BlockEnd(s, k - 1);
      assert DataBlocks(s, data, k)[..k - 1] == DataBlocks(s, data, k - 1);
      AllBlocks(s);
    }
  }

  lemma NoBlocks(s: EccSpec)
    ensures BlockStart(s, 0) == 0
  {}

  lemma FewBlocks(s: EccSpec)
    requires s.Valid()
    ensures s.Blocks() >= 1
  {}

  lemma AllBlocks(s: EccSpec)
    requires s.Valid()
    ensures BlockStart(s, s.Blocks()) == s.DataTotal()
  {}

  /** The column of blocks that are all long enough. */
  lemma {:induction false} FullColumn(blocks: seq<Word>, c: nat)
    requires forall i :: 0 <= i < |blocks| ==> c < |blocks[i]|
    ensures |CodeColumn(blocks, c)| == |blocks|
    ensures forall i :: 0 <= i < |blocks| ==> CodeColumn(blocks, c)[i] == blocks[i][c]
  {
    if blocks != [] {
      FullColumn(blocks[1..], c);
      assert forall i :: 0 < i < |blocks| ==> blocks[1..][i - 1] == blocks[i];
    }
  }

  /** The last column, which the first n blocks do not have. */
  lemma {:induction false} ShortColumn(blocks: seq<Word>, c: nat, n: nat)
    requires n <= |blocks|
    requires forall i :: 0 <= i < n ==> |blocks[i]| <= c
    requires forall i :: n <= i < |blocks| ==> c < |blocks[i]|
    ensures |CodeColumn(blocks, c)| == |blocks| - n
    ensures forall i :: n <= i < |blocks| ==> CodeColumn(blocks, c)[i - n] == blocks[i][c]
  {
    if n == 0 {
      FullColumn(blocks, c);
    } else {
      ShortColumn(blocks[1..], c, n - 1);
      assert forall i :: 0 < i < |blocks| ==> blocks[1..][i - 1] == blocks[i];
    }
  }

  /** Full columns: byte c of block k is code number c * |blocks| + k. */
  lemma {:induction false} ColumnsAt(blocks: seq<Word>, n: nat, c: nat, k: nat)
    requires forall i :: 0 <= i < |blocks| ==> n <= |blocks[i]|
    requires c < n && k < |blocks|
    ensures |CodeColumns(blocks, n)| == n * |blocks|
    ensures c * |blocks| + k < n * |blocks| && CodeColumns(blocks, n)[c * |blocks| + k] == blocks[k][c]
  {
    hide CodeColumn;
    FullColumn(blocks, n - 1);
    ColumnsLength(blocks, n - 1);
    MulSucc(n - 1, |blocks|); MulSucc(c, |blocks|); MulLe(c + 1, n, |blocks|);
    if c < n - 1 { ColumnsAt(blocks, n - 1, c, k); }
  }

  lemma {:induction false} ColumnsLength(blocks: seq<Word>, n: nat)
    requires forall i :: 0 <= i < |blocks| ==> n <= |blocks[i]|
    ensures |CodeColumns(blocks, n)| == n * |blocks|
  {
    hide CodeColumn;
    if n > 0 {
      FullColumn(blocks, n - 1);
      ColumnsLength(blocks, n - 1);
      MulSucc(n - 1, |blocks|);
    }
  }

  /** The data codes are the columns of the data blocks. */
  lemma DataInColumns(s: EccSpec, data: Word, i: nat)
    requires s.Valid() && |data| == s.DataTotal() && i < s.DataTotal()
    ensures |CodeColumns(DataBlocks(s, data, s.Blocks()), s.d1 + 1)| == s.DataTotal()
    ensures DataCode(s, data, i) == CodeColumns(DataBlocks(s, data, s.Blocks()), s.d1 + 1)[i]
  {
    hide BlockStart, CodeColumns, CodeColumn, DataCode, Turn;
    var blocks, n := DataBlocks(s, data, s.Blocks()), s.Blocks();
    BlocksPartition(s, data, n);
    ColumnsLength(blocks, s.d1);
    ShortColumn(blocks, s.d1, s.n1);
    LastColumn(blocks, s.d1);
    Totals(s);
    SourceInside(s, i);
    var k, col := SourceBlock(s, i), SourceColumn(s, i);
    DataCodeIs(s, data, i);
    BlockEnd(s, k);
    if col < s.d1 {
      ColumnsAt(blocks, s.d1, col, k);
      TurnFull(s, k, col);
    } else {
      TurnShort(s, k, col);
    }
  }

  lemma LastColumn(blocks: seq<Word>, n: nat)
    ensures CodeColumns(blocks, n + 1) == CodeColumns(blocks, n) + CodeColumn(blocks, n)
  {}

  lemma DataCodeIs(s: EccSpec, data: Word, i: nat)
    requires s.Valid() && |data| == s.DataTotal() && i < s.DataTotal()
    ensures SourceBlock(s, i) < s.Blocks() && SourceColumn(s, i) < BlockLength(s, SourceBlock(s, i))
    ensures DataCode(s, data, i) == Block(s, data, SourceBlock(s, i))[SourceColumn(s, i)]
  {
    hide BlockStart, SourceBlock, SourceColumn, Turn;
    SourceInside(s, i);
    BlockEnd(s, SourceBlock(s, i));
  }

  lemma TurnFull(s: EccSpec, k: nat, col: nat)
    requires col < s.d1
    ensures Turn(s, k, col) == col * s.Blocks() + k
  {}

  lemma TurnShort(s: EccSpec, k: nat, col: nat)
    requires s.Valid() && k < s.Blocks() && s.d1 <= col < BlockLength(s, k)
    ensures col == s.d1 && s.n1 <= k && Turn(s, k, col) == s.d1 * s.Blocks() + (k - s.n1)
  {}

  /** The parity codes are the columns of the parity blocks. */
  lemma ParityInColumns(s: EccSpec, data: Word, i: nat)
    requires s.Valid() && |data| == s.DataTotal() && i < s.EccTotal()
    ensures |CodeColumns(ParityBlocks(s, data, s.Blocks()), s.e)| == s.EccTotal()
    ensures EccCode(s, EccCodes(s, data, s.Blocks()), i) == CodeColumns(ParityBlocks(s, data, s.Blocks()), s.e)[i]
  {
    hide Block, Parity, EccCodes, CodeColumns;
    var blocks, n := ParityBlocks(s, data, s.Blocks()), s.Blocks();
    ColumnsLength(blocks, s.e);
    assert s.e * n == n * s.e;
    Quotient(i, s.e, n);
    var col, k := i / n, i % n;
    ColumnsAt(blocks, s.e, col, k);
    EccTurn(s, k, col);
    EccCodeAt(s, data, n, k, col);
  }

  /** The codes of a symbol: the data blocks column by column, each column from the first block to the
      last, and then the parity blocks in the same way. */
  lemma InterleaveInColumns(s: EccSpec, data: Word)
    requires s.Valid() && |data| == s.DataTotal()
    ensures Interleave(s, data) == CodeColumns(DataBlocks(s, data, s.Blocks()), s.d1 + 1) + CodeColumns(ParityBlocks(s, data, s.Blocks()), s.e)
  {
    hide CodeColumns, DataCode, EccCode, EccCodes, Block, Parity, DataBlocks, ParityBlocks;
    if s.DataTotal() == 0 { Totals(s); }
    var a, b := CodeColumns(DataBlocks(s, data, s.Blocks()), s.d1 + 1), CodeColumns(ParityBlocks(s, data, s.Blocks()), s.e);
    Sizes(s);
    DataInColumns(s, data, 0); ParityInColumns(s, data, 0);
    forall i: nat | i < s.DataTotal() ensures Interleave(s, data)[i] == a[i] { DataInColumns(s, data, i); }
    forall i: nat | i < s.EccTotal() ensures Interleave(s, data)[s.DataTotal() + i] == b[i] { ParityInColumns(s, data, i); }
    assert |Interleave(s, data)| == |a + b|;
    forall j | 0 <= j < |a + b| ensures Interleave(s, data)[j] == (a + b)[j] {
      if j >= |a| { assert Interleave(s, data)[s.DataTotal() + (j - |a|)] == b[j - |a|]; }
    }
  }

  lemma Sizes(s: EccSpec)
    requires s.Valid()
    ensures s.DataTotal() >= 1 && s.EccTotal() >= 1
  {
    MulLe(1, s.n1, s.d1); MulLe(0, s.n2, s.d2); MulLe(1, s.n1 + s.n2, s.e);
  }

  /** An earlier column comes first, and in a column an earlier block. */
  lemma TurnOrder(s: EccSpec, k: nat, col: nat, k': nat, col': nat)
    requires s.Valid() && k < s.Blocks() && col < BlockLength(s, k) && k' < s.Blocks() && col' < BlockLength(s, k')
    ensures Turn(s, k, col) < Turn(s, k', col') <==> col < col' || (col == col' && k < k')
  {
    var n := s.Blocks();
    if col < col' { MulLe(col + 1, col', n); MulSucc(col, n); MulLe(col + 1, s.d1, n); }
    if col' < col { MulLe(col' + 1, col, n); MulSucc(col', n); MulLe(col' + 1, s.d1, n); }
  }

  function CodeFor(s: EccSpec, codes: Word, i: nat): Byte
    requires s.Valid() && |codes| == s.DataTotal() + s.EccTotal() && i < s.DataTotal()
  {
    InterleavingBijective(s, i);
    codes[Destination(s, i)]
  }

  /** Put the data codes back in order. */
  function Deinterleave(s: EccSpec, codes: Word): (r: Word)
    requires s.Valid() && |codes| == s.DataTotal() + s.EccTotal()
    ensures |r| == s.DataTotal()
  {
    seq(s.DataTotal(), i requires 0 <= i < s.DataTotal() => CodeFor(s, codes, i))
  }

  lemma DeinterleaveInverse(s: EccSpec, data: Word)
    requires s.Valid() && |data| == s.DataTotal()
    ensures Deinterleave(s, Interleave(s, data)) == data
  {
    hide Source, Destination, EccCodes;
    forall i | 0 <= i < s.DataTotal()
      ensures Deinterleave(s, Interleave(s, data))[i] == data[i]
    {
      InterleavingBijective(s, i);
    }
  }

  /** The word that a receiver collects for block k: its data codes, then its parity codes. */
  function Received(s: EccSpec, codes: Word, k: nat): (w: Word)
    requires s.Valid() && |codes| == s.DataTotal() + s.EccTotal() && k < s.Blocks()
    ensures |w| == BlockLength(s, k) + s.e
  {
    seq(BlockLength(s, k) + s.e, col requires 0 <= col < BlockLength(s, k) + s.e => ReceivedCode(s, codes, k, col))
  }

  function ReceivedCode(s: EccSpec, codes: Word, k: nat, col: nat): Byte
    requires s.Valid() && |codes| == s.DataTotal() + s.EccTotal()
    requires k < s.Blocks() && col < BlockLength(s, k) + s.e
  {
    if col < BlockLength(s, k) then
      TurnInverse(s, k, col);
      codes[Turn(s, k, col)]
    else
      EccTurn(s, k, col - BlockLength(s, k));
      codes[s.DataTotal() + (col - BlockLength(s, k)) * s.Blocks() + k]
  }

  lemma EccTurn(s: EccSpec, k: nat, col: nat)
    requires s.Valid() && k < s.Blocks() && col < s.e
    ensures 0 <= col * s.Blocks() + k < s.EccTotal()
    ensures EccSource(s, col * s.Blocks() + k) == k * s.e + col
  {
    var n := s.Blocks();
    MulSucc(col, n); MulLe(col + 1, s.e, n); MulLe(0, col, n);
    assert s.e * n == n * s.e;
    DivMod(col * n + k, n, col, k);
  }

  /** Every block arrives as its own codeword. */
  lemma ReceivedCodeword(s: EccSpec, data: Word, k: nat)
    requires s.Valid() && |data| == s.DataTotal() && k < s.Blocks()
    ensures Received(s, Interleave(s, data), k) == Codeword(Block(s, data, k), s.e)
  {
    hide Turn, SourceBlock, SourceColumn, EccCodes, EccSource, Parity;
    var w := Received(s, Interleave(s, data), k);
    var len := BlockLength(s, k);
    forall col | 0 <= col < len + s.e
      ensures w[col] == Codeword(Block(s, data, k), s.e)[col]
    {
      if col < len {
        TurnInverse(s, k, col);
        BlockEnd(s, k);
      } else {
        EccTurn(s, k, col - len);
        EccCodeAt(s, data, s.Blocks(), k, col - len);
      }
    }
  }

  /** Damage tolerance: if in every block at most e/2 codes are wrong, then the received codes
      determine the data. */
  lemma DamageTolerance(s: EccSpec, received: Word, a: Word, b: Word)
    requires s.Valid() && |a| == |b| == s.DataTotal() && |received| == s.DataTotal() + s.EccTotal()
    requires forall k: nat :: k < s.Blocks() ==>
               && 2 * Distance(Received(s, received, k), Received(s, Interleave(s, a), k)) <= s.e
               && 2 * Distance(Received(s, received, k), Received(s, Interleave(s, b), k)) <= s.e
    ensures a == b
  {
    hide Received, Distance, Interleave, Parity, BlockStart, Position, BlockAt, ColumnAt;
    forall k: nat | k < s.Blocks()
      ensures Block(s, a, k) == Block(s, b, k)
    {
      ReceivedCodeword(s, a, k); ReceivedCodeword(s, b, k);
      UniqueDecoding(Received(s, received, k), Block(s, a, k), Block(s, b, k), s.e);
    }
    forall i | 0 <= i < s.DataTotal()
      ensures a[i] == b[i]
    {
      PositionInverse(s, i);
      var k, col := BlockAt(s, i), ColumnAt(s, i);
      BlockEnd(s, k);
      assert a[i] == Block(s, a, k)[col] by { InBlock(s, a, k, col); }
      assert b[i] == Block(s, b, k)[col] by { InBlock(s, b, k, col); }
    }
  }

  lemma InBlock(s: EccSpec, data: Word, k: nat, col: nat)
    requires s.Valid() && |data| == s.DataTotal() && k < s.Blocks() && col < BlockLength(s, k)
    ensures Position(s, k, col) < |data| && data[Position(s, k, col)] == Block(s, data, k)[col]
  {
    hide BlockStart;
    BlockEnd(s, k);
  }
}
