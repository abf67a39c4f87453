/** The byte layouts written out: widths, byte order, tags and the order of fields. */
module Formats {
  import opened Bytes
  import opened Wire
  import opened Transaction
  import opened Blocks
  import opened Utxo
  import BalanceDbs
  import InflowDbs

  // ----- Integers -----

  /** Byte i of a little-endian number is its i-th base-256 digit, lowest first. */
  lemma {:induction false} LittleEndian(v: nat, n: nat, i: nat)
    requires i < n
    ensures Le(v, n)[i] == v / Pow256(i) % 256
  {
    if i > 0 {
      LittleEndian(v / 0x100, n - 1, i - 1);
      NestedDivision(v, Pow256(i - 1));
    }
  }

  lemma NestedDivision(v: nat, p: nat)
    requires p > 0
    ensures v / 0x100 / p == v / (0x100 * p)
  {
    var q, r := v / 0x100, v % 0x100;
    var a, b := q / p, q % p;
    assert v == 0x100 * (a * p + b) + r && 0x100 * b + r < 0x100 * p;
    QuotientIs(v, 0x100 * p, a, 0x100 * b + r);
  }

  lemma QuotientIs(v: int, d: int, q: int, r: int)
    requires 0 <= r < d && v == q * d + r
    ensures v / d == q
  {
    var k := v / d - q;
    assert v / d * d + v % d == v;
    assert k * d == r - v % d;
    Multiples(k, d);
  }

  lemma Multiples(k: int, d: int)
    requires d > 0
    ensures k >= 1 ==> k * d >= d
    ensures k <= -1 ==> k * d <= -d
  {
  }

  lemma First(v: nat, n: nat)
    ensures n > 0 ==> Le(v, n) == [v % 256] + Le(v / 256, n - 1)
    ensures Le(v, 0) == []
  {
  }

  lemma Words()
    ensures Le32(0x01020304) == [4, 3, 2, 1] && Le64(0x0102030405060708) == [8, 7, 6, 5, 4, 3, 2, 1]
  {
    hide Le;
    First(0x0102030405060708, 8);
    First(0x01020304050607, 7);
    First(0x010203040506, 6);
    First(0x0102030405, 5);
    First(0x01020304, 4);
    First(0x010203, 3);
    First(0x0102, 2);
    First(0x01, 1);
    First(0, 0);
  }

  /** Casts between signed and unsigned keep the number modulo 2^32 or 2^64. */
  lemma Casts(a: int32, b: uint32, c: int64, d: uint64)
    ensures (AsUint32(a) - a) % 0x1_0000_0000 == 0 && (AsInt32(b) - b) % 0x1_0000_0000 == 0
    ensures (AsUint64(c) - c) % 0x1_0000_0000_0000_0000 == 0 && (AsInt64(d) - d) % 0x1_0000_0000_0000_0000 == 0
  {
  }

  // ----- Counts -----

  /** The four forms of a count and where each starts: the shortest that holds it, lowest byte first. */
  lemma CompactForms(n: nat)
    ensures n <= 0xfc ==> WriteCompact(n) == [n]
    ensures 0xfd <= n <= 0xffff ==> WriteCompact(n) == [0xfd, n % 256, n / 256]
    ensures 0x1_0000 <= n <= 0xffff_ffff ==> |WriteCompact(n)| == 5 && WriteCompact(n)[0] == 0xfe
    ensures WriteCompact(0x0102_0304) == [0xfe, 4, 3, 2, 1]
    ensures 0x1_0000_0000 <= n < TWO_64 ==> |WriteCompact(n)| == 9 && WriteCompact(n)[0] == 0xff
    ensures WriteCompact(0x0102_0304_0506_0708) == [0xff, 8, 7, 6, 5, 4, 3, 2, 1]
  {
    hide Le;
    Words();
    if 0xfd <= n <= 0xffff {
      First(n, 2);
      First(n / 256, 1);
      First(n / 256 / 256, 0);
    }
  }

  // ----- Transactions and blocks -----

  predicate Short(b: seq<byte>) { |b| < 0xfd }

  /** A transaction with one input and one output, field by field, as nodes before segwit see it. */
  lemma TxLayout(tx: Tx, i: TxIn, o: TxOut)
    requires tx.vin == [i] && tx.vout == [o] && Short(i.scriptSig) && Short(o.script)
    ensures Serialize(tx, false)
      == Le32(AsUint32(tx.version))
       + ([1] + (i.prevTxid + Le32(i.prevVout) + [|i.scriptSig|] + i.scriptSig + Le32(i.sequence))
          + ([1] + (Le64(AsUint64(o.value)) + [|o.script|] + o.script)))
       + Le32(tx.locktime)
  {
    ListLayout(tx, i, o);
    hide *;
    NoWitness(tx);
  }

  lemma NoWitness(tx: Tx)
    ensures Serialize(tx, false) == Le32(AsUint32(tx.version)) + WriteVinVout(tx) + Le32(tx.locktime)
  {
    hide Le32, AsUint32, WriteVinVout;
  }

  lemma FullWitness(tx: Tx)
    requires tx.hasWitness
    ensures Serialize(tx, true)
      == Le32(AsUint32(tx.version)) + [0, 1] + WriteVinVout(tx) + WriteMany(WriteStack, Stacks(tx.vin)) + Le32(tx.locktime)
  {
    hide Le32, AsUint32, WriteVinVout, WriteMany, Stacks;
  }

  /** Under the flag: the marker after the version, a counted stack of blobs before the lock time. */
  lemma WitnessLayout(tx: Tx, i: TxIn, o: TxOut, item: seq<byte>)
    requires tx.vin == [i] && tx.vout == [o] && Short(i.scriptSig) && Short(o.script)
    requires tx.hasWitness && i.stack == [item] && Short(item)
    ensures Serialize(tx, true)
      == Le32(AsUint32(tx.version)) + [0, 1]
       + ([1] + (i.prevTxid + Le32(i.prevVout) + [|i.scriptSig|] + i.scriptSig + Le32(i.sequence))
          + ([1] + (Le64(AsUint64(o.value)) + [|o.script|] + o.script)))
       + ([1] + ([|item|] + item)) + Le32(tx.locktime)
  {
    hide *;
    ListLayout(tx, i, o);
    StackLayout(tx, i, item);
    FullWitness(tx);
  }

  lemma ListLayout(tx: Tx, i: TxIn, o: TxOut)
    requires tx.vin == [i] && tx.vout == [o] && Short(i.scriptSig) && Short(o.script)
    ensures WriteVinVout(tx)
      == [1] + (i.prevTxid + Le32(i.prevVout) + [|i.scriptSig|] + i.scriptSig + Le32(i.sequence))
       + ([1] + (Le64(AsUint64(o.value)) + [|o.script|] + o.script))
  {
    hide Le32, Le64, AsUint64, WriteMany;
    WriteOne(WriteTxIn, tx.vin);
    WriteOne(WriteTxOut, tx.vout);
    Input(i);
    Output(o);
    hide WriteTxIn, WriteTxOut;
  }

  lemma Input(i: TxIn)
    requires Short(i.scriptSig)
    ensures WriteTxIn(i) == i.prevTxid + Le32(i.prevVout) + [|i.scriptSig|] + i.scriptSig + Le32(i.sequence)
  {
    hide Le32;
  }

  lemma Output(o: TxOut)
    requires Short(o.script)
    ensures WriteTxOut(o) == Le64(AsUint64(o.value)) + [|o.script|] + o.script
  {
    hide Le64, AsUint64;
  }

  lemma StackLayout(tx: Tx, i: TxIn, item: seq<byte>)
    requires tx.vin == [i] && i.stack == [item] && Short(item)
    ensures WriteMany(WriteStack, Stacks(tx.vin)) == [1] + ([|item|] + item)
  {
    assert Stacks(tx.vin) == [i.stack];
    WriteOne(WriteStack, Stacks(tx.vin));
    WriteOne(WriteBlob, i.stack);
    hide WriteMany;
  }

  lemma WriteOne<T>(write: Writer<T>, xs: seq<T>)
    requires |xs| == 1
    ensures WriteMany(write, xs) == write(xs[0])
  {
    assert WriteMany(write, xs[1..]) == [];
  }
  /** Lists are written in order, item after item. */
  lemma {:induction false} ListOrder<T>(write: Writer<T>, xs: seq<T>, ys: seq<T>)
    ensures WriteMany(write, xs + ys) == WriteMany(write, xs) + WriteMany(write, ys)
  {
    if xs == [] {
      assert xs + ys == ys;
    } else {
      ListOrder(write, xs[1..], ys);
      assert (xs + ys)[1..] == xs[1..] + ys;
    }
  }

  /** A block of one transaction: 80 header bytes, a one, the transaction with its witness. */
  lemma BlockLayout(b: Block, tx: Tx)
    requires b.txs == [tx]
    ensures WriteBlock(b)
      == Le32(AsUint32(b.header.version)) + b.header.prev + b.header.merkle + Le32(b.header.time) + Le32(b.header.bits)
       + Le32(b.header.nonce) + [1] + Serialize(tx, true)
  {
    hide Le32, Serialize;
    WriteOne(WriteTx, b.txs);
    hide WriteMany;
  }

  /** What the parsers say of buffers too short, counts too large and bytes left over. */
  lemma Refusals(d: seq<byte>, n: nat, rest: seq<byte>)
    ensures |d| < 10 ==> ReadTx(d) == Fail("invalid transaction")
    ensures |d| < 81 ==> ParseBlock(d) == Err("invalid block")
    ensures ReadCompact([]) == Fail("invalid compact size") && ReadCompact([0xfd, 0xfc, 0x00]) == Fail("invalid compact size")
    ensures n < TWO_64 && n > |rest| ==>
      && ReadCounted(ReadTxIn, WriteCompact(n) + rest) == Fail("invalid transaction")
      && ReadBlob(WriteCompact(n) + rest) == Fail("invalid transaction")
      && (|d| == 80 ==> ParseBlock(d + (WriteCompact(n) + rest)) == Err("invalid block"))
  {
    hide WriteCompact;
    if n < TWO_64 {
      CompactInverts(n, rest);
      assert (d + (WriteCompact(n) + rest))[..|d|] == d && (d + (WriteCompact(n) + rest))[|d|..] == WriteCompact(n) + rest;
    }
    hide ReadTx;
  }

  lemma {:induction false} ManyExtended(n: nat, d: seq<byte>, more: seq<byte>)
    requires ReadMany(ReadTx, n, d).Got?
    ensures ReadMany(ReadTx, n, d + more) == Got(ReadMany(ReadTx, n, d).value, ReadMany(ReadTx, n, d).rest + more)
  {
    hide ReadTx;
    if n > 0 {
      Extended(d, more);
      ManyExtended(n - 1, ReadTx(d).rest, more);
    }
  }

  /** An accepted block followed by anything is no block. */
  lemma BlockPrefixFree(d: seq<byte>, more: seq<byte>)
    requires ParseBlock(d).Ok? && more != []
    ensures ParseBlock(d + more) == Err("invalid block")
  {
    hide ReadTx, ReadMany, HeaderOf, ReadCompact, WriteCompact;
    var p := ReadCompact(d[80..]);
    CompactCanonical(d[80..]);
    CompactInverts(p.value, p.rest + more);
    assert (d + more)[80..] == WriteCompact(p.value) + (p.rest + more);
    ManyExtended(p.value, p.rest, more);
  }

  // ----- Database rows -----

  /** Tags and fields of the keys; the two metadata keys spell Mheight and Mtip. */
  lemma KeyLayout(op: Outpoint, a: Address)
    ensures BalanceDbs.KeyA(a) == ['A' as int] + a
    ensures BalanceDbs.KeyO(op) == ['O' as int] + op.txid + Le32(op.vout)
    ensures |BalanceDbs.HEIGHT_KEY| == |"Mheight"| && forall i :: 0 <= i < 7 ==> BalanceDbs.HEIGHT_KEY[i] == "Mheight"[i] as int
    ensures |BalanceDbs.TIP_KEY| == |"Mtip"| && forall i :: 0 <= i < 4 ==> BalanceDbs.TIP_KEY[i] == "Mtip"[i] as int
  {
    hide Le32;
  }

  /** A coin row is its counted address and the amount; an inflow row is sum, transaction count and last time. */
  lemma RowLayout(c: Coin, r: InflowDbs.Row)
    ensures |c.addr| < 0xfd ==> BalanceDbs.EncodeOut(c) == [|c.addr|] + c.addr + Le64(c.amount)
    ensures InflowDbs.EncodeRow(r)[..8] == Le64(r.sats) && InflowDbs.EncodeRow(r)[8..16] == Le64(r.count)
    ensures InflowDbs.EncodeRow(r)[16..] == Le32(r.last)
  {
    hide Le32, Le64;
  }
}
