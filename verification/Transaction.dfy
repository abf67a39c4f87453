/** Transactions and blocks on the wire (BIP-144, section "Serialization"). */
module Transaction {
  import opened Bytes
  import opened Wire

  datatype TxIn = TxIn(
    prevTxid: Hash256, prevVout: uint32, scriptSig: seq<byte>, sequence: uint32, stack: seq<seq<byte>>)

  datatype TxOut = TxOut(value: int64, script: seq<byte>)

  datatype Tx = Tx(version: int32, hasWitness: bool, vin: seq<TxIn>, vout: seq<TxOut>, locktime: uint32)

  datatype Header = Header(
    version: int32, prev: Hash256, merkle: Hash256, time: uint32, bits: uint32, nonce: uint32)

  datatype Block = Block(header: Header, txs: seq<Tx>)

  // ----- Writers -----

  function WriteTxIn(i: TxIn): seq<byte> {
    i.prevTxid + Le32(i.prevVout) + WriteBlob(i.scriptSig) + Le32(i.sequence)
  }

  function WriteTxOut(o: TxOut): seq<byte> { Le64(AsUint64(o.value)) + WriteBlob(o.script) }

  function WriteStack(items: seq<seq<byte>>): seq<byte> { WriteCounted(WriteBlob, items) }

  function Stacks(vin: seq<TxIn>): (s: seq<seq<seq<byte>>>)
    ensures |s| == |vin|
  {
    seq(|vin|, i requires 0 <= i < |vin| => vin[i].stack)
  }

  function WriteVinVout(tx: Tx): seq<byte> {
    WriteCounted(WriteTxIn, tx.vin) + WriteCounted(WriteTxOut, tx.vout)
  }

  function Serialize(tx: Tx, includeWitness: bool): seq<byte> {
    var wit := includeWitness && tx.hasWitness;
    Le32(AsUint32(tx.version)) + (if wit then [0x00, 0x01] else []) + WriteVinVout(tx)
    + (if wit then WriteMany(WriteStack, Stacks(tx.vin)) else []) + Le32(tx.locktime)
  }

  function WriteTx(tx: Tx): seq<byte> { Serialize(tx, true) }

  // ----- Readers -----

  function ReadWord32(d: seq<byte>): Parsed<uint32> {
    var (b, rest) :- ReadBytes(4, d);
    Got(ReadLe32(b), rest)
  }

  function ReadWord64(d: seq<byte>): Parsed<uint64> {
    var (b, rest) :- ReadBytes(8, d);
    Got(ReadLe64(b), rest)
  }

  function ReadHash(d: seq<byte>): Parsed<Hash256> {
    var (b, rest) :- ReadBytes(32, d);
    Got(b, rest)
  }

  function ReadTxIn(d: seq<byte>): Parsed<TxIn> {
    var (txid, d1) :- ReadHash(d);
    var (vout, d2) :- ReadWord32(d1);
    var (sig, d3) :- ReadBlob(d2);
    var (sequence, d4) :- ReadWord32(d3);
    Got(TxIn(txid, vout, sig, sequence, []), d4)
  }

  function ReadTxOut(d: seq<byte>): Parsed<TxOut> {
    var (value, d1) :- ReadWord64(d);
    var (script, d2) :- ReadBlob(d1);
    Got(TxOut(AsInt64(value), script), d2)
  }

  function ReadStack(d: seq<byte>): Parsed<seq<seq<byte>>> { ReadCounted(ReadBlob, d) }

  /** A zero byte where the input count would be announces the segwit flag, which must be odd. */
  function ReadMarker(d: seq<byte>): Parsed<bool> {
    if d == [] then Fail(BAD_TX)
    else if d[0] != 0 then Got(false, d)
    else if |d| < 2 || d[1] % 2 == 0 then Fail(BAD_TX)
    else Got(true, d[2..])
  }

  function Attach(vin: seq<TxIn>, stacks: seq<seq<seq<byte>>>): (r: seq<TxIn>)
    requires |vin| == |stacks|
    ensures |r| == |vin|
  {
    seq(|vin|, i requires 0 <= i < |vin| => vin[i].(stack := stacks[i]))
  }

  function ReadWitness(flagged: bool, vin: seq<TxIn>, d: seq<byte>): Parsed<seq<TxIn>> {
    if !flagged then Got(vin, d)
    else
      var (stacks, rest) :- ReadMany(ReadStack, |vin|, d);
      ManyCount(ReadStack, |vin|, d);
      Got(Attach(vin, stacks), rest)
  }

  /** Inputs, outputs and, under the flag, one witness stack per input. */
  function ReadLists(flagged: bool, d: seq<byte>): Parsed<(seq<TxIn>, seq<TxOut>)> {
    var (vin, d1) :- ReadCounted(ReadTxIn, d);
    var (vout, d2) :- ReadCounted(ReadTxOut, d1);
    var (signed, d3) :- ReadWitness(flagged, vin, d2);
    Got((signed, vout), d3)
  }

  function ReadTx(d: seq<byte>): Parsed<Tx> {
    if |d| < 10 then Fail(BAD_TX)
    else
      var (version, d1) :- ReadWord32(d);
      var (flagged, d2) :- ReadMarker(d1);
      var (lists, d3) :- ReadLists(flagged, d2);
      var (locktime, d4) :- ReadWord32(d3);
      Got(Tx(AsInt32(version), flagged, lists.0, lists.1, locktime), d4)
  }

  lemma {:induction false} ManyCount<T>(read: Reader<T>, n: nat, d: seq<byte>)
    requires ReadMany(read, n, d).Got?
    ensures |ReadMany(read, n, d).value| == n
  {
    if n > 0 {
      ManyCount(read, n - 1, read(d).rest);
    }
  }

  /** parse_tx on a whole buffer. */
  function ParseWhole(d: seq<byte>): Result<Tx> {
    match ReadTx(d)
    case Fail(m) => Err(m)
    case Got(tx, rest) => if rest == [] then Ok(tx) else Err(BAD_TX)
  }

  // ----- Writing then reading -----

  /** Counts and lengths are 64-bit sizes, as in any std::vector. */
  predicate Sized(tx: Tx) {
    && |tx.vin| < TWO_64 && |tx.vout| < TWO_64
    && (forall i :: i in tx.vin ==> SizedIn(i))
    && (forall o :: o in tx.vout ==> SizedOut(o))
  }

  predicate SizedIn(i: TxIn) { SizedBlob(i.scriptSig) && SizedStack(i.stack) }

  predicate SizedOut(o: TxOut) { SizedBlob(o.script) }

  predicate SizedBlob(b: seq<byte>) { |b| < TWO_64 }

  predicate SizedStack(items: seq<seq<byte>>) { |items| < TWO_64 && forall b :: b in items ==> SizedBlob(b) }

  lemma WordReads(v: uint32, w: uint64, h: Hash256, rest: seq<byte>)
    ensures ReadWord32(Le32(v) + rest) == Got(v, rest)
    ensures ReadWord64(Le64(w) + rest) == Got(w, rest)
    ensures ReadHash(h + rest) == Got(h, rest)
  {
    FixedWidth32(v, Le32(v));
    FixedWidth64(w, Le64(w));
    assert (Le32(v) + rest)[..4] == Le32(v) && (Le64(w) + rest)[..8] == Le64(w) && (h + rest)[..32] == h;
  }

  lemma TxInReads(i: TxIn)
    requires |i.scriptSig| < TWO_64 && i.stack == []
    ensures Reads(ReadTxIn, WriteTxIn, i)
  {
    hide Le32, ReadBlob, WriteBlob, ReadWord32, ReadHash;
    forall rest ensures ReadTxIn(WriteTxIn(i) + rest) == Got(i, rest) {
      var d3 := Le32(i.sequence) + rest;
      var d2 := WriteBlob(i.scriptSig) + d3;
      var d1 := Le32(i.prevVout) + d2;
      assert WriteTxIn(i) + rest == i.prevTxid + d1;
      WordReads(i.prevVout, 0, i.prevTxid, d2);
      WordReads(0, 0, i.prevTxid, d1);
      BlobReads(i.scriptSig);
      WordReads(i.sequence, 0, i.prevTxid, rest);
    }
  }

  lemma TxOutReads(o: TxOut)
    requires |o.script| < TWO_64
    ensures Reads(ReadTxOut, WriteTxOut, o)
  {
    hide Le64, ReadBlob, WriteBlob, ReadWord64, AsUint64, AsInt64;
    forall rest ensures ReadTxOut(WriteTxOut(o) + rest) == Got(o, rest) {
      var d1 := WriteBlob(o.script) + rest;
      assert WriteTxOut(o) + rest == Le64(AsUint64(o.value)) + d1;
      WordReads(0, AsUint64(o.value), Repeat(0, 32), d1);
      CastsInverse(0, 0, o.value, 0);
      BlobReads(o.script);
    }
  }

  lemma StackReads(items: seq<seq<byte>>)
    requires SizedStack(items)
    ensures Reads(ReadStack, WriteStack, items)
  {
    hide ReadCounted, WriteMany, ReadBlob, WriteBlob;
    forall b | b in items ensures Reads(ReadBlob, WriteBlob, b) { BlobReads(b); }
    forall rest ensures ReadStack(WriteStack(items) + rest) == Got(items, rest) {
      CountedInverts(ReadBlob, WriteBlob, items, rest);
    }
  }

  /** What a parser can return: witness data only under the flag, and no flag-like empty input list. */
  predicate Parseable(tx: Tx) {
    && (tx.vin != [] || tx.hasWitness)
    && (!tx.hasWitness ==> forall i :: i in tx.vin ==> i.stack == [])
  }

  function Bare(vin: seq<TxIn>): (r: seq<TxIn>)
    ensures |r| == |vin|
  {
    seq(|vin|, i requires 0 <= i < |vin| => vin[i].(stack := []))
  }

  /** Inputs are written without their witness data. */
  lemma {:induction false} WriteBare(vin: seq<TxIn>)
    ensures WriteMany(WriteTxIn, Bare(vin)) == WriteMany(WriteTxIn, vin)
  {
    if vin != [] {
      WriteBare(vin[1..]);
      assert Bare(vin)[1..] == Bare(vin[1..]);
    }
  }

  lemma VinReads(vin: seq<TxIn>, rest: seq<byte>)
    requires |vin| < TWO_64 && forall i :: i in vin ==> SizedIn(i)
    ensures ReadCounted(ReadTxIn, WriteCounted(WriteTxIn, vin) + rest) == Got(Bare(vin), rest)
  {
    hide ReadCounted, WriteMany, ReadTxIn, WriteTxIn;
    WriteBare(vin);
    forall i | i in Bare(vin) ensures Reads(ReadTxIn, WriteTxIn, i) {
      var k :| 0 <= k < |vin| && i == Bare(vin)[k];
      assert vin[k] in vin;
      TxInReads(i);
    }
    CountedInverts(ReadTxIn, WriteTxIn, Bare(vin), rest);
  }

  lemma VoutReads(vout: seq<TxOut>, rest: seq<byte>)
    requires |vout| < TWO_64 && forall o :: o in vout ==> SizedOut(o)
    ensures ReadCounted(ReadTxOut, WriteCounted(WriteTxOut, vout) + rest) == Got(vout, rest)
  {
    forall o | o in vout ensures Reads(ReadTxOut, WriteTxOut, o) { TxOutReads(o); }
    CountedInverts(ReadTxOut, WriteTxOut, vout, rest);
  }

  function WriteWitness(tx: Tx): seq<byte> {
    if tx.hasWitness then WriteMany(WriteStack, Stacks(tx.vin)) else []
  }

  function WriteMarker(tx: Tx): seq<byte> { if tx.hasWitness then [0x00, 0x01] else [] }

  lemma WitnessReads(tx: Tx, rest: seq<byte>)
    requires Sized(tx) && Parseable(tx)
    ensures ReadWitness(tx.hasWitness, Bare(tx.vin), WriteWitness(tx) + rest) == Got(tx.vin, rest)
  {
    hide ReadMany, WriteMany, ReadStack, WriteStack;
    var stacks := Stacks(tx.vin);
    if tx.hasWitness {
      forall s | s in stacks ensures Reads(ReadStack, WriteStack, s) {
        var k :| 0 <= k < |tx.vin| && s == stacks[k];
        assert tx.vin[k] in tx.vin;
        StackReads(s);
      }
      ManyInverts(ReadStack, WriteStack, stacks, rest);
      assert Attach(Bare(tx.vin), stacks) == tx.vin;
    } else {
      assert forall k :: 0 <= k < |tx.vin| ==> tx.vin[k] in tx.vin;
      assert Bare(tx.vin) == tx.vin;
      assert WriteWitness(tx) + rest == rest;
    }
  }

  lemma MarkerReads(tx: Tx, rest: seq<byte>)
    requires tx.vin != [] || tx.hasWitness
    ensures var d := WriteCounted(WriteTxIn, tx.vin) + rest;
      ReadMarker(WriteMarker(tx) + d) == Got(tx.hasWitness, d)
  {
    hide WriteMany;
    var d := WriteCounted(WriteTxIn, tx.vin) + rest;
    assert d[0] == WriteCompact(|tx.vin|)[0];
    if tx.hasWitness {
      assert ([0x00, 0x01] + d)[2..] == d;
    } else {
      assert [] + d == d;
    }
  }

  lemma SerializeParts(tx: Tx, rest: seq<byte>)
    ensures Serialize(tx, true) + rest
         == Le32(AsUint32(tx.version)) + (WriteMarker(tx) + (WriteCounted(WriteTxIn, tx.vin)
            + (WriteCounted(WriteTxOut, tx.vout) + (WriteWitness(tx) + (Le32(tx.locktime) + rest)))))
    ensures |Serialize(tx, true)| >= 10
  {
    hide WriteMany, WriteCompact, Le32;
  }

  /** Writing a transaction and reading it back, whatever bytes follow. */
  lemma TxReads(tx: Tx)
    requires Sized(tx) && Parseable(tx)
    ensures Reads(ReadTx, WriteTx, tx)
  {
    hide Serialize, Sized, Parseable, ReadCounted, WriteCounted, ReadWitness, WriteWitness;
    hide ReadMarker, WriteMarker, Le32, ReadWord32;
    SerializeParts(tx, []);
    forall rest ensures ReadTx(WriteTx(tx) + rest) == Got(tx, rest) {
      SerializeParts(tx, rest);
      SizedParts(tx);
      var d5 := Le32(tx.locktime) + rest;
      var d4 := WriteWitness(tx) + d5;
      var d3 := WriteCounted(WriteTxOut, tx.vout) + d4;
      var d2 := WriteCounted(WriteTxIn, tx.vin) + d3;
      WordReads(AsUint32(tx.version), 0, Repeat(0, 32), WriteMarker(tx) + d2);
      MarkerReads(tx, d3);
      VinReads(tx.vin, d3);
      VoutReads(tx.vout, d4);
      WitnessReads(tx, d5);
      WordReads(tx.locktime, 0, Repeat(0, 32), rest);
      CastsInverse(tx.version, 0, 0, 0);
    }
  }

  lemma SizedParts(tx: Tx)
    requires Sized(tx) && Parseable(tx)
    ensures |tx.vin| < TWO_64 && |tx.vout| < TWO_64 && (tx.vin != [] || tx.hasWitness)
    ensures forall i :: i in tx.vin ==> SizedIn(i)
    ensures forall o :: o in tx.vout ==> SizedOut(o)
  {
  }

  /** A transaction survives the wire exactly when its shape is one a parser can return. */
  lemma RoundTripIff(tx: Tx, rest: seq<byte>)
    requires Sized(tx)
    ensures ReadTx(Serialize(tx, true) + rest) == Got(tx, rest) <==> Parseable(tx)
  {
    if Parseable(tx) {
      hide Serialize, ReadTx;
      TxReads(tx);
      assert WriteTx(tx) + rest == Serialize(tx, true) + rest;
    } else if ReadTx(Serialize(tx, true) + rest) == Got(tx, rest) {
      ReadIsParseable(Serialize(tx, true) + rest);
    }
  }

  // ----- Reading then writing -----

  lemma WordsCanonical(d: seq<byte>)
    ensures ReadWord32(d).Got? ==> d == Le32(ReadWord32(d).value) + ReadWord32(d).rest
    ensures ReadWord64(d).Got? ==> d == Le64(ReadWord64(d).value) + ReadWord64(d).rest
    ensures ReadHash(d).Got? ==> d == ReadHash(d).value + ReadHash(d).rest
  {
    hide Le32, Le64, ReadLe32, ReadLe64;
    if |d| >= 4 {
      FixedWidth32(0, d[..4]);
    }
    if |d| >= 8 {
      FixedWidth64(0, d[..8]);
    }
  }

  predicate UnsignedIn(i: TxIn) { i.stack == [] && SizedBlob(i.scriptSig) }

  lemma TxInCanonical()
    ensures Canonical(ReadTxIn, WriteTxIn)
    ensures forall d :: ReadTxIn(d).Got? ==> UnsignedIn(ReadTxIn(d).value)
  {
    hide Le32, ReadBlob, WriteBlob, ReadWord32, ReadHash;
    forall d | ReadTxIn(d).Got?
      ensures d == WriteTxIn(ReadTxIn(d).value) + ReadTxIn(d).rest && UnsignedIn(ReadTxIn(d).value)
    {
      var d1 := ReadHash(d).rest;
      var d2 := ReadWord32(d1).rest;
      var d3 := ReadBlob(d2).rest;
      WordsCanonical(d);
      WordsCanonical(d1);
      BlobCanonical();
      assert d2 == WriteBlob(ReadBlob(d2).value) + d3;
      WordsCanonical(d3);
    }
  }

  lemma TxOutCanonical()
    ensures Canonical(ReadTxOut, WriteTxOut)
    ensures forall d :: ReadTxOut(d).Got? ==> SizedOut(ReadTxOut(d).value)
  {
    hide Le64, ReadBlob, WriteBlob, ReadWord64, AsInt64, AsUint64;
    forall d | ReadTxOut(d).Got?
      ensures d == WriteTxOut(ReadTxOut(d).value) + ReadTxOut(d).rest && SizedOut(ReadTxOut(d).value)
    {
      var value, d1 := ReadWord64(d).value, ReadWord64(d).rest;
      WordsCanonical(d);
      BlobCanonical();
      assert d1 == WriteBlob(ReadBlob(d1).value) + ReadBlob(d1).rest;
      CastsInverse(0, 0, 0, value);
    }
  }

  lemma StackCanonical()
    ensures Canonical(ReadStack, WriteStack)
    ensures forall d :: ReadStack(d).Got? ==> SizedStack(ReadStack(d).value)
  {
    hide ReadBlob, WriteBlob, ReadCounted, WriteCounted, ReadCompact;
    BlobCanonical();
    CountedCanonical(ReadBlob, WriteBlob);
    forall d | ReadStack(d).Got?
      ensures d == WriteStack(ReadStack(d).value) + ReadStack(d).rest && SizedStack(ReadStack(d).value)
    {
      CountedAll(ReadBlob, SizedBlob, d);
    }
  }

  /** The input list: canonical, unsigned, and never empty unless a zero count byte introduced it. */
  lemma VinCanonical(d: seq<byte>)
    requires ReadCounted(ReadTxIn, d).Got?
    ensures var p := ReadCounted(ReadTxIn, d);
      && d == WriteCounted(WriteTxIn, p.value) + p.rest
      && |p.value| < TWO_64
      && (forall i :: i in p.value ==> UnsignedIn(i))
      && (d[0] != 0 ==> p.value != [])
  {
    hide ReadTxIn, WriteTxIn, ReadMany, WriteCounted, UnsignedIn;
    TxInCanonical();
    CountedCanonical(ReadTxIn, WriteTxIn);
    CountedAll(ReadTxIn, UnsignedIn, d);
    CompactCanonical(d);
  }

  lemma VoutCanonical(d: seq<byte>)
    requires ReadCounted(ReadTxOut, d).Got?
    ensures var p := ReadCounted(ReadTxOut, d);
      && d == WriteCounted(WriteTxOut, p.value) + p.rest
      && |p.value| < TWO_64
      && (forall o :: o in p.value ==> SizedOut(o))
  {
    hide ReadTxOut, WriteTxOut, ReadCounted, WriteCounted, SizedOut, ReadCompact;
    TxOutCanonical();
    CountedCanonical(ReadTxOut, WriteTxOut);
    CountedAll(ReadTxOut, SizedOut, d);
  }

  function WriteStacks(flagged: bool, vin: seq<TxIn>): seq<byte> {
    if flagged then WriteMany(WriteStack, Stacks(vin)) else []
  }

  lemma WitnessCanonical(flagged: bool, vin: seq<TxIn>, d: seq<byte>)
    requires ReadWitness(flagged, vin, d).Got?
    requires forall i :: i in vin ==> UnsignedIn(i)
    ensures var p := ReadWitness(flagged, vin, d);
      && d == WriteStacks(flagged, p.value) + p.rest
      && |p.value| == |vin|
      && WriteMany(WriteTxIn, p.value) == WriteMany(WriteTxIn, vin)
      && (forall i :: i in p.value ==> SizedIn(i))
      && (!flagged ==> p.value == vin)
  {
    hide ReadMany, WriteMany, ReadStack, WriteStack, SizedStack;
    var p := ReadWitness(flagged, vin, d);
    if flagged {
      StackCanonical();
      var stacks := ReadMany(ReadStack, |vin|, d).value;
      ManyCanonical(ReadStack, WriteStack, |vin|, d);
      ManyAll(ReadStack, SizedStack, |vin|, d);
      assert Stacks(p.value) == stacks;
      assert forall k :: 0 <= k < |vin| ==> vin[k] in vin;
      assert Bare(p.value) == vin;
      WriteBare(p.value);
      forall i | i in p.value ensures SizedIn(i) {
        var k :| 0 <= k < |vin| && p.value[k] == i;
        assert vin[k] in vin && stacks[k] in stacks;
      }
    } else {
      NoItems();
    }
  }

  lemma NoItems()
    ensures SizedStack([])
  {
  }

  /** The segwit flag may be any odd byte; serialization writes 1. */
  function FlagNormalised(d: seq<byte>): (n: seq<byte>)
    requires |d| >= 6
    ensures |n| == |d|
  {
    if d[4] == 0 then d[5 := 1] else d
  }

  lemma MarkerCanonical(d: seq<byte>)
    requires |d| >= 6 && ReadMarker(d[4..]).Got?
    ensures var p := ReadMarker(d[4..]);
      && FlagNormalised(d) == d[..4] + (if p.value then [0x00, 0x01] else []) + p.rest
      && (!p.value ==> |p.rest| > 0 && p.rest[0] != 0)
  {
    var p := ReadMarker(d[4..]);
    if d[4] == 0 {
      assert d[4..][2..] == d[6..];
      assert d[5 := 1] == d[..4] + [0x00, 0x01] + d[6..];
    } else {
      assert d == d[..4] + [] + d[4..];
    }
  }

  /** The five successive remainders of a parse. */
  ghost predicate Stages(d: seq<byte>, flagged: bool, d2: seq<byte>, vin: seq<TxIn>, d3: seq<byte>, vout: seq<TxOut>,
                         d4: seq<byte>, signed: seq<TxIn>, d5: seq<byte>, tx: Tx, rest: seq<byte>)
  {
    && |d| >= 10
    && ReadMarker(d[4..]) == Got(flagged, d2)
    && ReadCounted(ReadTxIn, d2) == Got(vin, d3)
    && ReadCounted(ReadTxOut, d3) == Got(vout, d4)
    && ReadWitness(flagged, vin, d4) == Got(signed, d5)
    && ReadWord32(d5) == Got(tx.locktime, rest)
    && tx == Tx(AsInt32(ReadLe32(d[..4])), flagged, signed, vout, tx.locktime)
  }

  lemma TxStages(d: seq<byte>)
      returns (flagged: bool, d2: seq<byte>, vin: seq<TxIn>, d3: seq<byte>, vout: seq<TxOut>,
               d4: seq<byte>, signed: seq<TxIn>, d5: seq<byte>)
    requires ReadTx(d).Got?
    ensures Stages(d, flagged, d2, vin, d3, vout, d4, signed, d5, ReadTx(d).value, ReadTx(d).rest)
  {
    hide ReadMarker, ReadCounted, ReadTxIn, ReadTxOut, ReadWitness, ReadLe32;
    flagged, d2 := ReadMarker(d[4..]).value, ReadMarker(d[4..]).rest;
    vin, d3 := ReadCounted(ReadTxIn, d2).value, ReadCounted(ReadTxIn, d2).rest;
    vout, d4 := ReadCounted(ReadTxOut, d3).value, ReadCounted(ReadTxOut, d3).rest;
    signed, d5 := ReadWitness(flagged, vin, d4).value, ReadWitness(flagged, vin, d4).rest;
  }

  /** The parser returns only transactions it would read back. */
  lemma ReadIsParseable(d: seq<byte>)
    requires ReadTx(d).Got?
    ensures Sized(ReadTx(d).value) && Parseable(ReadTx(d).value)
  {
    hide ReadTx, ReadMarker, ReadCounted, ReadTxIn, ReadTxOut, ReadWitness, ReadLe32, SizedIn, SizedOut;
    var flagged, d2, vin, d3, vout, d4, signed, d5 := TxStages(d);
    MarkerCanonical(d);
    VinCanonical(d2);
    VoutCanonical(d3);
    WitnessCanonical(flagged, vin, d4);
  }

  /** Parsing is canonical: writing back what was read gives the input, its flag byte normalised. */
  lemma ParseCanonical(d: seq<byte>)
    requires ReadTx(d).Got?
    ensures |d| >= 10 && Serialize(ReadTx(d).value, true) + ReadTx(d).rest == FlagNormalised(d)
  {
    hide ReadTx, ReadMarker, ReadCounted, WriteCounted, ReadTxIn, ReadTxOut, ReadWitness, ReadLe32, Le32, WriteMany;
    hide Serialize, FlagNormalised, WriteWitness, WriteStacks, UnsignedIn, SizedIn, SizedOut;
    var tx, rest := ReadTx(d).value, ReadTx(d).rest;
    var flagged, d2, vin, d3, vout, d4, signed, d5 := TxStages(d);
    MarkerCanonical(d);
    VinCanonical(d2);
    VoutCanonical(d3);
    WitnessCanonical(flagged, vin, d4);
    WordsCanonical(d5);
    SerializeParts(tx, rest);
    FixedWidth32(0, d[..4]);
    CastsInverse(0, ReadLe32(d[..4]), 0, 0);
    SameCount(tx.vin, vin);
    WitnessIsStacks(tx);
    assert d2 == WriteCounted(WriteTxIn, tx.vin)
                 + (WriteCounted(WriteTxOut, tx.vout) + (WriteWitness(tx) + (Le32(tx.locktime) + rest)));
    Regroup(d[..4], WriteMarker(tx), d2);
  }

  lemma Regroup(a: seq<byte>, b: seq<byte>, c: seq<byte>)
    ensures a + b + c == a + (b + c)
  {
  }

  lemma SameCount(signed: seq<TxIn>, vin: seq<TxIn>)
    requires |signed| == |vin| && WriteMany(WriteTxIn, signed) == WriteMany(WriteTxIn, vin)
    ensures WriteCounted(WriteTxIn, signed) == WriteCounted(WriteTxIn, vin)
  {
    hide WriteMany, WriteCompact;
  }

  lemma WitnessIsStacks(tx: Tx)
    ensures WriteWitness(tx) == WriteStacks(tx.hasWitness, tx.vin)
  {
    hide WriteMany;
  }

  /** A whole accepted buffer is reproduced, apart from that one byte. */
  lemma WholeCanonical(d: seq<byte>)
    requires ParseWhole(d).Ok?
    ensures |d| >= 10 && Serialize(ParseWhole(d).value, true) == FlagNormalised(d)
    ensures ParseWhole(FlagNormalised(d)) == ParseWhole(d)
  {
    hide ReadTx, Serialize, FlagNormalised, Sized, Parseable;
    var tx := ReadTx(d).value;
    ParseCanonical(d);
    ReadIsParseable(d);
    assert Serialize(tx, true) + [] == Serialize(tx, true);
    RoundTripIff(tx, []);
  }

  /** Any odd byte serves as the segwit flag: changing one for another changes nothing the parser sees. */
  lemma AnyOddFlag(d: seq<byte>, f: byte)
    requires |d| >= 10 && d[4] == 0 && d[5] % 2 == 1 && f % 2 == 1
    ensures ReadTx(d[5 := f]) == ReadTx(d)
  {
    hide ReadLists, ReadWord32;
    var e := d[5 := f];
    WordPrefix(d);
    WordPrefix(e);
    assert e[..4] == d[..4] && d[4..][2..] == d[6..] && e[4..][2..] == d[6..];
  }

  lemma WordPrefix(d: seq<byte>)
    requires |d| >= 4
    ensures ReadWord32(d) == Got(ReadLe32(d[..4]), d[4..])
  {
  }

  /** An accepted buffer is its transaction's own serialization exactly when its flag byte, if any, is 1. */
  lemma ReproducedIff(d: seq<byte>)
    requires ParseWhole(d).Ok?
    ensures |d| >= 10 && (Serialize(ParseWhole(d).value, true) == d <==> d[4] != 0 || d[5] == 1)
  {
    hide ReadTx, Serialize;
    WholeCanonical(d);
    if d[4] == 0 && d[5] == 1 {
      assert d[5 := 1] == d;
    }
  }

  // ----- Without witness data -----

  /** The transaction as nodes before segwit see it. */
  function Stripped(tx: Tx): (r: Tx)
    ensures |r.vin| == |tx.vin|
  {
    tx.(hasWitness := false, vin := Bare(tx.vin))
  }

  /** Leaving witnesses out is serializing a transaction that has none. */
  lemma StrippedSerialize(tx: Tx)
    ensures Serialize(tx, false) == Serialize(Stripped(tx), true)
  {
    hide WriteMany, WriteCompact, Le32;
    WriteBare(tx.vin);
  }

  /** One zero byte before an even flag byte is no transaction. */
  lemma EvenFlagRejected(d: seq<byte>)
    requires |d| >= 10 && d[4] == 0 && d[5] % 2 == 0
    ensures ReadTx(d) == Fail("invalid transaction")
  {
    hide ReadLists, ReadWord32;
    WordPrefix(d);
  }
  /** More bytes after a transaction are left over, nothing else. */
  lemma Extended(d: seq<byte>, more: seq<byte>)
    requires ReadTx(d).Got?
    ensures ReadTx(d + more) == Got(ReadTx(d).value, ReadTx(d).rest + more)
  {
    hide ReadTx, Serialize, Sized, Parseable;
    var tx, rest := ReadTx(d).value, ReadTx(d).rest;
    ParseCanonical(d);
    ReadIsParseable(d);
    RoundTripIff(tx, rest + more);
    assert Serialize(tx, true) + (rest + more) == FlagNormalised(d) + more;
    if d[4] == 0 {
      if d[5] % 2 == 0 {
        EvenFlagRejected(d);
      }
      AnyOddFlag(d + more, 1);
      assert (d + more)[5 := 1] == d[5 := 1] + more;
    }
  }

  /** No accepted transaction is a proper prefix of another: a byte too many or too few and parsing fails. */
  lemma PrefixFree(d: seq<byte>, k: nat, more: seq<byte>)
    requires ParseWhole(d).Ok? && k < |d| && more != []
    ensures ParseWhole(d + more) == Err("invalid transaction") && ParseWhole(d[..k]).Err?
  {
    hide ReadTx;
    Extended(d, more);
    assert d == d[..k] + d[k..];
    if ParseWhole(d[..k]).Ok? {
      Extended(d[..k], d[k..]);
    }
  }
}
