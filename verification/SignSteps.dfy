/** The size estimate, the digests and the signing loop, step by step, against the functions they compute. */
module SignSteps {
  import opened Bytes
  import opened Wire
  import opened Transaction
  import opened TxCodec
  import opened Sign

  /** Sizes of vectors in memory. */
  predicate FitsMemory(utxos: seq<Utxo>, dest: seq<byte>) {
    |utxos| < TWO_64 && |dest| < TWO_64 && forall u :: u in utxos ==> |u.script| < TWO_64
  }

  predicate Small(i: TxIn) { |i.scriptSig| <= 160 && |i.stack| <= 2 && forall b :: b in i.stack ==> |b| <= 80 }

  method MakeSkeleton(utxos: seq<Utxo>, dest: seq<byte>, sats: int64, locktime: uint32, segwit: bool) returns (tx: Tx)
    ensures tx == Skeleton(utxos, dest, sats, locktime, segwit)
  {
    var vin: seq<TxIn> := [];
    for i := 0 to |utxos|
      invariant |vin| == i && forall k :: 0 <= k < i ==> vin[k] == Unsigned(utxos[k])
    {
      vin := vin + [Unsigned(utxos[i])];
    }
    tx := Tx(2, segwit, vin, [TxOut(sats, dest)], locktime);
  }

  /** Each input is overwritten in place. */
  method FillDummy(tx: Tx, style: Style, pk: PubkeyBytes) returns (r: Tx)
    ensures r == Filled(tx, style, pk)
  {
    r := tx;
    for i := 0 to |tx.vin|
      invariant |r.vin| == |tx.vin| && r == tx.(vin := r.vin)
      invariant forall k :: 0 <= k < i ==> r.vin[k] == WithDummy(style, tx.vin[k], pk)
      invariant forall k :: i <= k < |tx.vin| ==> r.vin[k] == tx.vin[k]
    {
      var input := r.vin[i];
      if style == P2pkh {
        var a := [73] + DUMMY_ECDSA;
        var b := [|pk|] + pk;
        input := input.(scriptSig := a + b, stack := []);
      } else if style == P2wpkh {
        input := input.(scriptSig := [], stack := [DUMMY_ECDSA, pk]);
      } else {
        input := input.(scriptSig := [], stack := [DUMMY_SCHNORR]);
      }
      r := r.(vin := r.vin[i := input]);
    }
  }

  method TxVsize(tx: Tx) returns (size: nat)
    requires Sized(tx)
    ensures size == Vsize(tx)
  {
    hide Serialize, Sized;
    var base := SerializeTx(tx, false);
    if !tx.hasWitness {
      return |base|;
    }
    var full := SerializeTx(tx, true);
    var weight := |base| * 3 + |full|;
    return (weight + 3) / 4;
  }

  method EstimateSweepVsize(style: Style, pk: PubkeyBytes, n: nat, dest: seq<byte>) returns (size: nat)
    requires n < TWO_64 && |dest| < TWO_64
    ensures size == Estimate(style, pk, n, dest)
  {
    hide Vsize, Sized, WithDummy;
    if n == 0 {
      return 0;
    }
    var tx := MakeSkeleton(Repeat(BLANK, n), dest, 0, 0, style != P2pkh);
    var skeleton := tx;
    tx := FillDummy(tx, style, pk);
    forall i | 0 <= i < n ensures Small(tx.vin[i]) { DummySmall(style, skeleton.vin[i], pk); }
    SmallFits(tx);
    size := TxVsize(tx);
  }

  lemma DummySmall(style: Style, input: TxIn, pk: PubkeyBytes)
    requires input.scriptSig == []
    ensures Small(WithDummy(style, input, pk))
  {
  }

  lemma CompletedSmall(style: Style, input: TxIn, sig: seq<byte>, pk: seq<byte>)
    requires Completed(style, input, sig, pk).Ok? && Small(input) && |sig| <= 80 && |pk| <= 80
    ensures Small(Completed(style, input, sig, pk).value)
  {
  }

  lemma SmallFits(tx: Tx)
    requires |tx.vin| < TWO_64 && |tx.vout| == 1 && |tx.vout[0].script| < TWO_64
    requires forall k :: 0 <= k < |tx.vin| ==> Small(tx.vin[k])
    ensures Sized(tx)
  {
  }

  lemma InProgressFits(tx: Tx, utxos: seq<Utxo>, dest: seq<byte>)
    requires FitsMemory(utxos, dest) && |tx.vin| == |utxos| && |tx.vout| == 1 && tx.vout[0].script == dest
    requires forall k :: 0 <= k < |tx.vin| ==> Small(tx.vin[k])
    ensures Sized(tx)
    ensures forall u :: u in utxos ==> |u.script| < TWO_64
  {
    hide Small, Sized;
    SmallFits(tx);
  }

  // ----- Digests -----

  method PushOutputs(o: Sink, vout: seq<TxOut>)
    requires forall out :: out in vout ==> SizedOut(out)
    modifies o
    ensures o.out == old(o.out) + WriteMany(WriteTxOut, vout)
  {
    hide WriteMany, WriteBlob, Le;
    NoneWritten(WriteTxOut, vout);
    for i := 0 to |vout|
      invariant o.out == old(o.out) + WriteMany(WriteTxOut, vout[..i])
    {
      ManySnoc(WriteTxOut, vout, i);
      assert vout[i] in vout;
      o.PushLe(AsUint64(vout[i].value), 8);
      o.PushBlob(vout[i].script);
    }
    assert vout[..|vout|] == vout;
  }

  method PushCoveredInput(pre: Sink, input: TxIn, signed: bool, code: seq<byte>)
    requires |code| < TWO_64
    modifies pre
    ensures pre.out == old(pre.out) + WriteTxIn(input.(scriptSig := if signed then code else []))
  {
    hide WriteCompact, Le;
    pre.Insert(input.prevTxid);
    pre.PushLe(input.prevVout, 4);
    if signed {
      pre.PushBlob(code);
    } else {
      pre.PushCompact(0);
    }
    pre.PushLe(input.sequence, 4);
  }

  method PushCoveredInputs(pre: Sink, tx: Tx, index: nat, code: seq<byte>)
    requires |tx.vin| < TWO_64 && |code| < TWO_64
    modifies pre
    ensures pre.out == old(pre.out) + WriteCounted(WriteTxIn, OnlyCode(tx, index, code).vin)
  {
    hide WriteMany, WriteCompact, WriteTxIn;
    ghost var covered := OnlyCode(tx, index, code).vin;
    pre.PushCompact(|tx.vin|);
    label Inputs:
    NoneWritten(WriteTxIn, covered);
    for i := 0 to |tx.vin|
      invariant pre.out == old@Inputs(pre.out) + WriteMany(WriteTxIn, covered[..i])
    {
      ManySnoc(WriteTxIn, covered, i);
      PushCoveredInput(pre, tx.vin[i], i == index, code);
    }
    assert covered[..|tx.vin|] == covered;
  }

  method SighashLegacy(c: Crypto, tx: Tx, index: nat, code: seq<byte>) returns (r: Result<Hash256>)
    requires Sized(tx) && |code| < TWO_64
    ensures r == LegacyDigest(c, tx, index, code)
  {
    hide WriteMany, WriteCompact, Le, SizedOut, SizedIn, AsUint32;
    if index >= |tx.vin| {
      return Err(NOT_SIGNED);
    }
    ghost var covered := OnlyCode(tx, index, code);
    var pre := new Sink();
    pre.PushLe(AsUint32(tx.version), 4);
    PushCoveredInputs(pre, tx, index, code);
    pre.PushCompact(|tx.vout|);
    PushOutputs(pre, tx.vout);
    pre.PushLe(tx.locktime, 4);
    assert pre.out == Serialize(covered, false);
    pre.PushLe(SIGHASH_ALL, 4);
    return Ok(c.hash256(pre.out));
  }

  /** The two per-input lists both segwit digests hash. */
  method PrevoutsAndSequences(vin: seq<TxIn>) returns (prevouts: seq<byte>, sequences: seq<byte>)
    ensures prevouts == WriteMany(WritePrevout, vin) && sequences == WriteMany(WriteSequence, vin)
  {
    hide WriteMany, Le;
    var p := new Sink();
    var s := new Sink();
    NoneWritten(WritePrevout, vin);
    NoneWritten(WriteSequence, vin);
    for i := 0 to |vin|
      invariant p != s && fresh(p) && fresh(s)
      invariant p.out == WriteMany(WritePrevout, vin[..i]) && s.out == WriteMany(WriteSequence, vin[..i])
    {
      ManySnoc(WritePrevout, vin, i);
      ManySnoc(WriteSequence, vin, i);
      p.Insert(vin[i].prevTxid);
      p.PushLe(vin[i].prevVout, 4);
      s.PushLe(vin[i].sequence, 4);
    }
    assert vin[..|vin|] == vin;
    prevouts, sequences := p.out, s.out;
  }

  method OutputBytes(vout: seq<TxOut>) returns (outputs: seq<byte>)
    requires forall out :: out in vout ==> SizedOut(out)
    ensures outputs == WriteMany(WriteTxOut, vout)
  {
    hide WriteMany, SizedOut;
    var o := new Sink();
    PushOutputs(o, vout);
    outputs := o.out;
  }

  method PushBip143Head(pre: Sink, c: Crypto, tx: Tx, input: TxIn, code: seq<byte>, prevouts: seq<byte>,
                        sequences: seq<byte>)
    requires |code| < TWO_64
    requires prevouts == WriteMany(WritePrevout, tx.vin) && sequences == WriteMany(WriteSequence, tx.vin)
    modifies pre
    ensures pre.out == old(pre.out) + Bip143Head(c, tx, input, code)
  {
    hide WriteMany, Le, AsUint32, WriteBlob;
    pre.PushLe(AsUint32(tx.version), 4);
    pre.Insert(c.hash256(prevouts));
    pre.Insert(c.hash256(sequences));
    pre.Insert(input.prevTxid);
    pre.PushLe(input.prevVout, 4);
    pre.PushBlob(code);
  }

  method PushBip143Tail(pre: Sink, c: Crypto, tx: Tx, input: TxIn, amount: int64, outputs: seq<byte>)
    requires outputs == WriteMany(WriteTxOut, tx.vout)
    modifies pre
    ensures pre.out == old(pre.out) + Bip143Tail(c, tx, input, amount)
  {
    hide WriteMany, Le, AsUint64;
    pre.PushLe(AsUint64(amount), 8);
    pre.PushLe(input.sequence, 4);
    pre.Insert(c.hash256(outputs));
    pre.PushLe(tx.locktime, 4);
    pre.PushLe(SIGHASH_ALL, 4);
  }

  method SighashBip143(c: Crypto, tx: Tx, index: nat, code: seq<byte>, amount: int64) returns (r: Result<Hash256>)
    requires Sized(tx) && |code| < TWO_64
    ensures r == Bip143Digest(c, tx, index, code, amount)
  {
    hide WriteMany, SizedOut, SizedIn, Bip143Head, Bip143Tail;
    if index >= |tx.vin| {
      return Err(NOT_SIGNED);
    }
    var prevouts, sequences := PrevoutsAndSequences(tx.vin);
    var outputs := OutputBytes(tx.vout);
    var pre := new Sink();
    PushBip143Head(pre, c, tx, tx.vin[index], code, prevouts, sequences);
    PushBip143Tail(pre, c, tx, tx.vin[index], amount, outputs);
    assert pre.out == Bip143Head(c, tx, tx.vin[index], code) + Bip143Tail(c, tx, tx.vin[index], amount);
    return Ok(c.hash256(pre.out));
  }

  method PushTaprootHead(data: Sink, c: Crypto, tx: Tx, utxos: seq<Utxo>, prevouts: seq<byte>, amounts: seq<byte>)
    requires prevouts == WriteMany(WritePrevout, tx.vin) && amounts == WriteMany(WriteAmount, utxos)
    modifies data
    ensures data.out == old(data.out) + TaprootHead(c, tx, utxos)
  {
    hide WriteMany, Le, AsUint32;
    data.Insert([0x00]);
    data.Insert([0x00]);
    data.PushLe(AsUint32(tx.version), 4);
    data.PushLe(tx.locktime, 4);
    data.Insert(c.sha256(prevouts));
    data.Insert(c.sha256(amounts));
  }

  method PushTaprootTail(data: Sink, c: Crypto, tx: Tx, utxos: seq<Utxo>, index: nat, scripts: seq<byte>,
                         sequences: seq<byte>, outputs: seq<byte>)
    requires scripts == WriteMany(WriteScript, utxos) && sequences == WriteMany(WriteSequence, tx.vin)
    requires outputs == WriteMany(WriteTxOut, tx.vout)
    modifies data
    ensures data.out == old(data.out) + TaprootTail(c, tx, utxos, index)
  {
    hide WriteMany, Le;
    data.Insert(c.sha256(scripts));
    data.Insert(c.sha256(sequences));
    data.Insert(c.sha256(outputs));
    data.Insert([0x00]);
    data.PushLe(index % 0x1_0000_0000, 4);
  }

  method SighashTaproot(c: Crypto, tx: Tx, index: nat, utxos: seq<Utxo>) returns (r: Result<Hash256>)
    requires Sized(tx) && forall u :: u in utxos ==> |u.script| < TWO_64
    ensures r == TaprootDigest(c, tx, index, utxos)
  {
    hide WriteMany, SizedOut, SizedIn, TaprootHead, TaprootTail;
    if index >= |tx.vin| || |utxos| != |tx.vin| {
      return Err(NOT_SIGNED);
    }
    var prevouts, sequences := PrevoutsAndSequences(tx.vin);
    var amounts, scripts := AmountsAndScripts(utxos);
    var outputs := OutputBytes(tx.vout);
    var data := new Sink();
    PushTaprootHead(data, c, tx, utxos, prevouts, amounts);
    PushTaprootTail(data, c, tx, utxos, index, scripts, sequences, outputs);
    assert data.out == TaprootHead(c, tx, utxos) + TaprootTail(c, tx, utxos, index);
    return Ok(c.tapSighash(data.out));
  }

  method AmountsAndScripts(utxos: seq<Utxo>) returns (amounts: seq<byte>, scripts: seq<byte>)
    requires forall u :: u in utxos ==> |u.script| < TWO_64
    ensures amounts == WriteMany(WriteAmount, utxos) && scripts == WriteMany(WriteScript, utxos)
  {
    hide WriteMany, Le, WriteBlob;
    var a := new Sink();
    var s := new Sink();
    NoneWritten(WriteAmount, utxos);
    NoneWritten(WriteScript, utxos);
    for i := 0 to |utxos|
      invariant a != s && fresh(a) && fresh(s)
      invariant a.out == WriteMany(WriteAmount, utxos[..i]) && s.out == WriteMany(WriteScript, utxos[..i])
    {
      ManySnoc(WriteAmount, utxos, i);
      ManySnoc(WriteScript, utxos, i);
      assert utxos[i] in utxos;
      a.PushLe(utxos[i].amount, 8);
      s.PushBlob(utxos[i].script);
    }
    assert utxos[..|utxos|] == utxos;
    amounts, scripts := a.out, s.out;
  }

  method DigestOf(c: Crypto, style: Style, tx: Tx, utxos: seq<Utxo>, i: nat) returns (r: Result<Hash256>)
    requires i < |utxos| && Sized(tx) && forall u :: u in utxos ==> |u.script| < TWO_64
    ensures r == Digest(c, style, tx, utxos, i)
  {
    hide LegacyDigest, Bip143Digest, TaprootDigest, Sized;
    assert utxos[i] in utxos;
    match style {
      case P2pkh =>
        r := SighashLegacy(c, tx, i, utxos[i].script);
      case P2wpkh =>
        var code :- ScriptCode(utxos[i].script);
        r := SighashBip143(c, tx, i, code, AsInt64(utxos[i].amount));
      case P2tr =>
        r := SighashTaproot(c, tx, i, utxos);
    }
  }

  // ----- Signing -----

  method SignAt(c: Crypto, key: Key, style: Style, pk: PubkeyBytes, tx: Tx, utxos: seq<Utxo>, i: nat)
      returns (r: Result<TxIn>)
    requires i < |utxos| == |tx.vin| && Sized(tx) && forall u :: u in utxos ==> |u.script| < TWO_64
    requires Small(tx.vin[i])
    ensures r == SignInput(c, key, style, pk, tx, utxos, i)
    ensures r.Ok? ==> Small(r.value)
  {
    hide Sized, Digest, Completed, Signature, DummySig;
    var digest :- DigestOf(c, style, tx, utxos, i);
    var sig :- Signature(c, key, style, digest);
    r := Completed(style, tx.vin[i], sig, pk);
    if r.Ok? {
      SignatureShort(style);
      CompletedSmall(style, tx.vin[i], sig, pk);
    }
  }

  /** Signs input after input on the transaction being filled in, as the source does. */
  method SignSweep(c: Crypto, key: Key, style: Style, utxos: seq<Utxo>, dest: seq<byte>, sats: int64, locktime: uint32)
      returns (r: Result<Tx>)
    requires FitsMemory(utxos, dest)
    ensures r == SweepTx(c, key, style, utxos, dest, sats, locktime)
  {
    hide FitsMemory, Sized, SignFirst, SignInput, Skeleton, Small;
    if utxos == [] {
      return Err("no unspent outputs");
    }
    var pk :- c.pubkey(key);
    var tx := MakeSkeleton(utxos, dest, sats, locktime, style != P2pkh);
    ghost var skeleton, n := tx, |utxos|;
    SkeletonSmall(utxos, dest, sats, locktime, style != P2pkh);
    SignNone(c, key, style, pk, skeleton, utxos);
    for i := 0 to |utxos|
      invariant |tx.vin| == n && tx == skeleton.(vin := tx.vin) && SameOutline(tx, skeleton)
      invariant SignFirst(c, key, style, pk, skeleton, utxos, i) == Ok(tx.vin[..i])
      invariant tx.vin[i..] == skeleton.vin[i..]
      invariant forall k :: 0 <= k < n ==> Small(tx.vin[k])
    {
      InProgressFits(tx, utxos, dest);
      assert tx.vin[i] == skeleton.vin[i];
      SignInputSame(c, key, style, pk, tx, skeleton, utxos, i);
      SignOne(c, key, style, pk, skeleton, utxos, i);
      var input :- SignAt(c, key, style, pk, tx, utxos, i);
      ghost var before := tx.vin;
      tx := tx.(vin := tx.vin[i := input]);
      assert tx.vin[..i + 1] == before[..i] + [input];
      assert tx.vin[i + 1..] == before[i..][1..];
    }
    assert tx.vin[..n] == tx.vin;
    return Ok(tx);
  }

  lemma SkeletonSmall(utxos: seq<Utxo>, dest: seq<byte>, sats: int64, locktime: uint32, segwit: bool)
    ensures var tx := Skeleton(utxos, dest, sats, locktime, segwit);
      && tx.vout == [TxOut(sats, dest)] && |tx.vin| == |utxos|
      && forall k :: 0 <= k < |tx.vin| ==> Small(tx.vin[k])
  {
  }

  lemma SignatureShort(style: Style)
    ensures |DummySig(style)| <= 73
  {
  }
}
