/** From a block to its effects on the index: which outpoints are spent, which addresses are credited. */
module Indexer {
  import opened Bytes
  import opened Radix
  import opened Transaction
  import opened Wire
  import opened Blocks
  import opened Utxo
  import opened BalanceDbs
  import Base58
  import BitGroups
  import Bech32
  import Segwit
  import Script

  // The hash functions are parameters.
  datatype Hashes = Hashes(hash256: Hasher, hash160: Hasher160)

  /** The characters of an address as the bytes of a std::string. */
  function AddressBytes(s: string): (a: Address)
    ensures |a| == |s|
  {
    seq(|s|, i requires 0 <= i < |s| => s[i] as int % 0x100)
  }

  function Txid(h: Hashes, tx: Tx): Hash256 { h.hash256(Serialize(tx, false)) }

  function BlockHash(h: Hashes, b: Block): Hash256 { h.hash256(WriteHeader(b.header)) }

  predicate NullPrevout(i: TxIn) { forall k :: 0 <= k < 32 ==> i.prevTxid[k] == 0 }

  /** The address an output credits, if it pays something and its script stands for an address. */
  function PaidAddress(h: Hashes, o: TxOut): Option<Address> {
    if o.value <= 0 then None
    else match Script.AddressFromScript(h.hash256, h.hash160, o.script)
      case Ok(Some(a)) => Some(AddressBytes(a))
      case _ => None
  }

  function SpendsOf(vin: seq<TxIn>): seq<Outpoint> {
    if vin == [] then []
    else
      var i := vin[|vin| - 1];
      SpendsOf(vin[..|vin| - 1]) + (if NullPrevout(i) then [] else [Outpoint(i.prevTxid, i.prevVout)])
  }

  function CreditsOf(h: Hashes, id: Hash256, vout: seq<TxOut>): seq<Credit>
    requires |vout| < 0x1_0000_0000
  {
    if vout == [] then []
    else
      var n := |vout| - 1;
      CreditsOf(h, id, vout[..n]) + CreditOfOutput(h, Outpoint(id, n), vout[n])
  }

  function CreditOfOutput(h: Hashes, op: Outpoint, o: TxOut): seq<Credit> {
    match PaidAddress(h, o)
    case None => []
    case Some(a) => [Credit(op, a, o.value)]
  }

  /** The output index is a uint32 in the loop, so a transaction has fewer than 2^32 outputs. */
  predicate Indexable(b: Block) { forall tx :: tx in b.txs ==> |tx.vout| < 0x1_0000_0000 }

  function EffectsOfTx(h: Hashes, tx: Tx): TxEffects
    requires |tx.vout| < 0x1_0000_0000
  {
    TxEffects(SpendsOf(tx.vin), CreditsOf(h, Txid(h, tx), tx.vout))
  }

  function EffectsOfBlock(h: Hashes, b: Block, height: uint32): BlockEffects
    requires Indexable(b)
  {
    BlockEffects(height, b.header.time, BlockHash(h, b),
                 seq(|b.txs|, i requires 0 <= i < |b.txs| => assert b.txs[i] in b.txs; EffectsOfTx(h, b.txs[i])))
  }

  method TxEffectsFrom(h: Hashes, tx: Tx) returns (te: TxEffects)
    requires |tx.vout| < 0x1_0000_0000
    ensures te == EffectsOfTx(h, tx)
  {
    hide NullPrevout, PaidAddress, Txid;
    var id := Txid(h, tx);
    var spends: seq<Outpoint> := [];
    for k := 0 to |tx.vin|
      invariant spends == SpendsOf(tx.vin[..k])
    {
      assert tx.vin[..k + 1][..k] == tx.vin[..k];
      if NullPrevout(tx.vin[k]) {
        continue;
      }
      spends := spends + [Outpoint(tx.vin[k].prevTxid, tx.vin[k].prevVout)];
    }
    var credits: seq<Credit> := [];
    for i := 0 to |tx.vout|
      invariant credits == CreditsOf(h, id, tx.vout[..i])
    {
      assert tx.vout[..i + 1][..i] == tx.vout[..i];
      var out := tx.vout[i];
      ghost var op := Outpoint(id, i);
      ghost var before := credits;
      AddressCases(h, out);
      if out.value <= 0 {
        assert CreditOfOutput(h, op, out) == [];
        continue;
      }
      var addr := Script.AddressFromScript(h.hash256, h.hash160, out.script);
      if addr.Err? || addr.value.None? {
        assert CreditOfOutput(h, op, out) == [];
        continue;
      }
      credits := credits + [Credit(Outpoint(id, i), AddressBytes(addr.value.value), out.value)];
    }
    assert tx.vin[..|tx.vin|] == tx.vin && tx.vout[..|tx.vout|] == tx.vout;
    te := TxEffects(spends, credits);
  }

  lemma AddressCases(h: Hashes, o: TxOut)
    ensures var a := Script.AddressFromScript(h.hash256, h.hash160, o.script);
      PaidAddress(h, o) == if o.value <= 0 || a.Err? || a.value.None? then None else Some(AddressBytes(a.value.value))
  {
  }

  method EffectsFromBlock(h: Hashes, b: Block, height: uint32) returns (fx: BlockEffects)
    requires Indexable(b)
    ensures fx == EffectsOfBlock(h, b, height)
  {
    hide EffectsOfTx, BlockHash;
    var txs: seq<TxEffects> := [];
    ghost var whole := EffectsOfBlock(h, b, height).txs;
    for i := 0 to |b.txs|
      invariant |txs| == i && txs == whole[..i]
    {
      assert b.txs[i] in b.txs;
      assert whole[i] == EffectsOfTx(h, b.txs[i]);
      var te := TxEffectsFrom(h, b.txs[i]);
      txs := txs + [te];
    }
    fx := BlockEffects(height, b.header.time, BlockHash(h, b), txs);
  }

  // ----- What the effects are -----

  /** Spends are exactly the prevouts whose transaction id is not all zero (a coinbase spends nothing). */
  lemma {:induction false} SpendsExactly(vin: seq<TxIn>, op: Outpoint)
    ensures op in SpendsOf(vin) <==>
      exists k :: 0 <= k < |vin| && !NullPrevout(vin[k]) && op == Outpoint(vin[k].prevTxid, vin[k].prevVout)
  {
    hide NullPrevout;
    if vin != [] {
      var n := |vin| - 1;
      SpendsExactly(vin[..n], op);
      if op in SpendsOf(vin[..n]) {
        var k :| 0 <= k < n && !NullPrevout(vin[..n][k]) && op == Outpoint(vin[..n][k].prevTxid, vin[..n][k].prevVout);
        assert vin[k] == vin[..n][k];
      }
      if k :| 0 <= k < |vin| && !NullPrevout(vin[k]) && op == Outpoint(vin[k].prevTxid, vin[k].prevVout) {
        if k < n {
          assert vin[..n][k] == vin[k];
        }
      }
    }
  }

  /** Credits are exactly the outputs that pay an address, each under its own index and full value. */
  lemma {:induction false} CreditsExactly(h: Hashes, id: Hash256, vout: seq<TxOut>, c: Credit)
    requires |vout| < 0x1_0000_0000
    ensures c in CreditsOf(h, id, vout) <==>
      && c.op.txid == id && c.op.vout < |vout|
      && PaidAddress(h, vout[c.op.vout]) == Some(c.addr) && c.amount == vout[c.op.vout].value
  {
    hide PaidAddress;
    if vout != [] {
      var n := |vout| - 1;
      CreditsExactly(h, id, vout[..n], c);
      if c.op.vout < n {
        assert vout[..n][c.op.vout] == vout[c.op.vout];
      }
    }
  }

  /** No outpoint is credited twice by one transaction. */
  lemma {:induction false} CreditsDistinct(h: Hashes, id: Hash256, vout: seq<TxOut>)
    requires |vout| < 0x1_0000_0000
    ensures var cs := CreditsOf(h, id, vout); forall i, j :: 0 <= i < j < |cs| ==> cs[i].op.vout < cs[j].op.vout
  {
    hide PaidAddress;
    if vout != [] {
      var n := |vout| - 1;
      var init := CreditsOf(h, id, vout[..n]);
      CreditsDistinct(h, id, vout[..n]);
      forall i | 0 <= i < |init| ensures init[i].op.vout < n {
        CreditsExactly(h, id, vout[..n], init[i]);
      }
      var cs := CreditsOf(h, id, vout);
      assert cs == init + CreditOfOutput(h, Outpoint(id, n), vout[n]);
      forall i, j | 0 <= i < j < |cs| ensures cs[i].op.vout < cs[j].op.vout {
        assert cs[i] == init[i];
        if j < |init| {
          assert cs[j] == init[j];
        }
      }
    }
  }

  // ----- Addresses are short and not empty -----

  lemma CheckedTextShort(hash256: Hasher, payload: seq<byte>)
    requires |payload| == 21
    ensures |Base58.CheckEncode(hash256, payload)| <= 61
  {
    hide Pow, Value, Digits;
    var data := payload + hash256(payload)[..4];
    ValueBound(data, 256);
    Base58.EncodeBufferSuffices(25);
    DigitsFit(Value(data, 256), 58, 36);
  }

  lemma AddressShape(h: Hashes, o: TxOut)
    ensures PaidAddress(h, o).Some? ==> 0 < |PaidAddress(h, o).value| <= 90
  {
    hide Base58.CheckEncode, Segwit.Encode;
    var s := o.script;
    var hash: Hash160 :=
      if Script.IsP2pkh(s) then s[3..23] else if Script.IsP2sh(s) then s[2..22]
      else if Script.IsP2pkCompressed(s) then h.hash160(s[1..34])
      else if Script.IsP2pkUncompressed(s) then h.hash160(s[1..66]) else Repeat(0, 20);
    forall version: byte ensures 0 < |Base58.CheckEncode(h.hash256, [version] + hash)| <= 61 {
      CheckedTextShort(h.hash256, [version] + hash);
      Script.CheckedTextNotEmpty(h.hash256, [version] + hash);
    }
    SegwitTextShape(0, s);
    SegwitTextShape(1, s);
  }

  lemma SegwitTextShape(version: int, s: seq<byte>)
    ensures |s| >= 2 && Segwit.Encode("bc", version, s[2..]).Ok? ==> 0 < |Segwit.Encode("bc", version, s[2..]).value| <= 90
  {
    hide Bech32.ChecksumOf;
  }

  /** The guards in apply never drop a credit the indexer made, and every address is a short string. */
  lemma CreditsCounted(h: Hashes, id: Hash256, vout: seq<TxOut>)
    requires |vout| < 0x1_0000_0000
    ensures forall c :: c in CreditsOf(h, id, vout) ==> Counted(c) && FitsCredit(c)
  {
    hide PaidAddress;
    forall c | c in CreditsOf(h, id, vout) ensures Counted(c) && FitsCredit(c) {
      CreditsExactly(h, id, vout, c);
      AddressShape(h, vout[c.op.vout]);
      ValuePositive(h, vout[c.op.vout]);
    }
  }

  lemma ValuePositive(h: Hashes, o: TxOut)
    ensures PaidAddress(h, o).Some? ==> o.value > 0
  {
  }

  lemma EffectsFit(h: Hashes, b: Block, height: uint32)
    requires Indexable(b)
    ensures Fits(EffectsOfBlock(h, b, height))
  {
    hide CreditsOf, FitsCredit;
    var fx := EffectsOfBlock(h, b, height);
    forall te | te in fx.txs ensures forall c :: c in te.credits ==> FitsCredit(c) {
      var i :| 0 <= i < |b.txs| && fx.txs[i] == te;
      assert b.txs[i] in b.txs;
      CreditsCounted(h, Txid(h, b.txs[i]), b.txs[i].vout);
    }
  }

  // ----- Identity of transactions and blocks -----

  lemma {:induction false} SpendsIgnoreWitness(vin: seq<TxIn>)
    ensures SpendsOf(Bare(vin)) == SpendsOf(vin)
  {
    hide NullPrevout;
    if vin != [] {
      var n := |vin| - 1;
      SpendsIgnoreWitness(vin[..n]);
      assert Bare(vin)[..n] == Bare(vin[..n]);
      SameNull(Bare(vin)[n], vin[n]);
    }
  }

  lemma SameNull(a: TxIn, b: TxIn)
    requires a.prevTxid == b.prevTxid
    ensures NullPrevout(a) <==> NullPrevout(b)
  {
  }

  /** An all-zero transaction id marks a coinbase input, whatever its output index. */
  lemma NullPrevoutIff(i: TxIn)
    ensures NullPrevout(i) <==> i.prevTxid == Repeat(0, 32)
  {
  }

  /**
   * Effects do not depend on witness data: credits are filed under the hash of the witness-free serialization,
   * under which later inputs refer to them.
   */
  lemma EffectsIgnoreWitness(h: Hashes, tx: Tx)
    requires |tx.vout| < 0x1_0000_0000
    ensures EffectsOfTx(h, tx) == EffectsOfTx(h, Stripped(tx))
    ensures forall c :: c in EffectsOfTx(h, tx).credits ==> c.op.txid == h.hash256(Serialize(Stripped(tx), true))
  {
    hide Serialize, CreditsOf;
    StrippedSerialize(tx);
    StrippedSerialize(Stripped(tx));
    assert Stripped(Stripped(tx)) == Stripped(tx) by { assert Bare(Bare(tx.vin)) == Bare(tx.vin); }
    SpendsIgnoreWitness(tx.vin);
    forall c | c in EffectsOfTx(h, tx).credits ensures c.op.txid == h.hash256(Serialize(Stripped(tx), true)) {
      CreditsExactly(h, Txid(h, tx), tx.vout, c);
    }
  }

  /** The id of a transaction received without witness data is the hash of the bytes received. */
  lemma IdOfBytes(h: Hashes, d: seq<byte>)
    requires ParseWhole(d).Ok? && !ParseWhole(d).value.hasWitness
    ensures Txid(h, ParseWhole(d).value) == h.hash256(d)
  {
    hide ReadTx;
    ReproducedIff(d);
    var tx := ParseWhole(d).value;
    UnflaggedMarker(d);
    SerializeFlagless(tx);
  }

  lemma SerializeFlagless(tx: Tx)
    requires !tx.hasWitness
    ensures Serialize(tx, false) == Serialize(tx, true)
  {
  }

  lemma UnflaggedMarker(d: seq<byte>)
    requires ReadTx(d).Got? && !ReadTx(d).value.hasWitness
    ensures |d| >= 10 && d[4] != 0
  {
    hide ReadLists, ReadWord32;
    WordPrefix(d);
  }

  /** The effects of a received block: its height as told, its time field, the hash of its first 80 bytes. */
  lemma EffectsOfBytes(h: Hashes, d: seq<byte>, height: uint32)
    requires ParseBlock(d).Ok? && Indexable(ParseBlock(d).value)
    ensures |d| > 80
    ensures var b := ParseBlock(d).value;
      var fx := EffectsOfBlock(h, b, height);
      && fx.height == height && fx.hash == h.hash256(d[..80]) && fx.time == ReadLe32(d[68..72])
      && |fx.txs| == |b.txs|
      && forall k :: 0 <= k < |b.txs| ==> |b.txs[k].vout| < 0x1_0000_0000 && fx.txs[k] == EffectsOfTx(h, b.txs[k])
  {
    hide EffectsOfTx, WriteHeader, ReadLe32, ReadTx, ReadMany, ReadCompact;
    HeaderCanonical(d);
    assert forall k :: 0 <= k < |ParseBlock(d).value.txs| ==> ParseBlock(d).value.txs[k] in ParseBlock(d).value.txs;
  }

  // ----- Addresses as bytes -----

  /** Text of codes below 256 becomes those codes. */
  lemma AddressBytesExact(s: string, i: nat)
    requires i < |s| && s[i] as int < 0x100
    ensures AddressBytes(s)[i] == s[i] as int
  {
  }

  predicate Ascii(s: string) { forall i :: 0 <= i < |s| ==> s[i] as int < 0x80 }

  lemma Base58Ascii(hash256: Hasher, payload: seq<byte>)
    ensures Ascii(Base58.CheckEncode(hash256, payload))
  {
    hide Base58.Encode;
    var raw := payload + hash256(payload)[..4];
    Base58.EncodeDigits(raw);
    var s := Base58.Encode(raw);
    forall i | 0 <= i < |s| ensures s[i] as int < 0x80 { assert Base58.AlphabetValue(s[i]) >= 0; }
  }

  lemma SegwitAscii(version: int, program: seq<byte>)
    requires Segwit.Encode("bc", version, program).Ok?
    ensures Ascii(Segwit.Encode("bc", version, program).value)
  {
    hide Bech32.Encode, Bech32.Decode;
    var groups := BitGroups.Convert(program, 8, 5, true).value;
    Bech32.DecodeEncode("bc", [version] + groups, Segwit.VariantFor(version));
    DecodedAscii(Segwit.Encode("bc", version, program).value);
  }

  lemma DecodedAscii(s: string)
    requires Bech32.Decode(s).Some?
    ensures Ascii(s)
  {
  }

  /** An output is credited exactly when it has a positive value and its script an address, whose codes are the key. */
  lemma PaidIff(h: Hashes, o: TxOut, a: Address)
    ensures PaidAddress(h, o) == Some(a) <==>
      && o.value > 0
      && var s := Script.AddressFromScript(h.hash256, h.hash160, o.script);
         s.Ok? && s.value.Some? && |a| == |s.value.value|
         && forall i :: 0 <= i < |a| ==> a[i] == s.value.value[i] as int
  {
    hide Base58.CheckEncode, Segwit.Encode;
    var r := Script.AddressFromScript(h.hash256, h.hash160, o.script);
    AddressCases(h, o);
    if r.Ok? && r.value.Some? {
      AddressAscii(h, o.script);
      var s := r.value.value;
      forall i | 0 <= i < |s| ensures AddressBytes(s)[i] == s[i] as int { AddressBytesExact(s, i); }
      if |a| == |s| && forall i :: 0 <= i < |a| ==> a[i] == s[i] as int {
        assert a == AddressBytes(s);
      }
    }
  }

  lemma AddressAscii(h: Hashes, s: seq<byte>)
    ensures var r := Script.AddressFromScript(h.hash256, h.hash160, s); r.Ok? && r.value.Some? ==> Ascii(r.value.value)
  {
    hide Base58.CheckEncode, Segwit.Encode;
    forall payload ensures Ascii(Base58.CheckEncode(h.hash256, payload)) { Base58Ascii(h.hash256, payload); }
    if |s| >= 2 {
      if Segwit.Encode("bc", 0, s[2..]).Ok? { SegwitAscii(0, s[2..]); }
      if Segwit.Encode("bc", 1, s[2..]).Ok? { SegwitAscii(1, s[2..]); }
    }
  }

  /** Spends are taken input by input, in order, null ones skipped. */
  lemma {:induction false} SpendsConcat(a: seq<TxIn>, b: seq<TxIn>)
    ensures SpendsOf(a + b) == SpendsOf(a) + SpendsOf(b)
    ensures forall i :: SpendsOf([i]) == if i.prevTxid == Repeat(0, 32) then [] else [Outpoint(i.prevTxid, i.prevVout)]
  {
    hide NullPrevout;
    forall i ensures SpendsOf([i]) == if i.prevTxid == Repeat(0, 32) then [] else [Outpoint(i.prevTxid, i.prevVout)] {
      NullPrevoutIff(i);
      assert [i][..0] == [];
    }
    if b == [] {
      assert a + b == a;
    } else {
      var n := |b| - 1;
      SpendsConcat(a, b[..n]);
      assert (a + b)[..|a + b| - 1] == a + b[..n];
    }
  }
}
