/** What each signature digest commits to: equal preimages come from equal transactions. */
module Commitments {
  import opened Bytes
  import opened Wire
  import opened Transaction
  import opened Sign

  lemma Le32Injective(a: uint32, b: uint32)
    requires Le32(a) == Le32(b)
    ensures a == b
  {
    FixedWidth32(a, Le32(a));
    FixedWidth32(b, Le32(b));
  }

  lemma Le64Injective(a: uint64, b: uint64)
    requires Le64(a) == Le64(b)
    ensures a == b
  {
    FixedWidth64(a, Le64(a));
    FixedWidth64(b, Le64(b));
  }

  // ----- Legacy -----

  predicate SizedCover(tx: Tx, code: seq<byte>) { Sized(tx) && SizedBlob(code) }

  lemma StrippedFits(tx: Tx, index: nat, code: seq<byte>)
    requires SizedCover(tx, code) && index < |tx.vin|
    ensures var t := Stripped(OnlyCode(tx, index, code)); Sized(t) && Parseable(t)
  {
    var t := Stripped(OnlyCode(tx, index, code));
    forall i | i in t.vin ensures SizedIn(i) && i.stack == [] {
      var k :| 0 <= k < |t.vin| && t.vin[k] == i;
      assert tx.vin[k] in tx.vin;
    }
  }

  /**
   * The legacy preimage determines everything but signature data: equal preimages mean the same version,
   * inputs, sequences, outputs and lock time, and the same script code in the same place; and conversely.
   */
  lemma LegacyCommits(a: Tx, b: Tx, i: nat, j: nat, code: seq<byte>, code': seq<byte>)
    requires SizedCover(a, code) && SizedCover(b, code') && i < |a.vin| && j < |b.vin|
    ensures LegacyPreimage(a, i, code) == LegacyPreimage(b, j, code') ==>
      SameOutline(a, b) && code == code' && (code != [] ==> i == j)
    ensures SameOutline(a, b) && code == code' && i == j ==> LegacyPreimage(a, i, code) == LegacyPreimage(b, j, code')
  {
    if LegacyPreimage(a, i, code) == LegacyPreimage(b, j, code') {
      SamePrefix(Serialize(OnlyCode(a, i, code), false), Serialize(OnlyCode(b, j, code'), false), Le32(SIGHASH_ALL));
      LegacyUnique(a, b, i, j, code, code');
      CoverUnique(a, b, i, j, code, code');
    }
    if SameOutline(a, b) && code == code' && i == j {
      LegacySame(a, b, i, code);
    }
  }

  lemma SamePrefix(a: seq<byte>, b: seq<byte>, tail: seq<byte>)
    requires a + tail == b + tail
    ensures a == b
  {
    assert |a| == |b|;
    assert (a + tail)[..|a|] == a && (b + tail)[..|b|] == b;
  }

  lemma LegacyUnique(a: Tx, b: Tx, i: nat, j: nat, code: seq<byte>, code': seq<byte>)
    requires SizedCover(a, code) && SizedCover(b, code') && i < |a.vin| && j < |b.vin|
    requires Serialize(OnlyCode(a, i, code), false) == Serialize(OnlyCode(b, j, code'), false)
    ensures Stripped(OnlyCode(a, i, code)) == Stripped(OnlyCode(b, j, code'))
  {
    hide Serialize, Sized, Parseable, ReadTx, OnlyCode, Stripped, SizedCover;
    var x, y := Stripped(OnlyCode(a, i, code)), Stripped(OnlyCode(b, j, code'));
    StrippedFits(a, i, code);
    StrippedFits(b, j, code');
    StrippedSerialize(OnlyCode(a, i, code));
    StrippedSerialize(OnlyCode(b, j, code'));
    RoundTripIff(x, []);
    RoundTripIff(y, []);
  }

  lemma CoverUnique(a: Tx, b: Tx, i: nat, j: nat, code: seq<byte>, code': seq<byte>)
    requires i < |a.vin| && j < |b.vin|
    requires Stripped(OnlyCode(a, i, code)) == Stripped(OnlyCode(b, j, code'))
    ensures SameOutline(a, b) && code == code' && (code != [] ==> i == j)
  {
    var x, y := Stripped(OnlyCode(a, i, code)), Stripped(OnlyCode(b, j, code'));
    assert |x.vin| == |y.vin|;
    forall k | 0 <= k < |a.vin|
      ensures a.vin[k].prevTxid == b.vin[k].prevTxid && a.vin[k].prevVout == b.vin[k].prevVout
      ensures a.vin[k].sequence == b.vin[k].sequence
    {
      assert x.vin[k] == y.vin[k];
    }
    assert x.vin[i].scriptSig == code && y.vin[j].scriptSig == code';
    assert x.vin[i] == y.vin[i] && x.vin[j] == y.vin[j];
    if i != j {
      assert y.vin[i].scriptSig == [] && x.vin[j].scriptSig == [];
    }
  }

  // ----- BIP-143 -----

  lemma Bip143Fields(c: Crypto, tx: Tx, input: TxIn, code: seq<byte>, amount: int64)
    requires |code| < TWO_64
    ensures var p := Bip143Preimage(c, tx, input, code, amount);
      && |p| >= 104 && p[..4] == Le32(AsUint32(tx.version))
      && p[4..36] == c.hash256(WriteMany(WritePrevout, tx.vin)) && p[36..68] == c.hash256(WriteMany(WriteSequence, tx.vin))
      && p[68..100] == input.prevTxid && p[100..104] == Le32(input.prevVout)
      && ReadBlob(p[104..]) == Got(code, Bip143Tail(c, tx, input, amount))
  {
    hide WriteMany, Le32, Bip143Tail, ReadBlob, WriteBlob, AsUint32;
    var p := Bip143Preimage(c, tx, input, code, amount);
    BlobReads(code);
    assert p[104..] == WriteBlob(code) + Bip143Tail(c, tx, input, amount);
  }

  lemma Bip143TailFields(c: Crypto, tx: Tx, input: TxIn, amount: int64)
    ensures var t := Bip143Tail(c, tx, input, amount);
      && |t| == 52 && t[..8] == Le64(AsUint64(amount)) && t[8..12] == Le32(input.sequence)
      && t[12..44] == c.hash256(WriteMany(WriteTxOut, tx.vout)) && t[44..48] == Le32(tx.locktime)
  {
    hide WriteMany, Le32, Le64, AsUint64;
  }

  /** The BIP-143 preimage determines every field it should cover, lists through their hashes. */
  lemma Bip143Commits(c: Crypto, a: Tx, b: Tx, x: TxIn, y: TxIn, code: seq<byte>, code': seq<byte>,
                      amount: int64, amount': int64)
    requires |code| < TWO_64 && |code'| < TWO_64
    requires Bip143Preimage(c, a, x, code, amount) == Bip143Preimage(c, b, y, code', amount')
    ensures a.version == b.version && a.locktime == b.locktime
    ensures x.prevTxid == y.prevTxid && x.prevVout == y.prevVout && x.sequence == y.sequence
    ensures code == code' && amount == amount'
    ensures c.hash256(WriteMany(WritePrevout, a.vin)) == c.hash256(WriteMany(WritePrevout, b.vin))
    ensures c.hash256(WriteMany(WriteSequence, a.vin)) == c.hash256(WriteMany(WriteSequence, b.vin))
    ensures c.hash256(WriteMany(WriteTxOut, a.vout)) == c.hash256(WriteMany(WriteTxOut, b.vout))
  {
    hide WriteMany, Le32, Le64, Bip143Tail, Bip143Preimage, ReadBlob, AsUint32, AsUint64;
    Bip143Fields(c, a, x, code, amount);
    Bip143Fields(c, b, y, code', amount');
    Bip143TailFields(c, a, x, amount);
    Bip143TailFields(c, b, y, amount');
    Le32Injective(AsUint32(a.version), AsUint32(b.version));
    CastsInverse(a.version, 0, amount, 0);
    CastsInverse(b.version, 0, amount', 0);
    Le32Injective(x.prevVout, y.prevVout);
    Le64Injective(AsUint64(amount), AsUint64(amount'));
    Le32Injective(x.sequence, y.sequence);
    Le32Injective(a.locktime, b.locktime);
  }

  // ----- BIP-341 -----

  lemma TaprootFields(c: Crypto, tx: Tx, utxos: seq<Utxo>, index: nat)
    requires index < 0x1_0000_0000
    ensures var p := TaprootPreimage(c, tx, utxos, index);
      && |p| == 175 && p[2..6] == Le32(AsUint32(tx.version)) && p[6..10] == Le32(tx.locktime)
      && p[10..42] == c.sha256(WriteMany(WritePrevout, tx.vin)) && p[42..74] == c.sha256(WriteMany(WriteAmount, utxos))
      && p[74..106] == c.sha256(WriteMany(WriteScript, utxos)) && p[106..138] == c.sha256(WriteMany(WriteSequence, tx.vin))
      && p[138..170] == c.sha256(WriteMany(WriteTxOut, tx.vout)) && p[171..175] == Le32(index)
  {
    hide WriteMany, Le32, AsUint32;
    var h, t := TaprootHead(c, tx, utxos), TaprootTail(c, tx, utxos, index);
    var p := TaprootPreimage(c, tx, utxos, index);
    assert |h| == 74 && |t| == 101;
    assert p[..74] == h && p[74..] == t;
    TaprootHeadFields(c, tx, utxos);
    TaprootTailFields(c, tx, utxos, index);
    assert p[2..6] == h[2..6] && p[6..10] == h[6..10] && p[10..42] == h[10..42] && p[42..74] == h[42..74];
    assert p[74..106] == t[..32] && p[106..138] == t[32..64] && p[138..170] == t[64..96] && p[171..175] == t[97..101];
  }

  lemma TaprootHeadFields(c: Crypto, tx: Tx, utxos: seq<Utxo>)
    ensures var h := TaprootHead(c, tx, utxos);
      && |h| == 74 && h[2..6] == Le32(AsUint32(tx.version)) && h[6..10] == Le32(tx.locktime)
      && h[10..42] == c.sha256(WriteMany(WritePrevout, tx.vin)) && h[42..74] == c.sha256(WriteMany(WriteAmount, utxos))
  {
    hide WriteMany, Le32, AsUint32;
  }

  lemma TaprootTailFields(c: Crypto, tx: Tx, utxos: seq<Utxo>, index: nat)
    requires index < 0x1_0000_0000
    ensures var t := TaprootTail(c, tx, utxos, index);
      && |t| == 101 && t[..32] == c.sha256(WriteMany(WriteScript, utxos))
      && t[32..64] == c.sha256(WriteMany(WriteSequence, tx.vin)) && t[64..96] == c.sha256(WriteMany(WriteTxOut, tx.vout))
      && t[97..101] == Le32(index)
  {
    hide WriteMany, Le32;
  }

  /** The taproot message determines every field it should cover, the spent amounts and scripts included. */
  lemma TaprootCommits(c: Crypto, a: Tx, b: Tx, spent: seq<Utxo>, spent': seq<Utxo>, i: nat, j: nat)
    requires i < 0x1_0000_0000 && j < 0x1_0000_0000
    requires TaprootPreimage(c, a, spent, i) == TaprootPreimage(c, b, spent', j)
    ensures a.version == b.version && a.locktime == b.locktime && i == j
    ensures c.sha256(WriteMany(WritePrevout, a.vin)) == c.sha256(WriteMany(WritePrevout, b.vin))
    ensures c.sha256(WriteMany(WriteAmount, spent)) == c.sha256(WriteMany(WriteAmount, spent'))
    ensures c.sha256(WriteMany(WriteScript, spent)) == c.sha256(WriteMany(WriteScript, spent'))
    ensures c.sha256(WriteMany(WriteSequence, a.vin)) == c.sha256(WriteMany(WriteSequence, b.vin))
    ensures c.sha256(WriteMany(WriteTxOut, a.vout)) == c.sha256(WriteMany(WriteTxOut, b.vout))
  {
    hide WriteMany, Le32, TaprootPreimage, AsUint32;
    TaprootFields(c, a, spent, i);
    TaprootFields(c, b, spent', j);
    Le32Injective(AsUint32(a.version), AsUint32(b.version));
    CastsInverse(a.version, 0, 0, 0);
    CastsInverse(b.version, 0, 0, 0);
    Le32Injective(a.locktime, b.locktime);
    Le32Injective(i, j);
  }

  // ----- The digest of input index, field by field -----

  /** The trailing four bytes 01 00 00 00 are SIGHASH_ALL. */
  lemma SighashAllBytes()
    ensures Le32(SIGHASH_ALL) == [1, 0, 0, 0]
  {
  }

  /** What the P2WPKH digest of input i hashes: that input's outpoint, script code, amount and sequence. */
  lemma Bip143DigestFields(c: Crypto, tx: Tx, utxos: seq<Utxo>, i: nat) returns (p: seq<byte>, t: seq<byte>)
    requires i < |utxos| == |tx.vin|
    requires |utxos[i].script| == 22 && utxos[i].script[0] == 0 && utxos[i].script[1] == 20
    ensures Digest(c, P2wpkh, tx, utxos, i) == Ok(c.hash256(p)) && |p| == 182 && t == p[130..]
    ensures p[..4] == Le32(AsUint32(tx.version))
    ensures p[4..36] == c.hash256(WriteMany(WritePrevout, tx.vin)) && p[36..68] == c.hash256(WriteMany(WriteSequence, tx.vin))
    ensures p[68..100] == tx.vin[i].prevTxid && p[100..104] == Le32(tx.vin[i].prevVout)
    ensures p[104..130] == [25, 0x76, 0xa9, 20] + utxos[i].script[2..] + [0x88, 0xac]
    ensures t[..8] == Le64(utxos[i].amount) && t[8..12] == Le32(tx.vin[i].sequence)
    ensures t[12..44] == c.hash256(WriteMany(WriteTxOut, tx.vout)) && t[44..48] == Le32(tx.locktime)
    ensures t[48..] == [1, 0, 0, 0]
  {
    hide WriteMany, Le32, Le64, Bip143Tail, ReadBlob, AsUint32, AsUint64, AsInt64, Bip143Head;
    var code := ScriptCode(utxos[i].script).value;
    var amount := AsInt64(utxos[i].amount);
    p := Bip143Preimage(c, tx, tx.vin[i], code, amount);
    Bip143Fields(c, tx, tx.vin[i], code, amount);
    Bip143TailFields(c, tx, tx.vin[i], amount);
    CastsInverse(0, 0, 0, utxos[i].amount);
    var h := Bip143Head(c, tx, tx.vin[i], code);
    t := Bip143Tail(c, tx, tx.vin[i], amount);
    HeadEnd(c, tx, tx.vin[i], code);
    TailEnd(c, tx, tx.vin[i], amount);
    assert p[..130] == h && p[130..] == t;
    assert p[104..130] == h[104..];
  }

  lemma HeadEnd(c: Crypto, tx: Tx, input: TxIn, code: seq<byte>)
    requires |code| == 25
    ensures var h := Bip143Head(c, tx, input, code); |h| == 130 && h[104..] == [25] + code
  {
    hide WriteMany, Le32, AsUint32;
  }

  lemma TailEnd(c: Crypto, tx: Tx, input: TxIn, amount: int64)
    ensures var t := Bip143Tail(c, tx, input, amount); |t| == 52 && t[48..] == [1, 0, 0, 0]
  {
    SighashAllBytes();
    hide WriteMany, Le32, Le64, AsUint64;
  }

  /** What the taproot digest of input i hashes, with the input's own index and all spent amounts and scripts. */
  lemma TaprootDigestFields(c: Crypto, tx: Tx, utxos: seq<Utxo>, i: nat) returns (p: seq<byte>)
    requires i < |utxos| == |tx.vin| && i < 0x1_0000_0000
    ensures Digest(c, P2tr, tx, utxos, i) == Ok(c.tapSighash(p)) && |p| == 175
    ensures p[..2] == [0, 0] && p[2..6] == Le32(AsUint32(tx.version)) && p[6..10] == Le32(tx.locktime)
    ensures p[10..42] == c.sha256(WriteMany(WritePrevout, tx.vin)) && p[42..74] == c.sha256(WriteMany(WriteAmount, utxos))
    ensures p[74..106] == c.sha256(WriteMany(WriteScript, utxos)) && p[106..138] == c.sha256(WriteMany(WriteSequence, tx.vin))
    ensures p[138..170] == c.sha256(WriteMany(WriteTxOut, tx.vout)) && p[170] == 0 && p[171..] == Le32(i)
  {
    hide WriteMany, Le32, AsUint32;
    p := TaprootPreimage(c, tx, utxos, i);
    TaprootFields(c, tx, utxos, i);
    TaprootEnds(c, tx, utxos, i);
  }

  lemma TaprootEnds(c: Crypto, tx: Tx, utxos: seq<Utxo>, i: nat)
    ensures var p := TaprootPreimage(c, tx, utxos, i); |p| == 175 && p[..2] == [0, 0] && p[170] == 0
  {
    hide WriteMany, Le32, AsUint32;
    var h, t := TaprootHead(c, tx, utxos), TaprootTail(c, tx, utxos, i);
    assert |h| == 74 && h[..2] == [0, 0] && |t| == 101 && t[96] == 0;
  }

  /**
   * What the P2PKH digest of input i hashes: the serialization, without witness data, of the transaction whose scripts
   * are empty except that input i's is the spent script; then 01 00 00 00.
   */
  lemma LegacyDigestFields(c: Crypto, tx: Tx, utxos: seq<Utxo>, i: nat) returns (t: Tx)
    requires i < |utxos| == |tx.vin|
    ensures Digest(c, P2pkh, tx, utxos, i) == Ok(c.hash256(Serialize(t, false) + [1, 0, 0, 0]))
    ensures t.version == tx.version && t.vout == tx.vout && t.locktime == tx.locktime && |t.vin| == |tx.vin|
    ensures forall k :: 0 <= k < |tx.vin| ==>
      && t.vin[k].prevTxid == tx.vin[k].prevTxid && t.vin[k].prevVout == tx.vin[k].prevVout
      && t.vin[k].sequence == tx.vin[k].sequence && t.vin[k].scriptSig == if k == i then utxos[i].script else []
  {
    SighashAllBytes();
    hide Serialize, Le32;
    t := OnlyCode(tx, i, utxos[i].script);
  }

  /** The lists those digests hash: one fixed-width entry per item, in order. */
  lemma {:induction false} FixedEntries<T>(write: Writer<T>, xs: seq<T>, k: nat, i: nat)
    requires i < |xs| && forall j :: 0 <= j < |xs| ==> |write(xs[j])| == k
    ensures |WriteMany(write, xs)| == |xs| * k && 0 <= i * k <= (i + 1) * k <= |xs| * k
    ensures WriteMany(write, xs)[i * k..(i + 1) * k] == write(xs[i])
  {
    var rest := xs[1..];
    var bytes := WriteMany(write, rest);
    ManyFixed(write, xs, k);
    ManyFixed(write, rest, k);
    Times(i, |xs|, k);
    if i > 0 {
      FixedEntries(write, rest, k, i - 1);
      assert (write(xs[0]) + bytes)[i * k..(i + 1) * k] == bytes[(i - 1) * k..i * k];
    }
  }

  lemma Times(i: nat, n: nat, k: nat)
    requires i < n
    ensures (i + 1) * k == i * k + k && 0 <= i * k && (i + 1) * k <= n * k
    ensures i > 0 ==> (i - 1) * k + k == i * k
  {
  }

  lemma PrevoutBytes(vin: seq<TxIn>, i: nat)
    requires i < |vin|
    ensures var p, s := WriteMany(WritePrevout, vin), WriteMany(WriteSequence, vin);
      && |p| == |vin| * 36 && p[i * 36..(i + 1) * 36] == vin[i].prevTxid + Le32(vin[i].prevVout)
      && |s| == |vin| * 4 && s[i * 4..(i + 1) * 4] == Le32(vin[i].sequence)
  {
    hide WriteMany, Le32;
    FixedEntries(WritePrevout, vin, 36, i);
    FixedEntries(WriteSequence, vin, 4, i);
  }

  lemma AmountBytes(utxos: seq<Utxo>, i: nat)
    requires i < |utxos|
    ensures var a := WriteMany(WriteAmount, utxos); |a| == |utxos| * 8 && a[i * 8..(i + 1) * 8] == Le64(utxos[i].amount)
  {
    hide WriteMany, Le64;
    FixedEntries(WriteAmount, utxos, 8, i);
  }
  /** A spent script is hashed behind its length. */
  lemma ScriptBytes(utxos: seq<Utxo>)
    requires |utxos| == 1 && |utxos[0].script| < 0xfd
    ensures WriteMany(WriteScript, utxos) == [|utxos[0].script|] + utxos[0].script
  {
    var none := utxos[1..];
    assert WriteMany(WriteScript, none) == [];
  }
}
