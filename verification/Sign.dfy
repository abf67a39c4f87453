/** Sweep transactions: the size estimate, the three signature digests and signing in place. */
module Sign {
  import opened Bytes
  import opened Wire
  import opened Transaction
  import Privkey

  type Secret = Privkey.Secret
  type Key = Privkey.Key

  datatype Style = P2pkh | P2wpkh | P2tr

  datatype Utxo = Utxo(txid: Hash256, vout: uint32, amount: uint64, script: seq<byte>, coinbase: bool, height: uint32)

  // libsecp256k1 and the hashes are parameters; only the sizes of what they return are known.
  type Der = s: seq<byte> | |s| <= 72 witness []
  type SchnorrSig = s: seq<byte> | |s| == 64 witness seq(64, _ => 0)
  type PubkeyBytes = s: seq<byte> | |s| == 33 || |s| == 65 witness seq(33, _ => 0)

  datatype Crypto = Crypto(
    hash256: Hasher, sha256: Hasher, tapSighash: Hasher,
    ecdsa: (Hash256, Secret) -> Result<Der>, schnorr: (Hash256, Secret) -> Result<SchnorrSig>,
    pubkey: Key -> Result<PubkeyBytes>)

  const NOT_SIGNED := "could not sign"
  const SEQUENCE_RBF: uint32 := 0xffff_fffd
  const SIGHASH_ALL: uint32 := 1

  function PushData(data: seq<byte>): Result<seq<byte>> {
    if |data| > 75 then Err(NOT_SIGNED) else Ok([|data|] + data)
  }

  // ----- Skeleton, dummy and size -----

  function Unsigned(u: Utxo): TxIn { TxIn(u.txid, u.vout, [], SEQUENCE_RBF, []) }

  function Skeleton(utxos: seq<Utxo>, dest: seq<byte>, sats: int64, locktime: uint32, segwit: bool): (tx: Tx)
    ensures |tx.vin| == |utxos|
  {
    Tx(2, segwit, seq(|utxos|, i requires 0 <= i < |utxos| => Unsigned(utxos[i])), [TxOut(sats, dest)], locktime)
  }

  const DUMMY_ECDSA: seq<byte> := [0x30] + Repeat(0, 72)
  const DUMMY_SCHNORR: seq<byte> := Repeat(0, 64)

  function DummySig(style: Style): seq<byte> { if style == P2tr then DUMMY_SCHNORR else DUMMY_ECDSA }

  /** An input carrying a signature and, except for taproot, the public key. */
  function Completed(style: Style, input: TxIn, sig: seq<byte>, pk: seq<byte>): Result<TxIn> {
    match style
    case P2pkh =>
      var a :- PushData(sig);
      var b :- PushData(pk);
      Ok(input.(scriptSig := a + b))
    case P2wpkh => Ok(input.(scriptSig := [], stack := [sig, pk]))
    case P2tr => Ok(input.(scriptSig := [], stack := [sig]))
  }

  function WithDummy(style: Style, input: TxIn, pk: PubkeyBytes): TxIn {
    Completed(style, input.(stack := []), DummySig(style), pk).value
  }

  function Filled(tx: Tx, style: Style, pk: PubkeyBytes): (r: Tx)
    ensures |r.vin| == |tx.vin|
  {
    tx.(vin := seq(|tx.vin|, i requires 0 <= i < |tx.vin| => WithDummy(style, tx.vin[i], pk)))
  }

  function Vsize(tx: Tx): nat {
    if !tx.hasWitness then |Serialize(tx, false)|
    else (3 * |Serialize(tx, false)| + |Serialize(tx, true)| + 3) / 4
  }

  const BLANK := Utxo(Repeat(0, 32), 0, 0, [], false, 0)

  function Estimate(style: Style, pk: PubkeyBytes, n: nat, dest: seq<byte>): nat {
    if n == 0 then 0
    else Vsize(Filled(Skeleton(Repeat(BLANK, n), dest, 0, 0, style != P2pkh), style, pk))
  }

  // ----- Sizes -----

  /** Every variable-length part of one input list is no longer than the other's. */
  predicate NoLonger(a: TxIn, b: TxIn) {
    |a.scriptSig| <= |b.scriptSig| && NoLongerStack(a.stack, b.stack)
  }

  predicate NoLongerStack(a: seq<seq<byte>>, b: seq<seq<byte>>) {
    |a| == |b| && forall i :: 0 <= i < |a| ==> |a[i]| <= |b[i]|
  }

  predicate NoLongerInputs(a: seq<TxIn>, b: seq<TxIn>) {
    |a| == |b| && forall i :: 0 <= i < |a| ==> NoLonger(a[i], b[i])
  }

  lemma BlobSize(a: seq<byte>, b: seq<byte>)
    requires |a| <= |b|
    ensures |WriteBlob(a)| <= |WriteBlob(b)|
  {
  }

  lemma {:induction false} ManySize<T>(write: Writer<T>, a: seq<T>, b: seq<T>)
    requires |a| == |b| && forall i :: 0 <= i < |a| ==> |write(a[i])| <= |write(b[i])|
    ensures |WriteMany(write, a)| <= |WriteMany(write, b)|
  {
    if a != [] {
      ManySize(write, a[1..], b[1..]);
    }
  }

  lemma StackSize(a: seq<seq<byte>>, b: seq<seq<byte>>)
    requires NoLongerStack(a, b)
    ensures |WriteStack(a)| <= |WriteStack(b)|
  {
    hide WriteBlob, WriteMany, WriteCompact;
    forall i | 0 <= i < |a| ensures |WriteBlob(a[i])| <= |WriteBlob(b[i])| { BlobSize(a[i], b[i]); }
    ManySize(WriteBlob, a, b);
  }

  lemma InputsSize(a: seq<TxIn>, b: seq<TxIn>)
    requires NoLongerInputs(a, b)
    ensures |WriteMany(WriteTxIn, a)| <= |WriteMany(WriteTxIn, b)|
    ensures |WriteMany(WriteStack, Stacks(a))| <= |WriteMany(WriteStack, Stacks(b))|
  {
    hide WriteBlob, WriteMany, WriteStack, NoLongerStack;
    forall i | 0 <= i < |a|
      ensures |WriteTxIn(a[i])| <= |WriteTxIn(b[i])|
      ensures |WriteStack(Stacks(a)[i])| <= |WriteStack(Stacks(b)[i])|
    {
      assert NoLonger(a[i], b[i]);
      BlobSize(a[i].scriptSig, b[i].scriptSig);
      StackSize(a[i].stack, b[i].stack);
    }
    ManySize(WriteTxIn, a, b);
    ManySize(WriteStack, Stacks(a), Stacks(b));
  }

  lemma SerializedSize(tx: Tx)
    ensures |Serialize(tx, false)| == 8 + |WriteCompact(|tx.vin|)| + |WriteMany(WriteTxIn, tx.vin)|
                                    + |WriteCounted(WriteTxOut, tx.vout)|
    ensures tx.hasWitness ==>
      |Serialize(tx, true)| == |Serialize(tx, false)| + 2 + |WriteMany(WriteStack, Stacks(tx.vin))|
  {
    hide WriteMany, WriteCompact, Le32;
  }

  lemma OutputsSize(sats: int64, sats': int64, dest: seq<byte>)
    ensures |WriteCounted(WriteTxOut, [TxOut(sats, dest)])| == |WriteCounted(WriteTxOut, [TxOut(sats', dest)])|
  {
    hide Le64, WriteBlob;
    assert [TxOut(sats, dest)][1..] == [] && [TxOut(sats', dest)][1..] == [];
  }

  /** The virtual size grows with the inputs' parts and does not see the amount or the lock time. */
  lemma VsizeMonotone(a: Tx, b: Tx, dest: seq<byte>)
    requires a.hasWitness == b.hasWitness && NoLongerInputs(a.vin, b.vin)
    requires |a.vout| == 1 == |b.vout| && a.vout[0].script == dest == b.vout[0].script
    ensures Vsize(a) <= Vsize(b)
  {
    hide Serialize, WriteMany, WriteCounted, WriteCompact, NoLongerInputs;
    SameInputCount(a.vin, b.vin);
    InputsSize(a.vin, b.vin);
    assert a.vout == [TxOut(a.vout[0].value, dest)] && b.vout == [TxOut(b.vout[0].value, dest)];
    OutputsSize(a.vout[0].value, b.vout[0].value, dest);
    SerializedSize(a);
    SerializedSize(b);
  }

  lemma SameInputCount(a: seq<TxIn>, b: seq<TxIn>)
    requires NoLongerInputs(a, b)
    ensures |a| == |b|
  {
  }

  // ----- Digests -----

  function WritePrevout(i: TxIn): seq<byte> { i.prevTxid + Le32(i.prevVout) }

  function WriteSequence(i: TxIn): seq<byte> { Le32(i.sequence) }

  function WriteAmount(u: Utxo): seq<byte> { Le64(u.amount) }

  function WriteScript(u: Utxo): seq<byte> { WriteBlob(u.script) }

  /** The transaction a legacy digest covers: no scriptSig but the script code in the signed input. */
  function OnlyCode(tx: Tx, index: nat, code: seq<byte>): (r: Tx)
    ensures |r.vin| == |tx.vin|
  {
    tx.(vin := seq(|tx.vin|, i requires 0 <= i < |tx.vin| => tx.vin[i].(scriptSig := if i == index then code else [])))
  }

  function LegacyPreimage(tx: Tx, index: nat, code: seq<byte>): seq<byte> {
    Serialize(OnlyCode(tx, index, code), false) + Le32(SIGHASH_ALL)
  }

  function LegacyDigest(c: Crypto, tx: Tx, index: nat, code: seq<byte>): Result<Hash256> {
    if index >= |tx.vin| then Err(NOT_SIGNED)
    else Ok(c.hash256(LegacyPreimage(tx, index, code)))
  }

  /** BIP-143, section "Specification": items 1 to 5, then 6 to 10. */
  function Bip143Head(c: Crypto, tx: Tx, input: TxIn, code: seq<byte>): seq<byte> {
    Le32(AsUint32(tx.version)) + c.hash256(WriteMany(WritePrevout, tx.vin)) + c.hash256(WriteMany(WriteSequence, tx.vin))
    + WritePrevout(input) + WriteBlob(code)
  }

  function Bip143Tail(c: Crypto, tx: Tx, input: TxIn, amount: int64): seq<byte> {
    Le64(AsUint64(amount)) + Le32(input.sequence) + c.hash256(WriteMany(WriteTxOut, tx.vout))
    + Le32(tx.locktime) + Le32(SIGHASH_ALL)
  }

  function Bip143Preimage(c: Crypto, tx: Tx, input: TxIn, code: seq<byte>, amount: int64): seq<byte> {
    Bip143Head(c, tx, input, code) + Bip143Tail(c, tx, input, amount)
  }

  function Bip143Digest(c: Crypto, tx: Tx, index: nat, code: seq<byte>, amount: int64): Result<Hash256> {
    if index >= |tx.vin| then Err(NOT_SIGNED)
    else Ok(c.hash256(Bip143Preimage(c, tx, tx.vin[index], code, amount)))
  }

  /** BIP-341, section "Common signature message", for the default hash type and the key path. */
  function TaprootHead(c: Crypto, tx: Tx, utxos: seq<Utxo>): seq<byte> {
    [0x00, 0x00] + Le32(AsUint32(tx.version)) + Le32(tx.locktime)
    + c.sha256(WriteMany(WritePrevout, tx.vin)) + c.sha256(WriteMany(WriteAmount, utxos))
  }

  function TaprootTail(c: Crypto, tx: Tx, utxos: seq<Utxo>, index: nat): seq<byte> {
    c.sha256(WriteMany(WriteScript, utxos)) + c.sha256(WriteMany(WriteSequence, tx.vin))
    + c.sha256(WriteMany(WriteTxOut, tx.vout)) + [0x00] + Le32(index % 0x1_0000_0000)
  }

  function TaprootPreimage(c: Crypto, tx: Tx, utxos: seq<Utxo>, index: nat): seq<byte> {
    TaprootHead(c, tx, utxos) + TaprootTail(c, tx, utxos, index)
  }

  function TaprootDigest(c: Crypto, tx: Tx, index: nat, utxos: seq<Utxo>): Result<Hash256> {
    if index >= |tx.vin| || |utxos| != |tx.vin| then Err(NOT_SIGNED)
    else Ok(c.tapSighash(TaprootPreimage(c, tx, utxos, index)))
  }

  function ScriptCode(spk: seq<byte>): Result<seq<byte>> {
    if |spk| != 22 || spk[0] != 0x00 || spk[1] != 20 then Err("unexpected scriptPubKey")
    else Ok([0x76, 0xa9, 20] + spk[2..] + [0x88, 0xac])
  }

  /** The digest that input i's signature must cover. */
  function Digest(c: Crypto, style: Style, tx: Tx, utxos: seq<Utxo>, i: nat): Result<Hash256>
    requires i < |utxos|
  {
    match style
    case P2pkh => LegacyDigest(c, tx, i, utxos[i].script)
    case P2wpkh =>
      var code :- ScriptCode(utxos[i].script);
      Bip143Digest(c, tx, i, code, AsInt64(utxos[i].amount))
    case P2tr => TaprootDigest(c, tx, i, utxos)
  }

  /** Same transaction up to the signature data in its inputs. */
  predicate SameOutline(a: Tx, b: Tx) {
    && a.version == b.version && a.vout == b.vout && a.locktime == b.locktime && |a.vin| == |b.vin|
    && forall i :: 0 <= i < |a.vin| ==>
         && a.vin[i].prevTxid == b.vin[i].prevTxid && a.vin[i].prevVout == b.vin[i].prevVout
         && a.vin[i].sequence == b.vin[i].sequence
  }

  lemma {:induction false} ManySame<T>(write: Writer<T>, a: seq<T>, b: seq<T>)
    requires |a| == |b| && forall i :: 0 <= i < |a| ==> write(a[i]) == write(b[i])
    ensures WriteMany(write, a) == WriteMany(write, b)
  {
    if a != [] {
      ManySame(write, a[1..], b[1..]);
    }
  }

  lemma LegacySame(a: Tx, b: Tx, index: nat, code: seq<byte>)
    requires SameOutline(a, b)
    ensures Serialize(OnlyCode(a, index, code), false) == Serialize(OnlyCode(b, index, code), false)
  {
    hide WriteMany, Le32, WriteCompact, WriteBlob;
    ManySame(WriteTxIn, OnlyCode(a, index, code).vin, OnlyCode(b, index, code).vin);
  }

  /** No digest depends on signature data, so signing one input disturbs no other input's signature. */
  lemma DigestIgnoresSignatures(c: Crypto, style: Style, a: Tx, b: Tx, utxos: seq<Utxo>, i: nat)
    requires SameOutline(a, b) && i < |utxos|
    ensures Digest(c, style, a, utxos, i) == Digest(c, style, b, utxos, i)
  {
    hide WriteMany, Serialize, OnlyCode, Le32, Le64, WriteBlob;
    LegacySame(a, b, i, utxos[i].script);
    ManySame(WritePrevout, a.vin, b.vin);
    ManySame(WriteSequence, a.vin, b.vin);
  }

  // ----- Signing -----

  function Signature(c: Crypto, key: Key, style: Style, digest: Hash256): (r: Result<seq<byte>>)
    ensures r.Ok? ==> |r.value| <= |DummySig(style)|
    ensures r.Ok? && style == P2tr ==> |r.value| == 64
  {
    if style == P2tr then
      var sig :- c.schnorr(digest, key.secret);
      Ok(sig)
    else
      var der :- c.ecdsa(digest, key.secret);
      Ok(der + [0x01])
  }

  function SignInput(c: Crypto, key: Key, style: Style, pk: PubkeyBytes, tx: Tx, utxos: seq<Utxo>, i: nat): Result<TxIn>
    requires i < |utxos| == |tx.vin|
  {
    var digest :- Digest(c, style, tx, utxos, i);
    var sig :- Signature(c, key, style, digest);
    Completed(style, tx.vin[i], sig, pk)
  }

  /** The first n inputs, each signed on the untouched skeleton; the first failure wins. */
  function SignFirst(c: Crypto, key: Key, style: Style, pk: PubkeyBytes, tx: Tx, utxos: seq<Utxo>, n: nat)
    : (r: Result<seq<TxIn>>)
    requires n <= |utxos| == |tx.vin|
    ensures r.Ok? ==> |r.value| == n
  {
    if n == 0 then Ok([])
    else
      var before :- SignFirst(c, key, style, pk, tx, utxos, n - 1);
      var input :- SignInput(c, key, style, pk, tx, utxos, n - 1);
      Ok(before + [input])
  }

  function SkeletonFor(style: Style, utxos: seq<Utxo>, dest: seq<byte>, sats: int64, locktime: uint32): (tx: Tx)
    ensures |tx.vin| == |utxos|
  {
    Skeleton(utxos, dest, sats, locktime, style != P2pkh)
  }

  function SweepTx(c: Crypto, key: Key, style: Style, utxos: seq<Utxo>, dest: seq<byte>, sats: int64, locktime: uint32)
    : Result<Tx>
  {
    if utxos == [] then Err("no unspent outputs")
    else
      var pk :- c.pubkey(key);
      var skeleton := SkeletonFor(style, utxos, dest, sats, locktime);
      var vin :- SignFirst(c, key, style, pk, skeleton, utxos, |utxos|);
      Ok(skeleton.(vin := vin))
  }

  lemma {:induction false} FailureStays(c: Crypto, key: Key, style: Style, pk: PubkeyBytes, tx: Tx, utxos: seq<Utxo>,
                                        n: nat, m: nat)
    requires n <= m <= |utxos| == |tx.vin| && SignFirst(c, key, style, pk, tx, utxos, n).Err?
    ensures SignFirst(c, key, style, pk, tx, utxos, m) == SignFirst(c, key, style, pk, tx, utxos, n)
  {
    if n < m {
      FailureStays(c, key, style, pk, tx, utxos, n, m - 1);
    }
  }

  lemma SignNone(c: Crypto, key: Key, style: Style, pk: PubkeyBytes, tx: Tx, utxos: seq<Utxo>)
    requires |utxos| == |tx.vin|
    ensures SignFirst(c, key, style, pk, tx, utxos, 0) == Ok([])
  {
  }

  lemma SignOne(c: Crypto, key: Key, style: Style, pk: PubkeyBytes, tx: Tx, utxos: seq<Utxo>, i: nat)
    requires i < |utxos| == |tx.vin| && SignFirst(c, key, style, pk, tx, utxos, i).Ok?
    ensures var before := SignFirst(c, key, style, pk, tx, utxos, i).value;
      var one := SignInput(c, key, style, pk, tx, utxos, i);
      && (one.Ok? ==> SignFirst(c, key, style, pk, tx, utxos, i + 1) == Ok(before + [one.value]))
      && (one.Err? ==> SignFirst(c, key, style, pk, tx, utxos, |utxos|) == Err(one.message))
  {
    hide SignInput;
    if SignInput(c, key, style, pk, tx, utxos, i).Err? {
      FailureStays(c, key, style, pk, tx, utxos, i + 1, |utxos|);
    }
  }

  /** Signing input i on a half-signed transaction is signing it on the skeleton. */
  lemma SignInputSame(c: Crypto, key: Key, style: Style, pk: PubkeyBytes, a: Tx, b: Tx, utxos: seq<Utxo>, i: nat)
    requires SameOutline(a, b) && i < |utxos| == |a.vin| && a.vin[i] == b.vin[i]
    ensures SignInput(c, key, style, pk, a, utxos, i) == SignInput(c, key, style, pk, b, utxos, i)
    ensures SignInput(c, key, style, pk, a, utxos, i).Ok? ==>
      var input := SignInput(c, key, style, pk, a, utxos, i).value;
      && input.prevTxid == a.vin[i].prevTxid && input.prevVout == a.vin[i].prevVout
      && input.sequence == a.vin[i].sequence
  {
    hide Digest, Signature, SameOutline;
    DigestIgnoresSignatures(c, style, a, b, utxos, i);
  }

  // ----- When signing succeeds -----

  /** The one libsecp256k1 call made for an input, on its digest. */
  predicate CallSucceeds(c: Crypto, key: Key, style: Style, tx: Tx, utxos: seq<Utxo>, i: nat)
    requires i < |utxos|
  {
    match Digest(c, style, tx, utxos, i)
    case Err(_) => true
    case Ok(digest) => if style == P2tr then c.schnorr(digest, key.secret).Ok? else c.ecdsa(digest, key.secret).Ok?
  }

  predicate HasScriptCode(style: Style, spk: seq<byte>) {
    style == P2wpkh ==> |spk| == 22 && spk[0] == 0x00 && spk[1] == 20
  }

  lemma SignInputIff(c: Crypto, key: Key, style: Style, pk: PubkeyBytes, tx: Tx, utxos: seq<Utxo>, i: nat)
    requires i < |utxos| == |tx.vin|
    ensures SignInput(c, key, style, pk, tx, utxos, i).Ok? <==>
      HasScriptCode(style, utxos[i].script) && CallSucceeds(c, key, style, tx, utxos, i)
  {
    hide LegacyPreimage, Bip143Preimage, TaprootPreimage;
  }

  lemma {:induction false} SignFirstIff(c: Crypto, key: Key, style: Style, pk: PubkeyBytes, tx: Tx, utxos: seq<Utxo>, n: nat)
    requires n <= |utxos| == |tx.vin|
    ensures SignFirst(c, key, style, pk, tx, utxos, n).Ok? <==>
      forall i :: 0 <= i < n ==> HasScriptCode(style, utxos[i].script) && CallSucceeds(c, key, style, tx, utxos, i)
  {
    hide SignInput, HasScriptCode, CallSucceeds;
    if n > 0 {
      SignFirstIff(c, key, style, pk, tx, utxos, n - 1);
      SignInputIff(c, key, style, pk, tx, utxos, n - 1);
    }
  }

  /** Signing a sweep succeeds exactly when every script yields a code and every signing call succeeds. */
  lemma SweepTxIff(c: Crypto, key: Key, style: Style, utxos: seq<Utxo>, dest: seq<byte>, sats: int64, locktime: uint32)
    requires c.pubkey(key).Ok? && utxos != []
    ensures SweepTx(c, key, style, utxos, dest, sats, locktime).Ok? <==>
      forall i :: 0 <= i < |utxos| ==>
        && HasScriptCode(style, utxos[i].script)
        && CallSucceeds(c, key, style, SkeletonFor(style, utxos, dest, sats, locktime), utxos, i)
  {
    hide SignFirst, HasScriptCode, CallSucceeds;
    SignFirstIff(c, key, style, c.pubkey(key).value, SkeletonFor(style, utxos, dest, sats, locktime), utxos, |utxos|);
  }

  // ----- What a signed sweep is -----

  /** The signature data an input of each style carries. */
  predicate Bears(input: TxIn, style: Style, sig: seq<byte>, pk: seq<byte>) {
    match style
    case P2pkh => |sig| <= 75 && |pk| <= 75 && input.scriptSig == [|sig|] + sig + ([|pk|] + pk) && input.stack == []
    case P2wpkh => input.scriptSig == [] && input.stack == [sig, pk]
    case P2tr => input.scriptSig == [] && input.stack == [sig]
  }

  /** Input i bears the key's signature of the digest computed on the transaction as returned. */
  predicate SignedOn(c: Crypto, key: Key, style: Style, pk: PubkeyBytes, tx: Tx, utxos: seq<Utxo>, i: nat)
    requires i < |utxos| == |tx.vin|
  {
    && Digest(c, style, tx, utxos, i).Ok?
    && Signature(c, key, style, Digest(c, style, tx, utxos, i).value).Ok?
    && Bears(tx.vin[i], style, Signature(c, key, style, Digest(c, style, tx, utxos, i).value).value, pk)
  }

  lemma {:induction false} FirstSigned(c: Crypto, key: Key, style: Style, pk: PubkeyBytes, tx: Tx, utxos: seq<Utxo>,
                                       n: nat, i: nat)
    requires i < n <= |utxos| == |tx.vin| && SignFirst(c, key, style, pk, tx, utxos, n).Ok?
    ensures SignInput(c, key, style, pk, tx, utxos, i) == Ok(SignFirst(c, key, style, pk, tx, utxos, n).value[i])
  {
    hide SignInput;
    if i < n - 1 {
      FirstSigned(c, key, style, pk, tx, utxos, n - 1, i);
    }
  }

  lemma InputBears(c: Crypto, key: Key, style: Style, pk: PubkeyBytes, tx: Tx, utxos: seq<Utxo>, i: nat)
    requires i < |utxos| == |tx.vin| && tx.vin[i].stack == [] && tx.vin[i].scriptSig == []
    requires SignInput(c, key, style, pk, tx, utxos, i).Ok?
    ensures var input := SignInput(c, key, style, pk, tx, utxos, i).value;
      && Digest(c, style, tx, utxos, i).Ok?
      && Signature(c, key, style, Digest(c, style, tx, utxos, i).value).Ok?
      && Bears(input, style, Signature(c, key, style, Digest(c, style, tx, utxos, i).value).value, pk)
      && input.prevTxid == tx.vin[i].prevTxid && input.prevVout == tx.vin[i].prevVout
      && input.sequence == tx.vin[i].sequence
  {
    hide Digest, Signature, DummySig;
  }

  /**
   * A returned sweep spends exactly the given outputs, replaceably, into one output; and each signature,
   * though made while later inputs were still blank, is the signature of the finished transaction's digest.
   */
  lemma SweepCommitsToFinal(c: Crypto, key: Key, style: Style, utxos: seq<Utxo>, dest: seq<byte>, sats: int64,
                            locktime: uint32)
    requires SweepTx(c, key, style, utxos, dest, sats, locktime).Ok?
    ensures var tx := SweepTx(c, key, style, utxos, dest, sats, locktime).value;
      && utxos != [] && c.pubkey(key).Ok?
      && SameOutline(tx, SkeletonFor(style, utxos, dest, sats, locktime)) && tx.hasWitness == (style != P2pkh)
      && forall i :: 0 <= i < |utxos| ==> SignedOn(c, key, style, c.pubkey(key).value, tx, utxos, i)
  {
    hide Digest, Signature, DummySig, SignInput, SignFirst, Bears;
    var pk := c.pubkey(key).value;
    var skeleton := SkeletonFor(style, utxos, dest, sats, locktime);
    var tx := SweepTx(c, key, style, utxos, dest, sats, locktime).value;
    forall i | 0 <= i < |utxos|
      ensures tx.vin[i].prevTxid == skeleton.vin[i].prevTxid && tx.vin[i].prevVout == skeleton.vin[i].prevVout
      ensures tx.vin[i].sequence == skeleton.vin[i].sequence
    {
      FirstSigned(c, key, style, pk, skeleton, utxos, |utxos|, i);
      InputBears(c, key, style, pk, skeleton, utxos, i);
    }
    assert SameOutline(tx, skeleton);
    forall i | 0 <= i < |utxos| ensures SignedOn(c, key, style, pk, tx, utxos, i) {
      FirstSigned(c, key, style, pk, skeleton, utxos, |utxos|, i);
      InputBears(c, key, style, pk, skeleton, utxos, i);
      DigestIgnoresSignatures(c, style, tx, skeleton, utxos, i);
    }
  }

  /** The estimate is never below the real size, and exact for taproot. */
  lemma EstimateDominates(c: Crypto, key: Key, style: Style, utxos: seq<Utxo>, dest: seq<byte>, sats: int64,
                          locktime: uint32)
    requires SweepTx(c, key, style, utxos, dest, sats, locktime).Ok?
    ensures c.pubkey(key).Ok?
    ensures var tx := SweepTx(c, key, style, utxos, dest, sats, locktime).value;
      var estimate := Estimate(style, c.pubkey(key).value, |utxos|, dest);
      Vsize(tx) <= estimate && (style == P2tr ==> Vsize(tx) == estimate)
  {
    hide Digest, Signature, SignInput, SignFirst, Vsize, SweepTx;
    SweepCommitsToFinal(c, key, style, utxos, dest, sats, locktime);
    var pk := c.pubkey(key).value;
    var tx := SweepTx(c, key, style, utxos, dest, sats, locktime).value;
    var dummy := Filled(Skeleton(Repeat(BLANK, |utxos|), dest, 0, 0, style != P2pkh), style, pk);
    forall i | 0 <= i < |utxos| ensures NoLonger(tx.vin[i], dummy.vin[i]) {
      assert SignedOn(c, key, style, pk, tx, utxos, i);
    }
    VsizeMonotone(tx, dummy, dest);
    if style == P2tr {
      forall i | 0 <= i < |utxos| ensures NoLonger(dummy.vin[i], tx.vin[i]) {
        assert SignedOn(c, key, style, pk, tx, utxos, i);
      }
      VsizeMonotone(dummy, tx, dest);
    }
  }

  /**
   * What a returned sweep spends and pays: exactly the given outpoints in order, each replaceable (sequence
   * 0xfffffffd), one output, version 2 and the given lock time.
   */
  lemma SweepSpends(c: Crypto, key: Key, style: Style, utxos: seq<Utxo>, dest: seq<byte>, sats: int64, locktime: uint32)
    requires SweepTx(c, key, style, utxos, dest, sats, locktime).Ok?
    ensures var tx := SweepTx(c, key, style, utxos, dest, sats, locktime).value;
      && tx.version == 2 && tx.locktime == locktime && tx.hasWitness == (style != P2pkh)
      && tx.vout == [TxOut(sats, dest)] && |tx.vin| == |utxos|
      && forall i :: 0 <= i < |utxos| ==>
           && tx.vin[i].prevTxid == utxos[i].txid && tx.vin[i].prevVout == utxos[i].vout
           && tx.vin[i].sequence == 0xffff_fffd
  {
    hide SweepTx, SignedOn;
    SweepCommitsToFinal(c, key, style, utxos, dest, sats, locktime);
  }

  /** The signature data of a returned sweep, byte for byte, over the digests of the finished transaction. */
  lemma SweepBears(c: Crypto, key: Key, style: Style, utxos: seq<Utxo>, dest: seq<byte>, sats: int64, locktime: uint32,
                   i: nat) returns (tx: Tx, pk: seq<byte>, d: Hash256)
    requires SweepTx(c, key, style, utxos, dest, sats, locktime).Ok? && i < |utxos|
    ensures SweepTx(c, key, style, utxos, dest, sats, locktime) == Ok(tx) && |tx.vin| == |utxos|
    ensures c.pubkey(key) == Ok(pk) && Digest(c, style, tx, utxos, i) == Ok(d)
    ensures style == P2tr ==> tx.vin[i].scriptSig == [] && |tx.vin[i].stack| == 1 && c.schnorr(d, key.secret) == Ok(tx.vin[i].stack[0])
    ensures style != P2tr ==> c.ecdsa(d, key.secret).Ok?
    ensures style == P2wpkh ==> tx.vin[i].scriptSig == [] && tx.vin[i].stack == [c.ecdsa(d, key.secret).value + [1], pk]
    ensures style == P2pkh ==> tx.vin[i].stack == []
    ensures style == P2pkh ==>
      tx.vin[i].scriptSig == [|c.ecdsa(d, key.secret).value| + 1] + c.ecdsa(d, key.secret).value + [1] + [|pk|] + pk
  {
    hide SweepTx, Digest, DummySig;
    SweepCommitsToFinal(c, key, style, utxos, dest, sats, locktime);
    tx := SweepTx(c, key, style, utxos, dest, sats, locktime).value;
    pk := c.pubkey(key).value;
    assert SignedOn(c, key, style, pk, tx, utxos, i);
    d := Digest(c, style, tx, utxos, i).value;
  }

  // ----- Sizes in numbers -----

  /** The length of a CompactSize count. */
  function CountSize(n: nat): nat { if n < 0xfd then 1 else if n <= 0xffff then 3 else if n <= 0xffff_ffff then 5 else 9 }

  lemma CountSizeIs(n: nat)
    ensures |WriteCompact(n)| == CountSize(n)
  {
    hide Le;
  }

  /** Virtual size is weight over four, rounded up; weight counts witness bytes once and all others four times. */
  lemma VsizeIsWeight(tx: Tx)
    requires tx.hasWitness
    ensures var weight := 4 * |Serialize(Stripped(tx), true)| + 2 + |WriteMany(WriteStack, Stacks(tx.vin))|;
      4 * Vsize(tx) - 4 < weight <= 4 * Vsize(tx)
  {
    hide Serialize, WriteMany;
    SerializedSize(tx);
    StrippedSerialize(tx);
  }

  lemma {:induction false} ManyFixed<T>(write: Writer<T>, xs: seq<T>, k: nat)
    requires forall i :: 0 <= i < |xs| ==> |write(xs[i])| == k
    ensures |WriteMany(write, xs)| == |xs| * k
  {
    if xs != [] {
      ManyFixed(write, xs[1..], k);
    }
  }

  /** The bytes of one dummy input without its witness, and of its witness. */
  function InputSize(style: Style, pk: PubkeyBytes): nat { if style == P2pkh then 116 + |pk| else 41 }

  function StackBytes(style: Style, pk: PubkeyBytes): nat {
    match style
    case P2pkh => 1
    case P2wpkh => 76 + |pk|
    case P2tr => 66
  }

  lemma DummyInputSize(style: Style, pk: PubkeyBytes)
    ensures |WriteTxIn(WithDummy(style, Unsigned(BLANK), pk))| == InputSize(style, pk)
  {
    hide Le;
    CountSizeIs(|WithDummy(style, Unsigned(BLANK), pk).scriptSig|);
  }

  lemma BlobLength(b: seq<byte>)
    ensures |WriteBlob(b)| == CountSize(|b|) + |b|
  {
    hide WriteCompact;
    CountSizeIs(|b|);
  }

  lemma OneItem(b: seq<byte>)
    ensures |WriteStack([b])| == 1 + CountSize(|b|) + |b|
  {
    hide Le, WriteCompact;
    BlobLength(b);
    var xs := [b];
    CountSizeIs(|xs|);
    assert xs[1..] == [] && WriteMany(WriteBlob, xs) == WriteBlob(b) + [];
  }

  lemma TwoItems(a: seq<byte>, b: seq<byte>)
    ensures |WriteStack([a, b])| == 1 + CountSize(|a|) + |a| + CountSize(|b|) + |b|
  {
    hide Le, WriteCompact;
    BlobLength(a);
    BlobLength(b);
    var xs: seq<seq<byte>> := [a, b];
    var tail := xs[1..];
    CountSizeIs(|xs|);
    assert tail == [b] && tail[1..] == [];
    assert WriteMany(WriteBlob, tail) == WriteBlob(b) + [];
    assert WriteMany(WriteBlob, xs) == WriteBlob(a) + WriteMany(WriteBlob, tail);
  }

  lemma DummyStackSize(style: Style, pk: PubkeyBytes)
    requires style != P2pkh
    ensures |WriteStack(WithDummy(style, Unsigned(BLANK), pk).stack)| == StackBytes(style, pk)
  {
    hide WriteStack;
    TwoItems(DUMMY_ECDSA, pk);
    OneItem(DUMMY_SCHNORR);
  }

  /**
   * The estimate in numbers. P2PKH inputs take 116 bytes and the key; segwit inputs 41 and, at a quarter, a witness of
   * 76 bytes and the key (P2WPKH: a 73-byte signature) or of 66 (P2TR: a 64-byte signature).
   */
  lemma EstimateInNumbers(style: Style, pk: PubkeyBytes, n: nat, dest: seq<byte>)
    requires n > 0
    ensures var base := 8 + CountSize(n) + n * InputSize(style, pk) + 9 + CountSize(|dest|) + |dest|;
      Estimate(style, pk, n, dest) ==
        if style == P2pkh then base else (4 * base + 2 + n * StackBytes(style, pk) + 3) / 4
  {
    hide Serialize, WriteMany, WriteCompact, WriteTxIn, WriteTxOut, WriteStack, WithDummy, InputSize, StackBytes, Le64, WriteBlob;
    var tx := Filled(Skeleton(Repeat(BLANK, n), dest, 0, 0, style != P2pkh), style, pk);
    var one := WithDummy(style, Unsigned(BLANK), pk);
    DummyInputSize(style, pk);
    ManyFixed(WriteTxIn, tx.vin, InputSize(style, pk));
    if style != P2pkh {
      DummyStackSize(style, pk);
      ManyFixed(WriteStack, Stacks(tx.vin), StackBytes(style, pk));
    }
    SerializedSize(tx);
    CountSizeIs(n);
    OneOutputSize(dest);
  }

  lemma OneOutputSize(dest: seq<byte>)
    ensures |WriteCounted(WriteTxOut, [TxOut(0, dest)])| == 9 + CountSize(|dest|) + |dest|
  {
    hide WriteBlob, WriteCompact;
    BlobLength(dest);
    var xs := [TxOut(0, dest)];
    CountSizeIs(|xs|);
    assert xs[1..] == [] && WriteMany(WriteTxOut, xs) == WriteTxOut(xs[0]) + [];
  }
}
