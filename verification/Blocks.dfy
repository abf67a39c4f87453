/** Whole blocks: an 80-byte header, a count and the transactions back to back. */
module Blocks {
  import opened Bytes
  import opened Wire
  import opened Transaction

  const BAD_BLOCK := "invalid block"

  function WriteHeader(h: Header): (s: seq<byte>)
    ensures |s| == 80
  {
    Le32(AsUint32(h.version)) + h.prev + h.merkle + Le32(h.time) + Le32(h.bits) + Le32(h.nonce)
  }

  function HeaderOf(d: seq<byte>): Header
    requires |d| >= 80
  {
    Header(AsInt32(ReadLe32(d[..4])), d[4..36], d[36..68], ReadLe32(d[68..72]), ReadLe32(d[72..76]), ReadLe32(d[76..80]))
  }

  function WriteBlock(b: Block): seq<byte> { WriteHeader(b.header) + WriteCounted(WriteTx, b.txs) }

  /** The transactions after a block's header and count; the last one must end the buffer. */
  function ParseTxs(n: nat, d: seq<byte>): Result<seq<Tx>> {
    match ReadMany(ReadTx, n, d)
    case Fail(_) => Err(BAD_BLOCK)
    case Got(txs, rest) => if rest == [] then Ok(txs) else Err(BAD_BLOCK)
  }

  function ParseBlock(d: seq<byte>): Result<Block> {
    if |d| < 81 then Err(BAD_BLOCK)
    else match ReadCompact(d[80..])
      case Fail(m) => Err(m)
      case Got(n, rest) =>
        if n > |rest| then Err(BAD_BLOCK)
        else
          var txs :- ParseTxs(n, rest);
          Ok(Block(HeaderOf(d), txs))
  }

  predicate FitTx(tx: Tx) { Sized(tx) && Parseable(tx) }

  lemma HeaderRoundTrip(h: Header, rest: seq<byte>)
    ensures HeaderOf(WriteHeader(h) + rest) == h
  {
    hide Le32, ReadLe32;
    var d := WriteHeader(h) + rest;
    FixedWidth32(AsUint32(h.version), d[..4]);
    FixedWidth32(h.time, d[..4]);
    FixedWidth32(h.bits, d[..4]);
    FixedWidth32(h.nonce, d[..4]);
    CastsInverse(h.version, 0, 0, 0);
    HeaderFields(h, rest);
  }

  lemma HeaderFields(h: Header, rest: seq<byte>)
    ensures var d := WriteHeader(h) + rest;
      && d[..4] == Le32(AsUint32(h.version)) && d[4..36] == h.prev && d[36..68] == h.merkle
      && d[68..72] == Le32(h.time) && d[72..76] == Le32(h.bits) && d[76..80] == Le32(h.nonce)
  {
    hide Le32;
  }

  /** The header bytes, and with them the block hash, survive parsing untouched. */
  lemma HeaderCanonical(d: seq<byte>)
    requires |d| >= 80
    ensures WriteHeader(HeaderOf(d)) == d[..80]
  {
    hide Le32, ReadLe32;
    FixedWidth32(0, d[..4]);
    FixedWidth32(0, d[68..72]);
    FixedWidth32(0, d[72..76]);
    FixedWidth32(0, d[76..80]);
    CastsInverse(0, ReadLe32(d[..4]), 0, 0);
  }

  /** parse_block inverts header ++ count ++ transactions, exactly for transactions a parser can return. */
  lemma BlockInverts(b: Block)
    requires |b.txs| < TWO_64 && forall tx :: tx in b.txs ==> Sized(tx)
    ensures ParseBlock(WriteBlock(b)) == Ok(b) <==> forall tx :: tx in b.txs ==> Parseable(tx)
  {
    hide ReadTx, WriteTx, Sized, Parseable, WriteHeader, HeaderOf, ReadCompact, WriteCompact, WriteMany, ReadMany;
    var body := WriteMany(WriteTx, b.txs);
    var d := WriteBlock(b);
    assert d == WriteHeader(b.header) + (WriteCompact(|b.txs|) + body);
    assert d[80..] == WriteCompact(|b.txs|) + body;
    CompactInverts(|b.txs|, body);
    HeaderRoundTrip(b.header, WriteCompact(|b.txs|) + body);
    if forall tx :: tx in b.txs ==> Parseable(tx) {
      forall tx | tx in b.txs ensures Reads(ReadTx, WriteTx, tx) { TxReads(tx); }
      ManyInverts(ReadTx, WriteTx, b.txs, []);
      assert body + [] == body;
    }
    if ParseBlock(d) == Ok(b) {
      TxsAreFit(|b.txs|, body);
    }
  }

  lemma TxsAreFit(n: nat, d: seq<byte>)
    requires ReadMany(ReadTx, n, d).Got?
    ensures |ReadMany(ReadTx, n, d).value| == n
    ensures forall tx :: tx in ReadMany(ReadTx, n, d).value ==> Sized(tx) && Parseable(tx)
  {
    hide ReadTx, Sized, Parseable, ReadMany;
    forall d' | ReadTx(d').Got? ensures FitTx(ReadTx(d').value) { ReadIsParseable(d'); }
    ManyAll(ReadTx, FitTx, n, d);
  }

  lemma {:induction false} SameLength(n: nat, d: seq<byte>)
    requires ReadMany(ReadTx, n, d).Got?
    ensures var p := ReadMany(ReadTx, n, d); |WriteMany(WriteTx, p.value)| + |p.rest| == |d|
  {
    hide ReadTx, Serialize, FlagNormalised;
    if n > 0 {
      ParseCanonical(d);
      SameLength(n - 1, ReadTx(d).rest);
      var p := ReadMany(ReadTx, n, d);
      assert p.value[1..] == ReadMany(ReadTx, n - 1, ReadTx(d).rest).value;
      assert |WriteTx(p.value[0])| + |ReadTx(d).rest| == |d|;
    }
  }

  /** An accepted block is spelled the same size with the same header, and that spelling parses to it. */
  lemma BlockCanonical(d: seq<byte>)
    requires ParseBlock(d).Ok?
    ensures var b := ParseBlock(d).value;
      && ParseBlock(WriteBlock(b)) == Ok(b)
      && |WriteBlock(b)| == |d|
      && WriteHeader(b.header) == d[..80]
  {
    hide ReadTx, WriteTx, Sized, Parseable, WriteHeader, HeaderOf, ReadCompact, WriteCompact, WriteMany, ReadMany;
    var b := ParseBlock(d).value;
    var p := ReadCompact(d[80..]);
    CompactCanonical(d[80..]);
    TxsAreFit(p.value, p.rest);
    SameLength(p.value, p.rest);
    HeaderCanonical(d);
    BlockInverts(b);
  }

  /** A transaction is at least ten bytes, and what follows it is a suffix of the input. */
  lemma ConsumedTen(d: seq<byte>)
    requires ReadTx(d).Got?
    ensures var rest := ReadTx(d).rest; |rest| + 10 <= |d| && d[|d| - |rest|..] == rest
  {
    hide ReadTx, Serialize, FlagNormalised;
    ParseCanonical(d);
    SerializeParts(ReadTx(d).value, []);
    NormalisedTail(d, |d| - |ReadTx(d).rest|);
  }

  lemma NormalisedTail(d: seq<byte>, k: int)
    requires |d| >= 10 && 10 <= k <= |d|
    ensures FlagNormalised(d)[k..] == d[k..]
  {
  }

  /** The bytes of n transactions with each segwit flag set to 1, and whatever follows them. */
  function TxsNormalised(n: nat, d: seq<byte>): seq<byte>
    requires ReadMany(ReadTx, n, d).Got?
  {
    hide ReadTx;
    if n == 0 then d
    else
      ConsumedTen(d);
      var rest := ReadTx(d).rest;
      FlagNormalised(d)[..|d| - |rest|] + TxsNormalised(n - 1, rest)
  }

  /** Whether every one of n transactions that has a flag byte has a 1 there. */
  predicate FlagsAreOne(n: nat, d: seq<byte>)
    requires ReadMany(ReadTx, n, d).Got?
  {
    hide ReadTx;
    if n == 0 then true
    else
      ConsumedTen(d);
      (d[4] == 0 ==> d[5] == 1) && FlagsAreOne(n - 1, ReadTx(d).rest)
  }

  lemma {:induction false} TxsRespelled(n: nat, d: seq<byte>)
    requires ReadMany(ReadTx, n, d).Got?
    ensures var p := ReadMany(ReadTx, n, d); WriteMany(WriteTx, p.value) + p.rest == TxsNormalised(n, d)
  {
    hide ReadTx, Serialize, FlagNormalised;
    if n > 0 {
      var tx, rest := ReadTx(d).value, ReadTx(d).rest;
      ParseCanonical(d);
      TxsRespelled(n - 1, rest);
      var p := ReadMany(ReadTx, n, d);
      assert p.value[1..] == ReadMany(ReadTx, n - 1, rest).value;
      assert |WriteTx(tx)| == |d| - |rest|;
      assert FlagNormalised(d)[..|d| - |rest|] == WriteTx(tx);
      assert WriteMany(WriteTx, p.value) + p.rest == WriteTx(tx) + (WriteMany(WriteTx, p.value[1..]) + p.rest);
    }
  }

  lemma SplitEqual(head: seq<byte>, tail: seq<byte>, d: seq<byte>, k: nat)
    requires |head| == k <= |d|
    ensures head + tail == d <==> head == d[..k] && tail == d[k..]
  {
    assert d == d[..k] + d[k..];
    assert (head + tail)[..k] == head && (head + tail)[k..] == tail;
  }

  lemma HeadNormalised(d: seq<byte>, k: nat)
    requires 10 <= k <= |d|
    ensures FlagNormalised(d)[..k] == d[..k] <==> (d[4] == 0 ==> d[5] == 1)
  {
    assert FlagNormalised(d)[..k][5] == FlagNormalised(d)[5] && d[..k][5] == d[5];
  }

  lemma {:induction false} NormalisedIff(n: nat, d: seq<byte>)
    requires ReadMany(ReadTx, n, d).Got?
    ensures |TxsNormalised(n, d)| == |d|
    ensures TxsNormalised(n, d) == d <==> FlagsAreOne(n, d)
  {
    hide ReadTx, FlagNormalised;
    if n > 0 {
      var rest := ReadTx(d).rest;
      ConsumedTen(d);
      NormalisedIff(n - 1, rest);
      var k := |d| - |rest|;
      HeadNormalised(d, k);
      SplitEqual(FlagNormalised(d)[..k], TxsNormalised(n - 1, rest), d, k);
    }
  }

  /**
   * Writing an accepted block back gives its bytes with the flag byte of each segwit transaction set to 1;
   * so it is reproduced exactly when those bytes all were 1.
   */
  lemma BlockRespelled(d: seq<byte>)
    requires ParseBlock(d).Ok?
    ensures var p := ReadCompact(d[80..]);
      && p.Got? && ReadMany(ReadTx, p.value, p.rest).Got?
      && WriteBlock(ParseBlock(d).value) == d[..|d| - |p.rest|] + TxsNormalised(p.value, p.rest)
      && (WriteBlock(ParseBlock(d).value) == d <==> FlagsAreOne(p.value, p.rest))
  {
    hide ReadTx, WriteTx, WriteHeader, HeaderOf, ReadCompact, WriteCompact, WriteMany, ReadMany, TxsNormalised, FlagsAreOne;
    var p := ReadCompact(d[80..]);
    var b := ParseBlock(d).value;
    CompactCanonical(d[80..]);
    HeaderCanonical(d);
    TxsRespelled(p.value, p.rest);
    NormalisedIff(p.value, p.rest);
    TxsAreFit(p.value, p.rest);
    var body := WriteMany(WriteTx, b.txs);
    assert body + [] == body;
    var k := |d| - |p.rest|;
    assert d[..k] == d[..80] + WriteCompact(p.value) && d[k..] == p.rest;
    assert WriteBlock(b) == d[..k] + TxsNormalised(p.value, p.rest);
    assert d == d[..k] + p.rest;
    if WriteBlock(b) == d {
      assert d[k..] == TxsNormalised(p.value, p.rest);
    }
  }
}
