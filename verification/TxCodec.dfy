/** The cursor parser and the appending serializer, step by step, against the functions they compute. */
module TxCodec {
  import opened Bytes
  import opened Wire
  import opened Transaction
  import opened Blocks
  import opened Radix

  // ----- Fixed-width integers -----

  lemma {:induction false} FromLeSnoc(s: seq<byte>, b: byte)
    ensures FromLe(s + [b]) == FromLe(s) + b * Pow256(|s|)
  {
    if s == [] {
      assert [b][1..] == [];
    } else {
      FromLeSnoc(s[1..], b);
      assert (s + [b])[1..] == s[1..] + [b];
      Scale(b, Pow256(|s| - 1));
    }
  }

  lemma Scale(b: nat, p: nat)
    ensures 0x100 * (b * p) == b * (0x100 * p)
  {
  }

  lemma {:induction false} LeSnoc(v: nat, n: nat)
    ensures Le(v, n + 1) == Le(v, n) + [v / Pow256(n) % 0x100]
  {
    if n > 0 {
      LeSnoc(v / 0x100, n - 1);
      Shift(v, Pow256(n - 1));
    }
  }

  lemma Shift(v: nat, p: nat)
    requires p > 0
    ensures v / 0x100 / p == v / (0x100 * p)
  {
    var q := v / 0x100 / p;
    var a := v / 0x100;
    assert a == q * p + a % p;
    assert v == 0x100 * a + v % 0x100;
    assert 0x100 * (q * p) == q * (0x100 * p);
    var r := 0x100 * (a % p) + v % 0x100;
    assert v == q * (0x100 * p) + r && 0 <= r < 0x100 * p;
    DivFacts(v, 0x100 * p);
    DivModUnique(q, r, v / (0x100 * p), v % (0x100 * p), 0x100 * p);
  }

  /** The byte loop of read_le64, of any width. */
  method ReadLittleEndian(data: seq<byte>, off: nat, n: nat) returns (v: nat)
    requires off + n <= |data|
    ensures v == FromLe(data[off..off + n])
  {
    hide Pow256;
    v := 0;
    for i := 0 to n
      invariant v == FromLe(data[off..off + i])
    {
      FromLeSnoc(data[off..off + i], data[off + i]);
      assert data[off..off + i + 1] == data[off..off + i] + [data[off + i]];
      v := v + data[off + i] * Pow256(i);
    }
  }

  // ----- CompactSize -----

  /** What a step that starts at off and stops at next has read. */
  ghost predicate Advances<T>(data: seq<byte>, off: nat, r: Result<T>, next: nat, p: Parsed<T>)
    requires off <= |data|
  {
    match p
    case Got(v, rest) => r == Ok(v) && off <= next <= |data| && rest == data[next..]
    case Fail(m) => r == Err(m)
  }

  method ReadCompactSize(data: seq<byte>, off: nat) returns (r: Result<nat>, next: nat)
    requires off <= |data|
    ensures Advances(data, off, r, next, ReadCompact(data[off..]))
  {
    hide FromLe;
    next := off;
    if off >= |data| {
      return Err(BAD_COUNT), next;
    }
    var b := data[off];
    next := off + 1;
    assert data[off..][1..] == data[next..];
    if b < 0xfd {
      return Ok(b), next;
    }
    var width, below;
    if b == 0xfd {
      width, below := 2, 0xfc;
    } else if b == 0xfe {
      width, below := 4, 0xffff;
    } else {
      width, below := 8, 0xffff_ffff;
    }
    assert ReadCompact(data[off..]) == ReadLong(data[next..], width, below);
    if next + width > |data| {
      return Err(BAD_COUNT), next;
    }
    var n := ReadLittleEndian(data, next, width);
    assert data[next..][..width] == data[next..next + width];
    assert data[next..][width..] == data[next + width..];
    next := next + width;
    if n <= below {
      return Err(BAD_COUNT), next;
    }
    return Ok(n), next;
  }

  // ----- The cursor -----

  class Cursor {
    const data: seq<byte>
    var off: nat

    constructor (data: seq<byte>)
      ensures Valid() && off == 0 && Rest() == data
      ensures this.data == data
    {
      this.data := data;
      off := 0;
    }

    ghost predicate Valid()
      reads this
    {
      off <= |data|
    }

    ghost function Rest(): seq<byte>
      requires Valid()
      reads this
    {
      data[off..]
    }

    /** The result and the new position are the ones the reader gives; after a throw the position is dead. */
    ghost predicate Follows<T>(r: Result<T>, p: Parsed<T>)
      reads this
    {
      match p
      case Got(v, rest) => r == Ok(v) && Valid() && Rest() == rest
      case Fail(m) => r == Err(m)
    }

    method Need(n: nat) returns (r: Check)
      requires Valid()
      ensures r == if |Rest()| < n then Refused(BAD_TX) else Passed
    {
      r := if off + n > |data| then Refused(BAD_TX) else Passed;
    }

    method U8() returns (r: Result<byte>)
      requires Valid()
      modifies this`off
      ensures if old(Rest()) == [] then r == Err(BAD_TX)
              else r == Ok(old(Rest())[0]) && Valid() && Rest() == old(Rest())[1..]
    {
      var at := off;
      :- Need(1);
      off := at + 1;
      return Ok(data[at]);
    }

    method Word32() returns (r: Result<uint32>)
      requires Valid()
      modifies this`off
      ensures Follows(r, ReadWord32(old(Rest())))
    {
      var at := off;
      :- Need(4);
      var v := ReadLittleEndian(data, at, 4);
      assert data[at..][..4] == data[at..at + 4];
      assert v == ReadLe32(data[at..at + 4]);
      off := at + 4;
      return Ok(v);
    }

    method Word64() returns (r: Result<uint64>)
      requires Valid()
      modifies this`off
      ensures Follows(r, ReadWord64(old(Rest())))
    {
      var at := off;
      :- Need(8);
      var v := ReadLittleEndian(data, at, 8);
      assert data[at..][..8] == data[at..at + 8];
      assert v == ReadLe64(data[at..at + 8]);
      off := at + 8;
      return Ok(v);
    }

    method Compact() returns (r: Result<nat>)
      requires Valid()
      modifies this`off
      ensures Follows(r, ReadCompact(old(Rest())))
    {
      hide ReadCompact;
      var next;
      r, next := ReadCompactSize(data, off);
      if r.Ok? {
        off := next;
      }
    }

    method Bytes(n: nat) returns (r: Result<seq<byte>>)
      requires Valid()
      modifies this`off
      ensures Follows(r, ReadBytes(n, old(Rest())))
    {
      var at := off;
      :- Need(n);
      assert data[at..][..n] == data[at..at + n];
      off := at + n;
      return Ok(data[at..off]);
    }

    method Copy32() returns (r: Result<Hash256>)
      requires Valid()
      modifies this`off
      ensures Follows(r, ReadHash(old(Rest())))
    {
      var at := off;
      :- Need(32);
      assert data[at..][..32] == data[at..at + 32];
      off := at + 32;
      return Ok(data[at..off]);
    }

    method BoundCount(n: nat) returns (r: Check)
      requires Valid()
      ensures r == if n > |Rest()| then Refused(BAD_TX) else Passed
    {
      var remain := if off <= |data| then |data| - off else 0;
      r := if n > remain then Refused(BAD_TX) else Passed;
    }

    /** A length, checked against the whole buffer first as the source does, then the bytes. */
    method Blob() returns (r: Result<seq<byte>>)
      requires Valid()
      modifies this`off
      ensures Follows(r, ReadBlob(old(Rest())))
    {
      hide ReadCompact;
      var n :- Compact();
      if n > |data| {
        return Err(BAD_TX);
      }
      r := Bytes(n);
    }
  }

  // ----- Loops over counted items -----

  function Prepend<T>(done: seq<T>, p: Parsed<seq<T>>): Parsed<seq<T>> {
    match p
    case Fail(m) => Fail(m)
    case Got(xs, rest) => Got(done + xs, rest)
  }

  /** Reading n items from start amounts to the items done followed by reading the others from rest. */
  ghost predicate Resumes<T>(read: Reader<T>, n: nat, start: seq<byte>, done: seq<T>, rest: seq<byte>) {
    |done| <= n && ReadMany(read, n, start) == Prepend(done, ReadMany(read, n - |done|, rest))
  }

  lemma ResumesStart<T>(read: Reader<T>, n: nat, start: seq<byte>)
    ensures Resumes(read, n, start, [], start)
  {
    hide ReadMany;
    var p := ReadMany(read, n, start);
    if p.Got? {
      assert [] + p.value == p.value;
    }
  }

  lemma ResumesStep<T>(read: Reader<T>, n: nat, start: seq<byte>, done: seq<T>, rest: seq<byte>)
    requires Resumes(read, n, start, done, rest) && |done| < n
    ensures read(rest).Fail? ==> ReadMany(read, n, start) == Fail(read(rest).message)
    ensures read(rest).Got? ==> Resumes(read, n, start, done + [read(rest).value], read(rest).rest)
  {
    if read(rest).Got? {
      var x, p := read(rest).value, ReadMany(read, n - |done| - 1, read(rest).rest);
      if p.Got? {
        assert done + ([x] + p.value) == done + [x] + p.value;
      }
    }
  }

  lemma ResumesEnd<T>(read: Reader<T>, n: nat, start: seq<byte>, done: seq<T>, rest: seq<byte>)
    requires Resumes(read, n, start, done, rest) && |done| == n
    ensures ReadMany(read, n, start) == Got(done, rest)
  {
    assert done + [] == done;
  }

  // ----- parse_tx -----

  method ParseInput(c: Cursor) returns (r: Result<TxIn>)
    requires c.Valid()
    modifies c`off
    ensures c.Follows(r, ReadTxIn(old(c.Rest())))
  {
    hide ReadHash, ReadWord32, ReadBlob;
    var prevTxid :- c.Copy32();
    var prevVout :- c.Word32();
    var scriptSig :- c.Blob();
    var sequence :- c.Word32();
    return Ok(TxIn(prevTxid, prevVout, scriptSig, sequence, []));
  }

  method ParseInputs(c: Cursor) returns (r: Result<seq<TxIn>>)
    requires c.Valid()
    modifies c`off
    ensures c.Follows(r, ReadCounted(ReadTxIn, old(c.Rest())))
  {
    hide ReadCompact, ReadTxIn, ReadMany, Resumes;
    var n :- c.Compact();
    :- c.BoundCount(n);
    ghost var start := c.Rest();
    var vin: seq<TxIn> := [];
    ResumesStart(ReadTxIn, n, start);
    while |vin| < n
      invariant |vin| <= n && c.Valid() && Resumes(ReadTxIn, n, start, vin, c.Rest())
    {
      ResumesStep(ReadTxIn, n, start, vin, c.Rest());
      var input :- ParseInput(c);
      vin := vin + [input];
    }
    ResumesEnd(ReadTxIn, n, start, vin, c.Rest());
    return Ok(vin);
  }

  method ParseOutput(c: Cursor) returns (r: Result<TxOut>)
    requires c.Valid()
    modifies c`off
    ensures c.Follows(r, ReadTxOut(old(c.Rest())))
  {
    hide ReadWord64, ReadBlob, AsInt64;
    var value :- c.Word64();
    var script :- c.Blob();
    return Ok(TxOut(AsInt64(value), script));
  }

  method ParseOutputs(c: Cursor) returns (r: Result<seq<TxOut>>)
    requires c.Valid()
    modifies c`off
    ensures c.Follows(r, ReadCounted(ReadTxOut, old(c.Rest())))
  {
    hide ReadCompact, ReadTxOut, ReadMany, Resumes;
    var n :- c.Compact();
    :- c.BoundCount(n);
    ghost var start := c.Rest();
    var vout: seq<TxOut> := [];
    ResumesStart(ReadTxOut, n, start);
    while |vout| < n
      invariant |vout| <= n && c.Valid() && Resumes(ReadTxOut, n, start, vout, c.Rest())
    {
      ResumesStep(ReadTxOut, n, start, vout, c.Rest());
      var output :- ParseOutput(c);
      vout := vout + [output];
    }
    ResumesEnd(ReadTxOut, n, start, vout, c.Rest());
    return Ok(vout);
  }

  method ParseStack(c: Cursor) returns (r: Result<seq<seq<byte>>>)
    requires c.Valid()
    modifies c`off
    ensures c.Follows(r, ReadStack(old(c.Rest())))
  {
    hide ReadCompact, ReadBlob, ReadMany, Resumes;
    var n :- c.Compact();
    :- c.BoundCount(n);
    ghost var start := c.Rest();
    var items: seq<seq<byte>> := [];
    ResumesStart(ReadBlob, n, start);
    while |items| < n
      invariant |items| <= n && c.Valid() && Resumes(ReadBlob, n, start, items, c.Rest())
    {
      ResumesStep(ReadBlob, n, start, items, c.Rest());
      var item :- c.Blob();
      items := items + [item];
    }
    ResumesEnd(ReadBlob, n, start, items, c.Rest());
    return Ok(items);
  }

  /** Fills each input's witness in place. */
  method ParseWitness(c: Cursor, unsigned: seq<TxIn>) returns (r: Result<seq<TxIn>>)
    requires c.Valid()
    modifies c`off
    ensures c.Follows(r, ReadWitness(true, unsigned, old(c.Rest())))
  {
    hide ReadStack, ReadMany, Resumes;
    ghost var n, start := |unsigned|, c.Rest();
    ghost var stacks: seq<seq<seq<byte>>> := [];
    var vin := unsigned;
    ResumesStart(ReadStack, n, start);
    for i := 0 to |unsigned|
      invariant c.Valid() && |stacks| == i && Resumes(ReadStack, n, start, stacks, c.Rest())
      invariant |vin| == n && vin == Attach(unsigned[..i], stacks) + unsigned[i..]
    {
      ResumesStep(ReadStack, n, start, stacks, c.Rest());
      var items :- ParseStack(c);
      vin := vin[i := vin[i].(stack := items)];
      stacks := stacks + [items];
    }
    ResumesEnd(ReadStack, n, start, stacks, c.Rest());
    assert unsigned[..n] == unsigned && vin == Attach(unsigned, stacks);
    return Ok(vin);
  }

  /** The marker and flag bytes; answers has_witness. */
  method ParseMarker(c: Cursor) returns (r: Result<bool>)
    requires c.Valid()
    modifies c`off
    ensures c.Follows(r, ReadMarker(old(c.Rest())))
  {
    var at := c.off;
    :- c.Need(1);
    if c.data[at] == 0x00 {
      var _ := c.U8();
      var flag :- c.U8();
      if flag == 0 {
        return Err(BAD_TX);
      }
      var hasWitness := flag % 2 != 0;
      if !hasWitness {
        return Err(BAD_TX);
      }
      return Ok(true);
    }
    return Ok(false);
  }

  method ParseLists(c: Cursor, hasWitness: bool) returns (r: Result<(seq<TxIn>, seq<TxOut>)>)
    requires c.Valid()
    modifies c`off
    ensures c.Follows(r, ReadLists(hasWitness, old(c.Rest())))
  {
    hide ReadCounted, ReadTxIn, ReadTxOut, ReadWitness;
    var vin :- ParseInputs(c);
    var vout :- ParseOutputs(c);
    WitnessCases(vin, c.Rest());
    if hasWitness {
      vin :- ParseWitness(c, vin);
    }
    return Ok((vin, vout));
  }

  method ParseTxAt(data: seq<byte>) returns (r: Result<(Tx, nat)>)
    ensures ReadTx(data).Fail? ==> r == Err(ReadTx(data).message)
    ensures ReadTx(data).Got? ==>
      && r.Ok? && r.value.0 == ReadTx(data).value
      && 0 < r.value.1 <= |data| && ReadTx(data).rest == data[r.value.1..]
  {
    hide ReadWord32, ReadMarker, ReadLists, AsInt32;
    if |data| < 10 {
      return Err(BAD_TX);
    }
    var c := new Cursor(data);
    var version :- c.Word32();
    var hasWitness :- ParseMarker(c);
    var lists :- ParseLists(c, hasWitness);
    label Tail:
    var locktime :- c.Word32();
    LocktimeLength(old@Tail(c.Rest()));
    return Ok((Tx(AsInt32(version), hasWitness, lists.0, lists.1, locktime), c.off));
  }

  lemma WitnessCases(vin: seq<TxIn>, d: seq<byte>)
    ensures ReadWitness(false, vin, d) == Got(vin, d)
  {
  }

  lemma LocktimeLength(d: seq<byte>)
    ensures ReadWord32(d).Got? ==> |ReadWord32(d).rest| + 4 == |d|
  {
    hide ReadLe32;
  }

  /** parse_tx of a whole buffer. */
  method ParseTx(data: seq<byte>) returns (r: Result<Tx>)
    ensures r == ParseWhole(data)
  {
    hide ReadTx;
    var parsed :- ParseTxAt(data);
    var (tx, used) := parsed;
    if used != |data| {
      return Err(BAD_TX);
    }
    return Ok(tx);
  }

  // ----- parse_block -----

  method ParseBlockBytes(data: seq<byte>) returns (r: Result<Block>)
    ensures r == ParseBlock(data)
  {
    hide ReadTx, ReadCompact, ReadMany, Resumes, ReadLe32;
    if |data| < 81 {
      return Err(BAD_BLOCK);
    }
    var version := ReadLittleEndian(data, 0, 4);
    var time := ReadLittleEndian(data, 68, 4);
    var bits := ReadLittleEndian(data, 72, 4);
    var nonce := ReadLittleEndian(data, 76, 4);
    HeaderWords(data, version, time, bits, nonce);
    var header := Header(AsInt32(version), data[4..36], data[36..68], time, bits, nonce);
    var n, off := ReadCompactSize(data, 80);
    if n.Err? {
      return Err(n.message);
    }
    if n.value > |data| - off {
      return Err(BAD_BLOCK);
    }
    ghost var start := data[off..];
    var txs: seq<Tx> := [];
    ResumesStart(ReadTx, n.value, start);
    while |txs| < n.value
      invariant |txs| <= n.value && off <= |data| && Resumes(ReadTx, n.value, start, txs, data[off..])
    {
      ResumesStep(ReadTx, n.value, start, txs, data[off..]);
      var one := ParseTxAt(data[off..]);
      if one.Err? {
        return Err(BAD_BLOCK);
      }
      var (tx, used) := one.value;
      if used == 0 {
        return Err(BAD_BLOCK);
      }
      assert data[off..][used..] == data[off + used..];
      txs := txs + [tx];
      off := off + used;
    }
    ResumesEnd(ReadTx, n.value, start, txs, data[off..]);
    if off != |data| {
      return Err(BAD_BLOCK);
    }
    return Ok(Block(header, txs));
  }

  lemma HeaderWords(data: seq<byte>, version: nat, time: nat, bits: nat, nonce: nat)
    requires |data| >= 80
    requires version == FromLe(data[0..4]) && time == FromLe(data[68..72])
    requires bits == FromLe(data[72..76]) && nonce == FromLe(data[76..80])
    ensures version == ReadLe32(data[..4]) && time == ReadLe32(data[68..72])
    ensures bits == ReadLe32(data[72..76]) && nonce == ReadLe32(data[76..80])
  {
    assert data[0..4] == data[..4];
  }

  // ----- The serializer -----

  /** The vector every write_* helper appends to. */
  class Sink {
    var out: seq<byte>

    constructor ()
      ensures out == []
    {
      out := [];
    }

    method Insert(b: seq<byte>)
      modifies this
      ensures out == old(out) + b
    {
      out := out + b;
    }

    method PushLe(v: nat, n: nat)
      modifies this
      ensures out == old(out) + Le(v, n)
    {
      hide Le, Pow256;
      EmptyLe(v);
      for i := 0 to n
        invariant out == old(out) + Le(v, i)
      {
        LeSnoc(v, i);
        out := out + [v / Pow256(i) % 0x100];
      }
    }

    method PushCompact(n: uint64)
      modifies this
      ensures out == old(out) + WriteCompact(n)
    {
      hide Le;
      if n < 0xfd {
        out := out + [n];
      } else if n <= 0xffff {
        out := out + [0xfd];
        PushLe(n, 2);
      } else if n <= 0xffff_ffff {
        out := out + [0xfe];
        PushLe(n, 4);
      } else {
        out := out + [0xff];
        PushLe(n, 8);
      }
    }

    method PushBlob(b: seq<byte>)
      requires |b| < TWO_64
      modifies this
      ensures out == old(out) + WriteBlob(b)
    {
      hide WriteCompact;
      PushCompact(|b|);
      Insert(b);
    }
  }

  lemma EmptyLe(v: nat)
    ensures Le(v, 0) == []
  {
  }

  lemma {:induction false} ManySnoc<T>(write: Writer<T>, xs: seq<T>, i: nat)
    requires i < |xs|
    ensures WriteMany(write, xs[..i + 1]) == WriteMany(write, xs[..i]) + write(xs[i])
  {
    if i == 0 {
      assert xs[..1] == [xs[0]] && [xs[0]][1..] == [] && xs[..0] == [];
    } else {
      ManySnoc(write, xs[1..], i - 1);
      assert xs[..i + 1][1..] == xs[1..][..i] && xs[..i][1..] == xs[1..][..i - 1];
    }
  }

  method PushVinVout(o: Sink, tx: Tx)
    requires Sized(tx)
    modifies o
    ensures o.out == old(o.out) + WriteVinVout(tx)
  {
    hide WriteCompact, WriteMany, Le, SizedStack;
    o.PushCompact(|tx.vin|);
    label Inputs:
    NoneWritten(WriteTxIn, tx.vin);
    for i := 0 to |tx.vin|
      invariant o.out == old@Inputs(o.out) + WriteMany(WriteTxIn, tx.vin[..i])
    {
      ManySnoc(WriteTxIn, tx.vin, i);
      assert tx.vin[i] in tx.vin;
      o.Insert(tx.vin[i].prevTxid);
      o.PushLe(tx.vin[i].prevVout, 4);
      o.PushBlob(tx.vin[i].scriptSig);
      o.PushLe(tx.vin[i].sequence, 4);
    }
    assert tx.vin[..|tx.vin|] == tx.vin;
    o.PushCompact(|tx.vout|);
    label Outputs:
    NoneWritten(WriteTxOut, tx.vout);
    for i := 0 to |tx.vout|
      invariant o.out == old@Outputs(o.out) + WriteMany(WriteTxOut, tx.vout[..i])
    {
      ManySnoc(WriteTxOut, tx.vout, i);
      assert tx.vout[i] in tx.vout;
      o.PushLe(AsUint64(tx.vout[i].value), 8);
      o.PushBlob(tx.vout[i].script);
    }
    assert tx.vout[..|tx.vout|] == tx.vout;
  }

  lemma NoneWritten<T>(write: Writer<T>, xs: seq<T>)
    ensures WriteMany(write, xs[..0]) == []
  {
  }

  method PushStack(o: Sink, items: seq<seq<byte>>)
    requires SizedStack(items)
    modifies o
    ensures o.out == old(o.out) + WriteStack(items)
  {
    hide WriteCompact, WriteMany, WriteBlob;
    o.PushCompact(|items|);
    label Items:
    NoneWritten(WriteBlob, items);
    for i := 0 to |items|
      invariant o.out == old@Items(o.out) + WriteMany(WriteBlob, items[..i])
    {
      ManySnoc(WriteBlob, items, i);
      assert items[i] in items;
      o.PushBlob(items[i]);
    }
    assert items[..|items|] == items;
  }

  method SerializeTx(tx: Tx, includeWitness: bool) returns (out: seq<byte>)
    requires Sized(tx)
    ensures out == Serialize(tx, includeWitness)
  {
    hide WriteMany, WriteVinVout, Le, WriteStack, SizedStack, SizedOut, AsUint32;
    var wit := includeWitness && tx.hasWitness;
    var o := new Sink();
    o.PushLe(AsUint32(tx.version), 4);
    if wit {
      o.Insert([0x00]);
      o.Insert([0x01]);
    }
    PushVinVout(o, tx);
    if wit {
      label Witness:
      var stacks := Stacks(tx.vin);
      NoneWritten(WriteStack, stacks);
      for i := 0 to |tx.vin|
        invariant o.out == old@Witness(o.out) + WriteMany(WriteStack, stacks[..i])
      {
        ManySnoc(WriteStack, stacks, i);
        assert tx.vin[i] in tx.vin;
        PushStack(o, tx.vin[i].stack);
      }
      assert stacks[..|tx.vin|] == stacks;
    }
    o.PushLe(tx.locktime, 4);
    out := o.out;
  }

  method SerializeBlockHeader(h: Header) returns (out: seq<byte>)
    ensures out == WriteHeader(h)
  {
    hide Le;
    var o := new Sink();
    o.PushLe(AsUint32(h.version), 4);
    o.Insert(h.prev);
    o.Insert(h.merkle);
    o.PushLe(h.time, 4);
    o.PushLe(h.bits, 4);
    o.PushLe(h.nonce, 4);
    out := o.out;
  }
}
