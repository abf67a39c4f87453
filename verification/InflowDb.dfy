/** The inflow database: per address, everything ever received, in how many transactions, and when last. */
module InflowDbs {
  import opened Bytes
  import opened Utxo
  import opened BalanceDbs
  import opened Audit

  datatype Row = Row(sats: uint64, count: uint64, last: uint32)

  const NO_ROW := Row(0, 0, 0)

  function EncodeRow(r: Row): (s: seq<byte>)
    ensures |s| == 20
  {
    Le64(r.sats) + Le64(r.count) + Le32(r.last)
  }

  function DecodeRow(raw: seq<byte>): Option<Row> {
    if |raw| != 20 then None
    else Some(Row(ReadLe64(raw[..8]), ReadLe64(raw[8..16]), ReadLe32(raw[16..20])))
  }

  lemma DecodeEncodeRow(r: Row)
    ensures DecodeRow(EncodeRow(r)) == Some(r)
  {
    hide Le64, Le32, ReadLe64, ReadLe32;
    FixedWidth64(r.sats, Le64(r.sats));
    FixedWidth64(r.count, Le64(r.count));
    FixedWidth32(r.last, Le32(r.last));
    var s := EncodeRow(r);
    assert s[..8] == Le64(r.sats) && s[8..16] == Le64(r.count) && s[16..20] == Le32(r.last);
  }

  /** Twenty bytes are one row's encoding; any other size is no row. */
  lemma DecodeRowIff(raw: seq<byte>, r: Row)
    ensures DecodeRow(raw).Some? <==> |raw| == 20
    ensures DecodeRow(raw) == Some(r) <==> raw == EncodeRow(r)
  {
    hide Le64, Le32, ReadLe64, ReadLe32;
    DecodeEncodeRow(r);
    if |raw| == 20 {
      FixedWidth64(0, raw[..8]);
      FixedWidth64(0, raw[8..16]);
      FixedWidth32(0, raw[16..20]);
      assert raw == raw[..8] + raw[8..16] + raw[16..20];
    }
  }

  function GetRow(store: Store, a: Address): Row {
    if KeyA(a) !in store || DecodeRow(store[KeyA(a)]).None? then NO_ROW else DecodeRow(store[KeyA(a)]).value
  }

  // ----- What a row should be -----

  predicate Pays(credits: seq<Credit>, a: Address) {
    exists i :: 0 <= i < |credits| && Counted(credits[i]) && credits[i].addr == a
  }

  /** One transaction counts once however many of its outputs pay the address. */
  function AfterTx(r: Row, credits: seq<Credit>, a: Address, time: uint32): Row {
    if !Pays(credits, a) then r
    else Row((r.sats + CreditedTo(Earnings(credits), a)) % TWO_64, (r.count + 1) % TWO_64, Later(time, r.last))
  }

  function Later(time: uint32, last: uint32): uint32 { if time > last then time else last }

  function AfterTxs(r: Row, txs: seq<TxEffects>, a: Address, time: uint32): Row {
    if txs == [] then r
    else AfterTx(AfterTxs(r, txs[..|txs| - 1], a, time), txs[|txs| - 1].credits, a, time)
  }

  // ----- apply -----

  /** The per-transaction map holds exactly the paid addresses, each with its sum modulo 2^64. */
  ghost predicate Tallied(byAddr: map<Address, uint64>, credits: seq<Credit>) {
    forall a :: TalliedAt(byAddr, credits, a)
  }

  predicate TalliedAt(byAddr: map<Address, uint64>, credits: seq<Credit>, a: Address) {
    && (a in byAddr <==> Pays(credits, a))
    && CreditedTo(Earnings(credits), a) % TWO_64 == if a in byAddr then byAddr[a] else 0
  }

  /** LevelDB can read the row of every address the credits pay. */
  ghost predicate Readable(credits: seq<Credit>, bad: set<seq<byte>>) {
    forall a :: Pays(credits, a) ==> KeyA(a) !in bad
  }

  lemma TalliedReadable(byAddr: map<Address, uint64>, credits: seq<Credit>, bad: set<seq<byte>>)
    requires Tallied(byAddr, credits)
    ensures Readable(credits, bad) <==> forall a :: a in byAddr ==> KeyA(a) !in bad
  {
    hide Pays, CreditedTo, Earnings, KeyA;
    assert forall a :: TalliedAt(byAddr, credits, a) ==> (a in byAddr <==> Pays(credits, a));
  }

  lemma TallyNothing(credits: seq<Credit>)
    ensures Tallied(map[], credits[..0])
  {
    assert Earnings(credits[..0]) == [];
  }

  lemma TallyOne(byAddr: map<Address, uint64>, credits: seq<Credit>, j: nat)
    requires j < |credits| && Tallied(byAddr, credits[..j])
    ensures var c := credits[j];
      var sum := if c.addr in byAddr then byAddr[c.addr] else 0;
      Tallied(if Counted(c) then byAddr[c.addr := (sum + c.amount) % TWO_64] else byAddr, credits[..j + 1])
  {
    hide Pays, CreditedTo, Earnings, Counted;
    var c := credits[j];
    var sum := if c.addr in byAddr then byAddr[c.addr] else 0;
    var after := if Counted(c) then byAddr[c.addr := (sum + c.amount) % TWO_64] else byAddr;
    var next := credits[..j + 1];
    forall a ensures TalliedAt(after, next, a) {
      assert TalliedAt(byAddr, credits[..j], a);
      OneMore(credits, j, a);
      AddMod(CreditedTo(Earnings(credits[..j]), a), c.amount);
    }
  }

  lemma UntalliedStays(byAddr: map<Address, uint64>, credits: seq<Credit>, time: uint32)
    requires Tallied(byAddr, credits)
    ensures forall a, r :: a !in byAddr ==> AfterTx(r, credits, a, time) == r
  {
    hide Pays;
    forall a, r | a !in byAddr ensures AfterTx(r, credits, a, time) == r {
      assert TalliedAt(byAddr, credits, a);
    }
  }

  lemma TalliedRow(byAddr: map<Address, uint64>, credits: seq<Credit>, a: Address, r: Row, time: uint32)
    requires Tallied(byAddr, credits) && a in byAddr
    ensures AfterTx(r, credits, a, time)
         == Row((r.sats + byAddr[a]) % TWO_64, (r.count + 1) % TWO_64, if time > r.last then time else r.last)
  {
    hide Pays, CreditedTo, Earnings;
    assert TalliedAt(byAddr, credits, a);
    AddMod(CreditedTo(Earnings(credits), a), r.sats);
  }

  function CachedRow(store: Store, rows: map<Address, Row>, a: Address): Row {
    if a in rows then rows[a] else GetRow(store, a)
  }

  /** bad is the set of keys that LevelDB fails to read, other than by not finding them. */
  class InflowDb {
    const writable: bool
    var store: Store

    constructor (store: Store, writable: bool)
      ensures this.store == store && this.writable == writable
    {
      this.store := store;
      this.writable := writable;
    }

    method FindRow(a: Address, bad: set<seq<byte>>) returns (r: Result<Row>)
      ensures r == if KeyA(a) in bad then Err(READ_FAILED) else Ok(GetRow(store, a))
    {
      var key := KeyA(a);
      if key in bad {
        return Err(READ_FAILED);
      }
      if key !in store {
        return Ok(NO_ROW);
      }
      var decoded := DecodeRow(store[key]);
      if decoded.None? {
        return Ok(NO_ROW);
      }
      return Ok(decoded.value);
    }

    /** The sums of one transaction by address, 64-bit additions. */
    method Tally(credits: seq<Credit>) returns (byAddr: map<Address, uint64>)
      ensures Tallied(byAddr, credits)
    {
      hide Tallied;
      byAddr := map[];
      TallyNothing(credits);
      for j := 0 to |credits|
        invariant Tallied(byAddr, credits[..j])
      {
        TallyOne(byAddr, credits, j);
        var c := credits[j];
        if c.addr == [] || c.amount == 0 {
          continue;
        }
        var sum := if c.addr in byAddr then byAddr[c.addr] else 0;
        byAddr := byAddr[c.addr := (sum + c.amount) % TWO_64];
      }
      assert credits[..|credits|] == credits;
    }

    /** Adds one transaction's sums to the cached rows, in whatever order the hash map gives them. */
    method Record(byAddr: map<Address, uint64>, rows: map<Address, Row>, time: uint32, bad: set<seq<byte>>,
                  ghost credits: seq<Credit>)
        returns (r: Result<map<Address, Row>>)
      requires Tallied(byAddr, credits) && forall a :: a in rows ==> KeyA(a) !in bad
      ensures r.Ok? <==> Readable(credits, bad)
      ensures r.Err? ==> r.message == READ_FAILED
      ensures r.Ok? ==> forall a :: a in r.value ==> KeyA(a) !in bad
      ensures r.Ok? ==>
        forall a :: CachedRow(store, r.value, a) == AfterTx(CachedRow(store, rows, a), credits, a, time)
    {
      hide GetRow, Tallied, AfterTx, Readable, KeyA;
      UntalliedStays(byAddr, credits, time);
      TalliedReadable(byAddr, credits, bad);
      var rows' := rows;
      var todo := byAddr.Keys;
      while todo != {}
        invariant todo <= byAddr.Keys
        invariant forall a :: a in rows' ==> KeyA(a) !in bad
        invariant forall a :: a in byAddr && a !in todo ==> KeyA(a) !in bad
        invariant forall a :: CachedRow(store, rows', a)
                           == if a in byAddr && a !in todo then AfterTx(CachedRow(store, rows, a), credits, a, time)
                              else CachedRow(store, rows, a)
        decreases |todo|
      {
        var a :| a in todo;
        var row;
        if a in rows' {
          row := rows'[a];
        } else {
          row :- FindRow(a, bad);
        }
        ghost var was := row;
        row := row.(sats := (row.sats + byAddr[a]) % TWO_64);
        row := row.(count := (row.count + 1) % TWO_64);
        if time > row.last {
          row := row.(last := time);
        }
        TalliedRow(byAddr, credits, a, was, time);
        rows' := rows'[a := row];
        todo := todo - {a};
      }
      return Ok(rows');
    }

    /** Every transaction's sums, added to the cached rows. */
    method Collect(fx: BlockEffects, bad: set<seq<byte>>) returns (r: Result<map<Address, Row>>)
      ensures r.Ok? <==> forall k :: 0 <= k < |fx.txs| ==> Readable(fx.txs[k].credits, bad)
      ensures r.Err? ==> r.message == READ_FAILED
      ensures r.Ok? ==> forall a :: CachedRow(store, r.value, a) == AfterTxs(GetRow(store, a), fx.txs, a, fx.time)
    {
      hide AfterTx, GetRow, Readable, Tallied, KeyA;
      var rows: map<Address, Row> := map[];
      for i := 0 to |fx.txs|
        invariant forall k :: 0 <= k < i ==> Readable(fx.txs[k].credits, bad)
        invariant forall a :: a in rows ==> KeyA(a) !in bad
        invariant forall a :: CachedRow(store, rows, a) == AfterTxs(GetRow(store, a), fx.txs[..i], a, fx.time)
      {
        var byAddr := Tally(fx.txs[i].credits);
        rows :- Record(byAddr, rows, fx.time, bad, fx.txs[i].credits);
        assert fx.txs[..i + 1][..i] == fx.txs[..i];
      }
      assert fx.txs[..|fx.txs|] == fx.txs;
      return Ok(rows);
    }

    method Apply(fx: BlockEffects, bad: set<seq<byte>>, writeOk: bool) returns (r: Check)
      modifies this
      ensures r == if !writable then Refused("internal: read-only database")
                   else if !(forall k :: 0 <= k < |fx.txs| ==> Readable(fx.txs[k].credits, bad)) then Refused(READ_FAILED)
                   else if !writeOk then Refused("leveldb write failed") else Passed
      ensures r.Passed? ==> forall a :: GetRow(store, a) == AfterTxs(old(GetRow(store, a)), fx.txs, a, fx.time)
      ensures r.Passed? ==> Tip(store) == Some((fx.height, fx.hash))
      ensures r.Refused? ==> store == old(store)
    {
      hide AfterTxs, GetRow, Write, Tip, Le32, Readable;
      if !writable {
        return Refused("internal: read-only database");
      }
      var collected := Collect(fx, bad);
      if collected.Err? {
        return Refused(collected.message);
      }
      var batch := PutRows(collected.value);
      WriteOne(store, batch, Put(HEIGHT_KEY, Le32(fx.height)));
      WriteOne(store, batch + [Put(HEIGHT_KEY, Le32(fx.height))], Put(TIP_KEY, fx.hash));
      MetaKeepsRows(Write(store, batch), fx.height, fx.hash);
      batch := batch + [Put(HEIGHT_KEY, Le32(fx.height))];
      batch := batch + [Put(TIP_KEY, fx.hash)];
      if !writeOk {
        return Refused("leveldb write failed");
      }
      store := Write(store, batch);
      return Passed;
    }

    method PutRows(rows: map<Address, Row>) returns (batch: seq<Op>)
      ensures forall a :: GetRow(Write(store, batch), a) == CachedRow(store, rows, a)
    {
      hide GetRow, KeyA, EncodeRow, Write;
      batch := [];
      WriteNothing(store);
      var todo := rows.Keys;
      while todo != {}
        invariant todo <= rows.Keys
        invariant forall a :: GetRow(Write(store, batch), a)
                           == if a in rows && a !in todo then rows[a] else GetRow(store, a)
        decreases |todo|
      {
        var a :| a in todo;
        WriteOne(store, batch, Put(KeyA(a), EncodeRow(rows[a])));
        PutRow(Write(store, batch), a, rows[a]);
        batch := batch + [Put(KeyA(a), EncodeRow(rows[a]))];
        todo := todo - {a};
      }
    }
  }

  lemma WriteNothing(store: Store)
    ensures Write(store, []) == store
  {
  }

  lemma PutRow(store: Store, a: Address, r: Row)
    ensures forall b :: GetRow(store[KeyA(a) := EncodeRow(r)], b) == if b == a then r else GetRow(store, b)
  {
    hide EncodeRow, DecodeRow, KeyA, KeyO;
    DecodeEncodeRow(r);
    forall b ensures GetRow(store[KeyA(a) := EncodeRow(r)], b) == if b == a then r else GetRow(store, b) {
      KeysInjective(Outpoint(Repeat(0, 32), 0), Outpoint(Repeat(0, 32), 0), a, b);
    }
  }

  lemma MetaKeepsRows(store: Store, height: uint32, hash: Hash256)
    ensures var put := store[HEIGHT_KEY := Le32(height)][TIP_KEY := hash];
      (forall a :: GetRow(put, a) == GetRow(store, a)) && Tip(put) == Some((height, hash))
  {
    hide DecodeRow, KeyA, KeyO, Le32, ReadLe32;
    FixedWidth32(height, Le32(height));
    KeysApart(Outpoint(Repeat(0, 32), 0), []);
    var put := store[HEIGHT_KEY := Le32(height)][TIP_KEY := hash];
    forall a ensures GetRow(put, a) == GetRow(store, a) { KeysApart(Outpoint(Repeat(0, 32), 0), a); }
  }

  lemma OneMore(credits: seq<Credit>, j: nat, a: Address)
    requires j < |credits|
    ensures CreditedTo(Earnings(credits[..j + 1]), a)
         == CreditedTo(Earnings(credits[..j]), a) + CreditOf(Earned(credits[j]), a)
    ensures Pays(credits[..j + 1], a) <==> Pays(credits[..j], a) || (Counted(credits[j]) && credits[j].addr == a)
  {
    assert Earnings(credits[..j + 1])[..j] == Earnings(credits[..j]);
    if Pays(credits[..j], a) {
      var i :| 0 <= i < j && Counted(credits[..j][i]) && credits[..j][i].addr == a;
      assert credits[..j + 1][i] == credits[i];
    }
    if Counted(credits[j]) && credits[j].addr == a {
      assert credits[..j + 1][j] == credits[j];
    }
  }

  // ----- Over runs of blocks -----

  function InflowRun(blocks: seq<BlockEffects>, a: Address): Row {
    if blocks == [] then NO_ROW
    else
      var fx := blocks[|blocks| - 1];
      AfterTxs(InflowRun(blocks[..|blocks| - 1], a), fx.txs, a, fx.time)
  }

  function PayingTxs(txs: seq<TxEffects>, a: Address): nat {
    if txs == [] then 0
    else PayingTxs(txs[..|txs| - 1], a) + (if Pays(txs[|txs| - 1].credits, a) then 1 else 0)
  }

  function PayingTxsIn(blocks: seq<BlockEffects>, a: Address): nat {
    if blocks == [] then 0
    else PayingTxsIn(blocks[..|blocks| - 1], a) + PayingTxs(blocks[|blocks| - 1].txs, a)
  }

  /** The largest time of a block that pays the address, 0 if none does. */
  function LastPaid(blocks: seq<BlockEffects>, a: Address): uint32 {
    if blocks == [] then 0
    else
      var fx, before := blocks[|blocks| - 1], LastPaid(blocks[..|blocks| - 1], a);
      if PayingTxs(fx.txs, a) > 0 then Later(fx.time, before) else before
  }

  lemma {:induction false} SpendsCreditNothing(ops: seq<Outpoint>, a: Address)
    ensures CreditedTo(Spends(ops), a) == 0
  {
    if ops != [] {
      SpendsCreditNothing(ops[..|ops| - 1], a);
      assert Spends(ops)[..|ops| - 1] == Spends(ops[..|ops| - 1]);
    }
  }

  lemma {:induction false} UnpaidGetsNothing(credits: seq<Credit>, a: Address)
    requires !Pays(credits, a)
    ensures CreditedTo(Earnings(credits), a) == 0
  {
    if credits != [] {
      var n := |credits| - 1;
      OneMore(credits, n, a);
      assert credits[..n + 1] == credits;
      UnpaidGetsNothing(credits[..n], a);
    }
  }

  lemma AddMod(x: nat, y: nat)
    ensures (x % TWO_64 + y) % TWO_64 == (x + y) % TWO_64
  {
  }

  lemma TxTotals(r: Row, sats: nat, count: nat, te: TxEffects, a: Address, time: uint32)
    requires r.sats == sats % TWO_64 && r.count == count % TWO_64
    ensures var after := AfterTx(r, te.credits, a, time);
      && after.sats == (sats + CreditedTo(TxEvents(te), a)) % TWO_64
      && after.count == (count + (if Pays(te.credits, a) then 1 else 0)) % TWO_64
      && after.last == if Pays(te.credits, a) then Later(time, r.last) else r.last
  {
    hide Spends, Earnings, Pays, CreditedTo;
    SpendsCreditNothing(te.spends, a);
    CreditedConcat(Spends(te.spends), Earnings(te.credits), a);
    if !Pays(te.credits, a) {
      UnpaidGetsNothing(te.credits, a);
    }
    AddMod(sats, CreditedTo(Earnings(te.credits), a));
    AddMod(count, 1);
  }

  lemma {:induction false} BlockTotals(r: Row, sats: nat, count: nat, txs: seq<TxEffects>, a: Address, time: uint32)
    requires r.sats == sats % TWO_64 && r.count == count % TWO_64
    ensures var after := AfterTxs(r, txs, a, time);
      && after.sats == (sats + CreditedTo(BlockEvents(txs), a)) % TWO_64
      && after.count == (count + PayingTxs(txs, a)) % TWO_64
      && after.last == if PayingTxs(txs, a) > 0 then Later(time, r.last) else r.last
  {
    hide TxEvents, Pays, CreditedTo, AfterTx;
    if txs == [] {
      NoCredit(a);
    } else {
      var n := |txs| - 1;
      var te, before := txs[n], BlockEvents(txs[..n]);
      BlockTotals(r, sats, count, txs[..n], a, time);
      TxTotals(AfterTxs(r, txs[..n], a, time), sats + CreditedTo(before, a), count + PayingTxs(txs[..n], a), te, a, time);
      CreditedConcat(before, TxEvents(te), a);
    }
  }

  lemma NoCredit(a: Address)
    ensures CreditedTo([], a) == 0
  {
  }

  /** A row is (sum of credits, number of paying transactions, time of the latest paying block), modulo 2^64. */
  lemma {:induction false} RowMeaning(blocks: seq<BlockEffects>, a: Address)
    ensures InflowRun(blocks, a)
         == Row(CreditedTo(AllEvents(blocks), a) % TWO_64, PayingTxsIn(blocks, a) % TWO_64, LastPaid(blocks, a))
  {
    hide AfterTxs, PayingTxs, BlockEvents;
    if blocks != [] {
      var n := |blocks| - 1;
      var init, fx := blocks[..n], blocks[n];
      RowMeaning(init, a);
      BlockTotals(InflowRun(init, a), CreditedTo(AllEvents(init), a), PayingTxsIn(init, a), fx.txs, a, fx.time);
      CreditedConcat(AllEvents(init), BlockEvents(fx.txs), a);
    }
  }

  /** Both indexes started empty: no balance exceeds the address's inflow, even for invalid blocks. */
  lemma BalanceWithinInflow(blocks: seq<BlockEffects>, a: Address)
    requires CreditedTo(AllEvents(blocks), a) < TWO_64
    ensures Balance(SnapRun(blocks).rows, a) <= InflowRun(blocks, a).sats
  {
    hide SnapRun, InflowRun, CreditedTo, AllEvents, Balance;
    BalanceWithinCredits(blocks, a);
    RowMeaning(blocks, a);
  }
}
