/** The balance database: rows as bytes in a key-value store with an atomic ordered batch. */
module BalanceDbs {
  import opened Bytes
  import opened Wire
  import opened Utxo

  type Store = map<seq<byte>, seq<byte>>

  datatype Op = Put(key: seq<byte>, value: seq<byte>) | Delete(key: seq<byte>)

  /** A batch is applied in order, so the last operation on a key wins. */
  function Write(store: Store, batch: seq<Op>): Store {
    if batch == [] then store
    else
      var before, op := Write(store, batch[..|batch| - 1]), batch[|batch| - 1];
      if op.Put? then before[op.key := op.value] else before - {op.key}
  }

  lemma WriteOne(store: Store, batch: seq<Op>, op: Op)
    ensures Write(store, batch + [op])
         == if op.Put? then Write(store, batch)[op.key := op.value] else Write(store, batch) - {op.key}
  {
    assert (batch + [op])[..|batch|] == batch;
  }

  // ----- Keys and values -----

  const HEIGHT_KEY: seq<byte> := [0x4d, 0x68, 0x65, 0x69, 0x67, 0x68, 0x74] // "Mheight"
  const TIP_KEY: seq<byte> := [0x4d, 0x74, 0x69, 0x70] // "Mtip"

  function KeyA(a: Address): seq<byte> { [0x41] + a }

  function KeyO(op: Outpoint): (k: seq<byte>)
    ensures |k| == 37 && k[0] == 0x4f
  {
    [0x4f] + op.txid + Le32(op.vout)
  }

  predicate IsKeyA(k: seq<byte>) { k != [] && k[0] == 0x41 }

  predicate IsKeyO(k: seq<byte>) { |k| == 37 && k[0] == 0x4f }

  function OpOf(k: seq<byte>): Outpoint
    requires IsKeyO(k)
  {
    Outpoint(k[1..33], ReadLe32(k[33..37]))
  }

  /** An outpoint row belongs to one outpoint. */
  lemma KeyOInverse(op: Outpoint, k: seq<byte>)
    ensures OpOf(KeyO(op)) == op
    ensures IsKeyO(k) ==> KeyO(OpOf(k)) == k
  {
    hide Le32, ReadLe32;
    FixedWidth32(op.vout, Le32(op.vout));
    assert KeyO(op)[1..33] == op.txid && KeyO(op)[33..37] == Le32(op.vout);
    if IsKeyO(k) {
      FixedWidth32(0, k[33..37]);
      assert k == [k[0]] + k[1..33] + k[33..37];
    }
  }

  function EncodeOut(c: Coin): seq<byte> { WriteBlob(c.addr) + Le64(c.amount) }

  /** The size test is made modulo 2^64, as size_t arithmetic makes it. */
  function DecodeOut(raw: seq<byte>): Option<Coin> {
    if |raw| < 9 then None
    else match ReadCompact(raw)
      case Fail(_) => None
      case Got(n, rest) =>
        if (|raw| - |rest| + n + 8) % TWO_64 != |raw| then None
        else Some(Coin(if n <= |rest| then rest[..n] else rest, ReadLe64(raw[|raw| - 8..])))
  }

  lemma DecodeEncodeOut(c: Coin)
    requires |c.addr| < TWO_64 - 100
    ensures DecodeOut(EncodeOut(c)) == Some(c)
  {
    hide ReadCompact, WriteCompact, Le64, ReadLe64;
    var tail := c.addr + Le64(c.amount);
    var raw := EncodeOut(c);
    assert raw == WriteCompact(|c.addr|) + tail;
    CompactInverts(|c.addr|, tail);
    FixedWidth64(c.amount, Le64(c.amount));
    assert raw[|raw| - 8..] == Le64(c.amount);
    assert tail[..|c.addr|] == c.addr;
  }

  /** The size test means what it says unless the count fills nine bytes. */
  lemma CountFits(n: nat, size: nat, left: nat)
    requires n < TWO_64 && size < TWO_64 && size == |WriteCompact(n)| + left
    requires size >= 17 || WriteCompact(n)[0] != 0xff
    ensures (size - left + n + 8) % TWO_64 == size ==> n + 8 == left
  {
    hide Le;
    var sum := size - left + n + 8;
    assert sum < TWO_64 || sum % TWO_64 == sum - TWO_64 < 17;
  }

  /**
   * A value decodes exactly when it is a coin's encoding. Below 17 bytes this needs the length not to be in its nine-byte
   * form: only there can the size test, made modulo 2^64, wrap.
   */
  lemma DecodeOutIff(raw: seq<byte>, c: Coin)
    requires |raw| < TWO_64 && |c.addr| < TWO_64 - 100 && (|raw| >= 17 || (|raw| > 0 ==> raw[0] != 0xff))
    ensures DecodeOut(raw) == Some(c) <==> raw == EncodeOut(c)
  {
    hide ReadCompact, WriteCompact, Le64, ReadLe64;
    if raw == EncodeOut(c) {
      DecodeEncodeOut(c);
    }
    if DecodeOut(raw) == Some(c) {
      var n, rest := ReadCompact(raw).value, ReadCompact(raw).rest;
      CompactCanonical(raw);
      CountFits(n, |raw|, |rest|);
      FixedWidth64(0, raw[|raw| - 8..]);
      assert raw == WriteCompact(n) + rest && rest == rest[..n] + rest[n..];
      assert rest[n..] == raw[|raw| - 8..];
    }
  }

  // ----- What the store says -----

  function RowAt(store: Store, a: Address): Option<uint64> {
    if KeyA(a) in store && |store[KeyA(a)]| == 8 then Some(ReadLe64(store[KeyA(a)])) else None
  }

  function GetSats(store: Store, a: Address): uint64 {
    match RowAt(store, a)
    case None => 0
    case Some(v) => v
  }

  function GetOutpoint(store: Store, op: Outpoint): Option<Coin> {
    if KeyO(op) in store then DecodeOut(store[KeyO(op)]) else None
  }

  predicate HasMetadata(store: Store) {
    && HEIGHT_KEY in store && |store[HEIGHT_KEY]| == 4
    && TIP_KEY in store && |store[TIP_KEY]| == 32
  }

  function Tip(store: Store): Option<(uint32, Hash256)> {
    if HasMetadata(store) then Some((ReadLe32(store[HEIGHT_KEY]), store[TIP_KEY])) else None
  }

  predicate CoinKey(store: Store, k: seq<byte>) { k in store && IsKeyO(k) && DecodeOut(store[k]).Some? }

  predicate RowKey(store: Store, k: seq<byte>) { k in store && IsKeyA(k) && |store[k]| == 8 }

  function Coins(store: Store): map<Outpoint, Coin> {
    KeysInverse();
    map k | k in store && CoinKey(store, k) :: OpOf(k) := DecodeOut(store[k]).value
  }

  function Rows(store: Store): map<Address, uint64> {
    KeysInverse();
    map k | k in store && RowKey(store, k) :: k[1..] := ReadLe64(store[k])
  }

  lemma KeysInverse()
    ensures forall k :: IsKeyO(k) ==> KeyO(OpOf(k)) == k
    ensures forall k :: IsKeyA(k) ==> KeyA(k[1..]) == k
  {
    hide KeyO, OpOf;
    forall k | IsKeyO(k) ensures KeyO(OpOf(k)) == k { KeyOInverse(Outpoint(k[1..33], 0), k); }
  }

  /** The ledger a store spells out. */
  function View(store: Store): Ledger { Ledger(Coins(store), Rows(store), Tip(store)) }

  /** A fresh database is the empty ledger. */
  lemma FreshStore()
    ensures View(map[]) == EMPTY
  {
    assert forall op :: GetOutpoint(map[], op) == None;
    assert Coins(map[]) == map[] && Rows(map[]) == map[];
  }

  /** Lookups by key answer what the view says. */
  lemma Lookups(store: Store, op: Outpoint, a: Address)
    ensures GetOutpoint(store, op) == if op in Coins(store) then Some(Coins(store)[op]) else None
    ensures RowAt(store, a) == if a in Rows(store) then Some(Rows(store)[a]) else None
    ensures GetSats(store, a) == Balance(Rows(store), a)
  {
    hide KeyO, OpOf, DecodeOut, ReadLe64;
    KeysInverse();
    KeyOInverse(op, []);
    var k := KeyO(op);
    if CoinKey(store, k) {
      assert OpOf(k) == op;
    }
    var j := KeyA(a);
    assert j[1..] == a;
    if RowKey(store, j) {
      assert a in Rows(store);
    }
  }

  lemma CoinsFromLookups(store: Store, coins: map<Outpoint, Coin>)
    requires forall op :: GetOutpoint(store, op) == if op in coins then Some(coins[op]) else None
    ensures Coins(store) == coins
  {
    hide GetOutpoint, Coins;
    forall op ensures op in Coins(store) <==> op in coins
              ensures op in coins ==> op in Coins(store) && Coins(store)[op] == coins[op]
    {
      Lookups(store, op, []);
    }
  }

  lemma RowsFromLookups(store: Store, rows: map<Address, uint64>)
    requires forall a :: RowAt(store, a) == if a in rows then Some(rows[a]) else None
    ensures Rows(store) == rows
  {
    hide RowAt, Rows;
    forall a ensures a in Rows(store) <==> a in rows
             ensures a in rows ==> a in Rows(store) && Rows(store)[a] == rows[a]
    {
      Lookups(store, Outpoint(Repeat(0, 32), 0), a);
    }
  }

  /** Outpoint rows, balance rows and metadata do not get in each other's way. */
  lemma KeysApart(op: Outpoint, a: Address)
    ensures KeyO(op) != KeyA(a) && KeyO(op) != HEIGHT_KEY && KeyO(op) != TIP_KEY
    ensures KeyA(a) != HEIGHT_KEY && KeyA(a) != TIP_KEY && HEIGHT_KEY != TIP_KEY
  {
    assert KeyA(a)[0] == 0x41 && HEIGHT_KEY[0] == 0x4d && TIP_KEY[0] == 0x4d && |HEIGHT_KEY| != |TIP_KEY|;
  }

  lemma KeysInjective(op: Outpoint, op': Outpoint, a: Address, a': Address)
    ensures KeyO(op) == KeyO(op') ==> op == op'
    ensures KeyA(a) == KeyA(a') ==> a == a'
  {
    hide KeyO;
    KeyOInverse(op, []);
    KeyOInverse(op', []);
    assert KeyA(a)[1..] == a && KeyA(a')[1..] == a';
  }

  /** One coin row written or removed changes that coin and nothing else. */
  lemma CoinOp(store: Store, op: Outpoint, c: Coin)
    requires |c.addr| < TWO_64 - 100
    ensures View(store[KeyO(op) := EncodeOut(c)]) == View(store).(coins := Coins(store)[op := c])
    ensures View(store - {KeyO(op)}) == View(store).(coins := Coins(store) - {op})
  {
    hide KeyO, KeyA, EncodeOut, DecodeOut, Coins, Rows, ReadLe64, ReadLe32;
    var put, del := store[KeyO(op) := EncodeOut(c)], store - {KeyO(op)};
    DecodeEncodeOut(c);
    KeysApart(op, []);
    forall op'
      ensures GetOutpoint(put, op') == if op' == op then Some(c) else GetOutpoint(store, op')
      ensures GetOutpoint(del, op') == if op' == op then None else GetOutpoint(store, op')
      ensures GetOutpoint(store, op') == if op' in Coins(store) then Some(Coins(store)[op']) else None
    {
      Lookups(store, op', []);
      KeysInjective(op, op', [], []);
    }
    forall a
      ensures RowAt(put, a) == RowAt(store, a) && RowAt(del, a) == RowAt(store, a)
      ensures RowAt(store, a) == if a in Rows(store) then Some(Rows(store)[a]) else None
    {
      Lookups(store, op, a);
      KeysApart(op, a);
    }
    Spells(put, Coins(store)[op := c], Rows(store));
    Spells(del, Coins(store) - {op}, Rows(store));
  }

  lemma Spells(after: Store, coins: map<Outpoint, Coin>, rows: map<Address, uint64>)
    requires forall op :: GetOutpoint(after, op) == if op in coins then Some(coins[op]) else None
    requires forall a :: RowAt(after, a) == if a in rows then Some(rows[a]) else None
    ensures Coins(after) == coins && Rows(after) == rows
  {
    hide GetOutpoint, RowAt, Coins, Rows;
    CoinsFromLookups(after, coins);
    RowsFromLookups(after, rows);
  }

  /** One balance row written or removed changes that balance and nothing else. */
  lemma RowOp(store: Store, a: Address, v: uint64)
    ensures View(store[KeyA(a) := Le64(v)]) == View(store).(rows := Rows(store)[a := v])
    ensures View(store - {KeyA(a)}) == View(store).(rows := Rows(store) - {a})
  {
    hide KeyO, KeyA, DecodeOut, Coins, Rows, ReadLe64, ReadLe32, Le64;
    var put, del := store[KeyA(a) := Le64(v)], store - {KeyA(a)};
    FixedWidth64(v, Le64(v));
    KeysApart(Outpoint(Repeat(0, 32), 0), a);
    forall op
      ensures GetOutpoint(put, op) == GetOutpoint(store, op) && GetOutpoint(del, op) == GetOutpoint(store, op)
      ensures GetOutpoint(store, op) == if op in Coins(store) then Some(Coins(store)[op]) else None
    {
      Lookups(store, op, a);
      KeysApart(op, a);
    }
    forall a'
      ensures RowAt(put, a') == if a' == a then Some(v) else RowAt(store, a')
      ensures RowAt(del, a') == if a' == a then None else RowAt(store, a')
      ensures RowAt(store, a') == if a' in Rows(store) then Some(Rows(store)[a']) else None
    {
      Lookups(store, Outpoint(Repeat(0, 32), 0), a');
      KeysInjective(Outpoint(Repeat(0, 32), 0), Outpoint(Repeat(0, 32), 0), a, a');
    }
    Spells(put, Coins(store), Rows(store)[a := v]);
    Spells(del, Coins(store), Rows(store) - {a});
  }

  /** Height and tip, written together, become the metadata and change nothing else. */
  lemma MetaOp(store: Store, height: uint32, hash: Hash256)
    ensures View(store[HEIGHT_KEY := Le32(height)][TIP_KEY := hash]) == View(store).(tip := Some((height, hash)))
  {
    hide KeyO, KeyA, DecodeOut, Coins, Rows, ReadLe64, ReadLe32, Le32;
    var put := store[HEIGHT_KEY := Le32(height)][TIP_KEY := hash];
    FixedWidth32(height, Le32(height));
    KeysApart(Outpoint(Repeat(0, 32), 0), []);
    forall op
      ensures GetOutpoint(put, op) == GetOutpoint(store, op)
      ensures GetOutpoint(store, op) == if op in Coins(store) then Some(Coins(store)[op]) else None
    {
      Lookups(store, op, []);
      KeysApart(op, []);
    }
    forall a
      ensures RowAt(put, a) == RowAt(store, a)
      ensures RowAt(store, a) == if a in Rows(store) then Some(Rows(store)[a]) else None
    {
      Lookups(store, Outpoint(Repeat(0, 32), 0), a);
      KeysApart(Outpoint(Repeat(0, 32), 0), a);
    }
    Spells(put, Coins(store), Rows(store));
  }

  // ----- apply -----

  /** Sizes that a std::string can have. */
  predicate Fits(fx: BlockEffects) {
    forall te :: te in fx.txs ==> forall c :: c in te.credits ==> FitsCredit(c)
  }

  predicate FitsCredit(c: Credit) { |c.addr| < TWO_64 - 100 }

  // The locals of apply: the batch and the two caches.
  datatype Locals = Locals(batch: seq<Op>, balances: map<Address, uint64>, created: map<seq<byte>, Coin>)

  /** The locals after some events: both caches, and the batch's effect on the snapshot. */
  ghost predicate Carries(snap: Store, done: seq<Event>, x: Locals) {
    var w := SnapPlay(View(snap), done);
    && x.balances == w.balances
    && Keyed(x.created, w.created)
    && View(Write(snap, x.batch)) == View(snap).(coins := w.coins)
  }

  /** The cache is keyed by the row key of the outpoint. */
  ghost predicate Keyed(created: map<seq<byte>, Coin>, coins: map<Outpoint, Coin>) {
    && (forall op :: KeyO(op) in created <==> op in coins)
    && (forall op :: op in coins ==> KeyO(op) in created && created[KeyO(op)] == coins[op])
  }

  lemma KeyedChange(created: map<seq<byte>, Coin>, coins: map<Outpoint, Coin>, op: Outpoint, c: Coin)
    requires Keyed(created, coins)
    ensures Keyed(created - {KeyO(op)}, coins - {op})
    ensures Keyed(created[KeyO(op) := c], coins[op := c])
    ensures KeyO(op) in created <==> op in coins
    ensures op in coins ==> created[KeyO(op)] == coins[op]
  {
    hide KeyO;
    forall op' ensures KeyO(op') == KeyO(op) <==> op' == op { KeysInjective(op, op', [], []); }
  }

  lemma CarriesNothing(snap: Store)
    ensures Carries(snap, [], Locals([], map[], map[]))
  {
    hide View;
    assert View(snap).(coins := View(snap).coins) == View(snap);
  }

  /** One coin operation appended to the batch acts on the coins written so far. */
  lemma BatchCoin(snap: Store, batch: seq<Op>, coins: map<Outpoint, Coin>, op: Outpoint, c: Coin)
    requires View(Write(snap, batch)) == View(snap).(coins := coins)
    requires |c.addr| < TWO_64 - 100
    ensures View(Write(snap, batch + [Put(KeyO(op), EncodeOut(c))])) == View(snap).(coins := coins[op := c])
    ensures View(Write(snap, batch + [Delete(KeyO(op))])) == View(snap).(coins := coins - {op})
  {
    hide KeyO, EncodeOut, Coins, Rows, Tip, Write;
    WriteOne(snap, batch, Put(KeyO(op), EncodeOut(c)));
    WriteOne(snap, batch, Delete(KeyO(op)));
    CoinOp(Write(snap, batch), op, c);
  }

  // ----- What apply reads -----

  const READ_FAILED := "leveldb read failed"

  function RowRead(balances: map<Address, uint64>, a: Address): set<seq<byte>> {
    if a in balances then {} else {KeyA(a)}
  }

  /** The rows an event makes apply read: those no cache answers for. */
  function ReadsFor(l: Ledger, w: Overlay, e: Event): set<seq<byte>> {
    match e
    case Spent(op) =>
      (if op in w.created then {} else {KeyO(op)})
      + (match Found(l, w.created, op) case None => {} case Some(c) => RowRead(w.balances, c.addr))
    case Earned(c) => if Counted(c) then RowRead(w.balances, c.addr) else {}
  }

  function ReadsOf(l: Ledger, events: seq<Event>): set<seq<byte>> {
    if events == [] then {}
    else
      var init := events[..|events| - 1];
      ReadsOf(l, init) + ReadsFor(l, SnapPlay(l, init), events[|events| - 1])
  }

  lemma ReadsNext(l: Ledger, done: seq<Event>, e: Event)
    ensures ReadsOf(l, done + [e]) == ReadsOf(l, done) + ReadsFor(l, SnapPlay(l, done), e)
  {
    hide ReadsFor;
    assert (done + [e])[..|done|] == done;
  }

  lemma {:induction false} ReadsGrow(l: Ledger, done: seq<Event>, all: seq<Event>)
    requires done <= all
    ensures ReadsOf(l, done) <= ReadsOf(l, all)
  {
    hide ReadsFor, SnapPlay;
    if |done| < |all| {
      ReadsGrow(l, done, all[..|all| - 1]);
    } else {
      assert done == all;
    }
  }

  // ----- One event -----

  /** Where a spent coin is looked for: the keyed cache, then the snapshot. */
  function FoundAt(snap: Store, created: map<seq<byte>, Coin>, op: Outpoint): Option<Coin> {
    if KeyO(op) in created then Some(created[KeyO(op)])
    else if op in View(snap).coins then Some(View(snap).coins[op]) else None
  }

  lemma CarriesSpent(snap: Store, done: seq<Event>, x: Locals, op: Outpoint)
    requires Carries(snap, done, x)
    ensures FoundAt(snap, x.created, op).None? ==> Carries(snap, done + [Spent(op)], x)
    ensures FoundAt(snap, x.created, op).Some? ==>
      var coin := FoundAt(snap, x.created, op).value;
      Carries(snap, done + [Spent(op)], Locals(
        x.batch + [Delete(KeyO(op))],
        x.balances[coin.addr := Debited(Current(View(snap), x.balances, coin.addr), coin.amount)], x.created - {KeyO(op)}))
  {
    hide View, Write, KeyO, Current, SnapPlay, Keyed;
    var w := SnapPlay(View(snap), done);
    PlayedOne(View(snap), done, Spent(op));
    KeyedChange(x.created, w.created, op, Coin([], 0));
    assert Found(View(snap), w.created, op) == FoundAt(snap, x.created, op);
    if FoundAt(snap, x.created, op).Some? {
      BatchCoin(snap, x.batch, w.coins, op, Coin([], 0));
    }
  }

  lemma SpentReads(snap: Store, done: seq<Event>, x: Locals, op: Outpoint)
    requires Carries(snap, done, x)
    ensures ReadsFor(View(snap), SnapPlay(View(snap), done), Spent(op))
         == (if KeyO(op) in x.created then {} else {KeyO(op)})
            + (match FoundAt(snap, x.created, op) case None => {} case Some(c) => RowRead(x.balances, c.addr))
  {
    hide View, Write, KeyO, SnapPlay, Keyed, RowRead;
    KeyedChange(x.created, SnapPlay(View(snap), done).created, op, Coin([], 0));
  }

  lemma EarnedReads(snap: Store, done: seq<Event>, x: Locals, c: Credit)
    requires Carries(snap, done, x)
    ensures ReadsFor(View(snap), SnapPlay(View(snap), done), Earned(c))
         == if Counted(c) then RowRead(x.balances, c.addr) else {}
  {
    hide View, Write, SnapPlay, Keyed, RowRead;
  }

  lemma CarriesEarned(snap: Store, done: seq<Event>, x: Locals, c: Credit)
    requires Carries(snap, done, x) && FitsCredit(c)
    ensures
      var coin := Coin(c.addr, c.amount);
      if !Counted(c) then Carries(snap, done + [Earned(c)], x)
      else Carries(snap, done + [Earned(c)], Locals(
        x.batch + [Put(KeyO(c.op), EncodeOut(coin))],
        x.balances[c.addr := Credited(Current(View(snap), x.balances, c.addr), c.amount)], x.created[KeyO(c.op) := coin]))
  {
    hide View, Write, KeyO, Current, SnapPlay, EncodeOut, Keyed;
    var w := SnapPlay(View(snap), done);
    PlayedOne(View(snap), done, Earned(c));
    if Counted(c) {
      BatchCoin(snap, x.batch, w.coins, c.op, Coin(c.addr, c.amount));
      KeyedChange(x.created, w.created, c.op, Coin(c.addr, c.amount));
    }
  }

  /** bad is the set of keys that LevelDB fails to read, other than by not finding them. */
  class BalanceDb {
    const writable: bool
    var store: Store

    constructor (store: Store, writable: bool)
      ensures this.store == store && this.writable == writable
    {
      this.store := store;
      this.writable := writable;
    }

    method ReadKey(key: seq<byte>, bad: set<seq<byte>>) returns (r: Result<Option<seq<byte>>>)
      ensures r == if key in bad then Err(READ_FAILED)
                   else Ok(if key in store then Some(store[key]) else None)
    {
      if key in bad {
        return Err(READ_FAILED);
      }
      return Ok(if key in store then Some(store[key]) else None);
    }

    method Sats(a: Address, bad: set<seq<byte>>) returns (r: Result<uint64>)
      ensures r == if KeyA(a) in bad then Err(READ_FAILED) else Ok(Balance(View(store).rows, a))
    {
      Lookups(store, Outpoint(Repeat(0, 32), 0), a);
      var raw :- ReadKey(KeyA(a), bad);
      if raw.None? || |raw.value| != 8 {
        return Ok(0);
      }
      return Ok(ReadLe64(raw.value));
    }

    method FindOutpoint(op: Outpoint, bad: set<seq<byte>>) returns (r: Result<Option<Coin>>)
      ensures r == if KeyO(op) in bad then Err(READ_FAILED)
                   else Ok(if op in View(store).coins then Some(View(store).coins[op]) else None)
    {
      Lookups(store, op, []);
      var raw :- ReadKey(KeyO(op), bad);
      if raw.None? {
        return Ok(None);
      }
      return Ok(DecodeOut(raw.value));
    }

    /** The cached balance, or the stored one. */
    method CurrentSats(balances: map<Address, uint64>, a: Address, bad: set<seq<byte>>) returns (r: Result<uint64>)
      ensures r == if RowRead(balances, a) !! bad then Ok(Current(View(store), balances, a)) else Err(READ_FAILED)
    {
      hide KeyA;
      if a in balances {
        return Ok(balances[a]);
      }
      r := Sats(a, bad);
    }

    method Debit(op: Outpoint, x: Locals, bad: set<seq<byte>>, ghost done: seq<Event>) returns (r: Result<Locals>)
      requires Carries(store, done, x)
      ensures r.Ok? <==> ReadsFor(View(store), SnapPlay(View(store), done), Spent(op)) !! bad
      ensures r.Err? ==> r.message == READ_FAILED
      ensures r.Ok? ==> Carries(store, done + [Spent(op)], r.value)
    {
      hide View, Write, KeyO, Current, Carries, RowRead, ReadsFor, SnapPlay;
      CarriesSpent(store, done, x, op);
      SpentReads(store, done, x, op);
      var ok, created := KeyO(op), x.created;
      var coin;
      if ok in created {
        coin := created[ok];
        created := created - {ok};
      } else {
        var found :- FindOutpoint(op, bad);
        if found.None? {
          return Ok(x);
        }
        coin := found.value;
        assert created - {ok} == created;
      }
      var cur :- CurrentSats(x.balances, coin.addr, bad);
      var balances := x.balances[coin.addr := if cur < coin.amount then 0 else cur - coin.amount];
      return Ok(Locals(x.batch + [Delete(ok)], balances, created));
    }

    method Earn(c: Credit, x: Locals, bad: set<seq<byte>>, ghost done: seq<Event>) returns (r: Result<Locals>)
      requires Carries(store, done, x) && FitsCredit(c)
      ensures r.Ok? <==> ReadsFor(View(store), SnapPlay(View(store), done), Earned(c)) !! bad
      ensures r.Err? ==> r.message == READ_FAILED
      ensures r.Ok? ==> Carries(store, done + [Earned(c)], r.value)
    {
      hide View, Write, KeyO, Current, EncodeOut, Carries, RowRead, ReadsFor, SnapPlay;
      CarriesEarned(store, done, x, c);
      EarnedReads(store, done, x, c);
      if c.addr == [] || c.amount == 0 {
        return Ok(x);
      }
      var cur :- CurrentSats(x.balances, c.addr, bad);
      var ok, coin := KeyO(c.op), Coin(c.addr, c.amount);
      return Ok(Locals(x.batch + [Put(ok, EncodeOut(coin))], x.balances[c.addr := (cur + c.amount) % TWO_64],
                       x.created[ok := coin]));
    }

    /** The balance rows, in whatever order the hash map gives them. */
    method Flush(balances: map<Address, uint64>, coins: seq<Op>, ghost w: Overlay) returns (batch: seq<Op>)
      requires balances == w.balances && View(Write(store, coins)) == View(store).(coins := w.coins)
      ensures View(Write(store, batch))
           == View(store).(coins := w.coins, rows := Flushed(View(store).rows, w.balances))
    {
      hide Coins, Rows, Tip, Flushed, Write, KeyA;
      batch := coins;
      ghost var rows := View(store).rows;
      ghost var put: map<Address, uint64> := map[];
      FlushNone(rows);
      var todo := balances.Keys;
      while todo != {}
        invariant todo <= balances.Keys && put.Keys == balances.Keys - todo
        invariant forall a :: a in put ==> put[a] == balances[a]
        invariant View(Write(store, batch)) == View(store).(coins := w.coins, rows := Flushed(rows, put))
        decreases |todo|
      {
        var a :| a in todo;
        var v := balances[a];
        FlushOne(rows, put, a, v);
        WriteOne(store, batch, Delete(KeyA(a)));
        WriteOne(store, batch, Put(KeyA(a), Le64(v)));
        RowOp(Write(store, batch), a, v);
        if v == 0 {
          batch := batch + [Delete(KeyA(a))];
        } else {
          batch := batch + [Put(KeyA(a), Le64(v))];
        }
        put := put[a := v];
        todo := todo - {a};
      }
      assert put == balances;
    }

    /** Plays the block's events on the caches, reading the old snapshot on every cache miss. */
    method Collect(fx: BlockEffects, bad: set<seq<byte>>) returns (r: Result<Locals>)
      requires Fits(fx)
      ensures r.Ok? <==> ReadsOf(View(store), BlockEvents(fx.txs)) !! bad
      ensures r.Err? ==> r.message == READ_FAILED
      ensures r.Ok? ==> Carries(store, BlockEvents(fx.txs), r.value)
    {
      hide View, Write, Carries, SnapPlay, FitsCredit, ReadsFor, BlockEvents, ReadsOf;
      var x := Locals([], map[], map[]);
      ghost var l, all, done: seq<Event> := View(store), BlockEvents(fx.txs), [];
      CarriesNothing(store);
      NothingRead(l, fx.txs);
      for i := 0 to |fx.txs|
        invariant done == BlockEvents(fx.txs[..i])
        invariant Carries(store, done, x) && ReadsOf(l, done) !! bad
      {
        var te := fx.txs[i];
        assert te in fx.txs;
        ghost var before := done;
        NextTx(fx.txs, i);
        for j := 0 to |te.spends|
          invariant done == before + Spends(te.spends[..j])
          invariant Carries(store, done, x) && ReadsOf(l, done) !! bad
        {
          NextSpend(before, te.spends, j);
          ReadsNext(l, done, Spent(te.spends[j]));
          SpendPrefix(before, te, j, all);
          ReadsGrow(l, done + [Spent(te.spends[j])], all);
          x :- Debit(te.spends[j], x, bad, done);
          done := done + [Spent(te.spends[j])];
        }
        for j := 0 to |te.credits|
          invariant done == before + Spends(te.spends) + Earnings(te.credits[..j])
          invariant Carries(store, done, x) && ReadsOf(l, done) !! bad
        {
          NextEarning(before + Spends(te.spends), te.credits, j);
          ReadsNext(l, done, Earned(te.credits[j]));
          EarningPrefix(before, te, j, all);
          ReadsGrow(l, done + [Earned(te.credits[j])], all);
          x :- Earn(te.credits[j], x, bad, done);
          done := done + [Earned(te.credits[j])];
        }
      }
      assert fx.txs[..|fx.txs|] == fx.txs;
      return Ok(x);
    }

    /** One atomic batch makes the collected changes the new snapshot; a failed read or write changes nothing. */
    method Apply(fx: BlockEffects, bad: set<seq<byte>>, writeOk: bool) returns (r: Check)
      requires Fits(fx)
      modifies this
      ensures r == if !writable then Refused("internal: read-only database")
                   else if !(ReadsOf(old(View(store)), BlockEvents(fx.txs)) !! bad) then Refused(READ_FAILED)
                   else if !writeOk then Refused("leveldb write failed") else Passed
      ensures View(store) == if r.Passed? then SnapApply(old(View(store)), fx) else old(View(store))
      ensures r.Refused? ==> store == old(store)
    {
      hide View, Write, Carries, SnapPlay, FitsCredit, Flushed, ReadsOf, BlockEvents;
      if !writable {
        return Refused("internal: read-only database");
      }
      var collected := Collect(fx, bad);
      if collected.Err? {
        return Refused(collected.message);
      }
      var x := collected.value;
      ghost var w := SnapPlay(View(store), BlockEvents(fx.txs));
      Unpack(store, BlockEvents(fx.txs), x);
      var batch := Flush(x.balances, x.batch, w);
      WriteOne(store, batch, Put(HEIGHT_KEY, Le32(fx.height)));
      WriteOne(store, batch + [Put(HEIGHT_KEY, Le32(fx.height))], Put(TIP_KEY, fx.hash));
      MetaOp(Write(store, batch), fx.height, fx.hash);
      batch := batch + [Put(HEIGHT_KEY, Le32(fx.height))];
      batch := batch + [Put(TIP_KEY, fx.hash)];
      if !writeOk {
        return Refused("leveldb write failed");
      }
      store := Write(store, batch);
      return Passed;
    }
  }

  lemma NothingRead(l: Ledger, txs: seq<TxEffects>)
    ensures ReadsOf(l, []) == {} && BlockEvents(txs[..0]) == []
  {
  }

  lemma Unpack(snap: Store, done: seq<Event>, x: Locals)
    requires Carries(snap, done, x)
    ensures x.balances == SnapPlay(View(snap), done).balances
    ensures View(Write(snap, x.batch)) == View(snap).(coins := SnapPlay(View(snap), done).coins)
  {
    hide View, Write, SnapPlay;
  }

  /** The events up to the next one are a prefix of the block's. */
  lemma SpendPrefix(before: seq<Event>, te: TxEffects, j: nat, all: seq<Event>)
    requires j < |te.spends| && before + Spends(te.spends) + Earnings(te.credits) <= all
    ensures before + Spends(te.spends[..j + 1]) <= all
  {
    assert Spends(te.spends[..j + 1]) == Spends(te.spends)[..j + 1];
  }

  lemma EarningPrefix(before: seq<Event>, te: TxEffects, j: nat, all: seq<Event>)
    requires j < |te.credits| && before + Spends(te.spends) + Earnings(te.credits) <= all
    ensures before + Spends(te.spends) + Earnings(te.credits[..j + 1]) <= all
  {
    assert Earnings(te.credits[..j + 1]) == Earnings(te.credits)[..j + 1];
  }

  lemma {:induction false} EventsPrefix(txs: seq<TxEffects>, i: nat)
    requires i <= |txs|
    ensures BlockEvents(txs[..i]) <= BlockEvents(txs)
  {
    if i == |txs| {
      assert txs[..i] == txs;
    } else {
      EventsPrefix(txs[..|txs| - 1], i);
      assert txs[..|txs| - 1][..i] == txs[..i];
    }
  }

  lemma NextSpend(before: seq<Event>, ops: seq<Outpoint>, j: nat)
    requires j < |ops|
    ensures before + Spends(ops[..j]) + [Spent(ops[j])] == before + Spends(ops[..j + 1])
    ensures ops[..|ops|] == ops
  {
  }

  lemma NextEarning(before: seq<Event>, credits: seq<Credit>, j: nat)
    requires j < |credits|
    ensures before + Earnings(credits[..j]) + [Earned(credits[j])] == before + Earnings(credits[..j + 1])
    ensures credits[..|credits|] == credits
  {
  }

  lemma NextTx(txs: seq<TxEffects>, i: nat)
    requires i < |txs|
    ensures BlockEvents(txs[..i + 1]) == BlockEvents(txs[..i]) + Spends(txs[i].spends) + Earnings(txs[i].credits)
    ensures BlockEvents(txs[..i + 1]) <= BlockEvents(txs)
  {
    LastTx(txs[..i + 1], txs[i]);
    assert txs[..i + 1][..i] == txs[..i];
    hide *;
    EventsPrefix(txs, i + 1);
  }

  lemma LastTx(txs: seq<TxEffects>, te: TxEffects)
    requires txs != [] && txs[|txs| - 1] == te
    ensures BlockEvents(txs) == BlockEvents(txs[..|txs| - 1]) + Spends(te.spends) + Earnings(te.credits)
  {
    var before := BlockEvents(txs[..|txs| - 1]);
    assert BlockEvents(txs) == before + TxEvents(te);
    assert before + TxEvents(te) == before + Spends(te.spends) + Earnings(te.credits) by { hide BlockEvents; }
  }
}
