/**
 * The address index as a ledger: the transaction-by-transaction reference, the overlay computation
 * that a block is really applied with, and when the two agree.
 */
module Utxo {
  import opened Bytes

  type Address = seq<byte>

  datatype Outpoint = Outpoint(txid: Hash256, vout: uint32)

  datatype Coin = Coin(addr: Address, amount: uint64)

  datatype Credit = Credit(op: Outpoint, addr: Address, amount: uint64)

  datatype TxEffects = TxEffects(spends: seq<Outpoint>, credits: seq<Credit>)

  datatype BlockEffects = BlockEffects(height: uint32, time: uint32, hash: Hash256, txs: seq<TxEffects>)

  // What the database says: coins by outpoint, balance rows by address, height and hash of the last block.
  datatype Ledger = Ledger(coins: map<Outpoint, Coin>, rows: map<Address, uint64>, tip: Option<(uint32, Hash256)>)

  const EMPTY := Ledger(map[], map[], None)

  // ----- A block as a list of events: per transaction, spends and then credits -----

  datatype Event = Spent(op: Outpoint) | Earned(credit: Credit)

  function Spends(ops: seq<Outpoint>): (s: seq<Event>)
    ensures |s| == |ops|
  {
    seq(|ops|, i requires 0 <= i < |ops| => Spent(ops[i]))
  }

  function Earnings(credits: seq<Credit>): (s: seq<Event>)
    ensures |s| == |credits|
  {
    seq(|credits|, i requires 0 <= i < |credits| => Earned(credits[i]))
  }

  function TxEvents(te: TxEffects): seq<Event> { Spends(te.spends) + Earnings(te.credits) }

  function BlockEvents(txs: seq<TxEffects>): seq<Event> {
    if txs == [] then [] else BlockEvents(txs[..|txs| - 1]) + TxEvents(txs[|txs| - 1])
  }

  predicate Counted(c: Credit) { c.addr != [] && c.amount != 0 }

  // ----- The reference ledger -----

  function Balance(rows: map<Address, uint64>, a: Address): uint64 { if a in rows then rows[a] else 0 }

  function SetRow(rows: map<Address, uint64>, a: Address, v: uint64): map<Address, uint64> {
    if v == 0 then rows - {a} else rows[a := v]
  }

  function Debited(cur: uint64, amount: uint64): uint64 { if cur < amount then 0 else cur - amount }

  function Credited(cur: uint64, amount: uint64): uint64 { (cur + amount) % TWO_64 }

  function Step(l: Ledger, e: Event): Ledger {
    match e
    case Spent(op) =>
      if op !in l.coins then l
      else
        var c := l.coins[op];
        l.(coins := l.coins - {op}, rows := SetRow(l.rows, c.addr, Debited(Balance(l.rows, c.addr), c.amount)))
    case Earned(c) =>
      if !Counted(c) then l
      else
        l.(coins := l.coins[c.op := Coin(c.addr, c.amount)],
           rows := SetRow(l.rows, c.addr, Credited(Balance(l.rows, c.addr), c.amount)))
  }

  function Play(l: Ledger, events: seq<Event>): Ledger {
    if events == [] then l else Step(Play(l, events[..|events| - 1]), events[|events| - 1])
  }

  /** One transaction at a time, debit then credit. */
  function ApplyBlock(l: Ledger, fx: BlockEffects): Ledger {
    Play(l, BlockEvents(fx.txs)).(tip := Some((fx.height, fx.hash)))
  }

  /** What one event does to the coins and to every balance: debits stop at zero, credits wrap at 2^64. */
  lemma StepMoves(l: Ledger, op: Outpoint, c: Credit, a: Address)
    ensures op !in l.coins ==> Step(l, Spent(op)) == l
    ensures op in l.coins ==>
      var t, coin := Step(l, Spent(op)), l.coins[op];
      && t.coins == l.coins - {op} && t.tip == l.tip
      && (coin.addr == a && Balance(l.rows, a) >= coin.amount ==> Balance(t.rows, a) == Balance(l.rows, a) - coin.amount)
      && (coin.addr == a && Balance(l.rows, a) <= coin.amount ==> a !in t.rows)
      && (coin.addr != a ==> Balance(t.rows, a) == Balance(l.rows, a))
    ensures c.addr == [] || c.amount == 0 ==> Step(l, Earned(c)) == l
    ensures c.addr != [] && c.amount != 0 ==>
      var t := Step(l, Earned(c));
      && t.coins == l.coins[c.op := Coin(c.addr, c.amount)] && t.tip == l.tip
      && (c.addr == a ==> Balance(t.rows, a) == (Balance(l.rows, a) + c.amount) % 0x1_0000_0000_0000_0000)
      && (c.addr != a ==> Balance(t.rows, a) == Balance(l.rows, a))
  {
  }

  // ----- How apply really works: two overlays over the old snapshot -----

  datatype Overlay = Overlay(balances: map<Address, uint64>, created: map<Outpoint, Coin>, coins: map<Outpoint, Coin>)

  /** created first, then the snapshot as it was before the block. */
  function Found(snap: Ledger, created: map<Outpoint, Coin>, op: Outpoint): Option<Coin> {
    if op in created then Some(created[op]) else if op in snap.coins then Some(snap.coins[op]) else None
  }

  function Current(snap: Ledger, balances: map<Address, uint64>, a: Address): uint64 {
    if a in balances then balances[a] else Balance(snap.rows, a)
  }

  function SnapStep(snap: Ledger, w: Overlay, e: Event): Overlay {
    match e
    case Spent(op) =>
      (match Found(snap, w.created, op)
       case None => w
       case Some(c) => Overlay(
         w.balances[c.addr := Debited(Current(snap, w.balances, c.addr), c.amount)],
         w.created - {op}, w.coins - {op}))
    case Earned(c) =>
      if !Counted(c) then w
      else Overlay(
        w.balances[c.addr := Credited(Current(snap, w.balances, c.addr), c.amount)],
        w.created[c.op := Coin(c.addr, c.amount)], w.coins[c.op := Coin(c.addr, c.amount)])
  }

  function SnapPlay(snap: Ledger, events: seq<Event>): Overlay {
    if events == [] then Overlay(map[], map[], snap.coins)
    else SnapStep(snap, SnapPlay(snap, events[..|events| - 1]), events[|events| - 1])
  }

  /** Writing every touched balance: zero deletes the row. */
  function Flushed(rows: map<Address, uint64>, balances: map<Address, uint64>): map<Address, uint64> {
    (map a | a in rows && a !in balances :: rows[a]) + (map a | a in balances && balances[a] != 0 :: balances[a])
  }

  function SnapApply(l: Ledger, fx: BlockEffects): Ledger {
    var w := SnapPlay(l, BlockEvents(fx.txs));
    Ledger(w.coins, Flushed(l.rows, w.balances), Some((fx.height, fx.hash)))
  }

  lemma PlayedOne(l: Ledger, done: seq<Event>, e: Event)
    ensures Play(l, done + [e]) == Step(Play(l, done), e)
    ensures SnapPlay(l, done + [e]) == SnapStep(l, SnapPlay(l, done), e)
  {
    hide Step, SnapStep;
    assert (done + [e])[..|done|] == done;
  }

  lemma PlayNone(l: Ledger)
    ensures Play(l, []) == l && SnapPlay(l, []) == Overlay(map[], map[], l.coins)
  {
  }

  lemma FlushNone(rows: map<Address, uint64>)
    ensures Flushed(rows, map[]) == rows
  {
  }

  lemma FlushedRow(rows: map<Address, uint64>, balances: map<Address, uint64>, a: Address)
    ensures a in Flushed(rows, balances) <==> if a in balances then balances[a] != 0 else a in rows
    ensures a in Flushed(rows, balances) ==> Flushed(rows, balances)[a] == if a in balances then balances[a] else rows[a]
  {
  }

  lemma FlushOne(rows: map<Address, uint64>, balances: map<Address, uint64>, a: Address, v: uint64)
    ensures Flushed(rows, balances[a := v]) == SetRow(Flushed(rows, balances), a, v)
  {
    hide Flushed;
    forall b ensures (b in Flushed(rows, balances[a := v]) <==> b in SetRow(Flushed(rows, balances), a, v))
                  && (b in Flushed(rows, balances[a := v]) ==>
                      Flushed(rows, balances[a := v])[b] == SetRow(Flushed(rows, balances), a, v)[b])
    {
      FlushedRow(rows, balances, b);
      FlushedRow(rows, balances[a := v], b);
    }
  }

  lemma FlushedBalance(l: Ledger, balances: map<Address, uint64>, a: Address)
    ensures Balance(Flushed(l.rows, balances), a) == Current(l, balances, a)
  {
  }

  /** A spend is stale if the snapshot still shows the coin although the block has already removed it. */
  predicate Fresh(snap: Ledger, before: seq<Event>, e: Event) {
    e.Spent? && e.op !in Play(snap, before).coins ==> e.op !in snap.coins
  }

  predicate NoStale(snap: Ledger, events: seq<Event>) {
    forall i :: 0 <= i < |events| ==> Fresh(snap, events[..i], events[i])
  }

  predicate DistinctSpends(events: seq<Event>) {
    forall i, j :: 0 <= i < j < |events| && events[i].Spent? && events[j].Spent? ==> events[i].op != events[j].op
  }

  /** What the overlays know about the running ledger. */
  predicate Tracks(snap: Ledger, w: Overlay, l: Ledger) {
    && w.coins == l.coins
    && (forall op :: op in l.coins ==> Found(snap, w.created, op) == Some(l.coins[op]))
    && (forall op :: op in w.created ==> op in l.coins)
  }

  lemma StepTracks(snap: Ledger, w: Overlay, l: Ledger, e: Event)
    requires Tracks(snap, w, l)
    ensures Tracks(snap, SnapStep(snap, w, e), Step(l, e))
  {
  }

  lemma StepRows(snap: Ledger, w: Overlay, l: Ledger, e: Event)
    requires Tracks(snap, w, l) && Flushed(snap.rows, w.balances) == l.rows
    requires e.Spent? && e.op !in l.coins ==> e.op !in snap.coins
    ensures Flushed(snap.rows, SnapStep(snap, w, e).balances) == Step(l, e).rows
  {
    hide Flushed, SetRow, Balance, Debited, Credited, Current;
    match e
    case Spent(op) =>
      if op in l.coins {
        var c := l.coins[op];
        FlushedBalance(snap, w.balances, c.addr);
        FlushOne(snap.rows, w.balances, c.addr, Debited(Current(snap, w.balances, c.addr), c.amount));
      }
    case Earned(c) =>
      FlushedBalance(snap, w.balances, c.addr);
      FlushOne(snap.rows, w.balances, c.addr, Credited(Current(snap, w.balances, c.addr), c.amount));
  }

  /** The coins always come out right; the balances do when no spend is stale. */
  lemma {:induction false} OverlayRefines(snap: Ledger, events: seq<Event>)
    ensures Tracks(snap, SnapPlay(snap, events), Play(snap, events))
    ensures NoStale(snap, events) ==> Flushed(snap.rows, SnapPlay(snap, events).balances) == Play(snap, events).rows
  {
    hide Tracks, Flushed, SnapStep, Step;
    if events == [] {
      StartTracks(snap);
      FlushNone(snap.rows);
    } else {
      var n := |events| - 1;
      var init, e := events[..n], events[n];
      OverlayRefines(snap, init);
      StepTracks(snap, SnapPlay(snap, init), Play(snap, init), e);
      if NoStale(snap, events) {
        assert forall i :: 0 <= i < n ==> init[..i] == events[..i];
        assert Fresh(snap, events[..n], events[n]);
        StepRows(snap, SnapPlay(snap, init), Play(snap, init), e);
      }
    }
  }

  lemma StartTracks(snap: Ledger)
    ensures Tracks(snap, Overlay(map[], map[], snap.coins), snap)
  {
  }

  /** A coin leaves the ledger only by being spent. */
  lemma {:induction false} Vanished(l: Ledger, events: seq<Event>, op: Outpoint)
    requires op in l.coins && Spent(op) !in events
    ensures op in Play(l, events).coins
  {
    if events != [] {
      Vanished(l, events[..|events| - 1], op);
      assert events[|events| - 1] != Spent(op);
    }
  }

  /** In a block that spends no outpoint twice no spend is stale. */
  lemma DistinctAreFresh(snap: Ledger, events: seq<Event>)
    requires DistinctSpends(events)
    ensures NoStale(snap, events)
  {
    hide Play;
    forall i | 0 <= i < |events| ensures Fresh(snap, events[..i], events[i]) {
      if events[i].Spent? && events[i].op in snap.coins {
        assert Spent(events[i].op) !in events[..i];
        Vanished(snap, events[..i], events[i].op);
      }
    }
  }

  // ----- When the balances agree -----

  predicate NoZeroRow(l: Ledger) { forall a :: a in l.rows ==> l.rows[a] != 0 }

  /** The ledger's 64-bit addition does not wrap. */
  predicate NoWrap(l: Ledger, before: seq<Event>, e: Event) {
    e.Earned? && Counted(e.credit) ==> Balance(Play(l, before).rows, e.credit.addr) + e.credit.amount < TWO_64
  }

  predicate NoWraps(l: Ledger, events: seq<Event>) {
    forall i :: 0 <= i < |events| ==> NoWrap(l, events[..i], events[i])
  }

  lemma NoWrapsPrefix(l: Ledger, events: seq<Event>, n: nat)
    requires NoWraps(l, events) && n <= |events|
    ensures NoWraps(l, events[..n])
    ensures n < |events| ==> NoWrap(l, events[..n], events[n])
  {
    hide NoWrap;
    assert forall i :: 0 <= i < n ==> events[..n][..i] == events[..i];
  }

  /** A stale spend of a coin of a that is worth something. */
  predicate DebitsAgain(snap: Ledger, l: Ledger, e: Event, a: Address) {
    e.Spent? && e.op !in l.coins && e.op in snap.coins && snap.coins[e.op].addr == a && snap.coins[e.op].amount > 0
  }

  predicate Penniless(snap: Ledger, before: seq<Event>, a: Address) { Balance(Play(snap, before).rows, a) == 0 }

  /** From event i on, the ledger balance of a is zero at least once. */
  predicate RunsOut(snap: Ledger, events: seq<Event>, i: nat, a: Address) {
    exists j :: i <= j <= |events| && Penniless(snap, events[..j], a)
  }

  /** Every second debit of a is made good: then or later in the block the true balance is zero anyway. */
  predicate Settled(snap: Ledger, events: seq<Event>, a: Address) {
    forall i :: 0 <= i < |events| ==> SettledAt(snap, events, i, a)
  }

  predicate SettledAt(snap: Ledger, events: seq<Event>, i: nat, a: Address)
    requires i < |events|
  {
    DebitsAgain(snap, Play(snap, events[..i]), events[i], a) ==> RunsOut(snap, events, i, a)
  }

  lemma BalanceAfterSet(rows: map<Address, uint64>, a: Address, v: uint64, b: Address)
    ensures Balance(SetRow(rows, a, v), b) == if b == a then v else Balance(rows, b)
  {
  }

  lemma CurrentAfterSet(snap: Ledger, balances: map<Address, uint64>, a: Address, v: uint64, b: Address)
    ensures Current(snap, balances[a := v], b) == if b == a then v else Current(snap, balances, b)
  {
  }

  /** How one event moves the gap between the cached and the true balance. */
  lemma StepGap(snap: Ledger, w: Overlay, l: Ledger, e: Event, a: Address)
    requires Tracks(snap, w, l) && Current(snap, w.balances, a) <= Balance(l.rows, a)
    requires e.Earned? && Counted(e.credit) ==> Balance(l.rows, e.credit.addr) + e.credit.amount < TWO_64
    ensures var cached, due := Current(snap, SnapStep(snap, w, e).balances, a), Balance(Step(l, e).rows, a);
      && cached <= due
      && (cached == due <==>
          due == 0 || (Current(snap, w.balances, a) == Balance(l.rows, a) && !DebitsAgain(snap, l, e, a)))
      && (DebitsAgain(snap, l, e, a) ==> due == Balance(l.rows, a))
  {
    hide Balance, SetRow, Current;
    match e
    case Spent(op) =>
      if Found(snap, w.created, op).Some? {
        var c := Found(snap, w.created, op).value;
        var v, v' := Debited(Current(snap, w.balances, c.addr), c.amount), Debited(Balance(l.rows, c.addr), c.amount);
        CurrentAfterSet(snap, w.balances, c.addr, v, a);
        BalanceAfterSet(l.rows, c.addr, v', a);
      }
    case Earned(c) =>
      var v, v' := Credited(Current(snap, w.balances, c.addr), c.amount), Credited(Balance(l.rows, c.addr), c.amount);
      CurrentAfterSet(snap, w.balances, c.addr, v, a);
      BalanceAfterSet(l.rows, c.addr, v', a);
  }

  /** The cached balance is never above the true one, and equal exactly when every second debit was made good. */
  lemma {:induction false} CachedBalance(snap: Ledger, events: seq<Event>, a: Address)
    requires NoWraps(snap, events)
    ensures Tracks(snap, SnapPlay(snap, events), Play(snap, events))
    ensures Current(snap, SnapPlay(snap, events).balances, a) <= Balance(Play(snap, events).rows, a)
    ensures Current(snap, SnapPlay(snap, events).balances, a) == Balance(Play(snap, events).rows, a)
       <==> Settled(snap, events, a)
  {
    hide Tracks, SnapStep, Step, NoWraps, Balance, Current, DebitsAgain, Settled;
    if events == [] {
      StartTracks(snap);
      NothingCached(snap, a);
    } else {
      var n := |events| - 1;
      var init, e := events[..n], events[n];
      var w, l := SnapPlay(snap, init), Play(snap, init);
      NoWrapsPrefix(snap, events, n);
      CachedBalance(snap, init, a);
      StepTracks(snap, w, l, e);
      StepGap(snap, w, l, e, a);
      SettledStep(snap, events, a);
    }
  }

  lemma NothingCached(snap: Ledger, a: Address)
    ensures Current(snap, map[], a) == Balance(snap.rows, a)
    ensures Settled(snap, [], a)
  {
  }

  lemma RunsOutStep(snap: Ledger, events: seq<Event>, i: nat, a: Address)
    requires i < |events|
    ensures RunsOut(snap, events, i, a) <==> RunsOut(snap, events[..|events| - 1], i, a) || Penniless(snap, events, a)
  {
    hide Penniless;
    var n := |events| - 1;
    var init := events[..n];
    assert events[..n + 1] == events && init[..n] == events[..n];
    if RunsOut(snap, init, i, a) {
      var j :| i <= j <= n && Penniless(snap, init[..j], a);
      assert init[..j] == events[..j];
    }
    if RunsOut(snap, events, i, a) {
      var j :| i <= j <= n + 1 && Penniless(snap, events[..j], a);
      if j <= n {
        assert init[..j] == events[..j];
      }
    }
  }

  /** Adding an event changes what is settled before it only by the balance it leaves. */
  lemma SettledAtStep(snap: Ledger, events: seq<Event>, i: nat, a: Address)
    requires i < |events| - 1
    ensures SettledAt(snap, events, i, a) <==>
      SettledAt(snap, events[..|events| - 1], i, a) || Penniless(snap, events, a)
  {
    hide Play, DebitsAgain, RunsOut, Penniless;
    assert events[..|events| - 1][..i] == events[..i];
    RunsOutStep(snap, events, i, a);
  }

  lemma SettledAtLast(snap: Ledger, events: seq<Event>, a: Address)
    requires events != []
    requires var n := |events| - 1;
      DebitsAgain(snap, Play(snap, events[..n]), events[n], a) ==>
        Balance(Play(snap, events).rows, a) == Balance(Play(snap, events[..n]).rows, a)
    ensures var n := |events| - 1;
      SettledAt(snap, events, n, a) <==>
        Penniless(snap, events, a) || !DebitsAgain(snap, Play(snap, events[..n]), events[n], a)
  {
    hide Play, DebitsAgain, RunsOut, Balance;
    RunsOutStep(snap, events, |events| - 1, a);
    LastRunsOut(snap, events[..|events| - 1], a);
  }

  lemma SettledStep(snap: Ledger, events: seq<Event>, a: Address)
    requires events != []
    requires var n := |events| - 1;
      DebitsAgain(snap, Play(snap, events[..n]), events[n], a) ==>
        Balance(Play(snap, events).rows, a) == Balance(Play(snap, events[..n]).rows, a)
    ensures var n := |events| - 1;
      Settled(snap, events, a) <==>
        Penniless(snap, events, a)
        || (Settled(snap, events[..n], a) && !DebitsAgain(snap, Play(snap, events[..n]), events[n], a))
  {
    hide Play, Balance, DebitsAgain, RunsOut, SettledAt, Penniless;
    var n := |events| - 1;
    SettledAtLast(snap, events, a);
    forall i | 0 <= i < n
      ensures SettledAt(snap, events, i, a) <==> SettledAt(snap, events[..n], i, a) || Penniless(snap, events, a)
    {
      SettledAtStep(snap, events, i, a);
    }
  }

  lemma LastRunsOut(snap: Ledger, events: seq<Event>, a: Address)
    ensures RunsOut(snap, events, |events|, a) <==> Penniless(snap, events, a)
  {
    hide Penniless;
    assert events[..|events|] == events;
  }

  lemma NoStaleIsSettled(snap: Ledger, events: seq<Event>, a: Address)
    requires NoStale(snap, events)
    ensures Settled(snap, events, a)
  {
    hide Play;
    forall i | 0 <= i < |events| ensures SettledAt(snap, events, i, a) {
      assert Fresh(snap, events[..i], events[i]);
    }
  }

  lemma {:induction false} PlayKeepsNoZeroRow(l: Ledger, events: seq<Event>)
    requires NoZeroRow(l)
    ensures NoZeroRow(Play(l, events))
  {
    if events != [] {
      PlayKeepsNoZeroRow(l, events[..|events| - 1]);
    }
  }

  /** Whatever the block, a balance that reaches zero leaves no row behind. */
  lemma ApplyKeepsNoZeroRow(l: Ledger, fx: BlockEffects)
    requires NoZeroRow(l)
    ensures NoZeroRow(SnapApply(l, fx))
  {
    hide SnapPlay;
  }

  lemma RowsFromBalances(x: Ledger, y: Ledger)
    requires NoZeroRow(x) && NoZeroRow(y)
    ensures x.rows == y.rows <==> forall a :: Balance(x.rows, a) == Balance(y.rows, a)
  {
    if forall a :: Balance(x.rows, a) == Balance(y.rows, a) {
      forall a ensures a in x.rows <==> a in y.rows {
        assert Balance(x.rows, a) == Balance(y.rows, a);
      }
      forall a | a in x.rows ensures x.rows[a] == y.rows[a] {
        assert Balance(x.rows, a) == Balance(y.rows, a);
      }
    }
  }

  /** For each address: what apply stores is at most the ledger's balance, and equals it exactly when settled. */
  lemma BalanceAgreesIff(l: Ledger, fx: BlockEffects, a: Address)
    requires NoWraps(l, BlockEvents(fx.txs))
    ensures Balance(SnapApply(l, fx).rows, a) <= Balance(ApplyBlock(l, fx).rows, a)
    ensures Balance(SnapApply(l, fx).rows, a) == Balance(ApplyBlock(l, fx).rows, a)
       <==> Settled(l, BlockEvents(fx.txs), a)
  {
    hide Play, SnapPlay, Flushed, Settled, NoWraps, Current, Balance, Tracks;
    CachedBalance(l, BlockEvents(fx.txs), a);
    FlushedBalance(l, SnapPlay(l, BlockEvents(fx.txs)).balances, a);
  }

  lemma BalancesAgreeIff(l: Ledger, fx: BlockEffects)
    requires NoWraps(l, BlockEvents(fx.txs))
    ensures (forall a :: Balance(SnapApply(l, fx).rows, a) == Balance(ApplyBlock(l, fx).rows, a))
       <==> forall a :: Settled(l, BlockEvents(fx.txs), a)
  {
    hide SnapApply, ApplyBlock, Settled, Balance, NoWraps;
    if forall a :: Balance(SnapApply(l, fx).rows, a) == Balance(ApplyBlock(l, fx).rows, a) {
      forall a ensures Settled(l, BlockEvents(fx.txs), a) {
        BalanceAgreesIff(l, fx, a);
        assert Balance(SnapApply(l, fx).rows, a) == Balance(ApplyBlock(l, fx).rows, a);
      }
    }
    if forall a :: Settled(l, BlockEvents(fx.txs), a) {
      forall a ensures Balance(SnapApply(l, fx).rows, a) == Balance(ApplyBlock(l, fx).rows, a) {
        BalanceAgreesIff(l, fx, a);
        assert Settled(l, BlockEvents(fx.txs), a);
      }
    }
  }

  /**
   * apply against the transaction-by-transaction ledger. The coins always agree. The balances agree exactly when
   * every second debit is made good (additions not wrapping); in particular, and then even if additions wrap, when
   * no spend is stale, as in a block that spends no outpoint twice.
   */
  lemma ApplyRefines(l: Ledger, fx: BlockEffects)
    ensures SnapApply(l, fx).coins == ApplyBlock(l, fx).coins && SnapApply(l, fx).tip == ApplyBlock(l, fx).tip
    ensures NoWraps(l, BlockEvents(fx.txs)) ==>
      ((forall a :: Balance(SnapApply(l, fx).rows, a) == Balance(ApplyBlock(l, fx).rows, a))
       <==> forall a :: Settled(l, BlockEvents(fx.txs), a))
    ensures NoWraps(l, BlockEvents(fx.txs)) && NoZeroRow(l) ==>
      (SnapApply(l, fx) == ApplyBlock(l, fx) <==> forall a :: Settled(l, BlockEvents(fx.txs), a))
    ensures NoStale(l, BlockEvents(fx.txs)) ==> SnapApply(l, fx) == ApplyBlock(l, fx)
    ensures DistinctSpends(BlockEvents(fx.txs)) ==> SnapApply(l, fx) == ApplyBlock(l, fx)
  {
    hide Flushed, SnapPlay, Play, NoStale, DistinctSpends, NoWraps, Settled, Balance, NoZeroRow;
    var events := BlockEvents(fx.txs);
    OverlayRefines(l, events);
    if DistinctSpends(events) {
      DistinctAreFresh(l, events);
    }
    if NoWraps(l, events) {
      BalancesAgreeIff(l, fx);
      if NoZeroRow(l) {
        BlockRowsFromBalances(l, fx);
        assert SnapApply(l, fx) == ApplyBlock(l, fx) <==> SnapApply(l, fx).rows == ApplyBlock(l, fx).rows;
      }
    }
  }

  lemma BlockRowsFromBalances(l: Ledger, fx: BlockEffects)
    requires NoZeroRow(l)
    ensures SnapApply(l, fx).rows == ApplyBlock(l, fx).rows
       <==> forall a :: Balance(SnapApply(l, fx).rows, a) == Balance(ApplyBlock(l, fx).rows, a)
  {
    hide SnapApply, Play, NoZeroRow, Balance;
    ApplyKeepsNoZeroRow(l, fx);
    PlayKeepsNoZeroRow(l, BlockEvents(fx.txs));
    RowsOnly(Play(l, BlockEvents(fx.txs)), Some((fx.height, fx.hash)));
    RowsFromBalances(SnapApply(l, fx), ApplyBlock(l, fx));
  }

  lemma RowsOnly(l: Ledger, t: Option<(uint32, Hash256)>)
    ensures NoZeroRow(l.(tip := t)) <==> NoZeroRow(l)
  {
  }

  // ----- What one transaction does to the coins -----

  lemma {:induction false} SpendsRemove(l: Ledger, ops: seq<Outpoint>, op: Outpoint)
    ensures var after := Play(l, Spends(ops)).coins;
      && (op in after <==> op in l.coins && op !in ops)
      && (op in after ==> after[op] == l.coins[op])
  {
    if ops != [] {
      var n := |ops| - 1;
      SpendsRemove(l, ops[..n], op);
      assert Spends(ops)[..n] == Spends(ops[..n]);
    }
  }

  lemma {:induction false} EarningsAdd(l: Ledger, credits: seq<Credit>, op: Outpoint)
    ensures var after := Play(l, Earnings(credits)).coins;
      && (op in after <==> op in l.coins || exists i :: 0 <= i < |credits| && Counted(credits[i]) && credits[i].op == op)
      && (op !in l.coins && op in after ==>
          exists i :: 0 <= i < |credits| && credits[i].op == op && after[op] == Coin(credits[i].addr, credits[i].amount))
  {
    hide Counted;
    if credits != [] {
      var n := |credits| - 1;
      EarningsAdd(l, credits[..n], op);
      assert Earnings(credits)[..n] == Earnings(credits[..n]);
      assert forall i :: 0 <= i < n ==> credits[..n][i] == credits[i];
    }
  }

  lemma {:induction false} PlayConcat(l: Ledger, a: seq<Event>, b: seq<Event>)
    ensures Play(l, a + b) == Play(Play(l, a), b)
  {
    hide Step;
    if b == [] {
      assert a + b == a;
    } else {
      var n := |b| - 1;
      PlayConcat(l, a, b[..n]);
      assert (a + b)[..|a + b| - 1] == a + b[..n];
    }
  }

  /**
   * A transaction spends before it credits: afterwards a coin is there exactly if the transaction credited its
   * outpoint, spent or not, or it was there and was not spent. An empty address or a zero amount credits nothing.
   */
  lemma TxCoins(l: Ledger, te: TxEffects, op: Outpoint)
    ensures var after := Play(l, TxEvents(te)).coins;
      op in after <==>
        || (exists i :: 0 <= i < |te.credits| && te.credits[i].op == op && te.credits[i].addr != [] && te.credits[i].amount > 0)
        || (op in l.coins && op !in te.spends)
  {
    hide Play, Spends, Earnings;
    PlayConcat(l, Spends(te.spends), Earnings(te.credits));
    SpendsRemove(l, te.spends, op);
    EarningsAdd(Play(l, Spends(te.spends)), te.credits, op);
  }

  lemma {:induction false} EventsConcat(a: seq<TxEffects>, b: seq<TxEffects>)
    ensures BlockEvents(a + b) == BlockEvents(a) + BlockEvents(b)
  {
    hide TxEvents;
    if b == [] {
      assert a + b == a;
    } else {
      var n := |b| - 1;
      EventsConcat(a, b[..n]);
      assert (a + b)[..|a + b| - 1] == a + b[..n];
    }
  }

  /** A block is its transactions one after the other: what an earlier one creates, a later one finds. */
  lemma BlockByTx(l: Ledger, txs: seq<TxEffects>, te: TxEffects)
    ensures Play(l, BlockEvents(txs + [te])) == Play(Play(l, BlockEvents(txs)), TxEvents(te))
  {
    hide Play, TxEvents;
    EventsConcat(txs, [te]);
    assert [te][..0] == [];
    assert BlockEvents([te]) == TxEvents(te);
    PlayConcat(l, BlockEvents(txs), TxEvents(te));
  }

  // ----- Both sides of the condition at an input -----

  /** A ledger with two coins of a worth 1, of which the balance knows 1 + rest. */
  function TwoCoins(h: Hash256, a: Address, rest: uint64): Ledger
    requires rest <= 1
  {
    Ledger(map[Outpoint(h, 0) := Coin(a, 1), Outpoint(h, 1) := Coin(a, 1)], map[a := 1 + rest], None)
  }

  function SpendTwice(h: Hash256): BlockEffects {
    BlockEffects(1, 0, h, [TxEffects([Outpoint(h, 0), Outpoint(h, 0)], [])])
  }

  lemma TwiceEvents(h: Hash256)
    ensures BlockEvents(SpendTwice(h).txs) == [Spent(Outpoint(h, 0)), Spent(Outpoint(h, 0))]
  {
    var one := Outpoint(h, 0);
    var te := TxEffects([one, one], []);
    assert [te][..0] == [];
    assert TxEvents(te) == [Spent(one), Spent(one)];
  }

  lemma PlayTwo(l: Ledger, x: Event, y: Event)
    ensures Play(l, [x]) == Step(l, x) && Play(l, [x, y]) == Step(Step(l, x), y)
    ensures var w := Overlay(map[], map[], l.coins);
      SnapPlay(l, [x, y]) == SnapStep(l, SnapStep(l, w, x), y)
  {
    hide Step, SnapStep, Play, SnapPlay;
    PlayNone(l);
    PlayedOne(l, [], x);
    PlayedOne(l, [x], y);
    assert [] + [x] == [x] && [x] + [y] == [x, y];
  }

  /**
   * One coin spent twice in a block. Out of a balance of 1 both ledgers arrive at 0, although the second spend is
   * stale; out of a balance of 2 the transaction-by-transaction ledger keeps 1 and apply stores 0.
   */
  lemma DoubleSpends(h: Hash256, a: Address, rest: uint64)
    requires rest <= 1
    ensures !NoStale(TwoCoins(h, a, rest), BlockEvents(SpendTwice(h).txs))
    ensures Balance(SnapApply(TwoCoins(h, a, rest), SpendTwice(h)).rows, a) == 0
    ensures Balance(ApplyBlock(TwoCoins(h, a, rest), SpendTwice(h)).rows, a) == rest
  {
    hide Flushed, SnapPlay, Play;
    var l, one := TwoCoins(h, a, rest), Outpoint(h, 0);
    var events := [Spent(one), Spent(one)];
    TwiceEvents(h);
    PlayTwo(l, Spent(one), Spent(one));
    assert one !in Step(l, Spent(one)).coins;
    assert Play(l, events).rows == SetRow(l.rows, a, rest);
    assert events[..1] == [Spent(one)];
    assert !Fresh(l, events[..1], events[1]);
    FlushedBalance(l, SnapPlay(l, events).balances, a);
  }
}
