/** The sum invariant: each balance row against the unspent coins of its address, over runs of blocks. */
module Audit {
  import opened Bytes
  import opened Utxo

  /** Total of the unspent coins of one address, or of all. */
  ghost function Sum(coins: map<Outpoint, Coin>, who: Option<Address>): nat {
    if coins == map[] then 0
    else
      var op :| op in coins;
      Share(coins[op], who) + Sum(coins - {op}, who)
  }

  function Share(c: Coin, who: Option<Address>): nat { if who.None? || c.addr == who.value then c.amount else 0 }

  ghost function SumFor(coins: map<Outpoint, Coin>, a: Address): nat { Sum(coins, Some(a)) }

  ghost function Supply(coins: map<Outpoint, Coin>): nat { Sum(coins, None) }

  lemma {:induction false} SumWithout(coins: map<Outpoint, Coin>, who: Option<Address>, op: Outpoint)
    requires op in coins
    ensures Sum(coins, who) == Share(coins[op], who) + Sum(coins - {op}, who)
    decreases |coins|
  {
    hide Share;
    var first :| op in coins && first in coins && Sum(coins, who) == Share(coins[first], who) + Sum(coins - {first}, who);
    if first != op {
      SumWithout(coins - {first}, who, op);
      SumWithout(coins - {op}, who, first);
      assert coins - {first} - {op} == coins - {op} - {first};
    }
  }

  lemma SumPut(coins: map<Outpoint, Coin>, who: Option<Address>, op: Outpoint, c: Coin)
    ensures Sum(coins[op := c], who) + (if op in coins then Share(coins[op], who) else 0)
         == Sum(coins, who) + Share(c, who)
  {
    hide Sum, Share;
    var put := coins[op := c];
    SumWithout(put, who, op);
    assert put - {op} == coins - {op};
    if op in coins {
      SumWithout(coins, who, op);
    } else {
      assert coins - {op} == coins;
    }
  }

  lemma {:induction false} ShareOfSupply(coins: map<Outpoint, Coin>, a: Address)
    ensures SumFor(coins, a) <= Supply(coins)
    decreases |coins|
  {
    if coins != map[] {
      var op :| op in coins;
      SumWithout(coins, Some(a), op);
      SumWithout(coins, None, op);
      ShareOfSupply(coins - {op}, a);
    }
  }

  /** What of an address's coins event e overwrites unspent. */
  function Overwritten(l: Ledger, e: Event, a: Address): nat {
    if e.Earned? && Counted(e.credit) && e.credit.op in l.coins then Share(l.coins[e.credit.op], Some(a)) else 0
  }

  function Lost(events: seq<Event>, a: Address): nat {
    if events == [] then 0
    else
      var init := events[..|events| - 1];
      Lost(init, a) + Overwritten(Play(EMPTY, init), events[|events| - 1], a)
  }

  lemma StepBalance(l: Ledger, e: Event, a: Address, lost: nat)
    requires Balance(l.rows, a) == SumFor(l.coins, a) + lost
    requires e.Earned? && Counted(e.credit) ==> Balance(l.rows, e.credit.addr) + e.credit.amount < TWO_64
    ensures Balance(Step(l, e).rows, a) == SumFor(Step(l, e).coins, a) + lost + Overwritten(l, e, a)
  {
    hide Sum;
    match e
    case Spent(op) =>
      if op in l.coins {
        SumWithout(l.coins, Some(a), op);
      }
    case Earned(c) =>
      SumPut(l.coins, Some(a), c.op, Coin(c.addr, c.amount));
  }

  /** A balance is the sum of its address's unspent coins plus what was overwritten unspent. */
  lemma {:induction false} BalanceIsSum(events: seq<Event>, a: Address)
    requires NoWraps(EMPTY, events)
    ensures var l := Play(EMPTY, events); Balance(l.rows, a) == SumFor(l.coins, a) + Lost(events, a)
  {
    hide Step, SumFor, Overwritten, Balance, NoWraps;
    if events == [] {
      EmptySum(a);
    } else {
      var n := |events| - 1;
      var init := events[..n];
      NoWrapsPrefix(EMPTY, events, n);
      BalanceIsSum(init, a);
      StepBalance(Play(EMPTY, init), events[n], a, Lost(init, a));
    }
  }

  lemma EmptySum(a: Address)
    ensures Balance(EMPTY.rows, a) == 0 == SumFor(EMPTY.coins, a)
  {
  }

  /** Hence the clamp at zero never fires: a ledger coin is always covered by its address's balance. */
  lemma ClampNeverFires(events: seq<Event>, op: Outpoint)
    requires NoWraps(EMPTY, events) && op in Play(EMPTY, events).coins
    ensures var l := Play(EMPTY, events);
      var c := l.coins[op];
      && c.amount <= Balance(l.rows, c.addr)
      && Balance(Step(l, Spent(op)).rows, c.addr) == Balance(l.rows, c.addr) - c.amount
  {
    hide Play, Sum, Lost, NoWraps;
    var l := Play(EMPTY, events);
    BalanceIsSum(events, l.coins[op].addr);
    SumWithout(l.coins, Some(l.coins[op].addr), op);
  }

  // ----- When nothing is lost -----

  /** Every counted credit goes to an outpoint that holds no unspent coin. */
  predicate FreshCredits(events: seq<Event>) {
    forall i :: 0 <= i < |events| ==> FreshCredit(events[..i], events[i])
  }

  predicate FreshCredit(before: seq<Event>, e: Event) {
    e.Earned? && Counted(e.credit) ==> e.credit.op !in Play(EMPTY, before).coins
  }

  lemma {:induction false} CoinsArePositive(events: seq<Event>)
    ensures forall op :: op in Play(EMPTY, events).coins ==> Play(EMPTY, events).coins[op].amount > 0
  {
    if events != [] {
      CoinsArePositive(events[..|events| - 1]);
    }
  }

  lemma {:induction false} FreshLosesNothing(events: seq<Event>, a: Address)
    requires FreshCredits(events)
    ensures Lost(events, a) == 0
  {
    hide Play;
    if events != [] {
      var n := |events| - 1;
      var init := events[..n];
      assert forall i :: 0 <= i < n ==> init[..i] == events[..i];
      assert FreshCredit(events[..n], events[n]);
      FreshLosesNothing(init, a);
    }
  }

  lemma {:induction false} LostStays(events: seq<Event>, n: nat, a: Address)
    requires n <= |events|
    ensures Lost(events[..n], a) <= Lost(events, a)
  {
    hide Play, Overwritten;
    if n == |events| {
      assert events[..n] == events;
    } else {
      LostStays(events[..|events| - 1], n, a);
      assert events[..|events| - 1][..n] == events[..n];
    }
  }

  /** The sum invariant holds for every address exactly when no credit overwrote an unspent coin. */
  lemma SumInvariantIff(events: seq<Event>)
    requires NoWraps(EMPTY, events)
    ensures var l := Play(EMPTY, events);
      (forall a :: Balance(l.rows, a) == SumFor(l.coins, a) + Lost(events, a))
      && (FreshCredits(events) <==> forall a :: Lost(events, a) == 0)
  {
    hide Play, Lost, SumFor, FreshCredits, FreshCredit, NoWraps;
    forall a ensures Balance(Play(EMPTY, events).rows, a) == SumFor(Play(EMPTY, events).coins, a) + Lost(events, a) {
      BalanceIsSum(events, a);
    }
    if FreshCredits(events) {
      forall a ensures Lost(events, a) == 0 { FreshLosesNothing(events, a); }
    } else {
      StaleCreditLoses(events);
    }
  }

  lemma StaleCreditLoses(events: seq<Event>)
    requires !FreshCredits(events)
    ensures exists a :: Lost(events, a) > 0
  {
    hide Play;
    var i :| 0 <= i < |events| && !FreshCredit(events[..i], events[i]);
    var l := Play(EMPTY, events[..i]);
    var a := l.coins[events[i].credit.op].addr;
    CoinsArePositive(events[..i]);
    assert events[..i + 1][..i] == events[..i] && events[..i + 1][i] == events[i];
    LostStays(events, i + 1, a);
  }

  predicate DistinctCredits(events: seq<Event>) {
    forall i, j :: 0 <= i < j < |events| && events[i].Earned? && events[j].Earned? ==>
      events[i].credit.op != events[j].credit.op
  }

  lemma {:induction false} CoinsWereEarned(events: seq<Event>, op: Outpoint)
    requires op in Play(EMPTY, events).coins
    ensures exists i :: 0 <= i < |events| && events[i].Earned? && events[i].credit.op == op
  {
    var n := |events| - 1;
    if op in Play(EMPTY, events[..n]).coins {
      CoinsWereEarned(events[..n], op);
      var i :| 0 <= i < n && events[..n][i].Earned? && events[..n][i].credit.op == op;
      assert events[i] == events[..n][i];
    } else {
      assert events[n].Earned? && events[n].credit.op == op;
    }
  }

  /** If no outpoint is credited twice in the whole run, as unique transaction ids guarantee, every credit is fresh. */
  lemma DistinctCreditsAreFresh(events: seq<Event>)
    requires DistinctCredits(events)
    ensures FreshCredits(events)
  {
    hide Play;
    forall i | 0 <= i < |events| ensures FreshCredit(events[..i], events[i]) {
      if events[i].Earned? && events[i].credit.op in Play(EMPTY, events[..i]).coins {
        CoinsWereEarned(events[..i], events[i].credit.op);
        var j :| 0 <= j < i && events[..i][j].Earned? && events[..i][j].credit.op == events[i].credit.op;
      }
    }
  }

  /** With fresh credits a supply below 2^64 is enough for the additions never to wrap. */
  ghost predicate SupplyFits(before: seq<Event>, e: Event) {
    e.Earned? && Counted(e.credit) ==> Supply(Play(EMPTY, before).coins) + e.credit.amount < TWO_64
  }

  lemma {:induction false} SupplyPreventsWrap(events: seq<Event>)
    requires FreshCredits(events)
    requires forall i :: 0 <= i < |events| ==> SupplyFits(events[..i], events[i])
    ensures NoWraps(EMPTY, events)
  {
    hide Play, Supply, SumFor, Lost;
    if events != [] {
      var n := |events| - 1;
      var init, e := events[..n], events[n];
      assert forall i :: 0 <= i < n ==> init[..i] == events[..i];
      SupplyPreventsWrap(init);
      if e.Earned? {
        BalanceIsSum(init, e.credit.addr);
        FreshLosesNothing(init, e.credit.addr);
        ShareOfSupply(Play(EMPTY, init).coins, e.credit.addr);
        assert SupplyFits(events[..n], events[n]);
      }
      assert forall i :: 0 <= i < n ==> NoWrap(EMPTY, init[..i], init[i]);
      assert NoWrap(EMPTY, events[..n], events[n]);
    }
  }

  // ----- Runs of blocks -----

  function SnapRun(blocks: seq<BlockEffects>): Ledger {
    if blocks == [] then EMPTY else SnapApply(SnapRun(blocks[..|blocks| - 1]), blocks[|blocks| - 1])
  }

  function AllEvents(blocks: seq<BlockEffects>): seq<Event> {
    if blocks == [] then [] else AllEvents(blocks[..|blocks| - 1]) + BlockEvents(blocks[|blocks| - 1].txs)
  }

  predicate StaleFree(blocks: seq<BlockEffects>) {
    forall i :: 0 <= i < |blocks| ==> StaleFreeBlock(blocks[..i], blocks[i])
  }

  predicate StaleFreeBlock(before: seq<BlockEffects>, fx: BlockEffects) {
    NoStale(SnapRun(before), BlockEvents(fx.txs))
  }

  lemma {:induction false} PlayTip(l: Ledger, events: seq<Event>, t: Option<(uint32, Hash256)>)
    ensures Play(l.(tip := t), events) == Play(l, events).(tip := t)
  {
    if events != [] {
      PlayTip(l, events[..|events| - 1], t);
    }
  }

  /** Block by block with overlays, or event by event on one ledger: the same index. */
  lemma {:induction false} RunRefines(blocks: seq<BlockEffects>)
    requires StaleFree(blocks)
    ensures SnapRun(blocks).coins == Play(EMPTY, AllEvents(blocks)).coins
    ensures SnapRun(blocks).rows == Play(EMPTY, AllEvents(blocks)).rows
  {
    hide Play, SnapApply, NoStale, BlockEvents, DistinctSpends;
    if blocks == [] {
      EmptyRun();
    } else {
      var n := |blocks| - 1;
      var init, fx := blocks[..n], blocks[n];
      assert forall i :: 0 <= i < n ==> init[..i] == blocks[..i];
      assert StaleFreeBlock(blocks[..n], blocks[n]);
      RunRefines(init);
      var l, flat := SnapRun(init), Play(EMPTY, AllEvents(init));
      ApplyRefines(l, fx);
      assert l == flat.(tip := l.tip);
      PlayTip(flat, BlockEvents(fx.txs), l.tip);
      PlayConcat(EMPTY, AllEvents(init), BlockEvents(fx.txs));
    }
  }

  lemma EmptyRun()
    ensures Play(EMPTY, []) == EMPTY
  {
  }

  lemma {:induction false} RunHasNoZeroRow(blocks: seq<BlockEffects>)
    ensures NoZeroRow(SnapRun(blocks))
  {
    hide SnapApply, NoZeroRow;
    if blocks == [] {
      EmptyHasNoZeroRow();
    } else {
      RunHasNoZeroRow(blocks[..|blocks| - 1]);
      ApplyKeepsNoZeroRow(SnapRun(blocks[..|blocks| - 1]), blocks[|blocks| - 1]);
    }
  }

  lemma EmptyHasNoZeroRow()
    ensures NoZeroRow(EMPTY)
  {
  }

  /** Blocks that each spend no outpoint twice form a run without stale spends. */
  lemma DistinctRunIsStaleFree(blocks: seq<BlockEffects>)
    requires forall i :: 0 <= i < |blocks| ==> DistinctSpends(BlockEvents(blocks[i].txs))
    ensures StaleFree(blocks)
  {
    hide SnapRun, NoStale, DistinctSpends, BlockEvents;
    forall i | 0 <= i < |blocks| ensures StaleFreeBlock(blocks[..i], blocks[i]) {
      DistinctAreFresh(SnapRun(blocks[..i]), BlockEvents(blocks[i].txs));
    }
  }

  // ----- Runs in which double spends may occur -----

  /** Every second debit is made good within its block. */
  ghost predicate SettledRun(blocks: seq<BlockEffects>) {
    forall i :: 0 <= i < |blocks| ==> SettledBlock(blocks[..i], blocks[i])
  }

  ghost predicate SettledBlock(before: seq<BlockEffects>, fx: BlockEffects) {
    forall a :: Settled(SnapRun(before), BlockEvents(fx.txs), a)
  }

  lemma StaleFreeIsSettled(blocks: seq<BlockEffects>)
    requires StaleFree(blocks)
    ensures SettledRun(blocks)
  {
    hide SnapRun, NoStale, Settled, BlockEvents;
    forall i | 0 <= i < |blocks| ensures SettledBlock(blocks[..i], blocks[i]) {
      assert StaleFreeBlock(blocks[..i], blocks[i]);
      forall a ensures Settled(SnapRun(blocks[..i]), BlockEvents(blocks[i].txs), a) {
        NoStaleIsSettled(SnapRun(blocks[..i]), BlockEvents(blocks[i].txs), a);
      }
    }
  }

  /** The index holds what playing all events on one ledger gives. */
  predicate Agrees(blocks: seq<BlockEffects>) {
    && SnapRun(blocks).coins == Play(EMPTY, AllEvents(blocks)).coins
    && SnapRun(blocks).rows == Play(EMPTY, AllEvents(blocks)).rows
  }

  lemma NoWrapsConcat(a: seq<Event>, b: seq<Event>, t: Option<(uint32, Hash256)>)
    requires NoWraps(EMPTY, a + b)
    ensures NoWraps(EMPTY, a) && NoWraps(Play(EMPTY, a).(tip := t), b)
  {
    hide Play;
    NoWrapsPrefix(EMPTY, a + b, |a|);
    assert (a + b)[..|a|] == a;
    var l := Play(EMPTY, a);
    forall i | 0 <= i < |b| ensures NoWrap(l.(tip := t), b[..i], b[i]) {
      PlayConcat(EMPTY, a, b[..i]);
      PlayTip(l, b[..i], t);
      assert (a + b)[..|a| + i] == a + b[..i] && (a + b)[|a| + i] == b[i];
      assert NoWrap(EMPTY, (a + b)[..|a| + i], (a + b)[|a| + i]);
    }
  }

  lemma BlockAgrees(l: Ledger, flat: Ledger, fx: BlockEffects)
    requires l == flat.(tip := l.tip) && NoZeroRow(l) && NoWraps(l, BlockEvents(fx.txs))
    ensures var after := Play(flat, BlockEvents(fx.txs));
      && SnapApply(l, fx).coins == after.coins
      && (SnapApply(l, fx).rows == after.rows <==> forall a :: Settled(l, BlockEvents(fx.txs), a))
  {
    hide Play, SnapPlay, Flushed, BlockEvents, NoStale, DistinctSpends, NoWraps, Settled, NoZeroRow, Balance;
    ApplyRefines(l, fx);
    PlayTip(flat, BlockEvents(fx.txs), l.tip);
    assert SnapApply(l, fx) == ApplyBlock(l, fx) <==> SnapApply(l, fx).rows == ApplyBlock(l, fx).rows;
  }

  /** A run that agreed so far agrees after one more block exactly when that block settles. */
  lemma AgreesStep(blocks: seq<BlockEffects>)
    requires blocks != [] && NoWraps(EMPTY, AllEvents(blocks)) && Agrees(blocks[..|blocks| - 1])
    ensures Agrees(blocks) <==> SettledBlock(blocks[..|blocks| - 1], blocks[|blocks| - 1])
  {
    hide Play, SnapApply, BlockEvents, NoWraps, Settled, NoZeroRow;
    var n := |blocks| - 1;
    var init, fx := blocks[..n], blocks[n];
    var l, flat := SnapRun(init), Play(EMPTY, AllEvents(init));
    NoWrapsConcat(AllEvents(init), BlockEvents(fx.txs), l.tip);
    RunHasNoZeroRow(init);
    BlockAgrees(l, flat, fx);
    PlayConcat(EMPTY, AllEvents(init), BlockEvents(fx.txs));
  }

  /** Over runs whose additions do not wrap: the index is right after every block exactly when every block settles. */
  lemma {:induction false} RunAgreesIff(blocks: seq<BlockEffects>)
    requires NoWraps(EMPTY, AllEvents(blocks))
    ensures (forall k :: 0 <= k <= |blocks| ==> Agrees(blocks[..k])) <==> SettledRun(blocks)
  {
    hide Agrees, SettledBlock, NoWraps, AllEvents;
    if blocks == [] {
      NothingAgrees(blocks);
    } else {
      var n := |blocks| - 1;
      var init := blocks[..n];
      AllEventsPrefix(blocks);
      RunAgreesIff(init);
      assert blocks[..|blocks|] == blocks;
      assert forall k :: 0 <= k <= n ==> init[..k] == blocks[..k];
      if SettledRun(init) {
        assert init[..n] == init;
        AgreesStep(blocks);
      }
      assert SettledRun(blocks) <==> SettledRun(init) && SettledBlock(init, blocks[n]);
    }
  }

  lemma AllEventsPrefix(blocks: seq<BlockEffects>)
    requires blocks != [] && NoWraps(EMPTY, AllEvents(blocks))
    ensures NoWraps(EMPTY, AllEvents(blocks[..|blocks| - 1]))
  {
    hide NoWraps, Play;
    var n := |blocks| - 1;
    NoWrapsConcat(AllEvents(blocks[..n]), BlockEvents(blocks[n].txs), None);
  }

  lemma NothingAgrees(blocks: seq<BlockEffects>)
    requires blocks == []
    ensures forall k :: 0 <= k <= |blocks| ==> Agrees(blocks[..k])
  {
    assert blocks[..0] == [];
  }

  /**
   * Over every run of blocks that settles and whose additions do not wrap, every balance is the sum of its
   * address's unspent coins exactly when no credit overwrote an unspent coin; and no row holds zero.
   */
  lemma IndexAudit(blocks: seq<BlockEffects>)
    requires SettledRun(blocks) && NoWraps(EMPTY, AllEvents(blocks))
    ensures var l := SnapRun(blocks);
      && ((forall a :: Balance(l.rows, a) == SumFor(l.coins, a)) <==> FreshCredits(AllEvents(blocks)))
      && NoZeroRow(l)
  {
    hide Play, Lost, SumFor, FreshCredits, SnapRun, AllEvents, SettledRun, Balance, NoWraps;
    var events, l := AllEvents(blocks), SnapRun(blocks);
    RunAgreesIff(blocks);
    assert blocks[..|blocks|] == blocks && Agrees(blocks[..|blocks|]);
    RunHasNoZeroRow(blocks);
    SumInvariantIff(events);
    if FreshCredits(events) {
      forall a ensures Balance(l.rows, a) == SumFor(l.coins, a) { assert Lost(events, a) == 0; }
    } else {
      var a :| Lost(events, a) != 0;
      assert Balance(l.rows, a) != SumFor(l.coins, a);
    }
  }

  // ----- A run that breaks the sum invariant -----

  /** Two blocks whose coinbases are the same transaction, paying x to a. */
  function DuplicateCoinbases(h: Hash256, a: Address, x: uint64): seq<BlockEffects> {
    var te := TxEffects([], [Credit(Outpoint(h, 0), a, x)]);
    [BlockEffects(0, 0, h, [te]), BlockEffects(1, 0, h, [te])]
  }

  lemma DuplicateEvents(h: Hash256, a: Address, x: uint64)
    ensures var e := Earned(Credit(Outpoint(h, 0), a, x));
      var blocks := DuplicateCoinbases(h, a, x);
      BlockEvents(blocks[0].txs) == [e] && BlockEvents(blocks[1].txs) == [e] && AllEvents(blocks) == [e, e]
  {
    hide BlockEvents;
    var te := TxEffects([], [Credit(Outpoint(h, 0), a, x)]);
    var e := Earned(Credit(Outpoint(h, 0), a, x));
    var blocks := DuplicateCoinbases(h, a, x);
    OneTx(te);
    assert TxEvents(te) == [e];
    var first := [blocks[0]];
    assert blocks[..1] == first && first[..0] == [];
    assert AllEvents(first) == [] + BlockEvents(blocks[0].txs);
  }

  lemma OneTx(te: TxEffects)
    ensures BlockEvents([te]) == TxEvents(te)
  {
    assert [te][..0] == [];
  }

  /** Nothing is spent and nothing wraps, yet the balance is twice the address's only unspent coin. */
  lemma DuplicateCoinbaseBreaksSum(h: Hash256, a: Address, x: uint64)
    requires a != [] && 0 < x && 2 * x < TWO_64
    ensures var blocks := DuplicateCoinbases(h, a, x);
      && StaleFree(blocks) && NoWraps(EMPTY, AllEvents(blocks)) && !FreshCredits(AllEvents(blocks))
      && Balance(SnapRun(blocks).rows, a) == 2 * x && SumFor(SnapRun(blocks).coins, a) == x
  {
    hide SnapRun, Play, AllEvents, BlockEvents, SumFor, Balance, StaleFree;
    var blocks, op := DuplicateCoinbases(h, a, x), Outpoint(h, 0);
    var e := Earned(Credit(op, a, x));
    DuplicateEvents(h, a, x);
    forall i | 0 <= i < |blocks| ensures DistinctSpends(BlockEvents(blocks[i].txs)) {
      assert blocks[i] == blocks[0] || blocks[i] == blocks[1];
    }
    DistinctRunIsStaleFree(blocks);
    RunRefines(blocks);
    CoinbaseTwice(op, a, x);
    var events := [e, e];
    assert events[..0] == [] && events[..1] == [e];
    assert !FreshCredit(events[..1], events[1]);
  }

  lemma CoinbaseTwice(op: Outpoint, a: Address, x: uint64)
    requires a != [] && 0 < x && 2 * x < TWO_64
    ensures var e := Earned(Credit(op, a, x));
      && Play(EMPTY, []) == EMPTY && Balance(EMPTY.rows, a) == 0
      && op in Play(EMPTY, [e]).coins && Balance(Play(EMPTY, [e]).rows, a) == x
      && Balance(Play(EMPTY, [e, e]).rows, a) == 2 * x && SumFor(Play(EMPTY, [e, e]).coins, a) == x
  {
    hide Play, SnapPlay, Sum;
    var e := Earned(Credit(op, a, x));
    PlayNone(EMPTY);
    PlayTwo(EMPTY, e, e);
    var coins := map[op := Coin(a, x)];
    assert Step(EMPTY, e).coins == coins && Step(Step(EMPTY, e), e).coins == coins;
    SumWithout(coins, Some(a), op);
    assert coins - {op} == map[];
    EmptySum(a);
  }

  // ----- Without any assumption -----

  function CreditOf(e: Event, a: Address): nat {
    if e.Earned? && Counted(e.credit) && e.credit.addr == a then e.credit.amount else 0
  }

  /** Everything ever credited to an address. */
  function CreditedTo(events: seq<Event>, a: Address): nat {
    if events == [] then 0 else CreditedTo(events[..|events| - 1], a) + CreditOf(events[|events| - 1], a)
  }

  lemma {:induction false} OverlayBound(snap: Ledger, events: seq<Event>, a: Address)
    ensures Current(snap, SnapPlay(snap, events).balances, a) <= Balance(snap.rows, a) + CreditedTo(events, a)
  {
    if events != [] {
      OverlayBound(snap, events[..|events| - 1], a);
    }
  }

  lemma {:induction false} CreditedConcat(a: seq<Event>, b: seq<Event>, addr: Address)
    ensures CreditedTo(a + b, addr) == CreditedTo(a, addr) + CreditedTo(b, addr)
  {
    hide CreditOf;
    if b == [] {
      assert a + b == a;
    } else {
      var n := |b| - 1;
      CreditedConcat(a, b[..n], addr);
      assert (a + b)[..|a + b| - 1] == a + b[..n];
    }
  }

  /** Even for invalid blocks (double spends included) no balance exceeds what its address was ever credited. */
  lemma {:induction false} BalanceWithinCredits(blocks: seq<BlockEffects>, a: Address)
    ensures Balance(SnapRun(blocks).rows, a) <= CreditedTo(AllEvents(blocks), a)
  {
    hide SnapPlay, Flushed, Current, CreditOf, BlockEvents;
    if blocks != [] {
      var n := |blocks| - 1;
      var l, events := SnapRun(blocks[..n]), BlockEvents(blocks[n].txs);
      BalanceWithinCredits(blocks[..n], a);
      OverlayBound(l, events, a);
      FlushedBalance(l, SnapPlay(l, events).balances, a);
      CreditedConcat(AllEvents(blocks[..n]), events, a);
    }
  }
}
