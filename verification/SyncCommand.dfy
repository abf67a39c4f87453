/** The balance command on real stores: blocks indexed and applied, run after run, down to the bytes on disk. */
module SyncCommand {
  import opened Bytes
  import opened BoundedQueues
  import opened Pipeline
  import opened Transaction
  import opened Utxo
  import opened Audit
  import opened BalanceDbs
  import opened Indexer
  import opened IndexedChain
  import opened SyncRuns

  // What is at the index path.
  datatype Disk = NoPath | PlainFile | EmptyDir | Unreadable | Files(store: Store)

  function IndexOf(disk: Disk): Index {
    match disk
    case NoPath => Missing
    case PlainFile => NotDirectory
    case EmptyDir => EmptyDirectory
    case Unreadable => Unopenable
    case Files(store) => Database(View(store))
  }

  /** inspect_index on the bytes: valid means both metadata rows with their sizes. */
  function InspectDisk(disk: Disk): (st: IndexState)
    ensures st == Inspect(IndexOf(disk))
  {
    match disk
    case NoPath => StateMissing
    case PlainFile => StateJunk
    case EmptyDir => StateEmpty
    case Unreadable => StateJunk
    case Files(store) => if HasMetadata(store) then StateValid else StateJunk
  }

  class BalanceCommand {
    const hashes: Hashes
    const blocks: seq<Block>
    var disk: Disk

    constructor (hashes: Hashes, blocks: seq<Block>, disk: Disk)
      ensures this.hashes == hashes && this.blocks == blocks && this.disk == disk
    {
      this.hashes := hashes;
      this.blocks := blocks;
      this.disk := disk;
    }

    /** The threads' run: every applied height is one block indexed and one batch written. */
    method WalkBlocks(db: BalanceDb, resume: Option<(uint32, Hash256)>, session: Session) returns (r: Outcome)
      requires Servable(blocks) && Possible(Effects(hashes, blocks), resume, session)
      requires db.writable && disk == Files(db.store)
      modifies this`disk, db
      ensures disk == Files(db.store)
      ensures (r, View(db.store)) == Walk(Effects(hashes, blocks), old(View(db.store)), resume, session)
    {
      hide Run, AllAllowed, SnapApply, View, EffectsOfBlock, Fits, ReadsOf, BlockEvents, Indexable;
      var chain := Effects(hashes, blocks);
      var start := StartOf(chain, resume, session);
      if start.Refuse? {
        return Ended(Raised(start.e));
      }
      if start.UpToDate? {
        return Ended(Returned);
      }
      AppliedWithin(chain, resume, session);
      var s := Run(Init(start.first, session.tip), session.steps);
      for i := 0 to |s.applied|
        invariant disk == Files(db.store)
        invariant View(db.store) == ApplyHeights(chain, old(View(db.store)), s.applied[..i])
      {
        var height := s.applied[i];
        assert s.applied[..i + 1][..i] == s.applied[..i];
        assert blocks[height] in blocks;
        var fx := EffectsFromBlock(hashes, blocks[height], height);
        EffectsFit(hashes, blocks[height], height);
        var written := db.Apply(fx, {}, true);
        disk := Files(db.store);
      }
      assert s.applied[..|s.applied|] == s.applied;
      return if Finished(s) then Ended(EndOf(s)) else Died;
    }

    method DoSync(session: Session) returns (r: Outcome)
      requires Servable(blocks) && Possible(Effects(hashes, blocks), ResumeAt(IndexOf(disk), session), session)
      modifies this`disk
      ensures (r, IndexOf(disk)) == Synced(Effects(hashes, blocks), IndexOf(old(disk)), session)
    {
      hide Walk, Possible, View, Servable, Effects;
      var st := InspectDisk(disk);
      if session.force {
        disk := NoPath;
        r := SyncFresh(session);
        return;
      }
      if st == StateValid {
        var resume := Tip(disk.store);
        var db := new BalanceDb(disk.store, true);
        ViewTip(disk.store);
        r := WalkBlocks(db, resume, session);
        return;
      }
      if st == StateJunk {
        return Ended(Raised(EXISTS));
      }
      r := SyncFresh(session);
    }

    /** A new database, opened empty, and a walk from block 0. */
    method SyncFresh(session: Session) returns (r: Outcome)
      requires Servable(blocks) && Possible(Effects(hashes, blocks), None, session)
      modifies this`disk
      ensures disk.Files?
      ensures (r, View(disk.store)) == Walk(Effects(hashes, blocks), EMPTY, None, session)
    {
      hide Walk, Possible, View, Servable, Effects;
      var db := new BalanceDb(map[], true);
      disk := Files(map[]);
      FreshStore();
      r := WalkBlocks(db, None, session);
    }

    /** A whole life of the index: command after command, each going its own way. */
    method SyncAll(sessions: seq<Session>)
      requires Servable(blocks) && AllPossible(Effects(hashes, blocks), IndexOf(disk), sessions)
      modifies this`disk
      ensures IndexOf(disk) == History(Effects(hashes, blocks), IndexOf(old(disk)), sessions)
    {
      hide Servable, Effects, Possible, Synced, IndexOf;
      ghost var chain, at := Effects(hashes, blocks), IndexOf(disk);
      assert sessions[0..] == sessions;
      for i := 0 to |sessions|
        invariant AllPossible(chain, IndexOf(disk), sessions[i..])
        invariant History(chain, IndexOf(disk), sessions[i..]) == History(chain, at, sessions)
      {
        assert sessions[i..][0] == sessions[i] && sessions[i..][1..] == sessions[i + 1..];
        var ended := DoSync(sessions[i]);
      }
    }
  }

  lemma ViewTip(store: Store)
    ensures View(store).tip == Tip(store)
  {
  }

  // ----- What the store then says -----

  lemma {:induction false} IdsPrefix(h: Hashes, blocks: seq<Block>, n: nat)
    requires n <= |blocks|
    ensures AllIds(h, blocks[..n]) <= AllIds(h, blocks)
  {
    hide BlockIds;
    if n == |blocks| {
      assert blocks[..n] == blocks;
    } else {
      IdsPrefix(h, blocks[..|blocks| - 1], n);
      assert blocks[..|blocks| - 1][..n] == blocks[..n];
    }
  }

  lemma {:induction false} AllEventsGrow(fxs: seq<BlockEffects>, n: nat)
    requires n <= |fxs|
    ensures AllEvents(fxs[..n]) <= AllEvents(fxs)
  {
    hide BlockEvents;
    if n == |fxs| {
      assert fxs[..n] == fxs;
    } else {
      AllEventsGrow(fxs[..|fxs| - 1], n);
      assert fxs[..|fxs| - 1][..n] == fxs[..n];
    }
  }

  lemma EffectsPrefix(h: Hashes, blocks: seq<Block>, n: nat)
    requires Servable(blocks) && n <= |blocks|
    ensures Servable(blocks[..n]) && Effects(h, blocks[..n]) == Effects(h, blocks)[..n]
  {
    hide EffectsOfBlock, Indexable;
    assert forall b :: b in blocks[..n] ==> b in blocks;
  }

  lemma EffectsChain(h: Hashes, blocks: seq<Block>)
    requires Servable(blocks)
    ensures Chain(Effects(h, blocks))
  {
    hide Indexable;
  }

  /** The conditions under which a chain's balances are sums of unspent outputs. */
  ghost predicate Orderly(h: Hashes, blocks: seq<Block>)
    requires Servable(blocks)
  {
    && Distinct(AllIds(h, blocks))
    && (forall fx :: fx in Effects(h, blocks) ==> DistinctSpends(BlockEvents(fx.txs)))
    && var events := AllEvents(Effects(h, blocks));
      forall i :: 0 <= i < |events| ==> SupplyFits(events[..i], events[i])
  }

  lemma OrderlyPrefix(h: Hashes, blocks: seq<Block>, n: nat)
    requires Servable(blocks) && Orderly(h, blocks) && n <= |blocks|
    ensures Servable(blocks[..n]) && Orderly(h, blocks[..n])
  {
    hide Effects, AllIds, AllEvents, DistinctSpends, SupplyFits, BlockEvents, Servable;
    EffectsPrefix(h, blocks, n);
    IdsPrefix(h, blocks, n);
    AllEventsGrow(Effects(h, blocks), n);
    var all, some := AllEvents(Effects(h, blocks)), AllEvents(Effects(h, blocks[..n]));
    forall i | 0 <= i < |some| ensures SupplyFits(some[..i], some[i]) {
      assert some[..i] == all[..i] && some[i] == all[i];
    }
    var ids, part := AllIds(h, blocks), AllIds(h, blocks[..n]);
    assert forall i :: 0 <= i < |part| ==> part[i] == ids[i];
  }

  /**
   * However many commands have run on the index of an orderly chain, and wherever each was cut off: the bytes on disk
   * spell exactly the first blocks of the chain, every stored balance is the sum of the address's stored unspent
   * outputs, and there is no zero row.
   */
  lemma StoredBalances(h: Hashes, blocks: seq<Block>, sessions: seq<Session>, store: Store)
    requires Servable(blocks) && Orderly(h, blocks) && AllPossible(Effects(h, blocks), Missing, sessions)
    requires History(Effects(h, blocks), Missing, sessions) == IndexOf(Files(store))
    ensures HasMetadata(store) ==>
      ReadLe32(store[HEIGHT_KEY]) < |blocks|
      && View(store) == SnapRun(Effects(h, blocks)[..ReadLe32(store[HEIGHT_KEY]) + 1])
      && store[TIP_KEY] == BlockHash(h, blocks[ReadLe32(store[HEIGHT_KEY])])
    ensures !HasMetadata(store) ==> View(store) == EMPTY
    ensures forall a :: GetSats(store, a) == SumFor(View(store).coins, a)
    ensures NoZeroRow(View(store))
  {
    hide Effects, AllPossible, History, Orderly, SnapRun, SumFor, Servable, Coins, Rows, NoZeroRow;
    var chain, l := Effects(h, blocks), View(store);
    EffectsChain(h, blocks);
    EveryReachableIndexIsSound(chain, Missing, sessions);
    assert SoundLedger(chain, l);
    var n := if l.tip.Some? then l.tip.value.0 + 1 else 0;
    NoBlocks(chain);
    assert l == SnapRun(chain[..n]);
    OrderlyPrefix(h, blocks, n);
    EffectsPrefix(h, blocks, n);
    PrefixBalances(h, blocks[..n]);
    forall a ensures GetSats(store, a) == SumFor(l.coins, a) { Lookups(store, Outpoint(Repeat(0, 32), 0), a); }
    if l.tip.Some? {
      EffectsHash(h, blocks, l.tip.value.0);
    }
  }

  lemma EffectsHash(h: Hashes, blocks: seq<Block>, k: nat)
    requires Servable(blocks) && k < |blocks|
    ensures Effects(h, blocks)[k].hash == BlockHash(h, blocks[k])
  {
    hide Indexable;
    assert blocks[k] in blocks;
  }

  lemma PrefixBalances(h: Hashes, blocks: seq<Block>)
    requires Servable(blocks) && Orderly(h, blocks)
    ensures var l := SnapRun(Effects(h, blocks)); (forall a :: Balance(l.rows, a) == SumFor(l.coins, a)) && NoZeroRow(l)
  {
    hide Effects, AllIds, AllEvents, DistinctSpends, SupplyFits, BlockEvents, SnapRun, SumFor, Distinct;
    ChainBalances(h, blocks);
  }
}
