/** The whole index of a chain: from unique transaction ids to the sum invariant. */
module IndexedChain {
  import opened Bytes
  import opened Transaction
  import opened Utxo
  import opened Audit
  import opened Indexer

  /** All credits carry the transaction's id, at increasing indices. */
  predicate Minted(te: TxEffects, id: Hash256) {
    && (forall i :: 0 <= i < |te.credits| ==> te.credits[i].op.txid == id)
    && (forall i, j :: 0 <= i < j < |te.credits| ==> te.credits[i].op.vout < te.credits[j].op.vout)
  }

  predicate MintedBy(txs: seq<TxEffects>, ids: seq<Hash256>) {
    |txs| == |ids| && forall k :: 0 <= k < |txs| ==> Minted(txs[k], ids[k])
  }

  predicate Distinct(ids: seq<Hash256>) { forall i, j :: 0 <= i < j < |ids| ==> ids[i] != ids[j] }

  /** Every credit of a block comes from one of its transactions. */
  lemma {:induction false} CreditsHaveIds(txs: seq<TxEffects>, ids: seq<Hash256>, e: Event)
    requires MintedBy(txs, ids) && e in BlockEvents(txs)
    ensures e.Earned? ==> e.credit.op.txid in ids
  {
    if txs != [] {
      var n := |txs| - 1;
      var te := txs[n];
      if e in BlockEvents(txs[..n]) {
        CreditsHaveIds(txs[..n], ids[..n], e);
      } else if e.Earned? {
        assert e in Spends(te.spends) + Earnings(te.credits);
        assert Minted(txs[n], ids[n]);
      }
    }
  }

  /** In a run with distinct transaction ids no credit ever meets an unspent coin. */
  lemma {:induction false} DistinctIdsAreFresh(txs: seq<TxEffects>, ids: seq<Hash256>)
    requires MintedBy(txs, ids) && Distinct(ids)
    ensures FreshCredits(BlockEvents(txs))
  {
    hide Play;
    if txs != [] {
      var n := |txs| - 1;
      var before, te := BlockEvents(txs[..n]), txs[n];
      var events := BlockEvents(txs);
      DistinctIdsAreFresh(txs[..n], ids[..n]);
      assert events == before + TxEvents(te);
      forall i | 0 <= i < |events| ensures FreshCredit(events[..i], events[i]) {
        if i < |before| {
          assert events[..i] == before[..i] && events[i] == before[i];
          assert FreshCredit(before[..i], before[i]);
        } else {
          LastTxFresh(txs, ids, i);
        }
      }
    }
  }

  lemma LastTxFresh(txs: seq<TxEffects>, ids: seq<Hash256>, i: nat)
    requires MintedBy(txs, ids) && Distinct(ids) && txs != []
    requires |BlockEvents(txs[..|txs| - 1])| <= i < |BlockEvents(txs)|
    ensures FreshCredit(BlockEvents(txs)[..i], BlockEvents(txs)[i])
  {
    hide Play;
    var n := |txs| - 1;
    var before, te, events := BlockEvents(txs[..n]), txs[n], BlockEvents(txs);
    var e, m := events[i], |before| + |te.spends|;
    if e.Earned? && e.credit.op in Play(EMPTY, events[..i]).coins {
      CoinsWereEarned(events[..i], e.credit.op);
      var j :| 0 <= j < i && events[..i][j].Earned? && events[..i][j].credit.op == e.credit.op;
      assert Minted(txs[n], ids[n]);
      assert i >= m && e.credit == te.credits[i - m];
      if j < |before| {
        assert events[j] == before[j] && before[j] in before;
        CreditsHaveIds(txs[..n], ids[..n], before[j]);
        assert false;
      }
    }
  }

  // ----- A chain of blocks -----

  /** Heights are 32-bit, and so are output indices. */
  predicate Servable(blocks: seq<Block>) {
    |blocks| <= 0x1_0000_0000 && forall b :: b in blocks ==> Indexable(b)
  }

  function Effects(h: Hashes, blocks: seq<Block>): (fxs: seq<BlockEffects>)
    requires Servable(blocks)
    ensures |fxs| == |blocks|
  {
    seq(|blocks|, k requires 0 <= k < |blocks| => assert blocks[k] in blocks; EffectsOfBlock(h, blocks[k], k))
  }

  function AllTxs(fxs: seq<BlockEffects>): seq<TxEffects> {
    if fxs == [] then [] else AllTxs(fxs[..|fxs| - 1]) + fxs[|fxs| - 1].txs
  }

  function BlockIds(h: Hashes, b: Block): (ids: seq<Hash256>)
    ensures |ids| == |b.txs|
  {
    seq(|b.txs|, i requires 0 <= i < |b.txs| => Txid(h, b.txs[i]))
  }

  function AllIds(h: Hashes, blocks: seq<Block>): seq<Hash256> {
    if blocks == [] then [] else AllIds(h, blocks[..|blocks| - 1]) + BlockIds(h, blocks[|blocks| - 1])
  }

  lemma {:induction false} EventsOfAllTxs(fxs: seq<BlockEffects>)
    ensures AllEvents(fxs) == BlockEvents(AllTxs(fxs))
  {
    hide BlockEvents;
    if fxs == [] {
      NoTxs();
    } else {
      var n := |fxs| - 1;
      EventsOfAllTxs(fxs[..n]);
      EventsConcat(AllTxs(fxs[..n]), fxs[n].txs);
    }
  }

  lemma NoTxs()
    ensures BlockEvents([]) == []
  {
  }

  lemma TxMinted(h: Hashes, tx: Tx)
    requires |tx.vout| < 0x1_0000_0000
    ensures Minted(EffectsOfTx(h, tx), Txid(h, tx))
  {
    hide CreditsOf, Txid;
    var id := Txid(h, tx);
    var credits := CreditsOf(h, id, tx.vout);
    assert EffectsOfTx(h, tx).credits == credits;
    CreditsDistinct(h, id, tx.vout);
    forall i | 0 <= i < |credits| ensures credits[i].op.txid == id {
      CreditsExactly(h, id, tx.vout, credits[i]);
    }
  }

  lemma BlockMinted(h: Hashes, b: Block, height: uint32)
    requires Indexable(b)
    ensures MintedBy(EffectsOfBlock(h, b, height).txs, BlockIds(h, b))
  {
    hide EffectsOfTx, Txid, Minted;
    var txs := EffectsOfBlock(h, b, height).txs;
    forall k | 0 <= k < |txs| ensures Minted(txs[k], BlockIds(h, b)[k]) {
      assert b.txs[k] in b.txs;
      TxMinted(h, b.txs[k]);
    }
  }

  lemma MintedConcat(a: seq<TxEffects>, x: seq<Hash256>, b: seq<TxEffects>, y: seq<Hash256>)
    requires MintedBy(a, x) && MintedBy(b, y)
    ensures MintedBy(a + b, x + y)
  {
    hide Minted;
    forall k | 0 <= k < |a + b| ensures Minted((a + b)[k], (x + y)[k]) {
      if k < |a| {
        assert Minted(a[k], x[k]);
      } else {
        assert Minted(b[k - |a|], y[k - |a|]);
      }
    }
  }

  lemma NothingMinted()
    ensures MintedBy([], [])
  {
  }

  lemma {:induction false} ChainMinted(h: Hashes, blocks: seq<Block>)
    requires Servable(blocks)
    ensures MintedBy(AllTxs(Effects(h, blocks)), AllIds(h, blocks))
  {
    hide MintedBy, EffectsOfBlock, BlockIds;
    if blocks == [] {
      NothingMinted();
    } else {
      var n := |blocks| - 1;
      var fxs := Effects(h, blocks);
      assert blocks[n] in blocks;
      ChainMinted(h, blocks[..n]);
      assert fxs[..n] == Effects(h, blocks[..n]);
      BlockMinted(h, blocks[n], n);
      MintedConcat(AllTxs(fxs[..n]), AllIds(h, blocks[..n]), fxs[n].txs, BlockIds(h, blocks[n]));
    }
  }

  /**
   * Indexing a chain whose transaction ids are distinct, whose blocks spend no outpoint twice and whose supply
   * stays below 2^64: every stored balance is the sum of the address's stored unspent outputs, and no row is zero.
   */
  lemma ChainBalances(h: Hashes, blocks: seq<Block>)
    requires Servable(blocks)
    requires Distinct(AllIds(h, blocks))
    requires forall fx :: fx in Effects(h, blocks) ==> DistinctSpends(BlockEvents(fx.txs))
    requires var events := AllEvents(Effects(h, blocks));
      forall i :: 0 <= i < |events| ==> SupplyFits(events[..i], events[i])
    ensures var l := SnapRun(Effects(h, blocks));
      (forall a :: Balance(l.rows, a) == SumFor(l.coins, a)) && NoZeroRow(l)
  {
    hide SnapRun, AllEvents, AllTxs, AllIds, MintedBy, Distinct, FreshCredits, NoWraps, StaleFree, SettledRun, DistinctSpends;
    hide BlockEvents, SupplyFits, SumFor, Balance, EffectsOfBlock;
    var fxs := Effects(h, blocks);
    ChainMinted(h, blocks);
    DistinctIdsAreFresh(AllTxs(fxs), AllIds(h, blocks));
    EventsOfAllTxs(fxs);
    SupplyPreventsWrap(AllEvents(fxs));
    DistinctRunIsStaleFree(fxs);
    StaleFreeIsSettled(fxs);
    IndexAudit(fxs);
  }
}
