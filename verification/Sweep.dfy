/** One sweep: which outputs are spent, what is paid in fees, and what arrives. */
module Sweep {
  import opened Bytes
  import opened Transaction
  import opened Sign
  import opened SignSteps
  import Script

  const MAX_VSIZE := 100000
  const NO_FUNDS := "insufficient funds"

  /** uint32 arithmetic: the age wraps to zero for the one height difference 2^32 - 1. */
  predicate CoinbaseMature(u: Utxo, tip: uint32) {
    !u.coinbase || (tip >= u.height && (tip - u.height + 1) % 0x1_0000_0000 >= 100)
  }

  /** A coinbase output matures with its hundredth confirmation. */
  lemma MatureIff(u: Utxo, tip: uint32)
    ensures CoinbaseMature(u, tip) <==> !u.coinbase || (100 <= tip - u.height + 1 < 0x1_0000_0000)
  {
  }

  // ----- Selection -----

  function Mature(scan: seq<Utxo>, tip: uint32): seq<Utxo> {
    if scan == [] then []
    else Mature(scan[..|scan| - 1], tip) + (if CoinbaseMature(scan[|scan| - 1], tip) then [scan[|scan| - 1]] else [])
  }

  function Total(utxos: seq<Utxo>): nat {
    if utxos == [] then 0 else Total(utxos[..|utxos| - 1]) + utxos[|utxos| - 1].amount
  }

  predicate AllPay(scan: seq<Utxo>, script: seq<byte>) { forall u :: u in scan ==> u.script == script }

  /** The scan loop: the first output that breaks a rule decides the error. */
  function Selected(scan: seq<Utxo>, script: seq<byte>, tip: uint32): Result<seq<Utxo>> {
    if scan == [] then Ok([])
    else
      var before :- Selected(scan[..|scan| - 1], script, tip);
      var u := scan[|scan| - 1];
      if u.script != script then Err("invalid rpc response")
      else if !CoinbaseMature(u, tip) then Ok(before)
      else if u.amount > UINT64_MAX - Total(before) then Err(NO_FUNDS)
      else Ok(before + [u])
  }

  lemma TotalSnoc(utxos: seq<Utxo>, u: Utxo)
    ensures Total(utxos + [u]) == Total(utxos) + u.amount
  {
    assert (utxos + [u])[..|utxos|] == utxos;
  }

  lemma {:induction false} MatureTotalGrows(scan: seq<Utxo>, tip: uint32, n: nat)
    requires n <= |scan|
    ensures Total(Mature(scan[..n], tip)) <= Total(Mature(scan, tip))
  {
    if n == |scan| {
      assert scan[..n] == scan;
    } else {
      MatureTotalGrows(scan[..|scan| - 1], tip, n);
      assert scan[..|scan| - 1][..n] == scan[..n];
      var before := Mature(scan[..|scan| - 1], tip);
      TotalSnoc(before, scan[|scan| - 1]);
      assert before + [] == before;
    }
  }

  /** The loop succeeds exactly when every output pays the script and the mature sum is a uint64. */
  lemma {:induction false} SelectedIff(scan: seq<Utxo>, script: seq<byte>, tip: uint32)
    ensures Selected(scan, script, tip).Ok? <==> AllPay(scan, script) && Total(Mature(scan, tip)) < TWO_64
    ensures Selected(scan, script, tip).Ok? ==> Selected(scan, script, tip).value == Mature(scan, tip)
  {
    hide CoinbaseMature, Total;
    if scan == [] {
      TotalNothing();
    } else {
      var n := |scan| - 1;
      var init, u := scan[..n], scan[n];
      SelectedIff(init, script, tip);
      MatureTotalGrows(scan, tip, n);
      TotalSnoc(Mature(init, tip), u);
      assert scan == init + [u] && Mature(init, tip) + [] == Mature(init, tip);
    }
  }

  lemma TotalNothing()
    ensures Total([]) == 0
  {
  }

  // ----- Fee -----

  datatype Amounts = Amounts(fee: uint64, sats: uint64)

  /** The fee arithmetic, every product and difference checked before it is formed. */
  function Priced(total: uint64, vsize: nat, satvb: uint64, dust: uint64): Result<Amounts> {
    if vsize > MAX_VSIZE then Err("transaction too large")
    else if satvb > 0 && vsize > UINT64_MAX / satvb then Err(NO_FUNDS)
    else
      FeeFits(vsize, satvb);
      var fee: uint64 := vsize * satvb;
      if fee >= total then Err(NO_FUNDS)
      else if total - fee < dust then Err(NO_FUNDS)
      else Ok(Amounts(fee, total - fee))
  }

  lemma FeeFits(vsize: nat, satvb: uint64)
    ensures satvb == 0 || vsize <= UINT64_MAX / satvb <==> vsize * satvb <= UINT64_MAX
    ensures vsize * satvb >= 0
  {
    if satvb > 0 {
      var q, r := UINT64_MAX / satvb, UINT64_MAX % satvb;
      assert UINT64_MAX == q * satvb + r && 0 <= r < satvb;
      if vsize <= q {
        Products(vsize, q, satvb);
      } else {
        Products(q + 1, vsize, satvb);
      }
    }
  }

  lemma Products(a: nat, b: nat, c: nat)
    requires a <= b
    ensures a * c <= b * c && (a + 1) * c == a * c + c
  {
  }

  /** In exact arithmetic: priced exactly when the size is allowed and the total covers fee and dust. */
  lemma PricedIff(total: uint64, vsize: nat, satvb: uint64, dust: uint64)
    requires dust > 0
    ensures Priced(total, vsize, satvb, dust).Ok? <==> vsize <= 100000 && vsize * satvb + dust <= total
    ensures Priced(total, vsize, satvb, dust).Ok? ==>
      var a := Priced(total, vsize, satvb, dust).value;
      a.fee == vsize * satvb && a.sats + a.fee == total && a.sats >= dust
  {
    FeeFits(vsize, satvb);
  }

  // ----- The sweep -----

  datatype Swept = Swept(tx: Tx, utxos: seq<Utxo>, fee: uint64, sats: uint64)

  /** rate is the given or estimated fee rate, if any. */
  function SweepOf(c: Crypto, key: Key, style: Style, from: seq<byte>, dest: seq<byte>, scan: seq<Utxo>, tip: uint32,
                   rate: Option<uint64>): Result<Swept>
  {
    var utxos :- Selected(scan, from, tip);
    SelectedIff(scan, from, tip);
    if utxos == [] then Err("no unspent outputs")
    else if rate.None? then Err("fee rate unavailable (pass --fee-rate)")
    else
      var pk :- c.pubkey(key);
      var amounts :- Priced(Total(utxos), Estimate(style, pk, |utxos|, dest), rate.value, Script.DustSats(dest));
      var tx :- SweepTx(c, key, style, utxos, dest, AsInt64(amounts.sats), tip);
      Ok(Swept(tx, utxos, amounts.fee, amounts.sats))
  }

  method SelectUtxos(scan: seq<Utxo>, script: seq<byte>, tip: uint32) returns (r: Result<(seq<Utxo>, uint64)>)
    ensures r.Ok? ==> Selected(scan, script, tip) == Ok(r.value.0) && r.value.1 == Total(r.value.0)
    ensures r.Err? ==> Selected(scan, script, tip) == Err(r.message)
  {
    hide CoinbaseMature, Total;
    var utxos: seq<Utxo>, total: uint64 := [], 0;
    TotalNothing();
    for i := 0 to |scan|
      invariant Selected(scan[..i], script, tip) == Ok(utxos) && total == Total(utxos)
    {
      var u := scan[i];
      assert scan[..i + 1][..i] == scan[..i];
      TotalSnoc(utxos, u);
      if u.script != script {
        FirstErrorStays(scan, script, tip, i + 1);
        return Err("invalid rpc response");
      }
      if !CoinbaseMature(u, tip) {
        continue;
      }
      if u.amount > UINT64_MAX - total {
        FirstErrorStays(scan, script, tip, i + 1);
        return Err(NO_FUNDS);
      }
      total := total + u.amount;
      utxos := utxos + [u];
    }
    assert scan[..|scan|] == scan;
    return Ok((utxos, total));
  }

  lemma {:induction false} FirstErrorStays(scan: seq<Utxo>, script: seq<byte>, tip: uint32, n: nat)
    requires n <= |scan| && Selected(scan[..n], script, tip).Err?
    ensures Selected(scan, script, tip) == Selected(scan[..n], script, tip)
  {
    hide CoinbaseMature, Total;
    if n == |scan| {
      assert scan[..n] == scan;
    } else {
      assert scan[..|scan| - 1][..n] == scan[..n];
      FirstErrorStays(scan[..|scan| - 1], script, tip, n);
    }
  }

  method SweepOne(c: Crypto, key: Key, style: Style, from: seq<byte>, dest: seq<byte>, scan: seq<Utxo>, tip: uint32,
                  rate: Option<uint64>) returns (r: Result<Swept>)
    requires FitsMemory(scan, dest)
    ensures r == SweepOf(c, key, style, from, dest, scan, tip, rate)
  {
    hide Selected, Total, Priced, SweepTx, Estimate, FitsMemory;
    var chosen :- SelectUtxos(scan, from, tip);
    var (utxos, total) := chosen;
    SelectedIff(scan, from, tip);
    MatureFits(scan, dest, tip);
    if utxos == [] {
      return Err("no unspent outputs");
    }
    if rate.None? {
      return Err("fee rate unavailable (pass --fee-rate)");
    }
    var satvb := rate.value;
    var pk :- c.pubkey(key);
    var vsize := EstimateSweepVsize(style, pk, |utxos|, dest);
    PricedSteps(total, vsize, satvb, Script.DustSats(dest));
    if vsize > MAX_VSIZE {
      return Err("transaction too large");
    }
    if satvb > 0 && vsize > UINT64_MAX / satvb {
      return Err(NO_FUNDS);
    }
    FeeFits(vsize, satvb);
    var fee: uint64 := vsize * satvb;
    if fee >= total {
      return Err(NO_FUNDS);
    }
    var sats: uint64 := total - fee;
    if sats < Script.DustSats(dest) {
      return Err(NO_FUNDS);
    }
    var tx :- SignSweep(c, key, style, utxos, dest, AsInt64(sats), tip);
    return Ok(Swept(tx, utxos, fee, sats));
  }

  lemma PricedSteps(total: uint64, vsize: nat, satvb: uint64, dust: uint64)
    ensures Priced(total, vsize, satvb, dust)
         == if vsize > MAX_VSIZE then Err("transaction too large")
            else if satvb > 0 && vsize > UINT64_MAX / satvb then Err(NO_FUNDS)
            else if vsize * satvb >= total || total - vsize * satvb < dust then Err(NO_FUNDS)
            else Ok(Amounts(vsize * satvb, total - vsize * satvb))
  {
    FeeFits(vsize, satvb);
  }

  lemma {:induction false} MatureFits(scan: seq<Utxo>, dest: seq<byte>, tip: uint32)
    requires FitsMemory(scan, dest)
    ensures FitsMemory(Mature(scan, tip), dest) && |Mature(scan, tip)| <= |scan| < TWO_64 && |dest| < TWO_64
  {
    hide CoinbaseMature;
    if scan != [] {
      assert scan[|scan| - 1] in scan;
      MatureFits(scan[..|scan| - 1], dest, tip);
    }
  }

  lemma DustPositive(dest: seq<byte>)
    ensures Script.DustSats(dest) > 0
  {
  }

  /**
   * A successful sweep conserves value: what arrives and the fee are together exactly the mature outputs'
   * sum; what arrives is not dust; the fee pays the rate for at least the real size; and the transaction's one
   * output carries that amount.
   */
  lemma SweepConserves(c: Crypto, key: Key, style: Style, from: seq<byte>, dest: seq<byte>, scan: seq<Utxo>,
                       tip: uint32, rate: Option<uint64>)
    requires SweepOf(c, key, style, from, dest, scan, tip, rate).Ok?
    ensures var s := SweepOf(c, key, style, from, dest, scan, tip, rate).value;
      && s.utxos == Mature(scan, tip) && AllPay(scan, from)
      && s.sats + s.fee == Total(Mature(scan, tip))
      && s.sats >= Script.DustSats(dest)
      && rate.Some? && s.fee >= Vsize(s.tx) * rate.value
      && (style == P2tr ==> s.fee == Vsize(s.tx) * rate.value)
      && Vsize(s.tx) <= 100000
      && |s.tx.vout| == 1 && s.tx.vout[0].script == dest && AsUint64(s.tx.vout[0].value) == s.sats
      && s.tx.version == 2 && s.tx.locktime == tip && |s.tx.vin| == |Mature(scan, tip)|
      && forall i :: 0 <= i < |s.tx.vin| ==>
           && s.tx.vin[i].prevTxid == Mature(scan, tip)[i].txid && s.tx.vin[i].prevVout == Mature(scan, tip)[i].vout
           && s.tx.vin[i].sequence == 0xffff_fffd
  {
    hide Selected, Total, Priced, SweepTx, Estimate, Vsize, SameOutline, SignedOn;
    var s := SweepOf(c, key, style, from, dest, scan, tip, rate).value;
    SelectedIff(scan, from, tip);
    var pk := c.pubkey(key).value;
    var estimate := Estimate(style, pk, |s.utxos|, dest);
    DustPositive(dest);
    PricedIff(Total(s.utxos), estimate, rate.value, Script.DustSats(dest));
    EstimateDominates(c, key, style, s.utxos, dest, AsInt64(s.sats), tip);
    SweepSpends(c, key, style, s.utxos, dest, AsInt64(s.sats), tip);
    CastsInverse(0, 0, 0, s.sats);
    Products(Vsize(s.tx), estimate, rate.value);
  }

  /** The arithmetic of a sweep without machine words: the mature sum covers fee and dust. */
  predicate Affordable(total: nat, vsize: nat, satvb: uint64, dust: uint64) {
    total < TWO_64 && vsize <= 100000 && vsize * satvb + dust <= total
  }

  /** Every input's script yields a code and every input's signing call succeeds. */
  predicate Signable(c: Crypto, key: Key, style: Style, from: seq<byte>, utxos: seq<Utxo>, dest: seq<byte>, sats: int,
                     tip: uint32)
  {
    && 0 <= sats < TWO_64 && HasScriptCode(style, from)
    && forall i :: 0 <= i < |utxos| ==>
         CallSucceeds(c, key, style, SkeletonFor(style, utxos, dest, AsInt64(sats), tip), utxos, i)
  }

  lemma {:induction false} MatureAreScanned(scan: seq<Utxo>, tip: uint32)
    ensures forall u :: u in Mature(scan, tip) ==> u in scan
  {
    hide CoinbaseMature;
    if scan != [] {
      MatureAreScanned(scan[..|scan| - 1], tip);
      assert scan[|scan| - 1] in scan;
    }
  }

  lemma SignableIff(c: Crypto, key: Key, style: Style, from: seq<byte>, utxos: seq<Utxo>, dest: seq<byte>, sats: uint64,
                    tip: uint32)
    requires c.pubkey(key).Ok? && utxos != [] && AllPay(utxos, from)
    ensures SweepTx(c, key, style, utxos, dest, AsInt64(sats), tip).Ok? <==>
      Signable(c, key, style, from, utxos, dest, sats, tip)
  {
    hide SweepTx, HasScriptCode, CallSucceeds;
    SweepTxIff(c, key, style, utxos, dest, AsInt64(sats), tip);
    assert utxos[0] in utxos;
    forall i | 0 <= i < |utxos| ensures utxos[i].script == from { assert utxos[i] in utxos; }
  }

  /**
   * A sweep succeeds exactly when, in exact arithmetic, the mature outputs cover fee and dust, their script yields a
   * script code (P2WPKH), and the signing call on each input's digest succeeds.
   */
  lemma SweepSucceedsIff(c: Crypto, key: Key, style: Style, from: seq<byte>, dest: seq<byte>, scan: seq<Utxo>,
                         tip: uint32, satvb: uint64, pk: PubkeyBytes, vsize: nat)
    requires c.pubkey(key) == Ok(pk) && vsize == Estimate(style, pk, |Mature(scan, tip)|, dest)
    ensures SweepOf(c, key, style, from, dest, scan, tip, Some(satvb)).Ok? <==>
      && AllPay(scan, from) && Mature(scan, tip) != []
      && Affordable(Total(Mature(scan, tip)), vsize, satvb, Script.DustSats(dest))
      && Signable(c, key, style, from, Mature(scan, tip), dest, Total(Mature(scan, tip)) - vsize * satvb, tip)
  {
    hide Selected, Total, Priced, SweepTx, Estimate, Signable;
    SelectedIff(scan, from, tip);
    var mature := Mature(scan, tip);
    DustPositive(dest);
    if Total(mature) < TWO_64 && AllPay(scan, from) && mature != [] {
      MatureAreScanned(scan, tip);
      PricedIff(Total(mature), vsize, satvb, Script.DustSats(dest));
      if Affordable(Total(mature), vsize, satvb, Script.DustSats(dest)) {
        SignableIff(c, key, style, from, mature, dest, Total(mature) - vsize * satvb, tip);
      }
    }
  }

  lemma MatureOne(u: Utxo, tip: uint32)
    ensures Mature([u], tip) == if !u.coinbase || 100 <= tip - u.height + 1 < 0x1_0000_0000 then [u] else []
  {
    MatureIff(u, tip);
    hide CoinbaseMature;
    assert [u][..0] == [];
  }

  /** The mature outputs are taken output by output, in scan order, none skipped or repeated. */
  lemma {:induction false} MatureConcat(a: seq<Utxo>, b: seq<Utxo>, tip: uint32)
    ensures Mature(a + b, tip) == Mature(a, tip) + Mature(b, tip)
  {
    if b == [] {
      assert a + b == a && Mature(b, tip) == [];
    } else {
      hide Mature, CoinbaseMature;
      var n := |b| - 1;
      MatureConcat(a, b[..n], tip);
      assert (a + b)[..|a + b| - 1] == a + b[..n];
      MatureLast(a + b, tip);
      MatureLast(b, tip);
    }
  }

  lemma MatureLast(scan: seq<Utxo>, tip: uint32)
    requires scan != []
    ensures Mature(scan, tip)
         == Mature(scan[..|scan| - 1], tip) + (if CoinbaseMature(scan[|scan| - 1], tip) then [scan[|scan| - 1]] else [])
  {
    hide CoinbaseMature;
  }

  /** The sum of amounts. */
  lemma {:induction false} TotalConcat(a: seq<Utxo>, b: seq<Utxo>)
    ensures Total(a + b) == Total(a) + Total(b)
    ensures forall u: Utxo :: Total([u]) == u.amount
  {
    forall u: Utxo ensures Total([u]) == u.amount {
      assert [u][..0] == [];
    }
    if b == [] {
      assert a + b == a;
    } else {
      var n := |b| - 1;
      TotalConcat(a, b[..n]);
      assert (a + b)[..|a + b| - 1] == a + b[..n];
    }
  }

  /** Why a sweep that signs nothing fails, in the order the checks are made. */
  lemma SweepErrors(c: Crypto, key: Key, style: Style, from: seq<byte>, dest: seq<byte>, scan: seq<Utxo>, tip: uint32,
                    rate: Option<uint64>, pk: PubkeyBytes, vsize: nat)
    requires c.pubkey(key) == Ok(pk) && vsize == Estimate(style, pk, |Mature(scan, tip)|, dest)
    ensures var r, total := SweepOf(c, key, style, from, dest, scan, tip, rate), Total(Mature(scan, tip));
      AllPay(scan, from) ==>
        if total >= TWO_64 then r == Err("insufficient funds")
        else if Mature(scan, tip) == [] then r == Err("no unspent outputs")
        else if rate.None? then r == Err("fee rate unavailable (pass --fee-rate)")
        else if vsize > 100000 then r == Err("transaction too large")
        else vsize * rate.value + Script.DustSats(dest) > total ==> r == Err("insufficient funds")
  {
    hide Selected, Total, SweepTx, Estimate, Mature;
    SelectedIff(scan, from, tip);
    if AllPay(scan, from) {
      SelectedErrors(scan, from, tip);
    }
    if rate.Some? {
      FeeFits(vsize, rate.value);
    }
  }

  lemma {:induction false} SelectedErrors(scan: seq<Utxo>, script: seq<byte>, tip: uint32)
    requires AllPay(scan, script)
    ensures Selected(scan, script, tip).Err? ==> Selected(scan, script, tip) == Err("insufficient funds")
  {
    hide CoinbaseMature, Total;
    if scan != [] {
      SelectedErrors(scan[..|scan| - 1], script, tip);
      assert scan[|scan| - 1] in scan;
    }
  }
}
