/** Moving sales to the port-out history: `markSaleAsPortedOut` and
    `bulkMarkAsPortedOut`.  The port-out record copies the sale (without its
    port-out status) and stamps the port-out date; the sale is deleted in
    the same batch. */
module PortOut {
  import opened Wrappers
  import opened Records
  import opened Inventory
  import Seqs
  import Serial

  function PortOutSrNos(s: State): seq<Option<int>> { Seqs.Map(s.portOuts, PortOutSrNo) }

  function PortedOut(id: Id, srNo: int, sale: SaleRecord, now: Time): PortOutRecord {
    PortOutRecord(
      id, Some(srNo), sale.mobile, sale.sum, sale.soldTo, sale.salePrice, sale.paymentStatus,
      sale.saleDate, sale.upcStatus, sale.uploadStatus, sale.createdBy, sale.originalNumberData, now)
  }

  /** `po` archives `sale` under serial `srNo` at `now`, whatever its id. */
  predicate PortedAs(po: PortOutRecord, sale: SaleRecord, srNo: int, now: Time) {
    po == PortedOut(po.id, srNo, sale, now)
  }

  function PortOne(s: State, sale: SaleRecord, srNo: int, now: Time): State {
    var po := PortedOut(FreshId(Seqs.Map(s.portOuts, PortOutId)), srNo, sale, now);
    s.(sales := Seqs.Without(s.sales, SaleId, {sale.id}), portOuts := s.portOuts + [po])
  }

  /** `markSaleAsPortedOut`: refused when the sale is unknown or has no
      snapshot of the original number. */
  function MarkSaleAsPortedOut(s: State, saleId: Id, now: Time): (r: Step)
    ensures r.state.numbers == s.numbers && r.state.dealerPurchases == s.dealerPurchases
    ensures r.state.preBookings == s.preBookings
    ensures (forall i | 0 <= i < |s.sales| :: s.sales[i].id != saleId) <==> r == Step(s, NotFound)
    ensures r.outcome == MissingSnapshot <==>
      exists i | Seqs.FirstWith(s.sales, SaleId, saleId, i) :: s.sales[i].originalNumberData.None?
    ensures r.outcome.Applied? <==>
      exists i | Seqs.FirstWith(s.sales, SaleId, saleId, i) :: s.sales[i].originalNumberData.Some?
    ensures r.outcome.Applied? || r.outcome == NotFound || r.outcome == MissingSnapshot
    ensures !r.outcome.Applied? ==> r.state == s
    ensures r.outcome.Applied? ==>
      && r.state.sales == Seqs.Without(s.sales, SaleId, {saleId})
      && |r.state.portOuts| == |s.portOuts| + 1
      && r.state.portOuts[..|s.portOuts|] == s.portOuts
      && (exists i | Seqs.FirstWith(s.sales, SaleId, saleId, i) :: s.sales[i].originalNumberData.Some?
            && PortedAs(r.state.portOuts[|s.portOuts|], s.sales[i], Serial.NextSrNo(PortOutSrNos(s)), now)
            && r.outcome.affected == [s.sales[i].mobile])
  {
    Seqs.FindIndexFirst(s.sales, SaleId, saleId);
    match Seqs.FindIndex(s.sales, SaleId, saleId)
    case None => Step(s, NotFound)
    case Some(i) =>
      var sale := s.sales[i];
      if sale.originalNumberData.None? then Step(s, MissingSnapshot)
      else
        var t := PortOne(s, sale, Serial.NextSrNo(PortOutSrNos(s)), now);
        assert t.portOuts[..|s.portOuts|] == s.portOuts;
        Step(t, Applied([sale.mobile], 0))
  }

  /** Porting out one sale keeps the inventory invariant and the mobiles held. */
  lemma MarkSaleAsPortedOutKeepsValid(s: State, saleId: Id, now: Time)
    requires Valid(s)
    ensures var t := MarkSaleAsPortedOut(s, saleId, now).state;
      Valid(t) && multiset(AllMobiles(t)) == multiset(AllMobiles(s))
  {
    var r := Seqs.FindIndex(s.sales, SaleId, saleId);
    if r.Some? && s.sales[r.value].originalNumberData.Some? {
      assert MarkSaleAsPortedOut(s, saleId, now).state == PortOne(s, s.sales[r.value], Serial.NextSrNo(PortOutSrNos(s)), now);
      PortOneKeepsValid(s, r.value, Serial.NextSrNo(PortOutSrNos(s)), now);
    }
  }

  function PortAll(s: State, recs: seq<SaleRecord>, srNo: int, now: Time): State
    decreases |recs|
  {
    if |recs| == 0 then s
    else PortAll(PortOne(s, recs[0], srNo, now), recs[1..], srNo + 1, now)
  }

  function UpcGenerated(x: SaleRecord): bool { x.upcStatus == Generated }
  function UpcNotGenerated(x: SaleRecord): bool { x.upcStatus != Generated }

  /** `bulkMarkAsPortedOut`: only sales whose UPC is generated move; the
      rest are counted as skipped; with none eligible nothing happens. */
  function BulkMarkAsPortedOut(s: State, recs: seq<SaleRecord>, now: Time): (r: Step)
    ensures |recs| == 0 ==> r == Step(s, Ignored)
    ensures |recs| > 0 && (forall i | 0 <= i < |recs| :: recs[i].upcStatus != Generated) ==> r == Step(s, NoEligible)
    ensures r.outcome.Applied? ==> r.outcome.skipped == |Seqs.Filter(recs, UpcNotGenerated)|
    ensures r.outcome.Applied? ==> forall m | m in r.outcome.affected ::
      exists i | 0 <= i < |recs| :: recs[i].mobile == m && recs[i].upcStatus == Generated
    ensures r.outcome.Applied? || r.state == s
  {
    if |recs| == 0 then Step(s, Ignored)
    else
      var eligible := Seqs.Filter(recs, UpcGenerated);
      if |eligible| == 0 then
        assert forall i | 0 <= i < |recs| :: recs[i].upcStatus != Generated by {
          forall i | 0 <= i < |recs| ensures recs[i].upcStatus != Generated {
            assert recs[i] in recs;
          }
        }
        Step(s, NoEligible)
      else
        assert |eligible| > 0 ==> eligible[0] in eligible;
        Seqs.FilterPartition(recs, UpcGenerated, UpcNotGenerated);
        var affected := Seqs.Map(eligible, SaleMobile);
        assert forall m | m in affected :: exists i | 0 <= i < |recs| :: recs[i].mobile == m && recs[i].upcStatus == Generated by {
          forall m | m in affected ensures exists i | 0 <= i < |recs| :: recs[i].mobile == m && recs[i].upcStatus == Generated {
            var j :| 0 <= j < |eligible| && affected[j] == m;
            assert eligible[j] in eligible;
            var i :| 0 <= i < |recs| && recs[i] == eligible[j];
          }
        }
        Step(PortAll(s, eligible, Serial.NextSrNo(PortOutSrNos(s)), now), Applied(affected, |recs| - |eligible|))
  }

  lemma PortOneKeepsValid(s: State, k: nat, srNo: int, now: Time)
    requires Valid(s)
    requires k < |s.sales|
    ensures var t := PortOne(s, s.sales[k], srNo, now);
      Valid(t) && multiset(AllMobiles(t)) == multiset(AllMobiles(s))
  {
    var sale := s.sales[k];
    var po := PortedOut(FreshId(Seqs.Map(s.portOuts, PortOutId)), srNo, sale, now);
    var t := s.(sales := Seqs.Without(s.sales, SaleId, {sale.id}), portOuts := s.portOuts + [po]);
    assert t == PortOne(s, sale, srNo, now);
    Seqs.WithoutOne(s.sales, SaleId, k, SaleMobile);
    Seqs.MapMultisetAppend(s.portOuts, po, PortOutMobile);
    assert multiset(AllMobiles(t)) == multiset(AllMobiles(s));
    Seqs.WithoutKeysUnique(s.sales, SaleId, {sale.id});
    Seqs.WithoutMembers(s.sales, SaleId, {sale.id});
    Seqs.AppendFreshKey(s.portOuts, po, PortOutId);
    assert IdsUnique(t);
    assert SnapshotsAgree(t);
    ValidFromSameMobiles(s, t);
  }

  lemma {:induction false} PortAllKeepsValid(s: State, recs: seq<SaleRecord>, srNo: int, now: Time)
    requires Valid(s)
    requires forall r | r in recs :: r in s.sales
    requires Seqs.KeysUnique(recs, SaleId)
    ensures var t := PortAll(s, recs, srNo, now);
      Valid(t) && multiset(AllMobiles(t)) == multiset(AllMobiles(s))
    decreases |recs|
  {
    if |recs| > 0 {
      assert recs[0] in recs;
      var k :| 0 <= k < |s.sales| && s.sales[k] == recs[0];
      PortOneKeepsValid(s, k, srNo, now);
      var s1 := PortOne(s, recs[0], srNo, now);
      Seqs.KeysUniqueTail(recs, SaleId);
      Seqs.WithoutMembers(s.sales, SaleId, {recs[0].id});
      assert forall r | r in recs[1..] :: r in s1.sales;
      PortAllKeepsValid(s1, recs[1..], srNo + 1, now);
    }
  }

  /** Porting out sales that are on the books keeps the inventory
      invariant and the set of mobiles held. */
  lemma BulkMarkAsPortedOutKeepsValid(s: State, recs: seq<SaleRecord>, now: Time)
    requires Valid(s)
    requires forall r | r in recs :: r in s.sales
    requires Seqs.KeysUnique(recs, SaleId)
    ensures var t := BulkMarkAsPortedOut(s, recs, now).state;
      Valid(t) && multiset(AllMobiles(t)) == multiset(AllMobiles(s))
  {
    var eligible := Seqs.Filter(recs, UpcGenerated);
    if |recs| > 0 && |eligible| > 0 {
      Seqs.FilterSubMultiset(recs, UpcGenerated, SaleId);
      Seqs.NoDuplicatesSubMultiset(Seqs.Map(recs, SaleId), Seqs.Map(eligible, SaleId));
      PortAllKeepsValid(s, eligible, Serial.NextSrNo(PortOutSrNos(s)), now);
    }
  }

  /** The batch deletes exactly the selected sales. */
  lemma {:induction false} PortAllSales(s: State, recs: seq<SaleRecord>, srNo: int, now: Time)
    ensures PortAll(s, recs, srNo, now).sales == Seqs.Without(s.sales, SaleId, Seqs.KeySet(recs, SaleId))
    decreases |recs|
  {
    if |recs| == 0 {
      assert Seqs.KeySet(recs, SaleId) == {};
      Seqs.WithoutNothing(s.sales, SaleId, {});
    } else {
      var s1 := PortOne(s, recs[0], srNo, now);
      PortAllSales(s1, recs[1..], srNo + 1, now);
      Seqs.KeySetCons(recs, SaleId);
      Seqs.WithoutWithout(s.sales, SaleId, {recs[0].id}, Seqs.KeySet(recs[1..], SaleId));
    }
  }

  /** `pos` archive `recs`, in order, with consecutive serial numbers from
      `srNo`. */
  predicate PortedInOrder(pos: seq<PortOutRecord>, recs: seq<SaleRecord>, srNo: int, now: Time)
    decreases |recs|
  {
    && |pos| == |recs|
    && (|recs| > 0 ==>
          && PortedAs(pos[0], recs[0], srNo, now)
          && PortedInOrder(pos[1..], recs[1..], srNo + 1, now))
  }

  lemma {:induction false} PortedInOrderIndex(pos: seq<PortOutRecord>, recs: seq<SaleRecord>, srNo: int, now: Time)
    requires PortedInOrder(pos, recs, srNo, now)
    ensures forall i | 0 <= i < |recs| :: PortedAs(pos[i], recs[i], srNo + i, now)
    decreases |recs|
  {
    if |recs| > 0 {
      PortedInOrderIndex(pos[1..], recs[1..], srNo + 1, now);
      forall i | 0 < i < |recs| ensures PortedAs(pos[i], recs[i], srNo + i, now) {
        assert pos[i] == pos[1..][i - 1] && recs[i] == recs[1..][i - 1];
      }
    }
  }

  /** The batch appends one port-out per selected sale, in order, with
      consecutive serial numbers, and touches no other collection. */
  lemma {:induction false} PortAllPortOuts(s: State, recs: seq<SaleRecord>, srNo: int, now: Time)
    ensures var t := PortAll(s, recs, srNo, now);
      && |t.portOuts| == |s.portOuts| + |recs|
      && t.portOuts[..|s.portOuts|] == s.portOuts
      && PortedInOrder(t.portOuts[|s.portOuts|..], recs, srNo, now)
      && t.numbers == s.numbers && t.dealerPurchases == s.dealerPurchases && t.preBookings == s.preBookings
    decreases |recs|
  {
    if |recs| > 0 {
      var s1 := PortOne(s, recs[0], srNo, now);
      var t := PortAll(s1, recs[1..], srNo + 1, now);
      assert t == PortAll(s, recs, srNo, now);
      PortAllPortOuts(s1, recs[1..], srNo + 1, now);
      var po := s1.portOuts[|s.portOuts|];
      assert PortedAs(po, recs[0], srNo, now);
      assert t.portOuts[..|s1.portOuts|] == s1.portOuts;
      assert t.portOuts[..|s.portOuts|] == s.portOuts by {
        assert s1.portOuts[..|s.portOuts|] == s.portOuts;
      }
      var tail := t.portOuts[|s.portOuts|..];
      assert tail[0] == po;
      assert tail[1..] == t.portOuts[|s1.portOuts|..];
    } else {
      assert s.portOuts[|s.portOuts|..] == [];
    }
  }

  /** `bulkMarkAsPortedOut` acts exactly when some selected sale has its
      UPC generated, and then reports those sales' mobiles and leaves the
      stock, the dealer purchases and the pre-bookings alone. */
  lemma BulkMarkAsPortedOutOutcome(s: State, recs: seq<SaleRecord>, now: Time)
    ensures var r := BulkMarkAsPortedOut(s, recs, now);
      var eligible := Seqs.Filter(recs, UpcGenerated);
      && (r.outcome.Applied? <==> |eligible| > 0)
      && (r.outcome.Applied? ==>
            && r.outcome.affected == Seqs.Map(eligible, SaleMobile)
            && r.state == PortAll(s, eligible, Serial.NextSrNo(PortOutSrNos(s)), now))
  {
    var eligible := Seqs.Filter(recs, UpcGenerated);
    if |eligible| > 0 {
      assert |recs| > 0;
    }
  }

  /** When it acts, `bulkMarkAsPortedOut` deletes exactly the eligible
      sales and appends their port-outs in selection order, numbered from
      the next serial. */
  lemma BulkMarkAsPortedOutShape(s: State, recs: seq<SaleRecord>, now: Time)
    ensures var r := BulkMarkAsPortedOut(s, recs, now);
      var eligible := Seqs.Filter(recs, UpcGenerated);
      r.outcome.Applied? ==>
        && r.state.sales == Seqs.Without(s.sales, SaleId, Seqs.KeySet(eligible, SaleId))
        && |r.state.portOuts| == |s.portOuts| + |eligible|
        && r.state.portOuts[..|s.portOuts|] == s.portOuts
        && PortedInOrder(r.state.portOuts[|s.portOuts|..], eligible, Serial.NextSrNo(PortOutSrNos(s)), now)
        && r.state.numbers == s.numbers && r.state.dealerPurchases == s.dealerPurchases
        && r.state.preBookings == s.preBookings
  {
    var eligible := Seqs.Filter(recs, UpcGenerated);
    BulkMarkAsPortedOutOutcome(s, recs, now);
    if |eligible| > 0 {
      var start := Serial.NextSrNo(PortOutSrNos(s));
      PortAllSales(s, eligible, start, now);
      PortAllPortOuts(s, eligible, start, now);
    }
  }
}
