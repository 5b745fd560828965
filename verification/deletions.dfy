/** Batch deletes: `deletePortOuts` (refused while any selected record's
    payment is pending), `deleteDealerPurchases` (only fully completed
    records go) and `deleteNumbers` (admins only). */
module Deletions {
  import opened Wrappers
  import opened Records
  import opened Inventory
  import Seqs

  function PaymentPending(x: PortOutRecord): bool { x.paymentStatus == Pending }

  /** `deletePortOuts`. */
  function DeletePortOuts(s: State, recs: seq<PortOutRecord>): (r: Step)
    ensures r.state.numbers == s.numbers && r.state.sales == s.sales
    ensures r.state.dealerPurchases == s.dealerPurchases && r.state.preBookings == s.preBookings
    ensures r.outcome.Blocked? <==> exists i | 0 <= i < |recs| :: recs[i].paymentStatus == Pending
    ensures r.outcome.Blocked? ==> r.state == s && r.outcome.count == |Seqs.Filter(recs, PaymentPending)|
    ensures !r.outcome.Blocked? ==>
      && r.outcome == Applied(Seqs.Map(recs, PortOutMobile), 0)
      && (forall x | x in r.state.portOuts :: x in s.portOuts)
      && (forall x | x in s.portOuts :: x in r.state.portOuts <==> x.id !in Seqs.KeySet(recs, PortOutId))
  {
    var pending := Seqs.Filter(recs, PaymentPending);
    if |pending| > 0 then
      assert pending[0] in pending;
      Step(s, Blocked(|pending|))
    else
      assert forall i | 0 <= i < |recs| :: recs[i].paymentStatus != Pending by {
        forall i | 0 <= i < |recs| ensures recs[i].paymentStatus != Pending {
          assert recs[i] in recs;
        }
      }
      Seqs.WithoutMembers(s.portOuts, PortOutId, Seqs.KeySet(recs, PortOutId));
      Step(s.(portOuts := Seqs.Without(s.portOuts, PortOutId, Seqs.KeySet(recs, PortOutId))),
           Applied(Seqs.Map(recs, PortOutMobile), 0))
  }

  /** A dealer purchase may be deleted once paid, ported out and with its
      UPC generated. */
  function Complete(x: DealerPurchaseRecord): bool {
    x.paymentStatus == Done && x.portOutStatus == Done && x.upcStatus == Generated
  }
  function Incomplete(x: DealerPurchaseRecord): bool { !Complete(x) }

  /** `deleteDealerPurchases`: the complete records are deleted and the
      others reported as skipped; with none complete nothing is written. */
  function DeleteDealerPurchases(s: State, recs: seq<DealerPurchaseRecord>): (r: Step)
    ensures r.state.numbers == s.numbers && r.state.sales == s.sales
    ensures r.state.portOuts == s.portOuts && r.state.preBookings == s.preBookings
    ensures r.outcome.Applied? <==> exists i | 0 <= i < |recs| :: Complete(recs[i])
    ensures !r.outcome.Applied? ==> r.state == s && r.outcome == (if |recs| == 0 then Ignored else Blocked(|recs|))
    ensures r.outcome.Applied? ==>
      && |r.outcome.affected| + r.outcome.skipped == |recs|
      && r.outcome.skipped == |Seqs.Filter(recs, Incomplete)|
      && (forall x | x in r.state.dealerPurchases :: x in s.dealerPurchases)
      && (forall x | x in s.dealerPurchases ::
            x in r.state.dealerPurchases <==> x.id !in Seqs.KeySet(Seqs.Filter(recs, Complete), DealerPurchaseId))
  {
    var can := Seqs.Filter(recs, Complete);
    var cannot := Seqs.Filter(recs, Incomplete);
    Seqs.FilterPartition(recs, Complete, Incomplete);
    if |can| == 0 then
      assert forall i | 0 <= i < |recs| :: !Complete(recs[i]) by {
        forall i | 0 <= i < |recs| ensures !Complete(recs[i]) {
          assert recs[i] in recs;
        }
      }
      Step(s, if |cannot| > 0 then Blocked(|cannot|) else Ignored)
    else
      assert can[0] in can;
      Seqs.WithoutMembers(s.dealerPurchases, DealerPurchaseId, Seqs.KeySet(can, DealerPurchaseId));
      Step(s.(dealerPurchases := Seqs.Without(s.dealerPurchases, DealerPurchaseId, Seqs.KeySet(can, DealerPurchaseId))),
           Applied(Seqs.Map(can, DealerPurchaseMobile), |cannot|))
  }

  /** When the selection is taken from the list itself, exactly the
      selected complete records disappear. */
  lemma DeleteDealerPurchasesExact(s: State, recs: seq<DealerPurchaseRecord>, x: DealerPurchaseRecord)
    requires Seqs.KeysUnique(s.dealerPurchases, DealerPurchaseId)
    requires forall y | y in recs :: y in s.dealerPurchases
    requires x in s.dealerPurchases
    requires exists i | 0 <= i < |recs| :: Complete(recs[i])
    ensures x !in DeleteDealerPurchases(s, recs).state.dealerPurchases <==> x in recs && Complete(x)
  {
    var can := Seqs.Filter(recs, Complete);
    if x.id in Seqs.KeySet(can, DealerPurchaseId) {
      var i :| 0 <= i < |can| && can[i].id == x.id;
      assert can[i] in can;
      var a :| 0 <= a < |s.dealerPurchases| && s.dealerPurchases[a] == can[i];
      var b :| 0 <= b < |s.dealerPurchases| && s.dealerPurchases[b] == x;
      assert Seqs.Map(s.dealerPurchases, DealerPurchaseId)[a] == Seqs.Map(s.dealerPurchases, DealerPurchaseId)[b];
    }
    if x in recs && Complete(x) {
      assert x in can;
      var i :| 0 <= i < |can| && can[i] == x;
    }
  }

  /** `deleteNumbers`: admins only; the activity lists the stock numbers
      whose id was selected. */
  function DeleteNumbers(s: State, ids: seq<Id>, role: Role): (r: Step)
    ensures r.state.sales == s.sales && r.state.portOuts == s.portOuts
    ensures r.state.dealerPurchases == s.dealerPurchases && r.state.preBookings == s.preBookings
    ensures role != Admin ==> r == Step(s, PermissionDenied)
    ensures role == Admin ==>
      && r.outcome.Applied?
      && (forall x | x in r.state.numbers :: x in s.numbers && x.id !in ids)
      && (forall x | x in s.numbers && x.id !in ids :: x in r.state.numbers)
      && (forall m | m in r.outcome.affected :: exists x | x in s.numbers :: x.id in ids && x.data.mobile == m)
      && (forall x | x in s.numbers && x.id in ids :: x.data.mobile in r.outcome.affected)
  {
    if role != Admin then Step(s, PermissionDenied)
    else
      var selected := Seqs.Filter(s.numbers, Selected(ids));
      var affected := Seqs.Map(selected, NumberMobile);
      assert forall m | m in affected :: exists x | x in s.numbers :: x.id in ids && x.data.mobile == m by {
        forall m | m in affected ensures exists x | x in s.numbers :: x.id in ids && x.data.mobile == m {
          var j :| 0 <= j < |affected| && affected[j] == m;
          assert selected[j] in selected;
          assert Selected(ids)(selected[j]);
        }
      }
      assert forall x | x in selected :: x.data.mobile in affected by {
        forall x | x in selected ensures x.data.mobile in affected {
          var j :| 0 <= j < |selected| && selected[j] == x;
          assert affected[j] == x.data.mobile;
        }
      }
      var idSet := set i | 0 <= i < |ids| :: ids[i];
      assert forall x | x in s.numbers :: x.id in idSet <==> x.id in ids;
      Seqs.WithoutMembers(s.numbers, NumberId, idSet);
      Step(s.(numbers := Seqs.Without(s.numbers, NumberId, idSet)), Applied(affected, 0))
  }

  function Selected(ids: seq<Id>): NumberRecord -> bool {
    (n: NumberRecord) => n.id in ids
  }

  lemma DeletePortOutsKeepsValid(s: State, recs: seq<PortOutRecord>)
    requires Valid(s)
    ensures var t := DeletePortOuts(s, recs).state;
      Valid(t) && multiset(AllMobiles(t)) <= multiset(AllMobiles(s))
  {
    var t := DeletePortOuts(s, recs).state;
    if t != s {
      var ks := Seqs.KeySet(recs, PortOutId);
      assert t == s.(portOuts := Seqs.Without(s.portOuts, PortOutId, ks));
      Seqs.WithoutSubMultiset(s.portOuts, PortOutId, ks, PortOutMobile);
      Seqs.WithoutKeysUnique(s.portOuts, PortOutId, ks);
      Seqs.WithoutMembers(s.portOuts, PortOutId, ks);
      ValidFromFewerMobiles(s, t);
    }
  }

  lemma DeleteDealerPurchasesKeepsValid(s: State, recs: seq<DealerPurchaseRecord>)
    requires Valid(s)
    ensures var t := DeleteDealerPurchases(s, recs).state;
      Valid(t) && multiset(AllMobiles(t)) <= multiset(AllMobiles(s))
  {
    var t := DeleteDealerPurchases(s, recs).state;
    if t != s {
      var ks := Seqs.KeySet(Seqs.Filter(recs, Complete), DealerPurchaseId);
      assert t == s.(dealerPurchases := Seqs.Without(s.dealerPurchases, DealerPurchaseId, ks));
      Seqs.WithoutSubMultiset(s.dealerPurchases, DealerPurchaseId, ks, DealerPurchaseMobile);
      Seqs.WithoutKeysUnique(s.dealerPurchases, DealerPurchaseId, ks);
      Seqs.WithoutMembers(s.dealerPurchases, DealerPurchaseId, ks);
      ValidFromFewerMobiles(s, t);
    }
  }

  lemma DeleteNumbersKeepsValid(s: State, ids: seq<Id>, role: Role)
    requires Valid(s)
    ensures var t := DeleteNumbers(s, ids, role).state;
      Valid(t) && multiset(AllMobiles(t)) <= multiset(AllMobiles(s))
  {
    if role == Admin {
      var idSet := set i | 0 <= i < |ids| :: ids[i];
      var t := s.(numbers := Seqs.Without(s.numbers, NumberId, idSet));
      assert t == DeleteNumbers(s, ids, role).state;
      Seqs.WithoutSubMultiset(s.numbers, NumberId, idSet, NumberMobile);
      Seqs.WithoutKeysUnique(s.numbers, NumberId, idSet);
      Seqs.WithoutMembers(s.numbers, NumberId, idSet);
      ValidFromFewerMobiles(s, t);
    }
  }
}
