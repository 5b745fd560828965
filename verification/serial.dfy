/** `getNextSrNo`: the display serial number a new record of a collection
    receives.  A record without a serial number counts as 0. */
module Serial {
  import opened Wrappers
  import Seqs

  function OrZero(x: Option<int>): int { x.GetOr(0) }

  /** The largest entry of a non-empty sequence. */
  function Max(xs: seq<int>): (m: int)
    requires |xs| > 0
    ensures forall i | 0 <= i < |xs| :: xs[i] <= m
    ensures exists i | 0 <= i < |xs| :: xs[i] == m
  {
    if |xs| == 1 then
      assert xs[0] == xs[0];
      xs[0]
    else
      var m := Max(xs[1..]);
      if xs[0] >= m then
        xs[0]
      else
        assert forall i | 1 <= i < |xs| :: xs[i] == xs[1..][i - 1];
        var j :| 0 <= j < |xs[1..]| && xs[1..][j] == m;
        assert xs[j + 1] == m;
        m
  }

  function NextSrNo(srNos: seq<Option<int>>): (r: int)
    ensures |srNos| == 0 ==> r == 1
    ensures forall i | 0 <= i < |srNos| :: OrZero(srNos[i]) < r
    ensures |srNos| > 0 ==> exists i | 0 <= i < |srNos| :: OrZero(srNos[i]) == r - 1
  {
    if |srNos| == 0 then 1
    else
      var vals := Seqs.Map(srNos, OrZero);
      var m := Max(vals);
      var j :| 0 <= j < |vals| && vals[j] == m;
      assert OrZero(srNos[j]) == m;
      m + 1
  }

  /** Appending a record numbered by `NextSrNo` makes the next one larger
      still: consecutive allocations never repeat. */
  lemma NextSrNoGrows(srNos: seq<Option<int>>)
    ensures NextSrNo(srNos + [Some(NextSrNo(srNos))]) == NextSrNo(srNos) + 1
  {
    var n := NextSrNo(srNos);
    var xs := srNos + [Some(n)];
    assert forall i | 0 <= i < |xs| :: OrZero(xs[i]) <= n by {
      forall i | 0 <= i < |xs|
        ensures OrZero(xs[i]) <= n
      {
        if i < |srNos| {
          assert xs[i] == srNos[i];
        }
      }
    }
    assert OrZero(xs[|srNos|]) == n;
  }
}
