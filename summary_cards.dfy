/**
 * The summary cards (src/components/dashboard/SummaryCards.tsx): one pass over the
 * transactions that adds credits and debits and records the running net after each
 * transaction. `Credits`, `Debits` and `Series` state what the pass computes; `Summarize`
 * is the loop itself.
 */
module SummaryCards {
  import opened OFXParser

  /** What the cards show: the two totals, their difference and the running net. */
  datatype Summary = Summary(credits: real, debits: real, net: real, series: seq<Point>)

  /** One entry of the running series: `{ i, value }`. */
  datatype Point = Point(i: nat, value: real)

  /** The sum of the amounts of the credit transactions. */
  function Credits(ts: seq<Transaction>): real
  {
    if ts == [] then 0.0
    else Credits(ts[..|ts| - 1]) + (if IsCredit(ts[|ts| - 1].trnType) then ts[|ts| - 1].amount else 0.0)
  }

  /** The sum of the magnitudes of the amounts of all other transactions. */
  function Debits(ts: seq<Transaction>): (d: real)
    ensures d >= 0.0
  {
    if ts == [] then 0.0
    else Debits(ts[..|ts| - 1]) + (if IsCredit(ts[|ts| - 1].trnType) then 0.0 else Abs(ts[|ts| - 1].amount))
  }

  /** The running series: entry `i` is the net of the first `i + 1` transactions. */
  function Series(ts: seq<Transaction>): (r: seq<Point>)
    ensures |r| == |ts|
    ensures forall i :: 0 <= i < |r| ==> r[i].i == i
  {
    seq(|ts|, i requires 0 <= i < |ts| => Point(i, Credits(ts[..i + 1]) - Debits(ts[..i + 1])))
  }

  /** The `forEach` loop of the `useMemo`, and the record it returns. */
  method Summarize(ts: seq<Transaction>) returns (s: Summary)
    ensures s.credits == Credits(ts) && s.debits == Debits(ts)
    ensures s.net == s.credits - s.debits
    ensures s.series == Series(ts)
  {
    var credits, debits := 0.0, 0.0;
    var series: seq<Point> := [];
    var i := 0;
    while i < |ts|
      invariant 0 <= i <= |ts|
      invariant credits == Credits(ts[..i]) && debits == Debits(ts[..i])
      invariant |series| == i
      invariant forall k :: 0 <= k < i ==> series[k] == Point(k, Credits(ts[..k + 1]) - Debits(ts[..k + 1]))
    {
      var tr := ts[i];
      assert ts[..i + 1][..i] == ts[..i];
      if IsCredit(tr.trnType) {
        credits := credits + tr.amount;
      } else {
        debits := debits + Abs(tr.amount);
      }
      series := series + [Point(i, credits - debits)];
      i := i + 1;
    }
    assert ts[..i] == ts;
    s := Summary(credits, debits, credits - debits, series);
  }

  /** The totals of a concatenation are the sums of the totals of its parts. */
  lemma {:induction false} TotalsAppend(a: seq<Transaction>, b: seq<Transaction>)
    decreases |b|
    ensures Credits(a + b) == Credits(a) + Credits(b)
    ensures Debits(a + b) == Debits(a) + Debits(b)
  {
    if b == [] {
      assert a + b == a;
    } else {
      var b' := b[..|b| - 1];
      assert (a + b)[..|a + b| - 1] == a + b';
      TotalsAppend(a, b');
    }
  }

  /** The credits are the sum over the credit transactions, counted one by one from the front. */
  lemma TotalsCons(t: Transaction, ts: seq<Transaction>)
    ensures Credits([t] + ts) == (if IsCredit(t.trnType) then t.amount else 0.0) + Credits(ts)
    ensures Debits([t] + ts) == (if IsCredit(t.trnType) then 0.0 else Abs(t.amount)) + Debits(ts)
  {
    TotalsAppend([t], ts);
    assert [t][..0] == [];
  }

  /** Each entry of the series adds the contribution of its own transaction to the previous one. */
  lemma SeriesStep(ts: seq<Transaction>, i: nat)
    requires 0 < i < |ts|
    ensures Series(ts)[i].value - Series(ts)[i - 1].value
              == (if IsCredit(ts[i].trnType) then ts[i].amount else -Abs(ts[i].amount))
  {
    assert ts[..i + 1][..i] == ts[..i];
  }

  /** The last entry of the series is the net. */
  lemma SeriesEndsAtNet(ts: seq<Transaction>)
    requires |ts| > 0
    ensures Series(ts)[|ts| - 1].value == Credits(ts) - Debits(ts)
  {
    assert ts[..|ts|] == ts;
  }

  /** An empty list gives zero totals and an empty series. */
  lemma EmptySummary()
    ensures Credits([]) == 0.0 && Debits([]) == 0.0 && Series([]) == []
  {
  }
}
