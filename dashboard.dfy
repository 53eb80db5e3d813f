/**
 What the dashboard derives from the record collection: the three counts shown
 on the stats cards and the two percentage labels under the eligibility chart.
 */
module Dashboard {
  import opened Types

  /** `records.filter(r => r.status === s)`: the records with status `s`, in collection order. */
  function Filter(rs: seq<BeneficiaryRecord>, s: ValidationStatus): (f: seq<BeneficiaryRecord>)
    ensures |f| <= |rs|
    ensures forall r :: r in f ==> r in rs && r.status == s
    ensures forall r :: r in rs && r.status == s ==> r in f
    decreases |rs|
  {
    if rs == [] then []
    else if rs[0].status == s then [rs[0]] + Filter(rs[1..], s)
    else Filter(rs[1..], s)
  }

  /** Filtering a concatenation filters each half. */
  lemma {:induction false} FilterConcat(a: seq<BeneficiaryRecord>, b: seq<BeneficiaryRecord>, s: ValidationStatus)
    ensures Filter(a + b, s) == Filter(a, s) + Filter(b, s)
    decreases |a|
  {
    if a != [] {
      assert (a + b)[0] == a[0] && (a + b)[1..] == a[1..] + b;
      FilterConcat(a[1..], b, s);
    } else {
      assert a + b == b;
    }
  }

  /** Since the status has exactly two values, every record is counted exactly once. */
  lemma {:induction false} PartitionCount(rs: seq<BeneficiaryRecord>)
    ensures |Filter(rs, Eligible)| + |Filter(rs, Ineligible)| == |rs|
    decreases |rs|
  {
    if rs != [] {
      PartitionCount(rs[1..]);
    }
  }

  datatype Stats = Stats(total: nat, eligible: nat, ineligible: nat)

  /**
   The dashboard's stats: the number of records and the number with each status.
   The two status counts add up to the total, so each is at most the total, and
   an empty collection has all three counts zero.
   */
  function ComputeStats(rs: seq<BeneficiaryRecord>): (st: Stats)
    ensures st.total == |rs|
    ensures st.eligible + st.ineligible == st.total
  {
    PartitionCount(rs);
    Stats(|rs|, |Filter(rs, Eligible)|, |Filter(rs, Ineligible)|)
  }

  /**
   Saving a record (which puts it in front of the collection) raises the total and
   the count of the record's own status by one and leaves the other count alone.
   */
  lemma PrependStats(r: BeneficiaryRecord, rs: seq<BeneficiaryRecord>)
    ensures var before, after := ComputeStats(rs), ComputeStats([r] + rs);
      && after.total == before.total + 1
      && after.eligible == before.eligible + (if r.status == Eligible then 1 else 0)
      && after.ineligible == before.ineligible + (if r.status == Ineligible then 1 else 0)
  {
    assert ([r] + rs)[0] == r && ([r] + rs)[1..] == rs;
  }

  /** Counts over a concatenation add up, field by field. */
  lemma StatsOfConcat(a: seq<BeneficiaryRecord>, b: seq<BeneficiaryRecord>)
    ensures var x, y, z := ComputeStats(a), ComputeStats(b), ComputeStats(a + b);
      z == Stats(x.total + y.total, x.eligible + y.eligible, x.ineligible + y.ineligible)
  {
    FilterConcat(a, b, Eligible);
    FilterConcat(a, b, Ineligible);
  }

  lemma MulMonotone(c: int, a: int, b: int)
    requires c >= 0 && a <= b
    ensures c * a <= c * b
  {
  }

  lemma CancelLe(t: int, a: int, b: int)
    requires t > 0 && t * a <= t * b
    ensures a <= b
  {
    if a > b { MulMonotone(t, b + 1, a); }
  }

  lemma CancelLt(t: int, a: int, b: int)
    requires t > 0 && t * a < t * b
    ensures a < b
  {
    if a >= b { MulMonotone(t, b, a); }
  }

  /**
   A percentage label: 0 when there are no records, otherwise `count/total*100`
   rounded to the nearest integer with halves rounded up (`Math.round`), computed
   on integers. The result `p` is the integer with `p - 1/2 <= 100*count/total < p + 1/2`.
   */
  function Percentage(count: nat, total: nat): (p: nat)
    ensures total == 0 ==> p == 0
    ensures total > 0 ==> 2 * total * p <= 200 * count + total < 2 * total * (p + 1)
  {
    if total == 0 then 0
    else
      var d, n := 2 * total, 200 * count + total;
      var q := n / d;
      assert d * q <= n < d * q + d;
      assert 2 * total * (q + 1) == d * q + d;
      q
  }

  /** The rounded label is the only integer within one half of the exact percentage. */
  lemma PercentageUnique(count: nat, total: nat, p: int)
    requires total > 0
    requires 2 * total * p <= 200 * count + total < 2 * total * (p + 1)
    ensures p == Percentage(count, total)
  {
    var q := Percentage(count, total);
    var d := 2 * total;
    assert d * p <= 200 * count + total < d * (p + 1);
    assert d * q <= 200 * count + total < d * (q + 1);
    CancelLt(d, p, q + 1);
    CancelLt(d, q, p + 1);
  }

  /** A count that does not exceed the total gives a label between 0 and 100. */
  lemma PercentageAtMostHundred(count: nat, total: nat)
    requires count <= total
    ensures 0 <= Percentage(count, total) <= 100
  {
    if total > 0 {
      var p := Percentage(count, total);
      var d := 2 * total;
      MulMonotone(200, count, total);
      assert d * p < d * 101;
      CancelLt(d, p, 101);
    }
  }

  /** Both chart labels lie in [0, 100] for every collection. */
  lemma LabelsInRange(rs: seq<BeneficiaryRecord>)
    ensures var st := ComputeStats(rs);
      && 0 <= Percentage(st.eligible, st.total) <= 100
      && 0 <= Percentage(st.ineligible, st.total) <= 100
  {
    var st := ComputeStats(rs);
    PercentageAtMostHundred(st.eligible, st.total);
    PercentageAtMostHundred(st.ineligible, st.total);
  }

  /**
   With at least one record, the Eligible and Ineligible labels add up to 100, or
   to 101 when both exact percentages end in one half and are both rounded up.
   */
  lemma LabelsSum(e: nat, i: nat)
    requires e + i > 0
    ensures var t := e + i; Percentage(e, t) + Percentage(i, t) in {100, 101}
  {
    var t := e + i;
    var p1, p2 := Percentage(e, t), Percentage(i, t);
    var d := 2 * t;
    assert d * (p1 + p2) <= d * 101;
    assert d * 100 < d * (p1 + p2 + 1);
    CancelLe(d, p1 + p2, 101);
    CancelLt(d, 100, p1 + p2 + 1);
  }

  /** The two labels can add up to 101: one record of eight gives 13% and 88%. */
  lemma LabelsCanSumTo101()
    ensures Percentage(1, 8) + Percentage(7, 8) == 101
  {
    PercentageUnique(1, 8, 13);
    PercentageUnique(7, 8, 88);
  }
}
