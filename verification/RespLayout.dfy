/**
  Where the replies of a printed stream lie, and how many of them a reader of its first bytes can report.
  Only lengths matter here.
 */
module RespLayout {

  /** The length of a printed reply, of its array header, and of what must be seen before it is reported. */
  datatype Extent = Extent(size: nat, header: nat, need: nat)

  ghost predicate Ok(ls: seq<Extent>) {
    forall i :: 0 <= i < |ls| ==> 0 < ls[i].size && ls[i].header <= ls[i].size <= ls[i].need <= ls[i].size + 1
  }

  /** Where reply `m` starts. */
  function Start(ls: seq<Extent>, m: nat): nat
    requires m <= |ls|
  {
    if m == 0 then 0 else Start(ls, m - 1) + ls[m - 1].size
  }

  function Total(ls: seq<Extent>): nat { Start(ls, |ls|) }

  lemma {:induction false} StartMonotone(ls: seq<Extent>, m: nat, n: nat)
    requires m <= n <= |ls| && Ok(ls)
    ensures Start(ls, m) + (n - m) <= Start(ls, n)
    decreases n - m
  {
    if m < n {
      StartMonotone(ls, m, n - 1);
    }
  }

  /** How many of the replies, from `m` on, a reader of the first `k` bytes can report. */
  function Reported(ls: seq<Extent>, m: nat, k: nat): (n: nat)
    requires m <= |ls| && Ok(ls) && Start(ls, m) <= k
    ensures m <= n <= |ls| && Start(ls, n) <= k
    decreases |ls| - m
  {
    if m == |ls| || k < Start(ls, m) + ls[m].need then m else Reported(ls, m + 1, k)
  }

  /** The first `k` bytes hold all that reply `n` needs. */
  predicate Complete(ls: seq<Extent>, n: nat, k: nat) {
    n < |ls| && Start(ls, n) + ls[n].need <= k
  }

  /** These are the replies before the first one that still lacks bytes. */
  lemma {:induction false} ReportedAreComplete(ls: seq<Extent>, m: nat, k: nat)
    requires m <= |ls| && Ok(ls) && Start(ls, m) <= k
    ensures var n := Reported(ls, m, k);
            && (n < |ls| ==> !Complete(ls, n, k))
            && forall j :: m <= j < n ==> Complete(ls, j, k)
    decreases |ls| - m
  {
    if m < |ls| && Start(ls, m) + ls[m].need <= k {
      ReportedAreComplete(ls, m + 1, k);
    }
  }

  /** The first `k` bytes end inside the header of reply `n`. */
  predicate EndsInHeader(ls: seq<Extent>, n: nat, k: nat) {
    n < |ls| && Start(ls, n) < k < Start(ls, n) + ls[n].header
  }

  /** Some array header is cut after `k` bytes. */
  ghost predicate InHeader(ls: seq<Extent>, k: nat) {
    exists n :: 0 <= n < |ls| && EndsInHeader(ls, n, k)
  }

  /** Only the first reply that is not reported can be cut in its header. */
  lemma InHeaderIsNext(ls: seq<Extent>, k: nat)
    requires Ok(ls)
    ensures InHeader(ls, k) <==> EndsInHeader(ls, Reported(ls, 0, k), k)
  {
    var m := Reported(ls, 0, k);
    ReportedAreComplete(ls, 0, k);
    forall n | 0 <= n < |ls| && EndsInHeader(ls, n, k) ensures n == m {
      assert !Complete(ls, n, k);
      if m < n {
        StartMonotone(ls, m + 1, n);
      }
    }
  }

  lemma InnerAreComplete(ls: seq<Extent>)
    requires Ok(ls)
    ensures forall n :: 0 <= n < |ls| - 1 ==> Complete(ls, n, Total(ls))
  {
    forall n | 0 <= n < |ls| - 1 ensures Complete(ls, n, Total(ls)) {
      StartMonotone(ls, n + 1, |ls|);
    }
  }

  /** Nothing is left to wait for at the end, except for a last reply that needs a byte behind it. */
  lemma ReportedAtEnd(ls: seq<Extent>)
    requires Ok(ls)
    ensures !InHeader(ls, Total(ls))
    ensures Reported(ls, 0, Total(ls)) == |ls| <==> (ls == [] || ls[|ls| - 1].need == ls[|ls| - 1].size)
    ensures Reported(ls, 0, Total(ls)) >= |ls| - 1
  {
    var n := Reported(ls, 0, Total(ls));
    InHeaderIsNext(ls, Total(ls));
    ReportedAreComplete(ls, 0, Total(ls));
    InnerAreComplete(ls);
    if ls != [] {
      assert Complete(ls, |ls| - 1, Total(ls)) <==> ls[|ls| - 1].need == ls[|ls| - 1].size;
    }
  }
}
