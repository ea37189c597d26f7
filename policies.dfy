/**
 * The profile records of the adaptivity policies (libstm/policies/
 * policies.hpp): dynprof_t, the averaging of a batch of profiles, and the
 * estimate of non-transactional time per transaction.
 */
module Policies {
  import opened Unsigned
  import opened Arith

  /**
   * The counted fields of a dynprof_t (the padding word is not modelled).
   * The five call counters are C `int`s, the two times uint64_t.
   */
  datatype Profile = Profile(
    readRo: int, readRwNonraw: int, readRwRaw: int,
    writeNonwaw: int, writeWaw: int,
    txnTime: nat, timecounter: nat)

  const ZeroProfile: Profile := Profile(0, 0, 0, 0, 0, 0, 0)

  /** C's `/` on int: the quotient truncated toward zero. */
  function TruncDiv(a: int, n: int): (r: int)
    requires n > 0
    ensures a >= 0 ==> r == a / n
    ensures a < 0 ==> r == -((-a) / n) && r <= 0
  {
    if a >= 0 then a / n else -((-a) / n)
  }

  /** The five call counters of a profile. */
  datatype Counter = ReadRo | ReadRwNonraw | ReadRwRaw | WriteNonwaw | WriteWaw

  function Count(p: Profile, c: Counter): int
  {
    match c
    case ReadRo => p.readRo
    case ReadRwNonraw => p.readRwNonraw
    case ReadRwRaw => p.readRwRaw
    case WriteNonwaw => p.writeNonwaw
    case WriteWaw => p.writeWaw
  }

  /** The sum of one counter over a run of profiles. */
  function SumOf(ps: seq<Profile>, c: Counter): (r: int)
  {
    if |ps| == 0 then 0 else SumOf(ps[..|ps| - 1], c) + Count(ps[|ps| - 1], c)
  }

  /** `a + b` on a uint64_t. */
  function Add64(a: nat, b: nat): (r: nat)
    ensures r < U64
    ensures a + b < U64 ==> r == a + b
  {
    (a + b) % U64
  }

  /** The sum of txn_time over a run of profiles, in a uint64_t that wraps. */
  function SumTime(ps: seq<Profile>): (r: nat)
    ensures r < U64
  {
    if |ps| == 0 then 0 else Add64(SumTime(ps[..|ps| - 1]), ps[|ps| - 1].txnTime)
  }

  /**
   * The profile doavg computes: each counted field is the integer mean
   * over the profiles; timecounter is cleared and not averaged.
   */
  function Average(ps: seq<Profile>): (r: Profile)
    requires |ps| > 0
    ensures r.timecounter == 0 && r.txnTime < U64
  {
    Profile(
      TruncDiv(SumOf(ps, ReadRo), |ps|),
      TruncDiv(SumOf(ps, ReadRwNonraw), |ps|),
      TruncDiv(SumOf(ps, ReadRwRaw), |ps|),
      TruncDiv(SumOf(ps, WriteNonwaw), |ps|),
      TruncDiv(SumOf(ps, WriteWaw), |ps|),
      SumTime(ps) / |ps|,
      0)
  }

  lemma {:induction false} SumOfCopies(ps: seq<Profile>, c: Counter, p: Profile)
    requires forall i :: 0 <= i < |ps| ==> ps[i] == p
    ensures SumOf(ps, c) == |ps| * Count(p, c)
  {
    if |ps| > 0 {
      SumOfCopies(ps[..|ps| - 1], c, p);
    }
  }

  lemma {:induction false} SumTimeCopies(ps: seq<Profile>, p: Profile)
    requires forall i :: 0 <= i < |ps| ==> ps[i] == p
    ensures SumTime(ps) == (|ps| * p.txnTime) % U64
  {
    if |ps| > 0 {
      var m, t := |ps| - 1, p.txnTime;
      SumTimeCopies(ps[..m], p);
      var prior := SumTime(ps[..m]);
      assert SumTime(ps) == Add64(prior, t);
      ModAddLeft(m * t, t, U64);
      MulSucc(m, t);
    }
  }

  lemma MeanOfCopies(k: int, n: nat)
    requires n > 0
    ensures TruncDiv(n * k, n) == k
  {
    if k >= 0 {
      DivOfMultiple(n, k);
    } else {
      assert -(n * k) == n * (-k);
      DivOfMultiple(n, -k);
    }
  }

  /**
   * The average of identical profiles is that profile, with timecounter
   * cleared, as long as the uint64_t sum of their txn_time does not wrap;
   * when it wraps, txn_time is the wrapped sum divided by the count.
   */
  lemma AverageOfCopies(ps: seq<Profile>, p: Profile)
    requires |ps| > 0
    requires forall i :: 0 <= i < |ps| ==> ps[i] == p
    ensures Average(ps) == p.(timecounter := 0, txnTime := (|ps| * p.txnTime) % U64 / |ps|)
    ensures |ps| * p.txnTime < U64 ==> Average(ps) == p.(timecounter := 0)
  {
    var n := |ps|;
    SumOfCopies(ps, ReadRo, p);
    SumOfCopies(ps, ReadRwNonraw, p);
    SumOfCopies(ps, ReadRwRaw, p);
    SumOfCopies(ps, WriteNonwaw, p);
    SumOfCopies(ps, WriteWaw, p);
    SumTimeCopies(ps, p);
    MeanOfCopies(p.readRo, n);
    MeanOfCopies(p.readRwNonraw, n);
    MeanOfCopies(p.readRwRaw, n);
    MeanOfCopies(p.writeNonwaw, n);
    MeanOfCopies(p.writeWaw, n);
    if n * p.txnTime < U64 {
      DivModUnique(n * p.txnTime, U64, 0, n * p.txnTime);
      DivOfMultiple(n, p.txnTime);
    }
  }

  /** dynprof_t */
  class DynProf {
    var readRo: int
    var readRwNonraw: int
    var readRwRaw: int
    var writeNonwaw: int
    var writeWaw: int
    var txnTime: nat
    var timecounter: nat

    function View(): (r: Profile)
      reads this
      ensures r.readRo == readRo && r.txnTime == txnTime && r.timecounter == timecounter
    {
      Profile(readRo, readRwNonraw, readRwRaw, writeNonwaw, writeWaw, txnTime, timecounter)
    }

    constructor()
      ensures View() == ZeroProfile
    {
      readRo, readRwNonraw, readRwRaw := 0, 0, 0;
      writeNonwaw, writeWaw := 0, 0;
      txnTime, timecounter := 0, 0;
    }

    /** clear: every counter and both times become zero. */
    method Clear()
      modifies this
      ensures View() == ZeroProfile
    {
      readRo, readRwNonraw, readRwRaw := 0, 0, 0;
      writeNonwaw, writeWaw := 0, 0;
      txnTime, timecounter := 0, 0;
    }

    /**
     * operator=: copy the five counters and txn_time from `profile`;
     * timecounter keeps its value.  Copying a profile onto itself changes
     * nothing.
     */
    method CopyFrom(profile: DynProf)
      modifies this
      ensures View() == old(profile.View()).(timecounter := old(timecounter))
    {
      if this != profile {
        readRo := profile.readRo;
        readRwNonraw := profile.readRwNonraw;
        readRwRaw := profile.readRwRaw;
        writeNonwaw := profile.writeNonwaw;
        writeWaw := profile.writeWaw;
        txnTime := profile.txnTime;
      }
    }

    /**
     * Add one profile's counted fields into this one (the body of doavg's
     * loop); txn_time is a uint64_t and wraps.
     */
    method Accumulate(p: Profile)
      modifies this
      ensures View() == Profile(
        old(readRo) + p.readRo, old(readRwNonraw) + p.readRwNonraw, old(readRwRaw) + p.readRwRaw,
        old(writeNonwaw) + p.writeNonwaw, old(writeWaw) + p.writeWaw,
        Add64(old(txnTime), p.txnTime), old(timecounter))
    {
      readRo := readRo + p.readRo;
      readRwNonraw := readRwNonraw + p.readRwNonraw;
      readRwRaw := readRwRaw + p.readRwRaw;
      writeNonwaw := writeNonwaw + p.writeNonwaw;
      writeWaw := writeWaw + p.writeWaw;
      txnTime := Add64(txnTime, p.txnTime);
    }
  }

  /** The profile whose fields are the running sums over `ps`. */
  function Sums(ps: seq<Profile>): (r: Profile)
    ensures r.timecounter == 0
  {
    Profile(SumOf(ps, ReadRo), SumOf(ps, ReadRwNonraw), SumOf(ps, ReadRwRaw),
            SumOf(ps, WriteNonwaw), SumOf(ps, WriteWaw), SumTime(ps), 0)
  }

  /**
   * doavg: `dest` becomes the average of the first `num` profiles of
   * `list`.  The profiles are read only.
   */
  method DoAvg(dest: DynProf, list: array<Profile>, num: nat)
    requires 0 < num <= list.Length
    modifies dest
    ensures dest.View() == Average(list[..num])
  {
    dest.Clear();
    for i := 0 to num
      invariant dest.View() == Sums(list[..i])
    {
      assert list[..i + 1][..i] == list[..i];
      dest.Accumulate(list[i]);
    }
    assert list[..num] == list[..num];
    dest.readRo := TruncDiv(dest.readRo, num);
    dest.readRwNonraw := TruncDiv(dest.readRwNonraw, num);
    dest.readRwRaw := TruncDiv(dest.readRwRaw, num);
    dest.writeNonwaw := TruncDiv(dest.writeNonwaw, num);
    dest.writeWaw := TruncDiv(dest.writeWaw, num);
    dest.txnTime := dest.txnTime / num;
  }

  /** What get_nontxtime reads from each thread descriptor. */
  datatype ThreadTimes = ThreadTimes(totalNontxnTime: nat, numCommits: nat, numRo: nat)

  predicate WellSized(ts: seq<ThreadTimes>)
  {
    forall i :: 0 <= i < |ts| ==> ts[i].totalNontxnTime < U64 && ts[i].numCommits < U32 && ts[i].numRo < U32
  }

  /** The non-transactional time of all threads, summed in a uint64_t. */
  function NontxnTotal(ts: seq<ThreadTimes>): (r: nat)
    ensures r < U64
  {
    if |ts| == 0 then 0 else (NontxnTotal(ts[..|ts| - 1]) + ts[|ts| - 1].totalNontxnTime) % U64
  }

  /** One plus every commit of every thread, summed in a uint32_t. */
  function CommitTotal(ts: seq<ThreadTimes>): (r: nat)
    ensures r < U32
  {
    if |ts| == 0 then 1
    else ((CommitTotal(ts[..|ts| - 1]) + ts[|ts| - 1].numCommits) % U32 + ts[|ts| - 1].numRo) % U32
  }

  /** The total number of commits, without wrap-around. */
  function Commits(ts: seq<ThreadTimes>): (r: nat)
  {
    if |ts| == 0 then 0 else Commits(ts[..|ts| - 1]) + ts[|ts| - 1].numCommits + ts[|ts| - 1].numRo
  }

  /** Without wrap-around the uint32_t total is one more than the commits. */
  lemma {:induction false} CommitTotalExact(ts: seq<ThreadTimes>)
    requires 1 + Commits(ts) < U32
    ensures CommitTotal(ts) == 1 + Commits(ts)
  {
    if |ts| > 0 {
      var init, last := ts[..|ts| - 1], ts[|ts| - 1];
      CommitTotalExact(init);
      assert CommitTotal(init) + last.numCommits + last.numRo < U32;
    }
  }

  /** The commit count get_nontxtime divides by: a total that wrapped to zero counts as one. */
  function Divisor(ts: seq<ThreadTimes>): (r: nat)
    ensures 1 <= r < U32
    ensures 1 + Commits(ts) < U32 ==> r == 1 + Commits(ts)
  {
    assert 1 + Commits(ts) < U32 ==> CommitTotal(ts) == 1 + Commits(ts) by {
      if 1 + Commits(ts) < U32 {
        CommitTotalExact(ts);
      }
    }
    if CommitTotal(ts) == 0 then 1 else CommitTotal(ts)
  }

  /**
   * The quotient of the uint64_t total by the divisor is below 2^64 - 1
   * unless the total is 2^64 - 1 and the divisor one.
   */
  lemma QuotientBelowTop(x: nat, d: nat)
    requires x < U64 && 1 <= d
    ensures x / d <= x
    ensures x / d == U64 - 1 <==> x == U64 - 1 && d == 1
  {
    DivAtMost(x, d);
    if d >= 2 {
      MulMonotone(2, d, U64 - 1);
      DivBelow(x, d, U64 - 1);
    }
  }

  /**
   * The value get_nontxtime computes as written: `1 + (nontxn_time /
   * commits)` in unsigned long long, which wraps to zero exactly when the
   * total is 2^64 - 1 and the divisor is one.
   */
  function NontxTimeAsWritten(ts: seq<ThreadTimes>): (r: nat)
    ensures r < U64
    ensures r == 0 <==> NontxnTotal(ts) == U64 - 1 && Divisor(ts) == 1
    ensures r != 0 ==> r == 1 + NontxnTotal(ts) / Divisor(ts)
  {
    var x := NontxnTotal(ts);
    var d := Divisor(ts);
    QuotientBelowTop(x, d);
    // 1 + x / d is at most 2^64, so its remainder modulo 2^64 is this
    if 1 + x / d == U64 then 0 else 1 + x / d
  }

  /** One thread whose non-transactional time fills a uint64_t and that never committed. */
  lemma NontxTimeAsWrittenCanBeZero()
    ensures WellSized([ThreadTimes(U64 - 1, 0, 0)])
    ensures NontxTimeAsWritten([ThreadTimes(U64 - 1, 0, 0)]) == 0
  {
    var ts := [ThreadTimes(U64 - 1, 0, 0)];
    assert ts[..0] == [];
    assert NontxnTotal(ts) == U64 - 1;
    assert CommitTotal(ts) == 1;
  }

  /**
   * The estimate get_nontxtime is meant to return: one plus the
   * non-transactional time per commit, held at 2^64 - 1 where the sum
   * would not fit.  It is never zero, so callers may divide by it, and
   * never more than one plus the total time.
   */
  function NontxTime(ts: seq<ThreadTimes>): (r: nat)
    ensures 1 <= r < U64
    ensures r <= 1 + NontxnTotal(ts)
    ensures 1 + NontxnTotal(ts) / Divisor(ts) < U64 ==> r == 1 + NontxnTotal(ts) / Divisor(ts)
    ensures r == NontxTimeAsWritten(ts) || NontxTimeAsWritten(ts) == 0
  {
    var x := NontxnTotal(ts);
    var d := Divisor(ts);
    QuotientBelowTop(x, d);
    if x / d == U64 - 1 then x / d else 1 + x / d
  }

  /**
   * get_nontxtime, over the thread descriptors' counters: the loop sums
   * in the widths of the source, then the division, whose result is held
   * at 2^64 - 1 instead of wrapping to zero.
   */
  method GetNontxTime(threads: seq<ThreadTimes>) returns (ans: nat)
    requires WellSized(threads)
    ensures ans == NontxTime(threads)
  {
    var commits, nontxnTime := SumThreads(threads);
    if commits == 0 {
      commits := 1;
    }
    assert commits == Divisor(threads) && nontxnTime == NontxnTotal(threads);
    DivAtMost(nontxnTime, commits);
    var q := nontxnTime / commits;
    ans := if q == U64 - 1 then q else 1 + q;
  }

  /** The accumulation loop of get_nontxtime. */
  method SumThreads(threads: seq<ThreadTimes>) returns (commits: nat, nontxnTime: nat)
    requires WellSized(threads)
    ensures commits == CommitTotal(threads) && nontxnTime == NontxnTotal(threads)
  {
    commits := 1;
    nontxnTime := 0;
    for z := 0 to |threads|
      invariant commits == CommitTotal(threads[..z]) && nontxnTime == NontxnTotal(threads[..z])
    {
      assert threads[..z + 1][..z] == threads[..z];
      nontxnTime := (nontxnTime + threads[z].totalNontxnTime) % U64;
      commits := (commits + threads[z].numCommits) % U32;
      commits := (commits + threads[z].numRo) % U32;
    }
    assert threads[..|threads|] == threads;
  }
}
