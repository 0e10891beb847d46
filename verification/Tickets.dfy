/**
 * How often a backend is picked over a window of consecutive tickets: the counting behind round-robin fairness
 * and weighted proportionality.
 */
module Tickets {
  import opened Types
  import opened Pool

  // Counting residues

  /** How many of the numbers below `n` have a residue modulo `w` in `[lo, hi)`. */
  function Hits(n: nat, w: nat, lo: nat, hi: nat): nat
    requires w > 0
  {
    if n == 0 then 0 else Hits(n - 1, w, lo, hi) + if lo <= (n - 1) % w < hi then 1 else 0
  }

  function Clamp(x: int, top: nat): nat {
    if x <= 0 then 0 else if x >= top then top else x
  }

  function Min(a: nat, b: nat): nat {
    if a <= b then a else b
  }

  // Quotients and remainders, kept apart from the counting so that each step is linear

  lemma SumTimes(a: int, b: int, w: int)
    ensures (a + b) * w == a * w + b * w
  {
  }

  lemma AtLeastOnce(a: int, w: int)
    requires a >= 1 && w >= 0
    ensures a * w >= w
  {
    SumTimes(a - 1, 1, w);
  }

  lemma UniqueSplit(w: nat, q1: int, r1: int, q2: int, r2: int)
    requires w > 0 && 0 <= r1 < w && 0 <= r2 < w
    requires q1 * w + r1 == q2 * w + r2
    ensures q1 == q2 && r1 == r2
  {
    SumTimes(q1, -q2, w);
    if q1 > q2 {
      AtLeastOnce(q1 - q2, w);
    } else if q2 > q1 {
      AtLeastOnce(q2 - q1, w);
    }
  }

  lemma QuotientIsUnique(n: nat, w: nat, q: int, r: int)
    requires w > 0 && n == q * w + r && 0 <= r < w
    ensures n / w == q && n % w == r
  {
    UniqueSplit(w, n / w, n % w, q, r);
  }

  lemma SplitOf(n: nat, w: nat) returns (q: nat, r: nat)
    requires w > 0
    ensures n == q * w + r && r < w
    ensures q == n / w && r == n % w
  {
    q, r := n / w, n % w;
  }

  lemma {:induction false} HitsClosedForm(n: nat, w: nat, lo: nat, hi: nat, q: nat, r: nat)
    requires lo <= hi <= w
    requires n == q * w + r && r < w
    ensures Hits(n, w, lo, hi) == q * (hi - lo) + Clamp(r - lo, hi - lo)
    decreases n
  {
    if r > 0 {
      HitsClosedForm(n - 1, w, lo, hi, q, r - 1);
      QuotientIsUnique(n - 1, w, q, r - 1);
    } else if q > 0 {
      SumTimes(q - 1, 1, w);
      SumTimes(q - 1, 1, hi - lo);
      AtLeastOnce(q, w);
      HitsClosedForm(n - 1, w, lo, hi, q - 1, w - 1);
      QuotientIsUnique(n - 1, w, q - 1, w - 1);
    }
  }

  lemma WindowHitsSplit(from: nat, n: nat, w: nat, lo: nat, hi: nat, q1: nat, r1: nat, q: nat, r: nat)
    requires lo <= hi <= w
    requires from == q1 * w + r1 && r1 < w
    requires n == q * w + r && r < w
    ensures var hits := Hits(from + n, w, lo, hi) - Hits(from, w, lo, hi);
      q * (hi - lo) <= hits <= q * (hi - lo) + Min(hi - lo, r)
  {
    HitsClosedForm(from, w, lo, hi, q1, r1);
    SumTimes(q1, q, w);
    SumTimes(q1, q, hi - lo);
    if r1 + r < w {
      HitsClosedForm(from + n, w, lo, hi, q1 + q, r1 + r);
    } else {
      SumTimes(q1 + q, 1, w);
      SumTimes(q1 + q, 1, hi - lo);
      HitsClosedForm(from + n, w, lo, hi, q1 + q + 1, r1 + r - w);
    }
  }

  /**
   * In any `n` consecutive tickets, `hi - lo` of every `w` slots are hit once per full cycle, and the remaining
   * `n % w` tickets hit each of them at most once more.
   */
  lemma WindowHits(from: nat, n: nat, w: nat, lo: nat, hi: nat)
    requires lo <= hi <= w && w > 0
    ensures var hits := Hits(from + n, w, lo, hi) - Hits(from, w, lo, hi);
      (n / w) * (hi - lo) <= hits <= (n / w) * (hi - lo) + Min(hi - lo, n % w)
  {
    var q1, r1 := SplitOf(from, w);
    var q, r := SplitOf(n, w);
    WindowHitsSplit(from, n, w, lo, hi, q1, r1, q, r);
  }

  // Round robin

  /** How often round robin picks `addr` with the `n` tickets that follow `from`, the counter wrapping at its width. */
  function TimesRoundRobin(addrs: seq<SocketAddr>, from: nat, n: nat, addr: SocketAddr): nat {
    if n == 0 then 0 else
    TimesRoundRobin(addrs, from, n - 1, addr)
    + if SelectRoundRobin(addrs, Shown(from + n - 1)).choice == Some(addr) then 1 else 0
  }

  /** How often the counter wraps between the first and the last of `n` tickets. */
  function Wraps(from: nat, n: nat): nat {
    if n == 0 then 0 else (from + n - 1) / USIZE_MODULUS
  }

  /** The value the counter shows for the ticket drawn after `t` others. */
  function Shown(t: nat): (ticket: nat)
    ensures ticket < USIZE_MODULUS
    ensures t < USIZE_MODULUS ==> ticket == t
  {
    t % USIZE_MODULUS
  }

  lemma ShownAfterWrap(t: nat)
    ensures Shown(USIZE_MODULUS + t) == Shown(t)
  {
  }

  lemma ShownAdvances(t: nat)
    ensures Shown(t + 1) == (Shown(t) + 1) % USIZE_MODULUS
  {
  }

  lemma OnePick(addrs: seq<SocketAddr>, t: nat, i: nat)
    requires i < |addrs| && Distinct(addrs)
    requires t < USIZE_MODULUS || USIZE_MODULUS % |addrs| == 0
    ensures SelectRoundRobin(addrs, Shown(t)).choice == Some(addrs[i]) <==> t % |addrs| == i
  {
    if t >= USIZE_MODULUS {
      ResidueThroughMultiple(t, USIZE_MODULUS, |addrs|);
    }
    var k := t % |addrs|;
    assert Shown(t) % |addrs| == k;
  }

  /** Whenever residues modulo the counter's width agree with plain residues, picks are residue hits. */
  lemma {:induction false} PicksAreHits(addrs: seq<SocketAddr>, from: nat, n: nat, i: nat)
    requires i < |addrs| && Distinct(addrs)
    requires from + n <= USIZE_MODULUS || USIZE_MODULUS % |addrs| == 0
    ensures TimesRoundRobin(addrs, from, n, addrs[i])
         == Hits(from + n, |addrs|, i, i + 1) - Hits(from, |addrs|, i, i + 1)
  {
    if n > 0 {
      PicksAreHits(addrs, from, n - 1, i);
      OnePick(addrs, from + n - 1, i);
    }
  }

  lemma TimesAssociate(a: int, b: int, c: int)
    ensures a * (b * c) == (a * b) * c
  {
  }

  lemma ResidueThroughMultiple(t: nat, big: nat, m: nat)
    requires m > 0 && big > 0 && big % m == 0
    ensures t % big % m == t % m
  {
    var q, r := SplitOf(t, big);
    var c, _ := SplitOf(big, m);
    var k, s := SplitOf(r, m);
    TimesAssociate(q, c, m);
    SumTimes(q * c, k, m);
    QuotientIsUnique(t, m, q * c + k, s);
  }

  lemma {:induction false} WindowSplits(addrs: seq<SocketAddr>, from: nat, n1: nat, n2: nat, addr: SocketAddr)
    requires from + n1 == USIZE_MODULUS
    ensures TimesRoundRobin(addrs, from, n1 + n2, addr)
         == TimesRoundRobin(addrs, from, n1, addr) + TimesRoundRobin(addrs, 0, n2, addr)
  {
    if n2 > 0 {
      WindowSplits(addrs, from, n1, n2 - 1, addr);
      ShownAfterWrap(n2 - 1);
      assert from + (n1 + n2) - 1 == USIZE_MODULUS + (n2 - 1);
    }
  }

  /**
   * Fairness with wrap-around: over any window of tickets two backends' picks differ by at most one, plus one for
   * each wrap of the counter inside the window. It does not matter which tasks draw the tickets or in what order they
   * go on: a pick depends on its ticket alone, and no ticket is drawn twice.
   */
  lemma {:induction false} RoundRobinFair(addrs: seq<SocketAddr>, from: nat, n: nat, i: nat, j: nat)
    requires i < |addrs| && j < |addrs| && Distinct(addrs) && from < USIZE_MODULUS
    ensures TimesRoundRobin(addrs, from, n, addrs[i])
         <= TimesRoundRobin(addrs, from, n, addrs[j]) + 1 + Wraps(from, n)
    decreases n
  {
    hide TimesRoundRobin;
    if from + n <= USIZE_MODULUS {
      FairWithinCycle(addrs, from, n, i, j);
    } else {
      var n1 := USIZE_MODULUS - from;
      FairWithinCycle(addrs, from, n1, i, j);
      WindowSplits(addrs, from, n1, n - n1, addrs[i]);
      WindowSplits(addrs, from, n1, n - n1, addrs[j]);
      RoundRobinFair(addrs, 0, n - n1, i, j);
    }
  }

  /** When the pool size divides the counter's width, wrapping costs nothing. */
  lemma FairWithinCycle(addrs: seq<SocketAddr>, from: nat, n: nat, i: nat, j: nat)
    requires i < |addrs| && j < |addrs| && Distinct(addrs)
    requires from + n <= USIZE_MODULUS || USIZE_MODULUS % |addrs| == 0
    ensures TimesRoundRobin(addrs, from, n, addrs[i])
         <= TimesRoundRobin(addrs, from, n, addrs[j]) + 1
  {
    var m := |addrs|;
    PicksAreHits(addrs, from, n, i);
    PicksAreHits(addrs, from, n, j);
    WindowHits(from, n, m, i, i + 1);
    WindowHits(from, n, m, j, j + 1);
  }

  /** No two backends' picks ever differ by more than one, over any window of tickets. */
  ghost predicate AlwaysFair(addrs: seq<SocketAddr>) {
    forall from, n, i, j :: 0 <= from < USIZE_MODULUS && 0 <= n && 0 <= i < |addrs| && 0 <= j < |addrs| ==>
      TimesRoundRobin(addrs, from, n, addrs[i]) <= TimesRoundRobin(addrs, from, n, addrs[j]) + 1
  }

  /** A window around a wrap picks the first backend twice and the last one not at all. */
  lemma UnfairAcrossWrap(addrs: seq<SocketAddr>)
    requires addrs != [] && Distinct(addrs) && USIZE_MODULUS % |addrs| != 0
    ensures var m, r := |addrs|, USIZE_MODULUS % |addrs|;
      && TimesRoundRobin(addrs, USIZE_MODULUS - r, 2 * r, addrs[0]) == 2
      && TimesRoundRobin(addrs, USIZE_MODULUS - r, 2 * r, addrs[m - 1]) == 0
  {
    hide TimesRoundRobin;
    var m := |addrs|;
    var c, r := SplitOf(USIZE_MODULUS, m);
    forall i | i == 0 || i == m - 1
      ensures TimesRoundRobin(addrs, USIZE_MODULUS - r, 2 * r, addrs[i]) == if i == 0 then 2 else 0
    {
      WindowSplits(addrs, USIZE_MODULUS - r, r, r, addrs[i]);
      PicksAreHits(addrs, USIZE_MODULUS - r, r, i);
      PicksAreHits(addrs, 0, r, i);
      HitsClosedForm(USIZE_MODULUS, m, i, i + 1, c, r);
      HitsClosedForm(USIZE_MODULUS - r, m, i, i + 1, c, 0);
      HitsClosedForm(r, m, i, i + 1, 0, r);
    }
  }

  /** Round robin is perfectly fair across counter wraps exactly when the list length divides the counter's width. */
  lemma FairExactlyWhenLengthDividesWidth(addrs: seq<SocketAddr>)
    requires addrs != [] && Distinct(addrs)
    ensures AlwaysFair(addrs) <==> USIZE_MODULUS % |addrs| == 0
  {
    hide TimesRoundRobin;
    if USIZE_MODULUS % |addrs| == 0 {
      forall from, n, i, j | 0 <= from < USIZE_MODULUS && 0 <= n && 0 <= i < |addrs| && 0 <= j < |addrs|
        ensures TimesRoundRobin(addrs, from, n, addrs[i])
             <= TimesRoundRobin(addrs, from, n, addrs[j]) + 1
      {
        FairWithinCycle(addrs, from, n, i, j);
      }
    } else {
      UnfairAcrossWrap(addrs);
      var m, r := |addrs|, USIZE_MODULUS % |addrs|;
      assert !(TimesRoundRobin(addrs, USIZE_MODULUS - r, 2 * r, addrs[0])
            <= TimesRoundRobin(addrs, USIZE_MODULUS - r, 2 * r, addrs[m - 1]) + 1);
    }
  }

  lemma CeilingForm(n: nat, m: nat, i: nat, q: nat, r: nat)
    requires n == q * m + r && r < m && i < m
    ensures (n + m - 1 - i) / m == q + if i < r then 1 else 0
  {
    if i < r {
      SumTimes(q, 1, m);
      QuotientIsUnique(n + m - 1 - i, m, q + 1, r - 1 - i);
    } else {
      QuotientIsUnique(n + m - 1 - i, m, q, r + m - 1 - i);
    }
  }

  /** From a fresh counter and without a wrap, the i-th of m backends gets the i-th, (i+m)-th, ... pick. */
  lemma RoundRobinClosedForm(addrs: seq<SocketAddr>, n: nat, i: nat)
    requires i < |addrs| && Distinct(addrs) && n <= USIZE_MODULUS
    ensures TimesRoundRobin(addrs, 0, n, addrs[i]) == (n + |addrs| - 1 - i) / |addrs|
  {
    var m := |addrs|;
    PicksAreHits(addrs, 0, n, i);
    var q, r := SplitOf(n, m);
    HitsClosedForm(n, m, i, i + 1, q, r);
    CeilingForm(n, m, i, q, r);
  }

  // Weighted

  function TimesWeighted(healthy: seq<UpfBackend>, from: nat, n: nat, addr: SocketAddr): nat {
    if n == 0 then 0 else
    TimesWeighted(healthy, from, n - 1, addr)
    + if SelectWeighted(healthy, Shown(from + n - 1)).choice == Some(addr) then 1 else 0
  }

  lemma OneWeightedPick(healthy: seq<UpfBackend>, t: nat, i: nat)
    requires i < |healthy| && Distinct(AddrsOf(healthy))
    requires 0 < WeightBefore(healthy, |healthy|) < U32_MODULUS
    ensures SelectWeighted(healthy, t).choice == Some(healthy[i].addr)
       <==> WeightBefore(healthy, i) <= t % WeightBefore(healthy, |healthy|) < WeightBefore(healthy, i + 1)
  {
    var w := WeightBefore(healthy, |healthy|);
    assert TotalWeight(healthy) == w;
    var slot := t % w;
    var owner := OwnerFrom(healthy, slot, 0);
    OwnerExists(healthy, slot, 0);
    OwnerOwnsItsInterval(healthy, slot, 0, i);
    assert AddrsOf(healthy)[owner] == healthy[owner].addr && AddrsOf(healthy)[i] == healthy[i].addr;
  }

  lemma {:induction false} WeightedPicksAreHits(healthy: seq<UpfBackend>, from: nat, n: nat, i: nat)
    requires i < |healthy| && Distinct(AddrsOf(healthy))
    requires 0 < WeightBefore(healthy, |healthy|) < U32_MODULUS
    requires from + n <= USIZE_MODULUS
    ensures var w, lo, hi := WeightBefore(healthy, |healthy|), WeightBefore(healthy, i), WeightBefore(healthy, i + 1);
      TimesWeighted(healthy, from, n, healthy[i].addr) == Hits(from + n, w, lo, hi) - Hits(from, w, lo, hi)
  {
    if n > 0 {
      hide SelectWeighted;
      WeightedPicksAreHits(healthy, from, n - 1, i);
      OneWeightedPick(healthy, from + n - 1, i);
    }
  }

  /**
   * Weighted selection is proportional: over `n` tickets without a wrap a backend of weight w, out of a total W, is
   * picked at least (n / W) * w times and at most min(w, n % W) times more; hence exactly w times per W tickets.
   */
  lemma WeightedProportional(healthy: seq<UpfBackend>, from: nat, n: nat, i: nat)
    requires i < |healthy| && Distinct(AddrsOf(healthy))
    requires 0 < WeightBefore(healthy, |healthy|) < U32_MODULUS
    requires from + n <= USIZE_MODULUS
    ensures var total, picks := WeightBefore(healthy, |healthy|), TimesWeighted(healthy, from, n, healthy[i].addr);
      && (n / total) * healthy[i].weight <= picks
      && picks <= (n / total) * healthy[i].weight + Min(healthy[i].weight, n % total)
      && (n == total ==> picks == healthy[i].weight)
  {
    hide TimesWeighted, Hits;
    var total, lo, hi := WeightBefore(healthy, |healthy|), WeightBefore(healthy, i), WeightBefore(healthy, i + 1);
    WeightMonotone(healthy, i + 1, |healthy|);
    WeightedPicksAreHits(healthy, from, n, i);
    WindowHits(from, n, total, lo, hi);
    if n == total {
      QuotientIsUnique(n, total, 1, 0);
    }
  }
}
