/** The counters of one zone item: the zone counter vm_stat and, per CPU, a difference that is
    folded into it lazily (Linux/vmstat.c). */
module VmStat {
  import opened Bits
  import opened Integers

  /** Upper limit of every per-CPU threshold. */
  const MAX_THRESHOLD: int := 125

  function Sum(s: seq<int>): int {
    if s == [] then 0 else s[0] + Sum(s[1..])
  }

  lemma {:induction false} SumUpdate(s: seq<int>, i: nat, v: int)
    requires i < |s|
    ensures Sum(s[i := v]) == Sum(s) - s[i] + v
  {
    if i == 0 {
      assert s[0 := v][1..] == s[1..];
    } else {
      assert s[i := v][1..] == s[1..][i - 1 := v];
      SumUpdate(s[1..], i - 1, v);
    }
  }

  lemma {:induction false} SumBounded(s: seq<int>, m: nat)
    requires forall i :: 0 <= i < |s| ==> 0 - m <= s[i] <= m
    ensures -(|s| * m) <= Sum(s) <= |s| * m
  {
    if |s| > 0 {
      SumBounded(s[1..], m);
      assert |s| * m == |s[1..]| * m + m;
    }
  }

  function Fls(x: nat): nat {
    if x == 0 then 0 else 1 + Fls(x / 2)
  }

  /** Fls is the position of the highest bit, counted from 1. */
  lemma {:induction false} FlsHighestBit(x: nat)
    ensures x < Pow2(Fls(x)) && (x > 0 ==> Pow2(Fls(x) - 1) <= x)
  {
    if x > 1 {
      FlsHighestBit(x / 2);
    }
  }

  /** Threshold while the zone is under memory pressure; low is at least min. */
  function PressureThreshold(low: nat, min: nat, onlineCpus: nat): (t: int)
    requires min <= low && onlineCpus > 0
    ensures 1 <= t <= MAX_THRESHOLD
    ensures t > 1 ==> t * onlineCpus <= low - min
    ensures t < MAX_THRESHOLD ==> (t + 1) * onlineCpus > low - min
  {
    var share := (low - min) / onlineCpus;
    assert share * onlineCpus <= low - min;
    Min(MAX_THRESHOLD, Max(1, share))
  }

  /** Every CPU's difference lies within the bound of that CPU. */
  ghost predicate Within(diff: seq<int>, bound: seq<nat>) {
    |diff| == |bound| && forall c :: 0 <= c < |diff| ==> 0 - bound[c] <= diff[c] <= bound[c]
  }

  lemma {:induction false} SumWithin(diff: seq<int>, bound: seq<nat>)
    requires Within(diff, bound)
    ensures -Sum(bound) <= Sum(diff) <= Sum(bound)
  {
    if diff != [] {
      SumWithin(diff[1..], bound[1..]);
    }
  }

  lemma {:induction false} SumOfNats(bound: seq<nat>)
    ensures Sum(bound) >= 0
  {
    if bound != [] {
      SumOfNats(bound[1..]);
    }
  }

  /** Differences within the bounds that add up to -drift. */
  function Spread(bound: seq<nat>, drift: nat): (diff: seq<int>)
    requires drift <= Sum(bound)
    ensures Within(diff, bound) && Sum(diff) == 0 - drift
  {
    if bound == [] then []
    else
      var first: nat := Min(bound[0], drift);
      SumOfNats(bound[1..]);
      [0 - first] + Spread(bound[1..], drift - first)
  }

  /** The zone counter says that the low watermark is met, but fewer pages than the min one are free. */
  ghost predicate Breached(low: nat, min: nat, vmStat: int, diff: seq<int>) {
    vmStat >= low && 0 <= vmStat + Sum(diff) < min
  }

  /** No differences within the bounds hide that the min watermark is breached. */
  ghost predicate DriftKeepsMin(low: nat, min: nat, bound: seq<nat>) {
    forall vmStat: int, diff: seq<int> :: Within(diff, bound) ==> !Breached(low, min, vmStat, diff)
  }

  /** Drift can hide that the min watermark is breached if and only if the bounds of all CPUs together
      exceed the distance of the watermarks and there is a min watermark to breach. */
  lemma DriftKeepsMinIff(low: nat, min: nat, bound: seq<nat>)
    requires min <= low
    ensures DriftKeepsMin(low, min, bound) <==> Sum(bound) <= low - min || min == 0
  {
    if Sum(bound) <= low - min || min == 0 {
      forall vmStat: int, diff: seq<int> | Within(diff, bound)
        ensures !Breached(low, min, vmStat, diff)
      {
        SumWithin(diff, bound);
      }
    } else {
      var diff := Spread(bound, low - min + 1);
      assert Within(diff, bound) && Breached(low, min, low, diff);
    }
  }

  function CountTrue(s: seq<bool>): (n: nat)
    ensures n <= |s|
  {
    if s == [] then 0 else (if s[0] then 1 else 0) + CountTrue(s[1..])
  }

  /** The bounds after a switch from one threshold to another: a CPU's difference obeys the new one only
      after the CPU's next update. */
  function SwitchBounds(before: nat, after: nat, updated: seq<bool>): (bound: seq<nat>)
    ensures |bound| == |updated| && forall c :: 0 <= c < |bound| ==> bound[c] == if updated[c] then after else before
  {
    seq(|updated|, c requires 0 <= c < |updated| => if updated[c] then after else before)
  }

  lemma {:induction false} SwitchSum(before: nat, after: nat, updated: seq<bool>)
    ensures Sum(SwitchBounds(before, after, updated)) == CountTrue(updated) * after + (|updated| - CountTrue(updated)) * before
  {
    if updated != [] {
      assert SwitchBounds(before, after, updated)[1..] == SwitchBounds(before, after, updated[1..]);
      SwitchSum(before, after, updated[1..]);
    }
  }

  /** A switch from one threshold to another helps from the moment on when so many CPUs have updated their
      difference that what they and the others may hold fits between the watermarks, and not before. */
  lemma SwitchKeepsMinIff(low: nat, min: nat, before: nat, after: nat, updated: seq<bool>)
    requires min <= low
    ensures DriftKeepsMin(low, min, SwitchBounds(before, after, updated)) <==>
      CountTrue(updated) * after + (|updated| - CountTrue(updated)) * before <= low - min || min == 0
  {
    SwitchSum(before, after, updated);
    DriftKeepsMinIff(low, min, SwitchBounds(before, after, updated));
  }

  lemma ThresholdShare(gap: nat, onlineCpus: nat, t: nat)
    requires onlineCpus > 0 && t >= 1 && t <= Max(1, gap / onlineCpus)
    ensures onlineCpus * t <= gap <==> onlineCpus <= gap
  {
    if onlineCpus <= gap {
      assert gap / onlineCpus >= 1;
      assert onlineCpus * t <= onlineCpus * (gap / onlineCpus);
    } else {
      assert onlineCpus * t >= onlineCpus;
    }
  }

  lemma {:induction false} CountAll(updated: seq<bool>)
    requires forall c :: 0 <= c < |updated| ==> updated[c]
    ensures CountTrue(updated) == |updated|
  {
    if updated != [] {
      CountAll(updated[1..]);
    }
  }

  lemma {:induction false} CountNone(updated: seq<bool>)
    requires forall c :: 0 <= c < |updated| ==> !updated[c]
    ensures CountTrue(updated) == 0
  {
    if updated != [] {
      CountNone(updated[1..]);
    }
  }

  /** The pressure threshold is meant to let no drift breach the min watermark. Once every CPU has updated
      its difference it does so if and only if the watermarks are at least one page per CPU apart, since
      the threshold is never below 1. */
  lemma PressureKeepsMinIff(low: nat, min: nat, before: nat, updated: seq<bool>)
    requires min <= low && updated != [] && forall c :: 0 <= c < |updated| ==> updated[c]
    ensures DriftKeepsMin(low, min, SwitchBounds(before, PressureThreshold(low, min, |updated|), updated)) <==>
      |updated| <= low - min || min == 0
  {
    var t := PressureThreshold(low, min, |updated|);
    CountAll(updated);
    SwitchKeepsMinIff(low, min, before, t, updated);
    ThresholdShare(low - min, |updated|, t);
  }

  /** refresh_zone_stat_thresholds: the counter value below which the exact count is taken, 0 if never. */
  function DriftMark(low: nat, min: nat, high: nat, onlineCpus: nat, t: nat): nat
    requires min <= low
  {
    if onlineCpus * t > low - min then high + onlineCpus * t else 0
  }

  lemma ScaledOrder(n: nat, a: nat, b: nat)
    ensures a <= b ==> n * a <= n * b
  {
  }

  lemma ShareBelow(gap: nat, n: nat, normal: nat)
    requires n > 0 && n * normal > gap
    ensures gap / n < normal
  {
    var q := gap / n;
    assert n * q <= gap;
    ScaledOrder(n, normal, q);
  }

  /** A zone is switched to the pressure threshold only if it has a drift mark. Then the pressure threshold
      is below the normal one, so the differences stay within the normal one through every switch, and
      before the first update after a switch from the normal threshold the switch has not helped. */
  lemma PressureBelowNormal(low: nat, min: nat, high: nat, normal: nat, updated: seq<bool>)
    requires min <= low <= high && 2 <= normal <= MAX_THRESHOLD && updated != []
    requires DriftMark(low, min, high, |updated|, normal) > 0
    ensures var t := PressureThreshold(low, min, |updated|);
      && t < normal
      && (forall c :: 0 <= c < |updated| ==> SwitchBounds(normal, t, updated)[c] <= normal)
      && ((forall c :: 0 <= c < |updated| ==> !updated[c]) && min > 0 ==> !DriftKeepsMin(low, min, SwitchBounds(normal, t, updated)))
  {
    var n, gap := |updated|, low - min;
    var t := PressureThreshold(low, min, n);
    ShareBelow(gap, n, normal);
    if forall c :: 0 <= c < n ==> !updated[c] {
      CountNone(updated);
      SwitchKeepsMinIff(low, min, normal, t, updated);
    }
  }

  /** A drift mark is set exactly where drift within the threshold could hide a breached min watermark. */
  lemma DriftMarkIff(low: nat, min: nat, high: nat, t: nat, updated: seq<bool>)
    requires 0 < min <= low <= high && forall c :: 0 <= c < |updated| ==> updated[c]
    ensures DriftMark(low, min, high, |updated|, t) > 0 <==> !DriftKeepsMin(low, min, SwitchBounds(0, t, updated))
    ensures DriftMark(low, min, high, |updated|, t) > 0 ==> DriftMark(low, min, high, |updated|, t) == high + |updated| * t
  {
    CountAll(updated);
    SwitchKeepsMinIff(low, min, 0, t, updated);
  }

  /** The free pages that zone_watermark_ok_safe goes by. */
  function SafeFreePages(vmStat: int, exact: nat, driftMark: nat): nat {
    var seen := Max(0, vmStat);
    if driftMark > 0 && seen < driftMark then exact else seen
  }

  lemma {:induction false} SumAtMost(bound: seq<nat>, t: nat)
    requires forall c :: 0 <= c < |bound| ==> bound[c] <= t
    ensures Sum(bound) <= |bound| * t
  {
    if bound != [] {
      SumAtMost(bound[1..], t);
      assert |bound| * t == |bound[1..]| * t + t;
    }
  }

  /** The safe count never hides that the min watermark is breached, whatever the number of CPUs, and where
      it is not exact the zone has its high watermark or its drift is tolerable. */
  lemma SafeCountKeepsMin(low: nat, min: nat, high: nat, t: nat, bound: seq<nat>, vmStat: int, diff: seq<int>)
    requires min <= low <= high && Within(diff, bound) && vmStat + Sum(diff) >= 0
    requires forall c :: 0 <= c < |bound| ==> bound[c] <= t
    ensures var exact, mark := vmStat + Sum(diff), DriftMark(low, min, high, |diff|, t);
      var seen := SafeFreePages(vmStat, exact, mark);
      && (seen >= low ==> exact >= min)
      && (mark > 0 && seen != exact ==> exact >= high)
      // the differences of the CPUs are added up only below a drift mark
      && (mark == 0 || Max(0, vmStat) >= mark ==> seen == Max(0, vmStat))
  {
    SumWithin(diff, bound);
    SumAtMost(bound, t);
  }

  /** Normal threshold; mem is the zone size in units of 128 MB. */
  function NormalThreshold(mem: nat, onlineCpus: nat): (t: int)
    requires onlineCpus > 0
    ensures 2 <= t <= MAX_THRESHOLD
  {
    var f, g := Fls(onlineCpus), Fls(mem);
    assert f >= 1 && f * (1 + g) >= 1;
    Min(MAX_THRESHOLD, 2 * f * (1 + g))
  }

  /** Samples, by 128 MB units and processors, that the comment in calculate_normal_threshold gives; then
      those where it gives other values: 30, 32, 70, 84 and 108. */
  lemma SampleThresholds()
    ensures NormalThreshold(7, 1) == 8 && NormalThreshold(7, 2) == 16 && NormalThreshold(15, 2) == 20
    ensures NormalThreshold(31, 2) == 24 && NormalThreshold(63, 2) == 28 && NormalThreshold(127, 2) == 32 && NormalThreshold(0, 2) == 4
    ensures NormalThreshold(127, 4) == 48 && NormalThreshold(7, 8) == 32 && NormalThreshold(0, 16) == 10 && NormalThreshold(7, 16) == 40
    ensures NormalThreshold(127, 1024) == NormalThreshold(255, 1024) == 125
    ensures NormalThreshold(31, 4) == 36 && NormalThreshold(15, 8) == 40 && NormalThreshold(31, 64) == 84
    ensures NormalThreshold(63, 64) == 98 && NormalThreshold(63, 512) == 125
  {
  }

  /** The counter of one item, updated with interrupts disabled. */
  class ZoneCounter {
    var vmStat: int
    var diff: seq<int>
    var threshold: seq<int>
    ghost var bound: seq<nat> // what the difference of each CPU obeys

    ghost predicate Valid()
      reads this
    {
      && Within(diff, bound) && |diff| == |threshold|
      && (forall c :: 0 <= c < |threshold| ==> 0 <= threshold[c] <= MAX_THRESHOLD)
      && (forall c :: 0 <= c < |bound| ==> bound[c] <= MAX_THRESHOLD)
    }

    /** The exact value: what zone_page_state_snapshot adds up. */
    ghost function Exact(): int
      reads this
    {
      vmStat + Sum(diff)
    }

    constructor (cpus: nat)
      ensures Valid() && Exact() == 0 && |diff| == cpus && vmStat == 0
      ensures forall c :: 0 <= c < cpus ==> diff[c] == 0 && threshold[c] == 0
    {
      vmStat := 0;
      diff := seq(cpus, _ => 0);
      threshold := seq(cpus, _ => 0);
      bound := seq(cpus, _ => 0);
      new;
      SumBounded(diff, 0);
    }

    /** __mod_zone_page_state. */
    method ModZonePageState(cpu: nat, delta: int)
      requires Valid() && cpu < |diff|
      modifies `vmStat, `diff, `bound
      ensures Valid() && Exact() == old(Exact()) + delta
      ensures var x, t := old(diff)[cpu] + delta, threshold[cpu];
        if x > t || x < -t then vmStat == old(vmStat) + x && diff == old(diff)[cpu := 0]
        else vmStat == old(vmStat) && diff == old(diff)[cpu := x]
      ensures bound == old(bound)[cpu := threshold[cpu]]
    {
      var x := delta + diff[cpu];
      var t := threshold[cpu];
      SumUpdate(diff, cpu, if x > t || x < -t then 0 else x);
      if x > t || x < -t {
        vmStat := vmStat + x;
        x := 0;
      }
      diff := diff[cpu := x];
      bound := bound[cpu := t];
    }

    /** __inc_zone_state. It looks at the upper end only: a difference below a lowered threshold stays so. */
    method IncZoneState(cpu: nat)
      requires Valid() && cpu < |diff|
      modifies `vmStat, `diff, `bound
      ensures Valid() && Exact() == old(Exact()) + 1
      ensures var v, t := old(diff)[cpu] + 1, threshold[cpu];
        if v > t then vmStat == old(vmStat) + v + t / 2 && diff == old(diff)[cpu := 0 - t / 2]
        else vmStat == old(vmStat) && diff == old(diff)[cpu := v]
      ensures bound == old(bound)[cpu := Max(old(bound)[cpu], threshold[cpu])]
    {
      SumUpdate(diff, cpu, diff[cpu] + 1);
      diff := diff[cpu := diff[cpu] + 1];
      var v, t := diff[cpu], threshold[cpu];
      if v > t {
        var overstep := t / 2;
        vmStat := vmStat + v + overstep;
        SumUpdate(diff, cpu, -overstep);
        diff := diff[cpu := -overstep];
      }
      bound := bound[cpu := Max(bound[cpu], t)];
    }

    /** __dec_zone_state. It looks at the lower end only. */
    method DecZoneState(cpu: nat)
      requires Valid() && cpu < |diff|
      modifies `vmStat, `diff, `bound
      ensures Valid() && Exact() == old(Exact()) - 1
      ensures var v, t := old(diff)[cpu] - 1, threshold[cpu];
        if v < -t then vmStat == old(vmStat) + v - t / 2 && diff == old(diff)[cpu := t / 2]
        else vmStat == old(vmStat) && diff == old(diff)[cpu := v]
      ensures bound == old(bound)[cpu := Max(old(bound)[cpu], threshold[cpu])]
    {
      SumUpdate(diff, cpu, diff[cpu] - 1);
      diff := diff[cpu := diff[cpu] - 1];
      var v, t := diff[cpu], threshold[cpu];
      if v < -t {
        var overstep := t / 2;
        vmStat := vmStat + v - overstep;
        SumUpdate(diff, cpu, overstep);
        diff := diff[cpu := overstep];
      }
      bound := bound[cpu := Max(bound[cpu], t)];
    }

    /** One item of refresh_cpu_vm_stats: fold the CPU's difference into the zone counter. */
    method RefreshCpu(cpu: nat)
      requires Valid() && cpu < |diff|
      modifies `vmStat, `diff, `bound
      ensures Valid() && Exact() == old(Exact())
      ensures vmStat == old(vmStat) + old(diff)[cpu] && diff == old(diff)[cpu := 0]
      ensures bound == old(bound)[cpu := threshold[cpu]]
    {
      if diff[cpu] != 0 {
        var v := diff[cpu];
        SumUpdate(diff, cpu, 0);
        diff := diff[cpu := 0];
        vmStat := vmStat + v;
      }
      bound := bound[cpu := threshold[cpu]];
    }

    /** set_pgdat_percpu_threshold, for one zone: every CPU gets the threshold, and the differences stay
        as they are until their next update. */
    method SetThresholds(t: int)
      requires Valid() && 0 <= t <= MAX_THRESHOLD
      modifies `threshold
      ensures Valid() && |threshold| == old(|threshold|) && forall c :: 0 <= c < |threshold| ==> threshold[c] == t
    {
      for cpu := 0 to |threshold|
        invariant Valid() && |threshold| == old(|threshold|) && forall c :: 0 <= c < cpu ==> threshold[c] == t
      {
        threshold := threshold[cpu := t];
      }
    }

    /** Until the differences are folded the zone counter is off by at most 125 per CPU. */
    lemma DriftBound()
      requires Valid()
      ensures Exact() - |diff| * MAX_THRESHOLD <= vmStat <= Exact() + |diff| * MAX_THRESHOLD
    {
      SumBounded(diff, MAX_THRESHOLD);
    }

    /** A counter at the low watermark means that the min watermark is met while the bounds of its
        differences together fit between the two. */
    lemma CounterKeepsMin(low: nat, min: nat)
      requires Valid() && min <= low <= vmStat && Exact() >= 0
      requires Sum(bound) <= low - min || min == 0
      ensures Exact() >= min
    {
      DriftKeepsMinIff(low, min, bound);
      assert !Breached(low, min, vmStat, diff);
    }
  }

  /** Watermarks 1000 and 900 on 4 CPUs in a zone of 2 GB. Each CPU holds back 36 pages under the normal
      threshold. The switch to the pressure threshold, 25, leaves them there: the counter shows the low
      watermark although only 856 pages are free. */
  method SwitchBreaches() returns (z: ZoneCounter)
    ensures fresh(z) && z.Valid() && |z.diff| == 4 && z.vmStat == 1000 && z.Exact() == 856
    ensures NormalThreshold(16, 4) == 36 && PressureThreshold(1000, 900, 4) == 25
    ensures forall high: nat :: high >= 1000 ==> DriftMark(1000, 900, high, 4, 36) > 0
    ensures forall c :: 0 <= c < 4 ==> z.threshold[c] == 25
    ensures Breached(1000, 900, z.vmStat, z.diff) && 4 <= 1000 - 900
  {
    z := new ZoneCounter(4);
    z.SetThresholds(NormalThreshold(16, 4));
    z.ModZonePageState(0, 1000);
    for cpu := 0 to 4
      invariant fresh(z) && z.Valid() && |z.diff| == 4 && z.vmStat == 1000 && z.Exact() == 1000 - 36 * cpu
      invariant forall c :: 0 <= c < 4 ==> z.threshold[c] == 36 && z.diff[c] == if c < cpu then -36 else 0
    {
      z.ModZonePageState(cpu, -36);
    }
    z.SetThresholds(PressureThreshold(1000, 900, 4));
  }
}
