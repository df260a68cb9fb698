/** mod_state without disabled interrupts: any number of tasks update the counter of one zone
    item with this_cpu_cmpxchg, and may be interrupted or moved to another CPU between any two of
    their steps (Linux/vmstat.c:311-344). */
module ModStateRace {
  import opened VmStat

  /** Where a task is inside mod_state. The CPU of each step is chosen by the scheduler. */
  datatype Task =
    | Idle
    | Start(delta: int, mode: int)                       // about to read the threshold
    | GotThreshold(delta: int, mode: int, t: int)        // about to read the difference
    | GotDiff(delta: int, mode: int, t: int, o: int)     // about to cmpxchg
    | Overflowed(z: int)                                 // about to add z to the zone counter

  datatype Counter = Counter(
    vmStat: int,
    diff: seq<int>,          // s8 per CPU
    threshold: seq<int>,     // s8 per CPU
    tasks: seq<Task>,
    applied: int)            // sum of the deltas whose update has taken effect

  datatype Step =
    | Call(task: nat, delta: int, mode: int)             // enter mod_state
    | ReadThreshold(task: nat, cpu: nat)
    | ReadDiff(task: nat, cpu: nat)
    | CmpXchg(task: nat, cpu: nat)                       // retries when the difference changed
    | AddOverflow(task: nat)
    | IrqMod(cpu: nat, delta: int)                       // __mod_zone_page_state in an interrupt
    | Fold(task: nat, cpu: nat)                          // refresh_cpu_vm_stats, up to the atomic add
    | SetThreshold(cpu: nat, t: int)                     // set_pgdat_percpu_threshold

  function NewDiff(t: int, n: int, mode: int): int {
    if n > t || n < -t then -(mode * (t / 2)) else n
  }

  function Overflow(t: int, n: int, mode: int): int {
    if n > t || n < -t then n + mode * (t / 2) else 0
  }

  predicate Enabled(s: Counter, step: Step) {
    match step
    case Call(i, _, mode) => i < |s.tasks| && s.tasks[i].Idle? && -1 <= mode <= 1
    case ReadThreshold(i, c) => i < |s.tasks| && c < |s.diff| == |s.threshold| && s.tasks[i].Start?
    case ReadDiff(i, c) => i < |s.tasks| && c < |s.diff| && s.tasks[i].GotThreshold?
    case CmpXchg(i, c) => i < |s.tasks| && c < |s.diff| && s.tasks[i].GotDiff?
    case AddOverflow(i) => i < |s.tasks| && s.tasks[i].Overflowed?
    case IrqMod(c, _) => c < |s.diff| == |s.threshold|
    case Fold(i, c) => i < |s.tasks| && c < |s.diff| && s.tasks[i].Idle?
    case SetThreshold(c, t) => c < |s.threshold| && 0 <= t <= MAX_THRESHOLD
  }

  function Next(s: Counter, step: Step): Counter
    requires Enabled(s, step)
  {
    match step
    case Call(i, delta, mode) => s.(tasks := s.tasks[i := Start(delta, mode)])
    case ReadThreshold(i, c) =>
      var k := s.tasks[i];
      s.(tasks := s.tasks[i := GotThreshold(k.delta, k.mode, s.threshold[c])])
    case ReadDiff(i, c) =>
      var k := s.tasks[i];
      s.(tasks := s.tasks[i := GotDiff(k.delta, k.mode, k.t, s.diff[c])])
    case CmpXchg(i, c) =>
      var k := s.tasks[i];
      if s.diff[c] != k.o then s.(tasks := s.tasks[i := Start(k.delta, k.mode)])
      else
        var n := k.delta + k.o;
        var z := Overflow(k.t, n, k.mode);
        s.(diff := s.diff[c := NewDiff(k.t, n, k.mode)],
           tasks := s.tasks[i := if z != 0 then Overflowed(z) else Idle],
           applied := s.applied + k.delta)
    case AddOverflow(i) =>
      s.(vmStat := s.vmStat + s.tasks[i].z, tasks := s.tasks[i := Idle])
    case IrqMod(c, delta) =>
      var n := delta + s.diff[c];
      s.(diff := s.diff[c := NewDiff(s.threshold[c], n, 0)],
         vmStat := s.vmStat + Overflow(s.threshold[c], n, 0),
         applied := s.applied + delta)
    case Fold(i, c) =>
      s.(diff := s.diff[c := 0], tasks := s.tasks[i := Overflowed(s.diff[c])])
    case SetThreshold(c, t) => s.(threshold := s.threshold[c := t])
  }

  /** What task k still owes the zone counter. */
  function InFlight(k: Task): int {
    if k.Overflowed? then k.z else 0
  }

  function InFlights(tasks: seq<Task>): (r: seq<int>)
    ensures |r| == |tasks|
  {
    seq(|tasks|, i requires 0 <= i < |tasks| => InFlight(tasks[i]))
  }

  ghost predicate ThresholdOk(k: Task) {
    && (k.GotThreshold? || k.GotDiff? ==> 0 <= k.t <= MAX_THRESHOLD)
    && (k.Start? || k.GotThreshold? || k.GotDiff? ==> -1 <= k.mode <= 1)
  }

  /** Nothing is lost, and every difference fits its signed byte. */
  ghost predicate Inv(s: Counter) {
    && |s.diff| == |s.threshold|
    && (forall c :: 0 <= c < |s.diff| ==> -MAX_THRESHOLD <= s.diff[c] <= MAX_THRESHOLD)
    && (forall c :: 0 <= c < |s.threshold| ==> 0 <= s.threshold[c] <= MAX_THRESHOLD)
    && (forall i :: 0 <= i < |s.tasks| ==> ThresholdOk(s.tasks[i]))
    && s.vmStat + Sum(s.diff) + Sum(InFlights(s.tasks)) == s.applied
  }

  lemma InFlightsUpdate(tasks: seq<Task>, i: nat, k: Task)
    requires i < |tasks|
    ensures Sum(InFlights(tasks[i := k])) == Sum(InFlights(tasks)) - InFlight(tasks[i]) + InFlight(k)
  {
    assert InFlights(tasks[i := k]) == InFlights(tasks)[i := InFlight(k)];
    SumUpdate(InFlights(tasks), i, InFlight(k));
  }

  /** The new difference and the overflow together carry exactly n. */
  lemma SplitOfSum(t: int, n: int, mode: int)
    requires 0 <= t <= MAX_THRESHOLD && -1 <= mode <= 1
    ensures NewDiff(t, n, mode) + Overflow(t, n, mode) == n
    ensures -MAX_THRESHOLD <= NewDiff(t, n, mode) <= MAX_THRESHOLD
  {
  }

  /** A step that leaves counter and differences alone moves one task on. */
  lemma InvMove(s: Counter, s': Counter, i: nat)
    requires Inv(s) && i < |s.tasks| == |s'.tasks| && s' == s.(tasks := s.tasks[i := s'.tasks[i]])
    requires ThresholdOk(s'.tasks[i]) && InFlight(s'.tasks[i]) == InFlight(s.tasks[i])
    ensures Inv(s')
  {
    hide InFlight, InFlights, Sum, ThresholdOk;
    InFlightsUpdate(s.tasks, i, s'.tasks[i]);
  }

  /** A step that changes one difference and one task keeps what they carry together. */
  lemma InvTransfer(s: Counter, s': Counter, i: nat, c: nat)
    requires Inv(s) && i < |s.tasks| == |s'.tasks| && c < |s.diff| == |s'.diff|
    requires s'.tasks == s.tasks[i := s'.tasks[i]] && s'.diff == s.diff[c := s'.diff[c]] && s'.threshold == s.threshold
    requires ThresholdOk(s'.tasks[i]) && -MAX_THRESHOLD <= s'.diff[c] <= MAX_THRESHOLD && s'.vmStat == s.vmStat
    requires s'.diff[c] + InFlight(s'.tasks[i]) - s'.applied == s.diff[c] + InFlight(s.tasks[i]) - s.applied
    ensures Inv(s')
  {
    hide InFlight, InFlights, Sum, ThresholdOk;
    InFlightsUpdate(s.tasks, i, s'.tasks[i]);
    SumUpdate(s.diff, c, s'.diff[c]);
  }

  lemma InvCmpXchg(s: Counter, i: nat, c: nat)
    requires Inv(s) && Enabled(s, CmpXchg(i, c))
    ensures Inv(Next(s, CmpXchg(i, c)))
  {
    hide InFlights, Sum, NewDiff, Overflow;
    var k, s' := s.tasks[i], Next(s, CmpXchg(i, c));
    if s.diff[c] == k.o {
      SplitOfSum(k.t, k.delta + k.o, k.mode);
      InvTransfer(s, s', i, c);
    } else {
      InvMove(s, s', i);
    }
  }

  lemma InvAddOverflow(s: Counter, i: nat)
    requires Inv(s) && Enabled(s, AddOverflow(i))
    ensures Inv(Next(s, AddOverflow(i)))
  {
    hide InFlights, Sum;
    InFlightsUpdate(s.tasks, i, Idle);
  }

  lemma InvIrqMod(s: Counter, c: nat, delta: int)
    requires Inv(s) && Enabled(s, IrqMod(c, delta))
    ensures Inv(Next(s, IrqMod(c, delta)))
  {
    hide InFlights, Sum, NewDiff, Overflow;
    var t, n := s.threshold[c], delta + s.diff[c];
    SplitOfSum(t, n, 0);
    SumUpdate(s.diff, c, NewDiff(t, n, 0));
  }

  lemma InvStep(s: Counter, step: Step)
    requires Inv(s) && Enabled(s, step)
    ensures Inv(Next(s, step))
  {
    hide InFlights, Sum, NewDiff, Overflow;
    var s' := Next(s, step);
    match step {
      case Call(i, _, _) => InvMove(s, s', i);
      case ReadThreshold(i, _) => InvMove(s, s', i);
      case ReadDiff(i, _) => InvMove(s, s', i);
      case CmpXchg(i, c) => InvCmpXchg(s, i, c);
      case AddOverflow(i) => InvAddOverflow(s, i);
      case IrqMod(c, delta) => InvIrqMod(s, c, delta);
      case Fold(i, c) => InvTransfer(s, s', i, c);
      case SetThreshold(_, _) =>
    }
  }

  ghost predicate Execution(states: seq<Counter>, steps: seq<Step>) {
    && |states| == |steps| + 1
    && forall i :: 0 <= i < |steps| ==> Enabled(states[i], steps[i]) && states[i + 1] == Next(states[i], steps[i])
  }

  ghost predicate Initial(s: Counter) {
    && |s.diff| == |s.threshold|
    && (forall c :: 0 <= c < |s.diff| ==> s.diff[c] == 0 && 0 <= s.threshold[c] <= MAX_THRESHOLD)
    && (forall i :: 0 <= i < |s.tasks| ==> s.tasks[i].Idle?)
    && s.applied == s.vmStat
  }

  /** Conservation over every interleaving: zone counter, differences and overflow in flight
      always add up to the deltas applied so far. */
  lemma {:induction false} InvAlways(states: seq<Counter>, steps: seq<Step>, k: nat)
    requires Execution(states, steps) && Initial(states[0]) && k < |states|
    ensures Inv(states[k])
  {
    if k == 0 {
      SumBounded(states[0].diff, 0);
      SumBounded(InFlights(states[0].tasks), 0);
    } else {
      InvAlways(states, steps, k - 1);
      InvStep(states[k - 1], steps[k - 1]);
      assert states[k] == Next(states[k - 1], steps[k - 1]);
    }
  }

  /** When no task is inside mod_state the zone counter is off by at most 125 per CPU. */
  lemma QuiescentDrift(states: seq<Counter>, steps: seq<Step>, k: nat)
    requires Execution(states, steps) && Initial(states[0]) && k < |states|
    requires forall i :: 0 <= i < |states[k].tasks| ==> !states[k].tasks[i].Overflowed?
    ensures var s := states[k];
      s.applied - |s.diff| * MAX_THRESHOLD <= s.vmStat <= s.applied + |s.diff| * MAX_THRESHOLD
  {
    InvAlways(states, steps, k);
    SumBounded(states[k].diff, MAX_THRESHOLD);
    SumBounded(InFlights(states[k].tasks), 0);
  }

  /** The delta of an update that a task has been asked for and has not put into effect yet. */
  function Owed(k: Task): int {
    if k.Start? || k.GotThreshold? || k.GotDiff? then k.delta else 0
  }

  function Owing(tasks: seq<Task>): (r: seq<int>)
    ensures |r| == |tasks|
  {
    seq(|tasks|, i requires 0 <= i < |tasks| => Owed(tasks[i]))
  }

  /** The delta that a step asks for: a call of mod_state, or an update in an interrupt. */
  function Request(step: Step): int {
    match step
    case Call(_, delta, _) => delta
    case IrqMod(_, delta) => delta
    case _ => 0
  }

  function Requests(steps: seq<Step>): (r: seq<int>)
    ensures |r| == |steps|
  {
    seq(|steps|, i requires 0 <= i < |steps| => Request(steps[i]))
  }

  lemma OwingUpdate(tasks: seq<Task>, i: nat, k: Task)
    requires i < |tasks|
    ensures Sum(Owing(tasks[i := k])) == Sum(Owing(tasks)) - Owed(tasks[i]) + Owed(k)
  {
    assert Owing(tasks[i := k]) == Owing(tasks)[i := Owed(k)];
    SumUpdate(Owing(tasks), i, Owed(k));
  }

  /** What has taken effect and what is still owed grow together by exactly what the step asks for: a failed
      cmpxchg gives nothing up. */
  lemma RequestStep(s: Counter, step: Step)
    requires Enabled(s, step)
    ensures |Next(s, step).tasks| == |s.tasks|
    ensures Next(s, step).applied + Sum(Owing(Next(s, step).tasks)) == s.applied + Sum(Owing(s.tasks)) + Request(step)
  {
    hide Sum, Owing, NewDiff, Overflow;
    var s' := Next(s, step);
    match step {
      case IrqMod(_, _) =>
      case SetThreshold(_, _) =>
      case _ => OwingUpdate(s.tasks, step.task, s'.tasks[step.task]);
    }
  }

  lemma {:induction false} SumSnoc(s: seq<int>, x: int)
    ensures Sum(s + [x]) == Sum(s) + x
  {
    if s == [] {
      assert Sum([x]) == x + Sum([]);
    } else {
      assert (s + [x])[1..] == s[1..] + [x];
      SumSnoc(s[1..], x);
    }
  }

  /** In every state of every run what has taken effect and what is owed are the start value and all
      requests so far. */
  lemma {:induction false} RequestsAlways(states: seq<Counter>, steps: seq<Step>, k: nat)
    requires Execution(states, steps) && Initial(states[0]) && k < |states|
    ensures states[k].applied + Sum(Owing(states[k].tasks)) == states[0].vmStat + Sum(Requests(steps[..k]))
  {
    hide Next, Enabled;
    if k == 0 {
      SumBounded(Owing(states[0].tasks), 0);
    } else {
      RequestsAlways(states, steps, k - 1);
      assert states[k] == Next(states[k - 1], steps[k - 1]);
      RequestStep(states[k - 1], steps[k - 1]);
      assert Requests(steps[..k]) == Requests(steps[..k - 1]) + [Request(steps[k - 1])];
      SumSnoc(Requests(steps[..k - 1]), Request(steps[k - 1]));
    }
  }

  /** No update is lost and none counted twice: when all tasks are idle the zone counter and the differences
      account for the start value and every update that was asked for. */
  lemma NoUpdateLost(states: seq<Counter>, steps: seq<Step>, k: nat)
    requires Execution(states, steps) && Initial(states[0]) && k < |states|
    requires forall i :: 0 <= i < |states[k].tasks| ==> states[k].tasks[i].Idle?
    ensures states[k].vmStat + Sum(states[k].diff) == states[0].vmStat + Sum(Requests(steps[..k]))
  {
    hide Next, Enabled;
    InvAlways(states, steps, k);
    RequestsAlways(states, steps, k);
    SumBounded(InFlights(states[k].tasks), 0);
    SumBounded(Owing(states[k].tasks), 0);
  }

  /** A task keeps what it was asked for until its cmpxchg succeeds. */
  lemma RequestKept(s: Counter, step: Step, i: nat)
    requires Enabled(s, step) && i < |s.tasks| && (s.tasks[i].Start? || s.tasks[i].GotThreshold? || s.tasks[i].GotDiff?)
    requires step.CmpXchg? && step.task == i ==> s.diff[step.cpu] != s.tasks[i].o
    ensures var k, k' := s.tasks[i], Next(s, step).tasks[i];
      (k'.Start? || k'.GotThreshold? || k'.GotDiff?) && k'.delta == k.delta && k'.mode == k.mode
  {
  }

  /** A step touches the difference and the threshold of its own CPU only. */
  lemma StepIsLocal(s: Counter, step: Step, c: nat)
    requires Enabled(s, step) && c < |s.diff| == |s.threshold|
    requires !step.Call? && !step.AddOverflow? ==> step.cpu != c
    ensures var s' := Next(s, step);
      |s'.diff| == |s.diff| && |s'.threshold| == |s.threshold| && s'.diff[c] == s.diff[c] && s'.threshold[c] == s.threshold[c]
  {
  }

  /** Folding moves one difference to the zone counter, and a new threshold goes to its CPU. */
  lemma FoldIsRefresh(s: Counter, i: nat, c: nat, t: int)
    requires Enabled(s, Fold(i, c)) && Enabled(s, SetThreshold(c, t))
    ensures var s' := Next(Next(s, Fold(i, c)), AddOverflow(i));
      s' == s.(vmStat := s.vmStat + s.diff[c], diff := s.diff[c := 0])
    ensures Next(s, SetThreshold(c, t)) == s.(threshold := s.threshold[c := t])
  {
    assert s.tasks[i := Overflowed(s.diff[c])][i := Idle] == s.tasks;
  }

  /** A call of mod_state that nothing interrupts, from the call to the zone counter. */
  function Alone(s: Counter, i: nat, c: nat, delta: int, mode: int): (s': Counter)
    requires Inv(s) && i < |s.tasks| && s.tasks[i].Idle? && c < |s.diff| && -1 <= mode <= 1
  {
    var s1 := Next(s, Call(i, delta, mode));
    var s2 := Next(s1, ReadThreshold(i, c));
    var s3 := Next(s2, ReadDiff(i, c));
    var s4 := Next(s3, CmpXchg(i, c));
    if s4.tasks[i].Overflowed? then Next(s4, AddOverflow(i)) else s4
  }

  /** It ends with one difference changed. */
  lemma AloneEnds(s: Counter, i: nat, c: nat, delta: int, mode: int)
    requires Inv(s) && i < |s.tasks| && s.tasks[i].Idle? && c < |s.diff| && -1 <= mode <= 1
    ensures var s', n := Alone(s, i, c, delta, mode), delta + s.diff[c];
      && s'.tasks == s.tasks && s'.threshold == s.threshold
      && s'.vmStat == s.vmStat + Overflow(s.threshold[c], n, mode) && s'.diff == s.diff[c := NewDiff(s.threshold[c], n, mode)]
  {
    hide Inv, NewDiff, Overflow;
    assert |s.diff| == |s.threshold| by { InvShape(s); }
    var s' := Alone(s, i, c, delta, mode);
    assert s'.tasks == s.tasks;
  }

  lemma InvShape(s: Counter)
    requires Inv(s)
    ensures |s.diff| == |s.threshold| && forall c :: 0 <= c < |s.threshold| ==> 0 <= s.threshold[c] <= MAX_THRESHOLD
  {
  }

  /** An uninterrupted mod_zone_page_state, and an update in an interrupt, do what __mod_zone_page_state does. */
  lemma AloneIsMod(s: Counter, i: nat, c: nat, delta: int)
    requires Inv(s) && i < |s.tasks| && s.tasks[i].Idle? && c < |s.diff|
    ensures var s', n, t := Alone(s, i, c, delta, 0), delta + s.diff[c], s.threshold[c];
      if n > t || n < -t then s'.vmStat == s.vmStat + n && s'.diff == s.diff[c := 0]
      else s'.vmStat == s.vmStat && s'.diff == s.diff[c := n]
    ensures var s' := Next(s, IrqMod(c, delta)); var a := Alone(s, i, c, delta, 0); s'.vmStat == a.vmStat && s'.diff == a.diff
  {
    hide Alone;
    AloneEnds(s, i, c, delta, 0);
  }

  /** An uninterrupted inc_zone_state does what __inc_zone_state does if and only if the difference has not been
      left below a lowered threshold; __inc_zone_state would leave it there. */
  lemma AloneIsIncIff(s: Counter, i: nat, c: nat)
    requires Inv(s) && i < |s.tasks| && s.tasks[i].Idle? && c < |s.diff|
    ensures var s', n, t := Alone(s, i, c, 1, 1), s.diff[c] + 1, s.threshold[c];
      (if n > t then s'.vmStat == s.vmStat + n + t / 2 && s'.diff == s.diff[c := 0 - t / 2]
       else s'.vmStat == s.vmStat && s'.diff == s.diff[c := n]) <==> n >= -t
  {
    hide Alone;
    AloneEnds(s, i, c, 1, 1);
    InvShape(s);
    var n, t := s.diff[c] + 1, s.threshold[c];
    if n < -t {
      assert Overflow(t, n, 1) == n + t / 2 < 0;
    }
  }

  /** The same of dec_zone_state and the upper end. */
  lemma AloneIsDecIff(s: Counter, i: nat, c: nat)
    requires Inv(s) && i < |s.tasks| && s.tasks[i].Idle? && c < |s.diff|
    ensures var s', n, t := Alone(s, i, c, -1, -1), s.diff[c] - 1, s.threshold[c];
      (if n < -t then s'.vmStat == s.vmStat + n - t / 2 && s'.diff == s.diff[c := t / 2]
       else s'.vmStat == s.vmStat && s'.diff == s.diff[c := n]) <==> n <= t
  {
    hide Alone;
    AloneEnds(s, i, c, -1, -1);
    InvShape(s);
    var n, t := s.diff[c] - 1, s.threshold[c];
    if n > t {
      assert Overflow(t, n, -1) == n - t / 2 > 0;
    }
  }
}
