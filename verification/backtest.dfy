/** The policy backtest (crates/core/src/backtest.rs): a candidate budget policy replayed
    over recorded calls, run by run in the order of their steps. Costs are unbounded. */
module Backtest {
  import opened Wrappers

  datatype Call = Call(run: string, step: nat, cost: int)

  datatype Policy = Policy(perRun: Option<int>, perStep: Option<int>, maxSteps: Option<nat>)

  datatype Report = Report(
    runsTotal: nat, runsAffected: nat, callsTotal: nat, callsBlocked: nat, spent: int, saved: int)

  function Sum(calls: seq<Call>): int {
    if calls == [] then 0 else Sum(calls[..|calls| - 1]) + calls[|calls| - 1].cost
  }

  function RunCalls(calls: seq<Call>, run: string): seq<Call> {
    if calls == [] then []
    else
      var c := calls[|calls| - 1];
      RunCalls(calls[..|calls| - 1], run) + if c.run == run then [c] else []
  }

  function RunsOf(calls: seq<Call>): set<string> { set c | c in calls :: c.run }

  /** The library's stable sort by step. */
  function Inserted(c: Call, sorted: seq<Call>): (r: seq<Call>)
    ensures multiset(r) == multiset([c]) + multiset(sorted)
  {
    if sorted == [] then [c]
    else if c.step <= sorted[0].step then [c] + sorted
    else
      assert sorted == [sorted[0]] + sorted[1..];
      [sorted[0]] + Inserted(c, sorted[1..])
  }

  function Sorted(calls: seq<Call>): (r: seq<Call>)
    ensures multiset(r) == multiset(calls)
  {
    if calls == [] then []
    else
      assert calls == [calls[0]] + calls[1..];
      Inserted(calls[0], Sorted(calls[1..]))
  }

  /** What is known of one run after some of its calls. What was let through is `steps`
      calls costing `running`. */
  datatype Tally = Tally(running: int, steps: nat, stopped: bool, affected: bool, blocked: nat, saved: int)

  const NO_TALLY := Tally(0, 0, false, false, 0, 0)

  function Blocked(t: Tally, c: Call): Tally {
    t.(blocked := t.blocked + 1, saved := t.saved + c.cost, affected := true)
  }

  /** The call, or the run's spend with it, passes a limit that stops the run. */
  predicate Stops(policy: Policy, t: Tally, c: Call) {
    || (policy.maxSteps.Some? && t.steps >= policy.maxSteps.value)
    || (policy.perRun.Some? && t.running + c.cost > policy.perRun.value)
  }

  function Counted(policy: Policy, t: Tally, c: Call): Tally {
    if t.stopped then Blocked(t, c)
    else if Stops(policy, t, c) then Blocked(t, c).(stopped := true)
    else if policy.perStep.Some? && c.cost > policy.perStep.value then Blocked(t, c)
    else t.(running := t.running + c.cost, steps := t.steps + 1)
  }

  function Tallied(policy: Policy, list: seq<Call>): Tally {
    if list == [] then NO_TALLY else Counted(policy, Tallied(policy, list[..|list| - 1]), list[|list| - 1])
  }

  function RunTally(calls: seq<Call>, policy: Policy, run: string): Tally {
    Tallied(policy, Sorted(RunCalls(calls, run)))
  }

  // -------------------------------------------------------------- all runs together

  /** Totals over a set of runs. */
  datatype Totals = Totals(affected: nat, blocked: nat, saved: int, steps: nat, running: int, calls: nat, spent: int)

  const NO_TOTALS := Totals(0, 0, 0, 0, 0, 0, 0)

  function Plus(s: Totals, t: Tally, list: seq<Call>): Totals {
    Totals(s.affected + (if t.affected then 1 else 0), s.blocked + t.blocked, s.saved + t.saved,
           s.steps + t.steps, s.running + t.running, s.calls + |list|, s.spent + Sum(list))
  }

  ghost function Over(calls: seq<Call>, policy: Policy, runs: set<string>): Totals
    decreases runs
  {
    if runs == {} then NO_TOTALS
    else
      var run :| run in runs;
      Plus(Over(calls, policy, runs - {run}), RunTally(calls, policy, run), RunCalls(calls, run))
  }

  /** In whichever order the runs are taken. */
  lemma {:induction false} TakeRun(calls: seq<Call>, policy: Policy, runs: set<string>, run: string)
    requires run in runs
    ensures Over(calls, policy, runs)
         == Plus(Over(calls, policy, runs - {run}), RunTally(calls, policy, run), RunCalls(calls, run))
    decreases runs
  {
    hide RunTally, RunCalls, Sum;
    var first :| first in runs && Over(calls, policy, runs)
      == Plus(Over(calls, policy, runs - {first}), RunTally(calls, policy, first), RunCalls(calls, first));
    if first != run {
      assert runs - {first} - {run} == runs - {run} - {first};
      TakeRun(calls, policy, runs - {first}, run);
      TakeRun(calls, policy, runs - {run}, first);
      PlusCommutes(Over(calls, policy, runs - {run} - {first}),
        RunTally(calls, policy, run), RunCalls(calls, run), RunTally(calls, policy, first), RunCalls(calls, first));
    }
  }

  lemma PlusCommutes(s: Totals, t: Tally, list: seq<Call>, u: Tally, more: seq<Call>)
    ensures Plus(Plus(s, t, list), u, more) == Plus(Plus(s, u, more), t, list)
  {
    hide Sum;
  }

  function Reported(calls: seq<Call>, t: Totals): Report {
    Report(|RunsOf(calls)|, t.affected, |calls|, t.blocked, Sum(calls), t.saved)
  }

  /** The report: every call counted, every run replayed. */
  ghost function Replayed(calls: seq<Call>, policy: Policy): Report {
    Reported(calls, Over(calls, policy, RunsOf(calls)))
  }

  method ReplayPolicy(calls: seq<Call>, policy: Policy) returns (report: Report)
    ensures report == Replayed(calls, policy)
  {
    hide RunTally, Over, Sum, RunCalls, RunsOf, Tallied, Sorted;
    var byRun := GroupByRun(calls);
    var spent := SumCosts(calls);
    report := Report(|byRun|, 0, |calls|, 0, spent, 0);
    var left := byRun.Keys;
    ghost var done: set<string> := {};
    NothingDone(calls, policy);
    while left != {}
      invariant done + left == RunsOf(calls) == byRun.Keys && done !! left
      invariant report == Reported(calls, Over(calls, policy, done))
      decreases |left|
    {
      var run :| run in left;
      OneMoreRun(calls, policy, done, run);
      report := ReplayRun(report, Sorted(byRun[run]), policy);
      left := left - {run};
      done := done + {run};
    }
    assert done == RunsOf(calls);
  }

  lemma NothingDone(calls: seq<Call>, policy: Policy)
    ensures Over(calls, policy, {}) == NO_TOTALS
  {
  }

  lemma OneMoreRun(calls: seq<Call>, policy: Policy, done: set<string>, run: string)
    requires run !in done
    ensures var t := Tallied(policy, Sorted(RunCalls(calls, run)));
            Over(calls, policy, done + {run}) == Plus(Over(calls, policy, done), t, RunCalls(calls, run))
  {
    TakeRun(calls, policy, done + {run}, run);
    assert done + {run} - {run} == done;
  }

  method GroupByRun(calls: seq<Call>) returns (byRun: map<string, seq<Call>>)
    ensures byRun.Keys == RunsOf(calls)
    ensures forall run :: run in byRun ==> byRun[run] == RunCalls(calls, run)
  {
    byRun := map[];
    for i := 0 to |calls|
      invariant byRun.Keys == RunsOf(calls[..i])
      invariant forall run :: run in byRun ==> byRun[run] == RunCalls(calls[..i], run)
    {
      var c := calls[i];
      assert calls[..i + 1][..i] == calls[..i];
      assert calls[..i + 1] == calls[..i] + [c];
      NotYetSeen(calls[..i], c.run);
      byRun := byRun[c.run := (if c.run in byRun then byRun[c.run] else []) + [c]];
    }
    assert calls[..|calls|] == calls;
  }

  lemma {:induction false} NotYetSeen(calls: seq<Call>, run: string)
    ensures run !in RunsOf(calls) ==> RunCalls(calls, run) == []
  {
    if calls != [] {
      NotYetSeen(calls[..|calls| - 1], run);
      assert calls[|calls| - 1] in calls;
    }
  }

  method SumCosts(calls: seq<Call>) returns (s: int)
    ensures s == Sum(calls)
  {
    s := 0;
    for i := 0 to |calls|
      invariant s == Sum(calls[..i])
    {
      assert calls[..i + 1][..i] == calls[..i];
      s := s + calls[i].cost;
    }
    assert calls[..|calls|] == calls;
  }

  method ReplayRun(before: Report, list: seq<Call>, policy: Policy) returns (report: Report)
    ensures var t := Tallied(policy, list);
            report == before.(runsAffected := before.runsAffected + if t.affected then 1 else 0,
                              callsBlocked := before.callsBlocked + t.blocked, saved := before.saved + t.saved)
  {
    report := before;
    var running, steps, stopped, affected := 0, 0, false, false;
    for i := 0 to |list|
      invariant var t := Tallied(policy, list[..i]);
                && running == t.running && steps == t.steps && stopped == t.stopped && affected == t.affected
                && report == before.(callsBlocked := before.callsBlocked + t.blocked, saved := before.saved + t.saved)
    {
      var c := list[i];
      assert list[..i + 1][..i] == list[..i];
      if stopped {
        report := report.(callsBlocked := report.callsBlocked + 1, saved := report.saved + c.cost);
        affected := true;
        continue;
      }
      if policy.maxSteps.Some? && steps >= policy.maxSteps.value {
        stopped := true;
        report := report.(callsBlocked := report.callsBlocked + 1, saved := report.saved + c.cost);
        affected := true;
        continue;
      }
      if policy.perRun.Some? && running + c.cost > policy.perRun.value {
        stopped := true;
        report := report.(callsBlocked := report.callsBlocked + 1, saved := report.saved + c.cost);
        affected := true;
        continue;
      }
      if policy.perStep.Some? && c.cost > policy.perStep.value {
        report := report.(callsBlocked := report.callsBlocked + 1, saved := report.saved + c.cost);
        affected := true;
        continue;
      }
      running := running + c.cost;
      steps := steps + 1;
    }
    assert list[..|list|] == list;
    if affected {
      report := report.(runsAffected := report.runsAffected + 1);
    }
  }

  // ------------------------------------------------------------------- conservation

  /** Of one run: nothing is counted twice or lost, the limits hold of what is let through,
      and the run is affected exactly when a call is blocked. */
  lemma {:induction false} RunIsConserved(policy: Policy, list: seq<Call>)
    ensures var t := Tallied(policy, list);
            && t.blocked + t.steps == |list|
            && t.saved + t.running == Sum(list)
            && (t.affected <==> t.blocked > 0)
            && (policy.perRun.Some? && t.steps > 0 ==> t.running <= policy.perRun.value)
            && (policy.maxSteps.Some? ==> t.steps <= policy.maxSteps.value)
            && (policy.perStep.Some? ==> t.running <= t.steps * policy.perStep.value)
  {
    if policy.perStep.Some? { StepsAreWithin(policy, list); }
    if list != [] {
      RunIsConserved(policy, list[..|list| - 1]);
    }
  }

  lemma {:induction false} StepsAreWithin(policy: Policy, list: seq<Call>)
    requires policy.perStep.Some?
    ensures var t := Tallied(policy, list); t.running <= t.steps * policy.perStep.value
  {
    if list != [] {
      StepsAreWithin(policy, list[..|list| - 1]);
      var n := Tallied(policy, list[..|list| - 1]).steps;
      assert (n + 1) * policy.perStep.value == n * policy.perStep.value + policy.perStep.value;
    }
  }

  /** How many of the first calls went through, by their marks. */
  function Through(marks: seq<bool>): nat {
    if marks == [] then 0 else Through(marks[..|marks| - 1]) + if marks[|marks| - 1] then 1 else 0
  }

  /** What the calls cost that went through, or that did not. */
  function CostOf(list: seq<Call>, marks: seq<bool>, mark: bool): int
    requires |marks| <= |list|
  {
    if marks == [] then 0
    else
      CostOf(list, marks[..|marks| - 1], mark)
      + if marks[|marks| - 1] == mark then list[|marks| - 1].cost else 0
  }

  /** The call at `i` would pass the step limit, or the run's spend with it the budget. */
  ghost predicate Passes(policy: Policy, list: seq<Call>, marks: seq<bool>, i: nat)
    requires i < |list| && i <= |marks|
  {
    || (policy.maxSteps.Some? && Through(marks[..i]) >= policy.maxSteps.value)
    || (policy.perRun.Some? && CostOf(list, marks[..i], true) + list[i].cost > policy.perRun.value)
  }

  /** A call goes through if and only if no call so far, it included, passes a limit of the run,
      and it passes no limit of its own. */
  ghost predicate IsReplay(policy: Policy, list: seq<Call>, marks: seq<bool>) {
    |marks| == |list|
    && forall i :: 0 <= i < |list| ==>
         (marks[i] <==> (forall j :: 0 <= j <= i ==> !Passes(policy, list, marks, j))
                        && (policy.perStep.Some? ==> list[i].cost <= policy.perStep.value))
  }

  /** The tally counts what the marks say. */
  ghost predicate Counts(policy: Policy, list: seq<Call>, marks: seq<bool>, t: Tally)
    requires |marks| == |list|
  {
    && t.steps == Through(marks) && t.running == CostOf(list, marks, true)
    && t.blocked == |list| - Through(marks) && t.saved == CostOf(list, marks, false)
    && (t.stopped <==> exists j :: 0 <= j < |list| && Passes(policy, list, marks, j))
    && (t.affected <==> Through(marks) < |list|)
  }

  /** Exactly the calls that a limit stops are blocked, and exactly those are counted so. */
  lemma {:induction false} TallyIsReplay(policy: Policy, list: seq<Call>) returns (marks: seq<bool>)
    ensures IsReplay(policy, list, marks) && Counts(policy, list, marks, Tallied(policy, list))
  {
    marks := [];
    if list != [] {
      hide IsReplay, Counts, Counted;
      var front, c := list[..|list| - 1], list[|list| - 1];
      var before := TallyIsReplay(policy, front);
      marks := CountedIsReplay(policy, front, c, before, Tallied(policy, front));
      assert list == front + [c];
    }
  }

  lemma CountedIsReplay(policy: Policy, front: seq<Call>, c: Call, before: seq<bool>, t: Tally) returns (marks: seq<bool>)
    requires IsReplay(policy, front, before) && Counts(policy, front, before, t)
    ensures IsReplay(policy, front + [c], marks) && Counts(policy, front + [c], marks, Counted(policy, t, c))
  {
    hide Passes, Through, CostOf, IsReplay;
    var goes := !t.stopped && !Stops(policy, t, c) && (policy.perStep.Some? ==> c.cost <= policy.perStep.value);
    marks := before + [goes];
    LengthOf(policy, front, before);
    ReplayOneMore(policy, front, c, before, goes);
    ThroughAtMost(before);
    var list := front + [c];
    if t.stopped {
      var j :| 0 <= j < |front| && Passes(policy, front, before, j);
      assert Passes(policy, list, marks, j);
    } else {
      assert forall j :: 0 <= j < |front| ==> !Passes(policy, list, marks, j);
      assert Passes(policy, list, marks, |front|) <==> Stops(policy, t, c);
    }
  }

  lemma LengthOf(policy: Policy, list: seq<Call>, marks: seq<bool>)
    ensures IsReplay(policy, list, marks) ==> |marks| == |list|
  {
  }

  lemma {:induction false} ThroughAtMost(marks: seq<bool>)
    ensures Through(marks) <= |marks|
  {
    if marks != [] { ThroughAtMost(marks[..|marks| - 1]); }
  }

  lemma {:induction false} CostOfFront(front: seq<Call>, c: Call, marks: seq<bool>, mark: bool)
    requires |marks| <= |front|
    ensures CostOf(front + [c], marks, mark) == CostOf(front, marks, mark)
  {
    if marks != [] { CostOfFront(front, c, marks[..|marks| - 1], mark); }
  }

  lemma ReplayOneMore(policy: Policy, front: seq<Call>, c: Call, before: seq<bool>, goes: bool)
    requires IsReplay(policy, front, before)
    ensures var list, marks := front + [c], before + [goes];
            && Through(marks) == Through(before) + (if goes then 1 else 0)
            && CostOf(list, marks, true) == CostOf(front, before, true) + (if goes then c.cost else 0)
            && CostOf(list, marks, false) == CostOf(front, before, false) + (if goes then 0 else c.cost)
            && (forall j :: 0 <= j < |front| ==> Passes(policy, list, marks, j) == Passes(policy, front, before, j))
            && (Passes(policy, list, marks, |front|) <==>
                  || (policy.maxSteps.Some? && Through(before) >= policy.maxSteps.value)
                  || (policy.perRun.Some? && CostOf(front, before, true) + c.cost > policy.perRun.value))
            && (IsReplay(policy, list, marks) <==>
                  (goes <==> (forall j :: 0 <= j < |list| ==> !Passes(policy, list, marks, j))
                             && (policy.perStep.Some? ==> c.cost <= policy.perStep.value)))
  {
    var list, marks := front + [c], before + [goes];
    assert marks[..|before|] == before;
    CostOfFront(front, c, before, true);
    CostOfFront(front, c, before, false);
    forall j | 0 <= j < |front| ensures Passes(policy, list, marks, j) == Passes(policy, front, before, j) {
      assert marks[..j] == before[..j];
      CostOfFront(front, c, before[..j], true);
    }
    hide Passes, Through, CostOf;
    forall i | 0 <= i < |front|
      ensures marks[i] == before[i] && list[i] == front[i]
      ensures (forall j :: 0 <= j <= i ==> !Passes(policy, list, marks, j)) <==>
              (forall j :: 0 <= j <= i ==> !Passes(policy, front, before, j))
    {
    }
  }

  lemma {:induction false} SumAppend(a: seq<Call>, b: seq<Call>)
    ensures Sum(a + b) == Sum(a) + Sum(b)
  {
    if b == [] {
      assert a + b == a;
    } else {
      assert (a + b)[..|a + b| - 1] == a + b[..|b| - 1];
      SumAppend(a, b[..|b| - 1]);
    }
  }

  lemma SumOfOne(c: Call)
    ensures Sum([c]) == c.cost
  {
    assert [c][..0] == [];
  }

  lemma {:induction false} InsertedSum(c: Call, sorted: seq<Call>)
    ensures Sum(Inserted(c, sorted)) == c.cost + Sum(sorted) && |Inserted(c, sorted)| == 1 + |sorted|
  {
    SumOfOne(c);
    if sorted == [] {
    } else if c.step <= sorted[0].step {
      SumAppend([c], sorted);
    } else {
      InsertedSum(c, sorted[1..]);
      assert sorted == [sorted[0]] + sorted[1..];
      SumAppend([sorted[0]], sorted[1..]);
      SumAppend([sorted[0]], Inserted(c, sorted[1..]));
    }
  }

  lemma SortedMore(calls: seq<Call>)
    requires calls != []
    ensures calls == [calls[0]] + calls[1..] && Sorted(calls) == Inserted(calls[0], Sorted(calls[1..]))
  {
    hide Inserted;
  }

  lemma {:induction false} SortedSum(calls: seq<Call>)
    ensures Sum(Sorted(calls)) == Sum(calls) && |Sorted(calls)| == |calls|
  {
    if calls != [] {
      hide Inserted, Sum, Sorted;
      var c, rest := calls[0], calls[1..];
      SortedMore(calls);
      SumOfOne(c);
      SortedSum(rest);
      InsertedSum(c, Sorted(rest));
      SumAppend([c], rest);
    }
  }

  /** The runs' calls are the calls. */
  lemma {:induction false} RunsHoldEveryCall(calls: seq<Call>, policy: Policy, runs: set<string>)
    requires RunsOf(calls) <= runs
    ensures Over(calls, policy, runs).calls == |calls| && Over(calls, policy, runs).spent == Sum(calls)
    decreases |calls|
  {
    if calls == [] {
      NothingOver(policy, runs);
    } else {
      hide RunTally, Over, Sum, RunCalls;
      var front, c := calls[..|calls| - 1], calls[|calls| - 1];
      assert forall d :: d in front ==> d in calls;
      assert c in calls && c.run in runs;
      RunsHoldEveryCall(front, policy, runs);
      TakeRun(calls, policy, runs, c.run);
      TakeRun(front, policy, runs, c.run);
      OtherRuns(calls, policy, runs - {c.run});
    }
  }

  lemma {:induction false} NothingOver(policy: Policy, runs: set<string>)
    ensures Over([], policy, runs).calls == 0 && Over([], policy, runs).spent == 0
    decreases runs
  {
    if runs != {} {
      var run :| run in runs;
      TakeRun([], policy, runs, run);
      NothingOver(policy, runs - {run});
    }
  }

  lemma {:induction false} OtherRuns(calls: seq<Call>, policy: Policy, runs: set<string>)
    requires calls != [] && calls[|calls| - 1].run !in runs
    ensures var front := calls[..|calls| - 1];
            Over(calls, policy, runs).calls == Over(front, policy, runs).calls
            && Over(calls, policy, runs).spent == Over(front, policy, runs).spent
    decreases runs
  {
    if runs != {} {
      hide RunTally, Sum;
      var run :| run in runs;
      TakeRun(calls, policy, runs, run);
      TakeRun(calls[..|calls| - 1], policy, runs, run);
      assert RunCalls(calls, run) == RunCalls(calls[..|calls| - 1], run) + [] == RunCalls(calls[..|calls| - 1], run);
      OtherRuns(calls, policy, runs - {run});
    }
  }

  lemma {:induction false} TotalsAreConserved(calls: seq<Call>, policy: Policy, runs: set<string>)
    ensures var t := Over(calls, policy, runs);
            t.blocked + t.steps == t.calls && t.saved + t.running == t.spent && t.affected <= |runs|
            && t.affected <= t.blocked
    decreases runs
  {
    if runs != {} {
      hide Tallied, Sum, RunCalls, Sorted;
      var run :| run in runs;
      TakeRun(calls, policy, runs, run);
      TotalsAreConserved(calls, policy, runs - {run});
      RunIsConserved(policy, Sorted(RunCalls(calls, run)));
      SortedSum(RunCalls(calls, run));
      assert |runs| == |runs - {run}| + 1;
    }
  }

  /** Of the report: blocked and let-through calls make all of them, saved and let-through
      spend make all of it. */
  lemma ReportIsConserved(calls: seq<Call>, policy: Policy)
    ensures var r, through := Replayed(calls, policy), Over(calls, policy, RunsOf(calls));
            && r.callsBlocked + through.steps == r.callsTotal
            && r.saved + through.running == r.spent
            && r.runsAffected <= r.runsTotal && r.runsAffected <= r.callsBlocked
  {
    hide Over, Sum;
    RunsHoldEveryCall(calls, policy, RunsOf(calls));
    TotalsAreConserved(calls, policy, RunsOf(calls));
  }

  // --------------------------------------------------------- the order of the trace

  /** Calls of one run and step cost the same. */
  ghost predicate StepsCostAlike(calls: seq<Call>) {
    forall c, d :: c in calls && d in calls && c.run == d.run && c.step == d.step ==> c.cost == d.cost
  }

  predicate Rising(calls: seq<Call>) { forall i, j :: 0 <= i < j < |calls| ==> calls[i].step <= calls[j].step }

  lemma {:induction false} InsertedRises(c: Call, sorted: seq<Call>)
    requires Rising(sorted)
    ensures Rising(Inserted(c, sorted))
  {
    if sorted != [] && c.step > sorted[0].step {
      InsertedRises(c, sorted[1..]);
      var rest := Inserted(c, sorted[1..]);
      InsertedIsAbove(c, sorted[1..], sorted[0].step, rest);
      RisesAfter(sorted[0], rest);
    }
  }

  lemma RisesAfter(first: Call, rest: seq<Call>)
    requires Rising(rest) && forall j :: 0 <= j < |rest| ==> first.step <= rest[j].step
    ensures Rising([first] + rest)
  {
  }

  lemma InsertedIsAbove(c: Call, sorted: seq<Call>, least: nat, rest: seq<Call>)
    requires least <= c.step && (forall i :: 0 <= i < |sorted| ==> least <= sorted[i].step) && rest == Inserted(c, sorted)
    ensures forall j :: 0 <= j < |rest| ==> least <= rest[j].step
  {
    hide Inserted;
    forall j | 0 <= j < |rest| ensures least <= rest[j].step {
      assert rest[j] in multiset(rest);
      assert rest[j] == c || rest[j] in sorted;
    }
  }

  lemma {:induction false} SortedRises(calls: seq<Call>)
    ensures Rising(Sorted(calls))
  {
    if calls != [] {
      hide Rising, Inserted;
      SortedRises(calls[1..]);
      InsertedRises(calls[0], Sorted(calls[1..]));
    }
  }

  /** Sorted by step, there is one order of the same calls, up to equal ones. */
  lemma {:induction false} RisingIsUnique(a: seq<Call>, b: seq<Call>)
    requires Rising(a) && Rising(b) && multiset(a) == multiset(b) && OneRun(a) && StepsCostAlike(a)
    ensures a == b
    decreases |a|
  {
    assert |a| == |multiset(a)| == |multiset(b)| == |b|;
    if a != [] {
      LastsAgree(a, b);
      WithoutLast(a);
      WithoutLast(b);
      hide Rising, OneRun, StepsCostAlike;
      RisingIsUnique(a[..|a| - 1], b[..|b| - 1]);
    }
  }

  ghost predicate OneRun(calls: seq<Call>) { forall c, d :: c in calls && d in calls ==> c.run == d.run }

  lemma LastsAgree(a: seq<Call>, b: seq<Call>)
    requires Rising(a) && Rising(b) && multiset(a) == multiset(b) && a != [] && b != []
    requires OneRun(a) && StepsCostAlike(a)
    ensures a[|a| - 1] == b[|b| - 1]
  {
    hide Rising;
    var x, y := a[|a| - 1], b[|b| - 1];
    assert x in multiset(b) && y in multiset(a);
    LastIsHighest(b, x);
    LastIsHighest(a, y);
  }

  lemma WithoutLast(a: seq<Call>)
    requires a != []
    ensures multiset(a[..|a| - 1]) == multiset(a) - multiset{a[|a| - 1]} && a == a[..|a| - 1] + [a[|a| - 1]]
    ensures Rising(a) ==> Rising(a[..|a| - 1])
    ensures OneRun(a) && StepsCostAlike(a) ==> OneRun(a[..|a| - 1]) && StepsCostAlike(a[..|a| - 1])
  {
    assert a == a[..|a| - 1] + [a[|a| - 1]];
  }

  lemma LastIsHighest(a: seq<Call>, c: Call)
    ensures Rising(a) && c in a ==> c.step <= a[|a| - 1].step
  {
  }

  lemma {:induction false} RunCallsCount(calls: seq<Call>, run: string, c: Call)
    ensures multiset(RunCalls(calls, run))[c] == if c.run == run then multiset(calls)[c] else 0
  {
    if calls != [] {
      RunCallsCount(calls[..|calls| - 1], run, c);
      assert calls == calls[..|calls| - 1] + [calls[|calls| - 1]];
    }
  }

  lemma RunCallsPermute(a: seq<Call>, b: seq<Call>, run: string)
    requires multiset(a) == multiset(b)
    ensures multiset(RunCalls(a, run)) == multiset(RunCalls(b, run))
  {
    forall c ensures multiset(RunCalls(a, run))[c] == multiset(RunCalls(b, run))[c] {
      RunCallsCount(a, run, c);
      RunCallsCount(b, run, c);
    }
  }

  lemma RunCostsAlike(calls: seq<Call>, run: string, sorted: seq<Call>)
    requires StepsCostAlike(calls) && multiset(sorted) == multiset(RunCalls(calls, run))
    ensures StepsCostAlike(sorted) && OneRun(sorted)
  {
    forall c | c in sorted ensures c in calls && c.run == run {
      assert c in multiset(sorted);
      RunCallsCount(calls, run, c);
      assert c in multiset(calls);
    }
  }

  lemma {:induction false} OverPermutes(a: seq<Call>, b: seq<Call>, policy: Policy, runs: set<string>)
    requires multiset(a) == multiset(b) && StepsCostAlike(a)
    ensures Over(a, policy, runs).affected == Over(b, policy, runs).affected
    ensures Over(a, policy, runs).blocked == Over(b, policy, runs).blocked
    ensures Over(a, policy, runs).saved == Over(b, policy, runs).saved
    ensures Over(a, policy, runs).spent == Over(b, policy, runs).spent
    decreases runs
  {
    if runs != {} {
      hide RunTally, Sum, RunCalls, StepsCostAlike;
      var run :| run in runs;
      TakeRun(a, policy, runs, run);
      TakeRun(b, policy, runs, run);
      OverPermutes(a, b, policy, runs - {run});
      SameRun(a, b, policy, run);
    }
  }

  lemma SameRun(a: seq<Call>, b: seq<Call>, policy: Policy, run: string)
    requires multiset(a) == multiset(b) && StepsCostAlike(a)
    ensures RunTally(a, policy, run) == RunTally(b, policy, run)
    ensures Sum(RunCalls(a, run)) == Sum(RunCalls(b, run))
  {
    hide Tallied, Sum, RunCalls, Sorted, StepsCostAlike, Rising, OneRun;
    RunCallsPermute(a, b, run);
    RunCostsAlike(a, run, Sorted(RunCalls(a, run)));
    SortedRises(RunCalls(a, run));
    SortedRises(RunCalls(b, run));
    RisingIsUnique(Sorted(RunCalls(a, run)), Sorted(RunCalls(b, run)));
    SortedSum(RunCalls(a, run));
    SortedSum(RunCalls(b, run));
  }

  /** The report does not depend on the order of the trace, when calls of one run and step
      cost the same. */
  lemma OrderDoesNotShow(a: seq<Call>, b: seq<Call>, policy: Policy)
    requires multiset(a) == multiset(b) && StepsCostAlike(a)
    ensures Replayed(a, policy) == Replayed(b, policy)
  {
    hide Over, Sum, StepsCostAlike;
    assert |a| == |multiset(a)| == |multiset(b)| == |b|;
    forall c ensures c in a <==> c in b {
      assert c in multiset(a) <==> c in multiset(b);
    }
    assert RunsOf(a) == RunsOf(b);
    OverPermutes(a, b, policy, RunsOf(a));
    RunsHoldEveryCall(a, policy, RunsOf(a));
    RunsHoldEveryCall(b, policy, RunsOf(b));
  }

  // ... and otherwise two orders show under some limit of steps

  function StepLimit(m: nat): Policy { Policy(None, None, Some(m)) }

  /** Under a limit of steps alone everything past it is saved. */
  lemma {:induction false} SavedPastTheLimit(m: nat, list: seq<Call>)
    ensures var t := Tallied(StepLimit(m), list);
            && t.steps == (if |list| <= m then |list| else m) && (t.stopped <==> |list| > m)
            && t.saved == if |list| <= m then 0 else Sum(list[m..])
  {
    if list != [] {
      var front := list[..|list| - 1];
      SavedPastTheLimit(m, front);
      if |list| > m {
        assert list[m..][..|list| - m - 1] == front[m..];
      }
    }
  }

  lemma {:induction false} RunCallsAppend(a: seq<Call>, b: seq<Call>, run: string)
    ensures RunCalls(a + b, run) == RunCalls(a, run) + RunCalls(b, run)
  {
    if b == [] {
      assert a + b == a;
    } else {
      assert (a + b)[..|a + b| - 1] == a + b[..|b| - 1];
      RunCallsAppend(a, b[..|b| - 1], run);
    }
  }

  /** How many of a sorted list come before a step. */
  function Earlier(sorted: seq<Call>, step: nat): (k: nat)
    ensures k <= |sorted|
  {
    if sorted == [] || step <= sorted[0].step then 0 else 1 + Earlier(sorted[1..], step)
  }

  lemma PutAfterFirst<T>(first: T, rest: seq<T>, x: T, k: nat)
    requires k <= |rest|
    ensures [first] + (rest[..k] + [x] + rest[k..]) == ([first] + rest)[..k + 1] + [x] + ([first] + rest)[k + 1..]
  {
  }

  lemma {:induction false} InsertedAt(c: Call, sorted: seq<Call>)
    ensures var k := Earlier(sorted, c.step); Inserted(c, sorted) == sorted[..k] + [c] + sorted[k..]
  {
    if sorted != [] && c.step > sorted[0].step {
      var first, rest := sorted[0], sorted[1..];
      InsertedAt(c, rest);
      InsertedBehind(c, first, rest);
      PutAfterFirst(first, rest, c, Earlier(rest, c.step));
      assert [first] + rest == sorted;
      hide Inserted, Earlier;
    }
  }

  lemma InsertedBehind(c: Call, first: Call, rest: seq<Call>)
    requires c.step > first.step
    ensures Inserted(c, [first] + rest) == [first] + Inserted(c, rest)
    ensures Earlier([first] + rest, c.step) == 1 + Earlier(rest, c.step)
  {
    assert ([first] + rest)[1..] == rest;
  }

  lemma {:induction false} EarlierOfInserted(c: Call, sorted: seq<Call>)
    ensures Earlier(Inserted(c, sorted), c.step) == Earlier(sorted, c.step)
  {
    if sorted != [] && c.step > sorted[0].step { EarlierOfInserted(c, sorted[1..]); }
  }

  lemma PutBefore<T>(s: seq<T>, k: nat, x: T, y: T)
    requires k <= |s|
    ensures var t := s[..k] + [y] + s[k..]; t[..k] + [x] + t[k..] == s[..k] + [x, y] + s[k..]
  {
  }

  lemma TwoInserted(c: Call, d: Call, others: seq<Call>)
    requires c.step == d.step
    ensures var k := Earlier(others, c.step);
            Inserted(c, Inserted(d, others)) == others[..k] + [c, d] + others[k..]
  {
    hide Inserted, Earlier;
    InsertedAt(d, others);
    EarlierOfInserted(d, others);
    InsertedAt(c, Inserted(d, others));
    PutBefore(others, Earlier(others, c.step), c, d);
  }

  lemma SortedTwoMore(c: Call, d: Call, rest: seq<Call>)
    ensures Sorted([c, d] + rest) == Inserted(c, Inserted(d, Sorted(rest)))
  {
    hide Inserted;
    assert ([c, d] + rest)[1..] == [d] + rest && ([d] + rest)[1..] == rest;
    assert Sorted([d] + rest) == Inserted(d, Sorted(rest));
  }

  /** Put first in the trace, two calls of one run and step stay in their order. */
  lemma TwoFirst(c: Call, d: Call, rest: seq<Call>)
    requires c.run == d.run && c.step == d.step
    ensures var others := Sorted(RunCalls(rest, c.run));
            var k := Earlier(others, c.step);
            Sorted(RunCalls([c, d] + rest, c.run)) == others[..k] + [c, d] + others[k..]
    ensures forall run :: run != c.run ==> RunCalls([c, d] + rest, run) == RunCalls(rest, run)
  {
    hide Inserted, Earlier, RunCalls, Sorted;
    forall run ensures RunCalls([c, d] + rest, run) == (if run == c.run then [c, d] else []) + RunCalls(rest, run) {
      RunCallsAppend([c, d], rest, run);
      TwoOfARun(c, d, run);
    }
    SortedTwoMore(c, d, RunCalls(rest, c.run));
    TwoInserted(c, d, Sorted(RunCalls(rest, c.run)));
  }

  lemma TwoOfARun(c: Call, d: Call, run: string)
    requires c.run == d.run
    ensures RunCalls([c, d], run) == if run == c.run then [c, d] else []
  {
    assert [c, d][..1] == [c] && [c][..0] == [];
    assert RunCalls([c], run) == if run == c.run then [c] else [];
  }

  lemma SavedOverAll(calls: seq<Call>, policy: Policy)
    ensures Replayed(calls, policy).saved == Over(calls, policy, RunsOf(calls)).saved
  {
    hide Over, RunsOf, Sum;
  }

  /** What two traces save differs by what they save of the only run they differ in. */
  lemma {:induction false} SavedApart(a: seq<Call>, b: seq<Call>, policy: Policy, runs: set<string>, run: string)
    requires forall r :: r != run ==> RunCalls(a, r) == RunCalls(b, r)
    ensures Over(a, policy, runs).saved - Over(b, policy, runs).saved
         == if run in runs then RunTally(a, policy, run).saved - RunTally(b, policy, run).saved else 0
    decreases runs
  {
    if runs != {} {
      hide Tallied, Sum, RunCalls, Sorted;
      var r :| r in runs;
      TakeRun(a, policy, runs, r);
      TakeRun(b, policy, runs, r);
      SavedApart(a, b, policy, runs - {r}, run);
    }
  }

  /** Of a run's other calls, those of a step and later. */
  function Later(rest: seq<Call>, run: string, step: nat): seq<Call> {
    var others := Sorted(RunCalls(rest, run));
    others[Earlier(others, step)..]
  }

  /** The limit that lets the first of two calls of the step through and stops the other. */
  function Between(rest: seq<Call>, run: string, step: nat): Policy {
    StepLimit(Earlier(Sorted(RunCalls(rest, run)), step) + 1)
  }

  lemma SavedOfSwapped(c: Call, d: Call, rest: seq<Call>, run: string, step: nat)
    requires c.run == run == d.run && c.step == step == d.step
    ensures RunTally([c, d] + rest, Between(rest, run, step), run).saved == d.cost + Sum(Later(rest, run, step))
  {
    var others := Sorted(RunCalls(rest, run));
    var k := Earlier(others, step);
    hide Tallied, Sum, RunCalls, Sorted, Earlier;
    TwoFirst(c, d, rest);
    SavedOfTwo(others[..k], c, d, others[k..]);
  }

  lemma SavedShows(a: seq<Call>, b: seq<Call>, policy: Policy, run: string)
    requires RunsOf(a) == RunsOf(b) && run in RunsOf(a)
    requires forall r :: r != run ==> RunCalls(a, r) == RunCalls(b, r)
    requires RunTally(a, policy, run).saved != RunTally(b, policy, run).saved
    ensures Replayed(a, policy) != Replayed(b, policy)
  {
    hide RunTally, RunCalls, Over, RunsOf, Replayed;
    SavedApart(a, b, policy, RunsOf(a), run);
    SavedOverAll(a, policy);
    SavedOverAll(b, policy);
  }

  lemma OtherRunsSame(c: Call, d: Call, rest: seq<Call>)
    requires c.run == d.run && c.step == d.step
    ensures forall r :: r != c.run ==> RunCalls([c, d] + rest, r) == RunCalls([d, c] + rest, r)
  {
    hide RunCalls, Sorted, Earlier;
    TwoFirst(c, d, rest);
    TwoFirst(d, c, rest);
  }

  lemma SwappedShow(c: Call, d: Call, rest: seq<Call>)
    requires c.run == d.run && c.step == d.step && c.cost != d.cost
    ensures exists policy :: Replayed([c, d] + rest, policy) != Replayed([d, c] + rest, policy)
  {
    SameRuns(c, d, rest);
    OtherRunsSame(c, d, rest);
    hide RunTally, Sum, RunCalls, RunsOf, Replayed, Between, Later;
    SavedOfSwapped(c, d, rest, c.run, c.step);
    SavedOfSwapped(d, c, rest, c.run, c.step);
    SavedShows([c, d] + rest, [d, c] + rest, Between(rest, c.run, c.step), c.run);
  }

  lemma SameRuns(c: Call, d: Call, rest: seq<Call>)
    ensures RunsOf([c, d] + rest) == RunsOf([d, c] + rest) && c.run in RunsOf([c, d] + rest)
  {
    var a, b := [c, d] + rest, [d, c] + rest;
    assert a[0] == c;
    forall x ensures x in a <==> x in b {
      assert x in a <==> x == c || x == d || x in rest;
      assert x in b <==> x == c || x == d || x in rest;
    }
  }

  lemma AfterTwo<T>(before: seq<T>, c: T, d: T, more: seq<T>)
    ensures (before + [c, d] + more)[|before| + 1..] == [d] + more
  {
  }

  lemma SavedOfTwo(before: seq<Call>, c: Call, d: Call, more: seq<Call>)
    ensures Tallied(StepLimit(|before| + 1), before + [c, d] + more).saved == d.cost + Sum(more)
  {
    hide Tallied, Sum;
    SavedPastTheLimit(|before| + 1, before + [c, d] + more);
    AfterTwo(before, c, d, more);
    SumOfOne(d);
    SumAppend([d], more);
  }

  lemma TakeOne(calls: seq<Call>, c: Call) returns (rest: seq<Call>)
    requires c in calls
    ensures multiset(calls) == multiset{c} + multiset(rest)
  {
    var i :| 0 <= i < |calls| && calls[i] == c;
    rest := calls[..i] + calls[i + 1..];
    assert calls == calls[..i] + [c] + calls[i + 1..];
  }

  /** Two of a trace's calls, and the rest. */
  lemma TakeTwo(calls: seq<Call>, c: Call, d: Call) returns (rest: seq<Call>)
    requires c in calls && d in calls && c != d
    ensures multiset([c, d] + rest) == multiset(calls) == multiset([d, c] + rest)
  {
    var less := TakeOne(calls, c);
    assert multiset(calls)[d] > 0;
    rest := TakeOne(less, d);
  }

  ghost predicate NoOrderShows(calls: seq<Call>) {
    forall b, policy :: multiset(b) == multiset(calls) ==> Replayed(b, policy) == Replayed(calls, policy)
  }

  /** Under no policy does any order of a trace show, if and only if its calls of one run and
      step cost the same. */
  lemma OrderShowsInEqualSteps(calls: seq<Call>)
    ensures NoOrderShows(calls) <==> StepsCostAlike(calls)
  {
    hide Replayed;
    if StepsCostAlike(calls) {
      forall b, policy | multiset(b) == multiset(calls) ensures Replayed(b, policy) == Replayed(calls, policy) {
        OrderDoesNotShow(calls, b, policy);
      }
    } else {
      var c, d :| c in calls && d in calls && c.run == d.run && c.step == d.step && c.cost != d.cost;
      var rest := TakeTwo(calls, c, d);
      SwappedShow(c, d, rest);
      var policy :| Replayed([c, d] + rest, policy) != Replayed([d, c] + rest, policy);
    }
  }

  /** Two calls of one step: the order of the trace decides which one the budget stops. */
  lemma EqualStepsShowTheOrder()
    ensures Tallied(Policy(Some(2), None, None), Sorted([Call("r", 1, 2), Call("r", 1, 3)])).saved
         != Tallied(Policy(Some(2), None, None), Sorted([Call("r", 1, 3), Call("r", 1, 2)])).saved
  {
    var policy := Policy(Some(2), None, None);
    var a, b := Call("r", 1, 2), Call("r", 1, 3);
    TwoCalls(policy, a, b);
    TwoCalls(policy, b, a);
  }

  lemma TwoCalls(policy: Policy, a: Call, b: Call)
    requires a.step == b.step
    ensures Tallied(policy, Sorted([a, b])) == Counted(policy, Counted(policy, NO_TALLY, a), b)
  {
    assert [a, b][1..] == [b] && [b][1..] == [];
    assert Sorted([b]) == [b];
    assert Sorted([a, b]) == [a, b];
    assert [a, b][..1] == [a] && [a][..0] == [];
    assert Tallied(policy, [a]) == Counted(policy, NO_TALLY, a);
  }

  // ------------------------------------------------------------------- looser limits

  /** The run budget and the step limit are raised or dropped; the cap on a step stays. */
  predicate Looser(p: Policy, q: Policy) {
    && (q.perRun.None? || (p.perRun.Some? && p.perRun.value <= q.perRun.value))
    && (q.maxSteps.None? || (p.maxSteps.Some? && p.maxSteps.value <= q.maxSteps.value))
    && p.perStep == q.perStep
  }

  lemma {:induction false} LooserRun(p: Policy, q: Policy, list: seq<Call>)
    requires Looser(p, q) && forall c :: c in list ==> c.cost >= 0
    ensures var s, t := Tallied(p, list), Tallied(q, list);
            (!s.stopped ==> s == t) && t.saved <= s.saved && t.blocked <= s.blocked && (t.affected ==> s.affected)
  {
    if list != [] {
      assert list[|list| - 1] in list;
      LooserRun(p, q, list[..|list| - 1]);
      RunIsConserved(p, list);
      RunIsConserved(q, list);
    }
  }

  lemma {:induction false} LooserOver(calls: seq<Call>, p: Policy, q: Policy, runs: set<string>)
    requires Looser(p, q) && forall c :: c in calls ==> c.cost >= 0
    ensures var s, t := Over(calls, p, runs), Over(calls, q, runs);
            t.saved <= s.saved && t.blocked <= s.blocked && t.affected <= s.affected
    decreases runs
  {
    if runs != {} {
      hide Tallied, Sum, RunCalls, Sorted;
      var run :| run in runs;
      TakeRun(calls, p, runs, run);
      TakeRun(calls, q, runs, run);
      LooserOver(calls, p, q, runs - {run});
      var list := Sorted(RunCalls(calls, run));
      forall c | c in list ensures c.cost >= 0 {
        assert c in multiset(RunCalls(calls, run));
        RunCallsCount(calls, run, c);
        assert c in multiset(calls);
      }
      LooserRun(p, q, list);
    }
  }

  /** Where no call has a negative cost, raising the run budget or the step limit never
      saves more, and never blocks more calls or affects more runs. */
  lemma LooserNeverSavesMore(calls: seq<Call>, p: Policy, q: Policy)
    requires Looser(p, q) && forall c :: c in calls ==> c.cost >= 0
    ensures var r, s := Replayed(calls, p), Replayed(calls, q);
            s.saved <= r.saved && s.callsBlocked <= r.callsBlocked && s.runsAffected <= r.runsAffected
  {
    hide Over, Sum;
    LooserOver(calls, p, q, RunsOf(calls));
  }

  /** Of calls of one run: no looser limit ever saves more, if and only if none has a negative
      cost. One that has is seen by the step limit before it and the next. */
  lemma LooserSavesMoreByNegativeCosts(calls: seq<Call>)
    requires OneRun(calls)
    ensures (forall p, q :: Looser(p, q) ==> Replayed(calls, q).saved <= Replayed(calls, p).saved)
       <==> forall c :: c in calls ==> c.cost >= 0
  {
    hide Replayed, Sorted, OneRun;
    if forall c :: c in calls ==> c.cost >= 0 {
      forall p, q | Looser(p, q) ensures Replayed(calls, q).saved <= Replayed(calls, p).saved {
        LooserNeverSavesMore(calls, p, q);
      }
    } else {
      var c :| c in calls && c.cost < 0;
      var list := Sorted(calls);
      assert c in multiset(list);
      var m :| 0 <= m < |list| && list[m] == c;
      SavedOfOneRun(calls, StepLimit(m));
      SavedOfOneRun(calls, StepLimit(m + 1));
      SavedAtNeighbours(list, m);
      assert Looser(StepLimit(m), StepLimit(m + 1));
    }
  }

  lemma SavedAtNeighbours(list: seq<Call>, m: nat)
    requires m < |list|
    ensures Tallied(StepLimit(m), list).saved == list[m].cost + Tallied(StepLimit(m + 1), list).saved
  {
    SavedPastTheLimit(m, list);
    SavedPastTheLimit(m + 1, list);
    assert list[m..] == [list[m]] + list[m + 1..];
    SumOfOne(list[m]);
    SumAppend([list[m]], list[m + 1..]);
    if m + 1 == |list| { assert list[m + 1..] == []; }
  }

  lemma SavedOfOneRun(calls: seq<Call>, policy: Policy)
    requires OneRun(calls) && calls != []
    ensures Replayed(calls, policy).saved == Tallied(policy, Sorted(calls)).saved
  {
    var run := calls[0].run;
    assert calls[0] in calls;
    AllOfOneRun(calls, run);
    RunOfAll(calls, run);
    hide RunTally, RunsOf, OneRun, Over, Tallied, Sorted, RunCalls, Replayed;
    SavedOverAll(calls, policy);
    SavedOverOne(calls, policy, run);
    TallyOfAll(calls, policy, run);
  }

  lemma SavedOverOne(calls: seq<Call>, policy: Policy, run: string)
    ensures Over(calls, policy, {run}).saved == RunTally(calls, policy, run).saved
  {
    hide RunTally, Sum, RunCalls;
    var runs := {run};
    NothingDone(calls, policy);
    assert runs - {run} == {};
    hide Over;
    TakeRun(calls, policy, runs, run);
  }

  lemma TallyOfAll(calls: seq<Call>, policy: Policy, run: string)
    requires RunCalls(calls, run) == calls
    ensures RunTally(calls, policy, run) == Tallied(policy, Sorted(calls))
  {
  }

  lemma RunOfAll(calls: seq<Call>, run: string)
    requires calls != [] && forall c :: c in calls ==> c.run == run
    ensures RunsOf(calls) == {run}
  {
    assert calls[0] in calls;
  }

  lemma {:induction false} AllOfOneRun(calls: seq<Call>, run: string)
    requires forall c :: c in calls ==> c.run == run
    ensures RunCalls(calls, run) == calls
  {
    if calls != [] {
      AllOfOneRun(calls[..|calls| - 1], run);
      assert calls[|calls| - 1] in calls;
    }
  }

  /** A call of negative cost after the one that stops the run: the higher budget saves
      more. */
  lemma NegativeCostSavesMore()
    ensures var p, q := Policy(Some(4), None, None), Policy(Some(5), None, None);
            var list := [Call("r", 1, 5), Call("r", 2, -9)];
            Looser(p, q) && Tallied(p, list).saved < Tallied(q, list).saved
  {
    var p, q := Policy(Some(4), None, None), Policy(Some(5), None, None);
    var a, b := Call("r", 1, 5), Call("r", 2, -9);
    assert [a, b][..1] == [a] && [a][..0] == [];
    assert Tallied(p, [a]) == Counted(p, NO_TALLY, a) && Tallied(q, [a]) == Counted(q, NO_TALLY, a);
  }
}
