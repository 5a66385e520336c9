/** The schedule simulator: a positional count of precedence violations,
    then a forward discrete-event simulation over the genome with one ready
    time per machine, producing the fitness vector
    (total lateness, makespan, -total profit, violation penalty). */
module Evaluator {
  import opened Problem
  import opened Sums

  function Max(a: int, b: int): (m: int)
    ensures m >= a && m >= b
    ensures m == a || m == b
  {
    if a >= b then a else b
  }

  // ---------------------------------------------------------------------
  // Precedence violations: purely positional.

  /** A pair (a, b) is violated when a's position exceeds b's, absent jobs
      counting as position -1. */
  predicate Violated(idx: map<JobId, int>, pair: (JobId, JobId))
  {
    Position(idx, pair.0) > Position(idx, pair.1)
  }

  function CountViolations(prec: seq<(JobId, JobId)>, idx: map<JobId, int>): (n: nat)
    ensures n <= |prec|
    decreases |prec|
  {
    if prec == [] then 0
    else (if Violated(idx, prec[0]) then 1 else 0) + CountViolations(prec[1..], idx)
  }

  /** The count is zero exactly when no listed pair is violated, and equals
      the number of pairs exactly when every pair is violated. */
  lemma {:induction false} CountViolationsExtremes(prec: seq<(JobId, JobId)>, idx: map<JobId, int>)
    ensures CountViolations(prec, idx) == 0 <==> forall i :: 0 <= i < |prec| ==> !Violated(idx, prec[i])
    ensures CountViolations(prec, idx) == |prec| <==> forall i :: 0 <= i < |prec| ==> Violated(idx, prec[i])
    decreases |prec|
  {
    if prec != [] {
      CountViolationsExtremes(prec[1..], idx);
      assert forall i :: 1 <= i < |prec| ==> prec[i] == prec[1..][i - 1];
    }
  }

  /** Counting is additive over a split of the precedence list. */
  lemma {:induction false} CountViolationsAppend(p: seq<(JobId, JobId)>, q: seq<(JobId, JobId)>, idx: map<JobId, int>)
    ensures CountViolations(p + q, idx) == CountViolations(p, idx) + CountViolations(q, idx)
    decreases |p|
  {
    if p == [] {
      assert p + q == q;
    } else {
      assert (p + q)[1..] == p[1..] + q;
      CountViolationsAppend(p[1..], q, idx);
    }
  }

  /** 1 for a violated pair, 0 otherwise. */
  function ViolationOf(idx: map<JobId, int>): ((JobId, JobId)) -> int
  {
    (pair: (JobId, JobId)) => if Violated(idx, pair) then 1 else 0
  }

  /** The count is the sum of the per-pair indicator. */
  lemma {:induction false} CountViolationsIsSum(prec: seq<(JobId, JobId)>, idx: map<JobId, int>)
    ensures CountViolations(prec, idx) == SumBy(prec, ViolationOf(idx))
    decreases |prec|
  {
    if prec != [] {
      CountViolationsIsSum(prec[1..], idx);
    }
  }

  /** The order in which pairs are listed, and so examined, does not change
      the count. */
  lemma {:induction false} CountViolationsOrderIndependent(p: seq<(JobId, JobId)>, q: seq<(JobId, JobId)>, idx: map<JobId, int>)
    requires multiset(p) == multiset(q)
    ensures CountViolations(p, idx) == CountViolations(q, idx)
  {
    CountViolationsIsSum(p, idx);
    CountViolationsIsSum(q, idx);
    SumByPermutation(p, q, ViolationOf(idx));
  }

  /** The -1 convention for absent jobs: a present predecessor with an absent
      successor is a violation; an absent predecessor never is. */
  lemma MissingJobRule(g: Genome, a: JobId, b: JobId)
    ensures a in Jobs(g) && b !in Jobs(g) ==> Violated(JobIndices(g), (a, b))
    ensures a !in Jobs(g) ==> !Violated(JobIndices(g), (a, b))
  {
    PositionAbsent(g, a);
    PositionAbsent(g, b);
  }

  /** In a genome without repeated jobs, a pair of present jobs is violated
      exactly when the predecessor sits later than the successor. */
  lemma ViolatedIffOutOfOrder(g: Genome, i: int, k: int)
    requires Distinct(Jobs(g))
    requires 0 <= i < |g| && 0 <= k < |g|
    ensures Violated(JobIndices(g), (g[i].0, g[k].0)) <==> i > k
  {
    PositionOfDistinct(g, i);
    PositionOfDistinct(g, k);
  }

  // ---------------------------------------------------------------------
  // Forward simulation.

  datatype SimState = SimState(
    machineReady: map<MachineId, int>,
    completion: map<JobId, int>,
    totalProfit: int,
    totalLateness: int)

  /** Every machine starts ready at time 0; nothing is completed yet. */
  function InitialState(data: ProblemData): SimState
  {
    SimState(map m | m in data.machines :: 0, map[], 0, 0)
  }

  function ReadyTime(st: SimState, m: MachineId): int
  {
    if m in st.machineReady then st.machineReady[m] else 0
  }

  /** The latest completion time among the predecessors of `j` that are
      already completed, or 0 when there is none; predecessors not yet
      simulated are ignored. */
  function PredecessorFinish(prec: seq<(JobId, JobId)>, j: JobId, done: map<JobId, int>): (t: int)
    ensures t >= 0
    ensures forall i :: 0 <= i < |prec| && prec[i].1 == j && prec[i].0 in done ==> done[prec[i].0] <= t
    ensures t == 0 || exists i :: 0 <= i < |prec| && prec[i].1 == j && prec[i].0 in done && done[prec[i].0] == t
    decreases |prec|
  {
    if prec == [] then 0
    else
      var rest := PredecessorFinish(prec[1..], j, done);
      if prec[0].1 == j && prec[0].0 in done then Max(rest, done[prec[0].0]) else rest
  }

  function StartTime(data: ProblemData, st: SimState, gene: Gene): int
  {
    Max(ReadyTime(st, gene.1), PredecessorFinish(data.precedence, gene.0, st.completion))
  }

  function FinishTime(data: ProblemData, st: SimState, gene: Gene): int
  {
    StartTime(data, st, gene) + ProcessingTime(data, gene.0, gene.1)
  }

  /** Weighted lateness of one job finishing at `finish`. */
  function JobLateness(data: ProblemData, j: JobId, finish: int): int
  {
    Max(0, finish - Deadline(data, j)) * data.penalties.latenessPerUnit
  }

  /** Simulate one gene: it finishes on its machine, which becomes ready at
      that time, and its profit and lateness are accumulated. */
  function Step(data: ProblemData, st: SimState, gene: Gene): SimState
  {
    var finish := FinishTime(data, st, gene);
    SimState(
      st.machineReady[gene.1 := finish],
      st.completion[gene.0 := finish],
      st.totalProfit + Profit(data, gene.0),
      st.totalLateness + JobLateness(data, gene.0, finish))
  }

  /** The simulation state after the genes of `g`, in order. */
  function Simulate(data: ProblemData, g: Genome): SimState
    decreases |g|
  {
    if g == [] then InitialState(data)
    else Step(data, Simulate(data, g[..|g| - 1]), g[|g| - 1])
  }

  /** Start and finish of the gene at position i. */
  function StartAt(data: ProblemData, g: Genome, i: int): int
    requires 0 <= i < |g|
  {
    StartTime(data, Simulate(data, g[..i]), g[i])
  }

  function FinishAt(data: ProblemData, g: Genome, i: int): int
    requires 0 <= i < |g|
  {
    FinishTime(data, Simulate(data, g[..i]), g[i])
  }

  /** The largest ready time over the machines, or 0 with no machines. */
  function Makespan(machines: seq<MachineId>, st: SimState): (t: int)
    ensures machines == [] ==> t == 0
    ensures forall m :: m in machines ==> ReadyTime(st, m) <= t
    ensures machines != [] ==> exists m :: m in machines && ReadyTime(st, m) == t
    decreases |machines|
  {
    if machines == [] then 0
    else if |machines| == 1 then ReadyTime(st, machines[0])
    else Max(ReadyTime(st, machines[0]), Makespan(machines[1..], st))
  }

  function ProfitOf(data: ProblemData): JobId -> int
  {
    (j: JobId) => Profit(data, j)
  }

  /** The processing time a gene adds to machine `m`. */
  function LoadOn(data: ProblemData, m: MachineId): Gene -> int
  {
    (gene: Gene) => if gene.1 == m then ProcessingTime(data, gene.0, gene.1) else 0
  }

  /** The fitness vector of a genome. The precondition is exactly what the
      simulator's lookups need to succeed. */
  function Evaluate(data: ProblemData, g: Genome): (r: Fitness)
    requires Evaluable(data, g)
    ensures data.machines == [] ==> r.makespan == 0
    ensures data.penalties.latenessPerUnit >= 0 ==> r.lateness >= 0
    ensures r.negatedProfit == -SumBy(Jobs(g), ProfitOf(data))
    ensures data.penalties.violation >= 0 ==> 0 <= r.violationPenalty <= |data.precedence| * data.penalties.violation
  {
    var st := Simulate(data, g);
    var violations := CountViolations(data.precedence, JobIndices(g));
    LatenessNonNegative(data, g);
    SimulatedProfitIsSum(data, g);
    PenaltyBound(violations, |data.precedence|, data.penalties.violation);
    Fitness(st.totalLateness, Makespan(data.machines, st), -st.totalProfit, violations * data.penalties.violation)
  }

  lemma PenaltyBound(count: nat, bound: nat, weight: int)
    requires count <= bound
    ensures weight >= 0 ==> 0 <= count * weight <= bound * weight
  {
    if weight >= 0 {
      assert (bound - count) * weight >= 0;
    }
  }

  // ---------------------------------------------------------------------
  // Accumulated quantities.

  lemma {:induction false} LatenessNonNegative(data: ProblemData, g: Genome)
    ensures data.penalties.latenessPerUnit >= 0 ==> Simulate(data, g).totalLateness >= 0
    decreases |g|
  {
    if g != [] && data.penalties.latenessPerUnit >= 0 {
      var st := Simulate(data, g[..|g| - 1]);
      var gene := g[|g| - 1];
      LatenessNonNegative(data, g[..|g| - 1]);
      JobLatenessNonNegative(data, gene.0, FinishTime(data, st, gene));
      assert Simulate(data, g).totalLateness == st.totalLateness + JobLateness(data, gene.0, FinishTime(data, st, gene));
    }
  }

  lemma JobLatenessNonNegative(data: ProblemData, j: JobId, finish: int)
    requires data.penalties.latenessPerUnit >= 0
    ensures JobLateness(data, j, finish) >= 0
  {
    var late := Max(0, finish - Deadline(data, j));
    assert late >= 0;
    assert late * data.penalties.latenessPerUnit >= 0;
  }

  /** The accumulated profit is the sum of the profits of all genes' jobs. */
  lemma {:induction false} SimulatedProfitIsSum(data: ProblemData, g: Genome)
    ensures Simulate(data, g).totalProfit == SumBy(Jobs(g), ProfitOf(data))
    decreases |g|
  {
    if g != [] {
      var front := g[..|g| - 1];
      SimulatedProfitIsSum(data, front);
      assert Jobs(g) == Jobs(front) + [g[|g| - 1].0];
      SumByAppend(Jobs(front), [g[|g| - 1].0], ProfitOf(data));
      assert SumBy([g[|g| - 1].0], ProfitOf(data)) == Profit(data, g[|g| - 1].0);
    }
  }

  /** The profit component depends only on which jobs occur, not on their
      order nor on the machines chosen for them. */
  lemma ProfitOrderIndependent(data: ProblemData, g1: Genome, g2: Genome)
    requires Evaluable(data, g1) && Evaluable(data, g2)
    requires multiset(Jobs(g1)) == multiset(Jobs(g2))
    ensures Evaluate(data, g1).negatedProfit == Evaluate(data, g2).negatedProfit
  {
    SumByPermutation(Jobs(g1), Jobs(g2), ProfitOf(data));
  }

  // ---------------------------------------------------------------------
  // Timing.

  /** One simulated gene starts no earlier than its machine is ready and no
      earlier than any completed predecessor; it finishes after its
      processing time; only its own machine's ready time changes. */
  lemma StepTiming(data: ProblemData, st: SimState, gene: Gene)
    ensures StartTime(data, st, gene) >= ReadyTime(st, gene.1)
    ensures forall i :: 0 <= i < |data.precedence| && data.precedence[i].1 == gene.0 && data.precedence[i].0 in st.completion
              ==> st.completion[data.precedence[i].0] <= StartTime(data, st, gene)
    ensures ReadyTime(Step(data, st, gene), gene.1) == StartTime(data, st, gene) + ProcessingTime(data, gene.0, gene.1)
    ensures Step(data, st, gene).completion[gene.0] == StartTime(data, st, gene) + ProcessingTime(data, gene.0, gene.1)
    ensures forall m :: m != gene.1 ==> ReadyTime(Step(data, st, gene), m) == ReadyTime(st, m)
  {
  }

  lemma SimulatePrefix(data: ProblemData, g: Genome, k: int)
    requires 0 < k <= |g|
    ensures Simulate(data, g[..k]) == Step(data, Simulate(data, g[..k - 1]), g[k - 1])
  {
    assert g[..k][..k - 1] == g[..k - 1];
  }

  /** With non-negative processing times no machine's ready time ever
      decreases as the simulation proceeds. */
  lemma {:induction false} ReadyTimeNeverDecreases(data: ProblemData, g: Genome, i: int, k: int, m: MachineId)
    requires NonNegativeTimes(data)
    requires 0 <= i <= k <= |g|
    ensures ReadyTime(Simulate(data, g[..i]), m) <= ReadyTime(Simulate(data, g[..k]), m)
    decreases k - i
  {
    if i < k {
      ReadyTimeNeverDecreases(data, g, i, k - 1, m);
      SimulatePrefix(data, g, k);
      var st := Simulate(data, g[..k - 1]);
      StepTiming(data, st, g[k - 1]);
      assert ProcessingTime(data, g[k - 1].0, g[k - 1].1) >= 0;
    }
  }

  /** The finish times of the genes on one machine are non-decreasing in
      sequence order. */
  lemma MachineFinishesNonDecreasing(data: ProblemData, g: Genome, i: int, k: int)
    requires NonNegativeTimes(data)
    requires 0 <= i < k < |g|
    requires g[i].1 == g[k].1
    ensures FinishAt(data, g, i) <= FinishAt(data, g, k)
  {
    SimulatePrefix(data, g, i + 1);
    StepTiming(data, Simulate(data, g[..i]), g[i]);
    ReadyTimeNeverDecreases(data, g, i + 1, k, g[i].1);
    StepTiming(data, Simulate(data, g[..k]), g[k]);
    assert ProcessingTime(data, g[k].0, g[k].1) >= 0;
  }

  /** In a genome without repeated jobs, the completion time recorded for an
      earlier gene's job is that gene's finish time. */
  lemma {:induction false} CompletionOfEarlierGene(data: ProblemData, g: Genome, k: int, i: int)
    requires Distinct(Jobs(g))
    requires 0 <= k < i <= |g|
    ensures g[k].0 in Simulate(data, g[..i]).completion
    ensures Simulate(data, g[..i]).completion[g[k].0] == FinishAt(data, g, k)
    decreases i
  {
    SimulatePrefix(data, g, i);
    if k < i - 1 {
      CompletionOfEarlierGene(data, g, k, i - 1);
      assert Jobs(g)[k] != Jobs(g)[i - 1];
    }
  }

  /** The per-gene timing rule: each gene starts no earlier than its machine
      is ready and, when jobs are not repeated, no earlier than the finish of
      every predecessor placed before it; it finishes after its processing
      time. */
  lemma GeneTiming(data: ProblemData, g: Genome, i: int)
    requires 0 <= i < |g|
    ensures StartAt(data, g, i) >= ReadyTime(Simulate(data, g[..i]), g[i].1)
    ensures FinishAt(data, g, i) == StartAt(data, g, i) + ProcessingTime(data, g[i].0, g[i].1)
    ensures Distinct(Jobs(g)) ==>
      forall k, p :: 0 <= k < i && 0 <= p < |data.precedence| && data.precedence[p] == (g[k].0, g[i].0)
        ==> FinishAt(data, g, k) <= StartAt(data, g, i)
  {
    var st := Simulate(data, g[..i]);
    StepTiming(data, st, g[i]);
    if Distinct(Jobs(g)) {
      forall k, p | 0 <= k < i && 0 <= p < |data.precedence| && data.precedence[p] == (g[k].0, g[i].0)
        ensures FinishAt(data, g, k) <= StartAt(data, g, i)
      {
        CompletionOfEarlierGene(data, g, k, i);
      }
    }
  }

  /** Makespan bounds every job's finish time. */
  lemma FinishWithinMakespan(data: ProblemData, g: Genome, i: int)
    requires NonNegativeTimes(data)
    requires Evaluable(data, g)
    requires 0 <= i < |g|
    ensures FinishAt(data, g, i) <= Evaluate(data, g).makespan
  {
    SimulatePrefix(data, g, i + 1);
    StepTiming(data, Simulate(data, g[..i]), g[i]);
    ReadyTimeNeverDecreases(data, g, i + 1, |g|, g[i].1);
    assert g[..|g|] == g;
  }

  // ---------------------------------------------------------------------
  // Without precedence constraints.

  lemma EmptyPrecedenceNoPenalty(data: ProblemData, g: Genome)
    requires Evaluable(data, g)
    requires data.precedence == []
    ensures Evaluate(data, g).violationPenalty == 0
  {
  }

  /** Without precedence, every machine's final ready time is the total
      processing time of the genes assigned to it. */
  lemma {:induction false} EmptyPrecedenceMachineLoad(data: ProblemData, g: Genome, m: MachineId)
    requires NonNegativeTimes(data)
    requires data.precedence == []
    ensures ReadyTime(Simulate(data, g), m) == SumBy(g, LoadOn(data, m))
    decreases |g|
  {
    if g != [] {
      var front := g[..|g| - 1];
      var last := g[|g| - 1];
      EmptyPrecedenceMachineLoad(data, front, m);
      EmptyPrecedenceMachineLoad(data, front, last.1);
      assert g == front + [last];
      SumByAppend(front, [last], LoadOn(data, m));
      SumByAppend(front, [last], LoadOn(data, last.1));
      assert SumBy([last], LoadOn(data, m)) == LoadOn(data, m)(last);
      assert SumBy([last], LoadOn(data, last.1)) == ProcessingTime(data, last.0, last.1);
      LoadNonNegative(data, front, last.1);
      StepTiming(data, Simulate(data, front), last);
    }
  }

  lemma {:induction false} LoadNonNegative(data: ProblemData, g: Genome, m: MachineId)
    requires NonNegativeTimes(data)
    ensures SumBy(g, LoadOn(data, m)) >= 0
    decreases |g|
  {
    if g != [] {
      LoadNonNegative(data, g[1..], m);
      assert ProcessingTime(data, g[0].0, g[0].1) >= 0;
    }
  }

  lemma {:induction false} MakespanCongruent(machines: seq<MachineId>, s1: SimState, s2: SimState)
    requires forall m :: m in machines ==> ReadyTime(s1, m) == ReadyTime(s2, m)
    ensures Makespan(machines, s1) == Makespan(machines, s2)
    decreases |machines|
  {
    if |machines| > 1 {
      MakespanCongruent(machines[1..], s1, s2);
    }
  }

  /** Without precedence, the makespan does not depend on the order of the
      genes. */
  lemma EmptyPrecedenceMakespanOrderIndependent(data: ProblemData, g1: Genome, g2: Genome)
    requires NonNegativeTimes(data)
    requires data.precedence == []
    requires Evaluable(data, g1) && Evaluable(data, g2)
    requires multiset(g1) == multiset(g2)
    ensures Evaluate(data, g1).makespan == Evaluate(data, g2).makespan
  {
    forall m | m in data.machines
      ensures ReadyTime(Simulate(data, g1), m) == ReadyTime(Simulate(data, g2), m)
    {
      EmptyPrecedenceMachineLoad(data, g1, m);
      EmptyPrecedenceMachineLoad(data, g2, m);
      SumByPermutation(g1, g2, LoadOn(data, m));
    }
    MakespanCongruent(data.machines, Simulate(data, g1), Simulate(data, g2));
  }
}
