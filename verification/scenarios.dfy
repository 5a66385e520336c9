/** Worked examples on small concrete problems: the two-job schedules, the
    repair of a single inverted pair, the chain that one repair pass leaves
    violated, the absent successor, and machine choice at creation. */
module Scenarios {
  import opened Problem
  import opened Evaluator
  import opened Operators

  /** Two jobs of 5 time units each on the one machine M1, with profits 10
      and 20; J2 is due at 100. */
  function TwoJobs(deadline1: int, prec: seq<(JobId, JobId)>): ProblemData
  {
    ProblemData(
      map["J1" := JobSpec(map["M1" := 5], 10, deadline1), "J2" := JobSpec(map["M1" := 5], 20, 100)],
      ["M1"],
      prec,
      Penalties(1, 1000))
  }

  lemma TwoGeneSimulation(data: ProblemData, x: Gene, y: Gene)
    ensures Simulate(data, [x, y]) == Step(data, Step(data, InitialState(data), x), y)
  {
    assert [x, y][..1] == [x];
    assert [x][..0] == [];
    assert Simulate(data, [x, y]) == Step(data, Simulate(data, [x]), y);
    assert Simulate(data, [x]) == Step(data, Simulate(data, []), x);
  }

  lemma TwoGeneIndices(x: Gene, y: Gene)
    ensures JobIndices([x, y]) == map[x.0 := 0][y.0 := 1]
  {
    JobIndicesSnoc([], x);
    JobIndicesSnoc([x], y);
    assert [] + [x] == [x];
    assert [x] + [y] == [x, y];
  }

  lemma ThreeGeneIndices(x: Gene, y: Gene, z: Gene)
    ensures JobIndices([x, y, z]) == map[x.0 := 0][y.0 := 1][z.0 := 2]
  {
    TwoGeneIndices(x, y);
    JobIndicesSnoc([x, y], z);
    assert [x, y] + [z] == [x, y, z];
  }

  /** Without precedence and with generous deadlines, both orders give no
      lateness, makespan 10, profit 30 and no penalty. */
  lemma ScenarioEitherOrder()
    ensures Evaluate(TwoJobs(100, []), [("J1", "M1"), ("J2", "M1")]) == Fitness(0, 10, -30, 0)
    ensures Evaluate(TwoJobs(100, []), [("J2", "M1"), ("J1", "M1")]) == Fitness(0, 10, -30, 0)
  {
    var data := TwoJobs(100, []);
    TwoGeneSimulation(data, ("J1", "M1"), ("J2", "M1"));
    TwoGeneSimulation(data, ("J2", "M1"), ("J1", "M1"));
  }

  /** J1 due at 3 but finishing at 5 is 2 units late. */
  lemma ScenarioLateJob()
    ensures Evaluate(TwoJobs(3, []), [("J1", "M1"), ("J2", "M1")]).lateness == 2
  {
    TwoGeneSimulation(TwoJobs(3, []), ("J1", "M1"), ("J2", "M1"));
  }

  /** Requiring J2 before J1 while J1 comes first is one violation; J1 still
      starts at 0, because its predecessor has not been simulated yet. */
  lemma ScenarioInvertedPair()
    ensures Evaluate(TwoJobs(100, [("J2", "J1")]), [("J1", "M1"), ("J2", "M1")]) == Fitness(0, 10, -30, 1000)
  {
    var g: Genome := [("J1", "M1"), ("J2", "M1")];
    TwoGeneIndices(g[0], g[1]);
    TwoGeneSimulation(TwoJobs(100, [("J2", "J1")]), g[0], g[1]);
  }

  /** One repair pass puts J2 first. */
  lemma ScenarioInvertedPairRepair()
    ensures Repair(TwoJobs(100, [("J2", "J1")]), [("J1", "M1"), ("J2", "M1")]) == [("J2", "M1"), ("J1", "M1")]
  {
    var g: Genome := [("J1", "M1"), ("J2", "M1")];
    TwoGeneIndices(g[0], g[1]);
    RepairPassSingle(StartRepair(g), [("J2", "J1")]);
  }

  /** A single pass does not resolve chained constraints: with C, B, A in
      that order and B before C, A before B required, the second swap moves B
      back behind C. */
  lemma RepairSinglePassMissesChains()
    ensures Repair(ProblemData(map[], [], [("B", "C"), ("A", "B")], Penalties(1, 1)), [("C", "m"), ("B", "m"), ("A", "m")])
            == [("A", "m"), ("C", "m"), ("B", "m")]
    ensures CountViolations([("B", "C"), ("A", "B")], JobIndices([("A", "m"), ("C", "m"), ("B", "m")])) == 1
  {
    var prec := [("B", "C"), ("A", "B")];
    var g: Genome := [("C", "m"), ("B", "m"), ("A", "m")];
    var st1 := RepairStep(StartRepair(g), prec[0]);
    ChainFirstStep();
    assert RepairPass(StartRepair(g), prec) == RepairPass(st1, prec[1..]);
    RepairPassSingle(st1, prec[1..]);
    RepairStepOutOfOrder(st1, "A", "B", 2, 0);
    assert Swap(st1.genome, 2, 0) == [("A", "m"), ("C", "m"), ("B", "m")];
    ChainLeftViolated();
  }

  lemma ChainFirstStep()
    ensures RepairStep(StartRepair([("C", "m"), ("B", "m"), ("A", "m")]), ("B", "C")).genome == [("B", "m"), ("C", "m"), ("A", "m")]
    ensures Position(RepairStep(StartRepair([("C", "m"), ("B", "m"), ("A", "m")]), ("B", "C")).indices, "A") == 2
    ensures Position(RepairStep(StartRepair([("C", "m"), ("B", "m"), ("A", "m")]), ("B", "C")).indices, "B") == 0
  {
    var g: Genome := [("C", "m"), ("B", "m"), ("A", "m")];
    var idx := JobIndices(g);
    assert Position(idx, "B") == 1 && Position(idx, "C") == 0 && Position(idx, "A") == 2 by {
      ThreeGeneIndices(g[0], g[1], g[2]);
    }
    RepairStepOutOfOrder(StartRepair(g), "B", "C", 1, 0);
    assert Swap(g, 1, 0) == [("B", "m"), ("C", "m"), ("A", "m")];
  }

  lemma ChainLeftViolated()
    ensures CountViolations([("B", "C"), ("A", "B")], JobIndices([("A", "m"), ("C", "m"), ("B", "m")])) == 1
  {
    var r: Genome := [("A", "m"), ("C", "m"), ("B", "m")];
    ThreeGeneIndices(r[0], r[1], r[2]);
    var prec := [("B", "C"), ("A", "B")];
    assert Violated(JobIndices(r), prec[0]);
    assert !Violated(JobIndices(r), prec[1]);
    assert CountViolations(prec, JobIndices(r)) == 1 + CountViolations(prec[1..], JobIndices(r));
    assert CountViolations(prec[1..], JobIndices(r)) == 0 + CountViolations(prec[1..][1..], JobIndices(r));
    assert prec[1..][1..] == [];
  }

  /** A predecessor whose successor is absent compares against index -1, so
      the pair counts as out of order and the predecessor changes places with
      the last gene of the list. */
  lemma RepairAbsentSuccessorTakesLast()
    ensures Repair(ProblemData(map[], [], [("A", "X")], Penalties(1, 1)), [("A", "m"), ("B", "m"), ("C", "m")])
            == [("C", "m"), ("B", "m"), ("A", "m")]
  {
    var g: Genome := [("A", "m"), ("B", "m"), ("C", "m")];
    RepairPassSingle(StartRepair(g), [("A", "X")]);
    AbsentSuccessorStep();
  }

  lemma AbsentSuccessorStep()
    ensures RepairStep(StartRepair([("A", "m"), ("B", "m"), ("C", "m")]), ("A", "X")).genome == [("C", "m"), ("B", "m"), ("A", "m")]
  {
    var g: Genome := [("A", "m"), ("B", "m"), ("C", "m")];
    var idx := JobIndices(g);
    assert Position(idx, "A") == 0 && Position(idx, "X") == -1 by {
      ThreeGeneIndices(g[0], g[1], g[2]);
    }
    RepairStepOutOfOrder(StartRepair(g), "A", "X", 0, -1);
    assert Swap(g, 0, 2) == [("C", "m"), ("B", "m"), ("A", "m")];
  }

  /** J1 runs only on M1, yet machine M2 may be drawn for it; the evaluator
      cannot look up J1's processing time on M2. */
  function OneJobTwoMachines(): ProblemData
  {
    ProblemData(map["J1" := JobSpec(map["M1" := 5], 10, 100)], ["M1", "M2"], [], Penalties(1, 1000))
  }

  lemma CreateCanPickIncapableMachine()
    ensures CreateIndividual(OneJobTwoMachines(), ["J1"], [1]) == [("J1", "M2")]
    ensures !Evaluable(OneJobTwoMachines(), CreateIndividual(OneJobTwoMachines(), ["J1"], [1]))
  {
    assert IsJobOrder(OneJobTwoMachines(), ["J1"]);
  }

  /** Drawing from the capable machines only, the same job gets M1. */
  lemma CreateCapableAlwaysEvaluable()
    ensures CapableMachines(OneJobTwoMachines(), "J1") == ["M1"]
    ensures Evaluable(OneJobTwoMachines(), CreateCapableIndividual(OneJobTwoMachines(), ["J1"], [0]))
  {
    var data := OneJobTwoMachines();
    assert IsJobOrder(data, ["J1"]);
    assert data.machines[1..] == ["M2"];
    assert data.machines[1..][1..] == [];
  }
}
