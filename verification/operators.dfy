/** The genome operators: building an individual from a job order and
    per-job machine choices, and the single forward repair pass over the
    precedence list. Randomness is a parameter: the shuffled job order and
    the index of each chosen machine are given. */
module Operators {
  import opened Problem
  import Evaluator

  // ---------------------------------------------------------------------
  // Creating an individual.

  /** `order` lists every job of the problem exactly once. */
  predicate IsJobOrder(data: ProblemData, order: seq<JobId>)
  {
    && Distinct(order)
    && (forall j :: j in order ==> j in data.jobs)
    && (forall j :: j in data.jobs ==> j in order)
  }

  lemma {:induction false} DistinctCardinality(s: seq<JobId>)
    requires Distinct(s)
    ensures |set j | j in s| == |s|
    decreases |s|
  {
    if s != [] {
      DistinctCardinality(s[1..]);
      assert (set j | j in s) == {s[0]} + (set j | j in s[1..]);
      assert s[0] !in s[1..] by {
        forall p | 0 <= p < |s[1..]|
          ensures s[1..][p] != s[0]
        {
          assert s[1..][p] == s[p + 1];
        }
      }
    }
  }

  /** A job order has one entry per job. */
  lemma {:induction false} JobOrderLength(data: ProblemData, order: seq<JobId>)
    requires IsJobOrder(data, order)
    ensures |order| == |data.jobs|
  {
    DistinctCardinality(order);
    assert (set j | j in order) == data.jobs.Keys;
  }

  /** One gene per job, in the given order, each on the machine
      `data.machines[choices[i]]`. The machine is drawn from all machines of
      the problem, whether or not the job lists a processing time on it. */
  function CreateIndividual(data: ProblemData, order: seq<JobId>, choices: seq<nat>): (individual: Genome)
    requires IsJobOrder(data, order)
    requires |choices| == |order|
    requires forall i :: 0 <= i < |order| ==> choices[i] < |data.machines|
    ensures |individual| == |data.jobs|
    ensures Jobs(individual) == order
    ensures Distinct(Jobs(individual))
    ensures forall j :: j in Jobs(individual) <==> j in data.jobs
    ensures forall i :: 0 <= i < |individual| ==> individual[i].1 in data.machines
  {
    JobOrderLength(data, order);
    var r := seq(|order|, i requires 0 <= i < |order| => (order[i], data.machines[choices[i]]));
    assert Jobs(r) == order;
    r
  }

  /** The machines of the problem on which job `j` has a processing time, in
      the order the problem lists them. */
  function CapableMachines(data: ProblemData, j: JobId): (ms: seq<MachineId>)
    ensures forall m :: m in ms <==> m in data.machines && j in data.jobs && m in data.jobs[j].processingTimes
  {
    CapableAmong(data.machines, data, j)
  }

  function CapableAmong(machines: seq<MachineId>, data: ProblemData, j: JobId): (ms: seq<MachineId>)
    ensures forall m :: m in ms <==> m in machines && j in data.jobs && m in data.jobs[j].processingTimes
    decreases |machines|
  {
    if machines == [] then []
    else
      var rest := CapableAmong(machines[1..], data, j);
      assert forall m :: m in machines <==> m == machines[0] || m in machines[1..];
      if j in data.jobs && machines[0] in data.jobs[j].processingTimes then [machines[0]] + rest else rest
  }

  /** Individual creation with each job's machine drawn from the machines
      that can process it: the result is always a genome the simulator can
      evaluate. */
  function CreateCapableIndividual(data: ProblemData, order: seq<JobId>, choices: seq<nat>): (individual: Genome)
    requires IsJobOrder(data, order)
    requires |choices| == |order|
    requires forall i :: 0 <= i < |order| ==> choices[i] < |CapableMachines(data, order[i])|
    ensures |individual| == |data.jobs|
    ensures Jobs(individual) == order
    ensures Distinct(Jobs(individual))
    ensures forall j :: j in Jobs(individual) <==> j in data.jobs
    ensures Evaluable(data, individual)
  {
    JobOrderLength(data, order);
    var r := seq(|order|, i requires 0 <= i < |order| => (order[i], CapableMachines(data, order[i])[choices[i]]));
    assert Jobs(r) == order;
    r
  }

  // ---------------------------------------------------------------------
  // Repair.

  /** The genome being repaired and the job -> index map kept beside it. */
  datatype RepairState = RepairState(genome: Genome, indices: map<JobId, int>)

  /** Every recorded index is a valid list index or the absent marker -1. */
  predicate IndicesInRange(st: RepairState)
  {
    forall j :: j in st.indices ==> -1 <= st.indices[j] < |st.genome|
  }

  /** Python list indexing: a negative index counts from the end of the
      list, so the element read is the one whose position agrees with the
      index modulo the length. */
  function ListIndex(i: int, n: int): (p: nat)
    requires -n <= i < n
    ensures p < n
    ensures p % n == i % n
  {
    if i < 0 then NegativeIndexWraps(i, n); n + i else i
  }

  /** An index in -n..-1 is congruent modulo n to that index plus n. */
  lemma NegativeIndexWraps(i: int, n: int)
    requires -n <= i < 0
    ensures i % n == n + i
    ensures (n + i) % n == n + i
  {
    var q, r := i / n, i % n;
    assert i == q * n + r && 0 <= r < n;
    assert q >= 0 ==> q * n >= 0;
    assert q <= -2 ==> q * n <= -2 * n;
    assert q == -1;
    SmallMod(n + i, n);
  }

  lemma SmallMod(x: int, n: int)
    requires 0 <= x < n
    ensures x % n == x
  {
    var q, r := x / n, x % n;
    assert x == q * n + r && 0 <= r < n;
    assert q >= 1 ==> q * n >= n;
    assert q <= -1 ==> q * n <= -n;
  }

  /** Exchange two whole genes. */
  function Swap(g: Genome, i: int, k: int): (r: Genome)
    requires 0 <= i < |g| && 0 <= k < |g|
    ensures |r| == |g|
    ensures multiset(r) == multiset(g)
    ensures r[i] == g[k] && r[k] == g[i]
    ensures forall p :: 0 <= p < |g| && p != i && p != k ==> r[p] == g[p]
  {
    g[i := g[k]][k := g[i]]
  }

  /** Process one precedence pair (a, b): when a's recorded index exceeds
      b's, the two genes at those indices change places and the two map
      entries are exchanged. An absent b has index -1, which selects the last
      gene of the list. */
  function RepairStep(st: RepairState, pair: (JobId, JobId)): (r: RepairState)
    requires IndicesInRange(st)
    ensures IndicesInRange(r)
    ensures |r.genome| == |st.genome|
    ensures multiset(r.genome) == multiset(st.genome)
  {
    var ia := Position(st.indices, pair.0);
    var ib := Position(st.indices, pair.1);
    if ia > ib then
      RepairState(Swap(st.genome, ia, ListIndex(ib, |st.genome|)), st.indices[pair.0 := ib][pair.1 := ia])
    else st
  }

  lemma RepairStepOutOfOrder(st: RepairState, a: JobId, b: JobId, ia: int, ib: int)
    requires IndicesInRange(st)
    requires Position(st.indices, a) == ia && Position(st.indices, b) == ib
    requires ia > ib
    ensures 0 <= ia < |st.genome| && -|st.genome| <= ib < |st.genome|
    ensures RepairStep(st, (a, b)).genome == Swap(st.genome, ia, ListIndex(ib, |st.genome|))
    ensures RepairStep(st, (a, b)).indices == st.indices[a := ib][b := ia]
  {
  }

  /** One forward pass over a precedence list. */
  function RepairPass(st: RepairState, prec: seq<(JobId, JobId)>): (r: RepairState)
    requires IndicesInRange(st)
    ensures IndicesInRange(r)
    ensures |r.genome| == |st.genome|
    ensures multiset(r.genome) == multiset(st.genome)
    decreases |prec|
  {
    if prec == [] then st else RepairPass(RepairStep(st, prec[0]), prec[1..])
  }

  function StartRepair(g: Genome): (st: RepairState)
    ensures IndicesInRange(st)
  {
    JobIndicesExact(g);
    RepairState(g, JobIndices(g))
  }

  /** The repaired genome: only whole genes move, so it is a rearrangement
      of the input. */
  function Repair(data: ProblemData, g: Genome): (r: Genome)
    ensures |r| == |g|
    ensures multiset(r) == multiset(g)
  {
    RepairPass(StartRepair(g), data.precedence).genome
  }

  /** Every precedence pair names jobs of the genome. */
  predicate PrecedenceJobsPresent(prec: seq<(JobId, JobId)>, g: Genome)
  {
    forall p :: 0 <= p < |prec| ==> prec[p].0 in Jobs(g) && prec[p].1 in Jobs(g)
  }

  /** The index map agrees with the genome: jobs are not repeated, every job
      has an entry, and every entry holds the job's true position. */
  predicate Synced(st: RepairState)
  {
    && Distinct(Jobs(st.genome))
    && (forall i :: 0 <= i < |st.genome| ==> st.genome[i].0 in st.indices)
    && (forall j :: j in st.indices ==> 0 <= st.indices[j] < |st.genome| && st.genome[st.indices[j]].0 == j)
  }

  lemma {:induction false} StartRepairSynced(g: Genome)
    requires Distinct(Jobs(g))
    ensures Synced(StartRepair(g))
  {
    JobIndicesExact(g);
  }

  function SwappedIndex(p: int, i: int, k: int): int
  {
    if p == i then k else if p == k then i else p
  }

  lemma {:induction false} SwapKeepsDistinct(g: Genome, i: int, k: int)
    requires Distinct(Jobs(g))
    requires 0 <= i < |g| && 0 <= k < |g|
    ensures Distinct(Jobs(Swap(g, i, k)))
  {
    var r := Swap(g, i, k);
    var js := Jobs(g);
    forall p, q | 0 <= p < q < |r|
      ensures Jobs(r)[p] != Jobs(r)[q]
    {
      var sp := SwappedIndex(p, i, k);
      var sq := SwappedIndex(q, i, k);
      assert r[p] == g[sp] && r[q] == g[sq];
      assert sp != sq;
      if sp < sq {
        assert js[sp] != js[sq];
      } else {
        assert js[sq] != js[sp];
      }
    }
  }

  /** Processing a pair of present jobs keeps the index map in step with
      the genome, and afterwards the predecessor's index is the lower one. */
  lemma {:induction false} RepairStepKeepsSync(st: RepairState, a: JobId, b: JobId)
    requires Synced(st)
    requires a in st.indices && b in st.indices
    ensures Synced(RepairStep(st, (a, b)))
    ensures RepairStep(st, (a, b)).indices.Keys == st.indices.Keys
    ensures a != b ==> RepairStep(st, (a, b)).indices[a] < RepairStep(st, (a, b)).indices[b]
  {
    var g := st.genome;
    var ia := st.indices[a];
    var ib := st.indices[b];
    if ia > ib {
      var r := RepairStep(st, (a, b));
      assert r.genome == Swap(g, ia, ib);
      SwapKeepsDistinct(g, ia, ib);
      forall p | 0 <= p < |r.genome|
        ensures r.genome[p].0 in r.indices
      {
        assert r.genome[p] == g[SwappedIndex(p, ia, ib)];
      }
      forall j | j in r.indices
        ensures 0 <= r.indices[j] < |r.genome| && r.genome[r.indices[j]].0 == j
      {
        if j != a && j != b {
          var p := st.indices[j];
          assert Jobs(g)[p] != Jobs(g)[ia] || p == ia;
          assert Jobs(g)[p] != Jobs(g)[ib] || p == ib;
        }
      }
    }
  }

  lemma {:induction false} RepairPassKeepsSync(st: RepairState, prec: seq<(JobId, JobId)>)
    requires Synced(st)
    requires forall p :: 0 <= p < |prec| ==> prec[p].0 in st.indices && prec[p].1 in st.indices
    ensures Synced(RepairPass(st, prec))
    ensures RepairPass(st, prec).indices.Keys == st.indices.Keys
    decreases |prec|
  {
    if prec != [] {
      RepairStepKeepsSync(st, prec[0].0, prec[0].1);
      var next := RepairStep(st, prec[0]);
      assert forall p :: 0 <= p < |prec[1..]| ==> prec[1..][p] == prec[p + 1];
      RepairPassKeepsSync(next, prec[1..]);
    }
  }

  /** A synchronised index map is exactly the map the evaluator would build
      from the genome. */
  lemma {:induction false} SyncedIndicesAreJobIndices(st: RepairState)
    requires Synced(st)
    ensures st.indices == JobIndices(st.genome)
  {
    var g := st.genome;
    var idx := JobIndices(g);
    JobIndicesExact(g);
    forall j | j in st.indices
      ensures j in idx && idx[j] == st.indices[j]
    {
      PositionOfDistinct(g, st.indices[j]);
    }
    forall j | j in idx
      ensures j in st.indices
    {
      assert g[idx[j]].0 == j;
    }
  }

  lemma {:induction false} RepairPassAppend(st: RepairState, p: seq<(JobId, JobId)>, q: seq<(JobId, JobId)>)
    requires IndicesInRange(st)
    ensures RepairPass(st, p + q) == RepairPass(RepairPass(st, p), q)
    decreases |p|
  {
    if p == [] {
      assert p + q == q;
    } else {
      assert (p + q)[1..] == p[1..] + q;
      RepairPassAppend(RepairStep(st, p[0]), p[1..], q);
    }
  }

  /** The state after the first `i` precedence pairs have been processed. */
  function RepairAfter(g: Genome, prec: seq<(JobId, JobId)>, i: int): (st: RepairState)
    requires 0 <= i <= |prec|
    ensures IndicesInRange(st)
  {
    RepairPass(StartRepair(g), prec[..i])
  }

  lemma {:induction false} RepairAfterNext(g: Genome, prec: seq<(JobId, JobId)>, i: int)
    requires 0 <= i < |prec|
    ensures RepairAfter(g, prec, i + 1) == RepairStep(RepairAfter(g, prec, i), prec[i])
  {
    assert prec[..i + 1] == prec[..i] + [prec[i]];
    RepairPassAppend(StartRepair(g), prec[..i], [prec[i]]);
  }

  /** With present, non-repeated jobs, after every processed pair the index
      map holds each job's true position. */
  lemma {:induction false} RepairIndicesStayExact(g: Genome, prec: seq<(JobId, JobId)>, i: int)
    requires Distinct(Jobs(g))
    requires PrecedenceJobsPresent(prec, g)
    requires 0 <= i <= |prec|
    ensures Synced(RepairAfter(g, prec, i))
    ensures RepairAfter(g, prec, i).indices == JobIndices(RepairAfter(g, prec, i).genome)
    ensures forall p :: 0 <= p < |prec| ==> prec[p].0 in RepairAfter(g, prec, i).indices && prec[p].1 in RepairAfter(g, prec, i).indices
  {
    StartRepairSynced(g);
    forall p | 0 <= p < |prec|
      ensures prec[p].0 in JobIndices(g) && prec[p].1 in JobIndices(g)
    {
      PositionAbsent(g, prec[p].0);
      PositionAbsent(g, prec[p].1);
    }
    assert forall p :: 0 <= p < i ==> prec[..i][p] == prec[p];
    RepairPassKeepsSync(StartRepair(g), prec[..i]);
    SyncedIndicesAreJobIndices(RepairAfter(g, prec, i));
  }

  /** Right after pair (a, b) is processed, a sits before b. */
  lemma {:induction false} RepairOrdersProcessedPair(g: Genome, prec: seq<(JobId, JobId)>, i: int)
    requires Distinct(Jobs(g))
    requires PrecedenceJobsPresent(prec, g)
    requires 0 <= i < |prec|
    requires prec[i].0 != prec[i].1
    ensures !Evaluator.Violated(JobIndices(RepairAfter(g, prec, i + 1).genome), prec[i])
    ensures prec[i].0 in Jobs(RepairAfter(g, prec, i + 1).genome)
  {
    RepairIndicesStayExact(g, prec, i);
    var st := RepairAfter(g, prec, i);
    RepairAfterNext(g, prec, i);
    var next := RepairStep(st, prec[i]);
    RepairStepKeepsSync(st, prec[i].0, prec[i].1);
    SyncedIndicesAreJobIndices(next);
    PositionAbsent(next.genome, prec[i].0);
  }

  /** Repair exchanges whole genes: with non-repeated jobs, every job keeps
      the machine it had. */
  lemma {:induction false} RepairKeepsMachines(data: ProblemData, g: Genome)
    requires Distinct(Jobs(g))
    ensures forall i, k :: 0 <= i < |g| && 0 <= k < |g| && Repair(data, g)[i].0 == g[k].0 ==> Repair(data, g)[i].1 == g[k].1
  {
    var r := Repair(data, g);
    forall i, k | 0 <= i < |g| && 0 <= k < |g| && r[i].0 == g[k].0
      ensures r[i].1 == g[k].1
    {
      GeneFromMultiset(g, k, r[i]);
    }
  }

  /** A gene drawn from the multiset of a genome without repeated jobs that
      names the job at position k is the gene at position k. */
  lemma {:induction false} GeneFromMultiset(g: Genome, k: int, x: Gene)
    requires Distinct(Jobs(g))
    requires 0 <= k < |g|
    requires x in multiset(g) && x.0 == g[k].0
    ensures x == g[k]
  {
    assert x in g;
    var k' :| 0 <= k' < |g| && g[k'] == x;
    assert Jobs(g)[k'] == Jobs(g)[k];
    assert !(k' < k) && !(k < k');
  }

  /** Repair never produces a genome the simulator cannot evaluate. */
  lemma {:induction false} RepairKeepsEvaluable(data: ProblemData, g: Genome)
    requires Evaluable(data, g)
    ensures Evaluable(data, Repair(data, g))
  {
    var r := Repair(data, g);
    forall i | 0 <= i < |r|
      ensures r[i].0 in data.jobs && r[i].1 in data.jobs[r[i].0].processingTimes && r[i].1 in data.machines
    {
      assert r[i] in multiset(g);
    }
  }

  lemma {:induction false} RepairPassWithoutViolations(st: RepairState, prec: seq<(JobId, JobId)>)
    requires IndicesInRange(st)
    requires Evaluator.CountViolations(prec, st.indices) == 0
    ensures RepairPass(st, prec) == st
    decreases |prec|
  {
    if prec != [] {
      assert !Evaluator.Violated(st.indices, prec[0]);
      RepairPassWithoutViolations(st, prec[1..]);
    }
  }

  /** A genome in which the evaluator counts no violation is left as it is. */
  lemma {:induction false} RepairUnchangedWithoutViolations(data: ProblemData, g: Genome)
    requires Evaluator.CountViolations(data.precedence, JobIndices(g)) == 0
    ensures Repair(data, g) == g
  {
    RepairPassWithoutViolations(StartRepair(g), data.precedence);
  }

  lemma {:induction false} RepairPassSingle(st: RepairState, prec: seq<(JobId, JobId)>)
    requires IndicesInRange(st)
    requires |prec| == 1
    ensures RepairPass(st, prec) == RepairStep(st, prec[0])
  {
    assert RepairPass(st, prec) == RepairPass(RepairStep(st, prec[0]), prec[1..]);
    assert prec[1..] == [];
    assert RepairPass(RepairStep(st, prec[0]), []) == RepairStep(st, prec[0]);
  }

  /** With a single precedence pair over present jobs, the repaired genome
      has no violation. */
  lemma {:induction false} RepairSinglePairResolves(data: ProblemData, g: Genome)
    requires |data.precedence| == 1
    requires Distinct(Jobs(g))
    requires PrecedenceJobsPresent(data.precedence, g)
    ensures Evaluator.CountViolations(data.precedence, JobIndices(Repair(data, g))) == 0
  {
    var prec := data.precedence;
    var a, b := prec[0].0, prec[0].1;
    var st := StartRepair(g);
    StartRepairSynced(g);
    PositionAbsent(g, a);
    PositionAbsent(g, b);
    var next := RepairStep(st, (a, b));
    RepairPassSingle(st, prec);
    RepairStepKeepsSync(st, a, b);
    SyncedIndicesAreJobIndices(next);
    assert !Evaluator.Violated(JobIndices(next.genome), prec[0]);
    Evaluator.CountViolationsExtremes(prec, JobIndices(next.genome));
  }
}
