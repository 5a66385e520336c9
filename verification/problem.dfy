/** The problem description shared read-only by every evaluation, and the
    genome encoding: an ordered sequence of (job, machine) genes. All times,
    profits, deadlines and penalty weights are integers. */
module Problem {

  type JobId = string
  type MachineId = string

  /** One entry of the problem's `jobs` object. */
  datatype JobSpec = JobSpec(processingTimes: map<MachineId, int>, profit: int, deadline: int)

  datatype Penalties = Penalties(latenessPerUnit: int, violation: int)

  /** `precedence` is an ordered list of pairs (a, b) meaning "a before b";
      a problem without a precedence entry has the empty list. */
  datatype ProblemData = ProblemData(
    jobs: map<JobId, JobSpec>,
    machines: seq<MachineId>,
    precedence: seq<(JobId, JobId)>,
    penalties: Penalties)

  type Gene = (JobId, MachineId)
  type Genome = seq<Gene>

  /** The fitness vector; every component is minimised, so the total profit
      enters it negated. */
  datatype Fitness = Fitness(lateness: int, makespan: int, negatedProfit: int, violationPenalty: int)

  function ProcessingTime(data: ProblemData, j: JobId, m: MachineId): int
  {
    if j in data.jobs && m in data.jobs[j].processingTimes then data.jobs[j].processingTimes[m] else 0
  }

  function Profit(data: ProblemData, j: JobId): int
  {
    if j in data.jobs then data.jobs[j].profit else 0
  }

  function Deadline(data: ProblemData, j: JobId): int
  {
    if j in data.jobs then data.jobs[j].deadline else 0
  }

  /** Every processing time is non-negative, as the problem format intends. */
  predicate NonNegativeTimes(data: ProblemData)
  {
    forall j, m :: j in data.jobs && m in data.jobs[j].processingTimes ==> data.jobs[j].processingTimes[m] >= 0
  }

  /** The lookups the simulator makes for every gene succeed: the job is
      known, the job lists a processing time on the chosen machine, and the
      machine is one of the problem's machines. */
  predicate Evaluable(data: ProblemData, g: Genome)
  {
    forall i :: 0 <= i < |g| ==>
      && g[i].0 in data.jobs
      && g[i].1 in data.jobs[g[i].0].processingTimes
      && g[i].1 in data.machines
  }

  /** The job order of a genome, machines dropped. */
  function Jobs(g: Genome): (js: seq<JobId>)
    ensures |js| == |g|
    ensures forall i :: 0 <= i < |g| ==> js[i] == g[i].0
  {
    seq(|g|, i requires 0 <= i < |g| => g[i].0)
  }

  predicate Distinct<T(==)>(s: seq<T>)
  {
    forall i, k :: 0 <= i < k < |s| ==> s[i] != s[k]
  }

  /** The job -> position map built by enumerating the genome into a Python
      dict comprehension: a later entry overwrites an earlier one, so a job
      that occurs more than once keeps the position of its last occurrence. */
  function JobIndices(g: Genome): map<JobId, int>
    decreases |g|
  {
    if g == [] then map[]
    else JobIndices(g[..|g| - 1])[g[|g| - 1].0 := |g| - 1]
  }

  /** Every job of the genome has an entry; each entry holds a position of
      its job, and no later position holds that job. */
  lemma {:induction false} JobIndicesExact(g: Genome)
    ensures forall i :: 0 <= i < |g| ==> g[i].0 in JobIndices(g)
    ensures forall j :: j in JobIndices(g) ==> 0 <= JobIndices(g)[j] < |g| && g[JobIndices(g)[j]].0 == j
    ensures forall j, k :: j in JobIndices(g) && JobIndices(g)[j] < k < |g| ==> g[k].0 != j
    decreases |g|
  {
    if g != [] {
      var front := g[..|g| - 1];
      JobIndicesExact(front);
      assert forall i :: 0 <= i < |front| ==> front[i] == g[i];
    }
  }

  /** The position of a job, or -1 when the job is absent. */
  function Position(idx: map<JobId, int>, j: JobId): int
  {
    if j in idx then idx[j] else -1
  }

  /** In a genome without repeated jobs, the position map is exact. */
  lemma {:induction false} PositionOfDistinct(g: Genome, i: int)
    requires Distinct(Jobs(g))
    requires 0 <= i < |g|
    ensures Position(JobIndices(g), g[i].0) == i
  {
    JobIndicesExact(g);
    var idx := JobIndices(g);
    var js := Jobs(g);
    var k := idx[g[i].0];
    assert js[k] == js[i];
    assert !(k < i);
    assert !(i < k);
  }

  /** A job is absent from a genome exactly when the position map lacks it. */
  lemma {:induction false} PositionAbsent(g: Genome, j: JobId)
    ensures j in Jobs(g) <==> j in JobIndices(g)
    ensures j !in Jobs(g) ==> Position(JobIndices(g), j) == -1
  {
    JobIndicesExact(g);
    var idx := JobIndices(g);
    if j in idx {
      assert Jobs(g)[idx[j]] == j;
    }
  }

  /** Appending a gene records its position for its job. */
  lemma {:induction false} JobIndicesSnoc(g: Genome, x: Gene)
    ensures JobIndices(g + [x]) == JobIndices(g)[x.0 := |g|]
  {
    assert (g + [x])[..|g|] == g;
  }
}
