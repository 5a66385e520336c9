# Scheduling engine core in Dafny

A model of the two pure, sequential pieces of a genetic-algorithm job-shop
scheduler:

- the **schedule simulator** (`evaluate_schedule`), which turns a genome — a
  sequence of (job, machine) genes — into the fitness vector
  (total lateness, makespan, −total profit, violation penalty), all minimised.
  It first counts precedence violations by position, then runs a forward
  discrete-event simulation with one ready time per machine that also waits
  for predecessors already simulated;
- the **genome operators**: `create_individual`, which pairs a shuffled job
  list with machine choices, and `repair_individual`, a single forward pass
  over the precedence list that swaps whole genes and keeps a job → index map
  beside the genome.

Modules: `Problem` (problem data, genome, the job → position map shared by
the evaluator and repair), `Sums` (sums over sequences and their invariance
under reordering), `Evaluator`, `Operators`, and `Scenarios` (small concrete
problems worked through the model).

Modelling choices:

- Times, profits, deadlines and penalty weights are integers.
- The job → position map is built as the source builds it: a job that occurs
  twice keeps its last position, and an absent job reads as −1.
- The simulator's lookups can fail: an unknown job, a machine the job has no
  processing time for, or a machine outside the machine list. Only `Evaluate`
  is guarded: it requires `Evaluable`, which is exactly the absence of these
  failures. The simulation itself (`Simulate`, `StartAt`, `FinishAt`) is
  total, and its accessors read 0 for a missing processing time, profit or
  deadline. The timing lemmas (`StepTiming`, `GeneTiming`,
  `ReadyTimeNeverDecreases`, `MachineFinishesNonDecreasing`,
  `CompletionOfEarlierGene`, `EmptyPrecedenceMachineLoad`) hold for every
  genome. Off `Evaluable` they describe this 0-default simulation, where the
  source would instead stop with an error.
- Repair is total. When a predecessor is present and its successor absent,
  the successor's index is −1, and Python list indexing reads −1 as the
  last element. `RepairStep` models that wrap-around through `ListIndex`, and
  `Scenarios.RepairAbsentSuccessorTakesLast` shows it on a concrete genome.
  Gene-multiset preservation is proved for every input. The index-map
  properties assume non-repeated jobs and precedence pairs over present jobs.
- `create_individual`'s randomness becomes two inputs: the shuffled job list
  (`order`, any ordering of the job keys) and the index of the chosen machine
  for each job (`choices`).
- A problem without a precedence entry is modelled as an empty precedence
  list.
- The timing rule only looks back at predecessors that are already
  simulated. A predecessor placed later is counted as a violation but does
  not delay its successor. The model keeps this asymmetry, and
  `Scenarios.ScenarioInvertedPair` shows it.

## Model

| member | source | states |
|---|---|---|
| `Problem.JobIndicesExact` | src/evaluator.py:23-24 | every job of the genome has an entry in the position map, each entry is a position holding that job, and no later position holds it (the last occurrence wins) |
| `Problem.PositionOfDistinct` | src/evaluator.py:23-24 | without repeated jobs, the position map gives each gene's exact index |
| `Problem.PositionAbsent` | src/evaluator.py:28 | a job is absent from the genome exactly when the map lacks it, and its position then reads −1 |
| `Evaluator.CountViolations` | src/evaluator.py:26-29 | the violation count never exceeds the number of precedence pairs |
| `Evaluator.CountViolationsExtremes` | src/evaluator.py:26-29 | the count is 0 iff no pair is out of order, and equals the number of pairs iff every pair is |
| `Evaluator.CountViolationsAppend` | src/evaluator.py:26-29 | the count is additive over a split of the precedence list |
| `Evaluator.CountViolationsIsSum` | src/evaluator.py:26-29 | the count equals the sum, over the listed pairs, of 1 for each violated pair |
| `Evaluator.CountViolationsOrderIndependent` | src/evaluator.py:26-29 | two precedence lists holding the same pairs, in any order, give the same count |
| `Evaluator.MissingJobRule` | src/evaluator.py:28 | a present predecessor with an absent successor is a violation; an absent predecessor never is |
| `Evaluator.ViolatedIffOutOfOrder` | src/evaluator.py:23-29 | without repeated jobs, a pair of present jobs is violated iff the predecessor's index exceeds the successor's |
| `Evaluator.PredecessorFinish` | src/evaluator.py:38-43 | the predecessor wait is ≥ 0, at least the completion time of every already-completed predecessor, and either 0 or equal to one of them |
| `Evaluator.Makespan` | src/evaluator.py:58 | 0 with no machines; otherwise at least every machine's ready time and equal to one of them |
| `Evaluator.Evaluate` | src/evaluator.py:4-65 | makespan 0 without machines; lateness ≥ 0 when the per-unit weight is ≥ 0; third component is minus the sum of all genes' job profits; penalty between 0 and (number of pairs) × weight for a non-negative weight |
| `Evaluator.LatenessNonNegative` | src/evaluator.py:54-55 | accumulated lateness is ≥ 0 whenever the per-unit weight is ≥ 0 |
| `Evaluator.JobLatenessNonNegative` | src/evaluator.py:54-55 | one job's weighted lateness max(0, finish − deadline) × weight is ≥ 0 for a non-negative weight |
| `Evaluator.SimulatedProfitIsSum` | src/evaluator.py:53 | the accumulated profit equals the sum of the profits of the genes' jobs |
| `Evaluator.ProfitOrderIndependent` | src/evaluator.py:53 | two evaluable genomes with the same multiset of jobs have the same profit component, whatever their order and machines |
| `Evaluator.StepTiming` | src/evaluator.py:36-50 | a gene starts no earlier than its machine's ready time or any completed predecessor; its machine and its job both record start + processing time; other machines are unchanged |
| `Evaluator.CompletionOfEarlierGene` | src/evaluator.py:42-50 | without repeated jobs, each earlier gene's job is recorded as completed at that gene's finish time |
| `Evaluator.GeneTiming` | src/evaluator.py:36-46 | each gene starts at or after its machine's ready time; finish = start + processing time; without repeated jobs it starts at or after the finish of every predecessor placed before it |
| `Evaluator.ReadyTimeNeverDecreases` | src/evaluator.py:36-49 | with non-negative processing times, no machine's ready time decreases as the simulation advances |
| `Evaluator.MachineFinishesNonDecreasing` | src/evaluator.py:36-49 | with non-negative processing times, the finish times of the genes on one machine are non-decreasing in sequence order |
| `Evaluator.FinishWithinMakespan` | src/evaluator.py:49-58 | with non-negative processing times, the makespan is at least every gene's finish time |
| `Evaluator.EmptyPrecedenceNoPenalty` | src/evaluator.py:26-29 | with no precedence pairs the violation penalty is 0 |
| `Evaluator.EmptyPrecedenceMachineLoad` | src/evaluator.py:38-49 | with no precedence pairs and non-negative times, each machine's final ready time is the sum of the processing times of its genes |
| `Evaluator.EmptyPrecedenceMakespanOrderIndependent` | src/evaluator.py:38-58 | with no precedence pairs and non-negative times, genomes with the same multiset of genes have the same makespan |
| `Operators.JobOrderLength` | src/operators.py:10-11 | an ordering of the job keys has exactly one entry per job |
| `Operators.CreateIndividual` | src/operators.py:4-19 | one gene per job in the given order, so the job sequence is a permutation of the job set; every machine is drawn from the problem's machine list |
| `Operators.CreateCapableIndividual` | src/operators.py:13-18 | with machines drawn from those the job can run on, the individual is a job permutation that the simulator can always evaluate |
| `Operators.ListIndex` | src/operators.py:40 | the list element read for an index in −n..n−1 is the valid position congruent to the index modulo the length, so −1 reads the last element |
| `Operators.Swap` | src/operators.py:40 | exchanging two genes keeps the length and the gene multiset and touches only those two positions |
| `Operators.RepairStep` | src/operators.py:33-42 | processing one pair keeps the genome length and gene multiset, and keeps every recorded index in range or −1 |
| `Operators.RepairPass` | src/operators.py:32-42 | the whole pass keeps the genome length and gene multiset |
| `Operators.Repair` | src/operators.py:21-44 | the repaired genome has the input's length and the same multiset of whole genes |
| `Operators.SwapKeepsDistinct` | src/operators.py:40 | a swap keeps jobs non-repeated |
| `Operators.RepairStepKeepsSync` | src/operators.py:34-42 | for two present jobs, the index map stays exact after the step and has the same keys; for a ≠ b, a's index ends up below b's |
| `Operators.SyncedIndicesAreJobIndices` | src/operators.py:29-30 | an exact index map equals the map that enumerating the genome would build |
| `Operators.RepairIndicesStayExact` | src/operators.py:29-42 | with non-repeated jobs and all precedence jobs present, after every processed pair the index map equals the true positions |
| `Operators.RepairOrdersProcessedPair` | src/operators.py:37-42 | immediately after pair (a, b) with a ≠ b is processed, a is present and sits before b |
| `Operators.RepairKeepsMachines` | src/operators.py:38-40 | without repeated jobs, every job keeps the machine it had |
| `Operators.RepairKeepsEvaluable` | src/operators.py:40 | repairing an evaluable genome gives an evaluable genome |
| `Operators.RepairUnchangedWithoutViolations` | src/operators.py:32-38 | a genome in which the evaluator counts no violation is returned unchanged |
| `Operators.RepairSinglePairResolves` | src/operators.py:32-42 | with one precedence pair over present, non-repeated jobs, the repaired genome has zero violations |
| `Scenarios.ScenarioEitherOrder` | src/evaluator.py:32-65 | two 5-unit jobs on one machine with no precedence give (0, 10, −30, 0) in either order |
| `Scenarios.ScenarioLateJob` | src/evaluator.py:54-55 | a job due at 3 that finishes at 5 contributes lateness 2 |
| `Scenarios.ScenarioInvertedPair` | src/evaluator.py:26-46 | requiring J2 before J1 with J1 first costs one violation (penalty 1000), while the timing is unchanged: (0, 10, −30, 1000) |
| `Scenarios.ScenarioInvertedPairRepair` | src/operators.py:32-42 | one repair pass turns [J1, J2] into [J2, J1] |
| `Scenarios.RepairSinglePassMissesChains` | src/operators.py:22-24 | with order C, B, A and pairs (B, C), (A, B), one pass yields A, C, B, which still violates (B, C): the "all pairs satisfied" docstring does not hold for a single pass |
| `Scenarios.RepairAbsentSuccessorTakesLast` | src/operators.py:34-40 | a present predecessor with an absent successor changes places with the last gene |
| `Scenarios.CreateCanPickIncapableMachine` | src/operators.py:16 | a job that runs only on M1 can be given M2, and the result is not evaluable |
| `Scenarios.CreateCapableAlwaysEvaluable` | src/operators.py:16 | drawing from the job's capable machines gives the same job M1, and the result is evaluable |

## Left out

- The evolutionary loop, crossover, mutation, tournament and NSGA-II selection, the hall of fame and the statistics are left out. They live in src/ga_solver.py and in a third-party library whose code is not part of this model, and the statistics are floating point.
- Loading the problem file, parsing arguments, printing and writing results are left out because they are I/O (src/utils.py, src/ga_solver.py).
- Randomness in `create_individual` is not modelled. The shuffle and the machine draws are inputs.
- The failures of the simulator's lookups are preconditions (`Evaluable`), not modelled errors. An unknown job or a missing processing time raises an error in the source at src/evaluator.py:33, and so does an unknown machine at src/evaluator.py:36. `random.choice` on an empty machine list also raises, so `CreateIndividual`'s `choices` requirement rules it out.
- Operators.CreateIndividual: `order` must be an ordering of the job keys, because that is all the shuffle of the key list can produce.
- Repair's in-place mutation of the caller's list is modelled as returning a new genome.
- Floating-point inputs are left out. Every quantity is an integer.
- Evaluator.GeneTiming: the predecessor bound is stated for genomes without repeated jobs. With a repeated job, the completion map holds only that job's latest finish.
- Operators.RepairIndicesStayExact: stated only for non-repeated jobs whose precedence pairs name present jobs. Each excluded case can make the map disagree with the genome. With an absent successor, the wrap-around at −1 swaps with the last gene, whose job's entry is not updated. With a repeated job, the map keeps only the job's last copy, so an earlier copy between the two swapped positions becomes the new last one unnoticed. For example, [B, A, A] with pair (A, B) becomes [A, A, B], and the map says A ↦ 0 where enumeration gives A ↦ 1.
- The docstring's claim that every pair ends up ordered after one pass is not proved, because it is false. `Scenarios.RepairSinglePassMissesChains` gives a counterexample. Only the single-pair case and the per-pair ordering right after each step are proved.

## Findings

| source | as written | input that shows it | evidently intended | confidence | as-written member | corrected member |
|---|---|---|---|---|---|---|
| src/operators.py:16 | each job's machine is drawn from the whole machine list | job J1 with processing times only on M1, machines [M1, M2], draw index 1 → gene (J1, M2); evaluation then fails looking up J1's time on M2 (src/evaluator.py:33) | draw the machine from those the job lists a processing time for | medium, not executed | `Scenarios.CreateCanPickIncapableMachine` (on `Operators.CreateIndividual`) | `Operators.CreateCapableIndividual` (proved always evaluable; `Scenarios.CreateCapableAlwaysEvaluable`) |
