/** Model of the job / stage / task-group completion bookkeeping of the master.

    A manager holds the state of one job, of each stage of its physical plan and of
    each task group of each stage. Reports change one state at a time, and only
    along the transitions listed below; completion is never reported for a stage or
    derived for the job from outside: a task group's COMPLETE report completes its
    stage once all of the stage's task groups are COMPLETE, and the completion of
    the last stage completes the job. An explicit job COMPLETE report is accepted
    while the job executes. */
module JobStateManager {
  import opened Wrappers

  type StageId = string

  /** A task group is identified by its stage and its index within the stage. */
  datatype TaskGroupId = TaskGroupId(stage: StageId, index: nat)

  datatype JobState = Ready | Executing | Complete | Failed

  datatype StageState = Ready | Executing | Complete | Failed

  datatype TaskGroupState = Ready | Executing | Complete | FailedRecoverable | FailedUnrecoverable | OnHold

  /** A physical plan: its name, its stages in topological order, and each stage's
      parallelism (the number of its task groups). */
  datatype Plan = Plan(name: string, order: seq<StageId>, parallelism: map<StageId, nat>)

  /** The state a manager tracks for one submitted job. */
  datatype Manager = Manager(
    jobId: string,
    plan: Plan,
    job: JobState,
    stages: map<StageId, StageState>,
    taskGroups: map<TaskGroupId, TaskGroupState>)

  /** The failures a report can cause: an id the plan does not know, or a transition
      outside the state machine's table (naming entity, current state and target). */
  datatype Error =
    | UnknownStage(stageId: StageId)
    | UnknownTaskGroup(taskGroupId: TaskGroupId)
    | IllegalJobTransition(jobFrom: JobState, jobTo: JobState)
    | IllegalStageTransition(stage: StageId, stageFrom: StageState, stageTo: StageState)
    | IllegalTaskGroupTransition(taskGroup: TaskGroupId, taskGroupFrom: TaskGroupState, taskGroupTo: TaskGroupState)

  /** One externally reported state change. */
  datatype Report =
    | JobReport(jobTarget: JobState)
    | StageReport(stageId: StageId, stageTarget: StageState)
    | TaskGroupReport(taskGroupId: TaskGroupId, taskGroupTarget: TaskGroupState)

  /** Stage ids are listed once each, and the listed stages are the stages with a parallelism. */
  ghost predicate WellFormed(plan: Plan) {
    && (forall i, j :: 0 <= i < j < |plan.order| ==> plan.order[i] != plan.order[j])
    && (forall s :: s in plan.parallelism <==> s in plan.order)
  }

  predicate IsTaskGroupOf(plan: Plan, t: TaskGroupId) {
    t.stage in plan.parallelism && t.index < plan.parallelism[t.stage]
  }

  function TaskGroupIds(plan: Plan): (ids: set<TaskGroupId>)
    ensures forall t :: t in ids <==> IsTaskGroupOf(plan, t)
  {
    var ids := set s, i: nat | s in plan.parallelism && i < plan.parallelism[s] :: TaskGroupId(s, i);
    assert forall t :: IsTaskGroupOf(plan, t) ==> TaskGroupId(t.stage, t.index) in ids;
    ids
  }

  /** The task groups of stage s with index below n. */
  function FirstTaskGroups(s: StageId, n: nat): set<TaskGroupId> {
    set i: nat | i < n :: TaskGroupId(s, i)
  }

  lemma {:induction false} FirstTaskGroupsCount(s: StageId, n: nat)
    ensures |FirstTaskGroups(s, n)| == n
    decreases n
  {
    if n > 0 {
      assert FirstTaskGroups(s, n) == FirstTaskGroups(s, n - 1) + {TaskGroupId(s, n - 1)};
      FirstTaskGroupsCount(s, n - 1);
    }
  }

  /** A stage has exactly as many task groups as its parallelism, so the task group whose
      index is one less than that count is its last one. */
  lemma StageTaskGroupCount(plan: Plan, s: StageId)
    requires s in plan.parallelism
    ensures |set t | t in TaskGroupIds(plan) && t.stage == s| == plan.parallelism[s]
    ensures plan.parallelism[s] > 0 ==>
              TaskGroupId(s, plan.parallelism[s] - 1) in TaskGroupIds(plan)
              && forall t :: t in TaskGroupIds(plan) && t.stage == s ==> t.index <= plan.parallelism[s] - 1
  {
    var n := plan.parallelism[s];
    var ofStage := set t | t in TaskGroupIds(plan) && t.stage == s;
    forall t | t in ofStage
      ensures t in FirstTaskGroups(s, n)
    {
      assert t == TaskGroupId(s, t.index);
    }
    forall t | t in FirstTaskGroups(s, n)
      ensures t in ofStage
    {
      assert IsTaskGroupOf(plan, t);
    }
    assert ofStage == FirstTaskGroups(s, n);
    FirstTaskGroupsCount(s, n);
    if n > 0 {
      assert IsTaskGroupOf(plan, TaskGroupId(s, n - 1));
    }
  }

  // ---------------------------------------------------------------------------
  // Transition tables (the transitions the manager's test exercises)

  predicate JobReportLegal(from: JobState, to: JobState) {
    from == JobState.Executing && to == JobState.Complete
  }

  predicate StageReportLegal(from: StageState, to: StageState) {
    from == StageState.Ready && to == StageState.Executing
  }

  predicate TaskGroupReportLegal(from: TaskGroupState, to: TaskGroupState) {
    || (from == TaskGroupState.Ready && to == TaskGroupState.Executing)
    || (from == TaskGroupState.Executing && to == TaskGroupState.Complete)
  }

  // ---------------------------------------------------------------------------
  // Queries

  /** `checkStageCompletion`: every task group of the stage is COMPLETE. */
  predicate CheckStageCompletion(m: Manager, s: StageId) {
    && s in m.plan.parallelism
    && forall i :: 0 <= i < m.plan.parallelism[s] ==>
         TaskGroupId(s, i) in m.taskGroups && m.taskGroups[TaskGroupId(s, i)] == TaskGroupState.Complete
  }

  predicate AllStagesComplete(m: Manager) {
    forall s :: s in m.stages ==> m.stages[s] == StageState.Complete
  }

  /** `checkJobTermination`: the job is COMPLETE or FAILED. */
  predicate CheckJobTermination(m: Manager) {
    m.job == JobState.Complete || m.job == JobState.Failed
  }

  /** `waitUntilFinish`, without the waiting: the job state it returns. */
  function WaitUntilFinish(m: Manager): JobState {
    m.job
  }

  /** `getIdToTaskGroupStates`. */
  function GetIdToTaskGroupStates(m: Manager): map<TaskGroupId, TaskGroupState> {
    m.taskGroups
  }

  // ---------------------------------------------------------------------------
  // Construction and reports

  /** A manager for a freshly submitted plan: the job executing, every stage and task
      group ready. This holds for a plan without stages too. */
  function New(plan: Plan): (m: Manager)
    ensures m.jobId == plan.name && m.plan == plan
    ensures m.job == JobState.Executing && !CheckJobTermination(m)
    ensures m.stages.Keys == plan.parallelism.Keys
    ensures forall s :: s in m.stages ==> m.stages[s] == StageState.Ready
    ensures forall t :: t in m.taskGroups <==> IsTaskGroupOf(plan, t)
    ensures forall t :: t in m.taskGroups ==> m.taskGroups[t] == TaskGroupState.Ready
  {
    Manager(plan.name, plan, JobState.Executing,
            map s | s in plan.parallelism :: StageState.Ready,
            map t | t in TaskGroupIds(plan) :: TaskGroupState.Ready)
  }

  /** `onJobStateChanged`. */
  function OnJobStateChanged(m: Manager, target: JobState): (r: Result<Manager, Error>)
    ensures r.Success? <==> JobReportLegal(m.job, target)
    ensures r.Success? ==> r.value == m.(job := target)
    ensures r.Failure? ==> r.error == IllegalJobTransition(m.job, target)
  {
    if JobReportLegal(m.job, target) then Success(m.(job := target))
    else Failure(IllegalJobTransition(m.job, target))
  }

  /** `onStageStateChanged`. */
  function OnStageStateChanged(m: Manager, s: StageId, target: StageState): (r: Result<Manager, Error>)
    ensures r.Success? <==> s in m.stages && StageReportLegal(m.stages[s], target)
    ensures r.Success? ==> r.value == m.(stages := m.stages[s := target])
    ensures r.Failure? ==>
              r.error == (if s !in m.stages then UnknownStage(s) else IllegalStageTransition(s, m.stages[s], target))
  {
    if s !in m.stages then Failure(UnknownStage(s))
    else if !StageReportLegal(m.stages[s], target) then Failure(IllegalStageTransition(s, m.stages[s], target))
    else Success(m.(stages := m.stages[s := target]))
  }

  /** The derived completion of a stage whose task groups are all COMPLETE, and of the
      job when that was the last incomplete stage; both go through their tables. */
  function CompleteStage(m: Manager, s: StageId): Result<Manager, Error> {
    if s !in m.stages then Failure(UnknownStage(s))
    else if m.stages[s] != StageState.Executing then
      Failure(IllegalStageTransition(s, m.stages[s], StageState.Complete))
    else
      var m1 := m.(stages := m.stages[s := StageState.Complete]);
      if AllStagesComplete(m1) then OnJobStateChanged(m1, JobState.Complete) else Success(m1)
  }

  /** `onTaskGroupStateChanged`. */
  function OnTaskGroupStateChanged(m: Manager, t: TaskGroupId, target: TaskGroupState): (r: Result<Manager, Error>)
    ensures var m1 := m.(taskGroups := m.taskGroups[t := target]);
            r.Success? <==>
              && t in m.taskGroups
              && TaskGroupReportLegal(m.taskGroups[t], target)
              && (target == TaskGroupState.Complete && CheckStageCompletion(m1, t.stage) ==>
                    && t.stage in m.stages
                    && m.stages[t.stage] == StageState.Executing
                    && (AllStagesComplete(m1.(stages := m.stages[t.stage := StageState.Complete])) ==>
                          m.job == JobState.Executing))
    ensures r.Failure? && t !in m.taskGroups ==> r.error == UnknownTaskGroup(t)
    ensures r.Failure? && t in m.taskGroups && !TaskGroupReportLegal(m.taskGroups[t], target) ==>
              r.error == IllegalTaskGroupTransition(t, m.taskGroups[t], target)
    ensures r.Success? ==> r.value.taskGroups == m.taskGroups[t := target]
    ensures r.Success? ==> r.value.plan == m.plan && r.value.jobId == m.jobId && r.value.stages.Keys == m.stages.Keys
    ensures r.Success? && target == TaskGroupState.Complete && CheckStageCompletion(r.value, t.stage) ==>
              && r.value.stages == m.stages[t.stage := StageState.Complete]
              && r.value.job == (if AllStagesComplete(r.value) then JobState.Complete else m.job)
    ensures r.Success? && !(target == TaskGroupState.Complete && CheckStageCompletion(r.value, t.stage)) ==>
              r.value.stages == m.stages && r.value.job == m.job
  {
    if t !in m.taskGroups then Failure(UnknownTaskGroup(t))
    else if !TaskGroupReportLegal(m.taskGroups[t], target) then
      Failure(IllegalTaskGroupTransition(t, m.taskGroups[t], target))
    else
      var m1 := m.(taskGroups := m.taskGroups[t := target]);
      if target == TaskGroupState.Complete && CheckStageCompletion(m1, t.stage) then CompleteStage(m1, t.stage)
      else Success(m1)
  }

  function OnReport(m: Manager, r: Report): Result<Manager, Error> {
    match r
    case JobReport(target) => OnJobStateChanged(m, target)
    case StageReport(s, target) => OnStageStateChanged(m, s, target)
    case TaskGroupReport(t, target) => OnTaskGroupStateChanged(m, t, target)
  }

  /** Applies reports in order, stopping at the first failure. */
  function Run(m: Manager, trace: seq<Report>): Result<Manager, Error>
    decreases |trace|
  {
    if trace == [] then Success(m)
    else
      var next :- OnReport(m, trace[0]);
      Run(next, trace[1..])
  }

  lemma {:induction false} RunAppend(m: Manager, a: seq<Report>, b: seq<Report>)
    ensures Run(m, a + b) == (match Run(m, a) case Failure(e) => Failure(e) case Success(m1) => Run(m1, b))
    decreases |a|
  {
    if a == [] {
      assert a + b == b;
    } else {
      assert (a + b)[0] == a[0];
      assert (a + b)[1..] == a[1..] + b;
      if OnReport(m, a[0]).Success? {
        RunAppend(OnReport(m, a[0]).value, a[1..], b);
      }
    }
  }

  // ---------------------------------------------------------------------------
  // The completion invariant

  /** A stage is COMPLETE exactly when it has task groups and all of them are COMPLETE,
      and once every stage is COMPLETE the job is too. */
  ghost predicate Valid(m: Manager) {
    && WellFormed(m.plan)
    && m.jobId == m.plan.name
    && m.stages.Keys == m.plan.parallelism.Keys
    && (forall t :: t in m.taskGroups <==> IsTaskGroupOf(m.plan, t))
    && (forall s :: s in m.stages ==>
          (m.stages[s] == StageState.Complete <==> m.plan.parallelism[s] > 0 && CheckStageCompletion(m, s)))
    && (m.stages != map[] && AllStagesComplete(m) ==> m.job == JobState.Complete)
  }

  lemma NewIsValid(plan: Plan)
    requires WellFormed(plan)
    ensures Valid(New(plan))
  {
    var m := New(plan);
    forall s | s in m.stages && plan.parallelism[s] > 0
      ensures !CheckStageCompletion(m, s)
    {
      assert IsTaskGroupOf(plan, TaskGroupId(s, 0));
    }
    if m.stages != map[] {
      var s :| s in m.stages;
      assert m.stages[s] == StageState.Ready;
    }
  }

  /** Every accepted report keeps the invariant. */
  lemma OnReportPreservesValid(m: Manager, r: Report)
    requires Valid(m)
    requires OnReport(m, r).Success?
    ensures Valid(OnReport(m, r).value)
  {
    var m' := OnReport(m, r).value;
    match r
    case JobReport(target) =>
      assert m'.stages == m.stages && m'.taskGroups == m.taskGroups;
      forall s | s in m'.stages
        ensures CheckStageCompletion(m', s) == CheckStageCompletion(m, s)
      {
      }
    case StageReport(s0, target) =>
      forall s | s in m'.stages
        ensures CheckStageCompletion(m', s) == CheckStageCompletion(m, s)
      {
      }
      assert m'.stages[s0] != StageState.Complete;
    case TaskGroupReport(t, target) =>
      TaskGroupReportPreservesValid(m, t, target);
  }

  lemma TaskGroupReportPreservesValid(m: Manager, t: TaskGroupId, target: TaskGroupState)
    requires Valid(m)
    requires OnTaskGroupStateChanged(m, t, target).Success?
    ensures Valid(OnTaskGroupStateChanged(m, t, target).value)
  {
    var m' := OnTaskGroupStateChanged(m, t, target).value;
    var s0 := t.stage;
    assert IsTaskGroupOf(m.plan, t);
    // Before the report the task group was not COMPLETE, so its stage was not either.
    assert !CheckStageCompletion(m, s0) by {
      assert m.taskGroups[TaskGroupId(s0, t.index)] != TaskGroupState.Complete;
    }
    OtherStagesUnaffected(m, m', t);
    if target == TaskGroupState.Complete && CheckStageCompletion(m', s0) {
      assert m'.stages == m.stages[s0 := StageState.Complete];
      assert AllStagesComplete(m') ==> m'.job == JobState.Complete;
      ValidAfterStageCompletion(m, m', s0);
    } else {
      assert !CheckStageCompletion(m', s0) by {
        if target != TaskGroupState.Complete {
          assert m'.taskGroups[TaskGroupId(s0, t.index)] != TaskGroupState.Complete;
        }
      }
      ValidWithoutStageChange(m, m', s0);
    }
  }

  /** The invariant after a report that completed stage s0. */
  lemma ValidAfterStageCompletion(m: Manager, m': Manager, s0: StageId)
    requires Valid(m)
    requires m'.plan == m.plan && m'.jobId == m.jobId
    requires forall u :: u in m'.taskGroups <==> u in m.taskGroups
    requires s0 in m.stages && m'.stages == m.stages[s0 := StageState.Complete]
    requires m.plan.parallelism[s0] > 0 && CheckStageCompletion(m', s0)
    requires forall s :: s != s0 ==> CheckStageCompletion(m', s) == CheckStageCompletion(m, s)
    requires AllStagesComplete(m') ==> m'.job == JobState.Complete
    ensures Valid(m')
  {
  }

  /** The invariant after a report that changed no stage and left stage s0 incomplete. */
  lemma ValidWithoutStageChange(m: Manager, m': Manager, s0: StageId)
    requires Valid(m)
    requires m'.plan == m.plan && m'.jobId == m.jobId
    requires forall u :: u in m'.taskGroups <==> u in m.taskGroups
    requires m'.stages == m.stages && m'.job == m.job
    requires !CheckStageCompletion(m, s0) && !CheckStageCompletion(m', s0)
    requires forall s :: s != s0 ==> CheckStageCompletion(m', s) == CheckStageCompletion(m, s)
    ensures Valid(m')
  {
  }

  /** A task-group report leaves the completion of every other stage as it was. */
  lemma OtherStagesUnaffected(m: Manager, m': Manager, t: TaskGroupId)
    requires m'.plan == m.plan
    requires t in m.taskGroups
    requires forall u :: u in m'.taskGroups <==> u in m.taskGroups
    requires forall u :: u in m.taskGroups && u != t ==> m'.taskGroups[u] == m.taskGroups[u]
    ensures forall s :: s != t.stage ==> CheckStageCompletion(m', s) == CheckStageCompletion(m, s)
  {
    forall s | s != t.stage
      ensures CheckStageCompletion(m', s) == CheckStageCompletion(m, s)
    {
      assert forall i :: TaskGroupId(s, i) != t;
    }
  }

  /** Two reports in a row. */
  lemma RunPair(m: Manager, a: Report, b: Report)
    ensures Run(m, [a, b]) == (match OnReport(m, a) case Failure(e) => Failure(e) case Success(m1) => OnReport(m1, b))
  {
    assert [a, b][0] == a && [a, b][1..] == [b];
    if OnReport(m, a).Success? {
      var m1 := OnReport(m, a).value;
      assert Run(m, [a, b]) == Run(m1, [b]);
      assert [b][0] == b && [b][1..] == [];
      if OnReport(m1, b).Success? {
        assert Run(m1, [b]) == Run(OnReport(m1, b).value, []);
      }
    }
  }

  /** Every run of accepted reports keeps the invariant: in every reachable state a stage
      is COMPLETE exactly when all of its (one or more) task groups are COMPLETE. */
  lemma {:induction false} RunPreservesValid(m: Manager, trace: seq<Report>)
    requires Valid(m)
    requires Run(m, trace).Success?
    ensures Valid(Run(m, trace).value)
    decreases |trace|
  {
    if trace != [] {
      OnReportPreservesValid(m, trace[0]);
      RunPreservesValid(OnReport(m, trace[0]).value, trace[1..]);
    }
  }

  // ---------------------------------------------------------------------------
  // The traces of the manager's test

  function Parallelism(plan: Plan, s: StageId): nat {
    if s in plan.parallelism then plan.parallelism[s] else 0
  }

  /** Task groups j, j+1, ..., n-1 of stage s, each reported EXECUTING then COMPLETE. */
  function TaskGroupTrace(s: StageId, j: nat, n: nat): seq<Report>
    decreases n - j
  {
    if j >= n then []
    else
      [TaskGroupReport(TaskGroupId(s, j), TaskGroupState.Executing),
       TaskGroupReport(TaskGroupId(s, j), TaskGroupState.Complete)]
      + TaskGroupTrace(s, j + 1, n)
  }

  /** A stage reported EXECUTING, then all its task groups driven to COMPLETE. */
  function StageTrace(plan: Plan, s: StageId): seq<Report> {
    [StageReport(s, StageState.Executing)] + TaskGroupTrace(s, 0, Parallelism(plan, s))
  }

  /** The stages from position k on, in topological order. */
  function PlanTrace(plan: Plan, k: nat): seq<Report>
    decreases |plan.order| - k
  {
    if k >= |plan.order| then [] else StageTrace(plan, plan.order[k]) + PlanTrace(plan, k + 1)
  }

  /** Stages before position k are done, stage k is executing (if `started`) with its first j
      task groups COMPLETE, and everything after is still READY; the job executes. */
  ghost predicate Progress(m: Manager, plan: Plan, k: nat, j: nat, started: bool) {
    && WellFormed(plan)
    && k < |plan.order|
    && (!started ==> j == 0)
    && m.plan == plan
    && m.job == JobState.Executing
    && m.stages.Keys == plan.parallelism.Keys
    && (forall t :: t in m.taskGroups <==> IsTaskGroupOf(plan, t))
    && (forall x :: 0 <= x < |plan.order| ==>
          m.stages[plan.order[x]] ==
            (if x < k then StageState.Complete
             else if x == k && started then StageState.Executing
             else StageState.Ready))
    && (forall x, i :: 0 <= x < |plan.order| && 0 <= i < plan.parallelism[plan.order[x]] ==>
          m.taskGroups[TaskGroupId(plan.order[x], i)] ==
            (if x < k || (x == k && i < j) then TaskGroupState.Complete else TaskGroupState.Ready))
  }

  /** Stages up to position k are done and everything after is READY; the job is
      COMPLETE exactly when k is the last position. */
  ghost predicate Finished(m: Manager, plan: Plan, k: nat) {
    && WellFormed(plan)
    && k < |plan.order|
    && m.plan == plan
    && m.job == (if k + 1 == |plan.order| then JobState.Complete else JobState.Executing)
    && m.stages.Keys == plan.parallelism.Keys
    && (forall t :: t in m.taskGroups <==> IsTaskGroupOf(plan, t))
    && (forall x :: 0 <= x < |plan.order| ==>
          m.stages[plan.order[x]] == (if x <= k then StageState.Complete else StageState.Ready))
    && (forall x, i :: 0 <= x < |plan.order| && 0 <= i < plan.parallelism[plan.order[x]] ==>
          m.taskGroups[TaskGroupId(plan.order[x], i)] ==
            (if x <= k then TaskGroupState.Complete else TaskGroupState.Ready))
  }

  /** Reporting task group j of stage k EXECUTING and then COMPLETE is accepted; it
      completes the stage exactly when j is the last index, and the job exactly when
      that stage is also the last one. */
  lemma TaskGroupStep(m: Manager, plan: Plan, k: nat, j: nat)
    requires Progress(m, plan, k, j, true)
    requires j < plan.parallelism[plan.order[k]]
    ensures var s := plan.order[k];
            var trace := [TaskGroupReport(TaskGroupId(s, j), TaskGroupState.Executing),
                          TaskGroupReport(TaskGroupId(s, j), TaskGroupState.Complete)];
            && Run(m, trace).Success?
            && (j + 1 < plan.parallelism[s] ==> Progress(Run(m, trace).value, plan, k, j + 1, true))
            && (j + 1 == plan.parallelism[s] ==> Finished(Run(m, trace).value, plan, k))
  {
    var t := TaskGroupId(plan.order[k], j);
    assert IsTaskGroupOf(plan, t);
    assert m.taskGroups[t] == TaskGroupState.Ready;
    var m1 := m.(taskGroups := m.taskGroups[t := TaskGroupState.Executing]);
    assert OnTaskGroupStateChanged(m, t, TaskGroupState.Executing) == Success(m1);
    RunPair(m, TaskGroupReport(t, TaskGroupState.Executing), TaskGroupReport(t, TaskGroupState.Complete));
    if j + 1 < plan.parallelism[plan.order[k]] {
      CompleteInnerTaskGroup(m, plan, k, j);
    } else {
      CompleteLastTaskGroup(m, plan, k, j);
    }
  }

  /** The COMPLETE report of a task group that is not the stage's last leaves the stage executing. */
  lemma CompleteInnerTaskGroup(m: Manager, plan: Plan, k: nat, j: nat)
    requires Progress(m, plan, k, j, true)
    requires j + 1 < plan.parallelism[plan.order[k]]
    ensures var t := TaskGroupId(plan.order[k], j);
            var m1 := m.(taskGroups := m.taskGroups[t := TaskGroupState.Executing]);
            var m2 := m.(taskGroups := m.taskGroups[t := TaskGroupState.Complete]);
            && OnTaskGroupStateChanged(m1, t, TaskGroupState.Complete) == Success(m2)
            && Progress(m2, plan, k, j + 1, true)
  {
    var s := plan.order[k];
    var n := plan.parallelism[s];
    var t := TaskGroupId(s, j);
    var m1 := m.(taskGroups := m.taskGroups[t := TaskGroupState.Executing]);
    var m2 := m.(taskGroups := m.taskGroups[t := TaskGroupState.Complete]);
    CompleteOneTaskGroup(m, plan, k, j);
    assert m1.taskGroups[t := TaskGroupState.Complete] == m2.taskGroups;
    assert !CheckStageCompletion(m2, s) by {
      assert m2.taskGroups[TaskGroupId(plan.order[k], n - 1)] == TaskGroupState.Ready;
    }
  }

  /** The COMPLETE report of a stage's last task group completes the stage, and the job
      when the stage is the last one. */
  lemma CompleteLastTaskGroup(m: Manager, plan: Plan, k: nat, j: nat)
    requires Progress(m, plan, k, j, true)
    requires j + 1 == plan.parallelism[plan.order[k]]
    ensures var t := TaskGroupId(plan.order[k], j);
            var m1 := m.(taskGroups := m.taskGroups[t := TaskGroupState.Executing]);
            && OnTaskGroupStateChanged(m1, t, TaskGroupState.Complete).Success?
            && Finished(OnTaskGroupStateChanged(m1, t, TaskGroupState.Complete).value, plan, k)
  {
    var s := plan.order[k];
    var t := TaskGroupId(s, j);
    var m1 := m.(taskGroups := m.taskGroups[t := TaskGroupState.Executing]);
    var m2 := m.(taskGroups := m.taskGroups[t := TaskGroupState.Complete]);
    CompleteOneTaskGroup(m, plan, k, j);
    assert m1.taskGroups[t := TaskGroupState.Complete] == m2.taskGroups;
    assert CheckStageCompletion(m2, s);
    var m3 := m2.(stages := m2.stages[s := StageState.Complete]);
    CompleteStageStates(m2, plan, k);
    if k + 1 < |plan.order| {
      assert OnTaskGroupStateChanged(m1, t, TaskGroupState.Complete) == Success(m3);
    } else {
      assert OnTaskGroupStateChanged(m1, t, TaskGroupState.Complete) == Success(m3.(job := JobState.Complete));
    }
  }

  /** Task group j of the executing stage k turned COMPLETE: the progress moves to j + 1. */
  lemma CompleteOneTaskGroup(m: Manager, plan: Plan, k: nat, j: nat)
    requires Progress(m, plan, k, j, true)
    requires j < plan.parallelism[plan.order[k]]
    ensures var m2 := m.(taskGroups := m.taskGroups[TaskGroupId(plan.order[k], j) := TaskGroupState.Complete]);
            && (forall t :: t in m2.taskGroups <==> IsTaskGroupOf(plan, t))
            && (forall x, i :: 0 <= x < |plan.order| && 0 <= i < plan.parallelism[plan.order[x]] ==>
                  m2.taskGroups[TaskGroupId(plan.order[x], i)] ==
                    (if x < k || (x == k && i < j + 1) then TaskGroupState.Complete else TaskGroupState.Ready))
  {
    var t := TaskGroupId(plan.order[k], j);
    assert IsTaskGroupOf(plan, t);
    var m2 := m.(taskGroups := m.taskGroups[t := TaskGroupState.Complete]);
    forall x, i | 0 <= x < |plan.order| && 0 <= i < plan.parallelism[plan.order[x]]
      ensures m2.taskGroups[TaskGroupId(plan.order[x], i)] ==
                (if x < k || (x == k && i < j + 1) then TaskGroupState.Complete else TaskGroupState.Ready)
    {
      if x == k && i == j {
      } else {
        assert TaskGroupId(plan.order[x], i) != t;
      }
    }
  }

  /** Stage k's last task group turned COMPLETE: completing the stage leaves every stage up
      to k COMPLETE, and all stages are COMPLETE exactly when k is the last position. */
  lemma CompleteStageStates(m: Manager, plan: Plan, k: nat)
    requires WellFormed(plan) && k < |plan.order| && m.stages.Keys == plan.parallelism.Keys
    requires forall x :: 0 <= x < |plan.order| ==>
               m.stages[plan.order[x]] ==
                 (if x < k then StageState.Complete else if x == k then StageState.Executing else StageState.Ready)
    ensures var m3 := m.(stages := m.stages[plan.order[k] := StageState.Complete]);
            && (forall x :: 0 <= x < |plan.order| ==>
                  m3.stages[plan.order[x]] == (if x <= k then StageState.Complete else StageState.Ready))
            && (AllStagesComplete(m3) <==> k + 1 == |plan.order|)
  {
    var m3 := m.(stages := m.stages[plan.order[k] := StageState.Complete]);
    if k + 1 < |plan.order| {
      assert m3.stages[plan.order[k + 1]] == StageState.Ready;
    } else {
      forall s' | s' in m3.stages
        ensures m3.stages[s'] == StageState.Complete
      {
        var x :| 0 <= x < |plan.order| && plan.order[x] == s';
      }
    }
  }

  lemma {:induction false} TaskGroupsComplete(m: Manager, plan: Plan, k: nat, j: nat)
    requires Progress(m, plan, k, j, true)
    requires j < plan.parallelism[plan.order[k]]
    ensures Run(m, TaskGroupTrace(plan.order[k], j, plan.parallelism[plan.order[k]])).Success?
    ensures Finished(Run(m, TaskGroupTrace(plan.order[k], j, plan.parallelism[plan.order[k]])).value, plan, k)
    decreases plan.parallelism[plan.order[k]] - j
  {
    var s := plan.order[k];
    var n := plan.parallelism[s];
    var step := [TaskGroupReport(TaskGroupId(s, j), TaskGroupState.Executing),
                 TaskGroupReport(TaskGroupId(s, j), TaskGroupState.Complete)];
    TaskGroupStep(m, plan, k, j);
    RunAppend(m, step, TaskGroupTrace(s, j + 1, n));
    assert TaskGroupTrace(s, j, n) == step + TaskGroupTrace(s, j + 1, n);
    var next := Run(m, step).value;
    if j + 1 < n {
      assert Progress(next, plan, k, j + 1, true);
      TaskGroupsComplete(next, plan, k, j + 1);
    } else {
      assert TaskGroupTrace(s, j + 1, n) == [];
      assert Run(next, []) == Success(next);
    }
  }

  /** Driving one stage as the test does: report it EXECUTING, then each task group
      EXECUTING and COMPLETE. Afterwards the stage's completion check holds and the
      task-group map shows all its task groups COMPLETE. */
  lemma DriveStage(m: Manager, plan: Plan, k: nat)
    requires Progress(m, plan, k, 0, false)
    requires plan.parallelism[plan.order[k]] > 0
    ensures Run(m, StageTrace(plan, plan.order[k])).Success?
    ensures var m' := Run(m, StageTrace(plan, plan.order[k])).value;
            && Finished(m', plan, k)
            && CheckStageCompletion(m', plan.order[k])
            && (forall i :: 0 <= i < plan.parallelism[plan.order[k]] ==>
                  GetIdToTaskGroupStates(m')[TaskGroupId(plan.order[k], i)] == TaskGroupState.Complete)
  {
    var s := plan.order[k];
    var n := plan.parallelism[s];
    var m1 := m.(stages := m.stages[s := StageState.Executing]);
    assert OnReport(m, StageReport(s, StageState.Executing)) == Success(m1);
    assert Progress(m1, plan, k, 0, true) by {
      forall x | 0 <= x < |plan.order|
        ensures m1.stages[plan.order[x]] ==
                  (if x < k then StageState.Complete else if x == k then StageState.Executing else StageState.Ready)
      {
      }
    }
    RunAppend(m, [StageReport(s, StageState.Executing)], TaskGroupTrace(s, 0, n));
    TaskGroupsComplete(m1, plan, k, 0);
    var m' := Run(m, StageTrace(plan, s)).value;
    assert CheckStageCompletion(m', s) by {
      forall i | 0 <= i < n
        ensures TaskGroupId(s, i) in m'.taskGroups && m'.taskGroups[TaskGroupId(s, i)] == TaskGroupState.Complete
      {
        assert IsTaskGroupOf(plan, TaskGroupId(plan.order[k], i));
      }
    }
  }

  lemma {:induction false} DriveStagesFrom(m: Manager, plan: Plan, k: nat)
    requires Progress(m, plan, k, 0, false)
    requires forall s :: s in plan.parallelism ==> plan.parallelism[s] > 0
    ensures Run(m, PlanTrace(plan, k)).Success?
    ensures Finished(Run(m, PlanTrace(plan, k)).value, plan, |plan.order| - 1)
    decreases |plan.order| - k
  {
    var s := plan.order[k];
    DriveStage(m, plan, k);
    RunAppend(m, StageTrace(plan, s), PlanTrace(plan, k + 1));
    var m' := Run(m, StageTrace(plan, s)).value;
    if k + 1 < |plan.order| {
      assert Progress(m', plan, k + 1, 0, false);
      DriveStagesFrom(m', plan, k + 1);
    } else {
      assert PlanTrace(plan, k + 1) == [];
    }
  }

  /** The state-change test: on a well-formed plan with at least one stage, each stage of
      positive parallelism, driving every stage in topological order (stage EXECUTING,
      then each task group EXECUTING and COMPLETE) is accepted throughout and leaves every
      task group and stage COMPLETE and the job COMPLETE, though neither a stage nor the
      job was ever reported COMPLETE. */
  lemma DrivingEveryStageCompletesJob(plan: Plan)
    requires WellFormed(plan)
    requires |plan.order| > 0
    requires forall s :: s in plan.parallelism ==> plan.parallelism[s] > 0
    ensures Run(New(plan), PlanTrace(plan, 0)).Success?
    ensures var m := Run(New(plan), PlanTrace(plan, 0)).value;
            && m.job == JobState.Complete
            && CheckJobTermination(m)
            && (forall t :: t in m.taskGroups ==> m.taskGroups[t] == TaskGroupState.Complete)
            && (forall s :: s in plan.parallelism ==>
                  s in m.stages && m.stages[s] == StageState.Complete && CheckStageCompletion(m, s))
  {
    var m0 := New(plan);
    assert Progress(m0, plan, 0, 0, false) by {
      forall x, i | 0 <= x < |plan.order| && 0 <= i < plan.parallelism[plan.order[x]]
        ensures m0.taskGroups[TaskGroupId(plan.order[x], i)] == TaskGroupState.Ready
      {
        assert IsTaskGroupOf(plan, TaskGroupId(plan.order[x], i));
      }
    }
    DriveStagesFrom(m0, plan, 0);
    var m := Run(m0, PlanTrace(plan, 0)).value;
    forall t | t in m.taskGroups
      ensures m.taskGroups[t] == TaskGroupState.Complete
    {
      var x :| 0 <= x < |plan.order| && plan.order[x] == t.stage;
      assert t == TaskGroupId(plan.order[x], t.index);
    }
    forall s | s in plan.parallelism
      ensures s in m.stages && m.stages[s] == StageState.Complete && CheckStageCompletion(m, s)
    {
      var x :| 0 <= x < |plan.order| && plan.order[x] == s;
      forall i | 0 <= i < plan.parallelism[s]
        ensures TaskGroupId(s, i) in m.taskGroups && m.taskGroups[TaskGroupId(s, i)] == TaskGroupState.Complete
      {
        assert IsTaskGroupOf(plan, TaskGroupId(s, i));
      }
    }
  }

  /** The wait test: a fresh job, even of a plan without stages, is not terminated and
      waiting returns EXECUTING; after an explicit job COMPLETE report waiting returns
      COMPLETE. */
  lemma WaitUntilFinishTrace(plan: Plan)
    ensures !CheckJobTermination(New(plan))
    ensures WaitUntilFinish(New(plan)) == JobState.Executing
    ensures Run(New(plan), [JobReport(JobState.Complete)]).Success?
    ensures var m := Run(New(plan), [JobReport(JobState.Complete)]).value;
            && WaitUntilFinish(m) == JobState.Complete
            && CheckJobTermination(m)
  {
    assert [JobReport(JobState.Complete)][1..] == [];
  }
}
