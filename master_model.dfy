/** The coordinator's state as a value, and each remote operation of the
    master package as a function from the old state to the new state and
    the reply. The class in module Master performs the same steps in
    place and is specified by these functions. */
module MasterModel {
  import opened Types
  import Scheduler

  /** The job-wide phase: IDLE, MAP, REDUCE, DONE. */
  datatype Phase = IdlePhase | MapPhase | ReducePhase | DonePhase

  /** The position of a phase in the order IDLE < MAP < REDUCE < DONE. */
  function Rank(p: Phase): nat
  {
    match p
    case IdlePhase => 0
    case MapPhase => 1
    case ReducePhase => 2
    case DonePhase => 3
  }

  /** The three errors the coordinator returns. */
  datatype MasterError =
    | Busy            // "master is busy with another job"
    | TaskNotFound    // "task not found"
    | WorkerMismatch  // "worker id does not match"

  datatype Result<T> = Ok(value: T) | Err(error: MasterError)

  datatype SubmitReply = SubmitReply(jobId: int, ack: bool)

  datatype ReportArgs = ReportArgs(workerId: int, taskId: int, taskType: TaskType)

  /** Every field of the Go Master struct except the lock. The done
      channel becomes doneSignals, the number of values sent on it; the
      queue is the buffer of the task queue. */
  datatype MasterState = MasterState(
    workers: map<int, string>,
    nextWorkerId: int,
    nextJobId: int,
    doneSignals: nat,
    phase: Phase,
    mapTasks: map<int, Task>,
    reduceTasks: map<int, Task>,
    queue: seq<TaskRef>,
    nMap: int,
    nReduce: int,
    completedMapTasks: int,
    completedReduceTasks: int)

  /** The number of iterations of `for i := 0; i < n; i++`. */
  function NonNeg(n: int): nat
  {
    if n < 0 then 0 else n
  }

  // ---------------------------------------------------------------------
  // Task tables and queue entries

  /** Map task i (1-based) reads the i-th input file. */
  function InputOf(files: seq<string>, i: int): string
    requires 1 <= i <= |files|
  {
    files[i - 1]
  }

  /** The first n map tasks SubmitJob's loop creates: ids 1..n. */
  function MapTasksUpTo(files: seq<string>, nReduce: int, n: int): map<int, Task>
    requires n <= |files|
  {
    map i | 1 <= i <= n :: Task(i, 0, nReduce, |files|, InputOf(files, i), MapTask, Idle)
  }

  /** The map tasks SubmitJob creates: ids 1..|files|. */
  function MapTable(files: seq<string>, nReduce: int): map<int, Task>
  {
    MapTasksUpTo(files, nReduce, |files|)
  }

  /** The queue entries SubmitJob pushes, in id order 1..n. */
  function MapRefs(n: nat): seq<TaskRef>
  {
    seq(n, i => TaskRef(MapTask, i + 1))
  }

  /** The first n reduce tasks createReduceTasks's loop creates: ids 0..n-1. */
  function ReduceTasksUpTo(nMap: int, nReduce: int, n: int): map<int, Task>
  {
    map i | 0 <= i < n :: Task(i, 0, nReduce, nMap, "", ReduceTask, Idle)
  }

  /** The reduce tasks createReduceTasks creates: ids 0..nReduce-1. */
  function ReduceTable(nMap: int, nReduce: int): map<int, Task>
  {
    ReduceTasksUpTo(nMap, nReduce, NonNeg(nReduce))
  }

  /** The queue entries createReduceTasks pushes, in id order 0..nReduce-1. */
  function ReduceRefs(nReduce: int): seq<TaskRef>
  {
    seq(NonNeg(nReduce), i => TaskRef(ReduceTask, i))
  }

  /** One more iteration of SubmitJob's loop adds map task n+1 and its
      queue entry. */
  lemma MapTasksStep(base: map<int, Task>, files: seq<string>, nReduce: int, n: int)
    requires 0 <= n < |files|
    ensures base + MapTasksUpTo(files, nReduce, n + 1)
         == (base + MapTasksUpTo(files, nReduce, n))[n + 1 := Task(n + 1, 0, nReduce, |files|, files[n], MapTask, Idle)]
    ensures MapRefs(n + 1) == MapRefs(n) + [TaskRef(MapTask, n + 1)]
  {
    assert MapTasksUpTo(files, nReduce, n + 1)
        == MapTasksUpTo(files, nReduce, n)[n + 1 := Task(n + 1, 0, nReduce, |files|, files[n], MapTask, Idle)];
  }

  /** One more iteration of createReduceTasks's loop adds reduce task n
      and its queue entry. */
  lemma ReduceTasksStep(base: map<int, Task>, nMap: int, nReduce: int, n: int)
    requires 0 <= n < nReduce
    ensures base + ReduceTasksUpTo(nMap, nReduce, n + 1)
         == (base + ReduceTasksUpTo(nMap, nReduce, n))[n := Task(n, 0, nReduce, nMap, "", ReduceTask, Idle)]
    ensures ReduceRefs(n + 1) == ReduceRefs(n) + [TaskRef(ReduceTask, n)]
  {
    assert ReduceTasksUpTo(nMap, nReduce, n + 1)
        == ReduceTasksUpTo(nMap, nReduce, n)[n := Task(n, 0, nReduce, nMap, "", ReduceTask, Idle)];
  }

  /** The table a report of the given kind is looked up in (any kind
      other than MAP selects the reduce table). */
  function Table(s: MasterState, kind: TaskType): map<int, Task>
  {
    if kind == MapTask then s.mapTasks else s.reduceTasks
  }

  /** A queue entry names a task that exists. */
  predicate Resolves(s: MasterState, r: TaskRef)
  {
    r.id in Table(s, r.kind)
  }

  function TaskOf(s: MasterState, r: TaskRef): Task
    requires Resolves(s, r)
  {
    Table(s, r.kind)[r.id]
  }

  // ---------------------------------------------------------------------
  // The operations

  function NewMaster(): MasterState
  {
    MasterState(map[], 0, 0, 0, IdlePhase, map[], map[], [], 0, 0, 0, 0)
  }

  /** RegisterWorker: the next sequential id, recorded with its address. */
  function RegisterWorker(s: MasterState, addr: string): (MasterState, int)
  {
    var id := s.nextWorkerId + 1;
    (s.(nextWorkerId := id, workers := s.workers[id := addr]), id)
  }

  /** SubmitJob. Pushing more tasks than the channel holds blocks the
      caller while it holds the lock, so the job must fit in the queue. */
  function SubmitJob(s: MasterState, files: seq<string>, nReduce: int): (MasterState, Result<SubmitReply>)
    requires s.phase == IdlePhase ==> |s.queue| + |files| <= Scheduler.Capacity
  {
    if s.phase != IdlePhase then (s, Err(Busy))
    else
      var jobId := s.nextJobId + 1;
      (s.(phase := MapPhase, nMap := |files|, nReduce := nReduce,
          mapTasks := s.mapTasks + MapTable(files, nReduce),
          queue := s.queue + MapRefs(|files|),
          nextJobId := jobId),
       Ok(SubmitReply(jobId, true)))
  }

  /** createReduceTasks: materialise reduce tasks 0..nReduce-1 and push them. */
  function CreateReduceTasks(s: MasterState): MasterState
    requires |s.queue| + NonNeg(s.nReduce) <= Scheduler.Capacity
  {
    s.(reduceTasks := s.reduceTasks + ReduceTable(s.nMap, s.nReduce),
       queue := s.queue + ReduceRefs(s.nReduce))
  }

  /** RequestTask: pop the head entry and hand its task to the caller.
      Pop blocks on an empty queue, so the queue must be non-empty. */
  function RequestTask(s: MasterState, workerId: int): (MasterState, Task)
    requires |s.queue| > 0 && Resolves(s, s.queue[0])
  {
    var r := s.queue[0];
    var t := TaskOf(s, r).(state := InProgress, workerId := workerId);
    if r.kind == MapTask then
      (s.(queue := s.queue[1..], mapTasks := s.mapTasks[r.id := t]), t)
    else
      (s.(queue := s.queue[1..], reduceTasks := s.reduceTasks[r.id := t]), t)
  }

  /** The report completes the last outstanding map task and so pushes
      the reduce tasks. */
  predicate StartsReduce(s: MasterState, a: ReportArgs)
  {
    && a.taskType == MapTask
    && a.taskId in s.mapTasks
    && s.mapTasks[a.taskId].workerId == a.workerId
    && s.mapTasks[a.taskId].state != Completed
    && s.completedMapTasks + 1 == s.nMap
  }

  /** The reduce tasks pushed at the barrier must fit in the queue. */
  predicate ReportFits(s: MasterState, a: ReportArgs)
  {
    StartsReduce(s, a) ==> |s.queue| + NonNeg(s.nReduce) <= Scheduler.Capacity
  }

  /** ReportTask: look the task up by kind, check ownership, treat a
      duplicate as acknowledged, otherwise complete it and count it;
      the count reaching nMap starts the reduce phase, the count reaching
      nReduce ends the job and sends on the done channel. */
  function ReportTask(s: MasterState, a: ReportArgs): (MasterState, Result<bool>)
    requires ReportFits(s, a)
  {
    var table := Table(s, a.taskType);
    if a.taskId !in table then (s, Err(TaskNotFound))
    else if table[a.taskId].workerId != a.workerId then (s, Err(WorkerMismatch))
    else if table[a.taskId].state == Completed then (s, Ok(true))
    else
      var t := table[a.taskId].(state := Completed);
      if a.taskType == MapTask then
        var s1 := s.(mapTasks := s.mapTasks[a.taskId := t],
                     completedMapTasks := s.completedMapTasks + 1);
        if s1.completedMapTasks == s1.nMap then
          (CreateReduceTasks(s1.(phase := ReducePhase)), Ok(true))
        else (s1, Ok(true))
      else
        var s1 := s.(reduceTasks := s.reduceTasks[a.taskId := t],
                     completedReduceTasks := s.completedReduceTasks + 1);
        if s1.completedReduceTasks == s1.nReduce then
          (s1.(phase := DonePhase, doneSignals := s1.doneSignals + 1), Ok(true))
        else (s1, Ok(true))
  }

  // ---------------------------------------------------------------------
  // Counting completed tasks

  function Mark(m: map<int, Task>, i: int): nat
  {
    if i in m && m[i].state == Completed then 1 else 0
  }

  /** The number of ids in [lo, hi) whose task is Completed. */
  function CompletedIn(m: map<int, Task>, lo: int, hi: int): nat
    decreases hi - lo
  {
    if hi <= lo then 0 else CompletedIn(m, lo, hi - 1) + Mark(m, hi - 1)
  }

  /** Replacing one entry changes the count by the change in that entry's mark. */
  lemma {:induction false} CompletedInUpdate(m: map<int, Task>, lo: int, hi: int, k: int, t: Task)
    ensures CompletedIn(m[k := t], lo, hi) + (if lo <= k < hi then Mark(m, k) else 0)
         == CompletedIn(m, lo, hi) + (if lo <= k < hi then Mark(m[k := t], k) else 0)
    decreases hi - lo
  {
    if hi > lo {
      CompletedInUpdate(m, lo, hi - 1, k, t);
      assert Mark(m[k := t], hi - 1) == if hi - 1 == k then Mark(m[k := t], k) else Mark(m, hi - 1);
    }
  }

  /** A table in which nothing is Completed counts zero. */
  lemma {:induction false} CompletedInNone(m: map<int, Task>, lo: int, hi: int)
    requires forall i :: i in m ==> m[i].state != Completed
    ensures CompletedIn(m, lo, hi) == 0
    decreases hi - lo
  {
    if hi > lo {
      CompletedInNone(m, lo, hi - 1);
    }
  }

  /** The count never exceeds the width of the range. */
  lemma {:induction false} CompletedInBound(m: map<int, Task>, lo: int, hi: int)
    ensures CompletedIn(m, lo, hi) <= NonNeg(hi - lo)
    decreases hi - lo
  {
    if hi > lo {
      CompletedInBound(m, lo, hi - 1);
    }
  }

  /** A full count means every id of the range is present and Completed. */
  lemma {:induction false} CompletedInFull(m: map<int, Task>, lo: int, hi: int)
    requires lo <= hi && CompletedIn(m, lo, hi) == hi - lo
    ensures forall i :: lo <= i < hi ==> i in m && m[i].state == Completed
    decreases hi - lo
  {
    if hi > lo {
      CompletedInBound(m, lo, hi - 1);
      CompletedInFull(m, lo, hi - 1);
    }
  }

  // ---------------------------------------------------------------------
  // Invariants

  /** The structural invariant every reachable state keeps, whatever
      worker ids callers pass. */
  ghost predicate Valid(s: MasterState)
  {
    && |s.queue| <= Scheduler.Capacity
    && (forall i :: 0 <= i < |s.queue| ==> Resolves(s, s.queue[i]))
    && s.nextWorkerId >= 0
    && (forall id :: id in s.workers ==> 1 <= id <= s.nextWorkerId)
    && s.completedMapTasks >= 0 && s.completedReduceTasks >= 0
    && (s.phase == IdlePhase ==>
          s.mapTasks == map[] && s.queue == [] && s.completedMapTasks == 0 && s.nextJobId == 0)
    && (Rank(s.phase) <= 1 ==> s.reduceTasks == map[] && s.completedReduceTasks == 0)
    && (Rank(s.phase) >= 2 ==> s.completedMapTasks >= s.nMap)
    && (s.phase == DonePhase ==> s.completedReduceTasks >= s.nReduce)
    && s.doneSignals == (if s.phase == DonePhase then 1 else 0)
  }

  /** The map table holds exactly tasks 1..nMap, each with its own id. */
  ghost predicate MapTableShape(s: MasterState)
  {
    && (forall i :: i in s.mapTasks <==> 1 <= i <= s.nMap)
    && (forall i :: i in s.mapTasks ==>
          s.mapTasks[i].id == i && s.mapTasks[i].taskType == MapTask &&
          s.mapTasks[i].nMap == s.nMap && s.mapTasks[i].nReduce == s.nReduce)
  }

  /** The reduce table holds exactly tasks 0..nReduce-1, each with its own id. */
  ghost predicate ReduceTableShape(s: MasterState)
  {
    && (forall i :: i in s.reduceTasks <==> 0 <= i < s.nReduce)
    && (forall i :: i in s.reduceTasks ==>
          s.reduceTasks[i].id == i && s.reduceTasks[i].taskType == ReduceTask &&
          s.reduceTasks[i].nMap == s.nMap && s.reduceTasks[i].nReduce == s.nReduce)
  }

  ghost predicate AllCompleted(m: map<int, Task>)
  {
    forall i :: i in m ==> m[i].state == Completed
  }

  /** Idle tasks are unowned and waiting in the queue. */
  ghost predicate IdleQueued(m: map<int, Task>, kind: TaskType, q: seq<TaskRef>)
  {
    forall id :: id in m && m[id].state == Idle ==> m[id].workerId == 0 && TaskRef(kind, id) in q
  }

  /** The queue holds each Idle task once and nothing else. */
  ghost predicate QueueShape(s: MasterState)
    requires Valid(s)
  {
    && (forall i :: 0 <= i < |s.queue| ==> TaskOf(s, s.queue[i]).state == Idle)
    && (forall i, j :: 0 <= i < j < |s.queue| ==> s.queue[i] != s.queue[j])
    && IdleQueued(s.mapTasks, MapTask, s.queue)
    && IdleQueued(s.reduceTasks, ReduceTask, s.queue)
  }

  /** The counters agree with the tables, and no reduce task exists
      before every map task is Completed. */
  ghost predicate Counted(s: MasterState)
  {
    && s.nMap >= 0
    && (s.phase != IdlePhase ==> MapTableShape(s))
    && (Rank(s.phase) >= 2 ==> ReduceTableShape(s))
    && s.completedMapTasks == CompletedIn(s.mapTasks, 1, s.nMap + 1)
    && s.completedReduceTasks == CompletedIn(s.reduceTasks, 0, s.nReduce)
    && (Rank(s.phase) >= 2 ==> AllCompleted(s.mapTasks))
    && (s.phase == DonePhase ==> AllCompleted(s.reduceTasks))
  }

  /** The strong invariant: structure, counters and queue together. Kept
      by every operation as long as no report carries worker id 0 (see
      ZeroWorkerBreaksBarrier). */
  ghost predicate Consistent(s: MasterState)
  {
    Valid(s) && Counted(s) && QueueShape(s)
  }

  // ---------------------------------------------------------------------
  // Lemmas: the structural invariant

  lemma NewMasterValid()
    ensures Consistent(NewMaster())
  {
    CompletedInNone(map[], 1, 1);
    CompletedInNone(map[], 0, 0);
  }

  lemma RegisterWorkerValid(s: MasterState, addr: string)
    requires Valid(s)
    ensures Valid(RegisterWorker(s, addr).0)
  {
  }

  lemma SubmitJobValid(s: MasterState, files: seq<string>, nReduce: int)
    requires Valid(s)
    requires s.phase == IdlePhase ==> |s.queue| + |files| <= Scheduler.Capacity
    ensures Valid(SubmitJob(s, files, nReduce).0)
  {
    if s.phase == IdlePhase {
      var s' := SubmitJob(s, files, nReduce).0;
      forall i | 0 <= i < |s'.queue| ensures Resolves(s', s'.queue[i]) {
        assert s'.queue[i] == TaskRef(MapTask, i + 1);
      }
    }
  }

  lemma RequestTaskValid(s: MasterState, workerId: int)
    requires Valid(s) && |s.queue| > 0
    ensures Valid(RequestTask(s, workerId).0)
  {
    var s' := RequestTask(s, workerId).0;
    forall i | 0 <= i < |s'.queue| ensures Resolves(s', s'.queue[i]) {
      assert s'.queue[i] == s.queue[i + 1];
    }
  }

  lemma ReportTaskValid(s: MasterState, a: ReportArgs)
    requires Valid(s) && ReportFits(s, a)
    ensures Valid(ReportTask(s, a).0)
  {
    if StartsReduce(s, a) {
      BarrierValid(s, a);
    }
  }

  /** The report that crosses the barrier appends entries that all
      resolve to the new reduce tasks. */
  lemma BarrierValid(s: MasterState, a: ReportArgs)
    requires Valid(s) && StartsReduce(s, a) && |s.queue| + NonNeg(s.nReduce) <= Scheduler.Capacity
    ensures Valid(ReportTask(s, a).0)
  {
    var s' := ReportTask(s, a).0;
    assert s.phase == MapPhase;
    forall i | 0 <= i < |s'.queue| ensures Resolves(s', s'.queue[i]) {
      if i >= |s.queue| {
        assert s'.queue[i] == TaskRef(ReduceTask, i - |s.queue|);
      } else {
        assert s'.queue[i] == s.queue[i];
      }
    }
  }

  // ---------------------------------------------------------------------
  // Lemmas: what each operation does

  /** RegisterWorker returns the old counter plus one: positive, larger
      than every id handed out before, and new to the table, which gains
      exactly that id and nothing else. */
  lemma RegisterWorkerFresh(s: MasterState, addr: string)
    requires Valid(s)
    ensures var (s', id) := RegisterWorker(s, addr);
      && id == s.nextWorkerId + 1 && id > 0
      && (forall old_id :: old_id in s.workers ==> old_id < id)
      && id !in s.workers
      && s'.workers == s.workers[id := addr]
      && s' == s.(nextWorkerId := id, workers := s'.workers)
  {
  }

  /** A second job is refused and changes nothing. */
  lemma SubmitJobBusy(s: MasterState, files: seq<string>, nReduce: int)
    requires s.phase != IdlePhase
    ensures SubmitJob(s, files, nReduce) == (s, Err(Busy))
  {
  }

  /** A job accepted in the IDLE phase creates exactly map tasks 1..n,
      task i Idle and reading files[i-1], queued in id order. */
  lemma SubmitJobCreatesMapTasks(s: MasterState, files: seq<string>, nReduce: int)
    requires Valid(s) && s.phase == IdlePhase && |files| <= Scheduler.Capacity
    ensures var (s', r) := SubmitJob(s, files, nReduce);
      && r == Ok(SubmitReply(s.nextJobId + 1, true))
      && s'.phase == MapPhase && s'.nMap == |files| && s'.nReduce == nReduce
      && (forall i :: i in s'.mapTasks <==> 1 <= i <= |files|)
      && (forall i :: 1 <= i <= |files| ==>
            s'.mapTasks[i] == Task(i, 0, nReduce, |files|, files[i - 1], MapTask, Idle))
      && |s'.queue| == |files|
      && (forall i :: 0 <= i < |files| ==> s'.queue[i] == TaskRef(MapTask, i + 1))
      && s'.reduceTasks == map[] && s'.completedMapTasks == 0 && s'.completedReduceTasks == 0
  {
  }

  /** RequestTask removes the head, marks exactly that task InProgress
      and owned by the caller, and changes no other task. */
  lemma RequestTaskAssigns(s: MasterState, workerId: int)
    requires Valid(s) && |s.queue| > 0
    ensures var (s', t) := RequestTask(s, workerId);
      var r := s.queue[0];
      && s'.queue == s.queue[1..]
      && Resolves(s', r) && TaskOf(s', r) == t
      && t == TaskOf(s, r).(state := InProgress, workerId := workerId)
      && (forall r2 :: Resolves(s, r2) && r2 != r ==> Resolves(s', r2) && TaskOf(s', r2) == TaskOf(s, r2))
      && (forall r2 :: Resolves(s', r2) ==> Resolves(s, r2))
      && s'.phase == s.phase && s'.completedMapTasks == s.completedMapTasks
      && s'.completedReduceTasks == s.completedReduceTasks
  {
  }

  /** The two errors of ReportTask, each in both directions, and neither
      changes the state. */
  lemma ReportTaskErrors(s: MasterState, a: ReportArgs)
    requires ReportFits(s, a)
    ensures var (s', r) := ReportTask(s, a);
      && (r == Err(TaskNotFound) <==> a.taskId !in Table(s, a.taskType))
      && (r == Err(WorkerMismatch) <==>
            a.taskId in Table(s, a.taskType) && Table(s, a.taskType)[a.taskId].workerId != a.workerId)
      && (r.Err? ==> s' == s)
      && (r.Ok? ==> r.value)
  {
  }

  /** A report for a task that is already Completed is acknowledged and
      changes nothing. */
  lemma ReportTaskDuplicate(s: MasterState, a: ReportArgs)
    requires a.taskId in Table(s, a.taskType)
    requires Table(s, a.taskType)[a.taskId].workerId == a.workerId
    requires Table(s, a.taskType)[a.taskId].state == Completed
    ensures ReportFits(s, a) && ReportTask(s, a) == (s, Ok(true))
  {
  }

  /** Reporting the same task twice: the second report is a pure
      acknowledgement, so counters, phase and queue move only once. */
  lemma {:induction false} ReportTaskIdempotent(s: MasterState, a: ReportArgs)
    requires ReportFits(s, a)
    requires ReportTask(s, a).1.Ok?
    ensures var s1 := ReportTask(s, a).0;
      ReportFits(s1, a) && ReportTask(s1, a) == (s1, Ok(true))
  {
    var s1 := ReportTask(s, a).0;
    assert a.taskId in Table(s1, a.taskType);
    assert Table(s1, a.taskType)[a.taskId].workerId == a.workerId;
    assert Table(s1, a.taskType)[a.taskId].state == Completed;
    ReportTaskDuplicate(s1, a);
  }

  /** The phase never moves backwards, and a report moves it at most one
      step: MAP to REDUCE or REDUCE to DONE. */
  lemma ReportTaskPhase(s: MasterState, a: ReportArgs)
    requires Valid(s) && ReportFits(s, a)
    ensures var s' := ReportTask(s, a).0;
      || s'.phase == s.phase
      || (s.phase == MapPhase && s'.phase == ReducePhase)
      || (s.phase == ReducePhase && s'.phase == DonePhase)
  {
  }

  /** The done signal: sent exactly when the phase becomes DONE, and so
      never more than once. */
  lemma {:induction false} ReportTaskDoneSignal(s: MasterState, a: ReportArgs)
    requires Valid(s) && ReportFits(s, a)
    ensures var s' := ReportTask(s, a).0;
      && s'.doneSignals <= 1
      && (s'.doneSignals == s.doneSignals + 1 <==> s.phase != DonePhase && s'.phase == DonePhase)
      && (s'.doneSignals == s.doneSignals <==> s'.phase == s.phase || s'.phase != DonePhase)
  {
    ReportTaskValid(s, a);
    ReportTaskPhase(s, a);
  }

  // ---------------------------------------------------------------------
  // Lemmas: the counter / table agreement and the barrier

  lemma RegisterWorkerConsistent(s: MasterState, addr: string)
    requires Consistent(s)
    ensures Consistent(RegisterWorker(s, addr).0)
  {
    var s' := RegisterWorker(s, addr).0;
    assert forall i :: 0 <= i < |s'.queue| ==> TaskOf(s', s'.queue[i]) == TaskOf(s, s.queue[i]);
  }

  lemma {:induction false} SubmitJobConsistent(s: MasterState, files: seq<string>, nReduce: int)
    requires Consistent(s)
    requires s.phase == IdlePhase ==> |s.queue| + |files| <= Scheduler.Capacity
    ensures Consistent(SubmitJob(s, files, nReduce).0)
  {
    SubmitJobValid(s, files, nReduce);
    if s.phase == IdlePhase {
      SubmitJobCounted(s, files, nReduce);
      SubmitJobQueued(s, files, nReduce);
    } else {
      assert SubmitJob(s, files, nReduce).0 == s;
    }
  }

  lemma {:induction false} SubmitJobCounted(s: MasterState, files: seq<string>, nReduce: int)
    requires Valid(s) && s.phase == IdlePhase && |s.queue| + |files| <= Scheduler.Capacity
    ensures Counted(SubmitJob(s, files, nReduce).0)
  {
    var s' := SubmitJob(s, files, nReduce).0;
    assert s'.mapTasks == MapTable(files, nReduce);
    CompletedInNone(s'.mapTasks, 1, s'.nMap + 1);
    CompletedInNone(s'.reduceTasks, 0, s'.nReduce);
  }

  lemma {:induction false} SubmitJobQueued(s: MasterState, files: seq<string>, nReduce: int)
    requires Valid(s) && s.phase == IdlePhase && |s.queue| + |files| <= Scheduler.Capacity
    ensures Valid(SubmitJob(s, files, nReduce).0) && QueueShape(SubmitJob(s, files, nReduce).0)
  {
    SubmitJobValid(s, files, nReduce);
    var s' := SubmitJob(s, files, nReduce).0;
    assert s'.mapTasks == MapTable(files, nReduce);
    assert s'.queue == MapRefs(|files|);
    forall i | 0 <= i < |s'.queue| ensures TaskOf(s', s'.queue[i]).state == Idle {
      assert s'.queue[i] == TaskRef(MapTask, i + 1);
    }
    forall id | id in s'.mapTasks && s'.mapTasks[id].state == Idle
      ensures TaskRef(MapTask, id) in s'.queue
    {
      assert s'.queue[id - 1] == TaskRef(MapTask, id);
    }
  }

  lemma {:induction false} RequestTaskConsistent(s: MasterState, workerId: int)
    requires Consistent(s) && |s.queue| > 0
    ensures Consistent(RequestTask(s, workerId).0)
  {
    RequestTaskValid(s, workerId);
    RequestTaskCounted(s, workerId);
    RequestTaskQueued(s, workerId);
  }

  lemma {:induction false} RequestTaskCounted(s: MasterState, workerId: int)
    requires Consistent(s) && |s.queue| > 0
    ensures Counted(RequestTask(s, workerId).0)
  {
    QueuedIsIdle(s, 0);
    if s.queue[0].kind == MapTask {
      RequestMapCounted(s, workerId);
    } else {
      RequestReduceCounted(s, workerId);
    }
  }

  /** Handing out an Idle map task leaves the completed count unchanged. */
  lemma {:induction false} RequestMapCounted(s: MasterState, workerId: int)
    requires Counted(s) && |s.queue| > 0 && s.queue[0].kind == MapTask
    requires s.queue[0].id in s.mapTasks && s.mapTasks[s.queue[0].id].state == Idle
    ensures Counted(RequestTask(s, workerId).0)
  {
    var (s', t) := RequestTask(s, workerId);
    var id := s.queue[0].id;
    assert s' == s.(queue := s.queue[1..], mapTasks := s.mapTasks[id := t]);
    CompletedInUpdate(s.mapTasks, 1, s.nMap + 1, id, t);
  }

  /** Handing out an Idle reduce task leaves the completed count unchanged. */
  lemma {:induction false} RequestReduceCounted(s: MasterState, workerId: int)
    requires Counted(s) && |s.queue| > 0 && s.queue[0].kind == ReduceTask
    requires s.queue[0].id in s.reduceTasks && s.reduceTasks[s.queue[0].id].state == Idle
    ensures Counted(RequestTask(s, workerId).0)
  {
    var (s', t) := RequestTask(s, workerId);
    var id := s.queue[0].id;
    assert s' == s.(queue := s.queue[1..], reduceTasks := s.reduceTasks[id := t]);
    CompletedInUpdate(s.reduceTasks, 0, s.nReduce, id, t);
  }

  lemma {:induction false} RequestTaskQueued(s: MasterState, workerId: int)
    requires Consistent(s) && |s.queue| > 0
    ensures Valid(RequestTask(s, workerId).0) && QueueShape(RequestTask(s, workerId).0)
  {
    RequestTaskValid(s, workerId);
    var s' := RequestTask(s, workerId).0;
    var r := s.queue[0];
    RequestTaskAssigns(s, workerId);
    forall i | 0 <= i < |s'.queue| ensures TaskOf(s', s'.queue[i]).state == Idle {
      assert s'.queue[i] == s.queue[i + 1] != r;
    }
    forall id | id in s'.mapTasks && s'.mapTasks[id].state == Idle
      ensures s'.mapTasks[id].workerId == 0 && TaskRef(MapTask, id) in s'.queue
    {
      var r2 := TaskRef(MapTask, id);
      assert r2 != r;
      assert r2 in s.queue;
    }
    forall id | id in s'.reduceTasks && s'.reduceTasks[id].state == Idle
      ensures s'.reduceTasks[id].workerId == 0 && TaskRef(ReduceTask, id) in s'.queue
    {
      var r2 := TaskRef(ReduceTask, id);
      assert r2 != r;
      assert r2 in s.queue;
    }
  }

  /** A queued entry names an Idle task in the table of its kind. */
  lemma QueuedIsIdle(s: MasterState, i: int)
    requires Valid(s) && QueueShape(s) && 0 <= i < |s.queue|
    ensures s.queue[i].kind == MapTask ==>
      s.queue[i].id in s.mapTasks && s.mapTasks[s.queue[i].id].state == Idle
    ensures s.queue[i].kind == ReduceTask ==>
      s.queue[i].id in s.reduceTasks && s.reduceTasks[s.queue[i].id].state == Idle
  {
  }

  /** With every map task Completed and no reduce task yet, nothing is queued. */
  lemma QueueEmptyAtBarrier(s: MasterState)
    requires Valid(s) && QueueShape(s)
    requires AllCompleted(s.mapTasks) && s.reduceTasks == map[]
    ensures s.queue == []
  {
    if s.queue != [] {
      QueuedIsIdle(s, 0);
      assert false;
    }
  }

  /** Completing an InProgress map task keeps the invariant (the count
      may now equal nMap; the phase change is the caller's business). */
  lemma {:induction false} CompleteMapTask(s: MasterState, id: int)
    requires Consistent(s) && id in s.mapTasks && s.mapTasks[id].state == InProgress
    ensures s.phase == MapPhase
    ensures var s1 := s.(mapTasks := s.mapTasks[id := s.mapTasks[id].(state := Completed)],
                         completedMapTasks := s.completedMapTasks + 1);
      Consistent(s1)
  {
    var t := s.mapTasks[id].(state := Completed);
    var s1 := s.(mapTasks := s.mapTasks[id := t], completedMapTasks := s.completedMapTasks + 1);
    CompletedInUpdate(s.mapTasks, 1, s.nMap + 1, id, t);
    assert Counted(s1);
    UntouchedQueue(s, s1, MapTask, id);
  }

  /** Completing an InProgress reduce task keeps the invariant. */
  lemma {:induction false} CompleteReduceTask(s: MasterState, id: int)
    requires Consistent(s) && id in s.reduceTasks && s.reduceTasks[id].state == InProgress
    ensures s.phase == ReducePhase
    ensures var s1 := s.(reduceTasks := s.reduceTasks[id := s.reduceTasks[id].(state := Completed)],
                         completedReduceTasks := s.completedReduceTasks + 1);
      Consistent(s1)
  {
    var t := s.reduceTasks[id].(state := Completed);
    var s1 := s.(reduceTasks := s.reduceTasks[id := t], completedReduceTasks := s.completedReduceTasks + 1);
    CompletedInUpdate(s.reduceTasks, 0, s.nReduce, id, t);
    assert Counted(s1);
    UntouchedQueue(s, s1, ReduceTask, id);
  }

  /** Completing a task that is not queued leaves the queue's shape and
      the structural invariant intact. */
  lemma {:induction false} UntouchedQueue(s: MasterState, s1: MasterState, kind: TaskType, id: int)
    requires Valid(s) && QueueShape(s)
    requires id in Table(s, kind) && Table(s, kind)[id].state == InProgress
    requires s1 == (if kind == MapTask
                    then s.(mapTasks := s.mapTasks[id := s.mapTasks[id].(state := Completed)],
                            completedMapTasks := s.completedMapTasks + 1)
                    else s.(reduceTasks := s.reduceTasks[id := s.reduceTasks[id].(state := Completed)],
                            completedReduceTasks := s.completedReduceTasks + 1))
    requires Rank(s.phase) >= 2 ==> s1.completedMapTasks >= s1.nMap
    requires s.phase == DonePhase ==> s1.completedReduceTasks >= s1.nReduce
    ensures Valid(s1) && QueueShape(s1)
  {
    assert forall i :: 0 <= i < |s.queue| ==> s.queue[i] != TaskRef(kind, id);
    assert forall i :: 0 <= i < |s.queue| ==> TaskOf(s1, s.queue[i]) == TaskOf(s, s.queue[i]);
  }

  /** The last reduce completion ends the job consistently. */
  lemma {:induction false} FinishJob(s: MasterState)
    requires Consistent(s) && s.phase == ReducePhase && s.completedReduceTasks == s.nReduce
    ensures Consistent(s.(phase := DonePhase, doneSignals := s.doneSignals + 1))
  {
    CompletedInFull(s.reduceTasks, 0, s.nReduce);
    var s' := s.(phase := DonePhase, doneSignals := s.doneSignals + 1);
    assert forall i :: 0 <= i < |s.queue| ==> TaskOf(s', s.queue[i]) == TaskOf(s, s.queue[i]);
  }

  /** A task that matches a positive worker id is not Idle. */
  lemma OwnedTaskNotIdle(s: MasterState, a: ReportArgs)
    requires Consistent(s) && a.workerId > 0
    requires a.taskId in Table(s, a.taskType) && Table(s, a.taskType)[a.taskId].workerId == a.workerId
    ensures Table(s, a.taskType)[a.taskId].state != Idle
  {
  }

  /** The counter invariant and the barrier survive every report that
      carries a positive worker id (registered ids start at 1). */
  lemma {:induction false} ReportTaskConsistent(s: MasterState, a: ReportArgs)
    requires Consistent(s) && ReportFits(s, a)
    requires a.workerId > 0
    ensures Consistent(ReportTask(s, a).0)
  {
    var table := Table(s, a.taskType);
    if a.taskId !in table || table[a.taskId].workerId != a.workerId || table[a.taskId].state == Completed {
      assert ReportTask(s, a).0 == s;
    } else {
      OwnedTaskNotIdle(s, a);
      if a.taskType == MapTask {
        ReportMapConsistent(s, a);
      } else {
        ReportReduceConsistent(s, a);
      }
    }
  }

  lemma {:induction false} ReportMapConsistent(s: MasterState, a: ReportArgs)
    requires Consistent(s) && ReportFits(s, a) && a.taskType == MapTask
    requires a.taskId in s.mapTasks && s.mapTasks[a.taskId].workerId == a.workerId
    requires s.mapTasks[a.taskId].state == InProgress
    ensures Consistent(ReportTask(s, a).0)
  {
    CompleteMapTask(s, a.taskId);
    var s1 := s.(mapTasks := s.mapTasks[a.taskId := s.mapTasks[a.taskId].(state := Completed)],
                 completedMapTasks := s.completedMapTasks + 1);
    if s1.completedMapTasks == s1.nMap {
      StartReduce(s1);
      assert ReportTask(s, a).0 == CreateReduceTasks(s1.(phase := ReducePhase));
    } else {
      assert ReportTask(s, a).0 == s1;
    }
  }

  lemma {:induction false} ReportReduceConsistent(s: MasterState, a: ReportArgs)
    requires Consistent(s) && ReportFits(s, a) && a.taskType == ReduceTask
    requires a.taskId in s.reduceTasks && s.reduceTasks[a.taskId].workerId == a.workerId
    requires s.reduceTasks[a.taskId].state == InProgress
    ensures Consistent(ReportTask(s, a).0)
  {
    CompleteReduceTask(s, a.taskId);
    var s1 := s.(reduceTasks := s.reduceTasks[a.taskId := s.reduceTasks[a.taskId].(state := Completed)],
                 completedReduceTasks := s.completedReduceTasks + 1);
    if s1.completedReduceTasks == s1.nReduce {
      FinishJob(s1);
      assert ReportTask(s, a).0 == s1.(phase := DonePhase, doneSignals := s1.doneSignals + 1);
    } else {
      assert ReportTask(s, a).0 == s1;
    }
  }

  /** The map-phase state in which the count has reached nMap: every map
      task is Completed, nothing is queued, and the reduce phase starts
      consistently with reduce tasks 0..nReduce-1 queued in order. */
  lemma {:induction false} StartReduce(s: MasterState)
    requires Consistent(s) && s.phase == MapPhase && s.completedMapTasks == s.nMap
    requires NonNeg(s.nReduce) <= Scheduler.Capacity
    ensures AllCompleted(s.mapTasks) && s.queue == [] && s.reduceTasks == map[]
    ensures var s' := CreateReduceTasks(s.(phase := ReducePhase));
      && Consistent(s')
      && s'.reduceTasks == ReduceTable(s.nMap, s.nReduce)
      && s'.queue == ReduceRefs(s.nReduce)
  {
    CompletedInFull(s.mapTasks, 1, s.nMap + 1);
    QueueEmptyAtBarrier(s);
    ReduceTasksFresh(s.(phase := ReducePhase));
  }

  /** At the barrier: the reduce tasks are exactly 0..nReduce-1, all
      Idle and unowned, queued in ascending order, and nothing else is
      queued. */
  lemma {:induction false} ReduceTasksFresh(s: MasterState)
    requires Valid(s) && s.nMap >= 0 && MapTableShape(s)
    requires s.phase == ReducePhase && s.completedMapTasks == s.nMap
    requires s.completedMapTasks == CompletedIn(s.mapTasks, 1, s.nMap + 1)
    requires AllCompleted(s.mapTasks) && s.reduceTasks == map[] && s.queue == []
    requires s.completedReduceTasks == 0
    requires NonNeg(s.nReduce) <= Scheduler.Capacity
    ensures var s' := CreateReduceTasks(s);
      && Consistent(s')
      && s'.reduceTasks == ReduceTable(s.nMap, s.nReduce)
      && s'.queue == ReduceRefs(s.nReduce)
  {
    ReduceTasksCounted(s);
    ReduceTasksQueued(s);
  }

  lemma {:induction false} ReduceTasksCounted(s: MasterState)
    requires Valid(s) && s.nMap >= 0 && MapTableShape(s)
    requires s.phase == ReducePhase && s.completedMapTasks == s.nMap
    requires s.completedMapTasks == CompletedIn(s.mapTasks, 1, s.nMap + 1)
    requires AllCompleted(s.mapTasks) && s.reduceTasks == map[] && s.queue == []
    requires s.completedReduceTasks == 0
    requires NonNeg(s.nReduce) <= Scheduler.Capacity
    ensures Counted(CreateReduceTasks(s))
    ensures CreateReduceTasks(s).reduceTasks == ReduceTable(s.nMap, s.nReduce)
  {
    var s' := CreateReduceTasks(s);
    assert s'.reduceTasks == ReduceTable(s.nMap, s.nReduce);
    CompletedInNone(s'.reduceTasks, 0, s'.nReduce);
  }

  lemma {:induction false} ReduceTasksQueued(s: MasterState)
    requires Valid(s) && s.phase == ReducePhase && s.completedMapTasks >= s.nMap
    requires s.reduceTasks == map[] && s.queue == [] && s.completedReduceTasks == 0
    requires AllCompleted(s.mapTasks) && NonNeg(s.nReduce) <= Scheduler.Capacity
    ensures Valid(CreateReduceTasks(s)) && QueueShape(CreateReduceTasks(s))
    ensures CreateReduceTasks(s).queue == ReduceRefs(s.nReduce)
  {
    var s' := CreateReduceTasks(s);
    assert s'.reduceTasks == ReduceTable(s.nMap, s.nReduce);
    assert s'.queue == ReduceRefs(s.nReduce);
    forall i | 0 <= i < |s'.queue| ensures Resolves(s', s'.queue[i]) && TaskOf(s', s'.queue[i]).state == Idle {
      assert s'.queue[i] == TaskRef(ReduceTask, i);
    }
    assert Valid(s');
    forall id | id in s'.reduceTasks && s'.reduceTasks[id].state == Idle
      ensures TaskRef(ReduceTask, id) in s'.queue
    {
      assert s'.queue[id] == TaskRef(ReduceTask, id);
    }
  }

  /** The map-to-reduce barrier as one report sees it: the report that
      starts the reduce phase finds every map task Completed, and
      creates exactly nReduce Idle reduce tasks 0..nReduce-1, queued in
      ascending order with nothing before them. */
  lemma {:induction false} ReportTaskBarrier(s: MasterState, a: ReportArgs)
    requires Consistent(s) && ReportFits(s, a) && a.workerId > 0
    requires ReportTask(s, a).0.phase == ReducePhase && s.phase != ReducePhase
    ensures var s' := ReportTask(s, a).0;
      && s.phase == MapPhase
      && s'.completedMapTasks == s'.nMap
      && (forall i :: i in s'.mapTasks ==> s'.mapTasks[i].state == Completed)
      && (forall i :: i in s'.reduceTasks <==> 0 <= i < s'.nReduce)
      && (forall i :: 0 <= i < s'.nReduce ==>
            s'.reduceTasks[i] == Task(i, 0, s'.nReduce, s'.nMap, "", ReduceTask, Idle))
      && s'.queue == ReduceRefs(s'.nReduce)
  {
    var table := Table(s, a.taskType);
    assert a.taskId in table && table[a.taskId].workerId == a.workerId && table[a.taskId].state != Completed;
    OwnedTaskNotIdle(s, a);
    assert a.taskType == MapTask;
    CompleteMapTask(s, a.taskId);
    var s1 := s.(mapTasks := s.mapTasks[a.taskId := s.mapTasks[a.taskId].(state := Completed)],
                 completedMapTasks := s.completedMapTasks + 1);
    StartReduce(s1);
  }

  /** No reduce task is handed out before every map task is Completed. */
  lemma RequestTaskAfterBarrier(s: MasterState, workerId: int)
    requires Consistent(s) && |s.queue| > 0
    ensures var t := RequestTask(s, workerId).1;
      t.taskType == ReduceTask ==>
        s.completedMapTasks == s.nMap && AllCompleted(s.mapTasks)
  {
    var r := s.queue[0];
    if r.kind == ReduceTask {
      assert Rank(s.phase) >= 2;
      CountersBounded(s);
    }
  }

  /** Counters never exceed the number of tasks of their kind. */
  lemma {:induction false} CountersBounded(s: MasterState)
    requires Consistent(s)
    ensures 0 <= s.completedMapTasks <= s.nMap
    ensures s.completedReduceTasks <= NonNeg(s.nReduce)
  {
    CompletedInBound(s.mapTasks, 1, s.nMap + 1);
    CompletedInBound(s.reduceTasks, 0, s.nReduce);
  }

  // ---------------------------------------------------------------------
  // Runs of calls

  /** The remote operations, with Heartbeat as the no-op it is. */
  datatype Call =
    | Register(addr: string)
    | Submit(files: seq<string>, nReduce: int)
    | Request(workerId: int)
    | Report(args: ReportArgs)
    | Heartbeat(workerId: int)

  /** The call would not block (queue space for pushes, a task to pop). */
  predicate CanStep(s: MasterState, c: Call)
  {
    match c
    case Register(_) => true
    case Submit(files, _) => s.phase == IdlePhase ==> |s.queue| + |files| <= Scheduler.Capacity
    case Request(_) => |s.queue| > 0 && Resolves(s, s.queue[0])
    case Report(a) => ReportFits(s, a)
    case Heartbeat(_) => true
  }

  function Step(s: MasterState, c: Call): MasterState
    requires CanStep(s, c)
  {
    match c
    case Register(addr) => RegisterWorker(s, addr).0
    case Submit(files, n) => SubmitJob(s, files, n).0
    case Request(w) => RequestTask(s, w).0
    case Report(a) => ReportTask(s, a).0
    case Heartbeat(_) => s
  }

  predicate Runnable(s: MasterState, cs: seq<Call>)
    decreases |cs|
  {
    cs == [] || (CanStep(s, cs[0]) && Runnable(Step(s, cs[0]), cs[1..]))
  }

  function Run(s: MasterState, cs: seq<Call>): MasterState
    requires Runnable(s, cs)
    decreases |cs|
  {
    if cs == [] then s else Run(Step(s, cs[0]), cs[1..])
  }

  lemma StepValid(s: MasterState, c: Call)
    requires Valid(s) && CanStep(s, c)
    ensures Valid(Step(s, c))
    ensures Rank(Step(s, c).phase) >= Rank(s.phase)
  {
    match c
    case Register(addr) => RegisterWorkerValid(s, addr);
    case Submit(files, n) => SubmitJobValid(s, files, n);
    case Request(w) => RequestTaskValid(s, w);
    case Report(a) => ReportTaskValid(s, a); ReportTaskPhase(s, a);
    case Heartbeat(_) =>
  }

  /** Along any run the phase only moves forward. */
  lemma {:induction false} RunMonotone(s: MasterState, cs: seq<Call>)
    requires Valid(s) && Runnable(s, cs)
    ensures Valid(Run(s, cs)) && Rank(Run(s, cs).phase) >= Rank(s.phase)
    decreases |cs|
  {
    if cs != [] {
      StepValid(s, cs[0]);
      RunMonotone(Step(s, cs[0]), cs[1..]);
    }
  }

  /** A master accepts at most one job: once SubmitJob has succeeded,
      every later SubmitJob, after any run of calls, is refused. */
  lemma {:induction false} SubmitJobAtMostOnce(s: MasterState, files: seq<string>, nReduce: int,
                                                cs: seq<Call>, files2: seq<string>, nReduce2: int)
    requires Valid(s)
    requires s.phase == IdlePhase ==> |s.queue| + |files| <= Scheduler.Capacity
    requires SubmitJob(s, files, nReduce).1.Ok?
    requires Runnable(SubmitJob(s, files, nReduce).0, cs)
    ensures var s' := Run(SubmitJob(s, files, nReduce).0, cs);
      s'.phase != IdlePhase && SubmitJob(s', files2, nReduce2) == (s', Err(Busy))
  {
    SubmitJobValid(s, files, nReduce);
    RunMonotone(SubmitJob(s, files, nReduce).0, cs);
  }

  /** The worker-id-0 hole. ReportTask never checks that the task is
      InProgress, and an unassigned task keeps owner 0, so a report from
      worker id 0 completes a task still waiting in the queue. The task is
      then handed out and completed again, the counter reaches nMap twice
      as fast, and the reduce phase starts while map task 2 is still Idle. */
  lemma ZeroWorkerBreaksBarrier()
    ensures var s0 := SubmitJob(NewMaster(), ["a", "b"], 1).0;
      var s1 := ReportTask(s0, ReportArgs(0, 1, MapTask)).0;
      var s2 := RequestTask(s1, 1).0;
      var s3 := ReportTask(s2, ReportArgs(1, 1, MapTask)).0;
      && s3.phase == ReducePhase
      && s3.mapTasks[2].state == Idle
      && s3.completedMapTasks == 2 == s3.nMap
      && !Consistent(s3)
  {
    var s0 := SubmitJob(NewMaster(), ["a", "b"], 1).0;
    assert s0.queue == [TaskRef(MapTask, 1), TaskRef(MapTask, 2)];
    assert s0.mapTasks[1].workerId == 0 && s0.mapTasks[1].state == Idle;
    var s1 := ReportTask(s0, ReportArgs(0, 1, MapTask)).0;
    assert s1.completedMapTasks == 1 && s1.phase == MapPhase;
    var s2 := RequestTask(s1, 1).0;
    assert s2.mapTasks[1].workerId == 1 && s2.mapTasks[1].state == InProgress;
    var s3 := ReportTask(s2, ReportArgs(1, 1, MapTask)).0;
    assert s3.phase == ReducePhase;
    assert s3.mapTasks[2].state == Idle;
    assert !AllCompleted(s3.mapTasks);
  }

  /** The state the two-file, two-partition job of the end-to-end test
      reaches at the barrier: both reduce tasks Idle and queued in order,
      nothing completed in the reduce phase, no done signal yet. */
  ghost predicate TwoByTwoAtBarrier(s: MasterState)
  {
    && s.phase == ReducePhase && s.nReduce == 2
    && s.queue == [TaskRef(ReduceTask, 0), TaskRef(ReduceTask, 1)]
    && 0 in s.reduceTasks && 1 in s.reduceTasks
    && s.reduceTasks[0].id == 0 && s.reduceTasks[1].id == 1
    && s.reduceTasks[0].taskType == ReduceTask && s.reduceTasks[1].taskType == ReduceTask
    && s.reduceTasks[0].state == Idle && s.reduceTasks[1].state == Idle
    && s.completedReduceTasks == 0 && s.doneSignals == 0
  }

  /** The map half of the end-to-end test: a two-file job with two
      reduce partitions; workers 1 and 2 each request and report one map
      task, after which the master has crossed the barrier with both
      reduce tasks queued. */
  lemma MapPhaseFlow()
    ensures var s0 := SubmitJob(NewMaster(), ["input1.txt", "input2.txt"], 2).0;
      var (s1, t1) := RequestTask(s0, 1);
      var (s2, r1) := ReportTask(s1, ReportArgs(1, t1.id, MapTask));
      var (s3, t2) := RequestTask(s2, 2);
      var (s4, r2) := ReportTask(s3, ReportArgs(2, t2.id, MapTask));
      && t1.taskType == MapTask && t2.taskType == MapTask
      && r1 == r2 == Ok(true)
      && TwoByTwoAtBarrier(s4)
  {
    var s0 := SubmitJob(NewMaster(), ["input1.txt", "input2.txt"], 2).0;
    assert s0.queue == [TaskRef(MapTask, 1), TaskRef(MapTask, 2)];
    assert s0.mapTasks[1].state == Idle && s0.mapTasks[2].state == Idle;
    var (s1, t1) := RequestTask(s0, 1);
    var (s2, r1) := ReportTask(s1, ReportArgs(1, t1.id, MapTask));
    assert s2.completedMapTasks == 1 && s2.mapTasks[2].state == Idle;
    assert s2.queue == [TaskRef(MapTask, 2)];
    var (s3, t2) := RequestTask(s2, 2);
    var (s4, r2) := ReportTask(s3, ReportArgs(2, t2.id, MapTask));
    assert s4.queue == [TaskRef(ReduceTask, 0), TaskRef(ReduceTask, 1)];
  }

  /** The reduce half of the end-to-end test: from the barrier, workers
      10 and 11 each request and report one reduce task, after which the
      job is done and exactly one done signal has been sent. */
  lemma ReducePhaseFlow(s4: MasterState)
    requires TwoByTwoAtBarrier(s4)
    ensures var (s5, t3) := RequestTask(s4, 10);
      var (s6, r3) := ReportTask(s5, ReportArgs(10, t3.id, ReduceTask));
      var (s7, t4) := RequestTask(s6, 11);
      var (s8, r4) := ReportTask(s7, ReportArgs(11, t4.id, ReduceTask));
      && t3.taskType == ReduceTask && t4.taskType == ReduceTask
      && r3 == r4 == Ok(true)
      && s8.phase == DonePhase && s8.doneSignals == 1
  {
    var (s5, t3) := RequestTask(s4, 10);
    var (s6, r3) := ReportTask(s5, ReportArgs(10, t3.id, ReduceTask));
    assert s6.completedReduceTasks == 1 && s6.reduceTasks[1].state == Idle;
    assert s6.queue == [TaskRef(ReduceTask, 1)];
  }
}
