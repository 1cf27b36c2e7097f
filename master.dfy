/** The coordinator object. Each locked method is one atomic step; its
    effect on the fields is exactly the corresponding transition of
    MasterModel, whose properties are proved there. */
module Master {
  import opened Types
  import MasterModel
  import Scheduler

  class Master {
    var workers: map<int, string>
    var nextWorkerId: int
    var nextJobId: int
    /** Values sent on the done channel. */
    var doneSignals: nat
    var phase: MasterModel.Phase
    var mapTasks: map<int, Task>
    var reduceTasks: map<int, Task>
    const taskQueue: Scheduler.TaskQueue
    var nMap: int
    var nReduce: int
    var completedMapTasks: int
    var completedReduceTasks: int

    /** The fields as a MasterState value. */
    function Abs(): MasterModel.MasterState
      reads this, taskQueue
    {
      MasterModel.MasterState(workers, nextWorkerId, nextJobId, doneSignals, phase,
                              mapTasks, reduceTasks, taskQueue.buf, nMap, nReduce,
                              completedMapTasks, completedReduceTasks)
    }

    ghost predicate Inv()
      reads this, taskQueue
    {
      taskQueue.Valid() && MasterModel.Valid(Abs())
    }

    /** NewMaster: empty tables, IDLE, an empty queue and no done signal. */
    constructor ()
      ensures Inv() && fresh(taskQueue)
      ensures Abs() == MasterModel.NewMaster()
    {
      workers := map[];
      nextWorkerId := 0;
      nextJobId := 0;
      doneSignals := 0;
      phase := MasterModel.IdlePhase;
      mapTasks := map[];
      reduceTasks := map[];
      taskQueue := new Scheduler.TaskQueue();
      nMap := 0;
      nReduce := 0;
      completedMapTasks := 0;
      completedReduceTasks := 0;
    }

    method RegisterWorker(addr: string) returns (id: int)
      requires Inv()
      modifies this
      ensures (Abs(), id) == MasterModel.RegisterWorker(old(Abs()), addr)
      ensures Inv()
    {
      MasterModel.RegisterWorkerValid(Abs(), addr);
      nextWorkerId := nextWorkerId + 1;
      id := nextWorkerId;
      workers := workers[id := addr];
    }

    /** Heartbeat acknowledges and changes nothing. */
    method Heartbeat(workerId: int) returns (ack: bool)
      ensures ack
    {
      ack := true;
    }

    method SubmitJob(inputFiles: seq<string>, numReduce: int) returns (r: MasterModel.Result<MasterModel.SubmitReply>)
      requires Inv()
      requires phase == MasterModel.IdlePhase ==> |taskQueue.buf| + |inputFiles| <= Scheduler.Capacity
      modifies this, taskQueue
      ensures (Abs(), r) == MasterModel.SubmitJob(old(Abs()), inputFiles, numReduce)
      ensures Inv()
    {
      MasterModel.SubmitJobValid(Abs(), inputFiles, numReduce);
      if phase != MasterModel.IdlePhase {
        return MasterModel.Err(MasterModel.Busy);
      }
      phase := MasterModel.MapPhase;
      nMap := |inputFiles|;
      nReduce := numReduce;
      AddMapTasks(inputFiles);
      nextJobId := nextJobId + 1;
      r := MasterModel.Ok(MasterModel.SubmitReply(nextJobId, true));
    }

    /** The loop of SubmitJob: map task i+1 reads inputFiles[i], and each
        is pushed onto the queue in input order. */
    method AddMapTasks(inputFiles: seq<string>)
      requires taskQueue.Valid() && nMap == |inputFiles|
      requires |taskQueue.buf| + |inputFiles| <= Scheduler.Capacity
      modifies this, taskQueue
      ensures taskQueue.Valid()
      ensures mapTasks == old(mapTasks) + MasterModel.MapTable(inputFiles, nReduce)
      ensures taskQueue.buf == old(taskQueue.buf) + MasterModel.MapRefs(|inputFiles|)
      ensures unchanged(this`workers, this`nextWorkerId, this`nextJobId, this`doneSignals, this`phase)
      ensures unchanged(this`reduceTasks, this`nMap, this`nReduce)
      ensures unchanged(this`completedMapTasks, this`completedReduceTasks)
    {
      var table := mapTasks;
      ghost var queue := taskQueue.buf;
      var i := 0;
      while i < |inputFiles|
        invariant 0 <= i <= |inputFiles|
        invariant taskQueue.Valid()
        invariant table == mapTasks + MasterModel.MapTasksUpTo(inputFiles, nReduce, i)
        invariant taskQueue.buf == queue + MasterModel.MapRefs(i)
        modifies taskQueue
      {
        var taskId := i + 1;
        var task := Task(taskId, 0, nReduce, nMap, inputFiles[i], MapTask, Idle);
        MasterModel.MapTasksStep(mapTasks, inputFiles, nReduce, i);
        table := table[taskId := task];
        taskQueue.Push(TaskRef(MapTask, taskId));
        i := i + 1;
      }
      mapTasks := table;
    }

    /** createReduceTasks: push reduce tasks 0..nReduce-1. */
    method CreateReduceTasks()
      requires taskQueue.Valid()
      requires |taskQueue.buf| + MasterModel.NonNeg(nReduce) <= Scheduler.Capacity
      modifies this, taskQueue
      ensures taskQueue.Valid()
      ensures Abs() == MasterModel.CreateReduceTasks(old(Abs()))
    {
      var table := reduceTasks;
      ghost var queue := taskQueue.buf;
      var i := 0;
      while i < nReduce
        invariant 0 <= i <= MasterModel.NonNeg(nReduce)
        invariant taskQueue.Valid()
        invariant table == reduceTasks + MasterModel.ReduceTasksUpTo(nMap, nReduce, i)
        invariant taskQueue.buf == queue + MasterModel.ReduceRefs(i)
        modifies taskQueue
      {
        var taskId := i;
        var task := Task(taskId, 0, nReduce, nMap, "", ReduceTask, Idle);
        MasterModel.ReduceTasksStep(reduceTasks, nMap, nReduce, i);
        table := table[taskId := task];
        taskQueue.Push(TaskRef(ReduceTask, taskId));
        i := i + 1;
      }
      reduceTasks := table;
    }

    /** RequestTask. The receive blocks on an empty queue, so the nil
        branch of the source is unreachable; the queue must be non-empty. */
    method RequestTask(workerId: int) returns (task: Task)
      requires Inv() && |taskQueue.buf| > 0
      modifies this, taskQueue
      ensures (Abs(), task) == MasterModel.RequestTask(old(Abs()), workerId)
      ensures Inv()
    {
      MasterModel.RequestTaskValid(Abs(), workerId);
      var r := taskQueue.Pop();
      if r.kind == MapTask {
        task := mapTasks[r.id].(state := InProgress, workerId := workerId);
        mapTasks := mapTasks[r.id := task];
      } else {
        task := reduceTasks[r.id].(state := InProgress, workerId := workerId);
        reduceTasks := reduceTasks[r.id := task];
      }
    }

    method ReportTask(args: MasterModel.ReportArgs) returns (r: MasterModel.Result<bool>)
      requires Inv() && MasterModel.ReportFits(Abs(), args)
      modifies this, taskQueue
      ensures (Abs(), r) == MasterModel.ReportTask(old(Abs()), args)
      ensures Inv()
    {
      MasterModel.ReportTaskValid(Abs(), args);
      var table := if args.taskType == MapTask then mapTasks else reduceTasks;
      if args.taskId !in table {
        return MasterModel.Err(MasterModel.TaskNotFound);
      }
      var task := table[args.taskId];
      if task.workerId != args.workerId {
        return MasterModel.Err(MasterModel.WorkerMismatch);
      }
      if task.state == Completed {
        return MasterModel.Ok(true);
      }
      task := task.(state := Completed);
      if args.taskType == MapTask {
        mapTasks := mapTasks[args.taskId := task];
      } else {
        reduceTasks := reduceTasks[args.taskId := task];
      }
      r := MasterModel.Ok(true);
      if args.taskType == MapTask {
        completedMapTasks := completedMapTasks + 1;
        if completedMapTasks == nMap {
          phase := MasterModel.ReducePhase;
          CreateReduceTasks();
        }
      } else {
        completedReduceTasks := completedReduceTasks + 1;
        if completedReduceTasks == nReduce {
          phase := MasterModel.DonePhase;
          doneSignals := doneSignals + 1;
        }
      }
    }
  }
}
