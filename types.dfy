/** Shared task and record shapes used by the coordinator and the workers
    (the types package of the Go program). */
module Types {

  /** One byte. */
  type Byte = b: int | 0 <= b < 0x100

  /** A Go string is a sequence of raw bytes. */
  type Bytes = seq<Byte>

  /** The kind of a task: MAP or REDUCE. */
  datatype TaskType = MapTask | ReduceTask

  /** The lifecycle state of a task: IDLE, IN_PROGRESS or COMPLETED. */
  datatype TaskState = Idle | InProgress | Completed

  /** One task record, with the fields of the Go Task struct.
      workerId is 0 until the task is handed out; filename is empty for
      reduce tasks. */
  datatype Task = Task(
    id: int,
    workerId: int,
    nReduce: int,
    nMap: int,
    filename: string,
    taskType: TaskType,
    state: TaskState)

  /** A queue entry. The coordinator puts the same Task pointer into its
      table and into the queue; the model stores the table key instead,
      so that an update made through the queue entry is an update of the
      table entry. */
  datatype TaskRef = TaskRef(kind: TaskType, id: int)

  /** A key/value record exchanged between map output and reduce input. */
  datatype KeyValue = KeyValue(key: Bytes, value: Bytes)
}
