// The states of a task (include/task.h).
module Tasks {

  datatype TaskState = Ready | Running | Blocked | Suspended | Terminated
}
