/** The part of the task executor the Java backend uses: it collects tasks. */
module Exec {

  /** A build task: a shell command, the paths it reads and the paths it writes. */
  datatype Task = Task(command: string, inputs: seq<string>, outputs: seq<string>)

  class Executor {
    /** The tasks registered so far, in order. */
    var tasks: seq<Task>

    constructor ()
      ensures tasks == []
    {
      tasks := [];
    }

    /** `Executor::add_task_cmd`: appends one task and changes nothing else. */
    method AddTaskCmd(command: string, inputs: seq<string>, outputs: seq<string>)
      modifies this
      ensures tasks == old(tasks) + [Task(command, inputs, outputs)]
    {
      tasks := tasks + [Task(command, inputs, outputs)];
    }
  }
}
