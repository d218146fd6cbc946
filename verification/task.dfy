/** The `Task` entity: a frozen dataclass, so a value with field-wise
    equality; a "change" builds a new value. */
module Tasks {
  import opened Wrappers
  import opened Enums
  import opened Timestamps

  datatype Task = Task(
    taskId: string,
    title: string,
    createdAt: Instant,
    description: Option<string>,
    status: TaskStatus)

  /** The dataclass constructor with its defaults: no description, status
      Open. */
  function NewTask(
    taskId: string, title: string, createdAt: Instant,
    description: Option<string> := None, status: TaskStatus := Open): Task
  {
    Task(taskId, title, createdAt, description, status)
  }

  /** A task built without a status is Open and one built without a
      description has none. */
  lemma NewTaskDefaults(taskId: string, title: string, createdAt: Instant)
    ensures NewTask(taskId, title, createdAt).status == Open
    ensures NewTask(taskId, title, createdAt).description == None
  {
  }

  /** `Task(task_id=t.task_id, title=t.title, description=t.description,
      created_at=t.created_at, status=s)`: a copy with a new status. */
  function WithStatus(t: Task, s: TaskStatus): (r: Task)
    ensures r.status == s
    ensures r.(status := t.status) == t
  {
    t.(status := s)
  }
}
