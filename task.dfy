/** Tasks and their lifecycle Pending -> InProgress -> Completed | Failed (qfox_core.py, class Task). */
module Tasks {
  import opened Wrappers
  import opened Common

  datatype TaskStatus = Pending | InProgress | Completed | Failed

  datatype Task = Task(
    id: Id,
    name: string,
    description: string,
    requiredCapabilities: seq<Capability>,
    complexity: real,
    priority: real,
    estimatedDuration: real,
    status: TaskStatus,
    assignedAgent: Option<Id>,
    createdAt: Time,
    startedAt: Option<Time>,
    completedAt: Option<Time>,
    actualDuration: Option<real>,
    successScore: Option<real>)
  {
    /** A task has an assignee exactly when it has left Pending. */
    ghost predicate Valid() {
      assignedAgent.Some? <==> status != Pending
    }
  }

  /** A task as `create_task` builds it: Pending, unassigned, nothing stamped but its creation. */
  function NewTask(id: Id, name: string, description: string, required: seq<Capability>,
                   complexity: real, priority: real, estimatedDuration: real, now: Time): (t: Task)
    ensures t.Valid() && t.id == id && t.status == Pending && t.assignedAgent == None
    ensures t.requiredCapabilities == required && t.priority == priority
  {
    Task(id, name, description, required, complexity, priority, estimatedDuration,
         Pending, None, now, None, None, None, None)
  }

  /** The assignment transition: InProgress, assignee and start time set. */
  function Started(t: Task, agentId: Id, now: Time): (r: Task)
    ensures r.Valid() && r.status == InProgress && r.assignedAgent == Some(agentId)
    ensures r.id == t.id && r.requiredCapabilities == t.requiredCapabilities
  {
    t.(status := InProgress, assignedAgent := Some(agentId), startedAt := Some(now))
  }

  /** The completion transition: Completed or Failed, success score 1.0 or 0.0; the assignee is
      kept for audit. */
  function Closed(t: Task, success: bool, actualDuration: real, now: Time): (r: Task)
    ensures t.assignedAgent.Some? ==> r.Valid()
    ensures r.status == (if success then Completed else Failed)
    ensures r.successScore == Some(if success then 1.0 else 0.0)
    ensures r.assignedAgent == t.assignedAgent && r.id == t.id
  {
    t.(status := if success then Completed else Failed, completedAt := Some(now),
       actualDuration := Some(actualDuration), successScore := Some(if success then 1.0 else 0.0))
  }

  /** Removing the assigned agent: back to Pending with no assignee. */
  function Reverted(t: Task): (r: Task)
    ensures r.Valid() && r.status == Pending && r.assignedAgent == None && r.id == t.id
  {
    t.(status := Pending, assignedAgent := None)
  }
}
