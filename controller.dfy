/** `QFoxController`: the agent and task registries, the assignment cycle, completion with
    learning, the system metrics and training mode. */
module Controller {
  import opened Wrappers
  import opened Common
  import opened Seqs
  import opened AgentLedger
  import opened Tasks
  import opened Scoring
  import opened Assignment

  /** The `system_metrics` dictionary. `averageCompletionTime` is never updated by the core. */
  datatype Metrics = Metrics(totalCreated: nat, totalCompleted: nat, totalFailed: nat,
                             averageCompletionTime: real, systemEfficiency: real,
                             agentUtilization: real)

  const InitialMetrics: Metrics := Metrics(0, 0, 0, 0.0, 0.0, 0.0)

  /** The number of agents along `order` whose status is not Idle. */
  function BusyCount(order: seq<Id>, agents: map<Id, Agent>): (n: nat)
    ensures n <= |order|
  {
    if order == [] then 0
    else
      var id := order[|order| - 1];
      BusyCount(order[..|order| - 1], agents)
        + (if id in agents && agents[id].status != Idle then 1 else 0)
  }

  /** `_update_system_metrics`: efficiency and utilisation recomputed where their denominators
      are positive, left as they were otherwise. */
  function Refreshed(m: Metrics, busy: nat, total: nat): Metrics {
    var done := m.totalCompleted + m.totalFailed;
    m.(systemEfficiency := if done > 0 then m.totalCompleted as real / done as real
                           else m.systemEfficiency,
       agentUtilization := if total > 0 then busy as real / total as real
                           else m.agentUtilization)
  }

  lemma RatioTimesDenominator(n: nat, d: nat)
    requires d > 0
    ensures (n as real / d as real) * d as real == n as real
  {
  }

  /** Efficiency is the completed fraction of finished tasks, utilisation the busy fraction of
      agents; each stays as it was when its denominator is 0, and both stay in [0,1]. */
  lemma RefreshedMeaning(m: Metrics, busy: nat, total: nat)
    ensures var r := Refreshed(m, busy, total);
      && var done := m.totalCompleted + m.totalFailed;
      && r.totalCreated == m.totalCreated && r.totalCompleted == m.totalCompleted
      && r.totalFailed == m.totalFailed && r.averageCompletionTime == m.averageCompletionTime
      && (done > 0 ==> r.systemEfficiency * done as real == m.totalCompleted as real)
      && (done == 0 ==> r.systemEfficiency == m.systemEfficiency)
      && (total > 0 ==> r.agentUtilization * total as real == busy as real)
      && (total == 0 ==> r.agentUtilization == m.agentUtilization)
      && (InUnit(m.systemEfficiency) && InUnit(m.agentUtilization) && busy <= total ==>
            InUnit(r.systemEfficiency) && InUnit(r.agentUtilization))
  {
    var done := m.totalCompleted + m.totalFailed;
    if done > 0 {
      RatioTimesDenominator(m.totalCompleted, done);
      RatioInUnit(m.totalCompleted, done);
    }
    if total > 0 {
      RatioTimesDenominator(busy, total);
      if busy <= total {
        RatioInUnit(busy, total);
      }
    }
  }

  /** Worked instance of `RefreshedMeaning` along the metrics update of a completion: a
      successful completion while no task has failed yet reports efficiency 1.0. */
  lemma FlawlessEfficiency(m: Metrics, busy: nat, total: nat)
    requires m.totalFailed == 0
    ensures Refreshed(Counted(m, true), busy, total).systemEfficiency == 1.0
  {
    SelfRatio(m.totalCompleted + 1);
  }

  /** Worked instance of `RefreshedMeaning` along the metrics update of a completion: the first
      failure after two successful completions reports efficiency 2/3. */
  lemma TwoOfThreeEfficiency(m: Metrics, busy: nat, total: nat)
    requires m.totalCompleted == 2 && m.totalFailed == 0
    ensures Refreshed(Counted(m, false), busy, total).systemEfficiency == 2.0 / 3.0
  {
  }

  /** One more completed or failed task. */
  function Counted(m: Metrics, success: bool): Metrics {
    if success then m.(totalCompleted := m.totalCompleted + 1)
    else m.(totalFailed := m.totalFailed + 1)
  }

  function Idled(a: Agent): Agent {
    a.(status := Idle, currentTask := None)
  }

  /** What `process_task_completion` does to the agent: every required capability updated with
      the same outcome, the performance recorded, and the agent released. */
  function Finished(a: Agent, t: Task, success: bool, duration: real, now: Time): (r: Agent)
    requires a.LedgerValid()
  {
    var o: Outcome := if success then 1 else 0;
    Idled(RecordPerformance(UpdateConfidences(a, t.requiredCapabilities, o), t.id, success,
                            duration, t.complexity, t.requiredCapabilities, now))
  }

  /** The released agent is consistent and Idle, exactly one of its counters grew, and its
      performance log gained one entry. */
  lemma FinishedAccounts(a: Agent, t: Task, success: bool, duration: real, now: Time)
    requires a.Valid()
    ensures var r := Finished(a, t, success, duration, now);
      && r.Valid() && r.status == Idle && r.currentTask == None && r.id == a.id
      && r.capabilities == a.capabilities && r.learningRate == a.learningRate
      && r.totalCompleted + r.totalFailed == a.totalCompleted + a.totalFailed + 1
      && (success ==> r.totalCompleted == a.totalCompleted + 1)
      && (!success ==> r.totalFailed == a.totalFailed + 1)
      && |r.performanceHistory| == |a.performanceHistory| + 1
  {
    var o: Outcome := if success then 1 else 0;
    var u := UpdateConfidences(a, t.requiredCapabilities, o);
    var p := RecordPerformance(u, t.id, success, duration, t.complexity, t.requiredCapabilities, now);
    assert p.LedgerValid() by {
      assert p.confidenceScores == u.confidenceScores && p.successHistory == u.successHistory;
      assert p.capabilities == u.capabilities && p.adaptabilityScore == u.adaptabilityScore;
    }
    assert Idled(p).LedgerValid() by {
      assert Idled(p).confidenceScores == p.confidenceScores;
    }
  }

  /** Learning on completion: each declared required capability moved toward the outcome with
      that outcome as its newest history entry; every capability not required kept as it was. */
  lemma FinishedLearns(a: Agent, t: Task, success: bool, duration: real, now: Time, c: Capability)
    requires a.Valid()
    ensures var r := Finished(a, t, success, duration, now);
      && (c in t.requiredCapabilities && c in a.capabilities ==>
            && (success ==> Confidence(r, c) >= Confidence(a, c))
            && (!success ==> Confidence(r, c) <= Confidence(a, c))
            && History(r, c) != [] && History(r, c)[|History(r, c)| - 1] == (if success then 1 else 0))
      && (c !in t.requiredCapabilities ==>
            Confidence(r, c) == Confidence(a, c) && History(r, c) == History(a, c))
  {
    var o: Outcome := if success then 1 else 0;
    var u := UpdateConfidences(a, t.requiredCapabilities, o);
    var r := Finished(a, t, success, duration, now);
    assert r.confidenceScores == u.confidenceScores && r.successHistory == u.successHistory;
    assert r.capabilities == u.capabilities;
    assert Confidence(r, c) == Confidence(u, c) && History(r, c) == History(u, c);
    if c in t.requiredCapabilities && c in a.capabilities {
      UpdatesMoveRequired(a, t.requiredCapabilities, o, c);
      UpdatesRecordOutcome(a, t.requiredCapabilities, o, c);
    }
    if c !in t.requiredCapabilities {
      UpdatesLeaveOthersAlone(a, t.requiredCapabilities, o, c);
    }
  }

  /** Whether `process_task_completion` acts: the task exists, has an assignee, and that agent
      exists. */
  predicate Completable(tasks: map<Id, Task>, agents: map<Id, Agent>, taskId: Id) {
    taskId in tasks && tasks[taskId].assignedAgent.Some? && tasks[taskId].assignedAgent.value in agents
  }

  function Rated(a: Agent, rate: real): Agent {
    a.(learningRate := rate)
  }

  /** Every agent with learning rate `rate`. */
  function WithRate(agents: map<Id, Agent>, rate: real): map<Id, Agent> {
    map id | id in agents :: Rated(agents[id], rate)
  }

  lemma RateChangeValid(a: Agent, rate: real)
    requires a.Valid() && InUnit(rate)
    ensures Rated(a, rate).Valid() && Rated(a, rate).id == a.id
  {
    var b := Rated(a, rate);
    assert b.confidenceScores == a.confidenceScores && b.successHistory == a.successHistory;
    assert b.capabilities == a.capabilities;
  }

  lemma IdledValid(a: Agent)
    requires a.Valid()
    ensures Idled(a).Valid() && Idled(a).id == a.id
  {
    var b := Idled(a);
    assert b.confidenceScores == a.confidenceScores && b.successHistory == a.successHistory;
    assert b.capabilities == a.capabilities;
  }

  /** The new Pending, unassigned state of the current task of an agent being removed. */
  function Unassigned(tasks: map<Id, Task>, a: Agent): map<Id, Task> {
    if a.currentTask.Some? && a.currentTask.value in tasks
    then tasks[a.currentTask.value := Reverted(tasks[a.currentTask.value])]
    else tasks
  }

  /** The assignee of a task being removed, set Idle with no current task. */
  function Released(agents: map<Id, Agent>, t: Task): map<Id, Agent> {
    if t.assignedAgent.Some? && t.assignedAgent.value in agents
    then agents[t.assignedAgent.value := Idled(agents[t.assignedAgent.value])]
    else agents
  }

  /** The loop of `process_task_completion` calling `update_confidence` once per required
      capability, repeats included, with the same outcome. */
  method LearnFrom(a: Agent, req: seq<Capability>, o: Outcome) returns (r: Agent)
    requires a.LedgerValid()
    ensures r == UpdateConfidences(a, req, o)
  {
    r := a;
    var k := 0;
    while k < |req|
      invariant 0 <= k <= |req|
      invariant r.LedgerValid()
      invariant UpdateConfidences(r, req[k..], o) == UpdateConfidences(a, req, o)
    {
      assert req[k..][0] == req[k] && req[k..][1..] == req[k + 1..];
      r := UpdateConfidence(r, req[k], o);
      k := k + 1;
    }
    assert req[|req|..] == [];
  }

  /** The loop of `toggle_training_mode` over the agents dictionary. */
  method SetRates(order: seq<Id>, agents: map<Id, Agent>, rate: real) returns (r: map<Id, Agent>)
    requires Distinct(order) && forall id :: id in agents <==> id in order
    ensures r == WithRate(agents, rate)
  {
    r := agents;
    for i := 0 to |order|
      invariant r.Keys == agents.Keys
      invariant forall k :: 0 <= k < i ==> r[order[k]] == Rated(agents[order[k]], rate)
      invariant forall k :: i <= k < |order| ==> r[order[k]] == agents[order[k]]
    {
      var id := order[i];
      r := r[id := Rated(r[id], rate)];
    }
    forall id | id in r ensures r[id] == Rated(agents[id], rate) {
      var k :| 0 <= k < |order| && order[k] == id;
    }
  }

  /** The `sum(1 for agent ... if agent.status != IDLE)` of `_update_system_metrics`. */
  method CountBusy(order: seq<Id>, agents: map<Id, Agent>) returns (busy: nat)
    ensures busy == BusyCount(order, agents)
  {
    busy := 0;
    for i := 0 to |order|
      invariant busy == BusyCount(order[..i], agents)
    {
      assert order[..i + 1][..i] == order[..i];
      if order[i] in agents && agents[order[i]].status != Idle {
        busy := busy + 1;
      }
    }
    assert order[..|order|] == order;
  }

  /** The body of `_update_system_metrics` on the metrics record. */
  method RefreshMetrics(m: Metrics, order: seq<Id>, agents: map<Id, Agent>) returns (r: Metrics)
    requires Distinct(order) && forall id :: id in agents <==> id in order
    requires InUnit(m.systemEfficiency) && InUnit(m.agentUtilization)
    ensures r == Refreshed(m, BusyCount(order, agents), |agents|)
    ensures InUnit(r.systemEfficiency) && InUnit(r.agentUtilization)
  {
    var busy := CountBusy(order, agents);
    MapSizeFromOrder(order, agents);
    RefreshedMeaning(m, busy, |agents|);
    r := m;
    var done := r.totalCompleted + r.totalFailed;
    if done > 0 {
      r := r.(systemEfficiency := r.totalCompleted as real / done as real);
    }
    if |agents| > 0 {
      r := r.(agentUtilization := busy as real / |agents| as real);
    }
  }

  /** The agent's side of `process_task_completion`: learning from the outcome on every
      required capability, recording the performance, and releasing the agent. */
  method CompleteAgent(a: Agent, t: Task, success: bool, duration: real, now: Time)
    returns (r: Agent)
    requires a.Valid()
    ensures r == Finished(a, t, success, duration, now)
  {
    var o: Outcome := if success then 1 else 0;
    r := LearnFrom(a, t.requiredCapabilities, o);
    r := RecordPerformance(r, t.id, success, duration, t.complexity, t.requiredCapabilities, now);
    r := Idled(r);
  }

  /** `process_task_completion` on the dictionaries and the metrics record. */
  method Completion(tasks: map<Id, Task>, agents: map<Id, Agent>, agentOrder: seq<Id>,
                    metrics: Metrics, taskId: Id, success: bool, actualDuration: real, now: Time)
    returns (tasks': map<Id, Task>, agents': map<Id, Agent>, metrics': Metrics)
    requires MapsValid(tasks, agents)
    requires Distinct(agentOrder) && forall id :: id in agents <==> id in agentOrder
    requires InUnit(metrics.systemEfficiency) && InUnit(metrics.agentUtilization)
    ensures MapsValid(tasks', agents') && tasks'.Keys == tasks.Keys && agents'.Keys == agents.Keys
    ensures InUnit(metrics'.systemEfficiency) && InUnit(metrics'.agentUtilization)
    ensures !Completable(tasks, agents, taskId) ==>
      tasks' == tasks && agents' == agents && metrics' == metrics
    ensures Completable(tasks, agents, taskId) ==>
      var t := tasks[taskId];
      var aid := t.assignedAgent.value;
      && tasks' == tasks[taskId := Closed(t, success, actualDuration, now)]
      && agents' == agents[aid := Finished(agents[aid], t, success, actualDuration, now)]
      && metrics' == Refreshed(Counted(metrics, success), BusyCount(agentOrder, agents'), |agents'|)
  {
    if !Completable(tasks, agents, taskId) {
      return tasks, agents, metrics;
    }
    var task := tasks[taskId];
    var aid := task.assignedAgent.value;
    var closed := Closed(task, success, actualDuration, now);
    var a := CompleteAgent(agents[aid], task, success, actualDuration, now);
    FinishedAccounts(agents[aid], task, success, actualDuration, now);
    SetTaskValid(tasks, agents, closed);
    SetAgentValid(tasks[taskId := closed], agents, a);
    tasks' := tasks[taskId := closed];
    agents' := agents[aid := a];
    metrics' := RefreshMetrics(Counted(metrics, success), agentOrder, agents');
  }

  /** The ids along `order` are distinct, are exactly `keys`, and are all below `next`. */
  ghost predicate Registry(order: seq<Id>, keys: set<Id>, next: nat) {
    && Distinct(order)
    && (forall id :: id in keys <==> id in order)
    && (forall id :: id in keys ==> id < next)
  }

  lemma RegistryAdd(order: seq<Id>, keys: set<Id>, next: nat)
    requires Registry(order, keys, next)
    ensures Registry(order + [next], keys + {next}, next + 1)
    ensures next !in keys
  {
    assert next !in order;
  }

  lemma RegistryGrow(order: seq<Id>, keys: set<Id>, next: nat)
    requires Registry(order, keys, next)
    ensures Registry(order, keys, next + 1)
  {
  }

  lemma RegistryRemove(order: seq<Id>, keys: set<Id>, next: nat, x: Id)
    requires Registry(order, keys, next)
    ensures Registry(Without(order, x), keys - {x}, next)
  {
    var w := Without(order, x);
    assert Elements(w) == Elements(order) - {x};
    forall id ensures id in keys - {x} <==> id in w {
      assert id in w <==> id in Elements(w);
      assert id in order <==> id in Elements(order);
    }
  }

  lemma SetAgentValid(tasks: map<Id, Task>, agents: map<Id, Agent>, a: Agent)
    requires MapsValid(tasks, agents) && a.Valid()
    ensures MapsValid(tasks, agents[a.id := a])
  {
  }

  lemma SetTaskValid(tasks: map<Id, Task>, agents: map<Id, Agent>, t: Task)
    requires MapsValid(tasks, agents) && t.Valid()
    ensures MapsValid(tasks[t.id := t], agents)
  {
  }

  lemma DropValid(tasks: map<Id, Task>, agents: map<Id, Agent>, taskId: Id, agentId: Id)
    requires MapsValid(tasks, agents)
    ensures MapsValid(tasks - {taskId}, agents) && MapsValid(tasks, agents - {agentId})
  {
  }

  /** Removing a known agent keeps the registries and the maps consistent, and leaves its
      current task Pending with no assignee. */
  lemma RemoveAgentKeepsValid(taskOrder: seq<Id>, tasks: map<Id, Task>, agentOrder: seq<Id>,
                              agents: map<Id, Agent>, next: nat, agentId: Id)
    requires Registry(agentOrder, agents.Keys, next) && Registry(taskOrder, tasks.Keys, next)
    requires MapsValid(tasks, agents) && agentId in agents
    ensures var ts := Unassigned(tasks, agents[agentId]);
      && Registry(Without(agentOrder, agentId), (agents - {agentId}).Keys, next)
      && Registry(taskOrder, ts.Keys, next)
      && MapsValid(ts, agents - {agentId})
      && var a := agents[agentId];
         (a.currentTask.Some? && a.currentTask.value in tasks ==>
            ts[a.currentTask.value].status == Pending && ts[a.currentTask.value].assignedAgent == None)
  {
    var a := agents[agentId];
    if a.currentTask.Some? && a.currentTask.value in tasks {
      SetTaskValid(tasks, agents, Reverted(tasks[a.currentTask.value]));
    }
    var ts := Unassigned(tasks, a);
    assert ts.Keys == tasks.Keys;
    RegistryRemove(agentOrder, agents.Keys, next, agentId);
    DropValid(ts, agents, 0, agentId);
    assert (agents - {agentId}).Keys == agents.Keys - {agentId};
  }

  /** Removing a known task keeps the registries and the maps consistent. */
  lemma RemoveTaskKeepsValid(taskOrder: seq<Id>, tasks: map<Id, Task>, agentOrder: seq<Id>,
                             agents: map<Id, Agent>, next: nat, taskId: Id)
    requires Registry(agentOrder, agents.Keys, next) && Registry(taskOrder, tasks.Keys, next)
    requires MapsValid(tasks, agents) && taskId in tasks
    ensures var ags := Released(agents, tasks[taskId]);
      && Registry(agentOrder, ags.Keys, next)
      && Registry(Without(taskOrder, taskId), (tasks - {taskId}).Keys, next)
      && MapsValid(tasks - {taskId}, ags)
  {
    var t := tasks[taskId];
    if t.assignedAgent.Some? && t.assignedAgent.value in agents {
      IdledValid(agents[t.assignedAgent.value]);
      SetAgentValid(tasks, agents, Idled(agents[t.assignedAgent.value]));
    }
    var ags := Released(agents, t);
    assert ags.Keys == agents.Keys;
    RegistryRemove(taskOrder, tasks.Keys, next, taskId);
    DropValid(tasks, ags, taskId, 0);
    assert (tasks - {taskId}).Keys == tasks.Keys - {taskId};
  }

  /** The assignment cycle keeps the registries and the maps consistent. */
  lemma CycleKeepsValid(taskOrder: seq<Id>, tasks: map<Id, Task>, agentOrder: seq<Id>,
                        agents: map<Id, Agent>, next: nat, now: Time)
    requires Registry(agentOrder, agents.Keys, next) && Registry(taskOrder, tasks.Keys, next)
    requires MapsValid(tasks, agents)
    ensures var r := AssignAll(taskOrder, tasks, agentOrder, agents, now);
      && Registry(agentOrder, r.agents.Keys, next) && Registry(taskOrder, r.tasks.Keys, next)
      && MapsValid(r.tasks, r.agents)
  {
    AssignAllPairs(taskOrder, tasks, agentOrder, agents, now);
  }

  lemma SelfRatio(n: nat)
    requires n > 0
    ensures n as real / n as real == 1.0
  {
  }

  class QFoxController {
    var agents: map<Id, Agent>
    var tasks: map<Id, Task>
    /** Insertion order of the two dictionaries. */
    var agentOrder: seq<Id>
    var taskOrder: seq<Id>
    var assignmentHistory: seq<AssignmentRecord>
    var metrics: Metrics
    var trainingMode: bool
    /** Source of fresh ids. */
    var nextId: nat

    ghost predicate Valid()
      reads this
    {
      && Registry(agentOrder, agents.Keys, nextId)
      && Registry(taskOrder, tasks.Keys, nextId)
      && MapsValid(tasks, agents)
      && InUnit(metrics.systemEfficiency) && InUnit(metrics.agentUtilization)
    }

    constructor()
      ensures Valid()
      ensures agents == map[] && tasks == map[] && agentOrder == [] && taskOrder == []
      ensures assignmentHistory == [] && metrics == InitialMetrics && !trainingMode
    {
      agents := map[];
      tasks := map[];
      agentOrder := [];
      taskOrder := [];
      assignmentHistory := [];
      metrics := InitialMetrics;
      trainingMode := false;
      nextId := 0;
    }

    /** `add_agent`: a new seeded agent under a fresh id, at normal learning rate. */
    method AddAgent(name: string, capabilities: seq<Capability>, now: Time) returns (id: Id)
      requires Valid()
      modifies this
      ensures Valid()
      ensures id !in old(agents) && id == old(nextId) && nextId == old(nextId) + 1
      ensures agents == old(agents)[id := NewAgent(id, name, capabilities, now)]
      ensures agentOrder == old(agentOrder) + [id]
      ensures tasks == old(tasks) && taskOrder == old(taskOrder)
      ensures assignmentHistory == old(assignmentHistory) && metrics == old(metrics)
      ensures trainingMode == old(trainingMode)
    {
      id := nextId;
      RegistryAdd(agentOrder, agents.Keys, nextId);
      RegistryGrow(taskOrder, tasks.Keys, nextId);
      SetAgentValid(tasks, agents, NewAgent(id, name, capabilities, now));
      nextId := nextId + 1;
      agents := agents[id := NewAgent(id, name, capabilities, now)];
      agentOrder := agentOrder + [id];
    }

    /** `remove_agent`: an unknown id changes nothing; a known one is deleted and its current
        task, if any, goes back to Pending with no assignee. */
    method RemoveAgent(agentId: Id) returns (removed: bool)
      requires Valid()
      modifies this
      ensures Valid()
      ensures removed == (agentId in old(agents))
      ensures agents == old(agents) - {agentId}
      ensures removed ==> agentOrder == Without(old(agentOrder), agentId)
      ensures !removed ==> agentOrder == old(agentOrder)
      ensures tasks == if removed then Unassigned(old(tasks), old(agents)[agentId]) else old(tasks)
      ensures removed && old(agents)[agentId].currentTask.Some?
              && old(agents)[agentId].currentTask.value in old(tasks) ==>
                var t := tasks[old(agents)[agentId].currentTask.value];
                t.status == Pending && t.assignedAgent == None
      ensures taskOrder == old(taskOrder) && nextId == old(nextId)
      ensures assignmentHistory == old(assignmentHistory) && metrics == old(metrics)
      ensures trainingMode == old(trainingMode)
    {
      if agentId !in agents {
        assert agents - {agentId} == agents;
        return false;
      }
      RemoveAgentKeepsValid(taskOrder, tasks, agentOrder, agents, nextId, agentId);
      tasks := Unassigned(tasks, agents[agentId]);
      agents := agents - {agentId};
      agentOrder := Without(agentOrder, agentId);
      removed := true;
    }

    /** `create_task`: a new Pending task under a fresh id; one more task created. */
    method CreateTask(name: string, description: string, required: seq<Capability>,
                      complexity: real, priority: real, estimatedDuration: real, now: Time)
      returns (id: Id)
      requires Valid()
      modifies this
      ensures Valid()
      ensures id !in old(tasks) && id == old(nextId) && nextId == old(nextId) + 1
      ensures tasks == old(tasks)[id := NewTask(id, name, description, required, complexity,
                                                 priority, estimatedDuration, now)]
      ensures taskOrder == old(taskOrder) + [id]
      ensures metrics == old(metrics).(totalCreated := old(metrics).totalCreated + 1)
      ensures agents == old(agents) && agentOrder == old(agentOrder)
      ensures assignmentHistory == old(assignmentHistory) && trainingMode == old(trainingMode)
    {
      id := nextId;
      var t := NewTask(id, name, description, required, complexity, priority,
                       estimatedDuration, now);
      RegistryAdd(taskOrder, tasks.Keys, nextId);
      RegistryGrow(agentOrder, agents.Keys, nextId);
      SetTaskValid(tasks, agents, t);
      nextId := nextId + 1;
      tasks := tasks[id := t];
      taskOrder := taskOrder + [id];
      metrics := metrics.(totalCreated := metrics.totalCreated + 1);
    }

    /** `remove_task`: an unknown id changes nothing; a known one is deleted and its assignee,
        if it still exists, is set Idle with no current task, whatever that agent is doing. */
    method RemoveTask(taskId: Id) returns (removed: bool)
      requires Valid()
      modifies this
      ensures Valid()
      ensures removed == (taskId in old(tasks))
      ensures tasks == old(tasks) - {taskId}
      ensures removed ==> taskOrder == Without(old(taskOrder), taskId)
      ensures !removed ==> taskOrder == old(taskOrder)
      ensures agents == if removed then Released(old(agents), old(tasks)[taskId]) else old(agents)
      ensures agentOrder == old(agentOrder) && nextId == old(nextId)
      ensures assignmentHistory == old(assignmentHistory) && metrics == old(metrics)
      ensures trainingMode == old(trainingMode)
    {
      if taskId !in tasks {
        assert tasks - {taskId} == tasks;
        return false;
      }
      RemoveTaskKeepsValid(taskOrder, tasks, agentOrder, agents, nextId, taskId);
      agents := Released(agents, tasks[taskId]);
      tasks := tasks - {taskId};
      taskOrder := Without(taskOrder, taskId);
      removed := true;
    }

    /** `assign_tasks`: one greedy cycle over the Pending tasks in priority order, as `AssignAll`
        specifies; the assignments it makes are returned and appended to the history. */
    method AssignTasks(now: Time) returns (made: seq<AssignmentRecord>)
      requires Valid()
      modifies this
      ensures Valid()
      ensures var r := AssignAll(old(taskOrder), old(tasks), old(agentOrder), old(agents), now);
        tasks == r.tasks && agents == r.agents && made == r.made
      ensures assignmentHistory == old(assignmentHistory) + made
      ensures agentOrder == old(agentOrder) && taskOrder == old(taskOrder)
      ensures metrics == old(metrics) && trainingMode == old(trainingMode) && nextId == old(nextId)
    {
      CycleKeepsValid(taskOrder, tasks, agentOrder, agents, nextId, now);
      var taskMap, agentMap;
      taskMap, agentMap, made := AssignPending(taskOrder, tasks, agentOrder, agents, now);
      tasks, agents := taskMap, agentMap;
      assignmentHistory := assignmentHistory + made;
    }

    /** `_update_system_metrics`. */
    method UpdateSystemMetrics()
      requires Valid()
      modifies this
      ensures Valid()
      ensures metrics == Refreshed(old(metrics), BusyCount(agentOrder, agents), |agents|)
      ensures agents == old(agents) && tasks == old(tasks)
      ensures agentOrder == old(agentOrder) && taskOrder == old(taskOrder)
      ensures assignmentHistory == old(assignmentHistory) && trainingMode == old(trainingMode)
      ensures nextId == old(nextId)
    {
      metrics := RefreshMetrics(metrics, agentOrder, agents);
    }

    /** `process_task_completion`: a silent no-op unless the task exists, has an assignee and
        that agent exists; otherwise the task is closed, the agent learns from the outcome and is
        released, and the system counters and metrics are updated. */
    method ProcessTaskCompletion(taskId: Id, success: bool, actualDuration: real, now: Time)
      requires Valid()
      modifies this
      ensures Valid()
      ensures !Completable(old(tasks), old(agents), taskId) ==>
        tasks == old(tasks) && agents == old(agents) && metrics == old(metrics)
      ensures Completable(old(tasks), old(agents), taskId) ==>
        var t := old(tasks)[taskId];
        var aid := t.assignedAgent.value;
        && tasks == old(tasks)[taskId := Closed(t, success, actualDuration, now)]
        && agents == old(agents)[aid := Finished(old(agents)[aid], t, success, actualDuration, now)]
        && metrics == Refreshed(Counted(old(metrics), success), BusyCount(agentOrder, agents), |agents|)
      ensures agentOrder == old(agentOrder) && taskOrder == old(taskOrder)
      ensures assignmentHistory == old(assignmentHistory) && trainingMode == old(trainingMode)
      ensures nextId == old(nextId)
    {
      var taskMap, agentMap, m :=
        Completion(tasks, agents, agentOrder, metrics, taskId, success, actualDuration, now);
      tasks, agents, metrics := taskMap, agentMap, m;
    }

    /** `toggle_training_mode`: flips the mode and sets every existing agent's learning rate to
        0.3 in training mode and 0.1 otherwise. */
    method ToggleTrainingMode()
      requires Valid()
      modifies this
      ensures Valid()
      ensures trainingMode == !old(trainingMode)
      ensures agents == WithRate(old(agents),
                                 if trainingMode then TrainingLearningRate else NormalLearningRate)
      ensures tasks == old(tasks) && agentOrder == old(agentOrder) && taskOrder == old(taskOrder)
      ensures assignmentHistory == old(assignmentHistory) && metrics == old(metrics)
      ensures nextId == old(nextId)
    {
      trainingMode := !trainingMode;
      var rate := if trainingMode then TrainingLearningRate else NormalLearningRate;
      var agentMap := SetRates(agentOrder, agents, rate);
      forall id | id in agentMap ensures agentMap[id].Valid() && agentMap[id].id == id {
        RateChangeValid(agents[id], rate);
      }
      agents := agentMap;
    }
  }
}
