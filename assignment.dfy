/** The assignment cycle of `QFoxController.assign_tasks` as a function: the pending tasks in
    stable priority-descending order, each offered to the still-available Idle agents, the first
    agent with the strictly highest score taken when that score is above 0.1. */
module Assignment {
  import opened Wrappers
  import opened Common
  import opened Seqs
  import opened AgentLedger
  import opened Tasks
  import opened Scoring

  /** The audit tuple appended on every committed assignment. */
  datatype AssignmentRecord = AssignmentRecord(taskId: Id, agentId: Id, score: real, timestamp: Time)

  /** The Pending tasks in the dictionary's iteration order. */
  function PendingTasks(order: seq<Id>, tasks: map<Id, Task>): seq<Task> {
    if order == [] then []
    else
      var rest := PendingTasks(order[..|order|-1], tasks);
      var id := order[|order|-1];
      if id in tasks && tasks[id].status == Pending then rest + [tasks[id]] else rest
  }

  /** The Idle agents in the dictionary's iteration order. */
  function IdleAgents(order: seq<Id>, agents: map<Id, Agent>): seq<Agent> {
    if order == [] then []
    else
      var rest := IdleAgents(order[..|order|-1], agents);
      var id := order[|order|-1];
      if id in agents && agents[id].status == Idle then rest + [agents[id]] else rest
  }

  predicate DistinctTaskIds(ts: seq<Task>) {
    forall i, j :: 0 <= i < j < |ts| ==> ts[i].id != ts[j].id
  }

  predicate DistinctAgentIds(pool: seq<Agent>) {
    forall i, j :: 0 <= i < j < |pool| ==> pool[i].id != pool[j].id
  }

  function TaskIds(ts: seq<Task>): set<Id> {
    set t | t in ts :: t.id
  }

  function PoolIds(pool: seq<Agent>): set<Id> {
    set a | a in pool :: a.id
  }

  /** Each task and agent is filed under its own id and is consistent. */
  ghost predicate MapsValid(tasks: map<Id, Task>, agents: map<Id, Agent>) {
    && (forall id :: id in tasks ==> tasks[id].id == id && tasks[id].Valid())
    && (forall id :: id in agents ==> agents[id].id == id && agents[id].Valid())
  }

  /** The pending list holds exactly the Pending tasks of the map, each once. */
  lemma {:induction false} PendingTasksFacts(order: seq<Id>, tasks: map<Id, Task>)
    requires Distinct(order)
    requires forall id :: id in tasks ==> tasks[id].id == id
    ensures var ps := PendingTasks(order, tasks);
      && DistinctTaskIds(ps)
      && (forall t :: t in ps ==> t.id in tasks && tasks[t.id] == t && t.status == Pending)
      && (forall id :: id in order && id in tasks && tasks[id].status == Pending ==> tasks[id] in ps)
      && (forall t :: t in ps ==> t.id in order)
  {
    if order != [] {
      var init := order[..|order|-1];
      var id := order[|order|-1];
      assert Distinct(init);
      PendingTasksFacts(init, tasks);
      assert order == init + [id];
      assert id !in init;
      var rest := PendingTasks(init, tasks);
      if id in tasks && tasks[id].status == Pending {
        var ps := rest + [tasks[id]];
        forall i, j | 0 <= i < j < |ps| ensures ps[i].id != ps[j].id {
          if j == |rest| {
            assert ps[i] in rest;
          } else {
            assert ps[i] == rest[i] && ps[j] == rest[j];
          }
        }
      }
    }
  }

  /** The idle list holds exactly the Idle agents of the map, each once. */
  lemma {:induction false} IdleAgentsFacts(order: seq<Id>, agents: map<Id, Agent>)
    requires Distinct(order)
    requires forall id :: id in agents ==> agents[id].id == id
    ensures var pool := IdleAgents(order, agents);
      && DistinctAgentIds(pool)
      && (forall a :: a in pool ==> a.id in agents && agents[a.id] == a && a.status == Idle)
      && (forall id :: id in order && id in agents && agents[id].status == Idle ==> agents[id] in pool)
      && (forall a :: a in pool ==> a.id in order)
  {
    if order != [] {
      var init := order[..|order|-1];
      var id := order[|order|-1];
      assert Distinct(init);
      IdleAgentsFacts(init, agents);
      assert order == init + [id];
      assert id !in init;
      var rest := IdleAgents(init, agents);
      if id in agents && agents[id].status == Idle {
        var pool := rest + [agents[id]];
        forall i, j | 0 <= i < j < |pool| ensures pool[i].id != pool[j].id {
          if j == |rest| {
            assert pool[i] in rest;
          } else {
            assert pool[i] == rest[i] && pool[j] == rest[j];
          }
        }
      }
    }
  }

  // ---------------------------------------------------------------------------------------------
  // `pending_tasks.sort(key=lambda t: t.priority, reverse=True)`: a stable sort, highest first.

  function InsertByPriority(t: Task, sorted: seq<Task>): seq<Task> {
    if sorted == [] || t.priority >= sorted[0].priority then [t] + sorted
    else [sorted[0]] + InsertByPriority(t, sorted[1..])
  }

  function SortByPriority(ts: seq<Task>): seq<Task> {
    if ts == [] then [] else InsertByPriority(ts[0], SortByPriority(ts[1..]))
  }

  predicate Descending(ts: seq<Task>) {
    forall i, j :: 0 <= i < j < |ts| ==> ts[i].priority >= ts[j].priority
  }

  /** The tasks of priority `p`, in order. */
  function WithPriority(ts: seq<Task>, p: real): seq<Task> {
    if ts == [] then []
    else (if ts[0].priority == p then [ts[0]] else []) + WithPriority(ts[1..], p)
  }

  lemma {:induction false} InsertMembers(t: Task, s: seq<Task>)
    ensures forall x :: x in InsertByPriority(t, s) <==> x == t || x in s
  {
    if s != [] && t.priority < s[0].priority {
      InsertMembers(t, s[1..]);
      assert s == [s[0]] + s[1..];
    }
  }

  lemma {:induction false} InsertMultiset(t: Task, s: seq<Task>)
    ensures multiset(InsertByPriority(t, s)) == multiset(s) + multiset{t}
  {
    if s != [] && t.priority < s[0].priority {
      InsertMultiset(t, s[1..]);
      assert s == [s[0]] + s[1..];
    }
  }

  lemma {:induction false} InsertDescending(t: Task, s: seq<Task>)
    requires Descending(s)
    ensures Descending(InsertByPriority(t, s))
  {
    if s != [] && t.priority < s[0].priority {
      InsertDescending(t, s[1..]);
      InsertMembers(t, s[1..]);
      var r := InsertByPriority(t, s[1..]);
      forall j | 0 < j < |[s[0]] + r| ensures s[0].priority >= ([s[0]] + r)[j].priority {
        assert r[j - 1] in r;
      }
    }
  }

  lemma {:induction false} InsertFilter(t: Task, s: seq<Task>, p: real)
    ensures WithPriority(InsertByPriority(t, s), p)
            == (if t.priority == p then [t] else []) + WithPriority(s, p)
  {
    if s != [] && t.priority < s[0].priority {
      InsertFilter(t, s[1..], p);
      var r := InsertByPriority(t, s[1..]);
      assert ([s[0]] + r)[1..] == r;
    }
  }

  lemma {:induction false} InsertKeepsDistinctIds(t: Task, s: seq<Task>)
    requires DistinctTaskIds(s) && forall u :: u in s ==> u.id != t.id
    ensures DistinctTaskIds(InsertByPriority(t, s))
  {
    if s != [] && t.priority < s[0].priority {
      InsertKeepsDistinctIds(t, s[1..]);
      InsertMembers(t, s[1..]);
      var r := InsertByPriority(t, s[1..]);
      forall j | 0 < j < |[s[0]] + r| ensures s[0].id != ([s[0]] + r)[j].id {
        assert r[j - 1] in r;
        if r[j - 1] != t {
          var k :| 0 <= k < |s[1..]| && s[1..][k] == r[j - 1];
          assert s[k + 1] == r[j - 1];
        }
      }
      var q := [s[0]] + r;
      forall i, j | 0 <= i < j < |q| ensures q[i].id != q[j].id {
        if i > 0 {
          assert q[i] == r[i - 1] && q[j] == r[j - 1];
        }
      }
    } else {
      var q := [t] + s;
      forall i, j | 0 <= i < j < |q| ensures q[i].id != q[j].id {
        if i > 0 {
          assert q[i] == s[i - 1] && q[j] == s[j - 1];
        } else {
          assert q[j] in s;
        }
      }
    }
  }

  /** The sorted list is priority-descending. */
  lemma {:induction false} SortIsDescending(ts: seq<Task>)
    ensures Descending(SortByPriority(ts))
  {
    if ts != [] {
      SortIsDescending(ts[1..]);
      InsertDescending(ts[0], SortByPriority(ts[1..]));
    }
  }

  /** The sort is stable: the tasks of any one priority keep their original relative order. */
  lemma {:induction false} SortIsStable(ts: seq<Task>, p: real)
    ensures WithPriority(SortByPriority(ts), p) == WithPriority(ts, p)
  {
    if ts != [] {
      SortIsStable(ts[1..], p);
      InsertFilter(ts[0], SortByPriority(ts[1..]), p);
    }
  }

  /** The sort is a permutation. */
  lemma {:induction false} SortIsPermutation(ts: seq<Task>)
    ensures multiset(SortByPriority(ts)) == multiset(ts)
  {
    if ts != [] {
      SortIsPermutation(ts[1..]);
      InsertMultiset(ts[0], SortByPriority(ts[1..]));
      assert ts == [ts[0]] + ts[1..];
    }
  }

  /** The sort keeps the tasks, and their ids distinct. */
  lemma {:induction false} SortKeepsTasks(ts: seq<Task>)
    requires DistinctTaskIds(ts)
    ensures DistinctTaskIds(SortByPriority(ts))
    ensures forall t :: t in SortByPriority(ts) <==> t in ts
  {
    if ts != [] {
      assert DistinctTaskIds(ts[1..]);
      SortKeepsTasks(ts[1..]);
      var s := SortByPriority(ts[1..]);
      InsertMembers(ts[0], s);
      forall u | u in s ensures u.id != ts[0].id {
        var k :| 0 <= k < |ts[1..]| && ts[1..][k] == u;
        assert ts[k + 1] == u;
      }
      InsertKeepsDistinctIds(ts[0], s);
      assert ts == [ts[0]] + ts[1..];
    }
  }

  // ---------------------------------------------------------------------------------------------
  // The inner loop: the first agent with the strictly highest score, starting from 0.0.

  datatype Choice = NoAgent | Chosen(index: nat, score: real)

  function BestScore(c: Choice): real {
    if c.Chosen? then c.score else 0.0
  }

  function BestOf(pool: seq<Agent>, t: Task): (c: Choice)
    ensures c.Chosen? ==> c.index < |pool| && c.score == Score(pool[c.index], t) && c.score > 0.0
  {
    if pool == [] then NoAgent
    else
      var c := BestOf(pool[..|pool|-1], t);
      var s := Score(pool[|pool|-1], t);
      if s > BestScore(c) then Chosen(|pool|-1, s) else c
  }

  /** No agent scores above the best score kept (0.0 when nobody was chosen). */
  lemma {:induction false} BestOfBounds(pool: seq<Agent>, t: Task)
    ensures forall j :: 0 <= j < |pool| ==> Score(pool[j], t) <= BestScore(BestOf(pool, t))
  {
    if pool != [] {
      var init := pool[..|pool|-1];
      BestOfBounds(init, t);
      assert BestScore(BestOf(init, t)) <= BestScore(BestOf(pool, t));
      assert forall j :: 0 <= j < |init| ==> init[j] == pool[j];
    }
  }

  /** Every agent before the chosen one scores strictly less than it. */
  lemma {:induction false} BestOfFirst(pool: seq<Agent>, t: Task)
    ensures var c := BestOf(pool, t);
      c.Chosen? ==> forall j :: 0 <= j < c.index ==> Score(pool[j], t) < c.score
  {
    if pool != [] {
      var init := pool[..|pool|-1];
      var c := BestOf(pool, t);
      if c != BestOf(init, t) {
        BestOfBounds(init, t);
      } else {
        BestOfFirst(init, t);
      }
      assert forall j :: 0 <= j < |init| ==> init[j] == pool[j];
    }
  }

  /** The choice is the first agent of maximal score, provided that score is positive;
      no agent is chosen exactly when every score is 0. */
  lemma BestOfIsFirstMaximum(pool: seq<Agent>, t: Task)
    ensures var c := BestOf(pool, t);
      && (c.Chosen? ==>
            && (forall j :: 0 <= j < |pool| ==> Score(pool[j], t) <= c.score)
            && (forall j :: 0 <= j < c.index ==> Score(pool[j], t) < c.score))
      && (c.NoAgent? <==> forall j :: 0 <= j < |pool| ==> Score(pool[j], t) <= 0.0)
  {
    BestOfBounds(pool, t);
    BestOfFirst(pool, t);
    var c := BestOf(pool, t);
    if c.Chosen? {
      assert Score(pool[c.index], t) > 0.0;
    }
  }

  // ---------------------------------------------------------------------------------------------
  // The outer loop.

  /** State of one call of `assign_tasks`: the agents still available, the maps, and the
      assignments made so far. */
  datatype Cycle = Cycle(pool: seq<Agent>, tasks: map<Id, Task>, agents: map<Id, Agent>,
                         made: seq<AssignmentRecord>)

  function Engaged(a: Agent, taskId: Id): Agent {
    a.(status := Busy, currentTask := Some(taskId))
  }

  /** Whether the best agent for `t` clears the acceptance threshold. */
  predicate Commits(c: Cycle, t: Task) {
    var choice := BestOf(c.pool, t);
    choice.Chosen? && choice.score > AcceptanceThreshold
  }

  /** Offer task `t` to the pool; commit the best agent when its score is above 0.1. */
  function Step(c: Cycle, t: Task, now: Time): Cycle {
    if Commits(c, t) then
      var choice := BestOf(c.pool, t);
      var a := c.pool[choice.index];
      Cycle(c.pool[..choice.index] + c.pool[choice.index + 1..],
            c.tasks[t.id := Started(t, a.id, now)],
            c.agents[a.id := Engaged(a, t.id)],
            c.made + [AssignmentRecord(t.id, a.id, choice.score, now)])
    else c
  }

  /** Offer the tasks `ts` one after another. */
  function Run(ts: seq<Task>, c: Cycle, now: Time): Cycle
    decreases |ts|
  {
    if ts == [] then c else Run(ts[1..], Step(c, ts[0], now), now)
  }

  /** Every agent in the pool is the map's Idle agent under its id, once. */
  ghost predicate PoolReady(c: Cycle) {
    && DistinctAgentIds(c.pool)
    && (forall a :: a in c.pool ==> a.id in c.agents && c.agents[a.id] == a && a.status == Idle)
  }

  function NewTaskIds(made: seq<AssignmentRecord>, from: nat): set<Id> {
    set i | from <= i < |made| :: made[i].taskId
  }

  function NewAgentIds(made: seq<AssignmentRecord>, from: nat): set<Id> {
    set i | from <= i < |made| :: made[i].agentId
  }

  lemma PoolWithout(pool: seq<Agent>, k: nat)
    requires k < |pool| && DistinctAgentIds(pool)
    ensures var rest := pool[..k] + pool[k + 1..];
      && DistinctAgentIds(rest)
      && PoolIds(rest) == PoolIds(pool) - {pool[k].id}
      && (forall a :: a in rest ==> a in pool && a.id != pool[k].id)
  {
    var rest := pool[..k] + pool[k + 1..];
    assert forall i :: 0 <= i < |rest| ==> rest[i] == if i < k then pool[i] else pool[i + 1];
    forall x | x in PoolIds(pool) - {pool[k].id} ensures x in PoolIds(rest) {
      var a :| a in pool && a.id == x;
      var i :| 0 <= i < |pool| && pool[i] == a;
      assert i != k;
      assert a == rest[if i < k then i else i - 1];
    }
  }

  lemma EngagedValid(a: Agent, taskId: Id)
    requires a.Valid()
    ensures Engaged(a, taskId).Valid() && Engaged(a, taskId).id == a.id
  {
    var b := Engaged(a, taskId);
    assert b.LedgerValid() by {
      assert b.capabilities == a.capabilities && b.confidenceScores == a.confidenceScores;
      assert b.successHistory == a.successHistory;
    }
  }

  /** A step keeps the pool ready, and the maps' key sets when the task is in the map. */
  lemma StepKeepsPool(c: Cycle, t: Task, now: Time)
    requires PoolReady(c)
    ensures var c' := Step(c, t, now);
      && PoolReady(c') && c'.agents.Keys == c.agents.Keys && c.tasks.Keys <= c'.tasks.Keys
      && (t.id in c.tasks ==> c'.tasks.Keys == c.tasks.Keys)
  {
    if Commits(c, t) {
      var k := BestOf(c.pool, t).index;
      var a := c.pool[k];
      PoolWithout(c.pool, k);
      var c' := Step(c, t, now);
      assert c'.pool == c.pool[..k] + c.pool[k + 1..];
      assert c'.agents == c.agents[a.id := Engaged(a, t.id)];
      assert a in c.pool;
      forall b | b in c'.pool ensures b.id in c'.agents && c'.agents[b.id] == b && b.status == Idle {
        assert b in c.pool && b.id != a.id;
      }
    }
  }

  /** A step keeps the maps consistent. */
  lemma StepKeepsMaps(c: Cycle, t: Task, now: Time)
    requires PoolReady(c) && MapsValid(c.tasks, c.agents) && t.id in c.tasks
    ensures var c' := Step(c, t, now); MapsValid(c'.tasks, c'.agents)
  {
    if Commits(c, t) {
      var a := c.pool[BestOf(c.pool, t).index];
      assert a in c.pool;
      EngagedValid(a, t.id);
    }
  }

  /** What a step does: nothing, or one record for `t` and an available agent, which leaves the
      pool, with the task InProgress with that agent, the agent Busy with that task, and no
      other task or agent touched. */
  lemma StepIds(c: Cycle, t: Task, now: Time)
    requires DistinctAgentIds(c.pool)
    ensures var c' := Step(c, t, now);
      && DistinctAgentIds(c'.pool)
      && (!Commits(c, t) ==> c' == c)
      && (Commits(c, t) ==>
            && |c'.made| == |c.made| + 1 && c'.made[..|c.made|] == c.made
            && var m := c'.made[|c.made|];
            && m.taskId == t.id && m.agentId in PoolIds(c.pool)
            && m.score > AcceptanceThreshold && m.timestamp == now
            && PoolIds(c'.pool) == PoolIds(c.pool) - {m.agentId}
            && c'.tasks == c.tasks[t.id := Started(t, m.agentId, now)]
            && c'.agents.Keys == c.agents.Keys + {m.agentId}
            && c'.agents[m.agentId].status == Busy
            && c'.agents[m.agentId].currentTask == Some(t.id)
            && (forall id :: id in c.agents && id != m.agentId ==> c'.agents[id] == c.agents[id]))
  {
    if Commits(c, t) {
      var k := BestOf(c.pool, t).index;
      var a := c.pool[k];
      PoolWithout(c.pool, k);
      var c' := Step(c, t, now);
      assert c'.made == c.made + [AssignmentRecord(t.id, a.id, BestOf(c.pool, t).score, now)];
      assert c'.made[..|c.made|] == c.made;
      assert a in c.pool;
    }
  }

  lemma NewIdsSplit(made: seq<AssignmentRecord>, from: nat)
    requires from < |made|
    ensures NewTaskIds(made, from) == {made[from].taskId} + NewTaskIds(made, from + 1)
    ensures NewAgentIds(made, from) == {made[from].agentId} + NewAgentIds(made, from + 1)
  {
  }

  /** A step appends at most one record. */
  lemma StepMade(c: Cycle, t: Task, now: Time)
    ensures Step(c, t, now).made == c.made
         || (|Step(c, t, now).made| == |c.made| + 1 && Step(c, t, now).made[..|c.made|] == c.made)
  {
    if Commits(c, t) {
      assert Step(c, t, now).made[..|c.made|] == c.made;
    }
  }

  /** The records made before the cycle are kept, in front. */
  lemma {:induction false} RunMadeGrows(ts: seq<Task>, c: Cycle, now: Time)
    ensures var r := Run(ts, c, now);
      |c.made| <= |r.made| && r.made[..|c.made|] == c.made
    decreases |ts|
  {
    if ts != [] {
      var c' := Step(c, ts[0], now);
      StepMade(c, ts[0], now);
      RunMadeGrows(ts[1..], c', now);
      var r := Run(ts[1..], c', now);
      assert r.made[..|c.made|] == r.made[..|c'.made|][..|c.made|];
    }
  }

  /** The cycle keeps the pool and the maps consistent, and the maps' key sets. */
  lemma {:induction false} RunKeepsValid(ts: seq<Task>, c: Cycle, now: Time)
    requires PoolReady(c) && MapsValid(c.tasks, c.agents)
    requires forall t :: t in ts ==> t.id in c.tasks
    ensures var r := Run(ts, c, now);
      && PoolReady(r) && MapsValid(r.tasks, r.agents)
      && r.tasks.Keys == c.tasks.Keys && r.agents.Keys == c.agents.Keys
    decreases |ts|
  {
    if ts != [] {
      var c' := Step(c, ts[0], now);
      assert Run(ts, c, now) == Run(ts[1..], c', now);
      assert ts[0] in ts;
      StepKeepsPool(c, ts[0], now);
      StepKeepsMaps(c, ts[0], now);
      assert forall t :: t in ts[1..] ==> t in ts;
      RunKeepsValid(ts[1..], c', now);
    }
  }

  /** The records of the cycle name only tasks offered in it and agents available in it. */
  lemma {:induction false} RunTouches(ts: seq<Task>, c: Cycle, now: Time)
    requires DistinctAgentIds(c.pool)
    ensures var r := Run(ts, c, now);
      NewTaskIds(r.made, |c.made|) <= TaskIds(ts) && NewAgentIds(r.made, |c.made|) <= PoolIds(c.pool)
    decreases |ts|
  {
    if ts != [] {
      var c' := Step(c, ts[0], now);
      assert Run(ts, c, now) == Run(ts[1..], c', now);
      var r := Run(ts[1..], c', now);
      StepIds(c, ts[0], now);
      RunTouches(ts[1..], c', now);
      RunMadeGrows(ts[1..], c', now);
      assert TaskIds(ts[1..]) <= TaskIds(ts) by {
        assert forall t :: t in ts[1..] ==> t in ts;
      }
      if Commits(c, ts[0]) {
        NewIdsSplit(r.made, |c.made|);
        assert r.made[|c.made|] == c'.made[|c.made|];
        assert ts[0] in ts;
      }
    }
  }

  /** A task no record of the cycle names is left as it was. */
  lemma {:induction false} RunFrameTasks(ts: seq<Task>, c: Cycle, now: Time, id: Id)
    requires DistinctAgentIds(c.pool)
    requires id in c.tasks && id !in NewTaskIds(Run(ts, c, now).made, |c.made|)
    ensures id in Run(ts, c, now).tasks && Run(ts, c, now).tasks[id] == c.tasks[id]
    decreases |ts|
  {
    if ts != [] {
      var c' := Step(c, ts[0], now);
      assert Run(ts, c, now) == Run(ts[1..], c', now);
      var r := Run(ts[1..], c', now);
      StepIds(c, ts[0], now);
      RunMadeGrows(ts[1..], c', now);
      if Commits(c, ts[0]) {
        NewIdsSplit(r.made, |c.made|);
        assert r.made[|c.made|] == c'.made[|c.made|];
      }
      RunFrameTasks(ts[1..], c', now, id);
    }
  }

  /** An agent no record of the cycle names is left as it was. */
  lemma {:induction false} RunFrameAgents(ts: seq<Task>, c: Cycle, now: Time, id: Id)
    requires DistinctAgentIds(c.pool)
    requires id in c.agents && id !in NewAgentIds(Run(ts, c, now).made, |c.made|)
    ensures id in Run(ts, c, now).agents && Run(ts, c, now).agents[id] == c.agents[id]
    decreases |ts|
  {
    if ts != [] {
      var c' := Step(c, ts[0], now);
      assert Run(ts, c, now) == Run(ts[1..], c', now);
      var r := Run(ts[1..], c', now);
      StepIds(c, ts[0], now);
      RunMadeGrows(ts[1..], c', now);
      if Commits(c, ts[0]) {
        NewIdsSplit(r.made, |c.made|);
        assert r.made[|c.made|] == c'.made[|c.made|];
      }
      RunFrameAgents(ts[1..], c', now, id);
    }
  }

  /** From `from` on, no two records name the same agent. */
  ghost predicate AgentsOnce(made: seq<AssignmentRecord>, from: nat) {
    forall i, j :: from <= i < j < |made| ==> made[i].agentId != made[j].agentId
  }

  /** From `from` on, no two records name the same task. */
  ghost predicate TasksOnce(made: seq<AssignmentRecord>, from: nat) {
    forall i, j :: from <= i < j < |made| ==> made[i].taskId != made[j].taskId
  }

  lemma AgentsOnceExtend(made: seq<AssignmentRecord>, n: nat)
    requires n < |made| && AgentsOnce(made, n + 1) && made[n].agentId !in NewAgentIds(made, n + 1)
    ensures AgentsOnce(made, n)
  {
    forall i, j | n <= i < j < |made| ensures made[i].agentId != made[j].agentId {
      if i == n {
        assert made[j].agentId in NewAgentIds(made, n + 1);
      }
    }
  }

  lemma TasksOnceExtend(made: seq<AssignmentRecord>, n: nat)
    requires n < |made| && TasksOnce(made, n + 1) && made[n].taskId !in NewTaskIds(made, n + 1)
    ensures TasksOnce(made, n)
  {
    forall i, j | n <= i < j < |made| ensures made[i].taskId != made[j].taskId {
      if i == n {
        assert made[j].taskId in NewTaskIds(made, n + 1);
      }
    }
  }

  /** No agent is given two tasks in one cycle. */
  lemma {:induction false} RunAssignsAgentsOnce(ts: seq<Task>, c: Cycle, now: Time)
    requires DistinctAgentIds(c.pool)
    ensures AgentsOnce(Run(ts, c, now).made, |c.made|)
    decreases |ts|
  {
    if ts != [] {
      var c' := Step(c, ts[0], now);
      assert Run(ts, c, now) == Run(ts[1..], c', now);
      var r := Run(ts[1..], c', now);
      StepIds(c, ts[0], now);
      RunAssignsAgentsOnce(ts[1..], c', now);
      if Commits(c, ts[0]) {
        RunMadeGrows(ts[1..], c', now);
        RunTouches(ts[1..], c', now);
        assert r.made[|c.made|] == c'.made[|c.made|];
        AgentsOnceExtend(r.made, |c.made|);
      }
    }
  }

  lemma NotLater(ts: seq<Task>)
    requires ts != [] && DistinctTaskIds(ts)
    ensures DistinctTaskIds(ts[1..]) && ts[0].id !in TaskIds(ts[1..])
  {
    forall t | t in ts[1..] ensures t.id != ts[0].id {
      var k :| 0 <= k < |ts[1..]| && ts[1..][k] == t;
      assert ts[k + 1] == t;
    }
  }

  /** No task is assigned twice in one cycle. */
  lemma {:induction false} RunAssignsTasksOnce(ts: seq<Task>, c: Cycle, now: Time)
    requires DistinctAgentIds(c.pool) && DistinctTaskIds(ts)
    ensures TasksOnce(Run(ts, c, now).made, |c.made|)
    decreases |ts|
  {
    if ts != [] {
      var c' := Step(c, ts[0], now);
      assert Run(ts, c, now) == Run(ts[1..], c', now);
      var r := Run(ts[1..], c', now);
      StepIds(c, ts[0], now);
      NotLater(ts);
      RunAssignsTasksOnce(ts[1..], c', now);
      if Commits(c, ts[0]) {
        RunMadeGrows(ts[1..], c', now);
        RunTouches(ts[1..], c', now);
        assert r.made[|c.made|] == c'.made[|c.made|];
        TasksOnceExtend(r.made, |c.made|);
      }
    }
  }

  /** Record `m` is in force in `r`: the task InProgress with that agent, the agent Busy with
      that task, the score above the threshold. */
  ghost predicate InForce(r: Cycle, m: AssignmentRecord, now: Time) {
    && m.taskId in r.tasks && m.agentId in r.agents
    && r.tasks[m.taskId].status == InProgress && r.tasks[m.taskId].assignedAgent == Some(m.agentId)
    && r.agents[m.agentId].status == Busy && r.agents[m.agentId].currentTask == Some(m.taskId)
    && m.score > AcceptanceThreshold && m.timestamp == now
  }

  /** The record a committing first step makes is still in force after the rest of the cycle,
      which does not offer the same task again. */
  lemma FirstRecordInForce(ts: seq<Task>, c: Cycle, now: Time)
    requires DistinctAgentIds(c.pool) && ts != [] && Commits(c, ts[0])
    requires ts[0].id !in TaskIds(ts[1..])
    ensures var r := Run(ts, c, now);
      |c.made| < |r.made| && InForce(r, r.made[|c.made|], now)
  {
    var c' := Step(c, ts[0], now);
    assert Run(ts, c, now) == Run(ts[1..], c', now);
    var r := Run(ts[1..], c', now);
    StepIds(c, ts[0], now);
    RunMadeGrows(ts[1..], c', now);
    RunTouches(ts[1..], c', now);
    var m := c'.made[|c.made|];
    RunFrameTasks(ts[1..], c', now, m.taskId);
    RunFrameAgents(ts[1..], c', now, m.agentId);
    assert r.made[|c.made|] == m;
    assert InForce(c', m, now);
  }

  /** Every assignment made in the cycle is in force at its end. */
  lemma {:induction false} RunEffects(ts: seq<Task>, c: Cycle, now: Time)
    requires DistinctAgentIds(c.pool) && DistinctTaskIds(ts)
    ensures var r := Run(ts, c, now);
      forall i :: |c.made| <= i < |r.made| ==> InForce(r, r.made[i], now)
    decreases |ts|
  {
    if ts != [] {
      var c' := Step(c, ts[0], now);
      assert Run(ts, c, now) == Run(ts[1..], c', now);
      StepIds(c, ts[0], now);
      NotLater(ts);
      RunEffects(ts[1..], c', now);
      if Commits(c, ts[0]) {
        FirstRecordInForce(ts, c, now);
      }
    }
  }

  /** The agents of `pool` whose ids are not in `used`, in order: the available list once the
      agents in `used` have been taken out of it. */
  function Remaining(pool: seq<Agent>, used: set<Id>): seq<Agent> {
    if pool == [] then []
    else (if pool[0].id in used then [] else [pool[0]]) + Remaining(pool[1..], used)
  }

  lemma {:induction false} RemainingFacts(pool: seq<Agent>, used: set<Id>)
    requires DistinctAgentIds(pool)
    ensures DistinctAgentIds(Remaining(pool, used))
    ensures forall a :: a in Remaining(pool, used) ==> a in pool
  {
    if pool != [] {
      var tail := pool[1..];
      assert DistinctAgentIds(tail) by {
        assert forall i :: 0 <= i < |tail| ==> tail[i] == pool[i + 1];
      }
      RemainingFacts(tail, used);
      var rest := Remaining(tail, used);
      assert forall a :: a in tail ==> a in pool && a.id != pool[0].id;
      if pool[0].id !in used {
        var rem := [pool[0]] + rest;
        assert forall i :: 0 < i < |rem| ==> rem[i] == rest[i - 1];
      }
    }
  }

  lemma {:induction false} RemainingNothingUsed(pool: seq<Agent>)
    ensures Remaining(pool, {}) == pool
  {
    if pool != [] {
      RemainingNothingUsed(pool[1..]);
    }
  }

  lemma {:induction false} RemainingIgnores(pool: seq<Agent>, used: set<Id>, x: Id)
    requires forall a :: a in pool ==> a.id != x
    ensures Remaining(pool, used + {x}) == Remaining(pool, used)
  {
    if pool != [] {
      RemainingIgnores(pool[1..], used, x);
    }
  }

  lemma TakeBehindHead<T>(x: T, s: seq<T>, k: nat)
    requires 0 < k <= |s|
    ensures ([x] + s)[..k] + ([x] + s)[k + 1..] == [x] + (s[..k - 1] + s[k..])
  {
    assert ([x] + s)[..k] == [x] + s[..k - 1];
    assert ([x] + s)[k + 1..] == s[k..];
  }

  /** Behind the first agent of a pool with distinct ids, ids stay distinct and differ from the
      first one's. */
  lemma TailIds(pool: seq<Agent>, used: set<Id>)
    requires DistinctAgentIds(pool) && pool != []
    ensures DistinctAgentIds(pool[1..])
    ensures forall a :: a in Remaining(pool[1..], used) ==> a.id != pool[0].id
  {
    var tail := pool[1..];
    assert forall i :: 0 <= i < |tail| ==> tail[i] == pool[i + 1];
    RemainingFacts(tail, used);
  }

  /** Taking the `k`-th remaining agent out of the list is marking its id used. */
  lemma {:induction false} RemainingTake(pool: seq<Agent>, used: set<Id>, k: nat)
    requires DistinctAgentIds(pool) && k < |Remaining(pool, used)|
    ensures var rem := Remaining(pool, used);
      rem[..k] + rem[k + 1..] == Remaining(pool, used + {rem[k].id})
    decreases |pool|, 1
  {
    if pool[0].id in used {
      TakeSkippingHead(pool, used, k);
    } else if k == 0 {
      TakeHead(pool, used);
    } else {
      TakeBehindFree(pool, used, k);
    }
  }

  lemma {:induction false} TakeSkippingHead(pool: seq<Agent>, used: set<Id>, k: nat)
    requires DistinctAgentIds(pool) && k < |Remaining(pool, used)| && pool[0].id in used
    ensures var rem := Remaining(pool, used);
      rem[..k] + rem[k + 1..] == Remaining(pool, used + {rem[k].id})
    decreases |pool|, 0
  {
    var tail := pool[1..];
    TailIds(pool, used);
    assert Remaining(pool, used) == Remaining(tail, used);
    var x := Remaining(pool, used)[k].id;
    RemainingTake(tail, used, k);
    assert Remaining(pool, used + {x}) == Remaining(tail, used + {x});
  }

  lemma TakeHead(pool: seq<Agent>, used: set<Id>)
    requires DistinctAgentIds(pool) && pool != [] && pool[0].id !in used
    ensures var rem := Remaining(pool, used);
      rem[..0] + rem[1..] == Remaining(pool, used + {rem[0].id})
  {
    var tail := pool[1..];
    var x := pool[0].id;
    assert Remaining(pool, used) == [pool[0]] + Remaining(tail, used);
    RemainingIgnores(tail, used, x) by {
      assert forall i :: 0 <= i < |tail| ==> tail[i] == pool[i + 1];
    }
    assert Remaining(pool, used + {x}) == Remaining(tail, used + {x});
  }

  lemma {:induction false} TakeBehindFree(pool: seq<Agent>, used: set<Id>, k: nat)
    requires DistinctAgentIds(pool) && k < |Remaining(pool, used)| && pool[0].id !in used && 0 < k
    ensures var rem := Remaining(pool, used);
      rem[..k] + rem[k + 1..] == Remaining(pool, used + {rem[k].id})
    decreases |pool|, 0
  {
    var tail := pool[1..];
    var rest := Remaining(tail, used);
    TailIds(pool, used);
    assert Remaining(pool, used) == [pool[0]] + rest;
    var x := rest[k - 1].id;
    assert rest[k - 1] in rest;
    RemainingTake(tail, used, k - 1);
    TakeBehindHead(pool[0], rest, k);
    assert Remaining(pool, used + {x}) == [pool[0]] + Remaining(tail, used + {x});
  }

  /** Record `m` names, among `pool`, the first agent of strictly highest score for `t`. */
  ghost predicate PicksFirstBest(pool: seq<Agent>, t: Task, m: AssignmentRecord) {
    exists k ::
      && 0 <= k < |pool| && pool[k].id == m.agentId && m.score == Score(pool[k], t)
      && (forall j :: 0 <= j < |pool| ==> Score(pool[j], t) <= m.score)
      && (forall j :: 0 <= j < k ==> Score(pool[j], t) < m.score)
  }

  /** A committing step picks the first best agent of the remaining ones and marks it used. */
  lemma StepPicksBest(c: Cycle, t: Task, now: Time, idle: seq<Agent>)
    requires DistinctAgentIds(idle) && c.pool == Remaining(idle, NewAgentIds(c.made, 0))
    requires Commits(c, t)
    ensures var c' := Step(c, t, now);
      && |c'.made| == |c.made| + 1 && c'.made[..|c.made|] == c.made
      && c'.made[|c.made|].taskId == t.id
      && PicksFirstBest(c.pool, t, c'.made[|c.made|])
      && c'.pool == Remaining(idle, NewAgentIds(c'.made, 0))
  {
    var choice := BestOf(c.pool, t);
    var k := choice.index;
    var c' := Step(c, t, now);
    BestOfIsFirstMaximum(c.pool, t);
    RemainingTake(idle, NewAgentIds(c.made, 0), k);
    var m := AssignmentRecord(t.id, c.pool[k].id, choice.score, now);
    assert c'.made == c.made + [m];
    assert c'.made[..|c.made|] == c.made;
    assert NewAgentIds(c'.made, 0) == NewAgentIds(c.made, 0) + {m.agentId} by {
      assert forall i :: 0 <= i < |c.made| ==> c'.made[i] == c.made[i];
    }
  }

  /** Every record of `made` from `from` on names the first best agent for its task among the
      agents of `idle` that no earlier record took. */
  ghost predicate RecordsPickBest(made: seq<AssignmentRecord>, from: nat, idle: seq<Agent>,
                                  byId: map<Id, Task>)
  {
    forall i :: from <= i < |made| ==>
      && made[i].taskId in byId
      && PicksFirstBest(Remaining(idle, NewAgentIds(made[..i], 0)), byId[made[i].taskId], made[i])
  }

  lemma PickBestExtend(made: seq<AssignmentRecord>, n: nat, idle: seq<Agent>, byId: map<Id, Task>)
    requires n < |made| && RecordsPickBest(made, n + 1, idle, byId) && made[n].taskId in byId
    requires PicksFirstBest(Remaining(idle, NewAgentIds(made[..n], 0)), byId[made[n].taskId], made[n])
    ensures RecordsPickBest(made, n, idle, byId)
  {
  }

  /** Each record of the cycle names the first agent of strictly highest score for its task
      among the available agents not taken by an earlier record. */
  lemma {:induction false} RunPicksBest(ts: seq<Task>, c: Cycle, now: Time, idle: seq<Agent>,
                                        byId: map<Id, Task>)
    requires DistinctAgentIds(idle) && c.pool == Remaining(idle, NewAgentIds(c.made, 0))
    requires forall t :: t in ts ==> t.id in byId && byId[t.id] == t
    ensures RecordsPickBest(Run(ts, c, now).made, |c.made|, idle, byId)
    decreases |ts|
  {
    if ts != [] {
      var t := ts[0];
      var c' := Step(c, t, now);
      var r := Run(ts[1..], c', now);
      assert Run(ts, c, now) == r;
      assert forall u :: u in ts[1..] ==> u in ts;
      if Commits(c, t) {
        assert t in ts;
        StepPicksBest(c, t, now, idle);
        RunMadeGrows(ts[1..], c', now);
        RunPicksBest(ts[1..], c', now, idle, byId);
        var n := |c.made|;
        assert r.made[..n] == r.made[..|c'.made|][..n];
        assert r.made[n] == c'.made[n];
        PickBestExtend(r.made, n, idle, byId);
      } else {
        assert c' == c;
        RunPicksBest(ts[1..], c', now, idle, byId);
      }
    }
  }

  /** An available agent sharing a required capability makes the task commit. */
  lemma CommitsWhenShared(c: Cycle, t: Task, a: Agent, cap: Capability)
    requires forall a :: a in c.pool ==> a.LedgerValid() && a.status == Idle
    requires a in c.pool && cap in t.requiredCapabilities && cap in a.capabilities
    ensures Commits(c, t)
  {
    BestOfBounds(c.pool, t);
    IdleQualifiesIff(a, t);
    var j :| 0 <= j < |c.pool| && c.pool[j] == a;
    assert Score(c.pool[j], t) > AcceptanceThreshold;
  }

  /** A committing task shares a required capability with the chosen agent. */
  lemma SharedWhenCommits(c: Cycle, t: Task)
    requires forall a :: a in c.pool ==> a.LedgerValid() && a.status == Idle
    requires Commits(c, t)
    ensures exists a, cap :: a in c.pool && cap in t.requiredCapabilities && cap in a.capabilities
  {
    var a := c.pool[BestOf(c.pool, t).index];
    assert a in c.pool;
    IdleQualifiesIff(a, t);
  }

  /** A task is committed exactly when some still-available agent shares one of its required
      capabilities. */
  lemma CommitsIff(c: Cycle, t: Task)
    requires forall a :: a in c.pool ==> a.LedgerValid() && a.status == Idle
    ensures Commits(c, t)
            <==> exists a, cap :: a in c.pool && cap in t.requiredCapabilities && cap in a.capabilities
  {
    if exists a, cap :: a in c.pool && cap in t.requiredCapabilities && cap in a.capabilities {
      var a, cap :| a in c.pool && cap in t.requiredCapabilities && cap in a.capabilities;
      CommitsWhenShared(c, t, a, cap);
    }
    if Commits(c, t) {
      SharedWhenCommits(c, t);
    }
  }

  /** Once the pool is exhausted nothing more is assigned. */
  lemma {:induction false} EmptyPoolMakesNothing(ts: seq<Task>, c: Cycle, now: Time)
    requires c.pool == []
    ensures Run(ts, c, now) == c
    decreases |ts|
  {
    if ts != [] {
      assert Step(c, ts[0], now) == c;
      EmptyPoolMakesNothing(ts[1..], c, now);
    }
  }

  /** With a single available agent, the cycle gives it the first offered task it scores above
      the threshold for, and nothing else; in sorted order that is the highest-priority one. */
  lemma {:induction false} LoneAgentTakesFirstQualifying(ts: seq<Task>, c: Cycle, now: Time, i: nat)
    requires |c.pool| == 1 && i < |ts| && Score(c.pool[0], ts[i]) > AcceptanceThreshold
    requires forall j :: 0 <= j < i ==> Score(c.pool[0], ts[j]) <= AcceptanceThreshold
    ensures Run(ts, c, now).made
            == c.made + [AssignmentRecord(ts[i].id, c.pool[0].id, Score(c.pool[0], ts[i]), now)]
    decreases i
  {
    var a := c.pool[0];
    assert c.pool[..0] == [] && c.pool[..1] == c.pool;
    if i == 0 {
      assert BestOf(c.pool, ts[0]) == Chosen(0, Score(a, ts[0]));
      var c' := Step(c, ts[0], now);
      assert c'.pool == [];
      EmptyPoolMakesNothing(ts[1..], c', now);
    } else {
      assert Score(a, ts[0]) <= AcceptanceThreshold;
      assert Step(c, ts[0], now) == c;
      LoneAgentTakesFirstQualifying(ts[1..], c, now, i - 1);
    }
  }

  /** With a single available agent that qualifies for none of the offered tasks, nothing is
      assigned. */
  lemma {:induction false} LoneAgentUnqualified(ts: seq<Task>, c: Cycle, now: Time)
    requires |c.pool| == 1
    requires forall j :: 0 <= j < |ts| ==> Score(c.pool[0], ts[j]) <= AcceptanceThreshold
    ensures Run(ts, c, now) == c
    decreases |ts|
  {
    if ts != [] {
      assert c.pool[..0] == [] && c.pool[..1] == c.pool;
      assert Step(c, ts[0], now) == c;
      LoneAgentUnqualified(ts[1..], c, now);
    }
  }

  /** One whole call of `assign_tasks` on the given state. */
  function AssignAll(taskOrder: seq<Id>, tasks: map<Id, Task>, agentOrder: seq<Id>,
                     agents: map<Id, Agent>, now: Time): Cycle
  {
    Run(SortByPriority(PendingTasks(taskOrder, tasks)),
        Cycle(IdleAgents(agentOrder, agents), tasks, agents, []), now)
  }

  ghost predicate Indexed(taskOrder: seq<Id>, tasks: map<Id, Task>, agentOrder: seq<Id>,
                          agents: map<Id, Agent>)
  {
    && Distinct(taskOrder) && Distinct(agentOrder)
    && MapsValid(tasks, agents)
  }

  lemma InitialCycle(taskOrder: seq<Id>, tasks: map<Id, Task>, agentOrder: seq<Id>,
                     agents: map<Id, Agent>)
    requires Indexed(taskOrder, tasks, agentOrder, agents)
    ensures var ts := SortByPriority(PendingTasks(taskOrder, tasks));
      && PoolReady(Cycle(IdleAgents(agentOrder, agents), tasks, agents, []))
      && DistinctTaskIds(ts)
      && (forall t :: t in ts ==> t.id in tasks && tasks[t.id] == t && t.status == Pending)
  {
    PendingTasksFacts(taskOrder, tasks);
    IdleAgentsFacts(agentOrder, agents);
    SortKeepsTasks(PendingTasks(taskOrder, tasks));
  }

  /** A call of `assign_tasks` keeps both maps consistent and their key sets, and pairs Pending
      tasks with Idle agents, each task and each agent at most once. */
  lemma AssignAllPairs(taskOrder: seq<Id>, tasks: map<Id, Task>, agentOrder: seq<Id>,
                       agents: map<Id, Agent>, now: Time)
    requires Indexed(taskOrder, tasks, agentOrder, agents)
    ensures var r := AssignAll(taskOrder, tasks, agentOrder, agents, now);
      && MapsValid(r.tasks, r.agents)
      && r.tasks.Keys == tasks.Keys && r.agents.Keys == agents.Keys
      && (forall i :: 0 <= i < |r.made| ==>
            && r.made[i].taskId in tasks && tasks[r.made[i].taskId].status == Pending
            && r.made[i].agentId in agents && agents[r.made[i].agentId].status == Idle)
      && (forall i, j :: 0 <= i < j < |r.made| ==> r.made[i].agentId != r.made[j].agentId)
      && (forall i, j :: 0 <= i < j < |r.made| ==> r.made[i].taskId != r.made[j].taskId)
  {
    var ts := SortByPriority(PendingTasks(taskOrder, tasks));
    var c := Cycle(IdleAgents(agentOrder, agents), tasks, agents, []);
    InitialCycle(taskOrder, tasks, agentOrder, agents);
    RunKeepsValid(ts, c, now);
    RunTouches(ts, c, now);
    RunAssignsAgentsOnce(ts, c, now);
    RunAssignsTasksOnce(ts, c, now);
    var r := Run(ts, c, now);
    forall i | 0 <= i < |r.made|
      ensures r.made[i].taskId in tasks && tasks[r.made[i].taskId].status == Pending
      ensures r.made[i].agentId in agents && agents[r.made[i].agentId].status == Idle
    {
      assert r.made[i].taskId in NewTaskIds(r.made, 0);
      assert r.made[i].agentId in NewAgentIds(r.made, 0);
    }
  }

  /** After a call of `assign_tasks` every assignment it made is in force, and every task and
      agent it did not name is as it was. */
  lemma AssignAllEffects(taskOrder: seq<Id>, tasks: map<Id, Task>, agentOrder: seq<Id>,
                         agents: map<Id, Agent>, now: Time)
    requires Indexed(taskOrder, tasks, agentOrder, agents)
    ensures var r := AssignAll(taskOrder, tasks, agentOrder, agents, now);
      && (forall i :: 0 <= i < |r.made| ==> InForce(r, r.made[i], now))
      && (forall id :: id in tasks && id !in NewTaskIds(r.made, 0) ==> id in r.tasks && r.tasks[id] == tasks[id])
      && (forall id :: id in agents && id !in NewAgentIds(r.made, 0) ==> id in r.agents && r.agents[id] == agents[id])
  {
    var ts := SortByPriority(PendingTasks(taskOrder, tasks));
    var c := Cycle(IdleAgents(agentOrder, agents), tasks, agents, []);
    InitialCycle(taskOrder, tasks, agentOrder, agents);
    assert AssignAll(taskOrder, tasks, agentOrder, agents, now) == Run(ts, c, now);
    RunEffects(ts, c, now);
    forall id | id in tasks && id !in NewTaskIds(Run(ts, c, now).made, 0)
      ensures id in Run(ts, c, now).tasks && Run(ts, c, now).tasks[id] == tasks[id]
    {
      RunFrameTasks(ts, c, now, id);
    }
    forall id | id in agents && id !in NewAgentIds(Run(ts, c, now).made, 0)
      ensures id in Run(ts, c, now).agents && Run(ts, c, now).agents[id] == agents[id]
    {
      RunFrameAgents(ts, c, now, id);
    }
  }

  /** Each record of a call of `assign_tasks` names, for its task, the first agent of strictly
      highest score among the Idle agents, in dictionary order, that no earlier record took. */
  lemma AssignAllPicksBest(taskOrder: seq<Id>, tasks: map<Id, Task>, agentOrder: seq<Id>,
                           agents: map<Id, Agent>, now: Time)
    requires Indexed(taskOrder, tasks, agentOrder, agents)
    ensures var r := AssignAll(taskOrder, tasks, agentOrder, agents, now);
      forall i :: 0 <= i < |r.made| ==>
        && r.made[i].taskId in tasks
        && PicksFirstBest(Remaining(IdleAgents(agentOrder, agents), NewAgentIds(r.made[..i], 0)),
                          tasks[r.made[i].taskId], r.made[i])
    ensures RecordsPickBest(AssignAll(taskOrder, tasks, agentOrder, agents, now).made, 0,
                            IdleAgents(agentOrder, agents), tasks)
  {
    var ts := SortByPriority(PendingTasks(taskOrder, tasks));
    var idle := IdleAgents(agentOrder, agents);
    var c := Cycle(idle, tasks, agents, []);
    InitialCycle(taskOrder, tasks, agentOrder, agents);
    RemainingNothingUsed(idle);
    assert NewAgentIds([], 0) == {};
    assert AssignAll(taskOrder, tasks, agentOrder, agents, now) == Run(ts, c, now);
    RunPicksBest(ts, c, now, idle, tasks);
  }

  /** With no Pending task or no Idle agent the call assigns nothing and changes nothing. */
  lemma AssignAllIdle(taskOrder: seq<Id>, tasks: map<Id, Task>, agentOrder: seq<Id>,
                      agents: map<Id, Agent>, now: Time)
    requires PendingTasks(taskOrder, tasks) == [] || IdleAgents(agentOrder, agents) == []
    ensures AssignAll(taskOrder, tasks, agentOrder, agents, now)
            == Cycle(IdleAgents(agentOrder, agents), tasks, agents, [])
  {
    var c := Cycle(IdleAgents(agentOrder, agents), tasks, agents, []);
    if IdleAgents(agentOrder, agents) == [] {
      EmptyPoolMakesNothing(SortByPriority(PendingTasks(taskOrder, tasks)), c, now);
    }
  }

  /** The inner loop of `assign_tasks`: scan the available agents, keeping the first one whose
      score is strictly higher than the best so far (which starts at 0.0). */
  method ChooseBest(pool: seq<Agent>, task: Task) returns (best: Choice)
    ensures best == BestOf(pool, task)
  {
    best := NoAgent;
    for j := 0 to |pool|
      invariant best == BestOf(pool[..j], task)
    {
      var score := CalculateAgentScore(pool[j], task);
      assert pool[..j + 1][..j] == pool[..j];
      if score > BestScore(best) {
        best := Chosen(j, score);
      }
    }
    assert pool[..|pool|] == pool;
  }

  /** The outer loop of `assign_tasks` over the sorted pending tasks, committing each best agent
      above the threshold and removing it from the available list. */
  method RunCycle(ts: seq<Task>, pool: seq<Agent>, tasks: map<Id, Task>, agents: map<Id, Agent>,
                  now: Time)
    returns (tasks': map<Id, Task>, agents': map<Id, Agent>, made: seq<AssignmentRecord>)
    ensures var r := Run(ts, Cycle(pool, tasks, agents, []), now);
      tasks' == r.tasks && agents' == r.agents && made == r.made
  {
    var available := pool;
    tasks', agents', made := tasks, agents, [];
    var i := 0;
    while i < |ts|
      invariant 0 <= i <= |ts|
      invariant Run(ts[i..], Cycle(available, tasks', agents', made), now)
                == Run(ts, Cycle(pool, tasks, agents, []), now)
    {
      var task := ts[i];
      var best := ChooseBest(available, task);
      ghost var cur := Cycle(available, tasks', agents', made);
      assert ts[i..][0] == task && ts[i..][1..] == ts[i + 1..];
      if best.Chosen? && best.score > AcceptanceThreshold {
        var a := available[best.index];
        tasks' := tasks'[task.id := Started(task, a.id, now)];
        agents' := agents'[a.id := Engaged(a, task.id)];
        made := made + [AssignmentRecord(task.id, a.id, best.score, now)];
        available := available[..best.index] + available[best.index + 1..];
      }
      assert Cycle(available, tasks', agents', made) == Step(cur, task, now);
      i := i + 1;
    }
    assert ts[|ts|..] == [];
  }

  /** `assign_tasks` on the dictionaries: nothing when no task is Pending or no agent is Idle,
      otherwise the cycle over the pending tasks sorted by priority. */
  method AssignPending(taskOrder: seq<Id>, tasks: map<Id, Task>, agentOrder: seq<Id>,
                       agents: map<Id, Agent>, now: Time)
    returns (tasks': map<Id, Task>, agents': map<Id, Agent>, made: seq<AssignmentRecord>)
    ensures var r := AssignAll(taskOrder, tasks, agentOrder, agents, now);
      tasks' == r.tasks && agents' == r.agents && made == r.made
  {
    var pending := PendingTasks(taskOrder, tasks);
    var pool := IdleAgents(agentOrder, agents);
    if pending == [] || pool == [] {
      AssignAllIdle(taskOrder, tasks, agentOrder, agents, now);
      return tasks, agents, [];
    }
    tasks', agents', made := RunCycle(SortByPriority(pending), pool, tasks, agents, now);
  }

}
