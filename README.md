# QFox assignment-and-learning engine, in Dafny

This project models the core of the QFox multi-agent task system and proves properties about it.

- **`AgentLedger`** (`agent.dfy`) models an agent's capability ledger. It covers:
  - seeding every declared capability at confidence 0.5 with an empty history;
  - the clamped moving-average `update_confidence` rule;
  - the window of the last ten outcomes per capability;
  - the adaptability score as the mean confidence;
  - `record_performance`;
  - `get_overall_score`;
  - the expertise list of the adaptivity profile.
- **`Tasks`** (`task.dfy`) models the task lifecycle Pending → InProgress → Completed/Failed.
- **`Scoring`** (`scoring.dfy`) models the four-signal `calculate_agent_score`.
- **`Assignment`** (`assignment.dfy`) models one `assign_tasks` call as a function. Pending tasks are stably sorted by descending priority. Each task goes to the first still-available Idle agent with the strictly highest score, provided that score exceeds 0.1. Loop methods are proved equal to this function.
- **`Controller`** (`controller.dfy`) is class `QFoxController`. It holds the agent and task dictionaries (`map`s plus their insertion order), the assignment history, the system metrics and training mode. Its methods `AddAgent`, `RemoveAgent`, `CreateTask`, `RemoveTask`, `AssignTasks`, `ProcessTaskCompletion`, `UpdateSystemMetrics` and `ToggleTrainingMode` update these fields.
- **`Devices`** (`devices.dfy`) is class `DeviceManager`. It holds the device-metadata dictionary of the device simulator:
  - initial entries are online and unassigned;
  - the availability listing filters by a case-insensitive substring of the device-type tag;
  - there is assignment to a named device and to the first available one;
  - `complete_task` releases the first device holding a task.

The model keeps these source behaviours as written:

- **`remove_task`** idles the recorded assignee whatever that agent is doing now.
- **`process_task_completion`** does not look at the task's status, so completing a finished task again counts it again.
- **`_update_system_metrics`** keeps efficiency and utilisation when their denominators are 0.
- **The capability match** divides by the length of the required list, repeats included.
- **`toggle_training_mode`** only changes agents that already exist; later agents start at rate 0.1.
- **`assign_task_to_device`** does not check whether the device is busy.

## Model

| member | source | states |
|---|---|---|
| AgentLedger.NewAgent | qfox_core.py:63-88 | a new agent is consistent and Idle with no task, every declared capability at confidence 0.5 with an empty history, counters 0, rate 0.1 |
| AgentLedger.Confidence | qfox_core.py:90-92 | the confidence lies in [0,1], and is 0.5 for a capability the agent does not declare |
| AgentLedger.SuccessRate | qfox_core.py:94-99 | the rate lies in [0,1], and is 0.5 on an empty history |
| AgentLedger.SuccessRateExtremes | qfox_core.py:94-99 | with a non-empty history the rate is 1.0 iff every recent outcome is a success, and 0.0 iff none is |
| AgentLedger.Recent | qfox_core.py:126-128 | the window is the suffix of the last min(n, 10) outcomes |
| AgentLedger.MeanConfidence | qfox_core.py:130-132 | for a consistent agent the mean is the sum of all values of the confidence dictionary divided by its size, and 0 when it is empty; it lies in [0,1] when every confidence does |
| AgentLedger.TableSumRemove | qfox_core.py:132 | the sum of the dictionary's values does not depend on the order its keys are taken in |
| AgentLedger.ConfidenceSumIsTableSum | qfox_core.py:132 | summing along any repetition-free list of exactly the keys gives the sum of all the dictionary's values |
| AgentLedger.ConfidenceTableSize | qfox_core.py:130-132 | the mean divides by the number of distinct declared capabilities, the size of the confidence dictionary |
| AgentLedger.Ema | qfox_core.py:109-115 | the clamped moving-average step lies in [0,1] |
| AgentLedger.UpdateConfidence | qfox_core.py:101-132 | an undeclared capability changes nothing; otherwise the confidence becomes clamp01(c + rate·(o − c)), the outcome joins the ten-entry window, the adaptability score becomes the mean of all confidences, nothing else changes, and the ledger stays consistent |
| AgentLedger.ClampNeverBites | qfox_core.py:112-115 | with a confidence and a rate in [0,1] the unclamped step already lies in [0,1] |
| AgentLedger.EmaMovesTowardOutcome | qfox_core.py:111-115 | a success never lowers the confidence and a failure never raises it |
| AgentLedger.UpdateMovesTowardOutcome | qfox_core.py:101-128 | one update moves the capability's confidence toward the outcome and leaves the outcome as the newest history entry |
| AgentLedger.DefaultStep | qfox_core.py:109-118 | from 0.5 at rate 0.1 a success gives 0.55 and a failure 0.45 |
| AgentLedger.WindowKeepsLatest | qfox_core.py:120-128 | after any number of pushes, each followed by the trim, the window is exactly the last ten of everything recorded, oldest first |
| AgentLedger.UpdateConfidences | qfox_core.py:398-400 | applying one outcome to a list of capabilities keeps the ledger consistent and the declared capabilities |
| AgentLedger.UpdatesLeaveOthersAlone | qfox_core.py:398-400 | a capability not in the list keeps its confidence and history |
| AgentLedger.UpdatesMoveRequired | qfox_core.py:398-400 | every declared capability in the list moves toward the outcome, repeats included |
| AgentLedger.UpdatesRecordOutcome | qfox_core.py:398-400 | every declared capability in the list ends with the outcome as its newest history entry |
| AgentLedger.RecordPerformance | qfox_core.py:134-157 | one record is appended, exactly one of the completed and failed counters grows by one, the average success rate times the total equals the completed count and lies in [0,1], and nothing else but the activity time changes |
| AgentLedger.OverallScore | qfox_core.py:159-165 | the overall score is 0 with no capabilities and lies in [0,1] for a consistent agent |
| AgentLedger.ExpertInMembers | qfox_core.py:167-174 | a capability is listed iff it is declared and its success rate exceeds 0.9 |
| AgentLedger.Expertise | qfox_core.py:167-174 | the expertise loop returns exactly the declared capabilities with success rate above 0.9, in declaration order |
| AgentLedger.ExpertIn | qfox_core.py:167-174 | defines the expertise filter over a capability list; `ExpertInMembers` states its meaning |
| Tasks.NewTask | qfox_core.py:259-273 | a new task is Pending, unassigned and consistent, with the given requirements and priority |
| Tasks.Started | qfox_core.py:355-357 | an assigned task is InProgress with the given assignee and is consistent |
| Tasks.Closed | qfox_core.py:392-396 | a finished task is Completed or Failed with success score 1.0 or 0.0, keeps its assignee, and stays consistent when it had one |
| Tasks.Reverted | qfox_core.py:249-253 | a task whose agent is removed is Pending with no assignee |
| Scoring.Score | qfox_core.py:289-292 | the score is 0 when the agent declares nothing or the task requires nothing |
| Scoring.ScoreInUnitInterval | qfox_core.py:289-329 | every score of a consistent agent lies in [0,1] |
| Scoring.NoSharedCapabilityScoresThreshold | qfox_core.py:289-329 | an Idle agent sharing no capability with a task scores exactly 0.1 |
| Scoring.IdleQualifiesIff | qfox_core.py:289-329 | an Idle agent scores strictly above 0.1 iff it declares one of the required capabilities |
| Scoring.MatchedCountZeroIff | qfox_core.py:299-304 | no required entry counts iff the agent declares none of them |
| Scoring.FullMatchWhenCovered | qfox_core.py:294-296 | distinct requirements that are all declared give a capability match of 1.0 |
| Scoring.RepeatedRequirementDilutesMatch | qfox_core.py:294-296 | requiring [x, x] of an agent declaring x gives a match of 0.5, since the divisor counts repeats |
| Scoring.CalculateAgentScore | qfox_core.py:289-329 | the two accumulator loops compute exactly the specified score |
| Assignment.PendingTasks | qfox_core.py:334 | defines the pending list in dictionary order; `PendingTasksFacts` states its meaning |
| Assignment.IdleAgents | qfox_core.py:335 | defines the available list in dictionary order; `IdleAgentsFacts` states its meaning |
| Assignment.PendingTasksFacts | qfox_core.py:334 | the pending list holds exactly the Pending tasks of the dictionary, each once |
| Assignment.IdleAgentsFacts | qfox_core.py:335 | the available list holds exactly the Idle agents of the dictionary, each once |
| Assignment.InsertByPriority | qfox_core.py:341 | defines one insertion step of the stable descending sort; the `Sort…` lemmas state its meaning |
| Assignment.SortByPriority | qfox_core.py:341 | defines `sorted(..., key=priority, reverse=True)` as an insertion sort; the `Sort…` lemmas state its meaning |
| Assignment.SortIsDescending | qfox_core.py:341 | the sorted tasks are in non-increasing priority |
| Assignment.SortIsStable | qfox_core.py:341 | tasks of equal priority keep their relative order |
| Assignment.SortIsPermutation | qfox_core.py:341 | the sort is a permutation of the pending tasks |
| Assignment.SortKeepsTasks | qfox_core.py:341 | the sort keeps exactly the same tasks with distinct ids |
| Assignment.BestOf | qfox_core.py:343-351 | a chosen agent is in the pool, and its recorded score is its positive score for the task |
| Assignment.BestOfIsFirstMaximum | qfox_core.py:343-351 | the choice has the maximal score and no earlier agent reaches it; no agent is chosen iff every score is 0 or less |
| Assignment.BestOfBounds | qfox_core.py:343-351 | no agent scores above the kept best score, which is 0.0 when nobody was chosen |
| Assignment.BestOfFirst | qfox_core.py:347-351 | every agent before the chosen one scores strictly less, since only a strictly higher score replaces the best |
| Assignment.ChooseBest | qfox_core.py:344-351 | the inner loop computes exactly that choice |
| Assignment.CommitsIff | qfox_core.py:353 | with Idle agents a task is committed iff some available agent declares one of its required capabilities |
| Assignment.Step | qfox_core.py:343-372 | defines one pass of the outer loop for one task; `StepIds`, `StepKeepsPool` and `StepKeepsMaps` state its meaning |
| Assignment.Run | qfox_core.py:343-373 | defines the outer loop over the sorted tasks; the `Run…` lemmas state its meaning |
| Assignment.StepIds | qfox_core.py:353-372 | a step either changes nothing or appends one record for the task with an available agent, which leaves the pool; the task becomes InProgress with it, the agent becomes Busy with the task, and no other agent changes |
| Assignment.StepKeepsPool | qfox_core.py:353-372 | the pool stays a set of Idle agents of the map, and the key sets are kept |
| Assignment.StepKeepsMaps | qfox_core.py:353-372 | a step keeps every task and agent consistent |
| Assignment.RunKeepsValid | qfox_core.py:343-373 | the whole cycle keeps the pool, the maps and their key sets consistent |
| Assignment.RunTouches | qfox_core.py:343-373 | the records name only offered tasks and available agents |
| Assignment.RunFrameTasks | qfox_core.py:343-373 | a task no record names is unchanged |
| Assignment.RunFrameAgents | qfox_core.py:343-373 | an agent no record names is unchanged |
| Assignment.RunAssignsAgentsOnce | qfox_core.py:372 | no agent appears in two records of one cycle |
| Assignment.RunAssignsTasksOnce | qfox_core.py:343-373 | no task appears in two records of one cycle |
| Assignment.FirstRecordInForce | qfox_core.py:353-372 | a committed first step's assignment is still in force at the end of the cycle |
| Assignment.RunEffects | qfox_core.py:353-369 | every record of the cycle is in force at its end: the task is InProgress with that agent, the agent is Busy with that task, and the score is above 0.1 |
| Assignment.EmptyPoolMakesNothing | qfox_core.py:343-373 | with no available agent the rest of the cycle changes nothing |
| Assignment.LoneAgentTakesFirstQualifying | qfox_core.py:343-373 | a single available agent takes exactly the first offered task it scores above 0.1 for |
| Assignment.LoneAgentUnqualified | qfox_core.py:343-373 | a single agent qualifying for no task changes nothing |
| Assignment.RemainingTake | qfox_core.py:372 | removing the chosen agent from the available list is the same as marking its id used |
| Assignment.StepPicksBest | qfox_core.py:343-372 | a committing step records the first agent of strictly highest score among the agents still available, and the list left afterwards is the Idle list without every agent used so far |
| Assignment.RunPicksBest | qfox_core.py:343-373 | every record of the cycle names, for its task, the first agent of strictly highest score among the agents no earlier record took |
| Assignment.InitialCycle | qfox_core.py:334-341 | the start of a call has a ready pool and distinct Pending map tasks |
| Assignment.AssignAll | qfox_core.py:331-374 | defines one call as the cycle over the sorted pending tasks and the Idle agents; `AssignAllPairs`, `AssignAllEffects`, `AssignAllPicksBest` and `AssignAllIdle` state its meaning |
| Assignment.AssignAllPairs | qfox_core.py:331-374 | a call keeps the maps consistent and their keys, pairs only Pending tasks with Idle agents, and uses each task and each agent at most once |
| Assignment.AssignAllEffects | qfox_core.py:331-374 | every assignment made is in force afterwards, and every task and agent it did not name is unchanged |
| Assignment.AssignAllPicksBest | qfox_core.py:343-372 | each record of a call names, for its task, the first agent in dictionary order of strictly highest score among the Idle agents that no earlier record took |
| Assignment.AssignAllIdle | qfox_core.py:337-338 | with no Pending task or no Idle agent nothing is assigned and nothing changes |
| Assignment.RunCycle | qfox_core.py:343-373 | the outer loop computes exactly the specified cycle |
| Assignment.AssignPending | qfox_core.py:331-374 | `assign_tasks` with its early return computes exactly the specified call |
| Controller.BusyCount | qfox_core.py:443 | the busy count is at most the number of agents |
| Controller.Refreshed | qfox_core.py:433-446 | defines the metrics refresh; `RefreshedMeaning` states its meaning |
| Controller.RefreshedMeaning | qfox_core.py:433-446 | efficiency times (completed + failed) is the completed count, and utilisation times the agent count is the busy count; each is unchanged when its denominator is 0; both stay in [0,1]; the counters are untouched |
| Controller.Counted | qfox_core.py:426-429 | defines the system counter update of a completion; `Completion` and the two efficiency examples use it |
| Controller.FlawlessEfficiency | qfox_core.py:426-440 | a worked instance of `RefreshedMeaning`: a successful completion while nothing has failed yet gives efficiency 1.0 |
| Controller.TwoOfThreeEfficiency | qfox_core.py:426-440 | a worked instance of `RefreshedMeaning`: the first failure after two successful completions gives efficiency 2/3 |
| Controller.Idled | qfox_core.py:422-423 | defines the release of the agent after completion; `FinishedAccounts` states its effect |
| Controller.Finished | qfox_core.py:398-423 | defines the agent's side of a completion: learn, record, release; `FinishedAccounts` and `FinishedLearns` state its meaning |
| Controller.FinishedAccounts | qfox_core.py:418-423 | the completed agent is consistent and Idle with no task, exactly one of its counters grew by one, and its performance log gained one entry |
| Controller.FinishedLearns | qfox_core.py:398-400 | on completion each declared required capability moves toward the outcome and records it last, and every capability not required is unchanged |
| Controller.LearnFrom | qfox_core.py:399-400 | the learning loop equals the fold of `update_confidence` over the required list |
| Controller.WithRate | qfox_core.py:502-506 | defines every existing agent with the new learning rate; `SetRates` is proved equal to it |
| Controller.SetRates | qfox_core.py:502-506 | the loop gives every existing agent the new rate and changes nothing else |
| Controller.CountBusy | qfox_core.py:443 | the loop counts the agents that are not Idle |
| Controller.RefreshMetrics | qfox_core.py:433-446 | the metrics become the refreshed metrics for the current busy count and agent count, and stay in [0,1] |
| Controller.CompleteAgent | qfox_core.py:398-423 | the agent's side of completion: learn, record, release |
| Controller.Completable | qfox_core.py:378-384 | defines when a completion has an effect: the task exists, has an assignee, and that agent exists; `Completion` uses it for both paths |
| Controller.Completion | qfox_core.py:376-431 | a missing task, an unassigned task or a missing agent changes nothing; otherwise the task is closed, the agent is finished, one system counter grows, the metrics are refreshed, and consistency is kept |
| Controller.RegistryAdd | qfox_core.py:238-242 | a fresh id extends the insertion order and the key set |
| Controller.RegistryRemove | qfox_core.py:255 | deleting a key removes it from the insertion order |
| Controller.Unassigned | qfox_core.py:248-253 | defines the revert of the removed agent's current task; `RemoveAgentKeepsValid` states its effect |
| Controller.Released | qfox_core.py:279-283 | defines the idling of the removed task's recorded assignee; `RemoveTaskKeepsValid` states its effect |
| Controller.RemoveAgentKeepsValid | qfox_core.py:244-257 | removing a known agent keeps everything consistent and leaves its current task Pending with no assignee |
| Controller.RemoveTaskKeepsValid | qfox_core.py:275-287 | removing a known task keeps everything consistent |
| Controller.CycleKeepsValid | qfox_core.py:331-374 | an assignment call keeps the registries and the maps consistent |
| Controller.QFoxController.constructor | qfox_core.py:219-233 | the controller starts with no agents, no tasks, no history, zero metrics and training mode off |
| Controller.QFoxController.AddAgent | qfox_core.py:238-242 | a seeded agent is filed under a fresh id at the end of the order; nothing else changes |
| Controller.QFoxController.RemoveAgent | qfox_core.py:244-257 | an unknown id returns false and changes nothing; a known one returns true, is deleted, and its current task reverts to Pending with no assignee |
| Controller.QFoxController.CreateTask | qfox_core.py:259-273 | a Pending task is filed under a fresh id and the created counter grows by one |
| Controller.QFoxController.RemoveTask | qfox_core.py:275-287 | an unknown id returns false and changes nothing; a known one is deleted and its recorded assignee, if present, is idled unconditionally |
| Controller.QFoxController.AssignTasks | qfox_core.py:331-374 | the maps and the returned records are those of the specified call, and the history grows by exactly those records |
| Controller.QFoxController.UpdateSystemMetrics | qfox_core.py:433-446 | the metrics are refreshed from the counters, the busy count and the agent count |
| Controller.QFoxController.ProcessTaskCompletion | qfox_core.py:376-431 | the fields become those `Completion` specifies, with no status check |
| Controller.QFoxController.ToggleTrainingMode | qfox_core.py:498-506 | the mode flips, and every existing agent gets rate 0.3 when training and 0.1 otherwise |
| Devices.InitialRecord | device_simulator.py:89-99 | a starting entry carries its id, name and type tag, is online and unassigned, and so is available with no filter |
| Devices.TypeTags | device_simulator.py:92 | each kind's tag is its value lower-cased with spaces made underscores |
| Devices.InitialMetadata | device_simulator.py:84-99 | initialisation files one entry per kind in order under distinct ids, each online and unassigned |
| Devices.DeviceManager.constructor | device_simulator.py:73-82 | the manager starts with the four entries, all online and unassigned |
| Devices.Available | device_simulator.py:159-160 | defines availability: online, unassigned, and matching the filter when one is named; `AvailableInIff` states the listing's meaning |
| Devices.AvailableIn | device_simulator.py:154-162 | defines the listing in dictionary order; `AvailableInIff` states its meaning |
| Devices.AvailableInIff | device_simulator.py:154-162 | a record is listed iff it is an entry that is online, unassigned and matches the capability filter |
| Devices.CapabilityFilter | device_simulator.py:160 | "Sensor" and "HUB" select the sensor hub, "" selects every kind, and "Sensor Hub" with its space selects nothing |
| Devices.DeviceManager.GetAvailableDevices | device_simulator.py:154-165 | the loop returns exactly the available entries in dictionary order |
| Devices.Assigned | device_simulator.py:171-172 | defines the entry after assignment; `AssignRemovesFromAvailable` states its effect |
| Devices.DeviceManager.AssignTaskToDevice | device_simulator.py:167-177 | an unknown id returns false and changes nothing; a known one is marked busy with the task, and no other entry changes |
| Devices.AssignRemovesFromAvailable | device_simulator.py:167-174 | an assigned device drops out of every listing, and every other available device stays listed |
| Devices.DeviceManager.AssignTaskToBestDevice | device_simulator.py:179-191 | with nothing available it returns None and changes nothing; otherwise the first available device takes the task, its id is returned, and it appears in no listing afterwards |
| Devices.Released | device_simulator.py:197-199 | defines the entry after release; `CompleteAfterAssign` states its effect |
| Devices.FirstHolderFrom | device_simulator.py:196-201 | defines the search from a position for the first entry holding the task; `FirstHolderFromIsFirst` states its meaning |
| Devices.FirstHolder | device_simulator.py:196-201 | defines the search from the start; `FirstHolderIsFirst` states its meaning |
| Devices.FirstHolderFromIsFirst | device_simulator.py:196-201 | the search from a position finds the first holding entry, and finds none iff nothing from there holds the task |
| Devices.FirstHolderIsFirst | device_simulator.py:196-201 | the released entry is the first holding the task; none is released iff no entry holds it |
| Devices.DeviceManager.CompleteTask | device_simulator.py:193-204 | it returns true iff some entry holds the task; only the first holder is set back online with no task |
| Devices.CompleteAfterAssign | device_simulator.py:167-201 | completing a task that only its newly assigned device holds releases that device, restoring the entry it had when available |

## Left out

- `simulate_task_execution` is not modelled. It depends on the wall clock and on `random.random()`.
- Confidence-change logging and the `print` calls in exception handlers are not modelled. Neither is the exception handling of the device registry, which only catches errors that cannot arise in the model.
- Snapshot and serialisation helpers are not modelled: `to_dict`, `get_system_state`, `get_agent_status`, `get_all_agents_confidence`, and the history part of `get_adaptivity_profile`. They only read state.
- `start_simulation` and `stop_simulation` are not modelled. They only set flags and a clock reading.
- The device passthroughs of the controller are not modelled, and neither are the random device readings:
  - the battery, signal and location fields;
  - `get_data`;
  - `get_all_devices_status`;
  - `get_device_data`.
  `get_all_devices_status` also overwrites each entry's status with the device object's own (`idle` or `active`). That is not modelled, so the model's statuses are only online and busy.
- Python floats are modelled as exact reals, without rounding.
- Lower-casing is ASCII only, not Unicode case mapping.
- Agents and tasks are values stored in the controller's maps. An in-place update writes the new value back under its key. Aliasing of agent or task objects held outside the controller is not modelled, and neither is aliasing of the metadata dictionaries that `get_available_devices` returns.
- `uuid4` ids are modelled as a counter owned by the controller, so ids are fresh and never reused.
- Device ids are modelled as the pair (kind, object identity). The identities of the device objects are constructor parameters.
- Every `datetime.now()` is a `now` parameter, read once per call.
- Outcomes are restricted to 0 and 1, as `update_confidence` documents.
- Task ids given to the device registry are strings, never `None`.
- `average_completion_time` is kept in the metrics but never updated, as in the source.
- `create_task`'s defaults (1.0 for complexity, priority and estimated duration) are not built in: callers pass all three explicitly.
- Agent statuses Learning and Optimizing exist in the type but are never entered.
