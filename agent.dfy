/** An agent of the engine and its capability ledger: per-capability confidence,
    a bounded window of recent outcomes, and lifetime counters (qfox_core.py, class Agent). */
module AgentLedger {
  import opened Wrappers
  import opened Common
  import opened Seqs

  const DefaultConfidence: real := 0.5
  const DefaultSuccessRate: real := 0.5
  const NormalLearningRate: real := 0.1
  const TrainingLearningRate: real := 0.3
  /** Number of recent outcomes kept per capability. */
  const HistoryWindow: nat := 10
  /** A capability counts as expertise above this success rate. */
  const ExpertiseLevel: real := 0.9

  datatype AgentStatus = Idle | Busy | Learning | Optimizing

  datatype PerformanceRecord = PerformanceRecord(
    taskId: Id, success: bool, duration: real, complexity: real,
    capabilities: seq<Capability>, timestamp: Time)

  datatype Agent = Agent(
    id: Id,
    name: string,
    capabilities: seq<Capability>,
    confidenceScores: map<Capability, real>,
    successHistory: map<Capability, seq<Outcome>>,
    performanceHistory: seq<PerformanceRecord>,
    status: AgentStatus,
    currentTask: Option<Id>,
    totalCompleted: nat,
    totalFailed: nat,
    averageSuccessRate: real,
    learningRate: real,
    adaptabilityScore: real,
    createdAt: Time,
    lastActivity: Time)
  {
    /** Every declared capability has a confidence and a history. */
    ghost predicate Seeded() {
      forall c :: c in capabilities ==> c in confidenceScores && c in successHistory
    }

    /** The ledger keeps exactly the declared capabilities, confidences in [0,1],
        at most `HistoryWindow` outcomes each, and aggregates in [0,1]. */
    ghost predicate LedgerValid() {
      && (forall c :: c in confidenceScores <==> c in capabilities)
      && (forall c :: c in successHistory <==> c in capabilities)
      && (forall c :: c in confidenceScores ==> InUnit(confidenceScores[c]))
      && (forall c :: c in successHistory ==> |successHistory[c]| <= HistoryWindow)
      && InUnit(averageSuccessRate)
      && InUnit(adaptabilityScore)
      && InUnit(learningRate)
    }

    /** Only Idle and Busy are ever entered, and an agent is Busy exactly when it holds a task. */
    ghost predicate StatusValid() {
      && (status == Idle || status == Busy)
      && (status == Busy <==> currentTask.Some?)
    }

    ghost predicate Valid() {
      LedgerValid() && StatusValid()
    }
  }

  /** A new agent (`Agent(name=..., capabilities=...)` followed by `__post_init__`):
      every declared capability is seeded at confidence 0.5 with an empty history. */
  function NewAgent(id: Id, name: string, capabilities: seq<Capability>, now: Time): (a: Agent)
    ensures a.Valid()
    ensures a.id == id && a.name == name && a.capabilities == capabilities
    ensures forall c :: c in capabilities ==>
              a.confidenceScores[c] == DefaultConfidence && a.successHistory[c] == []
    ensures a.status == Idle && a.currentTask == None
    ensures a.totalCompleted == 0 && a.totalFailed == 0 && a.performanceHistory == []
    ensures a.learningRate == NormalLearningRate
  {
    Agent(id, name, capabilities,
          map c | c in capabilities :: DefaultConfidence,
          map c | c in capabilities :: [],
          [], Idle, None, 0, 0, 0.0, NormalLearningRate, 0.5, now, now)
  }

  /** `get_capability_confidence`: the recorded confidence, 0.5 for an unknown capability. */
  function Confidence(a: Agent, c: Capability): (r: real)
    ensures a.LedgerValid() ==> InUnit(r)
    ensures a.LedgerValid() && c !in a.capabilities ==> r == DefaultConfidence
  {
    if c in a.confidenceScores then a.confidenceScores[c] else DefaultConfidence
  }

  /** The recent outcomes of one capability (`success_history.get(c, [])`). */
  function History(a: Agent, c: Capability): seq<Outcome> {
    if c in a.successHistory then a.successHistory[c] else []
  }

  /** Number of successes in a history (`sum(history)`). */
  function Successes(h: seq<Outcome>): (n: nat)
    ensures n <= |h|
  {
    if h == [] then 0 else Successes(h[..|h|-1]) + h[|h|-1]
  }

  /** `get_success_rate`: mean of the recent 0/1 outcomes, 0.5 when there are none. */
  function SuccessRate(a: Agent, c: Capability): (r: real)
    ensures InUnit(r)
    ensures History(a, c) == [] ==> r == DefaultSuccessRate
  {
    var h := History(a, c);
    if |h| == 0 then DefaultSuccessRate
    else
      var n := Successes(h);
      assert (n as real) <= (|h| as real);
      RatioInUnit(n, |h|);
      n as real / |h| as real
  }

  lemma RatioInUnit(n: nat, d: nat)
    requires 0 < d && n <= d
    ensures InUnit(n as real / d as real)
  {
    var q := n as real / d as real;
    assert q * (d as real) == n as real;
  }

  /** All outcomes are successes exactly when the success count is the length. */
  lemma {:induction false} AllSuccessesIff(h: seq<Outcome>)
    ensures Successes(h) == |h| <==> forall i :: 0 <= i < |h| ==> h[i] == 1
  {
    if h != [] {
      var init := h[..|h|-1];
      AllSuccessesIff(init);
      assert forall i :: 0 <= i < |init| ==> init[i] == h[i];
    }
  }

  /** The success rate of a capability with history is 1.0 exactly when every recent outcome
      was a success, and 0.0 exactly when every one was a failure. */
  lemma {:induction false} SuccessRateExtremes(a: Agent, c: Capability)
    requires History(a, c) != []
    ensures SuccessRate(a, c) == 1.0 <==> forall i :: 0 <= i < |History(a, c)| ==> History(a, c)[i] == 1
    ensures SuccessRate(a, c) == 0.0 <==> Successes(History(a, c)) == 0
  {
    var h := History(a, c);
    AllSuccessesIff(h);
    var n := Successes(h);
    var q := n as real / |h| as real;
    assert q * (|h| as real) == n as real;
  }

  /** The last `HistoryWindow` entries (`history[-10:]` when longer than ten). */
  function Recent(h: seq<Outcome>): (r: seq<Outcome>)
    ensures |r| <= HistoryWindow
    ensures |r| == if |h| <= HistoryWindow then |h| else HistoryWindow
    ensures r == h[|h| - |r|..]
  {
    if |h| > HistoryWindow then h[|h| - HistoryWindow..] else h
  }

  /** Sum of the confidences of the given capabilities. */
  function ConfidenceSum(m: map<Capability, real>, ks: seq<Capability>): real
    requires forall k :: k in ks ==> k in m
  {
    if ks == [] then 0.0 else ConfidenceSum(m, ks[..|ks|-1]) + m[ks[|ks|-1]]
  }

  lemma {:induction false} ConfidenceSumBounds(m: map<Capability, real>, ks: seq<Capability>)
    requires forall k :: k in ks ==> k in m && InUnit(m[k])
    ensures 0.0 <= ConfidenceSum(m, ks) <= |ks| as real
  {
    if ks != [] {
      ConfidenceSumBounds(m, ks[..|ks|-1]);
    }
  }

  /** The sum of all the values of a confidence table, taken over its keys in no fixed order
      (`sum(confidence_scores.values())`). */
  ghost function TableSum(m: map<Capability, real>): real
    decreases |m|
  {
    if m == map[] then 0.0
    else
      var k :| k in m;
      TableSum(m - {k}) + m[k]
  }

  /** The sum does not depend on which key is taken out first. */
  lemma {:induction false} TableSumRemove(m: map<Capability, real>, x: Capability)
    requires x in m
    ensures TableSum(m) == TableSum(m - {x}) + m[x]
    decreases |m|
  {
    var k :| k in m && TableSum(m) == TableSum(m - {k}) + m[k];
    if k != x {
      TableSumRemove(m - {k}, x);
      TableSumRemove(m - {x}, k);
      assert m - {k} - {x} == m - {x} - {k};
    }
  }

  lemma {:induction false} ConfidenceSumAgree(m: map<Capability, real>, m': map<Capability, real>,
                                              ks: seq<Capability>)
    requires forall k :: k in ks ==> k in m && k in m' && m[k] == m'[k]
    ensures ConfidenceSum(m, ks) == ConfidenceSum(m', ks)
  {
    if ks != [] {
      ConfidenceSumAgree(m, m', ks[..|ks|-1]);
    }
  }

  /** Summing along any repetition-free enumeration of the keys gives the table's sum. */
  lemma {:induction false} ConfidenceSumIsTableSum(m: map<Capability, real>, ks: seq<Capability>)
    requires Distinct(ks) && m.Keys == Elements(ks)
    ensures ConfidenceSum(m, ks) == TableSum(m)
  {
    if ks != [] {
      var init, last := ks[..|ks|-1], ks[|ks|-1];
      var m' := m - {last};
      assert Elements(ks) == Elements(init) + {last};
      assert last !in Elements(init);
      ConfidenceSumIsTableSum(m', init);
      ConfidenceSumAgree(m, m', init);
      TableSumRemove(m, last);
    }
  }

  /** The facts `MeanConfidence` rests on: the bound, and that the sum along the de-duplicated
      capabilities is the sum of the whole table when the table holds exactly those. */
  lemma MeanFacts(a: Agent)
    requires a.Seeded()
    ensures var ks := Dedup(a.capabilities);
      && (forall k :: k in ks ==> k in a.confidenceScores)
      && (ks != [] && (forall c :: c in a.capabilities ==> InUnit(a.confidenceScores[c])) ==>
            InUnit(ConfidenceSum(a.confidenceScores, ks) / |ks| as real))
      && (a.LedgerValid() ==>
            && |ks| == |a.confidenceScores|
            && ConfidenceSum(a.confidenceScores, ks) == TableSum(a.confidenceScores))
  {
    var ks := Dedup(a.capabilities);
    assert forall k :: k in ks ==> k in Elements(a.capabilities);
    if ks != [] && forall c :: c in a.capabilities ==> InUnit(a.confidenceScores[c]) {
      ConfidenceSumBounds(a.confidenceScores, ks);
      RatioBounds(ConfidenceSum(a.confidenceScores, ks), |ks|);
    }
    if a.LedgerValid() {
      assert a.confidenceScores.Keys == Elements(ks);
      DistinctCard(ks);
      ConfidenceSumIsTableSum(a.confidenceScores, ks);
    }
  }

  /** Mean of all the agent's confidence values (`sum(confidence_scores.values()) /
      len(confidence_scores)`): the dictionary holds one entry per distinct declared capability,
      so the mean is taken along the capabilities without repeats. */
  function MeanConfidence(a: Agent): (r: real)
    requires a.Seeded()
    ensures (forall c :: c in a.capabilities ==> InUnit(a.confidenceScores[c])) ==> InUnit(r)
    ensures a.LedgerValid() && a.confidenceScores != map[] ==>
      r == TableSum(a.confidenceScores) / |a.confidenceScores| as real
    ensures a.LedgerValid() && a.confidenceScores == map[] ==> r == 0.0
  {
    MeanFacts(a);
    var ks := Dedup(a.capabilities);
    if ks == [] then 0.0 else ConfidenceSum(a.confidenceScores, ks) / |ks| as real
  }

  lemma RatioBounds(s: real, n: nat)
    requires 0 < n && 0.0 <= s <= n as real
    ensures InUnit(s / n as real)
  {
    var q := s / n as real;
    assert q * (n as real) == s;
  }

  /** The denominator of `MeanConfidence` is the size of the confidence dictionary. */
  lemma ConfidenceTableSize(a: Agent)
    requires a.LedgerValid()
    ensures |a.confidenceScores| == |Dedup(a.capabilities)|
  {
    var ks := Dedup(a.capabilities);
    DistinctCard(ks);
    assert a.confidenceScores.Keys == Elements(ks);
  }

  /** The moving-average step of the learning rule, clamped to [0,1]. */
  function Ema(current: real, rate: real, outcome: Outcome): (r: real)
    ensures InUnit(r)
  {
    Clamp01(current + rate * (outcome as real - current))
  }

  /** `update_confidence`. An undeclared capability changes nothing. Otherwise the confidence
      moves to clamp01(c + rate * (outcome - c)), the outcome enters the window of the last ten
      outcomes, and the adaptability score becomes the mean of all confidences. */
  function UpdateConfidence(a: Agent, c: Capability, outcome: Outcome): (r: Agent)
    requires a.LedgerValid()
    ensures r.LedgerValid()
    ensures c !in a.capabilities ==> r == a
    ensures c in a.capabilities ==>
      && r.confidenceScores == a.confidenceScores[c := Ema(a.confidenceScores[c], a.learningRate, outcome)]
      && r.successHistory == a.successHistory[c := Recent(History(a, c) + [outcome])]
      && r.adaptabilityScore == MeanConfidence(r)
      && r == a.(confidenceScores := r.confidenceScores, successHistory := r.successHistory,
                 adaptabilityScore := r.adaptabilityScore)
  {
    if c !in a.capabilities then a
    else
      var scores := a.confidenceScores[c := Ema(a.confidenceScores[c], a.learningRate, outcome)];
      var history := a.successHistory[c := Recent(History(a, c) + [outcome])];
      var b := a.(confidenceScores := scores, successHistory := history);
      assert b.Seeded();
      assert forall k :: k in b.capabilities ==> InUnit(b.confidenceScores[k]);
      var adaptability := if scores != map[] then MeanConfidence(b) else a.adaptabilityScore;
      b.(adaptabilityScore := adaptability)
  }

  /** With a rate in [0,1] the moving average never leaves [0,1], so the clamp never bites. */
  lemma ClampNeverBites(current: real, rate: real, outcome: Outcome)
    requires InUnit(current) && InUnit(rate)
    ensures InUnit(current + rate * (outcome as real - current))
  {
    if outcome == 1 {
      assert rate * (1.0 - current) <= 1.0 - current by {
        assert (1.0 - rate) * (1.0 - current) >= 0.0;
      }
    } else {
      assert rate * current <= current by {
        assert (1.0 - rate) * current >= 0.0;
      }
    }
  }

  /** The moving average moves toward the outcome: up (or level) on a success, down (or level)
      on a failure. */
  lemma EmaMovesTowardOutcome(current: real, rate: real, outcome: Outcome)
    requires InUnit(current) && InUnit(rate)
    ensures outcome == 1 ==> Ema(current, rate, outcome) >= current
    ensures outcome == 0 ==> Ema(current, rate, outcome) <= current
  {
    ClampNeverBites(current, rate, outcome);
    if outcome == 1 {
      MulNonnegative(rate, 1.0 - current);
    } else {
      MulNonnegative(rate, current);
    }
  }

  /** One update moves the confidence toward the outcome and appends the outcome as the newest
      history entry. */
  lemma UpdateMovesTowardOutcome(a: Agent, c: Capability, outcome: Outcome)
    requires a.LedgerValid() && c in a.capabilities
    ensures outcome == 1 ==> Confidence(UpdateConfidence(a, c, outcome), c) >= Confidence(a, c)
    ensures outcome == 0 ==> Confidence(UpdateConfidence(a, c, outcome), c) <= Confidence(a, c)
    ensures var h := History(UpdateConfidence(a, c, outcome), c); h != [] && h[|h|-1] == outcome
  {
    var r := UpdateConfidence(a, c, outcome);
    var cur := a.confidenceScores[c];
    assert Confidence(a, c) == cur;
    assert Confidence(r, c) == Ema(cur, a.learningRate, outcome);
    EmaMovesTowardOutcome(cur, a.learningRate, outcome);
    var h := History(a, c) + [outcome];
    assert History(r, c) == Recent(h);
  }

  lemma MulNonnegative(x: real, y: real)
    requires 0.0 <= x && 0.0 <= y
    ensures 0.0 <= x * y
  {
  }

  /** The worked example of the learning rule: from the default 0.5 at the normal rate 0.1,
      a success gives 0.55 and a failure gives 0.45. */
  lemma DefaultStep(a: Agent, c: Capability)
    requires a.LedgerValid() && c in a.capabilities
    requires a.confidenceScores[c] == DefaultConfidence && a.learningRate == NormalLearningRate
    ensures Confidence(UpdateConfidence(a, c, 1), c) == 0.55
    ensures Confidence(UpdateConfidence(a, c, 0), c) == 0.45
  {
    ClampNeverBites(0.5, 0.1, 1);
    ClampNeverBites(0.5, 0.1, 0);
  }

  /** The window after pushing outcomes one by one, each push followed by the trim. */
  function PushAll(h: seq<Outcome>, pushes: seq<Outcome>): seq<Outcome>
    decreases |pushes|
  {
    if pushes == [] then h else PushAll(Recent(h + [pushes[0]]), pushes[1..])
  }

  /** First-in first-out eviction: however many outcomes are pushed, the window holds exactly
      the last ten of everything recorded, oldest first. */
  lemma {:induction false} WindowKeepsLatest(h: seq<Outcome>, pushes: seq<Outcome>)
    requires |h| <= HistoryWindow
    ensures PushAll(h, pushes) == Recent(h + pushes)
    decreases |pushes|
  {
    if pushes != [] {
      var pushed, rest := h + [pushes[0]], pushes[1..];
      assert pushed + rest == h + pushes by {
        assert pushes == [pushes[0]] + rest;
      }
      WindowKeepsLatest(Recent(pushed), rest);
      RecentOfRecent(pushed, rest);
    }
  }

  lemma RecentOfRecent(h: seq<Outcome>, rest: seq<Outcome>)
    ensures Recent(Recent(h) + rest) == Recent(h + rest)
  {
    var r := Recent(h);
    assert h == h[..|h| - |r|] + r;
    assert h + rest == h[..|h| - |r|] + (r + rest);
  }

  /** Apply the same outcome to every capability in `caps`, in order and repeats included,
      as the completion loop does over a task's required capabilities. */
  function UpdateConfidences(a: Agent, caps: seq<Capability>, outcome: Outcome): (r: Agent)
    requires a.LedgerValid()
    ensures r.LedgerValid()
    ensures r.capabilities == a.capabilities
    ensures r == a.(confidenceScores := r.confidenceScores, successHistory := r.successHistory,
                    adaptabilityScore := r.adaptabilityScore)
    decreases |caps|
  {
    if caps == [] then a else UpdateConfidences(UpdateConfidence(a, caps[0], outcome), caps[1..], outcome)
  }

  /** A declared capability that the task does not require keeps its confidence and history. */
  lemma {:induction false} UpdatesLeaveOthersAlone(a: Agent, caps: seq<Capability>, outcome: Outcome, c: Capability)
    requires a.LedgerValid() && c !in caps
    ensures Confidence(UpdateConfidences(a, caps, outcome), c) == Confidence(a, c)
    ensures History(UpdateConfidences(a, caps, outcome), c) == History(a, c)
    decreases |caps|
  {
    if caps != [] {
      UpdatesLeaveOthersAlone(UpdateConfidence(a, caps[0], outcome), caps[1..], outcome, c);
    }
  }

  /** A declared capability that the task requires moves toward the outcome. */
  lemma {:induction false} UpdatesMoveRequired(a: Agent, caps: seq<Capability>, outcome: Outcome, c: Capability)
    requires a.LedgerValid() && c in caps && c in a.capabilities
    ensures outcome == 1 ==> Confidence(UpdateConfidences(a, caps, outcome), c) >= Confidence(a, c)
    ensures outcome == 0 ==> Confidence(UpdateConfidences(a, caps, outcome), c) <= Confidence(a, c)
    decreases |caps|
  {
    var b := UpdateConfidence(a, caps[0], outcome);
    assert UpdateConfidences(a, caps, outcome) == UpdateConfidences(b, caps[1..], outcome);
    if caps[0] == c {
      UpdateMovesTowardOutcome(a, c, outcome);
      if c in caps[1..] {
        UpdatesMoveRequired(b, caps[1..], outcome, c);
      } else {
        UpdatesLeaveOthersAlone(b, caps[1..], outcome, c);
      }
    } else {
      UpdateKeepsOthers(a, caps[0], outcome, c);
      UpdatesMoveRequired(b, caps[1..], outcome, c);
    }
  }

  /** An update of one capability leaves another's confidence and history as they were. */
  lemma UpdateKeepsOthers(a: Agent, d: Capability, outcome: Outcome, c: Capability)
    requires a.LedgerValid() && d != c
    ensures Confidence(UpdateConfidence(a, d, outcome), c) == Confidence(a, c)
    ensures History(UpdateConfidence(a, d, outcome), c) == History(a, c)
  {
  }

  /** After the updates, the newest history entry of every required declared capability is
      the outcome. */
  lemma {:induction false} UpdatesRecordOutcome(a: Agent, caps: seq<Capability>, outcome: Outcome, c: Capability)
    requires a.LedgerValid() && c in caps && c in a.capabilities
    ensures var h := History(UpdateConfidences(a, caps, outcome), c); h != [] && h[|h| - 1] == outcome
    decreases |caps|
  {
    var b := UpdateConfidence(a, caps[0], outcome);
    assert UpdateConfidences(a, caps, outcome) == UpdateConfidences(b, caps[1..], outcome);
    if c in caps[1..] {
      UpdatesRecordOutcome(b, caps[1..], outcome, c);
    } else {
      assert caps[0] == c;
      UpdateMovesTowardOutcome(a, c, outcome);
      UpdatesLeaveOthersAlone(b, caps[1..], outcome, c);
    }
  }

  /** `record_performance`: one more performance record, exactly one of the two lifetime
      counters bumped, and the running success rate completed / (completed + failed). */
  function RecordPerformance(a: Agent, taskId: Id, success: bool, duration: real, complexity: real,
                             used: seq<Capability>, now: Time): (r: Agent)
    ensures r.performanceHistory == a.performanceHistory
              + [PerformanceRecord(taskId, success, duration, complexity, used, now)]
    ensures success ==> r.totalCompleted == a.totalCompleted + 1 && r.totalFailed == a.totalFailed
    ensures !success ==> r.totalFailed == a.totalFailed + 1 && r.totalCompleted == a.totalCompleted
    ensures r.averageSuccessRate * ((r.totalCompleted + r.totalFailed) as real) == r.totalCompleted as real
    ensures InUnit(r.averageSuccessRate)
    ensures r == a.(performanceHistory := r.performanceHistory, totalCompleted := r.totalCompleted,
                    totalFailed := r.totalFailed, averageSuccessRate := r.averageSuccessRate,
                    lastActivity := now)
  {
    var completed := if success then a.totalCompleted + 1 else a.totalCompleted;
    var failed := if success then a.totalFailed else a.totalFailed + 1;
    var total := completed + failed;
    RatioInUnit(completed, total);
    var rate := completed as real / total as real;
    a.(performanceHistory := a.performanceHistory
                              + [PerformanceRecord(taskId, success, duration, complexity, used, now)],
       totalCompleted := completed, totalFailed := failed,
       averageSuccessRate := rate, lastActivity := now)
  }

  /** `get_overall_score`: 0 with no capabilities, else 0.6 * success rate + 0.4 * mean confidence. */
  function OverallScore(a: Agent): (r: real)
    requires a.Seeded()
    ensures a.LedgerValid() ==> InUnit(r)
    ensures a.capabilities == [] ==> r == 0.0
  {
    if |a.capabilities| == 0 then 0.0
    else a.averageSuccessRate * 0.6 + MeanConfidence(a) * 0.4
  }

  /** The declared capabilities, in declaration order, with success rate above 0.9. */
  function ExpertIn(a: Agent, caps: seq<Capability>): seq<Capability> {
    if caps == [] then []
    else
      var e := ExpertIn(a, caps[..|caps|-1]);
      if SuccessRate(a, caps[|caps|-1]) > ExpertiseLevel then e + [caps[|caps|-1]] else e
  }

  lemma {:induction false} ExpertInMembers(a: Agent, caps: seq<Capability>)
    ensures forall c :: c in ExpertIn(a, caps) <==> c in caps && SuccessRate(a, c) > ExpertiseLevel
  {
    if caps != [] {
      ExpertInMembers(a, caps[..|caps|-1]);
      assert caps == caps[..|caps|-1] + [caps[|caps|-1]];
    }
  }

  /** The expertise list of `get_adaptivity_profile`: exactly the declared capabilities whose
      recent success rate exceeds 0.9, in declaration order. */
  method Expertise(a: Agent) returns (expertise: seq<Capability>)
    ensures expertise == ExpertIn(a, a.capabilities)
    ensures forall c :: c in expertise <==> c in a.capabilities && SuccessRate(a, c) > ExpertiseLevel
  {
    expertise := [];
    for i := 0 to |a.capabilities|
      invariant expertise == ExpertIn(a, a.capabilities[..i])
    {
      assert a.capabilities[..i+1][..i] == a.capabilities[..i];
      var rate := SuccessRate(a, a.capabilities[i]);
      if rate > ExpertiseLevel {
        expertise := expertise + [a.capabilities[i]];
      }
    }
    assert a.capabilities[..|a.capabilities|] == a.capabilities;
    ExpertInMembers(a, a.capabilities);
  }
}
