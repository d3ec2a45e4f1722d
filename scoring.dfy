/** The four-signal desirability score of an (agent, task) pair
    (qfox_core.py, `QFoxController.calculate_agent_score`). */
module Scoring {
  import opened Common
  import opened Seqs
  import opened AgentLedger
  import opened Tasks

  const MatchWeight: real := 0.40
  const ConfidenceWeight: real := 0.35
  const SuccessWeight: real := 0.15
  const LoadWeight: real := 0.10
  const IdleLoad: real := 1.0
  const BusyLoad: real := 0.3
  /** A pairing is committed only when its score is strictly above this. */
  const AcceptanceThreshold: real := 0.1

  /** Number of entries of `req`, repeats included, that the agent declares. */
  function MatchedCount(a: Agent, req: seq<Capability>): (n: nat)
    ensures n <= |req|
  {
    if req == [] then 0
    else MatchedCount(a, req[..|req|-1]) + (if req[|req|-1] in a.capabilities then 1 else 0)
  }

  /** Sum of the agent's confidence over those entries. */
  function MatchedConfidence(a: Agent, req: seq<Capability>): real {
    if req == [] then 0.0
    else MatchedConfidence(a, req[..|req|-1])
         + (if req[|req|-1] in a.capabilities then Confidence(a, req[|req|-1]) else 0.0)
  }

  /** Sum of the agent's success rate over those entries. */
  function MatchedSuccess(a: Agent, req: seq<Capability>): real {
    if req == [] then 0.0
    else MatchedSuccess(a, req[..|req|-1])
         + (if req[|req|-1] in a.capabilities then SuccessRate(a, req[|req|-1]) else 0.0)
  }

  /** Distinct shared capabilities over the length of the required list, repeats included. */
  function CapabilityMatch(a: Agent, t: Task): real
    requires |t.requiredCapabilities| > 0
  {
    |Elements(a.capabilities) * Elements(t.requiredCapabilities)| as real
      / |t.requiredCapabilities| as real
  }

  function Load(a: Agent): real {
    if a.status == Idle then IdleLoad else BusyLoad
  }

  function Average(sum: real, count: nat): real {
    if count > 0 then sum / count as real else 0.0
  }

  /** `calculate_agent_score`: 0 when the agent declares nothing or the task requires nothing;
      otherwise 0.40 match + 0.35 mean confidence + 0.15 mean success rate + 0.10 load. */
  function Score(a: Agent, t: Task): (r: real)
    ensures a.capabilities == [] || t.requiredCapabilities == [] ==> r == 0.0
  {
    var req := t.requiredCapabilities;
    if |a.capabilities| == 0 || |req| == 0 then 0.0
    else
      var n := MatchedCount(a, req);
      CapabilityMatch(a, t) * MatchWeight
        + Average(MatchedConfidence(a, req), n) * ConfidenceWeight
        + Average(MatchedSuccess(a, req), n) * SuccessWeight
        + Load(a) * LoadWeight
  }

  lemma {:induction false} MatchedSumsBounded(a: Agent, req: seq<Capability>)
    requires a.LedgerValid()
    ensures 0.0 <= MatchedConfidence(a, req) <= MatchedCount(a, req) as real
    ensures 0.0 <= MatchedSuccess(a, req) <= MatchedCount(a, req) as real
  {
    if req != [] {
      MatchedSumsBounded(a, req[..|req|-1]);
    }
  }

  /** No entry of `req` is matched exactly when the agent shares no capability with it. */
  lemma {:induction false} MatchedCountZeroIff(a: Agent, req: seq<Capability>)
    ensures MatchedCount(a, req) == 0 <==> forall c :: c in req ==> c !in a.capabilities
  {
    if req != [] {
      MatchedCountZeroIff(a, req[..|req|-1]);
      assert req == req[..|req|-1] + [req[|req|-1]];
    }
  }

  lemma AverageInUnit(sum: real, count: nat)
    requires 0.0 <= sum <= count as real
    ensures InUnit(Average(sum, count))
  {
    if count > 0 {
      RatioBounds(sum, count);
    }
  }

  lemma MatchInUnit(a: Agent, t: Task)
    requires |t.requiredCapabilities| > 0
    ensures InUnit(CapabilityMatch(a, t))
  {
    var shared := Elements(a.capabilities) * Elements(t.requiredCapabilities);
    ElementsCard(t.requiredCapabilities);
    assert shared <= Elements(t.requiredCapabilities);
    SubsetCard(shared, Elements(t.requiredCapabilities));
    RatioInUnit(|shared|, |t.requiredCapabilities|);
  }

  lemma SubsetCard<T>(small: set<T>, big: set<T>)
    requires small <= big
    ensures |small| <= |big|
  {
    if small != {} {
      var x :| x in small;
      SubsetCard(small - {x}, big - {x});
    }
  }

  /** Every score lies in [0,1]. */
  lemma ScoreInUnitInterval(a: Agent, t: Task)
    requires a.LedgerValid()
    ensures InUnit(Score(a, t))
  {
    var req := t.requiredCapabilities;
    if |a.capabilities| > 0 && |req| > 0 {
      var n := MatchedCount(a, req);
      MatchedSumsBounded(a, req);
      AverageInUnit(MatchedConfidence(a, req), n);
      AverageInUnit(MatchedSuccess(a, req), n);
      MatchInUnit(a, t);
    }
  }

  /** An Idle agent that shares no capability with a task scores exactly the threshold 0.1,
      the availability term alone, and so is never chosen for it. */
  lemma NoSharedCapabilityScoresThreshold(a: Agent, t: Task)
    requires a.status == Idle && a.capabilities != [] && t.requiredCapabilities != []
    requires forall c :: c in t.requiredCapabilities ==> c !in a.capabilities
    ensures Score(a, t) == AcceptanceThreshold
  {
    var req := t.requiredCapabilities;
    MatchedCountZeroIff(a, req);
    assert Elements(a.capabilities) * Elements(req) == {};
  }

  /** An Idle agent passes the strict threshold for a task exactly when it declares at least one
      of the task's required capabilities. */
  lemma IdleQualifiesIff(a: Agent, t: Task)
    requires a.LedgerValid() && a.status == Idle
    ensures Score(a, t) > AcceptanceThreshold
            <==> exists c :: c in t.requiredCapabilities && c in a.capabilities
  {
    var req := t.requiredCapabilities;
    if exists c :: c in req && c in a.capabilities {
      var c :| c in req && c in a.capabilities;
      assert |a.capabilities| > 0 && |req| > 0;
      var shared := Elements(a.capabilities) * Elements(req);
      assert c in shared;
      var n := MatchedCount(a, req);
      MatchedSumsBounded(a, req);
      AverageInUnit(MatchedConfidence(a, req), n);
      AverageInUnit(MatchedSuccess(a, req), n);
      var m := CapabilityMatch(a, t);
      assert m > 0.0 by {
        assert |shared| > 0;
      }
    } else if |a.capabilities| > 0 && |req| > 0 {
      NoSharedCapabilityScoresThreshold(a, t);
    }
  }

  /** A task with distinct requirements, all declared by the agent, is a full capability match. */
  lemma FullMatchWhenCovered(a: Agent, t: Task)
    requires |t.requiredCapabilities| > 0 && Distinct(t.requiredCapabilities)
    requires forall c :: c in t.requiredCapabilities ==> c in a.capabilities
    ensures CapabilityMatch(a, t) == 1.0
  {
    var req := t.requiredCapabilities;
    DistinctCard(req);
    assert Elements(a.capabilities) * Elements(req) == Elements(req);
    var n := |req| as real;
    assert |Elements(a.capabilities) * Elements(req)| as real == n;
    assert n / n == 1.0;
  }

  /** The match term divides by the length of the required list, so a repeated requirement
      dilutes it: requiring [x, x] of an agent that declares x gives a match of one half. */
  lemma RepeatedRequirementDilutesMatch(a: Agent, t: Task, x: Capability)
    requires t.requiredCapabilities == [x, x] && x in a.capabilities
    ensures CapabilityMatch(a, t) == 0.5
  {
    assert Elements(t.requiredCapabilities) == {x};
    assert Elements(a.capabilities) * {x} == {x};
  }

  /** The loops of `calculate_agent_score`, one accumulating confidences and one success rates. */
  method CalculateAgentScore(a: Agent, t: Task) returns (score: real)
    ensures score == Score(a, t)
  {
    var req := t.requiredCapabilities;
    if |a.capabilities| == 0 || |req| == 0 {
      return 0.0;
    }
    var shared := Elements(a.capabilities) * Elements(req);
    var capabilityMatch := |shared| as real / |req| as real;

    var confidenceSum, confidenceCount := 0.0, 0;
    for i := 0 to |req|
      invariant confidenceSum == MatchedConfidence(a, req[..i])
      invariant confidenceCount == MatchedCount(a, req[..i])
    {
      assert req[..i+1][..i] == req[..i];
      if req[i] in a.capabilities {
        confidenceSum := confidenceSum + Confidence(a, req[i]);
        confidenceCount := confidenceCount + 1;
      }
    }
    var avgConfidence := if confidenceCount > 0 then confidenceSum / confidenceCount as real else 0.0;

    var successSum, successCount := 0.0, 0;
    for i := 0 to |req|
      invariant successSum == MatchedSuccess(a, req[..i])
      invariant successCount == MatchedCount(a, req[..i])
    {
      assert req[..i+1][..i] == req[..i];
      if req[i] in a.capabilities {
        successSum := successSum + SuccessRate(a, req[i]);
        successCount := successCount + 1;
      }
    }
    var avgSuccess := if successCount > 0 then successSum / successCount as real else 0.0;

    var load := if a.status == Idle then IdleLoad else BusyLoad;
    assert req[..|req|] == req;
    score := capabilityMatch * MatchWeight + avgConfidence * ConfidenceWeight
             + avgSuccess * SuccessWeight + load * LoadWeight;
  }
}
