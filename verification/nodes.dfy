/** A memory node of the dialogue graph (src/dialograph/core/node.py).

    Confidence is the epistemic reliability of the node and does not decay;
    availability is an Ebbinghaus forgetting curve over the time elapsed since
    the last access, with `memory_strength` as its time constant.

    Time is always an explicit parameter: the source reads `time.time()` where
    a timestamp is missing, and here that reading is the `clock` argument.
    The exponential is a parameter too, constrained by `IsExp`. */
module Nodes {
  import opened Wrappers

  /** The source's `data` and `metadata` dicts, as opaque string maps. */
  type Payload = map<string, string>

  const DefaultConfidence: real := 1.0
  /** Default forgetting time constant: about one hour, in seconds. */
  const DefaultMemoryStrength: real := 3600.0
  const MinMemoryStrength: real := 1.0
  /** Hard cap applied by reinforcement: one week, 7 * 24 * 3600 seconds. */
  const MaxMemoryStrength: real := 604800.0
  /** Confidence recovered by one reinforcement. */
  const ConfidenceStep: real := 0.05
  /** Lower guard on the time constant inside `availability` (1e-6). */
  const StrengthGuard: real := 0.000001
  /** Default `amount` of `reinforce`. */
  const DefaultReinforceAmount: real := 0.2

  datatype Node = Node(
    nodeId: string,
    nodeType: string,
    data: Payload,
    confidence: real,
    createdAt: real,
    lastAccessed: real,
    memoryStrength: real,
    persistent: bool,
    preRequisites: set<string>,
    metadata: Payload)

  function Min(a: real, b: real): real { if a <= b then a else b }
  function Max(a: real, b: real): real { if a >= b then a else b }

  /** The properties of `math.exp` that the model relies on. */
  ghost predicate IsExp(exp: real -> real) {
    && exp(0.0) == 1.0
    && (forall x :: x <= 0.0 ==> 0.0 < exp(x) <= 1.0)
    && (forall x, y :: x <= y ==> exp(x) <= exp(y))
    && (forall x, y :: x < y ==> exp(x) < exp(y))
  }

  /** A function with the properties of `IsExp`, showing they are consistent. */
  function ExpWitness(x: real): real {
    if x <= 0.0 then 1.0 / (1.0 - x) else 1.0 + x
  }

  lemma ExpWitnessIsExp()
    ensures IsExp(ExpWitness)
  {
    forall x, y | x <= y
      ensures ExpWitness(x) <= ExpWitness(y)
      ensures x < y ==> ExpWitness(x) < ExpWitness(y)
    {
      if y <= 0.0 {
        DivAntitone(1.0 - y, 1.0 - x);
        if x < y { DivStrictAntitone(1.0 - y, 1.0 - x); }
      } else if x <= 0.0 {
        DivAntitone(1.0, 1.0 - x);
      }
    }
  }

  lemma DivStrictAntitone(a: real, b: real)
    requires 0.0 < a < b
    ensures 1.0 / b < 1.0 / a
  {
    assert (1.0 / b) * a < (1.0 / b) * b;
  }

  lemma DivAntitone(a: real, b: real)
    requires 0.0 < a <= b
    ensures 1.0 / b <= 1.0 / a
  {
    assert (1.0 / b) * a <= (1.0 / b) * b;
  }

  lemma MulMonotone(c: real, a: real, b: real)
    ensures 0.0 <= c && a <= b ==> c * a <= c * b
  {
    assert c * b - c * a == c * (b - a);
  }

  lemma ProductOrder(c: real, a1: real, a2: real, r1: real, r2: real)
    requires 0.0 <= c && a2 <= a1
    requires r1 == c * a1 && r2 == c * a2
    ensures r2 <= r1
  {
    MulMonotone(c, a2, a1);
  }

  lemma ScaleBounds(c: real, a: real)
    ensures 0.0 <= c && 0.0 <= a <= 1.0 ==> 0.0 <= c * a <= c
    ensures 0.0 < c && 0.0 < a ==> 0.0 < c * a
  {
    MulMonotone(c, a, 1.0);
    MulMonotone(c, 0.0, a);
  }

  /** Python's `x or fallback` on an optional float: `None` and `0.0` are both
      falsy, so an explicit timestamp of zero is read as missing. */
  function FloatOr(x: Option<real>, fallback: real): (r: real)
    ensures x.Some? && x.value != 0.0 ==> r == x.value
    ensures x.None? || x.value == 0.0 ==> r == fallback
  {
    if x.Some? && x.value != 0.0 then x.value else fallback
  }

  /** Python's `s or fallback` on an optional string: `None` and `""` are falsy. */
  function StrOr(s: Option<string>, fallback: string): (r: string)
    ensures s.Some? && s.value != "" ==> r == s.value
    ensures s.None? || s.value == "" ==> r == fallback
  {
    if s.Some? && s.value != "" then s.value else fallback
  }

  /** What the constructor guarantees: confidence in [0,1], strength at least 1. */
  ghost predicate WellFormed(n: Node) {
    0.0 <= n.confidence <= 1.0 && MinMemoryStrength <= n.memoryStrength
  }

  /** The invariant that makes reinforcement monotone: `WellFormed` plus the
      one-week cap on the strength. */
  ghost predicate Valid(n: Node) {
    WellFormed(n) && n.memoryStrength <= MaxMemoryStrength
  }

  /** `Node.__init__` as written. `clock` is the `time.time()` reading used when
      `created_at` is missing, `freshId` the `uuid4` string used when `node_id`
      is missing. The strength is floored at 1 but not capped. Python's `or`
      reads an explicit `0.0` timestamp or an empty id as missing. */
  function MakeNode(
    nodeId: Option<string>, nodeType: string, data: Option<Payload>,
    confidence: real, createdAt: Option<real>, lastAccessed: Option<real>,
    persistent: bool, memoryStrength: real, clock: real, freshId: string): (n: Node)
    ensures WellFormed(n)
    ensures 0.0 <= confidence <= 1.0 ==> n.confidence == confidence
    ensures confidence < 0.0 ==> n.confidence == 0.0
    ensures 1.0 < confidence ==> n.confidence == 1.0
    ensures memoryStrength >= MinMemoryStrength ==> n.memoryStrength == memoryStrength
    ensures memoryStrength < MinMemoryStrength ==> n.memoryStrength == MinMemoryStrength
    ensures createdAt.Some? && createdAt.value != 0.0 ==> n.createdAt == createdAt.value
    ensures createdAt.None? || createdAt.value == 0.0 ==> n.createdAt == clock
    ensures lastAccessed.Some? && lastAccessed.value != 0.0 ==> n.lastAccessed == lastAccessed.value
    ensures lastAccessed.None? || lastAccessed.value == 0.0 ==> n.lastAccessed == n.createdAt
    ensures nodeId.None? || nodeId.value == "" ==> n.nodeId == freshId
    ensures nodeId.Some? && nodeId.value != "" ==> n.nodeId == nodeId.value
    ensures data.None? ==> n.data == map[]
    ensures data.Some? ==> n.data == data.value
    ensures n.nodeType == nodeType && n.persistent == persistent
    ensures n.preRequisites == {} && n.metadata == map[]
  {
    var created := FloatOr(createdAt, clock);
    Node(
      nodeId := StrOr(nodeId, freshId),
      nodeType := nodeType,
      data := if data.Some? then data.value else map[],
      confidence := Max(0.0, Min(1.0, confidence)),
      createdAt := created,
      lastAccessed := FloatOr(lastAccessed, created),
      memoryStrength := Max(memoryStrength, MinMemoryStrength),
      persistent := persistent,
      preRequisites := {},
      metadata := map[])
  }

  /** The constructor with every optional argument left at its default. */
  function NewNode(nodeId: Option<string>, nodeType: string, clock: real, freshId: string): (n: Node)
    ensures Valid(n)
    ensures n.confidence == DefaultConfidence && n.memoryStrength == DefaultMemoryStrength
    ensures !n.persistent && n.lastAccessed == n.createdAt
    ensures n.createdAt == clock
    ensures n.data == map[]
  {
    MakeNode(nodeId, nodeType, None, DefaultConfidence, None, None, false,
             DefaultMemoryStrength, clock, freshId)
  }

  /** `availability(now)` at an already resolved time `t`. */
  function Availability(n: Node, t: real, exp: real -> real): (r: real)
    ensures n.persistent ==> r == 1.0
    ensures IsExp(exp) ==> 0.0 < r <= 1.0
    ensures IsExp(exp) && t <= n.lastAccessed ==> r == 1.0
  {
    if n.persistent then 1.0
    else
      var elapsed := Max(0.0, t - n.lastAccessed);
      var s := Max(n.memoryStrength, StrengthGuard);
      assert 0.0 <= elapsed / s;
      exp(-elapsed / s)
  }

  /** `availability(now)` with the source's `now or time.time()` resolution. */
  function AvailabilityAt(n: Node, now: Option<real>, clock: real, exp: real -> real): (r: real)
    ensures n.persistent ==> r == 1.0
    ensures IsExp(exp) ==> 0.0 < r <= 1.0
    ensures IsExp(exp) && (now.None? || now.value == 0.0) && clock <= n.lastAccessed ==> r == 1.0
    ensures IsExp(exp) && now.Some? && now.value != 0.0 && now.value <= n.lastAccessed ==> r == 1.0
    ensures now.None? || now.value == 0.0 ==> r == Availability(n, clock, exp)
    ensures now.Some? && now.value != 0.0 ==> r == Availability(n, now.value, exp)
  {
    Availability(n, FloatOr(now, clock), exp)
  }

  /** Availability never rises while the clock moves forward. */
  lemma AvailabilityNonIncreasing(n: Node, t1: real, t2: real, exp: real -> real)
    requires IsExp(exp)
    requires t1 <= t2
    ensures Availability(n, t2, exp) <= Availability(n, t1, exp)
  {
    if !n.persistent {
      var e1 := Max(0.0, t1 - n.lastAccessed);
      var e2 := Max(0.0, t2 - n.lastAccessed);
      var s := Max(n.memoryStrength, StrengthGuard);
      DivMonotone(-e2, -e1, s);
      var x1, x2 := -e1 / s, -e2 / s;
      assert exp(x2) <= exp(x1);
      assert Availability(n, t1, exp) == exp(x1);
      assert Availability(n, t2, exp) == exp(x2);
    }
  }

  lemma DivMonotone(a: real, b: real, s: real)
    requires 0.0 < s && a <= b
    ensures a / s <= b / s
  {
    assert b / s - a / s == (b - a) / s;
  }

  /** A non-persistent memory fades: once time has passed since the last
      access, availability is strictly below 1. */
  lemma AvailabilityFades(n: Node, t: real, exp: real -> real)
    requires IsExp(exp)
    requires !n.persistent && n.lastAccessed < t
    ensures Availability(n, t, exp) < 1.0
  {
    var e := t - n.lastAccessed;
    var s := Max(n.memoryStrength, StrengthGuard);
    assert Max(0.0, e) == e;
    assert 0.0 < e / s;
    var x := -e / s;
    assert x < 0.0;
    assert exp(x) < exp(0.0);
    assert Availability(n, t, exp) == exp(x);
  }

  /** `reinforce(amount)` at clock reading `now`: restarts the forgetting
      curve, multiplies the strength by `1 + max(0, amount)` under the one-week
      cap, and recovers a little confidence, capped at 1. */
  function Reinforce(n: Node, amount: real, now: real): (r: Node)
    ensures r == n.(lastAccessed := now, memoryStrength := r.memoryStrength, confidence := r.confidence)
    ensures r.lastAccessed == now
    ensures r.confidence <= 1.0
    ensures n.confidence <= 1.0 ==> n.confidence <= r.confidence
    ensures r.confidence == 1.0 || r.confidence == n.confidence + ConfidenceStep
    ensures n.confidence + ConfidenceStep <= 1.0 ==> r.confidence == n.confidence + ConfidenceStep
    ensures r.memoryStrength <= MaxMemoryStrength
    ensures n.memoryStrength >= MinMemoryStrength ==> r.memoryStrength >= MinMemoryStrength
    ensures amount <= 0.0 && n.memoryStrength <= MaxMemoryStrength ==> r.memoryStrength == n.memoryStrength
    ensures 0.0 <= n.memoryStrength <= MaxMemoryStrength ==> n.memoryStrength <= r.memoryStrength
    ensures 0.0 <= amount && n.memoryStrength * (1.0 + amount) <= MaxMemoryStrength ==>
              r.memoryStrength == n.memoryStrength * (1.0 + amount)
    ensures MaxMemoryStrength <= n.memoryStrength * (1.0 + Max(0.0, amount)) ==>
              r.memoryStrength == MaxMemoryStrength
    ensures 0.0 < amount && 0.0 < n.memoryStrength < MaxMemoryStrength ==>
              n.memoryStrength < r.memoryStrength
    ensures WellFormed(n) ==> Valid(r)
  {
    var growth := Max(0.0, amount);
    GrowthBounds(n.memoryStrength, growth);
    n.(lastAccessed := now,
       memoryStrength := Min(n.memoryStrength * (1.0 + growth), MaxMemoryStrength),
       confidence := Min(1.0, n.confidence + ConfidenceStep))
  }

  lemma GrowthBounds(m: real, g: real)
    requires 0.0 <= g
    ensures 0.0 <= m ==> m <= m * (1.0 + g)
    ensures 0.0 < m && 0.0 < g ==> m < m * (1.0 + g)
    ensures MinMemoryStrength <= m ==> MinMemoryStrength <= m * (1.0 + g)
  {
    assert m * (1.0 + g) == m + m * g;
    if 0.0 < m && 0.0 < g { assert 0.0 < m * g; }
    if 0.0 <= m { assert 0.0 <= m * g; }
  }

  /** `reinforce()` with its default `amount` of 0.2: a strength in the
      valid range grows by a fifth, up to the one-week cap. */
  function ReinforceDefault(n: Node, now: real): (r: Node)
    ensures r.lastAccessed == now
    ensures n.memoryStrength * 1.2 <= MaxMemoryStrength ==> r.memoryStrength == n.memoryStrength * 1.2
    ensures MaxMemoryStrength <= n.memoryStrength * 1.2 ==> r.memoryStrength == MaxMemoryStrength
    ensures 0.0 < n.memoryStrength < MaxMemoryStrength ==> n.memoryStrength < r.memoryStrength
    ensures WellFormed(n) ==> Valid(r)
  {
    Reinforce(n, DefaultReinforceAmount, now)
  }

  /** A larger strength means slower forgetting: of two nodes with the same
      forgetting timer, the stronger one is at least as available at any time. */
  lemma AvailabilityGrowsWithStrength(n: Node, m: Node, t: real, exp: real -> real)
    requires IsExp(exp)
    requires n.persistent == m.persistent && n.lastAccessed == m.lastAccessed
    requires StrengthGuard <= n.memoryStrength <= m.memoryStrength
    ensures Availability(n, t, exp) <= Availability(m, t, exp)
  {
    if !n.persistent {
      var e := Max(0.0, t - n.lastAccessed);
      DivAntitoneScaled(e, n.memoryStrength, m.memoryStrength);
      var x1, x2 := -e / n.memoryStrength, -e / m.memoryStrength;
      assert exp(x1) <= exp(x2);
      assert Availability(n, t, exp) == exp(x1);
      assert Availability(m, t, exp) == exp(x2);
    }
  }

  lemma DivAntitoneScaled(e: real, s1: real, s2: real)
    requires 0.0 <= e && 0.0 < s1 <= s2
    ensures -e / s1 <= -e / s2
  {
    DivAntitone(s1, s2);
    MulMonotone(e, 1.0 / s2, 1.0 / s1);
    assert e * (1.0 / s1) == e / s1;
    assert e * (1.0 / s2) == e / s2;
  }

  /** Reinforcement slows future forgetting: for an in-cap node, at every
      later time the reinforced node is at least as available as the same node
      with only its forgetting timer restarted. */
  lemma ReinforceSlowsForgetting(n: Node, amount: real, now: real, t: real, exp: real -> real)
    requires IsExp(exp)
    requires StrengthGuard <= n.memoryStrength <= MaxMemoryStrength
    ensures Availability(n.(lastAccessed := now), t, exp) <= Availability(Reinforce(n, amount, now), t, exp)
  {
    AvailabilityGrowsWithStrength(n.(lastAccessed := now), Reinforce(n, amount, now), t, exp);
  }

  /** `retrieval_score(now)` at a resolved time: belief reliability times
      memory availability. */
  function RetrievalScore(n: Node, t: real, exp: real -> real): (r: real)
    ensures IsExp(exp) && n.confidence >= 0.0 ==> 0.0 <= r <= n.confidence
    ensures IsExp(exp) && WellFormed(n) ==> 0.0 <= r <= 1.0
    ensures IsExp(exp) && n.confidence > 0.0 ==> r > 0.0
    ensures n.persistent ==> r == n.confidence
  {
    ScaleBounds(n.confidence, Availability(n, t, exp));
    n.confidence * Availability(n, t, exp)
  }

  /** `retrieval_score(now)` with the `now or time.time()` resolution. */
  function RetrievalScoreAt(n: Node, now: Option<real>, clock: real, exp: real -> real): (r: real)
    ensures r == n.confidence * AvailabilityAt(n, now, clock, exp)
    ensures IsExp(exp) && WellFormed(n) ==> 0.0 <= r <= 1.0
  {
    RetrievalScore(n, FloatOr(now, clock), exp)
  }

  /** With a non-negative confidence the retrieval score decays over time. */
  lemma RetrievalScoreNonIncreasing(n: Node, t1: real, t2: real, exp: real -> real)
    requires IsExp(exp)
    requires n.confidence >= 0.0
    requires t1 <= t2
    ensures RetrievalScore(n, t2, exp) <= RetrievalScore(n, t1, exp)
  {
    AvailabilityNonIncreasing(n, t1, t2, exp);
    var a1 := Availability(n, t1, exp);
    var a2 := Availability(n, t2, exp);
    var r1 := RetrievalScore(n, t1, exp);
    var r2 := RetrievalScore(n, t2, exp);
    assert r1 == n.confidence * a1;
    assert r2 == n.confidence * a2;
    ProductOrder(n.confidence, a1, a2, r1, r2);
  }

  /** Right after a reinforcement at `now` the node is fully available, so its
      retrieval score is its new confidence. */
  lemma ReinforceRestoresAvailability(n: Node, amount: real, now: real, exp: real -> real)
    requires IsExp(exp)
    ensures Availability(Reinforce(n, amount, now), now, exp) == 1.0
    ensures RetrievalScore(Reinforce(n, amount, now), now, exp) == Reinforce(n, amount, now).confidence
  {
    var r := Reinforce(n, amount, now);
    assert Availability(r, now, exp) == 1.0;
  }

  /** Reinforcing a well-formed node never lowers its retrieval score at the
      moment of reinforcement. */
  lemma ReinforceNeverLowersScore(n: Node, amount: real, now: real, exp: real -> real)
    requires IsExp(exp)
    requires WellFormed(n)
    ensures RetrievalScore(n, now, exp) <= RetrievalScore(Reinforce(n, amount, now), now, exp)
  {
    ReinforceRestoresAvailability(n, amount, now, exp);
    var a := Availability(n, now, exp);
    MulMonotone(n.confidence, a, 1.0);
  }

  /** The constructor as written admits a strength above the one-week cap, and
      the first reinforcement then lowers it to the cap: reinforcement is not
      monotone on every constructed node. */
  lemma ReinforceCanLowerStrength()
    ensures
      var n := MakeNode(Some("n1"), "concept", None, 1.0, Some(10.0), None, false,
                        1000000.0, 10.0, "fresh");
      && WellFormed(n)
      && n.memoryStrength > MaxMemoryStrength
      && Reinforce(n, DefaultReinforceAmount, 20.0).memoryStrength < n.memoryStrength
  {
  }

  /** The constructor with the strength clamped into [1, 604800], the bound
      that `reinforce` itself enforces. */
  function MakeNodeCapped(
    nodeId: Option<string>, nodeType: string, data: Option<Payload>,
    confidence: real, createdAt: Option<real>, lastAccessed: Option<real>,
    persistent: bool, memoryStrength: real, clock: real, freshId: string): (n: Node)
    ensures Valid(n)
    ensures MinMemoryStrength <= memoryStrength <= MaxMemoryStrength ==> n.memoryStrength == memoryStrength
    ensures memoryStrength > MaxMemoryStrength ==> n.memoryStrength == MaxMemoryStrength
    ensures n == MakeNode(nodeId, nodeType, data, confidence, createdAt, lastAccessed, persistent,
                          n.memoryStrength, clock, freshId)
  {
    MakeNode(nodeId, nodeType, data, confidence, createdAt, lastAccessed, persistent,
             Min(memoryStrength, MaxMemoryStrength), clock, freshId)
  }

  /** One `reinforce(amount)` call observed at clock reading `at`. */
  datatype Reinforcement = Reinforcement(amount: real, at: real)

  /** The node after a series of reinforcements, applied in order. */
  function ReinforceAll(n: Node, steps: seq<Reinforcement>): Node
    decreases |steps|
  {
    if |steps| == 0 then n
    else ReinforceAll(Reinforce(n, steps[0].amount, steps[0].at), steps[1..])
  }

  /** Reinforcing after a series is the same as extending the series by one
      step, so a property of every series holds after every step. */
  lemma {:induction false} ReinforceAllSnoc(n: Node, steps: seq<Reinforcement>, st: Reinforcement)
    ensures ReinforceAll(n, steps + [st]) == Reinforce(ReinforceAll(n, steps), st.amount, st.at)
    decreases |steps|
  {
    if |steps| == 0 {
      assert [] + [st] == [st];
      assert [st][1..] == [];
    } else {
      assert (steps + [st])[0] == steps[0];
      assert (steps + [st])[1..] == steps[1..] + [st];
      ReinforceAllSnoc(Reinforce(n, steps[0].amount, steps[0].at), steps[1..], st);
    }
  }

  /** Along any series of reinforcements of a valid node, each step keeps the
      invariant and never lowers strength or confidence. */
  lemma ReinforceAllStepMonotone(n: Node, steps: seq<Reinforcement>, st: Reinforcement)
    requires Valid(n)
    ensures Valid(ReinforceAll(n, steps + [st]))
    ensures ReinforceAll(n, steps).memoryStrength <= ReinforceAll(n, steps + [st]).memoryStrength
    ensures ReinforceAll(n, steps).confidence <= ReinforceAll(n, steps + [st]).confidence
  {
    ReinforceAllMonotone(n, steps);
    ReinforceAllSnoc(n, steps, st);
  }

  /** Along any series of reinforcements of a valid node, the invariant holds,
      and neither the strength nor the confidence ever decreases. */
  lemma {:induction false} ReinforceAllMonotone(n: Node, steps: seq<Reinforcement>)
    requires Valid(n)
    ensures Valid(ReinforceAll(n, steps))
    ensures n.memoryStrength <= ReinforceAll(n, steps).memoryStrength
    ensures n.confidence <= ReinforceAll(n, steps).confidence
    ensures |steps| > 0 ==> ReinforceAll(n, steps).lastAccessed == steps[|steps| - 1].at
    decreases |steps|
  {
    if |steps| > 0 {
      var m := Reinforce(n, steps[0].amount, steps[0].at);
      ReinforceAllMonotone(m, steps[1..]);
      if |steps| > 1 {
        assert steps[1..][|steps[1..]| - 1] == steps[|steps| - 1];
      }
    }
  }

  /** A node built by the capped constructor keeps the invariant, and its
      strength never decreases, under any series of reinforcements. */
  lemma CappedNodeReinforcesMonotonically(
    nodeId: Option<string>, nodeType: string, data: Option<Payload>,
    confidence: real, createdAt: Option<real>, lastAccessed: Option<real>,
    persistent: bool, memoryStrength: real, clock: real, freshId: string,
    steps: seq<Reinforcement>)
    ensures
      var n := MakeNodeCapped(nodeId, nodeType, data, confidence, createdAt, lastAccessed,
                              persistent, memoryStrength, clock, freshId);
      && Valid(ReinforceAll(n, steps))
      && n.memoryStrength <= ReinforceAll(n, steps).memoryStrength
  {
    var n := MakeNodeCapped(nodeId, nodeType, data, confidence, createdAt, lastAccessed,
                            persistent, memoryStrength, clock, freshId);
    ReinforceAllMonotone(n, steps);
  }
}
