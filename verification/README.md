# Dialograph memory nodes and neighbour ranking, in Dafny

This project models two pieces of the `dialograph` package.

- **Memory nodes** (`src/dialograph/core/node.py`). A `Node` has an epistemic
  `confidence` in [0,1] that does not decay. Its `availability` follows an
  Ebbinghaus forgetting curve, `exp(-elapsed / memory_strength)`, and is
  exactly 1 for persistent nodes. `reinforce` restarts the curve, grows the
  strength up to a one-week cap and recovers a little confidence. The
  `retrieval_score` is confidence times availability.
- **Top-k neighbour ranking** (`retrieve_neighbors` in
  `src/dialograph/traversal/retrieve.py`). Every outgoing edge of a source
  node is scored. The `(score, neighbor, edge)` triples are sorted by score,
  highest first, with Python's stable sort, and cut to `top_k`.

Module layout:

- `wrappers.dfy` (`Wrappers`): `Option` and `Result`.
- `nodes.dfy` (`Nodes`): the `Node` datatype, the constructor, `availability`,
  `reinforce` and `retrieval_score` as pure functions over `real`, with their
  lemmas.
- `stable_sort.dfy` (`StableSort`): a stable descending insertion sort.
  - Python's `s[:k]` slice is `SlicePrefix`.
  - Their composition is `TopK`.
  - Stability is stated through `FilterKey`, the subsequence of the elements
    that share one key value.
  - It is proved that a stable descending order is unique.
- `retrieve.dfy` (`Retrieve`): the scoring loop and `retrieve_neighbors`, with its ranking lemmas.

Time is always an explicit argument. Where the source reads `time.time()`,
the model takes a `clock` argument. `reinforce`, which always reads the wall
clock, takes the reading as `now`. Where the source calls `uuid.uuid4()`, the
model takes a `freshId` argument.

Python's `x or default` treats an explicit `0.0` timestamp and an empty id
as missing. The model keeps this quirk in `FloatOr` and `StrOr`, so
`MakeNode(createdAt := Some(0.0))` takes the clock reading.

`math.exp` is a function-valued argument `exp`. The ghost predicate
`IsExp(exp)` assumes these facts about it:

- `exp(0) = 1`;
- `0 < exp(x) <= 1` for `x <= 0`;
- `exp` is monotone, and strictly so.

`ExpWitnessIsExp` shows these assumptions are consistent.

The graph accessors that `retrieve_neighbors` calls are not defined in the
repository, so they become arguments:

- `graph.out_edges(source)` is the sequence `outEdges`;
- `graph.get_node` is a lookup in the map `nodes`;
- `score_neighbor` is the function `score`.

Behaviour of the code that a reader might not expect:

- Ties between equal scores keep `out_edges` order, because Python's sort is
  stable and `reverse=True` keeps that stability. The code has no tie-break
  on edge id.
- `reinforce` treats a negative `amount` as zero growth (`max(0.0, amount)`).
- `availability` clamps a negative elapsed time to 0, so a `now` before
  `last_accessed` gives availability 1.
- The score of a neighbour is whatever `score_neighbor` returns.
  `retrieve.py` neither defines nor imports `score_neighbor`, so the model
  makes no assumption about how it combines node and edge state.

## Model

| member | source | states |
|---|---|---|
| `Nodes.MakeNode` | src/dialograph/core/node.py:17-45 | the constructor leaves confidence in [0,1] whatever was passed: unchanged inside the range, 0 below it, 1 above it. Strength is at least 1, and is the given value when that is at least 1; there is no upper bound. A missing or zero `created_at` is the clock reading. A missing or zero `last_accessed` equals `created_at`. A missing id is the fresh id. Type and persistence are as given; the helper sets start empty |
| `Nodes.NewNode` | src/dialograph/core/node.py:17-27 | with all defaults: confidence 1, strength 3600, not persistent, `created_at` is the clock reading and `last_accessed == created_at`, empty data; the result satisfies the capped invariant |
| `Nodes.Availability` | src/dialograph/core/node.py:51-68 | exactly 1 for a persistent node at every time. Otherwise it is in (0,1] over the reals (doubles underflow to 0, see "## Left out"), and exactly 1 whenever `now <= last_accessed` |
| `Nodes.AvailabilityAt` | src/dialograph/core/node.py:64-68 | `now or time.time()`: a missing or zero `now` evaluates availability at the clock reading, and a non-zero `now` evaluates it at `now`. The same bounds as `Availability` hold: 1 for persistent nodes, in (0,1], and 1 when the resolved time is at most `last_accessed` |
| `Nodes.AvailabilityNonIncreasing` | src/dialograph/core/node.py:64-68 | availability never increases as time moves forward |
| `Nodes.AvailabilityFades` | src/dialograph/core/node.py:64-68 | a non-persistent node forgets: once time has passed since the last access, availability is strictly below 1 over the reals (see "## Left out" for double rounding) |
| `Nodes.Reinforce` | src/dialograph/core/node.py:74-94 | only `last_accessed`, `memory_strength` and `confidence` change, and `last_accessed` becomes the reinforcement time. New confidence is `old + 0.05` or 1, whichever is smaller: at most 1, and never below a confidence that was at most 1. New strength is `old * (1 + amount)` while that stays within 604800, and exactly 604800 once the product reaches it; it is never above 604800. A positive amount strictly increases a positive strength below the cap. Strength stays at least 1 if it was, and does not decrease if it was at most 604800. A non-positive amount leaves an in-cap strength unchanged. A well-formed node becomes a valid (capped) one |
| `Nodes.ReinforceDefault` | src/dialograph/core/node.py:74-91 | `reinforce()` with the default amount 0.2: the strength becomes `1.2 * old` up to the cap and strictly grows below the cap; the timer restarts; a well-formed node becomes valid |
| `Nodes.AvailabilityGrowsWithStrength` | src/dialograph/core/node.py:14 | of two nodes with the same forgetting timer, the one with the larger strength is at least as available at every time: strength controls forgetting speed |
| `Nodes.ReinforceSlowsForgetting` | src/dialograph/core/node.py:78-91 | for a node within the cap, at every time after reinforcement the reinforced node is at least as available as the same node with only its timer restarted: reinforcement slows future forgetting |
| `Nodes.RetrievalScore` | src/dialograph/core/node.py:100-105 | for non-negative confidence, the score lies between 0 and the confidence. For a well-formed node it is in [0,1]. It is positive when the confidence is, over the reals (see "## Left out"), and it equals the confidence for a persistent node |
| `Nodes.RetrievalScoreAt` | src/dialograph/core/node.py:100-105 | confidence times availability after the `now` resolution, in [0,1] for a well-formed node |
| `Nodes.RetrievalScoreNonIncreasing` | src/dialograph/core/node.py:100-105 | with non-negative confidence, the retrieval score never increases over time |
| `Nodes.ReinforceRestoresAvailability` | src/dialograph/core/node.py:83-94 | right after reinforcement at `now`, availability is 1 and the retrieval score is the new confidence |
| `Nodes.ReinforceNeverLowersScore` | src/dialograph/core/node.py:74-105 | reinforcing a well-formed node never lowers its retrieval score at the reinforcement time |
| `Nodes.ReinforceCanLowerStrength` | src/dialograph/core/node.py:40-91 | a constructed node with strength 1000000 is well-formed, and one reinforcement lowers its strength to the cap |
| `Nodes.MakeNodeCapped` | src/dialograph/core/node.py:40 | the constructor with the strength also capped at 604800: the result satisfies the capped invariant. It agrees with `MakeNode` for strengths in [1, 604800] and caps larger ones |
| `Nodes.ReinforceAllMonotone` | src/dialograph/core/node.py:86-94 | after any series of reinforcements of a valid node, the node is still valid, strength and confidence end at least at their starting values, and `last_accessed` is the last reinforcement's time |
| `Nodes.ReinforceAllSnoc` | src/dialograph/core/node.py:74-94 | a series extended by one step is that step applied to the series' result |
| `Nodes.ReinforceAllStepMonotone` | src/dialograph/core/node.py:86-94 | within any series of reinforcements of a valid node, every single step keeps the node valid and lowers neither strength nor confidence |
| `Nodes.CappedNodeReinforcesMonotonically` | src/dialograph/core/node.py:40-91 | a node built with the capped constructor stays valid under any series of reinforcements, and its strength never decreases |
| `Nodes.ExpWitnessIsExp` | src/dialograph/core/node.py:68 | the assumptions made of `math.exp` (value 1 at 0, in (0,1] on non-positive arguments, monotone and strictly monotone) are satisfiable |
| `StableSort.Insert` | src/dialograph/traversal/retrieve.py:30 | insertion adds exactly one copy of the element (multiset equation) |
| `StableSort.InsertSorted` | src/dialograph/traversal/retrieve.py:30 | inserting into a descending sequence keeps it descending |
| `StableSort.InsertKeyOrder` | src/dialograph/traversal/retrieve.py:30 | within every key group, the inserted element comes first, as if prepended |
| `StableSort.SortDesc` | src/dialograph/traversal/retrieve.py:30 | the result is a permutation of the input, sorted by key from highest to lowest. Elements with equal keys keep their input order, which is the stability of `sort(reverse=True)` |
| `StableSort.SortedSameKeyOrderEqual` | src/dialograph/traversal/retrieve.py:30 | two descending sequences with the same order inside every key group are equal |
| `StableSort.SortDescUnique` | src/dialograph/traversal/retrieve.py:30 | any descending, stable reordering of the input is exactly `SortDesc`'s result |
| `StableSort.SlicePrefix` | src/dialograph/traversal/retrieve.py:31 | `s[:k]` is a prefix of `s`. `None` keeps everything, `k >= 0` keeps `min(k, len)` elements, and a negative `k` drops the last `-k` elements (nothing is left if `-k >= len`) |
| `StableSort.TopK` | src/dialograph/traversal/retrieve.py:30-31 | sort then slice: the length is that of the slice, and the result is descending. It is a sub-multiset of the input, and the whole input when `k` is `None`. Every element left out scores at most every element kept, and each key group is a prefix of that group in the input |
| `Retrieve.ScoreEdges` | src/dialograph/traversal/retrieve.py:12-28 | the loop succeeds exactly when every target can be looked up. It then yields one triple per edge, in edge order. Otherwise it reports the first edge whose target is missing |
| `Retrieve.RetrieveNeighbors` | src/dialograph/traversal/retrieve.py:5-31 | it succeeds exactly when all targets are known, and otherwise reports the first missing one. No edges give the empty list. The length is that of `out_edges[:top_k]`, so at most `top_k`. The result is sorted by score, highest first. Each triple is an outgoing edge with its target node, scored by `score_neighbor(neighbor, edge, now, cm)` where `cm` is 1.0 without a callback and the callback's value on the neighbour otherwise. The result is a sub-multiset of all scored edges, and all of them when `top_k` is `None`. Every scored edge left out scores at most every triple kept. Equal-score triples keep `out_edges` order |
| `Retrieve.RetrieveNeighborsDefault` | src/dialograph/traversal/retrieve.py:5-11 | with the defaults (`top_k = 5`, no callback), at most 5 triples come back, each scored with context match 1.0 |
| `Retrieve.RetrieveNeighborsIsStableOrder` | src/dialograph/traversal/retrieve.py:30-31 | the result is the `top_k` prefix of any score-descending order of the scored edges that keeps equal scores in `out_edges` order |
| `Retrieve.RetrieveNeighborsNoDuplicates` | src/dialograph/traversal/retrieve.py:14-31 | when the outgoing edges are distinct, no edge appears twice in the result |

## Findings

| source | as written | input that shows it | evidently intended | confidence | as-written member | corrected member |
|---|---|---|---|---|---|---|
| src/dialograph/core/node.py:40 | the constructor floors `memory_strength` at 1 but does not cap it, while `reinforce` caps it at 604800 (one week) | `Node(..., memory_strength=1000000.0)` followed by `reinforce(0.2)`: the strength drops from 1000000 to 604800 | the one-week cap ("prevent immortal memories") also holds at construction, so reinforcement never weakens a memory | medium; not executed | `Nodes.ReinforceCanLowerStrength` | `Nodes.MakeNodeCapped` |

The capped invariant `Valid` is the one the reinforcement lemmas use, and
`Nodes.CappedNodeReinforcesMonotonically` proves the intended property for
nodes built by `MakeNodeCapped`. The
as-written constructor `MakeNode` only establishes the weaker `WellFormed`.

## Left out

- Float semantics: numbers are `real`. Rounding, overflow to infinity and NaN are not modelled. Python's `or` on a NaN timestamp is not modelled either.
- `math.exp` is an argument constrained by `IsExp`. Only the facts listed above are used.
- Nodes.Availability: the model does not state the exact exponential value, only the `IsExp` facts, because `exp` has no closed form over `real`.
- Nodes.Availability: the strict lower bound `0.0 < r` holds over the reals only. In IEEE doubles `math.exp` underflows to exactly 0.0 for arguments below about -745. So a non-persistent node untouched for more than about 745 × `memory_strength` seconds has availability 0.0 in the code. At the default strength of 3600 that is about 31 days.
- Nodes.AvailabilityAt: its strict lower bound `0.0 < r` has the same gap as `Nodes.Availability`: in the code the value is 0.0 once the resolved time is more than about 745 × `memory_strength` seconds after `last_accessed`.
- Nodes.AvailabilityFades: the strict `< 1.0` holds over the reals only. In doubles, `exp` of a negative argument closer to 0 than about -5.6e-17 rounds to 1.0. So a node read within about 5.6e-17 × `memory_strength` seconds of its last access still has availability 1.0 in the code.
- Nodes.RetrievalScore: positivity for a positive confidence holds over the reals only. Once availability underflows to 0.0 (after about 745 × `memory_strength` seconds, see `Nodes.Availability`), the code's score `confidence * availability` is 0.0 too.
- The `max(S, 1e-6)` guard in `availability` is modelled. Under the constructor's floor of 1 it never changes the value.
- The wall clock and `uuid.uuid4()` are arguments (`clock`, `now`, `freshId`), not readings.
- `data` and `metadata` are string-to-string maps: their values are opaque to every modelled operation. `pre_requisites` and `metadata` are only initialised, because nothing in the modelled code changes them.
- `graph.out_edges`, `graph.get_node` and `score_neighbor` are not defined in the repository. They are arguments: a sequence, a map and a function.
  - A target missing from the map is reported as `MissingNode`. What `get_node` really does for a missing id is not part of this model.
- `Node.__repr__` is string formatting only.
- `retrieve_subgraph` is not modelled. It calls `retrieve_neighbors` with a `k=` keyword and no `now`, which does not match the signature.
- `retrieve_path` is not modelled. It delegates to networkx's `all_shortest_paths`.
- `src/dialograph/core/edge.py` is not modelled: `touch`, `decay` and `reinforce` have empty bodies. Emotional charge, pending reinforcement, importance score and pruning do not exist in the code.
- `src/dialograph/core/graph.py` is not modelled: `__init__` only creates an empty `networkx` multigraph and sets `time` to 0. Every other `Dialograph` method, including `save`/`load`, has an empty body.
- `src/dialograph/core/draw.py` is HTML rendering, a local HTTP server and a browser launch: I/O and threads.
- `src/dialograph/agent/agent.py` depends on types that are not part of this model (`TemporalNode`, `MasteryLevel`, `CurriculumPolicy`).
- `main.py`, `practice.py` and the tests are demo scripts and rendering checks. They call signatures that do not exist.
