# SyncBB in Dafny

A model of the Synchronous Branch-and-Bound (SyncBB) engine of `masdcop`, a
small distributed constraint optimisation (DCOP) library, together with the
stateful pieces it drives:

- **Domain cursor** (`Domain.Variable`). It walks a variable's domain and
  yields an exhausted sentinel at the end. The repository has two variants:
  - masdcop/algo.py writes the sentinel into the current value `d`.
  - masdcop/agent.py leaves `d` at the last real value.

  One class models both, selected by its `Kind`.
- **Agent order** (`Order.PseudoTree`). A fixed sequence of agents and a
  cursor that starts at -1.
- **Mailbox** (`Mailbox.PigeonHole`). One slot per recipient label, shared by
  every agent. A send overwrites any unread envelope.
- **Agents** (`Agents.State`, `Agents.SingleVariableAgent`).
- **The engine** (`Engine.SyncBB`):
  - `check` annotates the received path with violation counts and prunes
    against the upper bound.
  - `getNext` draws values until one passes `check`.
  - `sendMessage` runs the last agent's enumeration loop and sets
    `terminate` and `sol`.
  - `receive` handles backtrack and forward messages.
  - `initiate`, `sendToNext` and `sendToPrevious`.

Each engine method is a Dafny method that changes the agent's and the engine's
fields in place. Its postcondition says it computes a function of module
`BranchAndBound` on the old state:

| engine method | specification function |
|---|---|
| `check` | `Scan` |
| `getNext` | `Draw` / `Search` |
| the last agent's loop (`CostCandidates`) | `Sweep` |
| `sendMessage` | `SendMessageSpec` |
| `receive` | `ReceiveSpec` |
| `initiate` | `InitiateSpec` |

The `while` loop of `sendMessage` is the method `CostCandidates`, which
`SendMessage` calls at the point where the loop stands in the source.

The lemmas about those functions state what the code guarantees:
- exactly when `check` prunes;
- that `getNext` returns the first feasible value;
- when `terminate` is raised, and at which candidate the last agent stops;
- which candidate `sol` records when it does not stop;
- what a backtrack leaves in `new_path`.

Conventions:
- The constraint predicate the environment injects is a function parameter
  (`Values.Checker`).
- Domain values are tagged: `Undrawn` (Python's initial `None`), `Exhausted`
  (the string `"exhausted"`) and `Val(x)`.
- The upper bound is `Inf | Fin(n)`. `Reaches(x, Inf)` is false, as
  `x >= math.inf` is for integers.
- Python's `None` for `new_path` and `previous_path` is the empty path.

The exceptions Python would raise are modelled in one of two ways:
- In `receive` they become `Fault` values:
  - a missing mailbox entry;
  - a sender label not in the order (`agents.index(None)`);
  - an empty incoming path (`path[-1]`).
- Elsewhere they become preconditions:
  - `PseudoTree.next` from the last position, which indexes past the end (IndexError);
  - `Variable.next` with the cursor past the end of a shrunk domain (IndexError);
  - `agents.index(agent)` for an agent not in the order (ValueError, masdcop/algo.py:54, 86 and 151): `agent in agents` on `Order.IndexIn`, `IndexOf`, `NextTo` and `IsParent`, and on the engine's `SendMessage`, `Receive` and `Initiate`;
  - `agents[-1]` on an empty order (IndexError, masdcop/algo.py:95 and 98): a non-empty order on `IsLast` and `GetLast`;
  - `agents[self._i]` with the cursor at the end of the order (IndexError, masdcop/algo.py:101): a cursor before the end on `GetCurrentAgent`;
  - `max([])` on an empty path (ValueError, masdcop/algo.py:140): a non-empty path on `Cost`.

A consequence of the code as written is proved, not corrected. On a forward
message the last agent draws a candidate in `receive`. `sendMessage` then draws
again before costing anything, so that candidate is never costed.
`BranchAndBound.LastAgentSkipsValueDrawnOnReceipt` gives an instance: the
skipped candidate has cost 0 and `max_cost` is 0, yet the step does not
terminate.

## Model

| member | source | states |
|---|---|---|
| Domain.Variable.constructor | masdcop/algo.py:15-23 | A new variable has the given label and domain, its cursor at 0 and no current value. |
| Domain.Variable.SetDomain | masdcop/algo.py:29-31 | The domain setter replaces the domain by a copy and changes neither the cursor nor `d`. The getter then returns the new domain. |
| Domain.Variable.Domain | masdcop/algo.py:25-27 | The domain getter returns the current domain as a value, so a caller's changes to it cannot reach the variable. |
| Domain.Variable.Next | masdcop/algo.py:33-41 | Before the end, `next` yields `domain[i]`, makes it `d` and advances the cursor by one. At the end it yields the sentinel and keeps the cursor. `d` becomes the sentinel (algo.py kind) or keeps its value (agent.py kind). |
| Domain.Variable.Reset | masdcop/algo.py:43-44 | `reset` puts the cursor back to 0 and leaves the domain and `d` alone. |
| Domain.ReplayFrom | masdcop/algo.py:33-41 | From any position, the k-th of n calls to `next` yields the element k places on, or the sentinel past the end. |
| Domain.ReplayAfterReset | masdcop/algo.py:33-44 | After `reset`, n calls yield the domain in order, each element once, then the sentinel on every later call. |
| Domain.ExhaustedIsIdempotent | masdcop/algo.py:34-36 | At the end, `next` is idempotent: same cursor, the sentinel again, and `d` unchanged by a second call. |
| Domain.KeepsLastValueNeverExhausts | masdcop/agent.py:61-70 | With agent.py's `next`, `d` never becomes the sentinel; at the end it is left as it was. |
| Mailbox.PigeonHole.constructor | masdcop/agent.py:16-17 | The shared table starts empty. |
| Mailbox.Lookup | masdcop/agent.py:25-27 | A lookup succeeds exactly when the key is stored, and then returns the envelope stored under it. Otherwise it fails with the missing-entry fault. |
| Mailbox.StoreThenLookup | masdcop/agent.py:21-27 | After storing under `recipient`, a lookup of `recipient` returns that envelope and every other key reads as before. |
| Mailbox.PigeonHole.Receive | masdcop/agent.py:25-27 | Corrected `receive`: the envelope stored for the key when there is one, the missing-entry fault otherwise. |
| Mailbox.PigeonHole.Send | masdcop/agent.py:21-23 | Corrected `send`: stores `Payload(sender, message)` under `recipient`, overwriting it. A receive for `recipient` then returns it, and other keys are unchanged. |
| Mailbox.ReceiveAsWritten | masdcop/agent.py:25-27 | As the agent calls it (agent.py:99), `receive` fails with a TypeError whatever is stored: the static method is given the key but not `cls`. |
| Mailbox.SendAsCalled | masdcop/agent.py:21-23 | As called from the agent, `send` fails with a TypeError before storing anything. |
| Mailbox.AsWrittenRoundTripFails | masdcop/agent.py:21-27 | The send-then-receive round trip that the map semantics provides fails with the code as written. |
| Agents.State.constructor | masdcop/agent.py:33-37 | A fresh state has bound ∞, counter 0 and both paths empty. |
| Agents.SingleVariableAgent.constructor | masdcop/agent.py:89-93 | A new agent owns a fresh state and a fresh variable with its own label and domain, and holds no payload. |
| Agents.SingleVariableAgent.Send | masdcop/agent.py:95-96 | The agent sends with its own label as the sender. |
| Agents.SingleVariableAgent.Receive | masdcop/agent.py:98-99 | The agent takes the envelope stored under its own label into `payload`. If there is none, the lookup fails and `payload` is unchanged. |
| Order.IndexIn | masdcop/algo.py:86 | `list.index`: the position of the first occurrence. |
| Order.FindFrom | masdcop/algo.py:88-92 | The first position from `from` on whose agent carries the label, or none when no agent there does. |
| Order.PseudoTree.constructor | masdcop/algo.py:49-51 | The order keeps the given agents and starts with its cursor at -1. |
| Order.PseudoTree.IndexOf | masdcop/algo.py:86 | The position of the first occurrence of the agent in the order. |
| Order.PseudoTree.NextTo | masdcop/algo.py:53-58 | `nextTo` is none exactly when the agent's first occurrence is in last place; otherwise it is the agent right after it. |
| Order.PseudoTree.HasNext | masdcop/algo.py:60-61 | Away from the last agent, `hasNext` holds exactly when `next` moves to an agent. On the last agent it holds although no agent follows. |
| Order.PseudoTree.NextTarget | masdcop/algo.py:63-68 | `next` moves to an agent exactly when the cursor is before the end, and that agent is the one at the following position. |
| Order.PseudoTree.Next | masdcop/algo.py:63-68 | `next` advances the cursor by one and returns the agent there, or returns none at the end without moving. The caller must not be on the last agent, where Python indexes out of range. |
| Order.PseudoTree.PreviousTarget | masdcop/algo.py:70-75 | `previous` moves to an agent exactly when the cursor is above 0, and that agent is the one at the preceding position. |
| Order.PseudoTree.Previous | masdcop/algo.py:70-75 | `previous` moves back one and returns the agent there when the cursor is above 0, and otherwise returns none and keeps the cursor. |
| Order.PseudoTree.GetAgent | masdcop/algo.py:88-92 | `getAgent` returns the first agent with the label, or none exactly when no agent has it. |
| Order.PseudoTree.IsParent | masdcop/algo.py:77-86 | An agent is never its own parent. |
| Order.PseudoTree.IsLast | masdcop/algo.py:94-95 | Only an agent of the order can be last. |
| Order.PseudoTree.GetLast | masdcop/algo.py:94-98 | `getLast` returns an agent of the order for which `isLast` holds. |
| Order.PseudoTree.GetCurrentAgent | masdcop/algo.py:100-101 | The agent at the cursor. At cursor -1 it is the last agent, as Python's negative index reads it. |
| Order.IsParentIsStrictOrder | masdcop/algo.py:77-86 | `isParent` is irreflexive, transitive and asymmetric. |
| Order.NextToNoneIffLast | masdcop/algo.py:53-58 | With distinct agents, `nextTo` is none exactly for the last agent, and otherwise names the agent one position further on. |
| Order.PreviousThenNext | masdcop/algo.py:63-75 | Stepping back and then forward returns to the same position and agent. |
| BranchAndBound.AnnotatePointwise | masdcop/algo.py:215-230 | Each passed-on element keeps its label and value. Its count rises by one exactly when the candidate violates its constraint. |
| BranchAndBound.Scan | masdcop/algo.py:196-230 | A successful `check` appends one element per path element plus the agent's own, and never lowers the counter. |
| BranchAndBound.ScanOutcome | masdcop/algo.py:196-230 | On success `check` appends the annotated path plus the agent's own entry with count 0, the counter grows by the number of violations, and no element prunes. On failure it stops at the first pruning element, having appended the annotated elements before it and counted the violations up to and including it. |
| BranchAndBound.CheckEmptyPath | masdcop/algo.py:205-209 | On the empty path `check` appends exactly the agent's own entry with count 0 and succeeds. |
| BranchAndBound.CheckFailsIff | masdcop/algo.py:215-220 | `check` fails exactly when, at some violated element scanned left to right, the running counter or the carried count plus one reaches the bound. |
| BranchAndBound.NeverPrunedUnderInfiniteBound | masdcop/algo.py:215-220 | With bound ∞, `check` never fails. |
| BranchAndBound.Search | masdcop/algo.py:176-194 | `getNext` yields the sentinel only with the cursor at the end. Otherwise it yields the value just behind the cursor, with a non-empty `new_path`. Every rejected value advances the cursor. |
| BranchAndBound.SearchOutcome | masdcop/algo.py:176-194 | `getNext` returns the first value from the cursor on that passes `check` from a reset counter and path, and `new_path` is that check's output. It returns the sentinel exactly when no such value exists. |
| BranchAndBound.FirstAgentTakesNextValue | masdcop/algo.py:176-209 | The first agent, with an empty previous path, takes the value under the cursor, and `new_path` is its own entry alone. |
| BranchAndBound.Draw | masdcop/algo.py:176-194 | `getNext` changes only the cursor, `d`, the counter and `new_path`. A found value is `d`, lies just behind the cursor and comes with a non-empty path. |
| BranchAndBound.DrawKeepsLastValue | masdcop/agent.py:61-70 | With agent.py's variable, `getNext` never leaves the sentinel in `d`. So the first agent's exhausted branch of `sendMessage` cannot fire for such agents. |
| BranchAndBound.CostIsMax | masdcop/algo.py:140 | The cost of a path bounds every element's violation count and equals one of them: it is their maximum. |
| BranchAndBound.Sweep | masdcop/algo.py:135-146 | The last agent's loop keeps the domain, bound, previous path and payload. It either succeeds with a non-empty path whose cost, within `max_cost`, is the cost returned, or fails with the domain drawn to the end. |
| BranchAndBound.DrawOutcome | masdcop/algo.py:176-194 | A value `getNext` finds is the first feasible one from the cursor on, and `new_path` is its candidate path. The sentinel comes exactly when no value from the cursor on is feasible. |
| BranchAndBound.SweepTerminatesIff | masdcop/algo.py:135-146 | The last agent's loop, started with a draw, succeeds exactly when some value from the cursor on passes `check` and has a candidate path costing at most `max_cost`. |
| BranchAndBound.SweepStopsAtFirstWithin | masdcop/algo.py:135-146 | A successful loop stops at the first such value. |
| BranchAndBound.SweepKeepsCandidate | masdcop/algo.py:135-146 | A successful loop leaves the value it stopped at as `d` and its candidate path as `new_path`, and returns that path's cost. |
| BranchAndBound.SweepRecordsLastFeasible | masdcop/algo.py:135-146 | A failed loop leaves as `sol`, and returns as the cost, the path and cost of the LAST feasible value, not the cheapest. With no feasible value it fails and leaves `sol` and the cost as they were. |
| BranchAndBound.Forward | masdcop/algo.py:156-164 | Sending forward changes neither `terminate` nor `sol`. Before the end of the order it advances the cursor by one and stores the envelope under the label of the agent there. At the end it changes nothing. |
| BranchAndBound.Backward | masdcop/algo.py:166-174 | Sending back changes neither `terminate` nor `sol`. Above position 0 it moves the cursor back by one and stores the envelope under the label of the agent there. Otherwise it changes nothing. |
| BranchAndBound.SendMessageSpec | masdcop/algo.py:133-154 | Only the last agent holding a value changes its own state or `sol` in `sendMessage`. No agent's domain, previous path or payload changes, and `terminate` is raised only by the last agent or by an exhausted agent. |
| BranchAndBound.InitiateSpec | masdcop/algo.py:121-131 | `initiate` keeps the domain, previous path and payload. An agent with an empty previous path that is not last takes the value under its cursor, proposes its own entry alone and leaves `terminate` as it was. |
| BranchAndBound.TerminateOnlyWhenJustified | masdcop/algo.py:133-154 | `sendMessage` raises `terminate` only when the last agent finds a candidate costing at most `max_cost` (its bound then becomes that cost), or when the first agent is exhausted, which always raises it. |
| BranchAndBound.LastAgentTerminatesIff | masdcop/algo.py:135-148 | The last agent, holding a value, ends the search exactly when some candidate from its cursor on passes `check` with a cost within `max_cost`. It then stops at the first such candidate, keeps it as `d` and its path as `new_path`, and sends back its cost as the bound. |
| BranchAndBound.LastAgentRecordsLastCandidate | masdcop/algo.py:135-148 | When the last agent's step fails, the domain has been drawn to the end. `sol` holds the path and cost of the last feasible candidate, not the cheapest, and that cost is the bound sent back. With no feasible candidate the step fails, the bound is 0 and `sol` is untouched. |
| BranchAndBound.MessageGoesToCurrentAgent | masdcop/algo.py:133-174 | Every message sent moves the cursor one step onto its recipient; when the cursor stays, nothing is sent. The cursor moves forward exactly when an agent that is not last has a value. |
| BranchAndBound.LastAgentSkipsValueDrawnOnReceipt | masdcop/algo.py:135-137 | The candidate the last agent drew in `receive` is not costed by `sendMessage`: a cost-0 candidate with `max_cost` 0 does not terminate. |
| BranchAndBound.Retail | masdcop/algo.py:248-252 | `new_path` loses its last element, if any, and gains the agent's own entry. |
| BranchAndBound.ReceiveSpec | masdcop/algo.py:232-258 | `receive` reports the missing-entry fault exactly when no envelope is stored for the agent, and the unknown-sender fault exactly when the sender's label is not in the order. A stored envelope becomes `payload`. After any fault the agent is otherwise as it was. The domain never changes. |
| BranchAndBound.ForwardReceiveAdoptsPath | masdcop/algo.py:254-258 | A forward message makes the agent adopt the incoming path and bound. It then takes the first feasible value against them, with the annotated path plus its own entry as `new_path`. With none left, the cursor is at the end. |
| BranchAndBound.BacktrackReplacesOwnEntry | masdcop/algo.py:242-252 | A backtrack adopts the incoming bound and redraws against the unchanged previous path. The agent's own last entry then carries the drawn value (the sentinel when none is feasible) and the count of the incoming path's last element. |
| Engine.SyncBB.constructor | masdcop/algo.py:107-119 | The engine stores the predicate, the order and `max_cost`, and starts with `terminate` false and no solution. |
| Engine.SyncBB.Check | masdcop/algo.py:196-230 | `check` returns, counts and appends to `new_path` exactly what `Scan` says, leaving the bound and the previous path alone. |
| Engine.SyncBB.GetNext | masdcop/algo.py:176-194 | `getNext` leaves the agent in the state `Draw` describes and returns its value. |
| Engine.SyncBB.SendToNext | masdcop/algo.py:156-164 | `sendToNext` moves the order forward and sends `new_path` and the bound to the agent there, as `Forward` describes. |
| Engine.SyncBB.SendToPrevious | masdcop/algo.py:166-174 | `sendToPrevious` moves the order back and sends `previous_path` and the bound to the agent there, as `Backward` describes. |
| Engine.SyncBB.CostCandidates | masdcop/algo.py:135-146 | The last agent's loop leaves the agent, `sol` and the returned cost as `Sweep` describes from the first draw, and raises `terminate` exactly when `Sweep` succeeds. |
| Engine.SyncBB.SendMessage | masdcop/algo.py:133-154 | `sendMessage` leaves the agent, the order, the mailbox, `terminate` and `sol` as `SendMessageSpec` describes. |
| Engine.SyncBB.Receive | masdcop/algo.py:232-258 | `receive` leaves the agent as `ReceiveSpec` describes and reports the fault Python would raise. |
| Engine.SyncBB.Initiate | masdcop/algo.py:121-131 | `initiate` draws a first value and then sends, as `InitiateSpec` describes. |

## Left out

- The environment (`FourQueens` in masdcop/env.py) and its `check_constraints`, which uses a numpy grid and a side-effecting history. The predicate is a parameter of the engine.
- The `resolve` driver loop of masdcop/env.py. It has no termination measure. `MessageGoesToCurrentAgent` states the invariant it relies on: the order's cursor points at the agent holding the next message.
- proj/FourQueensSim.py, which is command-line parsing and printing only.
- The duplicate `PseudoTree` in masdcop/agent.py:102-131, a subset of the one in masdcop/algo.py, which is modelled once.
- The unused `token` message field. The dictionary-shaped message is a record of path and bound.
- `None` for the two paths is the empty path. Appending to `None` would fail in Python, but every append follows `getNext`'s reset of `new_path`.
- Engine.SyncBB.SendToNext: `list(agent.state.new_path)` (masdcop/algo.py:162) raises a TypeError while `new_path` is still `None`, and the model forwards the empty path instead. This happens to an agent that is not last, whose variable is the one masdcop/agent.py:91 builds and whose domain is empty. Its `next` leaves `d` as `None` (masdcop/agent.py:63-64), so `sendMessage` takes the has-a-value branch (masdcop/algo.py:134) and forwards before any `getNext` has set `new_path`. The same holds for `Engine.SyncBB.SendMessage` and `Engine.SyncBB.Initiate`, which reach `sendToNext` on that input.
- Aliasing of Python lists. The domain list shared with the constructor's caller, and `sol` sharing the list object of `new_path`, are values here. No later in-place update reaches a list `sol` holds.
- Engine.SyncBB.Check and Engine.SyncBB.GetNext are recursive methods, as in the source. Python's recursion limit is not modelled.
- Order.PseudoTree.Next: the IndexError from the last position is a precondition, not a modelled failure.
- Domain.Variable.Next: the IndexError with the cursor past the end of a shrunk domain is a precondition, not a modelled failure.
- Sentinel identity: a domain value equal to the string `"exhausted"` would be taken for the sentinel in Python. Here the sentinel is a separate tag.

## Findings

| source | as written | input that shows it | evidently intended | confidence | as-written member | corrected member |
|---|---|---|---|---|---|---|
| masdcop/agent.py:25-27, 98-99 | `receive` is a static method taking `cls` explicitly, and the agent calls it with the key alone; its body also subscripts the namedtuple class `Payload` instead of the table `_divs` | any receive by an agent, with or without a stored envelope | return the envelope stored under the key | high; not executed | Mailbox.ReceiveAsWritten, Mailbox.AsWrittenRoundTripFails | Mailbox.PigeonHole.Receive |
| masdcop/agent.py:21-23, 95-96 | `send` is a static method taking `cls` explicitly, and the agent calls it with three arguments | any send from an agent | store `Payload(sender, message)` in the shared table | high; not executed | Mailbox.SendAsCalled, Mailbox.AsWrittenRoundTripFails | Mailbox.PigeonHole.Send |
