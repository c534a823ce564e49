# Event flow chain — a Dafny model

This project models `EventFlow`, the robot code's chain of one-shot event-bus
subscriptions. `start(sub)` wraps a subscriber in a root node and arms it.
Each `then(sub)` appends an unarmed node after the previous one. When the
armed node's event fires, its wrapper callback runs the user's callback,
disarms the node and arms the node's `next`. If `next` is null it arms the
root instead, so the chain is cyclic. `BranchNode.getNext` picks between two
successors with a condition.

The model is functional:

- `EventFlow.Flow` holds the node arena (`seq<Node>`, with `next` as an index),
  the by-name table (`map<string, nat>`) and the root index.
- It also holds the part of the event bus the flow touches: `armed` is the set
  of nodes whose wrapper subscriber is subscribed, and `live` is the set of
  user subscribers that are subscribed.
- `Start`, `Then` and `Fire` are pure functions over it. `Run` fires whichever node is armed once per callback outcome, in order.
- `Valid` is the reachable-state invariant. It includes "exactly one node
  armed once started".
- `FlowCycle` proves the cycle property for a chain built by `start` and
  `then`s: after j < k completed firings node j is the armed node, and after k
  firings the root is. Throwing callbacks do not advance the chain.
- `Branching` models `BranchNode` on its own.

Files: `wrappers.dfy` (Option/Result), `event_flow.dfy`, `flow_cycle.dfy`,
`branch_node.dfy`.

Points where the Java behaves differently from what a reader might expect:

- The wrapper (EventFlow.java:67-72) has no `try`/`finally`, so a throwing
  callback leaves the node armed and the chain where it was. `Fire` with
  outcome `Threw` models exactly that.
- The wrapper reads the field `next` (line 70), not `getNext()`, and
  `BranchNode` is never constructed, so branching never affects advancement.
  `Successor` uses `next`, and `Branching` stands apart.
- The name table (line 12) is never assigned, so as written `start` throws
  a `NullPointerException` at line 23. The model uses the evident intent, an
  empty table (`NewFlow`). See Findings.

## Model

| member | source | states |
|---|---|---|
| EventFlow.NewFlow | TeamCode/src/main/java/org/firstinspires/ftc/teamcode/util/event/EventFlow.java:12-19 | a new flow (table initialised empty, the evident intent) satisfies the invariant, with no nodes, no armed node and the bus's user subscribers unchanged |
| EventFlow.StartGuardAsWritten | TeamCode/src/main/java/org/firstinspires/ftc/teamcode/util/event/EventFlow.java:23 | the `isEmpty` guard as written throws a null-pointer error exactly when the table reference is null, and lets `start` proceed exactly when the table exists and is empty |
| EventFlow.StartOnFreshFlowThrowsAsWritten | TeamCode/src/main/java/org/firstinspires/ftc/teamcode/util/event/EventFlow.java:16-23 | with the table the constructor leaves (never assigned), `start` always throws a null-pointer error |
| EventFlow.StartOnFreshFlowSucceeds | TeamCode/src/main/java/org/firstinspires/ftc/teamcode/util/event/EventFlow.java:21-33 | with the table initialised empty, `start` on a fresh flow succeeds and arms only the root |
| EventFlow.NewNode | TeamCode/src/main/java/org/firstinspires/ftc/teamcode/util/event/EventFlow.java:64-75 | a new node wraps the given subscriber, takes its name, and has a null `next` |
| EventFlow.Arm | TeamCode/src/main/java/org/firstinspires/ftc/teamcode/util/event/EventFlow.java:77-80 | subscribing a node makes it armed and changes no other node's armed state, nor the chain, table or user subscribers |
| EventFlow.Disarm | TeamCode/src/main/java/org/firstinspires/ftc/teamcode/util/event/EventFlow.java:82-85 | unsubscribing a node makes it unarmed and changes nothing else; unsubscribing an unarmed node is a no-op |
| EventFlow.Release | TeamCode/src/main/java/org/firstinspires/ftc/teamcode/util/event/EventFlow.java:24-28 | the duplicate guard leaves the given user subscriber not live and every other subscriber's liveness unchanged |
| EventFlow.Start | TeamCode/src/main/java/org/firstinspires/ftc/teamcode/util/event/EventFlow.java:21-33 | fails with an illegal-state error exactly when the table is non-empty; otherwise yields a valid flow whose only node is the wrapped root, whose table holds exactly the root's name, whose only armed node is the root, and in which the root's user subscriber is no longer live |
| EventFlow.NoRestart | TeamCode/src/main/java/org/firstinspires/ftc/teamcode/util/event/EventFlow.java:23 | once any node exists, `start` always fails with an illegal-state error |
| EventFlow.Then | TeamCode/src/main/java/org/firstinspires/ftc/teamcode/util/event/EventFlow.java:44-55 | appends a fresh unlinked node, links the previous node's `next` to it and leaves every other node as it was, records it under its name (overwriting a duplicate name, other entries unchanged), leaves the armed set and root unchanged, and leaves the new subscriber not live; the result satisfies the invariant |
| EventFlow.GetNext | TeamCode/src/main/java/org/firstinspires/ftc/teamcode/util/event/EventFlow.java:87-90 | `getNext` returns the node's `next` link; the wrapper never calls it |
| EventFlow.Successor | TeamCode/src/main/java/org/firstinspires/ftc/teamcode/util/event/EventFlow.java:70-71 | the node the wrapper subscribes after a completed callback: the node's `next` when it is set, otherwise the root; always a node of the flow |
| EventFlow.Fire | TeamCode/src/main/java/org/firstinspires/ftc/teamcode/util/event/EventFlow.java:66-72 | firing the armed node with a returning callback leaves exactly its `next` armed, or the root when `next` is null; with a throwing callback the same node stays armed; the chain, table and user subscribers are unchanged and "exactly one armed" is preserved |
| EventFlow.Run | TeamCode/src/main/java/org/firstinspires/ftc/teamcode/util/event/EventFlow.java:66-72 | delivering a sequence of events to a started flow keeps it valid, leaves the chain, table, root and user subscribers unchanged, and keeps exactly one node armed after every delivery |
| FlowCycle.Build | TeamCode/src/main/java/org/firstinspires/ftc/teamcode/util/event/EventFlow.java:21-55 | `start` followed by `then`s on the latest handle yields a valid linear chain (node j links to j + 1, the last has a null `next`, the root is node 0) wrapping the subscribers in order, with only the root armed, none of the wrapped user subscribers live and every other subscriber's liveness as before |
| FlowCycle.ThenExtendsChain | TeamCode/src/main/java/org/firstinspires/ftc/teamcode/util/event/EventFlow.java:44-55 | `then` on the handle of the last node of a linear chain of k nodes yields a linear chain of k + 1 nodes |
| FlowCycle.BuildNames | TeamCode/src/main/java/org/firstinspires/ftc/teamcode/util/event/EventFlow.java:29-54 | after building, every subscriber's name is in the table, and each name maps to the last subscriber carrying it: `put` overwrites, so a later duplicate shadows an earlier one |
| FlowCycle.RunOnChain | TeamCode/src/main/java/org/firstinspires/ftc/teamcode/util/event/EventFlow.java:66-72 | on a linear chain of k nodes, any sequence of firings moves the armed node one step around the k-cycle per returning callback and none per throwing one, and leaves the chain intact |
| FlowCycle.ChainAdvance | TeamCode/src/main/java/org/firstinspires/ftc/teamcode/util/event/EventFlow.java:51-72 | for a linear chain of k nodes with only the root armed (the state `Build` produces), after j < k completed firings node j is the only armed node |
| FlowCycle.ChainReturnsToRoot | TeamCode/src/main/java/org/firstinspires/ftc/teamcode/util/event/EventFlow.java:66-72 | for a linear chain of k nodes with only the root armed, after exactly k completed firings the root is again the only armed node, the last node handing back to the root because its `next` is null |
| FlowCycle.FullTurn | TeamCode/src/main/java/org/firstinspires/ftc/teamcode/util/event/EventFlow.java:66-72 | from any state of a k-node linear chain, k completed firings return the armed node to where it was |
| Branching.NewBranchNode | TeamCode/src/main/java/org/firstinspires/ftc/teamcode/util/event/EventFlow.java:100-109 | a new branch node is a plain new node plus the given condition, with `branch` null |
| Branching.BranchGetNext | TeamCode/src/main/java/org/firstinspires/ftc/teamcode/util/event/EventFlow.java:111-116 | `getNext` returns one of the two successors, and when they differ it returns `branch` exactly when the condition holds in the current state |
| Branching.FreshEvaluation | TeamCode/src/main/java/org/firstinspires/ftc/teamcode/util/event/EventFlow.java:111-116 | the condition is re-evaluated on each call: in a state where it holds the branch is chosen, in one where it does not `next` is, so the two calls differ |
| Branching.NeverBranchingIsPlain | TeamCode/src/main/java/org/firstinspires/ftc/teamcode/util/event/EventFlow.java:87-116 | a condition that never holds makes the branch node's `getNext` agree with the plain node's |
| Branching.NewBranchNodeHasNoSuccessor | TeamCode/src/main/java/org/firstinspires/ftc/teamcode/util/event/EventFlow.java:100-116 | a freshly constructed branch node answers null in every state, since nothing assigns `branch` or `next` |

## Left out

- The event bus internals (`EventBus.java` is not part of this model): buckets, event-class and channel matching, dispatch order and snapshots. The bus is reduced to the armed set and the live set. Which event fires which node is therefore not modelled. `Fire` requires the node to be armed, because the bus only delivers to subscribed subscribers.
- The scheduler (`Scheduler.java` is not part of this model) and the op-mode glue in `CurrentTele.java` (hardware, gamepads, telemetry, web host, native-library loading).
- The user callbacks' effects. A callback is an opaque step that either returns or throws. The model assumes it does not touch the flow, and in particular does not unsubscribe the wrapper through the subscriber handle it is passed.
- Where a throwing callback's exception goes once it leaves the wrapper. It belongs to the bus, which is not part of this model.
- The `WeakReference` and garbage-collection semantics of the name table. It is a plain name-to-index map.
- Logging (lines 26 and 48).
- `NodeBuilder` handles reused after a later `then`. `Then` accepts any handle whose node exists, but the cycle lemmas cover only the chain built on the latest handle.

## Findings

| source | as written | input that shows it | evidently intended | confidence | as-written member | corrected member |
|---|---|---|---|---|---|---|
| TeamCode/src/main/java/org/firstinspires/ftc/teamcode/util/event/EventFlow.java:12-23 | the `nodes` table is declared but never assigned, so `start` calls `isEmpty()` on null | any `new EventFlow(bus).start(sub)` | the table starts out empty, so the first `start` succeeds | high; not executed | EventFlow.StartOnFreshFlowThrowsAsWritten | EventFlow.StartOnFreshFlowSucceeds |
