/**
 A model of the event-flow chain: a cyclic sequence of one-shot bus
 subscriptions in which firing the armed node disarms it and arms its
 successor (or the root when it has none).

 Nodes live in an arena (`seq<Node>`) and refer to each other by index.
 The event bus is abstracted to what the flow can observe of it: the set of
 armed node indices (the nodes' own wrapper subscriptions) and the set of
 user subscribers that are currently live.
 */
module EventFlow {
  import opened Wrappers

  /** A user-supplied subscriber: its object identity, the event class and
      channel it listens on, and its name. */
  datatype Subscriber = Subscriber(id: nat, evClass: string, name: string, channel: int)

  /** One link of the chain. `source` is the user's subscriber; the node's own
      bus registration is a wrapper with the same event class, name and channel,
      identified on the bus by the node's arena index. `None` is a null `next`. */
  datatype Node = Node(source: Subscriber, name: string, next: Option<nat>)

  /** The flow together with the part of the bus it touches. */
  datatype Flow = Flow(
    nodes: seq<Node>,             // the arena; index 0 is the root once started
    names: map<string, nat>,      // the by-name table
    root: Option<nat>,            // `rootNode`, null until `start`
    armed: set<nat>,              // nodes whose wrapper is subscribed
    live: set<Subscriber>         // user subscribers that are subscribed
  )

  /** `NodeBuilder`: the handle `start` and `then` return, naming the last node. */
  datatype Builder = Builder(prev: nat)

  datatype FlowError = IllegalState | NullPointer

  /** How the user's callback ended: the wrapper has no `finally`, so a throw
      skips everything after it. */
  datatype CallbackOutcome = Returned | Threw

  // ---------------------------------------------------------------------------
  // Invariant
  // ---------------------------------------------------------------------------

  predicate LinksInRange(f: Flow)
  {
    forall i :: 0 <= i < |f.nodes| && f.nodes[i].next.Some? ==> f.nodes[i].next.value < |f.nodes|
  }

  /** Every entry of the table names a node carrying that name, and every node's
      name is in the table (a later node of the same name shadows an earlier one). */
  predicate NamesAgree(f: Flow)
  {
    && (forall n :: n in f.names ==> f.names[n] < |f.nodes| && f.nodes[f.names[n]].name == n)
    && (forall i :: 0 <= i < |f.nodes| ==> f.nodes[i].name in f.names)
  }

  predicate NodesNamedAfterSource(f: Flow)
  {
    forall i :: 0 <= i < |f.nodes| ==> f.nodes[i].name == f.nodes[i].source.name
  }

  /** The reachable states: well-formed links and table, a root exactly when
      the chain is non-empty, and exactly one armed node once started. */
  predicate Valid(f: Flow)
  {
    && LinksInRange(f)
    && NamesAgree(f)
    && NodesNamedAfterSource(f)
    && (f.root.Some? <==> |f.nodes| > 0)
    && (f.root.Some? ==> f.root.value < |f.nodes|)
    && (forall i :: i in f.armed ==> i < |f.nodes|)
    && (|f.nodes| > 0 ==> |f.armed| == 1)
  }

  lemma SingletonMember(s: set<nat>, i: nat)
    requires |s| == 1 && i in s
    ensures s == {i}
  {
    assert |s - {i}| == 0;
  }

  lemma EmptyTableMeansEmptyArena(f: Flow)
    requires Valid(f)
    ensures |f.names| == 0 ==> |f.nodes| == 0
  {
    if |f.nodes| > 0 {
      assert f.nodes[0].name in f.names;
    }
  }

  lemma ArmedIsNotEmpty(f: Flow)
    requires Valid(f) && |f.nodes| > 0
    ensures exists j :: 0 <= j < |f.nodes| && j in f.armed
  {
  }

  // ---------------------------------------------------------------------------
  // Construction
  // ---------------------------------------------------------------------------

  /** `new EventFlow(bus)`, with the node table as evidently intended: empty.
      As written the constructor never assigns the table at all; see
      `StartGuardAsWritten`. `live` is the bus's current set of live user
      subscribers. */
  function NewFlow(live: set<Subscriber>): (f: Flow)
    ensures Valid(f)
    ensures |f.names| == 0 && |f.nodes| == 0 && f.armed == {} && f.live == live
  {
    Flow([], map[], None, {}, live)
  }

  /** The node table as the constructor actually leaves it. */
  datatype TableRef = Null | Table(entries: map<string, nat>)

  function ConstructedTableAsWritten(): TableRef
  {
    Null
  }

  /** The guard at the head of `start`, as written: `nodes.isEmpty()` on a
      reference that may be null. */
  function StartGuardAsWritten(t: TableRef): (r: Result<(), FlowError>)
    ensures t.Null? <==> r == Err(NullPointer)
    ensures r.Ok? <==> t.Table? && |t.entries| == 0
  {
    match t
    case Null => Err(NullPointer)
    case Table(m) => if |m| > 0 then Err(IllegalState) else Ok(())
  }

  /** As written, `start` on a freshly constructed flow always throws. */
  lemma StartOnFreshFlowThrowsAsWritten()
    ensures StartGuardAsWritten(ConstructedTableAsWritten()) == Err(NullPointer)
  {
  }

  /** With the table initialised empty, `start` on a fresh flow succeeds. */
  lemma StartOnFreshFlowSucceeds(live: set<Subscriber>, rootSub: Subscriber)
    ensures Start(NewFlow(live), rootSub).Ok?
    ensures Start(NewFlow(live), rootSub).value.0.armed == {0}
  {
  }

  /** The `Node` constructor: the user's subscriber is wrapped, the node takes
      its name, and `next` starts out null. */
  function NewNode(sub: Subscriber): (n: Node)
    ensures n.source == sub && n.name == sub.name && n.next == None
  {
    Node(sub, sub.name, None)
  }

  /** `Node.getNext`: the node's `next` link. The wrapper callback never
      calls it; it reads the field directly (see `Successor`). */
  function GetNext(n: Node): (r: Option<nat>)
    ensures r == n.next
  {
    n.next
  }

  // ---------------------------------------------------------------------------
  // The bus, as the flow sees it
  // ---------------------------------------------------------------------------

  /** `Node.subscribe`: the node's wrapper joins the bus. */
  function Arm(f: Flow, i: nat): (r: Flow)
    ensures i in r.armed && r.armed - {i} == f.armed - {i}
    ensures r.nodes == f.nodes && r.names == f.names && r.root == f.root && r.live == f.live
  {
    f.(armed := f.armed + {i})
  }

  /** `Node.unsubscribe`: the node's wrapper leaves the bus; a no-op when it
      is not subscribed. */
  function Disarm(f: Flow, i: nat): (r: Flow)
    ensures i !in r.armed && r.armed + {i} == f.armed + {i}
    ensures i !in f.armed ==> r == f
    ensures r.nodes == f.nodes && r.names == f.names && r.root == f.root && r.live == f.live
  {
    f.(armed := f.armed - {i})
  }

  /** The duplicate guard of `start` and `then`: a live user subscriber is
      unsubscribed before it is wrapped; nothing else on the bus changes. */
  function Release(live: set<Subscriber>, sub: Subscriber): (r: set<Subscriber>)
    ensures sub !in r
    ensures forall s :: s != sub ==> (s in r <==> s in live)
  {
    if sub in live then live - {sub} else live
  }

  // ---------------------------------------------------------------------------
  // Building
  // ---------------------------------------------------------------------------

  /** `EventFlow.start`: refuses a flow whose table is non-empty; otherwise
      wraps the root subscriber, arms it and records it under its name. */
  function Start(f: Flow, rootSub: Subscriber): (r: Result<(Flow, Builder), FlowError>)
    requires Valid(f)
    ensures r.Err? <==> |f.names| > 0
    ensures r.Err? ==> r.error == IllegalState
    ensures r.Ok? ==>
      var (g, b) := r.value;
      && Valid(g)
      && g.nodes == [NewNode(rootSub)]
      && g.names == map[rootSub.name := 0]
      && g.root == Some(0)
      && g.armed == {0}
      && b.prev == 0
      && g.live == f.live - {rootSub}
  {
    EmptyTableMeansEmptyArena(f);
    if |f.names| > 0 then Err(IllegalState)
    else
      var k := |f.nodes|;
      var g := Flow(f.nodes + [NewNode(rootSub)], f.names, Some(k), f.armed, Release(f.live, rootSub));
      var g := Arm(g, k);
      var g := g.(names := g.names[rootSub.name := k]);
      Ok((g, Builder(k)))
  }

  /** `NodeBuilder.then`: appends an unarmed node after `b.prev` and records
      it under its name, overwriting any earlier entry of that name. */
  function Then(f: Flow, b: Builder, sub: Subscriber): (r: (Flow, Builder))
    requires Valid(f) && b.prev < |f.nodes|
    ensures var (g, c) := r;
      && Valid(g)
      && |g.nodes| == |f.nodes| + 1
      && c.prev == |f.nodes|
      && g.nodes[c.prev] == NewNode(sub)
      && g.nodes[b.prev] == f.nodes[b.prev].(next := Some(c.prev))
      && (forall i :: 0 <= i < |f.nodes| && i != b.prev ==> g.nodes[i] == f.nodes[i])
      && (forall i :: 0 <= i < |f.nodes| ==> g.nodes[i].source == f.nodes[i].source)
      && g.names.Keys == f.names.Keys + {sub.name}
      && g.names[sub.name] == c.prev
      && (forall n :: n in f.names && n != sub.name ==> g.names[n] == f.names[n])
      && g.armed == f.armed
      && g.root == f.root
      && g.live == f.live - {sub}
  {
    var k := |f.nodes|;
    var nodes := f.nodes + [NewNode(sub)];
    var g := Flow(nodes, f.names[sub.name := k], f.root, f.armed, Release(f.live, sub));
    var g := g.(nodes := g.nodes[b.prev := g.nodes[b.prev].(next := Some(k))]);
    AppendPreservesValid(f, g, b.prev, sub);
    (g, Builder(k))
  }

  /** Appending a fresh node, linking node `p` to it and recording its name
      keeps the invariant. */
  lemma AppendPreservesValid(f: Flow, g: Flow, p: nat, sub: Subscriber)
    requires Valid(f) && p < |f.nodes|
    requires g.nodes == (f.nodes + [NewNode(sub)])[p := f.nodes[p].(next := Some(|f.nodes|))]
    requires g.names == f.names[sub.name := |f.nodes|]
    requires g.root == f.root && g.armed == f.armed
    ensures Valid(g)
  {
    var k := |f.nodes|;
    assert |g.nodes| == k + 1;
    assert forall i :: 0 <= i < k ==> g.nodes[i].name == f.nodes[i].name && g.nodes[i].source == f.nodes[i].source;
    assert g.nodes[k] == NewNode(sub);
    forall i | 0 <= i < k + 1 && g.nodes[i].next.Some?
      ensures g.nodes[i].next.value < k + 1
    {
      if i < k && i != p {
        assert g.nodes[i] == f.nodes[i];
      }
    }
    forall n | n in g.names
      ensures g.names[n] < k + 1 && g.nodes[g.names[n]].name == n
    {
      if n != sub.name {
        assert g.names[n] == f.names[n];
      }
    }
    assert LinksInRange(g);
    assert NamesAgree(g);
  }

  /** Starting a flow that already has nodes always fails. */
  lemma NoRestart(f: Flow, sub: Subscriber)
    requires Valid(f) && |f.nodes| > 0
    ensures Start(f, sub) == Err(IllegalState)
  {
  }

  // ---------------------------------------------------------------------------
  // Firing
  // ---------------------------------------------------------------------------

  /** The node the wrapper arms after node `i`: the field `next` itself (not
      `getNext()`), or the root when it is null. */
  function Successor(f: Flow, i: nat): (s: nat)
    requires Valid(f) && i < |f.nodes|
    ensures s < |f.nodes|
    ensures f.nodes[i].next.Some? ==> s == f.nodes[i].next.value
    ensures f.nodes[i].next.None? ==> f.root == Some(s)
  {
    match f.nodes[i].next
    case Some(n) => n
    case None => f.root.value
  }

  /** Node `i`'s wrapper callback, delivered by the bus while `i` is armed:
      run the user callback, then disarm `i` and arm its successor. A throwing
      user callback leaves the flow as it was. */
  function Fire(f: Flow, i: nat, outcome: CallbackOutcome): (r: Flow)
    requires Valid(f) && i in f.armed
    ensures Valid(r)
    ensures r.nodes == f.nodes && r.names == f.names && r.root == f.root && r.live == f.live
    ensures outcome == Returned ==> r.armed == {Successor(f, i)}
    ensures outcome == Threw ==> r.armed == {i}
  {
    SingletonMember(f.armed, i);
    match outcome
    case Threw => f
    case Returned => Arm(Disarm(f, i), Successor(f, i))
  }

  function FirstArmedFrom(armed: set<nat>, from: nat, bound: nat): (i: nat)
    requires exists j :: from <= j < bound && j in armed
    ensures from <= i < bound && i in armed
    ensures forall j :: from <= j < i ==> j !in armed
    decreases bound - from
  {
    if from in armed then from else FirstArmedFrom(armed, from + 1, bound)
  }

  /** The node that the next event will fire. */
  function ArmedNode(f: Flow): (i: nat)
    requires Valid(f) && |f.nodes| > 0
    ensures i < |f.nodes| && f.armed == {i}
  {
    ArmedIsNotEmpty(f);
    var i := FirstArmedFrom(f.armed, 0, |f.nodes|);
    SingletonMember(f.armed, i);
    i
  }

  /** Fire the armed node once per outcome, in order. */
  function Run(f: Flow, outcomes: seq<CallbackOutcome>): (r: Flow)
    requires Valid(f) && |f.nodes| > 0
    ensures Valid(r)
    ensures r.nodes == f.nodes && r.names == f.names && r.root == f.root && r.live == f.live
    ensures |r.armed| == 1
    decreases |outcomes|
  {
    if |outcomes| == 0 then f
    else Run(Fire(f, ArmedNode(f), outcomes[0]), outcomes[1..])
  }
}
