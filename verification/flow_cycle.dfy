/**
 The cycle property of a chain built by `start` followed by `then`s: each
 completed firing moves the armed node one step along the chain, the last
 node hands back to the root, and a throwing callback leaves it in place.
 */
module FlowCycle {
  import opened Wrappers
  import opened EventFlow

  /** Node j links to node j + 1, the last node has a null `next`, and the
      root is node 0. */
  predicate IsLinearChain(f: Flow, k: nat)
  {
    && k > 0
    && |f.nodes| == k
    && f.root == Some(0)
    && (forall j :: 0 <= j < k - 1 ==> f.nodes[j].next == Some(j + 1))
    && f.nodes[k - 1].next == None
  }

  lemma SnocSplit(subs: seq<Subscriber>)
    requires |subs| > 0
    ensures subs[..|subs| - 1] + [subs[|subs| - 1]] == subs
  {
  }

  /** `start(subs[0]).then(subs[1])...then(subs[k-1])` on a fresh flow whose
      bus has the user subscribers `live` subscribed: a valid linear chain
      wrapping the subscribers in order, only the root armed, and none of the
      wrapped subscribers left live. */
  function Build(subs: seq<Subscriber>, live: set<Subscriber>): (r: (Flow, Builder))
    requires |subs| > 0
    ensures Valid(r.0) && IsLinearChain(r.0, |subs|)
    ensures r.1.prev == |subs| - 1
    ensures r.0.armed == {0}
    ensures forall j :: 0 <= j < |subs| ==> r.0.nodes[j].source == subs[j]
    ensures forall s :: s in r.0.live <==> s in live && s !in subs
    decreases |subs|
  {
    if |subs| == 1 then
      Start(NewFlow(live), subs[0]).value
    else
      var init, last := subs[..|subs| - 1], subs[|subs| - 1];
      SnocSplit(subs);
      var prefix := Build(init, live);
      var g, b := prefix.0, prefix.1;
      ThenExtendsChain(g, b, last, |init|);
      ThenExtendsBuild(g, b, last, init, live);
      Then(g, b, last)
  }

  /** One `then` after building `subs`: the new node wraps the new subscriber
      and it joins the released subscribers. */
  lemma ThenExtendsBuild(f: Flow, b: Builder, sub: Subscriber, subs: seq<Subscriber>, live: set<Subscriber>)
    requires Valid(f) && b.prev < |f.nodes| && |subs| == |f.nodes|
    requires forall j :: 0 <= j < |subs| ==> f.nodes[j].source == subs[j]
    requires forall s :: s in f.live <==> s in live && s !in subs
    ensures forall j :: 0 <= j < |subs| + 1 ==> Then(f, b, sub).0.nodes[j].source == (subs + [sub])[j]
    ensures forall s :: s in Then(f, b, sub).0.live <==> s in live && s !in subs + [sub]
  {
    assert (subs + [sub])[..|subs|] == subs;
  }

  /** `then` on the last node of a linear chain extends it by one node. */
  lemma ThenExtendsChain(f: Flow, b: Builder, sub: Subscriber, k: nat)
    requires Valid(f) && IsLinearChain(f, k) && b.prev == k - 1
    ensures IsLinearChain(Then(f, b, sub).0, k + 1)
  {
    var g := Then(f, b, sub).0;
    forall j | 0 <= j < k
      ensures g.nodes[j].next == Some(j + 1)
    {
      if j < k - 1 {
        assert g.nodes[j] == f.nodes[j];
      }
    }
  }

  /** The table maps `n` to the last position of `subs` whose name is `n`. */
  predicate LastNamed(names: map<string, nat>, subs: seq<Subscriber>)
  {
    && (forall j :: 0 <= j < |subs| ==> subs[j].name in names)
    && (forall n :: n in names ==>
          && names[n] < |subs|
          && subs[names[n]].name == n
          && (forall j :: names[n] < j < |subs| ==> subs[j].name != n))
  }

  /** `then` overwrites the entry of its subscriber's name, so the last
      subscriber of each name keeps winning. */
  lemma ThenKeepsLastNamed(f: Flow, b: Builder, sub: Subscriber, subs: seq<Subscriber>)
    requires Valid(f) && b.prev < |f.nodes| && |subs| == |f.nodes|
    requires LastNamed(f.names, subs)
    ensures LastNamed(Then(f, b, sub).0.names, subs + [sub])
  {
    var g := Then(f, b, sub).0;
    var s' := subs + [sub];
    forall n | n in g.names
      ensures g.names[n] < |s'| && s'[g.names[n]].name == n
      ensures forall j :: g.names[n] < j < |s'| ==> s'[j].name != n
    {
      if n != sub.name {
        assert g.names[n] == f.names[n];
      }
    }
    forall j | 0 <= j < |s'|
      ensures s'[j].name in g.names
    {
      if j < |subs| {
        assert s'[j] == subs[j];
      }
    }
  }

  /** After building, the table holds every subscriber's name, and maps it to
      the last subscriber of that name: `put` overwrites, so a later duplicate
      shadows an earlier one. */
  lemma {:induction false} BuildNames(subs: seq<Subscriber>, live: set<Subscriber>)
    requires |subs| > 0
    ensures LastNamed(Build(subs, live).0.names, subs)
    decreases |subs|
  {
    if |subs| > 1 {
      var init, last := subs[..|subs| - 1], subs[|subs| - 1];
      BuildNames(init, live);
      SnocSplit(subs);
      var p := Build(init, live);
      ThenKeepsLastNamed(p.0, p.1, last, init);
    }
  }

  /** The position after `a` in a cycle of length `k`. */
  function Wrap(a: nat, k: nat): nat
  {
    if a + 1 < k then a + 1 else 0
  }

  /** `n` steps along a cycle of length `k`, starting at `a`. */
  function Rotate(a: nat, n: nat, k: nat): nat
    decreases n
  {
    if n == 0 then a else Rotate(Wrap(a, k), n - 1, k)
  }

  /** How many of the callbacks returned normally. */
  function Completions(outcomes: seq<CallbackOutcome>): nat
  {
    if |outcomes| == 0 then 0
    else (if outcomes[0] == Returned then 1 else 0) + Completions(outcomes[1..])
  }

  function AllReturned(n: nat): (r: seq<CallbackOutcome>)
    ensures |r| == n && Completions(r) == n
  {
    if n == 0 then [] else [Returned] + AllReturned(n - 1)
  }

  /** In a linear chain the wrapper's successor is one step along the cycle. */
  lemma ChainSuccessor(f: Flow, k: nat, a: nat)
    requires Valid(f) && IsLinearChain(f, k) && a < k
    ensures Successor(f, a) == Wrap(a, k)
  {
  }

  /** Firing a linear chain with any mix of returning and throwing callbacks
      moves the armed node one step per returning callback and leaves the
      chain itself untouched. */
  lemma {:induction false} RunOnChain(f: Flow, k: nat, outcomes: seq<CallbackOutcome>)
    requires Valid(f) && IsLinearChain(f, k)
    ensures IsLinearChain(Run(f, outcomes), k)
    ensures Run(f, outcomes).armed == {Rotate(ArmedNode(f), Completions(outcomes), k)}
    decreases |outcomes|
  {
    var a := ArmedNode(f);
    if |outcomes| > 0 {
      var g := Fire(f, a, outcomes[0]);
      ChainSuccessor(f, k, a);
      RunOnChain(g, k, outcomes[1..]);
      var b := ArmedNode(g);
      if outcomes[0] == Returned {
        assert g.armed == {Wrap(a, k)};
        assert b in {Wrap(a, k)};
      } else {
        assert g.armed == {a};
        assert b in {a};
      }
    }
  }

  lemma {:induction false} RotateForward(a: nat, n: nat, k: nat)
    requires a + n < k
    ensures Rotate(a, n, k) == a + n
    decreases n
  {
    if n > 0 {
      RotateForward(a + 1, n - 1, k);
    }
  }

  lemma {:induction false} RotateToRoot(a: nat, k: nat)
    requires a < k
    ensures Rotate(a, k - a, k) == 0
    decreases k - a
  {
    if a + 1 < k {
      RotateToRoot(a + 1, k);
    }
  }

  lemma {:induction false} RotateAdd(a: nat, m: nat, n: nat, k: nat)
    ensures Rotate(a, m + n, k) == Rotate(Rotate(a, m, k), n, k)
    decreases m
  {
    if m > 0 {
      RotateAdd(Wrap(a, k), m - 1, n, k);
    }
  }

  /** `k` steps around a cycle of length `k` come back to where they began. */
  lemma RotatePeriod(a: nat, k: nat)
    requires a < k
    ensures Rotate(a, k, k) == a
  {
    RotateAdd(a, k - a, a, k);
    RotateToRoot(a, k);
    RotateForward(0, a, k);
  }

  /** For a chain of k nodes as `Build` leaves it (a linear chain with only
      the root armed): after j < k completed firings node j is the only armed
      node. */
  lemma ChainAdvance(f: Flow, k: nat, j: nat)
    requires Valid(f) && IsLinearChain(f, k) && f.armed == {0} && j < k
    ensures Run(f, AllReturned(j)).armed == {j}
  {
    RunOnChain(f, k, AllReturned(j));
    assert ArmedNode(f) == 0;
    RotateForward(0, j, k);
  }

  /** ... and after exactly k completed firings the root is again the only
      armed node. */
  lemma ChainReturnsToRoot(f: Flow, k: nat)
    requires Valid(f) && IsLinearChain(f, k) && f.armed == {0}
    ensures Run(f, AllReturned(k)).armed == {0}
  {
    RunOnChain(f, k, AllReturned(k));
    assert ArmedNode(f) == 0;
    RotateToRoot(0, k);
  }

  /** From any reachable state of a linear chain of k nodes, k completed
      firings return the armed node to where it was. */
  lemma FullTurn(f: Flow, k: nat)
    requires Valid(f) && IsLinearChain(f, k)
    ensures Run(f, AllReturned(k)).armed == f.armed
  {
    RunOnChain(f, k, AllReturned(k));
    RotatePeriod(ArmedNode(f), k);
  }
}
