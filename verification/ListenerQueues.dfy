/** The hand-off of requests between connections and waiting callers (Mono.HttpListener/HttpListener.cs): two
    queues under locks. Every lock region is one atomic step; between them anything may happen. Contexts
    and asynchronous results are objects told apart by number. */
module ListenerQueues {
  import opened Bytes

  type Ctx = nat
  type Waiter = nat

  // ----- lists

  /** IndexOf and RemoveAt: the first occurrence goes, if there is one. */
  function Without(s: seq<nat>, x: nat): (r: seq<nat>)
    ensures x !in s ==> r == s
  {
    if s == [] then [] else if s[0] == x then s[1..] else [s[0]] + Without(s[1..], x)
  }

  ghost predicate NoRepeats(s: seq<nat>) {
    forall i, j :: 0 <= i < j < |s| ==> s[i] != s[j]
  }

  lemma {:induction false} WithoutIs(s: seq<nat>, x: nat)
    requires NoRepeats(s)
    ensures NoRepeats(Without(s, x)) && forall y :: y in Without(s, x) <==> y in s && y != x
    decreases |s|
  {
    if s != [] {
      var rest := s[1..];
      WithoutIs(rest, x);
      assert forall y :: y in s <==> y == s[0] || y in rest;
      assert s[0] !in rest;
      if s[0] != x {
        var r := Without(s, x);
        assert r == [s[0]] + Without(rest, x);
        assert forall y :: y in r <==> y == s[0] || y in Without(rest, x);
      }
    }
  }

  lemma EndIsNew(s: seq<nat>, x: nat)
    requires NoRepeats(s) && x !in s
    ensures NoRepeats(s + [x]) && forall y :: y in s + [x] <==> y in s || y == x
  {}

  lemma FrontIs(s: seq<nat>)
    requires NoRepeats(s) && s != []
    ensures NoRepeats(s[1..]) && forall y :: y in s[1..] <==> y in s && y != s[0]
  {}

  // ----- the steps

  /** The queues, with what the threads are at: contexts between the two regions of RegisterContext, contexts between
      those of UnregisterContext, who was given which context and which of those calls have completed. */
  datatype Listener = Listener(
    registry: set<Ctx>, ctxQueue: seq<Ctx>, waitQueue: seq<Waiter>,
    entering: set<Ctx>, leaving: set<Ctx>, given: map<Waiter, Ctx>, completed: set<Waiter>,
    seen: set<Ctx>, unregistered: set<Ctx>, dropped: set<Ctx>, begun: set<Waiter>)

  const IDLE: Listener := Listener({}, [], [], {}, {}, map[], {}, {}, {}, {}, {})

  datatype Step =
    | Enter(c: Ctx)
    | Queue(c: Ctx)
    | Complete(w: Waiter)
    | Begin(w: Waiter)
    | End(w: Waiter)
    | Leave(c: Ctx)
    | Unqueue(c: Ctx)

  /** A context is registered once, a result made once; the second region of a call follows its first; EndGetContext
      goes on when its result is completed. */
  predicate Enabled(l: Listener, s: Step) {
    match s
    case Enter(c) => c !in l.seen
    case Queue(c) => c in l.entering
    case Complete(w) => w in l.given && w !in l.completed
    case Begin(w) => w !in l.begun
    case End(w) => w in l.completed
    case Leave(c) => true
    case Unqueue(c) => c in l.leaving
  }

  function Next(l: Listener, s: Step): Listener {
    match s
    case Enter(c) => l.(registry := l.registry + {c}, entering := l.entering + {c}, seen := l.seen + {c})
    case Queue(c) =>
      if l.waitQueue == [] then l.(ctxQueue := l.ctxQueue + [c], entering := l.entering - {c})
      else l.(waitQueue := l.waitQueue[1..], given := l.given[l.waitQueue[0] := c], entering := l.entering - {c})
    case Complete(w) => l.(completed := l.completed + {w})
    case Begin(w) =>
      if l.ctxQueue == [] then l.(waitQueue := l.waitQueue + [w], begun := l.begun + {w})
      else l.(ctxQueue := l.ctxQueue[1..], given := l.given[w := l.ctxQueue[0]],
              completed := l.completed + {w}, begun := l.begun + {w})
    case End(w) => l.(waitQueue := Without(l.waitQueue, w))
    case Leave(c) => l.(registry := l.registry - {c}, leaving := l.leaving + {c}, unregistered := l.unregistered + {c})
    case Unqueue(c) =>
      l.(ctxQueue := Without(l.ctxQueue, c), leaving := l.leaving - {c},
         dropped := if c in l.ctxQueue then l.dropped + {c} else l.dropped)
  }

  // ----- safety

  ghost predicate Given(l: Listener, c: Ctx) {
    exists w :: w in l.given && l.given[w] == c
  }

  /** Every context is in one place: on its way in, queued, with one caller, or taken out again. */
  ghost predicate InOnePlace(l: Listener, c: Ctx) {
    && (c in l.entering || c in l.ctxQueue || Given(l, c) || c in l.dropped)
    && !(c in l.entering && (c in l.ctxQueue || Given(l, c) || c in l.dropped))
    && !(c in l.ctxQueue && (Given(l, c) || c in l.dropped))
    && !(Given(l, c) && c in l.dropped)
  }

  ghost predicate Safe(l: Listener) {
    && (l.waitQueue == [] || l.ctxQueue == [])
    && NoRepeats(l.ctxQueue) && NoRepeats(l.waitQueue)
    && (forall c :: c in l.seen ==> InOnePlace(l, c))
    && (forall c :: c in l.entering || c in l.ctxQueue || c in l.dropped ==> c in l.seen)
    && (forall w :: w in l.given ==> l.given[w] in l.seen && w in l.begun && w !in l.waitQueue)
    && (forall w, v :: w in l.given && v in l.given && l.given[w] == l.given[v] ==> w == v)
    && (forall w :: w in l.waitQueue ==> w in l.begun)
    && l.completed <= l.given.Keys
    && l.dropped <= l.unregistered && l.leaving <= l.unregistered
    && l.seen - l.unregistered <= l.registry
  }

  lemma IdleIsSafe()
    ensures Safe(IDLE)
  {}

  /** Who has a context after w is given c. */
  lemma GivenAfter(l: Listener, l': Listener, w: Waiter, c: Ctx, d: Ctx)
    requires l'.given == l.given[w := c] && w !in l.given
    ensures Given(l', d) <==> Given(l, d) || d == c
  {
    if d == c {
      assert w in l'.given && l'.given[w] == d;
    } else if Given(l, d) {
      var v :| v in l.given && l.given[v] == d;
      assert v in l'.given && l'.given[v] == d;
    }
  }

  lemma EnterIsSafe(l: Listener, c: Ctx)
    requires Safe(l) && Enabled(l, Enter(c))
    ensures Safe(Next(l, Enter(c)))
  {
    var l' := Next(l, Enter(c));
    assert !Given(l', c);
    forall d | d in l'.seen ensures InOnePlace(l', d) {
      assert Given(l, d) <==> Given(l', d);
    }
  }

  lemma QueueIsSafe(l: Listener, c: Ctx)
    requires Safe(l) && Enabled(l, Queue(c))
    ensures Safe(Next(l, Queue(c)))
  {
    var l' := Next(l, Queue(c));
    assert c in l.seen && InOnePlace(l, c);
    if l.waitQueue == [] {
      EndIsNew(l.ctxQueue, c);
      forall d | d in l'.seen ensures InOnePlace(l', d) {
        assert InOnePlace(l, d) && (Given(l, d) <==> Given(l', d));
      }
    } else {
      var w := l.waitQueue[0];
      assert w in l.waitQueue;
      FrontIs(l.waitQueue);
      forall d | d in l'.seen ensures InOnePlace(l', d) {
        assert InOnePlace(l, d);
        GivenAfter(l, l', w, c, d);
      }
      forall v, u | v in l'.given && u in l'.given && l'.given[v] == l'.given[u] ensures v == u {
        assert v != w && l.given[v] == c ==> Given(l, c);
        assert u != w && l.given[u] == c ==> Given(l, c);
      }
    }
  }

  lemma BeginIsSafe(l: Listener, w: Waiter)
    requires Safe(l) && Enabled(l, Begin(w))
    ensures Safe(Next(l, Begin(w)))
  {
    var l' := Next(l, Begin(w));
    if l.ctxQueue == [] {
      EndIsNew(l.waitQueue, w);
      forall d | d in l'.seen ensures InOnePlace(l', d) {
        assert InOnePlace(l, d) && (Given(l, d) <==> Given(l', d));
      }
    } else {
      var c := l.ctxQueue[0];
      assert c in l.ctxQueue && InOnePlace(l, c);
      FrontIs(l.ctxQueue);
      forall d | d in l'.seen ensures InOnePlace(l', d) {
        assert InOnePlace(l, d);
        GivenAfter(l, l', w, c, d);
      }
      forall v, u | v in l'.given && u in l'.given && l'.given[v] == l'.given[u] ensures v == u {
        assert v != w && l.given[v] == c ==> Given(l, c);
        assert u != w && l.given[u] == c ==> Given(l, c);
      }
    }
  }

  lemma UnqueueIsSafe(l: Listener, c: Ctx)
    requires Safe(l) && Enabled(l, Unqueue(c))
    ensures Safe(Next(l, Unqueue(c)))
  {
    var l' := Next(l, Unqueue(c));
    WithoutIs(l.ctxQueue, c);
    forall d | d in l'.seen ensures InOnePlace(l', d) {
      assert InOnePlace(l, d) && (Given(l, d) <==> Given(l', d));
    }
  }

  lemma NextIsSafe(l: Listener, s: Step)
    requires Safe(l) && Enabled(l, s)
    ensures Safe(Next(l, s))
  {
    var l' := Next(l, s);
    match s
    case Enter(c) => EnterIsSafe(l, c);
    case Queue(c) => QueueIsSafe(l, c);
    case Begin(w) => BeginIsSafe(l, w);
    case Unqueue(c) => UnqueueIsSafe(l, c);
    case _ =>
      forall d | d in l'.seen ensures InOnePlace(l', d) {
        assert InOnePlace(l, d) && (Given(l, d) <==> Given(l', d));
      }
  }

  ghost predicate Run(states: seq<Listener>, steps: seq<Step>) {
    && |states| == |steps| + 1 && states[0] == IDLE
    && forall i :: 0 <= i < |steps| ==> Enabled(states[i], steps[i]) && states[i + 1] == Next(states[i], steps[i])
  }

  lemma {:induction false} RunsAreSafe(states: seq<Listener>, steps: seq<Step>, i: nat)
    requires Run(states, steps) && i < |states|
    ensures Safe(states[i])
  {
    hide Safe, Enabled, Next;
    if i == 0 {
      IdleIsSafe();
    } else {
      RunsAreSafe(states, steps, i - 1);
      NextIsSafe(states[i - 1], steps[i - 1]);
    }
  }

  /** In every reachable state: callers wait only while no context does; no context reaches two callers; and a context
      that was registered and never unregistered is on its way in, queued, or with a caller. */
  lemma NothingLostOrDoubled(states: seq<Listener>, steps: seq<Step>, i: nat, c: Ctx)
    requires Run(states, steps) && i < |states|
    ensures var l := states[i];
            && (l.waitQueue == [] || l.ctxQueue == [])
            && (forall w, v :: w in l.given && v in l.given && l.given[w] == c && l.given[v] == c ==> w == v)
            && (c in l.seen && c !in l.unregistered ==> c in l.entering || c in l.ctxQueue || Given(l, c))
  {
    hide Run;
    RunsAreSafe(states, steps, i);
    assert c in states[i].seen ==> InOnePlace(states[i], c);
  }

  /** What a caller has been given stays his. */
  lemma {:induction false} GivenStays(states: seq<Listener>, steps: seq<Step>, i: nat, j: nat, w: Waiter)
    requires Run(states, steps) && i <= j < |states| && w in states[i].given
    ensures w in states[j].given && states[j].given[w] == states[i].given[w]
    decreases j
  {
    hide Enabled, Safe;
    if i < j {
      GivenStays(states, steps, i, j - 1, w);
      RunsAreSafe(states, steps, j - 1);
      StepKeepsGiven(states[j - 1], steps[j - 1], w);
    }
  }

  lemma StepKeepsGiven(l: Listener, s: Step, w: Waiter)
    requires Safe(l) && Enabled(l, s) && w in l.given
    ensures w in Next(l, s).given && Next(l, s).given[w] == l.given[w]
  {
    if l.waitQueue != [] { assert l.waitQueue[0] in l.waitQueue; }
  }

  // ----- first come, first served

  ghost predicate Precedes(s: seq<nat>, x: nat, y: nat) {
    exists i, j :: 0 <= i < j < |s| && s[i] == x && s[j] == y
  }

  lemma PrecedesBehind(s: seq<nat>, x: nat, y: nat)
    requires s != []
    ensures Precedes(s, x, y) <==> (s[0] == x && y in s[1..]) || Precedes(s[1..], x, y)
  {
    var rest := s[1..];
    if i, j :| 0 <= i < j < |s| && s[i] == x && s[j] == y {
      assert rest[j - 1] == y;
      if i > 0 { assert rest[i - 1] == x; }
    }
    if s[0] == x && y in rest {
      var k :| 0 <= k < |rest| && rest[k] == y;
      assert s[0] == x && s[k + 1] == y;
    }
    if a, b :| 0 <= a < b < |rest| && rest[a] == x && rest[b] == y {
      assert s[a + 1] == x && s[b + 1] == y;
    }
  }

  lemma {:induction false} WithoutKeepsOrder(s: seq<nat>, z: nat, x: nat, y: nat)
    requires NoRepeats(s) && Precedes(s, x, y) && z != x && z != y
    ensures Precedes(Without(s, z), x, y)
    decreases |s|
  {
    hide Precedes, NoRepeats;
    PrecedesNotEmpty(s, x, y);
    PrecedesBehind(s, x, y);
    if s[0] != z {
      var rest, r := s[1..], Without(s, z);
      RestHasNoRepeats(s);
      WithoutIs(rest, z);
      assert r[1..] == Without(rest, z);
      PrecedesBehind(r, x, y);
      if Precedes(rest, x, y) { WithoutKeepsOrder(rest, z, x, y); }
    }
  }

  lemma PrecedesNotEmpty(s: seq<nat>, x: nat, y: nat)
    requires Precedes(s, x, y)
    ensures s != []
  {}

  lemma RestHasNoRepeats(s: seq<nat>)
    requires NoRepeats(s) && s != []
    ensures NoRepeats(s[1..])
  {}

  /** As long as the first waits, the second waits behind it. */
  ghost predicate WaitsBefore(l: Listener, v: Waiter, w: Waiter) {
    v in l.begun && (v in l.waitQueue ==> Precedes(l.waitQueue, v, w))
  }

  lemma StepKeepsWaiters(l: Listener, s: Step, v: Waiter, w: Waiter)
    requires Safe(l) && Enabled(l, s) && WaitsBefore(l, v, w)
    ensures WaitsBefore(Next(l, s), v, w)
  {
    var l' := Next(l, s);
    if v in l'.waitQueue {
      match s
      case Queue(_) =>
        if l.waitQueue != [] {
          var i, j :| 0 <= i < j < |l.waitQueue| && l.waitQueue[i] == v && l.waitQueue[j] == w;
          FrontIs(l.waitQueue);
          assert l'.waitQueue[i - 1] == v && l'.waitQueue[j - 1] == w;
        }
      case Begin(u) =>
        if l.ctxQueue == [] {
          var i, j :| 0 <= i < j < |l.waitQueue| && l.waitQueue[i] == v && l.waitQueue[j] == w;
          assert l'.waitQueue[i] == v && l'.waitQueue[j] == w;
        }
      case End(u) =>
        WithoutIs(l.waitQueue, u);
        assert w in l.waitQueue;
        WithoutKeepsOrder(l.waitQueue, u, v, w);
      case _ =>
    }
  }

  lemma {:induction false} WaitersKeepOrder(states: seq<Listener>, steps: seq<Step>, k: nat, j: nat, v: Waiter,
                                            w: Waiter)
    requires Run(states, steps) && k <= j < |states| && WaitsBefore(states[k], v, w)
    ensures WaitsBefore(states[j], v, w)
    decreases j
  {
    hide Safe, Enabled, Next, WaitsBefore;
    if k < j {
      WaitersKeepOrder(states, steps, k, j - 1, v, w);
      RunsAreSafe(states, steps, j - 1);
      StepKeepsWaiters(states[j - 1], steps[j - 1], v, w);
    }
  }

  /** Who begins to wait while another waits is not given a context before the other is: once the later caller
      has one, the earlier one waits no more. */
  lemma FirstCallerFirst(states: seq<Listener>, steps: seq<Step>, k: nat, j: nat, v: Waiter, w: Waiter)
    requires Run(states, steps) && k < j < |states| && steps[k] == Begin(w)
    requires v in states[k].waitQueue && w in states[j].given
    ensures v !in states[j].waitQueue
  {
    var l, l' := states[k], states[k + 1];
    assert Enabled(l, steps[k]) && l' == Next(l, steps[k]);
    RunsAreSafe(states, steps, k);
    RunsAreSafe(states, steps, j);
    assert l.ctxQueue == [] && l'.waitQueue == l.waitQueue + [w];
    var i :| 0 <= i < |l.waitQueue| && l.waitQueue[i] == v;
    assert l'.waitQueue[i] == v && l'.waitQueue[|l.waitQueue|] == w;
    assert WaitsBefore(l', v, w);
    hide Run;
    WaitersKeepOrder(states, steps, k + 1, j, v, w);
  }

  /** The same for contexts that wait for callers, unless the later one is taken out. */
  ghost predicate QueuedBefore(l: Listener, c: Ctx, d: Ctx) {
    && c in l.seen && c !in l.entering
    && (c in l.ctxQueue ==> d in l.dropped || Precedes(l.ctxQueue, c, d))
  }

  lemma StepKeepsContexts(l: Listener, s: Step, c: Ctx, d: Ctx)
    requires Safe(l) && Enabled(l, s) && QueuedBefore(l, c, d)
    ensures QueuedBefore(Next(l, s), c, d)
  {
    var l' := Next(l, s);
    if c in l'.ctxQueue && d !in l.dropped {
      match s
      case Queue(e) =>
        if l.waitQueue == [] {
          var i, j :| 0 <= i < j < |l.ctxQueue| && l.ctxQueue[i] == c && l.ctxQueue[j] == d;
          assert l'.ctxQueue[i] == c && l'.ctxQueue[j] == d;
        }
      case Begin(_) =>
        if l.ctxQueue != [] {
          FrontIs(l.ctxQueue);
          var i, j :| 0 <= i < j < |l.ctxQueue| && l.ctxQueue[i] == c && l.ctxQueue[j] == d;
          assert l'.ctxQueue[i - 1] == c && l'.ctxQueue[j - 1] == d;
        }
      case Unqueue(e) =>
        WithoutIs(l.ctxQueue, e);
        assert d in l.ctxQueue;
        if e != d { WithoutKeepsOrder(l.ctxQueue, e, c, d); }
      case _ =>
    }
  }

  lemma {:induction false} ContextsKeepOrder(states: seq<Listener>, steps: seq<Step>, k: nat, j: nat, c: Ctx, d: Ctx)
    requires Run(states, steps) && k <= j < |states| && QueuedBefore(states[k], c, d)
    ensures QueuedBefore(states[j], c, d)
    decreases j
  {
    hide Safe, Enabled, Next, QueuedBefore;
    if k < j {
      ContextsKeepOrder(states, steps, k, j - 1, c, d);
      RunsAreSafe(states, steps, j - 1);
      StepKeepsContexts(states[j - 1], steps[j - 1], c, d);
    }
  }

  /** A context that is queued while another is in the queue does not reach a caller before it. */
  lemma FirstContextFirst(states: seq<Listener>, steps: seq<Step>, k: nat, j: nat, c: Ctx, d: Ctx)
    requires Run(states, steps) && k < j < |states| && steps[k] == Queue(d)
    requires c in states[k].ctxQueue && Given(states[j], d)
    ensures c !in states[j].ctxQueue
  {
    var l, l' := states[k], states[k + 1];
    assert Enabled(l, steps[k]) && l' == Next(l, steps[k]);
    RunsAreSafe(states, steps, k);
    RunsAreSafe(states, steps, j);
    assert l.waitQueue == [] && l'.ctxQueue == l.ctxQueue + [d];
    assert InOnePlace(l, c);
    var i :| 0 <= i < |l.ctxQueue| && l.ctxQueue[i] == c;
    assert l'.ctxQueue[i] == c && l'.ctxQueue[|l.ctxQueue|] == d;
    assert QueuedBefore(l', c, d);
    hide Run;
    ContextsKeepOrder(states, steps, k + 1, j, c, d);
    assert InOnePlace(states[j], d);
  }

  // ----- the code, one method a lock region

  /** ArrayList.IndexOf, and RemoveAt if it is not -1. */
  method RemoveFirst(s: seq<nat>, x: nat) returns (r: seq<nat>)
    ensures r == Without(s, x)
  {
    hide Without;
    for idx := 0 to |s|
      invariant x !in s[..idx]
    {
      if s[idx] == x {
        WithoutAt(s, x, idx);
        return s[..idx] + s[idx + 1..];
      }
      assert s[..idx + 1] == s[..idx] + [s[idx]];
    }
    assert s[..|s|] == s;
    r := s;
  }

  lemma {:induction false} WithoutAt(s: seq<nat>, x: nat, i: nat)
    requires i < |s| && s[i] == x && x !in s[..i]
    ensures Without(s, x) == s[..i] + s[i + 1..]
    decreases i
  {
    if i > 0 {
      assert s[0] in s[..i];
      assert s[1..][..i - 1] == s[..i][1..];
      WithoutAt(s[1..], x, i - 1);
      assert s[..i] + s[i + 1..] == [s[0]] + (s[1..][..i - 1] + s[1..][i..]);
    }
  }

  class HttpListener {
    var registry: set<Ctx>
    var ctxQueue: seq<Ctx>
    var waitQueue: seq<Waiter>
    ghost var now: Listener

    ghost predicate Valid()
      reads this
    {
      registry == now.registry && ctxQueue == now.ctxQueue && waitQueue == now.waitQueue
    }

    constructor ()
      ensures Valid() && now == IDLE
    {
      registry, ctxQueue, waitQueue := {}, [], [];
      now := IDLE;
    }

    /** BeginGetContext, inside both locks; with a context at hand the result is complete at once. */
    method BeginGetContext(ares: Waiter) returns (ctx: Option<Ctx>)
      requires Valid() && Enabled(now, Begin(ares))
      modifies this
      ensures Valid() && now == Next(old(now), Begin(ares))
      ensures ctx == if old(ctxQueue) == [] then None else Some(old(ctxQueue)[0])
    {
      now := Next(now, Begin(ares));
      ctx := GetContextFromQueue();
      if ctx.None? {
        waitQueue := waitQueue + [ares];
      }
    }

    method GetContextFromQueue() returns (ctx: Option<Ctx>)
      modifies this`ctxQueue
      ensures ctx == if old(ctxQueue) == [] then None else Some(old(ctxQueue)[0])
      ensures ctxQueue == if old(ctxQueue) == [] then [] else old(ctxQueue)[1..]
    {
      if ctxQueue == [] {
        return None;
      }
      ctx := Some(ctxQueue[0]);
      ctxQueue := ctxQueue[1..];
    }

    /** The lock region of EndGetContext, once the result is complete. */
    method RemoveWaiter(ares: Waiter)
      requires Valid() && Enabled(now, End(ares))
      modifies this
      ensures Valid() && now == Next(old(now), End(ares))
    {
      hide Without;
      now := Next(now, End(ares));
      waitQueue := RemoveFirst(waitQueue, ares);
    }

    /** The first region of RegisterContext. */
    method AddToRegistry(context: Ctx)
      requires Valid() && Enabled(now, Enter(context))
      modifies this
      ensures Valid() && now == Next(old(now), Enter(context))
    {
      now := Next(now, Enter(context));
      registry := registry + {context};
    }

    /** The second region: to the caller that waits longest, who is completed after it, or to the queue. */
    method HandOver(context: Ctx) returns (ares: Option<Waiter>)
      requires Valid() && Enabled(now, Queue(context))
      modifies this
      ensures Valid() && now == Next(old(now), Queue(context))
      ensures ares == if old(waitQueue) == [] then None else Some(old(waitQueue)[0])
    {
      now := Next(now, Queue(context));
      if waitQueue == [] {
        ctxQueue := ctxQueue + [context];
        return None;
      }
      ares := Some(waitQueue[0]);
      waitQueue := waitQueue[1..];
    }

    /** The first region of UnregisterContext. */
    method RemoveFromRegistry(context: Ctx)
      requires Valid() && Enabled(now, Leave(context))
      modifies this
      ensures Valid() && now == Next(old(now), Leave(context))
    {
      now := Next(now, Leave(context));
      registry := registry - {context};
    }

    /** The second region of UnregisterContext. */
    method RemoveFromQueue(context: Ctx)
      requires Valid() && Enabled(now, Unqueue(context))
      modifies this
      ensures Valid() && now == Next(old(now), Unqueue(context))
    {
      hide Without;
      now := Next(now, Unqueue(context));
      ctxQueue := RemoveFirst(ctxQueue, context);
    }
  }
}
