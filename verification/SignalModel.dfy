/** The signal context of one process (signal.c), as a value, and what a dispatch delivers. */
module SignalModel {

  const NUM_SIGNALS: nat := 32
  const SIGKILL: nat := 9
  const SIGSTOP: nat := 19

  datatype Handler = Default | Ignore | Custom(entry: nat)

  datatype Ctx = Ctx(pending: set<nat>, blocked: set<nat>, handlers: seq<Handler>)

  /** Calls that change the context while the signal lock is free: by the handler itself or by anybody else. */
  datatype Action =
    | Raise(signum: int)
    | Block(mask: set<nat>)
    | Unblock(mask: set<nat>)
    | Install(signum: int, handler: Handler)

  predicate IsSignal(signum: int) {
    0 <= signum < NUM_SIGNALS
  }

  function Act(c: Ctx, a: Action): (c': Ctx)
    ensures |c'.handlers| == |c.handlers|
  {
    match a
    case Raise(s) => if IsSignal(s) then c.(pending := c.pending + {s}) else c
    case Block(mask) => c.(blocked := c.blocked + mask)
    case Unblock(mask) => c.(blocked := c.blocked - mask)
    case Install(s, h) =>
      if 0 <= s < |c.handlers| && s != SIGKILL && s != SIGSTOP then c.(handlers := c.handlers[s := h]) else c
  }

  function ActAll(c: Ctx, actions: seq<Action>): (c': Ctx)
    ensures |c'.handlers| == |c.handlers|
  {
    if actions == [] then c else Act(ActAll(c, actions[..|actions| - 1]), actions[|actions| - 1])
  }

  /** signal.c:178 */
  function Snapshot(c: Ctx): set<nat> {
    c.pending - c.blocked
  }

  /** env[s] is what happens while signal s is being delivered. */
  type Environment = e: seq<seq<Action>> | |e| == NUM_SIGNALS witness seq(NUM_SIGNALS, _ => [])

  datatype Delivery = Delivery(signum: nat, handler: Handler)

  /** The loop of signal_dispatch over signals 0..k-1. */
  function Loop(c: Ctx, snap: set<nat>, env: Environment, k: nat): (r: (Ctx, seq<Delivery>))
    requires k <= NUM_SIGNALS && |c.handlers| == NUM_SIGNALS
    ensures |r.0.handlers| == NUM_SIGNALS
  {
    if k == 0 then (c, [])
    else
      var (d, out) := Loop(c, snap, env, k - 1);
      var s := k - 1;
      if s in snap then
        (ActAll(d.(pending := d.pending - {s}), env[s]), out + [Delivery(s, d.handlers[s])])
      else (d, out)
  }

  function Dispatch(c: Ctx, env: Environment): (Ctx, seq<Delivery>)
    requires |c.handlers| == NUM_SIGNALS
  {
    Loop(c, Snapshot(c), env, NUM_SIGNALS)
  }

  // ------------------------------------------------------------ what is delivered

  function Signums(out: seq<Delivery>): seq<nat> {
    seq(|out|, i requires 0 <= i < |out| => out[i].signum)
  }

  /** The members of snap below k in ascending order. */
  function Ascending(snap: set<nat>, k: nat): seq<nat> {
    if k == 0 then [] else Ascending(snap, k - 1) + if k - 1 in snap then [k - 1] else []
  }

  lemma {:induction false} AscendingListsOnce(snap: set<nat>, k: nat)
    ensures forall s: nat :: s in Ascending(snap, k) <==> s in snap && s < k
    ensures forall i, j | 0 <= i < j < |Ascending(snap, k)| :: Ascending(snap, k)[i] < Ascending(snap, k)[j]
  {
    if k > 0 {
      AscendingListsOnce(snap, k - 1);
      var front := Ascending(snap, k - 1);
      assert forall i | 0 <= i < |front| :: front[i] in front;
    }
  }

  lemma {:induction false} LoopDelivers(c: Ctx, snap: set<nat>, env: Environment, k: nat)
    requires k <= NUM_SIGNALS && |c.handlers| == NUM_SIGNALS
    ensures Signums(Loop(c, snap, env, k).1) == Ascending(snap, k)
  {
    if k > 0 {
      LoopDelivers(c, snap, env, k - 1);
    }
  }

  /** Each signal pending and unblocked at entry is delivered exactly once, in ascending order, and no other. */
  lemma DeliversSnapshot(c: Ctx, env: Environment)
    requires |c.handlers| == NUM_SIGNALS && forall s | s in c.pending :: s < NUM_SIGNALS
    ensures var sent := Signums(Dispatch(c, env).1);
            && (forall s: nat :: s in sent <==> s in c.pending && s !in c.blocked)
            && (forall i, j | 0 <= i < j < |sent| :: sent[i] < sent[j])
  {
    LoopDelivers(c, Snapshot(c), env, NUM_SIGNALS);
    AscendingListsOnce(Snapshot(c), NUM_SIGNALS);
  }

  lemma DispatchDelivers(c: Ctx, env: Environment, s: nat)
    requires |c.handlers| == NUM_SIGNALS && s < NUM_SIGNALS
    ensures s in Signums(Dispatch(c, env).1) <==> s in c.pending && s !in c.blocked
  {
    LoopDelivers(c, Snapshot(c), env, NUM_SIGNALS);
    AscendingListsOnce(Snapshot(c), NUM_SIGNALS);
  }

  // ----------------------------------------------------------- what stays pending

  /** s was raised while one of the signals lo..hi-1 of the snapshot was being delivered. */
  ghost predicate RaisedBetween(snap: set<nat>, env: Environment, s: nat, lo: nat, hi: nat) {
    exists j: nat :: lo <= j < hi && j < NUM_SIGNALS && j in snap && Raise(s) in env[j]
  }

  lemma {:induction false} ActAllPending(c: Ctx, actions: seq<Action>, s: nat)
    requires s < NUM_SIGNALS
    ensures s in ActAll(c, actions).pending <==> s in c.pending || Raise(s) in actions
  {
    if actions != [] {
      var n := |actions| - 1;
      ActAllPending(c, actions[..n], s);
      assert actions == actions[..n] + [actions[n]];
    }
  }

  /** s is pending after the first k rounds. */
  ghost predicate PendingAfter(c: Ctx, snap: set<nat>, env: Environment, k: nat, s: nat) {
    if s in snap && s < k then RaisedBetween(snap, env, s, s, k)
    else s in c.pending || RaisedBetween(snap, env, s, 0, k)
  }

  lemma RaisedNext(snap: set<nat>, env: Environment, s: nat, lo: nat, k: nat)
    requires 0 < k <= NUM_SIGNALS
    ensures RaisedBetween(snap, env, s, lo, k) <==>
              RaisedBetween(snap, env, s, lo, k - 1) || (lo <= k - 1 && k - 1 in snap && Raise(s) in env[k - 1])
  {
  }

  lemma {:induction false} LoopPending(c: Ctx, snap: set<nat>, env: Environment, k: nat, s: nat)
    requires k <= NUM_SIGNALS && |c.handlers| == NUM_SIGNALS && s < NUM_SIGNALS
    ensures s in Loop(c, snap, env, k).0.pending <==> PendingAfter(c, snap, env, k, s)
  {
    if k > 0 {
      LoopPending(c, snap, env, k - 1, s);
      RaisedNext(snap, env, s, 0, k);
      RaisedNext(snap, env, s, s, k);
      if k - 1 in snap {
        var d := Loop(c, snap, env, k - 1).0;
        ActAllPending(d.(pending := d.pending - {k - 1}), env[k - 1], s);
      }
    }
  }

  /**
    After a dispatch the pending signals are exactly those blocked at entry, those
    raised outside the snapshot, and those raised again during or after their own
    delivery.
  */
  lemma PendingAfterDispatch(c: Ctx, env: Environment, s: nat)
    requires |c.handlers| == NUM_SIGNALS && s < NUM_SIGNALS
    ensures var snap := Snapshot(c);
            s in Dispatch(c, env).0.pending <==>
              || (s in c.pending && s in c.blocked)
              || (s !in snap && RaisedBetween(snap, env, s, 0, NUM_SIGNALS))
              || (s in snap && RaisedBetween(snap, env, s, s, NUM_SIGNALS))
  {
    LoopPending(c, Snapshot(c), env, NUM_SIGNALS, s);
  }

  /** No signal is lost: one raised during delivery j is still pending afterwards or is delivered after j. */
  lemma NoSignalLost(c: Ctx, env: Environment, s: nat, j: nat)
    requires |c.handlers| == NUM_SIGNALS && s < NUM_SIGNALS && j < NUM_SIGNALS
    requires j in Snapshot(c) && Raise(s) in env[j]
    ensures s in Dispatch(c, env).0.pending || (s > j && s in Signums(Dispatch(c, env).1))
  {
    PendingAfterDispatch(c, env, s);
    DispatchDelivers(c, env, s);
    var snap := Snapshot(c);
    if s in snap {
      if j >= s {
        assert RaisedBetween(snap, env, s, s, NUM_SIGNALS);
      }
    } else {
      assert RaisedBetween(snap, env, s, 0, NUM_SIGNALS);
    }
  }

  // ------------------------------------------------------------------------- runs

  /** A call by anybody, or a whole signal_dispatch with what happens during its deliveries. */
  datatype Event = Does(action: Action) | Dispatches(env: Environment)

  function After(c: Ctx, e: Event): (c': Ctx)
    requires |c.handlers| == NUM_SIGNALS
    ensures |c'.handlers| == NUM_SIGNALS
  {
    match e
    case Does(action) => Act(c, action)
    case Dispatches(env) => Dispatch(c, env).0
  }

  function AfterAll(c: Ctx, events: seq<Event>): (c': Ctx)
    requires |c.handlers| == NUM_SIGNALS
    ensures |c'.handlers| == NUM_SIGNALS
    decreases |events|
  {
    if events == [] then c else AfterAll(After(c, events[0]), events[1..])
  }

  predicate DeliversNow(c: Ctx, e: Event, s: nat)
    requires |c.handlers| == NUM_SIGNALS
  {
    e.Dispatches? && s in Signums(Dispatch(c, e.env).1)
  }

  function One(b: bool): nat {
    if b then 1 else 0
  }

  /** How often s is delivered in the run. */
  function Deliveries(c: Ctx, events: seq<Event>, s: nat): nat
    requires |c.handlers| == NUM_SIGNALS
    decreases |events|
  {
    if events == [] then 0
    else One(DeliversNow(c, events[0], s)) + Deliveries(After(c, events[0]), events[1..], s)
  }

  predicate Sends(e: Event, s: nat) {
    match e
    case Does(action) => action == Raise(s)
    case Dispatches(env) => exists j | 0 <= j < NUM_SIGNALS :: Raise(s) in env[j]
  }

  /** How many events of the run send s. */
  function Sendings(events: seq<Event>, s: nat): nat {
    if events == [] then 0 else One(Sends(events[0], s)) + Sendings(events[1..], s)
  }

  /** One event: a pending signal stays pending unless it is delivered, and comes from somewhere. */
  lemma EventKeeps(c: Ctx, e: Event, s: nat)
    requires |c.handlers| == NUM_SIGNALS && s < NUM_SIGNALS
    ensures s in c.pending ==> s in After(c, e).pending || DeliversNow(c, e, s)
    ensures s in After(c, e).pending && DeliversNow(c, e, s) ==> Sends(e, s)
    ensures s in After(c, e).pending || DeliversNow(c, e, s) ==> s in c.pending || Sends(e, s)
    ensures DeliversNow(c, e, s) ==> s in c.pending
  {
    match e
    case Does(action) =>
    case Dispatches(env) =>
      DispatchDelivers(c, env, s);
      PendingAfterDispatch(c, env, s);
  }

  /**
    No sent signal is lost: over any run of calls and dispatches a pending signal
    is still pending at the end, or some dispatch of the run has delivered it.
  */
  lemma {:induction false} PendingUntilDelivered(c: Ctx, events: seq<Event>, s: nat)
    requires |c.handlers| == NUM_SIGNALS && s < NUM_SIGNALS && s in c.pending
    ensures s in AfterAll(c, events).pending || Deliveries(c, events, s) > 0
    decreases |events|
  {
    if events != [] {
      EventKeeps(c, events[0], s);
      if s in After(c, events[0]).pending {
        PendingUntilDelivered(After(c, events[0]), events[1..], s);
      }
    }
  }

  /** And none is invented: over any run what was delivered or is pending was pending before or was sent. */
  lemma {:induction false} DeliveredWasSent(c: Ctx, events: seq<Event>, s: nat)
    requires |c.handlers| == NUM_SIGNALS && s < NUM_SIGNALS
    ensures Deliveries(c, events, s) + One(s in AfterAll(c, events).pending)
            <= One(s in c.pending) + Sendings(events, s)
    decreases |events|
  {
    if events != [] {
      EventKeeps(c, events[0], s);
      DeliveredWasSent(After(c, events[0]), events[1..], s);
    }
  }

  // -------------------------------------------------------- SIGKILL and SIGSTOP

  ghost predicate Fixed(c: Ctx) {
    |c.handlers| == NUM_SIGNALS && c.handlers[SIGKILL] == Default && c.handlers[SIGSTOP] == Default
  }

  lemma {:induction false} HandlersStayFixed(c: Ctx, actions: seq<Action>)
    requires Fixed(c)
    ensures Fixed(ActAll(c, actions))
  {
    if actions != [] {
      HandlersStayFixed(c, actions[..|actions| - 1]);
    }
  }

  lemma {:induction false} DispatchFixed(c: Ctx, snap: set<nat>, env: Environment, k: nat)
    requires Fixed(c) && k <= NUM_SIGNALS
    ensures Fixed(Loop(c, snap, env, k).0)
    ensures forall i | 0 <= i < |Loop(c, snap, env, k).1| ::
              var d := Loop(c, snap, env, k).1[i];
              d.signum == SIGKILL || d.signum == SIGSTOP ==> d.handler == Default
  {
    if k > 0 {
      DispatchFixed(c, snap, env, k - 1);
      var d := Loop(c, snap, env, k - 1).0;
      if k - 1 in snap {
        HandlersStayFixed(d.(pending := d.pending - {k - 1}), env[k - 1]);
      }
    }
  }

  /**
    The documentation says that SIGKILL and SIGSTOP cannot be blocked.  They are
    blocked like every other signal: after sigblock of the bit and kill, a dispatch
    does not deliver the signal and leaves it pending, whatever else is pending and
    whatever handlers do.
  */
  lemma KillCanBeBlocked(c: Ctx, env: Environment, s: nat)
    requires |c.handlers| == NUM_SIGNALS && (s == SIGKILL || s == SIGSTOP)
    ensures var c' := ActAll(c, [Block({s}), Raise(s)]);
            && s !in Signums(Dispatch(c', env).1)
            && s in Dispatch(c', env).0.pending
  {
    var actions := [Block({s}), Raise(s)];
    assert actions[..1] == [Block({s})];
    assert ActAll(c, actions[..1]) == Act(c, Block({s})) by {
      assert actions[..1][..0] == [];
    }
    var c' := ActAll(c, actions);
    assert c' == Act(Act(c, Block({s})), Raise(s));
    DispatchDelivers(c', env, s);
    PendingAfterDispatch(c', env, s);
  }
}
