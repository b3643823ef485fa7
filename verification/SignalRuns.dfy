/**
  Which handler and which mask are in force at any point of a run of signal.c: the
  last call that names the signal decides, calls made during deliveries included.
*/
module SignalRuns {
  import opened SignalModel

  // ---------------------------------------------------- the last call that names s

  /** The handler of s after actions: that of the last Install of s, or else the one before. */
  function LastInstalled(before: Handler, actions: seq<Action>, s: nat): Handler {
    if actions == [] then before
    else
      var n := |actions| - 1;
      if actions[n].Install? && actions[n].signum == s then actions[n].handler
      else LastInstalled(before, actions[..n], s)
  }

  /** Whether s is blocked after actions: the last Block or Unblock whose mask has s decides. */
  function LastMasked(before: bool, actions: seq<Action>, s: nat): bool {
    if actions == [] then before
    else
      var n := |actions| - 1;
      if actions[n].Block? && s in actions[n].mask then true
      else if actions[n].Unblock? && s in actions[n].mask then false
      else LastMasked(before, actions[..n], s)
  }

  predicate CanChange(s: nat) {
    s != 9 && s != 19
  }

  /** What is installed for s: for SIGKILL and SIGSTOP always the handler they had. */
  function HandlerAfter(before: Handler, actions: seq<Action>, s: nat): Handler {
    if CanChange(s) then LastInstalled(before, actions, s) else before
  }

  lemma {:induction false} ActAllLast(c: Ctx, actions: seq<Action>, s: nat)
    requires |c.handlers| == NUM_SIGNALS && s < NUM_SIGNALS
    ensures ActAll(c, actions).handlers[s] == HandlerAfter(c.handlers[s], actions, s)
    ensures s in ActAll(c, actions).blocked <==> LastMasked(s in c.blocked, actions, s)
  {
    if actions != [] {
      ActAllLast(c, actions[..|actions| - 1], s);
    }
  }

  lemma {:induction false} LastAppend(before: Handler, blocked: bool, a: seq<Action>, b: seq<Action>, s: nat)
    ensures LastInstalled(before, a + b, s) == LastInstalled(LastInstalled(before, a, s), b, s)
    ensures LastMasked(blocked, a + b, s) == LastMasked(LastMasked(blocked, a, s), b, s)
    decreases |b|
  {
    if b == [] {
      assert a + b == a;
    } else {
      var n := |b| - 1;
      assert (a + b)[..|a + b| - 1] == a + b[..n];
      LastAppend(before, blocked, a, b[..n], s);
    }
  }

  // ------------------------------------------------------------------- one dispatch

  /** What happens during the deliveries of the signals in order, one after the other. */
  function During(env: Environment, order: seq<nat>): seq<Action> {
    if order == [] then []
    else
      var n := |order| - 1;
      During(env, order[..n]) + if order[n] < NUM_SIGNALS then env[order[n]] else []
  }

  lemma {:induction false} LoopLast(c: Ctx, snap: set<nat>, env: Environment, k: nat, s: nat)
    requires k <= NUM_SIGNALS && |c.handlers| == NUM_SIGNALS && s < NUM_SIGNALS
    ensures Loop(c, snap, env, k).0.handlers[s] == HandlerAfter(c.handlers[s], During(env, Ascending(snap, k)), s)
    ensures s in Loop(c, snap, env, k).0.blocked <==>
              LastMasked(s in c.blocked, During(env, Ascending(snap, k)), s)
  {
    if k > 0 {
      LoopLast(c, snap, env, k - 1, s);
      var order := Ascending(snap, k - 1);
      assert order + [] == order;
      if k - 1 in snap {
        var d := Loop(c, snap, env, k - 1).0;
        assert Ascending(snap, k)[..|order|] == order;
        LastAppend(c.handlers[s], s in c.blocked, During(env, order), env[k - 1], s);
        ActAllLast(d.(pending := d.pending - {k - 1}), env[k - 1], s);
      }
    }
  }

  /** The deliveries up to round k carry the handlers in force when they begin. */
  lemma {:induction false} LoopHandlers(c: Ctx, snap: set<nat>, env: Environment, k: nat, i: nat)
    requires k <= NUM_SIGNALS && |c.handlers| == NUM_SIGNALS
    requires i < |Loop(c, snap, env, k).1|
    ensures var out := Loop(c, snap, env, k).1;
            && out[i].signum < NUM_SIGNALS && |Signums(out)| == |out|
            && out[i].handler == HandlerAfter(c.handlers[out[i].signum], During(env, Signums(out)[..i]), out[i].signum)
  {
    var out := Loop(c, snap, env, k).1;
    var front, d := Loop(c, snap, env, k - 1).1, Loop(c, snap, env, k - 1).0;
    if i < |front| {
      LoopHandlers(c, snap, env, k - 1, i);
      assert Signums(out)[..i] == Signums(front)[..i];
    } else {
      LoopDelivers(c, snap, env, k - 1);
      LoopLast(c, snap, env, k - 1, k - 1);
      assert Signums(out)[..i] == Signums(front);
    }
  }

  // --------------------------------------------------------------------------- runs

  /** The calls that an event makes, in order. */
  function Made(c: Ctx, e: Event): seq<Action>
    requires |c.handlers| == NUM_SIGNALS
  {
    match e
    case Does(action) => [action]
    case Dispatches(env) => During(env, Signums(Dispatch(c, env).1))
  }

  function MadeAll(c: Ctx, events: seq<Event>): seq<Action>
    requires |c.handlers| == NUM_SIGNALS
    decreases |events|
  {
    if events == [] then [] else Made(c, events[0]) + MadeAll(After(c, events[0]), events[1..])
  }

  lemma AfterLast(c: Ctx, e: Event, s: nat)
    requires |c.handlers| == NUM_SIGNALS && s < NUM_SIGNALS
    ensures After(c, e).handlers[s] == HandlerAfter(c.handlers[s], Made(c, e), s)
    ensures s in After(c, e).blocked <==> LastMasked(s in c.blocked, Made(c, e), s)
  {
    match e
    case Does(action) =>
      assert [action][..0] == [];
      assert ActAll(c, [action]) == Act(c, action);
      ActAllLast(c, [action], s);
    case Dispatches(env) =>
      LoopDelivers(c, Snapshot(c), env, NUM_SIGNALS);
      LoopLast(c, Snapshot(c), env, NUM_SIGNALS, s);
  }

  /**
    Over any run the handler of s is that of the last signal(s, h) made, during
    deliveries or outside, and s is blocked exactly if the last sigblock or
    sigunblock that names it was a sigblock; without such a call both are as before.
  */
  lemma {:induction false} LastCallDecides(c: Ctx, events: seq<Event>, s: nat)
    requires |c.handlers| == NUM_SIGNALS && s < NUM_SIGNALS
    ensures AfterAll(c, events).handlers[s] == HandlerAfter(c.handlers[s], MadeAll(c, events), s)
    ensures s in AfterAll(c, events).blocked <==> LastMasked(s in c.blocked, MadeAll(c, events), s)
    decreases |events|
  {
    if events != [] {
      var c' := After(c, events[0]);
      AfterLast(c, events[0], s);
      LastCallDecides(c', events[1..], s);
      LastAppend(c.handlers[s], s in c.blocked, Made(c, events[0]), MadeAll(c', events[1..]), s);
    }
  }

  /**
    Delivery i of a dispatch after any run is made with the handler that was
    installed last, calls during the earlier deliveries of the dispatch included.
  */
  lemma DeliversLastInstalled(c: Ctx, events: seq<Event>, env: Environment, i: nat)
    requires |c.handlers| == NUM_SIGNALS && i < |Dispatch(AfterAll(c, events), env).1|
    ensures var out := Dispatch(AfterAll(c, events), env).1;
            var s := out[i].signum;
            && s < NUM_SIGNALS && |Signums(out)| == |out|
            && out[i].handler ==
                 HandlerAfter(c.handlers[s], MadeAll(c, events) + During(env, Signums(out)[..i]), s)
  {
    var c' := AfterAll(c, events);
    var out := Dispatch(c', env).1;
    LoopHandlers(c', Snapshot(c'), env, NUM_SIGNALS, i);
    LastCallDecides(c, events, out[i].signum);
    LastAppend(c.handlers[out[i].signum], false, MadeAll(c, events), During(env, Signums(out)[..i]), out[i].signum);
  }
}
