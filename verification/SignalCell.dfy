/** signal.c in place: one signal_ctx_t, with its masks as 32-bit words. */
module SignalCell {
  import opened Basics
  import opened SignalModel

  // --------------------------------------------------------------------------- bits

  function Bit(s: nat): bv32
    requires s < NUM_SIGNALS
  {
    (1 as bv32) << s
  }

  predicate Has(w: bv32, s: nat)
    requires s < NUM_SIGNALS
  {
    w & Bit(s) != 0
  }

  ghost function Bits(w: bv32): (b: set<nat>)
    ensures forall s | s in b :: s < NUM_SIGNALS
  {
    set s: nat | s < NUM_SIGNALS && Has(w, s)
  }

  lemma HasOr(a: bv32, b: bv32, s: nat)
    requires s < NUM_SIGNALS
    ensures ((a | b) & Bit(s) != 0) == (a & Bit(s) != 0 || b & Bit(s) != 0)
  {
  }

  lemma HasMinus(a: bv32, b: bv32, s: nat)
    requires s < NUM_SIGNALS
    ensures ((a & !b) & Bit(s) != 0) == (a & Bit(s) != 0 && b & Bit(s) == 0)
  {
  }

  lemma LowBits(i: nat, j: nat)
    requires i < 16 && j < 16
    ensures (Bit(i) & Bit(j) != 0) == (i == j)
  {
  }

  lemma HighBits(i: nat, j: nat)
    requires 16 <= i < NUM_SIGNALS && 16 <= j < NUM_SIGNALS
    ensures (Bit(i) & Bit(j) != 0) == (i == j)
  {
  }

  lemma MixedBits(i: nat, j: nat)
    requires i < 16 <= j < NUM_SIGNALS
    ensures Bit(i) & Bit(j) == 0 && Bit(j) & Bit(i) == 0
  {
  }

  lemma OneBitEach(i: nat, j: nat)
    requires i < NUM_SIGNALS && j < NUM_SIGNALS
    ensures Has(Bit(i), j) <==> i == j
  {
    if i < 16 && j < 16 {
      LowBits(i, j);
    } else if i < 16 {
      MixedBits(i, j);
    } else if j < 16 {
      MixedBits(j, i);
    } else {
      HighBits(i, j);
    }
  }

  lemma UnionBits(a: bv32, b: bv32)
    ensures Bits(a | b) == Bits(a) + Bits(b)
  {
    forall s: nat | s < NUM_SIGNALS ensures Has(a | b, s) <==> Has(a, s) || Has(b, s) {
      HasOr(a, b, s);
    }
  }

  lemma MinusBits(a: bv32, b: bv32)
    ensures Bits(a & !b) == Bits(a) - Bits(b)
  {
    forall s: nat | s < NUM_SIGNALS ensures Has(a & !b, s) <==> Has(a, s) && !Has(b, s) {
      HasMinus(a, b, s);
    }
  }

  lemma SingleBits(s: nat)
    requires s < NUM_SIGNALS
    ensures Bits(Bit(s)) == {s}
  {
    forall j: nat | j < NUM_SIGNALS ensures Has(Bit(s), j) <==> s == j {
      OneBitEach(s, j);
    }
  }

  // ---------------------------------------------------------------------- the class

  const NUM_CONTEXTS: nat := 16

  /** process_current() exists and has a signal context. */
  predicate Served(current: Option<nat>) {
    current.Some? && current.value < NUM_CONTEXTS
  }

  /** The calls that other code makes while a handler runs, with their masks as words. */
  datatype Call =
    | Kill(signum: int)
    | SigBlock(mask: bv32)
    | SigUnblock(mask: bv32)
    | Signal(signum: int, handler: Handler)

  ghost function Meaning(c: Call): Action {
    match c
    case Kill(s) => Raise(s)
    case SigBlock(mask) => Block(Bits(mask))
    case SigUnblock(mask) => Unblock(Bits(mask))
    case Signal(s, h) => Install(s, h)
  }

  ghost function Meanings(cs: seq<Call>): (r: seq<Action>)
    ensures |r| == |cs| && forall i | 0 <= i < |cs| :: r[i] == Meaning(cs[i])
  {
    seq(|cs|, i requires 0 <= i < |cs| => Meaning(cs[i]))
  }

  ghost function MeaningOf(env: seq<seq<Call>>): (e: Environment)
    requires |env| == NUM_SIGNALS
    ensures forall i | 0 <= i < NUM_SIGNALS :: e[i] == Meanings(env[i])
  {
    seq(NUM_SIGNALS, i requires 0 <= i < NUM_SIGNALS => Meanings(env[i]))
  }

  /** signal.c:181 */
  method IsSet(w: bv32, sig: nat) returns (due: bool)
    requires sig < NUM_SIGNALS
    ensures due <==> sig in Bits(w)
  {
    due := w & Bit(sig) != 0;
  }

  /** The state and the deliveries after the first k rounds of the dispatch loop. */
  ghost predicate Reached(c: Ctx, snap: set<nat>, e: Environment, k: nat, d: Ctx, out: seq<Delivery>) {
    k <= NUM_SIGNALS && |c.handlers| == NUM_SIGNALS && (d, out) == Loop(c, snap, e, k)
  }

  lemma ReachedNext(c: Ctx, snap: set<nat>, e: Environment, k: nat, d: Ctx, out: seq<Delivery>)
    requires Reached(c, snap, e, k, d, out) && k < NUM_SIGNALS
    ensures |d.handlers| == NUM_SIGNALS
    ensures k in snap ==>
              var d' := ActAll(d.(pending := d.pending - {k}), e[k]);
              Reached(c, snap, e, k + 1, d', out + [Delivery(k, d.handlers[k])])
    ensures k !in snap ==> Reached(c, snap, e, k + 1, d, out)
  {
  }

  lemma ActAllNext(c: Ctx, calls: seq<Call>, i: nat)
    requires i < |calls|
    ensures ActAll(c, Meanings(calls[..i + 1])) == Act(ActAll(c, Meanings(calls[..i])), Meaning(calls[i]))
  {
    var all := Meanings(calls[..i + 1]);
    assert all[..i] == Meanings(calls[..i]);
  }

  /** signal_contexts[pid].  current is the pid of process_current(), None for null. */
  class Context {
    const pid: nat
    const handlers: array<Handler>
    var pending: bv32
    var blocked: bv32

    ghost predicate Valid()
      reads this, handlers
    {
      pid < NUM_CONTEXTS && handlers.Length == NUM_SIGNALS && Fixed(State())
    }

    ghost function State(): (c: Ctx)
      reads this, handlers
    {
      Ctx(Bits(pending), Bits(blocked), handlers[..])
    }

    /** signal_init_ctx */
    constructor (index: nat, hs: array<Handler>)
      requires index < NUM_CONTEXTS && hs.Length == NUM_SIGNALS
      modifies hs
      ensures Valid() && pid == index && handlers == hs
      ensures State() == Ctx({}, {}, seq(NUM_SIGNALS, _ => Default))
    {
      pid := index;
      handlers := hs;
      pending := 0;
      blocked := 0;
      new;
      for i := 0 to NUM_SIGNALS
        invariant pending == 0 && blocked == 0
        invariant forall j | 0 <= j < i :: handlers[j] == Default
      {
        handlers[i] := Default;
      }
      assert handlers[..] == seq(NUM_SIGNALS, _ => Default);
      assert Bits(0) == {};
    }

    /** The call addresses this context, if it addresses one at all. */
    ghost predicate Mine(current: Option<nat>) {
      Served(current) ==> current.value == pid
    }

    /** signal: the previous handler, or SIG_DFL for a signal that cannot be changed and without context. */
    method SetHandler(current: Option<nat>, signum: int, handler: Handler) returns (previous: Handler)
      requires Valid() && Mine(current)
      modifies handlers
      ensures Valid()
      ensures State() == if Served(current) then Act(old(State()), Install(signum, handler)) else old(State())
      ensures Served(current) && IsSignal(signum) && signum != SIGKILL && signum != SIGSTOP ==>
                handlers[..] == old(handlers[..])[signum := handler]
      ensures previous == if IsSignal(signum) && signum != SIGKILL && signum != SIGSTOP && Served(current)
                          then old(State()).handlers[signum] else Default
    {
      if signum < 0 || signum >= NUM_SIGNALS {
        return Default;
      }
      if signum == SIGKILL || signum == SIGSTOP {
        return Default;
      }
      if current.None? || current.value >= NUM_CONTEXTS {
        return Default;
      }
      previous := handlers[signum];
      handlers[signum] := handler;
      assert handlers[..] == old(handlers[..])[signum := handler];
    }

    /** kill(target, signum); found is whether process_get found the target. */
    method Send(target: nat, signum: int, found: bool) returns (e: Error)
      requires Valid() && Mine(Some(target))
      modifies this
      ensures Valid()
      ensures e == if !IsSignal(signum) || target >= NUM_CONTEXTS then Invalid else if !found then NoEntry else Ok
      ensures State() == if e == Ok then Act(old(State()), Raise(signum)) else old(State())
      ensures blocked == old(blocked) && Bits(pending) == old(Bits(pending)) + if e == Ok then {signum} else {}
    {
      if signum < 0 || signum >= NUM_SIGNALS {
        return Invalid;
      }
      if target >= NUM_CONTEXTS {
        return Invalid;
      }
      if !found {
        return NoEntry;
      }
      UnionBits(pending, Bit(signum));
      SingleBits(signum);
      pending := pending | Bit(signum);
      e := Ok;
    }

    /** sigblock */
    method BlockMask(current: Option<nat>, mask: bv32) returns (e: Error)
      requires Valid() && Mine(current)
      modifies this
      ensures Valid() && e == if Served(current) then Ok else Invalid
      ensures State() == if e == Ok then Act(old(State()), Block(Bits(mask))) else old(State())
      ensures pending == old(pending) && Bits(blocked) == old(Bits(blocked)) + if e == Ok then Bits(mask) else {}
    {
      if current.None? || current.value >= NUM_CONTEXTS {
        return Invalid;
      }
      AddBlocked(mask);
      e := Ok;
    }

    /** signal.c:135 */
    method AddBlocked(mask: bv32)
      requires Valid()
      modifies this
      ensures Valid() && State() == Act(old(State()), Block(Bits(mask)))
      ensures pending == old(pending) && Bits(blocked) == old(Bits(blocked)) + Bits(mask)
    {
      UnionBits(blocked, mask);
      blocked := blocked | mask;
    }

    /** sigunblock */
    method UnblockMask(current: Option<nat>, mask: bv32) returns (e: Error)
      requires Valid() && Mine(current)
      modifies this
      ensures Valid() && e == if Served(current) then Ok else Invalid
      ensures State() == if e == Ok then Act(old(State()), Unblock(Bits(mask))) else old(State())
      ensures pending == old(pending) && Bits(blocked) == old(Bits(blocked)) - if e == Ok then Bits(mask) else {}
    {
      if current.None? || current.value >= NUM_CONTEXTS {
        return Invalid;
      }
      MinusBits(blocked, mask);
      blocked := blocked & !mask;
      e := Ok;
    }

    /** What happens between unlock and lock at signal.c:186-194. */
    method Interlude(calls: seq<Call>)
      requires Valid()
      modifies this, handlers
      ensures Valid() && State() == ActAll(old(State()), Meanings(calls))
    {
      ghost var c := State();
      assert Meanings(calls[..0]) == [];
      for i := 0 to |calls|
        invariant Valid() && State() == ActAll(c, Meanings(calls[..i]))
      {
        Perform(calls[i]);
        ActAllNext(c, calls, i);
      }
      assert calls[..|calls|] == calls;
    }

    method Perform(call: Call)
      requires Valid()
      modifies this, handlers
      ensures Valid() && State() == Act(old(State()), Meaning(call))
    {
      match call {
        case Kill(s) => var _ := Send(pid, s, true);
        case SigBlock(mask) => var _ := BlockMask(Some(pid), mask);
        case SigUnblock(mask) => var _ := UnblockMask(Some(pid), mask);
        case Signal(s, h) => var _ := SetHandler(Some(pid), s, h);
      }
    }

    /**
      signal_dispatch; env[s] are the calls made by anybody while signal s is
      being delivered, which excludes a nested dispatch.
    */
    method SignalDispatch(current: Option<nat>, env: seq<seq<Call>>) returns (out: seq<Delivery>)
      requires Valid() && Mine(current) && |env| == NUM_SIGNALS
      modifies this, handlers
      ensures Valid()
      ensures (State(), out) ==
                if Served(current) then Dispatch(old(State()), MeaningOf(env)) else (old(State()), [])
    {
      if current.None? || current.value >= NUM_CONTEXTS {
        return [];
      }
      ghost var c := State();
      ghost var e := MeaningOf(env);
      var snapshot := Unblocked();
      ghost var snap := Bits(snapshot);
      out := [];
      for sig := 0 to NUM_SIGNALS
        invariant Valid() && Reached(c, snap, e, sig, State(), out)
      {
        ghost var d, sent := State(), out;
        var due := IsSet(snapshot, sig);
        if due {
          var handler := Deliver(sig, env[sig]);
          out := out + [Delivery(sig, handler)];
        }
        ReachedNext(c, snap, e, sig, d, sent);
      }
    }

    /** signal.c:178 */
    method Unblocked() returns (w: bv32)
      ensures Bits(w) == Snapshot(State())
    {
      MinusBits(pending, blocked);
      w := pending & !blocked;
    }

    /** signal.c:182-194 */
    method Deliver(sig: nat, calls: seq<Call>) returns (handler: Handler)
      requires Valid() && sig < NUM_SIGNALS
      modifies this, handlers
      ensures Valid() && handler == old(State()).handlers[sig]
      ensures State() == ActAll(old(State()).(pending := old(State()).pending - {sig}), Meanings(calls))
    {
      handler := handlers[sig];
      Clear(sig);
      Interlude(calls);
    }

    /** signal.c:184 */
    method Clear(sig: nat)
      requires Valid() && sig < NUM_SIGNALS
      modifies this
      ensures Valid() && State() == old(State()).(pending := old(State()).pending - {sig})
    {
      MinusBits(pending, Bit(sig));
      SingleBits(sig);
      pending := pending & !Bit(sig);
    }
  }
}
