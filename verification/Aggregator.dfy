/**
 The relayer's event aggregator: events are batched until the batch is full, a timeout passes or
 the channel closes, then dispatched as relay commands.
 */
module Aggregator {
  import opened ModularArithmetic
  import opened Subsequence

  datatype EpochEvent = EpochEvent(chainId: nat, epochId: nat, nullifierRoot: string, nullifierCount: nat)

  datatype Command =
    | SubmitToRegistry(sourceChainId: nat, epochId: nat, nullifierRoot: string, nullifierCount: nat)
    | SendToChain(targetChainId: nat, sourceChainId: nat, epochId: nat, nullifierRoot: string)

  datatype Chain = Chain(chainId: nat, hasAdapter: bool)

  datatype Config = Config(chains: seq<Chain>, batching: bool, batchSize: nat, jitter: bool, maxJitterMs: nat)

  /** What the loop waits for: an event, the batch timeout, or the end of the channel. */
  datatype Input = Arrives(event: EpochEvent) | Timeout | Closed

  datatype Status = Running | Stopped | Panicked

  datatype State = State(status: Status, batch: seq<EpochEvent>, sent: seq<Command>)

  // ----- Commands of events -----

  function Relays(chains: seq<Chain>, e: EpochEvent): seq<Command> {
    if chains == [] then []
    else
      var front, c := Relays(chains[..|chains| - 1], e), chains[|chains| - 1];
      if c.chainId == e.chainId || !c.hasAdapter then front
      else front + [SendToChain(c.chainId, e.chainId, e.epochId, e.nullifierRoot)]
  }

  /** The registry first, then every other chain that has a bridge adapter. */
  function Dispatch(cfg: Config, e: EpochEvent): seq<Command> {
    [SubmitToRegistry(e.chainId, e.epochId, e.nullifierRoot, e.nullifierCount)] + Relays(cfg.chains, e)
  }

  function DispatchAll(cfg: Config, events: seq<EpochEvent>): seq<Command> {
    if events == [] then [] else DispatchAll(cfg, events[..|events| - 1]) + Dispatch(cfg, events[|events| - 1])
  }

  /** A chain other than the event's own that has a bridge adapter. */
  function Qualifies(e: EpochEvent): Chain -> bool {
    (c: Chain) => c.chainId != e.chainId && c.hasAdapter
  }

  /** A relay of this event to chain `target`. */
  predicate Carries(c: Command, target: nat, e: EpochEvent) {
    && c.SendToChain? && c.targetChainId == target
    && c.sourceChainId == e.chainId && c.epochId == e.epochId && c.nullifierRoot == e.nullifierRoot
  }

  /** The commands are relays of this event to the chains at these positions. */
  ghost predicate GoTo(cs: seq<Command>, chains: seq<Chain>, e: EpochEvent, at: seq<nat>) {
    |cs| == |at| && forall i :: 0 <= i < |at| ==> at[i] < |chains| && Carries(cs[i], chains[at[i]].chainId, e)
  }

  /** The relays go to the qualifying chains in configuration order, each carrying the event's source, epoch and root. */
  lemma {:induction false} RelayTargets(chains: seq<Chain>, e: EpochEvent) returns (at: seq<nat>)
    ensures Picks(chains, Qualifies(e), at) && GoTo(Relays(chains, e), chains, e, at)
    decreases |chains|
  {
    if chains == [] {
      return [];
    }
    var n := |chains| - 1;
    var front := RelayTargets(chains[..n], e);
    assert chains == chains[..n] + [chains[n]];
    if Qualifies(e)(chains[n]) {
      at := front + [n];
      PickLast(chains[..n], chains[n], Qualifies(e), front);
    } else {
      at := front;
      SkipLast(chains[..n], chains[n], Qualifies(e), front);
    }
    GoToLonger(Relays(chains[..n], e), chains[..n], chains, e, front);
  }

  lemma GoToLonger(cs: seq<Command>, a: seq<Chain>, b: seq<Chain>, e: EpochEvent, at: seq<nat>)
    requires GoTo(cs, a, e, at) && a <= b
    ensures GoTo(cs, b, e, at)
  {
  }

  /**
   What one event becomes: the registry command with its four fields, then relays only; a relay is
   sent exactly when it carries the event's source, epoch and root to another configured chain with an adapter.
   */
  lemma DispatchMeans(cfg: Config, e: EpochEvent)
    ensures var d := Dispatch(cfg, e);
      && d[0].SubmitToRegistry? && d[0].sourceChainId == e.chainId && d[0].epochId == e.epochId
      && d[0].nullifierRoot == e.nullifierRoot && d[0].nullifierCount == e.nullifierCount
      && (forall i :: 1 <= i < |d| ==> d[i].SendToChain?)
    ensures forall t, s, n, r :: SendToChain(t, s, n, r) in Dispatch(cfg, e) <==>
      && s == e.chainId && n == e.epochId && r == e.nullifierRoot && t != e.chainId
      && exists k :: 0 <= k < |cfg.chains| && cfg.chains[k].chainId == t && cfg.chains[k].hasAdapter
  {
    var d, rs := Dispatch(cfg, e), Relays(cfg.chains, e);
    var at := RelayTargets(cfg.chains, e);
    assert forall i :: 1 <= i < |d| ==> d[i] == rs[i - 1];
    forall k | 0 <= k < |cfg.chains| && Qualifies(e)(cfg.chains[k])
      ensures SendToChain(cfg.chains[k].chainId, e.chainId, e.epochId, e.nullifierRoot) in d
    {
      var i :| 0 <= i < |at| && at[i] == k;
      assert d[i + 1] == rs[i];
    }
  }

  lemma {:induction false} DispatchAllAppend(cfg: Config, a: seq<EpochEvent>, b: seq<EpochEvent>)
    ensures DispatchAll(cfg, a + b) == DispatchAll(cfg, a) + DispatchAll(cfg, b)
    decreases |b|
  {
    if b == [] {
      assert a + b == a;
    } else {
      DispatchAllAppend(cfg, a, b[..|b| - 1]);
      assert (a + b)[..|a + b| - 1] == a + b[..|b| - 1];
    }
  }

  // ----- The machine -----

  /** Drawing a jitter from an empty range panics, before the first event of the batch goes out. */
  predicate FlushPanics(cfg: Config) {
    cfg.jitter && cfg.maxJitterMs == 0
  }

  function Flush(cfg: Config, s: State): State {
    if s.batch == [] then s
    else if FlushPanics(cfg) then s.(status := Panicked)
    else s.(batch := [], sent := s.sent + DispatchAll(cfg, s.batch))
  }

  function Step(cfg: Config, s: State, i: Input): State {
    if s.status != Running then s else
    match i
    case Arrives(e) =>
      if !cfg.batching then s.(sent := s.sent + Dispatch(cfg, e))
      else
        var t := s.(batch := s.batch + [e]);
        if |t.batch| >= cfg.batchSize then Flush(cfg, t) else t
    case Timeout => if cfg.batching then Flush(cfg, s) else s
    case Closed =>
      var t := Flush(cfg, s);
      if t.status == Panicked then t else t.(status := Stopped)
  }

  function Run(cfg: Config, inputs: seq<Input>): State {
    if inputs == [] then State(Running, [], []) else Step(cfg, Run(cfg, inputs[..|inputs| - 1]), inputs[|inputs| - 1])
  }

  /** The events that arrive before the channel closes. */
  function Received(inputs: seq<Input>): seq<EpochEvent> {
    if inputs == [] then []
    else
      var front, last := inputs[..|inputs| - 1], inputs[|inputs| - 1];
      if last.Arrives? && Closed !in front then Received(front) + [last.event] else Received(front)
  }

  // ----- The loop -----

  method DispatchEvent(cfg: Config, e: EpochEvent, sent: seq<Command>) returns (out: seq<Command>)
    ensures out == sent + Dispatch(cfg, e)
  {
    out := sent + [SubmitToRegistry(e.chainId, e.epochId, e.nullifierRoot, e.nullifierCount)];
    ghost var first := out;
    for i := 0 to |cfg.chains|
      invariant out == first + Relays(cfg.chains[..i], e)
    {
      assert cfg.chains[..i + 1][..i] == cfg.chains[..i];
      var chain := cfg.chains[i];
      if chain.chainId == e.chainId {
        continue;
      }
      if !chain.hasAdapter {
        continue;
      }
      out := out + [SendToChain(chain.chainId, e.chainId, e.epochId, e.nullifierRoot)];
    }
    assert cfg.chains[..|cfg.chains|] == cfg.chains;
  }

  method FlushBatch(cfg: Config, batch: seq<EpochEvent>, sent: seq<Command>) returns (panicked: bool, out: seq<Command>)
    ensures panicked == (batch != [] && FlushPanics(cfg))
    ensures out == if panicked then sent else sent + DispatchAll(cfg, batch)
  {
    out := sent;
    for i := 0 to |batch|
      invariant out == sent + DispatchAll(cfg, batch[..i])
      invariant i > 0 ==> !FlushPanics(cfg)
    {
      if cfg.jitter && cfg.maxJitterMs == 0 {
        assert batch[..0] == [];
        return true, out;
      }
      assert batch[..i + 1][..i] == batch[..i];
      out := DispatchEvent(cfg, batch[i], out);
    }
    assert batch[..|batch|] == batch;
    return false, out;
  }

  method RunAggregator(cfg: Config, inputs: seq<Input>) returns (status: Status, batch: seq<EpochEvent>, sent: seq<Command>)
    ensures State(status, batch, sent) == Run(cfg, inputs)
  {
    status, batch, sent := Running, [], [];
    for n := 0 to |inputs|
      invariant State(status, batch, sent) == Run(cfg, inputs[..n])
    {
      assert inputs[..n + 1][..n] == inputs[..n];
      if status != Running {
        continue;
      }
      var flush := false;
      match inputs[n] {
        case Timeout => flush := cfg.batching;
        case Arrives(ev) =>
          if cfg.batching {
            batch := batch + [ev];
            flush := |batch| >= cfg.batchSize;
          } else {
            sent := DispatchEvent(cfg, ev, sent);
          }
        case Closed => flush := true;
      }
      var panicked := false;
      if flush && batch != [] {
        panicked, sent := FlushBatch(cfg, batch, sent);
        if panicked {
          status := Panicked;
        } else {
          batch := [];
        }
      }
      if inputs[n].Closed? && !panicked {
        status := Stopped;
      }
    }
    assert inputs[..|inputs|] == inputs;
  }

  // ----- Batching is invisible -----

  /** What has been sent is a prefix of the received events, and the batch is exactly the rest. */
  ghost predicate Faithful(cfg: Config, s: State, received: seq<EpochEvent>) {
    && |s.batch| <= |received|
    && s.sent == DispatchAll(cfg, received[..|received| - |s.batch|])
    && s.batch == received[|received| - |s.batch|..]
  }

  lemma FlushKeepsFaithful(cfg: Config, s: State, received: seq<EpochEvent>)
    requires Faithful(cfg, s, received) && !FlushPanics(cfg)
    ensures Faithful(cfg, Flush(cfg, s), received) && Flush(cfg, s).batch == []
  {
    var k := |received| - |s.batch|;
    assert received == received[..k] + received[k..];
    DispatchAllAppend(cfg, received[..k], received[k..]);
    assert received[..|received|] == received;
  }

  /** Unless a flush panics, every state of every interleaving is faithful and holds less than a full batch. */
  lemma {:induction false} EveryStateFaithful(cfg: Config, inputs: seq<Input>)
    requires !(cfg.batching && cfg.jitter && cfg.maxJitterMs == 0)
    ensures var s := Run(cfg, inputs);
      && Faithful(cfg, s, Received(inputs))
      && |s.batch| < (if cfg.batchSize > 1 then cfg.batchSize else 1)
      && s.status == (if Closed in inputs then Stopped else Running)
      && (Closed in inputs || !cfg.batching ==> s.batch == [])
    decreases |inputs|
  {
    if inputs != [] {
      var n := |inputs| - 1;
      var front, i := inputs[..n], inputs[n];
      EveryStateFaithful(cfg, front);
      assert inputs == front + [i];
      var s, got := Run(cfg, front), Received(front);
      if s.status == Running {
        StepFaithful(cfg, s, got, i);
      }
    }
  }

  lemma StepFaithful(cfg: Config, s: State, got: seq<EpochEvent>, i: Input)
    requires Faithful(cfg, s, got) && s.status == Running && !(cfg.batching && FlushPanics(cfg))
    requires |s.batch| < (if cfg.batchSize > 1 then cfg.batchSize else 1) && (!cfg.batching ==> s.batch == [])
    ensures var t, now := Step(cfg, s, i), if i.Arrives? then got + [i.event] else got;
      && Faithful(cfg, t, now)
      && |t.batch| < (if cfg.batchSize > 1 then cfg.batchSize else 1)
      && t.status == (if i.Closed? then Stopped else Running)
      && (i.Closed? || !cfg.batching ==> t.batch == [])
  {
    if i.Arrives? {
      if cfg.batching {
        QueueKeepsFaithful(cfg, s, got, i.event);
        FlushKeepsFaithful(cfg, s.(batch := s.batch + [i.event]), got + [i.event]);
      } else {
        SendKeepsFaithful(cfg, s, got, i.event);
      }
    } else if cfg.batching {
      FlushKeepsFaithful(cfg, s, got);
    }
  }

  lemma QueueKeepsFaithful(cfg: Config, s: State, got: seq<EpochEvent>, e: EpochEvent)
    requires Faithful(cfg, s, got)
    ensures Faithful(cfg, s.(batch := s.batch + [e]), got + [e])
  {
    var k := |got| - |s.batch|;
    assert (got + [e])[..k] == got[..k] && (got + [e])[k..] == got[k..] + [e];
  }

  lemma SendKeepsFaithful(cfg: Config, s: State, got: seq<EpochEvent>, e: EpochEvent)
    requires Faithful(cfg, s, got) && s.batch == []
    ensures Faithful(cfg, s.(sent := s.sent + Dispatch(cfg, e)), got + [e])
  {
    var now := got + [e];
    assert got[..|got|] == got && now[..|now|] == now && now[..|got|] == got;
  }

  /** How many events arrived since the last timeout. */
  function SinceTimeout(inputs: seq<Input>): nat {
    if inputs == [] then 0
    else
      var front, last := SinceTimeout(inputs[..|inputs| - 1]), inputs[|inputs| - 1];
      if last.Arrives? then front + 1 else if last.Timeout? then 0 else front
  }

  lemma NextInCycle(n: nat, size: nat)
    requires size > 0
    ensures (n + 1) % size == if n % size + 1 == size then 0 else n % size + 1
  {
    if n % size + 1 == size {
      ModUnique(n + 1, n / size + 1, 0, size);
    } else {
      ModUnique(n + 1, n / size, n % size + 1, size);
    }
  }

  /** Neither too early nor too late: what waits is what arrived since the last timeout, less the full batches. */
  lemma {:induction false} BatchFillsUp(cfg: Config, inputs: seq<Input>)
    requires cfg.batching && !(cfg.jitter && cfg.maxJitterMs == 0) && Closed !in inputs
    ensures |Run(cfg, inputs).batch| == SinceTimeout(inputs) % (if cfg.batchSize > 1 then cfg.batchSize else 1)
    decreases |inputs|
  {
    if inputs != [] {
      var n := |inputs| - 1;
      EveryStateFaithful(cfg, inputs[..n]);
      BatchFillsUp(cfg, inputs[..n]);
      assert inputs[n] in inputs;
      StepFills(cfg, Run(cfg, inputs[..n]), inputs[n], SinceTimeout(inputs[..n]));
    }
  }

  lemma StepFills(cfg: Config, s: State, i: Input, n: nat)
    requires cfg.batching && !FlushPanics(cfg) && s.status == Running && !i.Closed?
    requires |s.batch| == n % (if cfg.batchSize > 1 then cfg.batchSize else 1)
    ensures |Step(cfg, s, i).batch| == (if i.Arrives? then n + 1 else 0) % (if cfg.batchSize > 1 then cfg.batchSize else 1)
  {
    var size := if cfg.batchSize > 1 then cfg.batchSize else 1;
    NextInCycle(n, size);
    ModUnique(0, 0, 0, size);
  }

  /** With an empty jitter range the first flush panics, so a batching relayer never sends anything. */
  lemma {:induction false} PanicSendsNothing(cfg: Config, inputs: seq<Input>)
    requires cfg.batching && cfg.jitter && cfg.maxJitterMs == 0
    ensures Run(cfg, inputs).sent == []
    decreases |inputs|
  {
    if inputs != [] {
      PanicSendsNothing(cfg, inputs[..|inputs| - 1]);
    }
  }

  /** A timeout or the close came with an event received before it. */
  ghost predicate Interrupted(inputs: seq<Input>) {
    exists k :: 0 <= k < |inputs| && !inputs[k].Arrives? && Received(inputs[..k]) != []
  }

  lemma InterruptedNext(front: seq<Input>, last: Input)
    ensures Interrupted(front + [last]) <==> Interrupted(front) || (!last.Arrives? && Received(front) != [])
  {
    var inputs, n := front + [last], |front|;
    assert forall k :: 0 <= k <= n ==> inputs[..k] == front[..k];
    assert front[..n] == front;
    if k :| 0 <= k < n && !front[k].Arrives? && Received(front[..k]) != [] {
      assert !inputs[k].Arrives? && Received(inputs[..k]) != [];
    }
    if !last.Arrives? && Received(front) != [] {
      assert !inputs[n].Arrives? && Received(inputs[..n]) != [];
    }
  }

  /** A flush was due: a batch was full, or something else than an event came while one was waiting. */
  ghost predicate FlushDue(cfg: Config, inputs: seq<Input>) {
    (Received(inputs) != [] && |Received(inputs)| >= cfg.batchSize) || Interrupted(inputs)
  }

  lemma ReceivedNext(front: seq<Input>, last: Input)
    ensures Received(front + [last]) == if last.Arrives? && Closed !in front then Received(front) + [last.event] else Received(front)
    ensures Closed in front + [last] <==> Closed in front || last.Closed?
  {
    assert (front + [last])[..|front|] == front;
  }

  /** What `PanicsWhenDue` says of one state. */
  ghost predicate PanicState(cfg: Config, s: State, inputs: seq<Input>) {
    && (s.status == Panicked <==> FlushDue(cfg, inputs))
    && (s.status == Stopped ==> Closed in inputs && Received(inputs) == [])
    && (s.status == Running ==> Closed !in inputs && s.batch == Received(inputs))
  }

  lemma PanicStep(cfg: Config, s: State, front: seq<Input>, last: Input)
    requires cfg.batching && cfg.jitter && cfg.maxJitterMs == 0 && PanicState(cfg, s, front)
    ensures PanicState(cfg, Step(cfg, s, last), front + [last])
  {
    InterruptedNext(front, last);
    ReceivedNext(front, last);
  }

  /** With an empty jitter range a batching relayer panics exactly at the first flush that is due. */
  lemma {:induction false} PanicsWhenDue(cfg: Config, inputs: seq<Input>)
    requires cfg.batching && cfg.jitter && cfg.maxJitterMs == 0
    ensures PanicState(cfg, Run(cfg, inputs), inputs)
    decreases |inputs|
  {
    if inputs != [] {
      var n := |inputs| - 1;
      PanicsWhenDue(cfg, inputs[..n]);
      PanicStep(cfg, Run(cfg, inputs[..n]), inputs[..n], inputs[n]);
      assert inputs == inputs[..n] + [inputs[n]];
    }
  }

  /**
   Once the channel is closed, the batched relayer has sent exactly what the unbatched one has,
   if and only if flushing cannot panic or nothing was received.
   */
  lemma BatchingIsInvisible(cfg: Config, inputs: seq<Input>)
    requires cfg.batching && Closed in inputs
    ensures Run(cfg.(batching := false), inputs).sent == DispatchAll(cfg, Received(inputs))
    ensures Run(cfg, inputs).sent == Run(cfg.(batching := false), inputs).sent
       <==> !(cfg.jitter && cfg.maxJitterMs == 0) || Received(inputs) == []
  {
    var plain, got := cfg.(batching := false), Received(inputs);
    EveryStateFaithful(plain, inputs);
    assert got[..|got|] == got;
    SameDispatch(cfg, plain, got);
    if FlushPanics(cfg) {
      PanicSendsNothing(cfg, inputs);
    } else {
      EveryStateFaithful(cfg, inputs);
    }
  }

  lemma {:induction false} SameDispatch(a: Config, b: Config, events: seq<EpochEvent>)
    requires a.chains == b.chains
    ensures DispatchAll(a, events) == DispatchAll(b, events)
    decreases |events|
  {
    if events != [] {
      SameDispatch(a, b, events[..|events| - 1]);
    }
  }
}
