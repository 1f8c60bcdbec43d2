/** The worker of lib/nrf_softsim.c with the file system under it: the drain loop, the request
    handler and the commit after a session request or an ENVELOPE. */
module Workers {
  import opened Bytes
  import opened FileSystems
  import opened SimCore
  import opened Recovery
  import Steps
  import PlainFs
  import Cache
  import P = Protocol

  /** What the SIM core does to files in each call made to it, and what it answers. */
  datatype CoreWork = CoreWork(onNew: seq<Op>, onReset: seq<Op>, onAtr: seq<Op>, onPoll: seq<Op>,
                               onTransact: seq<Op>, onFree: seq<Op>, suspended: bool, granted: bool)

  /** A request that interrupts the worker, and whether the handler gets a node for it. */
  datatype Arrival = Arrival(req: P.Request, node: bool)

  /** One turn of the drain loop: what arrives before it and what the core does in it. */
  datatype TurnInput = TurnInput(arrivals: seq<Arrival>, work: CoreWork)

  const IDLE := TurnInput([], CoreWork([], [], [], [], [], [], false, false))

  /** The requests that got a node, in the order they arrived. */
  function WithNode(arrivals: seq<Arrival>): seq<P.Request> {
    if arrivals == [] then [] else
      var last := arrivals[|arrivals| - 1];
      WithNode(arrivals[..|arrivals| - 1]) + if last.node then [last.req] else []
  }

  function Requests(arrivals: seq<Arrival>): seq<P.Request> {
    seq(|arrivals|, i requires 0 <= i < |arrivals| => arrivals[i].req)
  }

  /** What arrived over these turns: every request, and those that got a node. */
  function ArrivedIn(turns: seq<TurnInput>): (seq<P.Request>, seq<P.Request>) {
    if turns == [] then ([], []) else
      var (all, nodes) := ArrivedIn(turns[..|turns| - 1]);
      var last := turns[|turns| - 1].arrivals;
      (all + Requests(last), nodes + WithNode(last))
  }

  /** The protocol has taken in what arrived over these turns, and nothing else. */
  ghost predicate TookIn(before: P.State, turns: seq<TurnInput>, after: P.State) {
    && after.delivered == before.delivered + ArrivedIn(turns).0
    && after.accepted == before.accepted + ArrivedIn(turns).1
  }

  lemma NothingYet(p: P.State)
    ensures p == P.Run(p, []) && TookIn(p, [], p)
  {
  }

  lemma TookInMore(before: P.State, turns: seq<TurnInput>, i: nat, s: P.State, t: P.State, arrivals: seq<Arrival>)
    requires i <= |turns| && TookIn(before, turns[..i], s)
    requires arrivals == if i < |turns| then turns[i].arrivals else []
    requires t.delivered == s.delivered + Requests(arrivals) && t.accepted == s.accepted + WithNode(arrivals)
    ensures TookIn(before, turns[..if i < |turns| then i + 1 else i], t)
  {
    if i < |turns| {
      assert turns[..i + 1][..i] == turns[..i];
    }
  }

  /** Nothing that is visible is missing from flash. */
  ghost predicate Synced(fs: FileSystem)
    reads fs, fs.slots, fs.nvs
  {
    Cache.AllClean(fs.slots[..]) && fs.view == fs.nvs.records
  }

  /** What a request does to the mount: INIT mounts, DEINIT unmounts, nothing else touches it, and a
      suspended card keeps its file system either way. `accepted` is that NVS refused no write,
      `healthy` that no read and no allocation failed. */
  predicate MountFollows(r: P.Request, ctx: bool, work: CoreWork, was: bool, up: bool, mountable: bool,
                         accepted: bool, healthy: bool)
  {
    if r.cmd == P.Init && (ctx || work.granted) && !work.suspended then
      (was ==> up) && (up ==> was || mountable) && (healthy && mountable ==> up)
    else if r.cmd == P.Deinit && ctx && !work.suspended then
      if accepted then !up else up ==> was
    else up == was
  }

  class Softsim {
    const fs: FileSystem
    /** The SIM context handle is set. */
    var ctx: bool
    /** softsim_req_fifo */
    var fifo: seq<P.Request>
    /** Where the interleaved protocol is. */
    ghost var p: P.State
    /** Every call made into the SIM core. */
    ghost var calls: seq<P.CoreCall>
    /** Every nrf_modem_softsim_res() and nrf_modem_softsim_err() of the worker, and of the handler. */
    ghost var answers: seq<P.Answer>
    ghost var refusals: seq<P.Answer>
    /** Every nrf_modem_softsim_data_free(), and every port_free() of a request node. */
    ghost var dataFreed: seq<bytes>
    ghost var nodesFreed: seq<P.Request>

    ghost predicate Valid()
      reads this, fs, fs.slots, fs.nvs, fs.heap
    {
      fs.Valid() && fs.current < 0 && Follows() && P.Inv(p)
    }

    /** What the code has done is what the protocol says has happened. */
    ghost predicate Follows()
      reads this
    {
      && p.fifo == fifo && p.ctx == ctx && p.calls == calls
      && p.answers == answers && p.refusals == refusals
      && p.released == nodesFreed && p.dataFreed == dataFreed
    }

    /** The end of nrf_softsim_init(): the context allocation may fail. */
    constructor (fs: FileSystem, granted: bool)
      requires fs.Valid() && fs.current < 0
      ensures Valid() && this.fs == fs && p == P.Initial(granted)
    {
      this.fs, ctx, fifo, p, calls := fs, granted, [], P.Initial(granted), [];
      answers, refusals, dataFreed, nodesFreed := [], [], [], [];
      new;
      P.InvRun(granted, []);
    }

    /** nrf_modem_softsim_req_handler(), which runs in an interrupt. */
    method ReqHandler(a: Arrival) returns (ghost steps: seq<P.Step>)
      requires Valid() && p.isr == P.Quiet
      modifies this`fifo, this`p, this`refusals
      ensures Valid() && p.isr == P.Quiet && p.worker == old(p).worker
      ensures p == P.Run(old(p), steps)
      // A request that gets a node goes to the back of the queue and the worker is woken after.
      ensures steps == [P.Deliver(a.req, a.node)] + if a.node then [P.Submit] else []
      ensures fifo == old(fifo) + if a.node then [a.req] else []
      // One that gets none is answered with an error at once.
      ensures refusals == old(refusals) + if a.node then [] else [P.Err(a.req.cmd, a.req.id)]
      ensures p.accepted == old(p).accepted + if a.node then [a.req] else []
      ensures p.delivered == old(p).delivered + [a.req]
    {
      hide P.Inv, P.Run, Steps.Tracks, Steps.Good, Steps.Blocks;
      ghost var s := p;
      P.RunOne(s, P.Deliver(a.req, a.node));
      P.InvStep(p, P.Deliver(a.req, a.node));
      p := P.Next(p, P.Deliver(a.req, a.node));
      steps := [P.Deliver(a.req, a.node)];
      if !a.node {
        refusals := refusals + [P.Err(a.req.cmd, a.req.id)];
        return;
      }
      fifo := fifo + [a.req];
      P.RunOn(s, steps, P.Submit);
      P.InvStep(p, P.Submit);
      p := P.Next(p, P.Submit);
      steps := steps + [P.Submit];
    }

    /** The switch of softsim_req_task(). */
    method Execute(r: P.Request, work: CoreWork)
      requires fs.Valid() && fs.current < 0
      modifies this`ctx, this`calls, this`answers, fs, fs.slots, fs.nvs, fs.heap
      ensures fs.Valid() && fs.current < 0 && old(fs.history) <= fs.history
      ensures fs.nvs.refused >= old(fs.nvs.refused)
      ensures ctx == P.Serve(r, old(ctx), work.suspended, work.granted).ctx
      ensures answers == old(answers) + [P.AnswerTo(r, P.Serve(r, old(ctx), work.suspended, work.granted).ok)]
      ensures calls == old(calls) + P.Serve(r, old(ctx), work.suspended, work.granted).calls
      // The answer: res, except to an unknown request and to an INIT that gets no context.
      ensures |answers| == |old(answers)| + 1 && old(answers) < answers
      ensures answers[|old(answers)|] ==
                if r.cmd.Unknown? || (r.cmd == P.Init && !old(ctx) && !work.granted) then P.Err(r.cmd, r.id)
                else P.Res(r.cmd, r.id)
      // The calls made for an APDU: a poll first if its second byte is that of STATUS.
      ensures r.cmd == P.Apdu ==>
                calls == old(calls) + if r.payload.Some? && |r.payload.value| > 1 && r.payload.value[1] == 0xF2
                                      then [P.CoreCall(P.Poll, old(ctx)), P.CoreCall(P.Transact, old(ctx))]
                                      else [P.CoreCall(P.Transact, old(ctx))]
      ensures r.cmd == P.Reset ==> calls == old(calls) + [P.CoreCall(P.ResetCard, old(ctx))]
      // The context: an INIT sets it if it can, a DEINIT clears it unless suspended.
      ensures ctx == match r.cmd
                     case Init => old(ctx) || work.granted
                     case Deinit => old(ctx) && work.suspended
                     case _ => old(ctx)
      ensures MountFollows(r, old(ctx), work, old(fs.initialized), fs.initialized, fs.base.boot != map[],
                           fs.nvs.refused == old(fs.nvs.refused),
                           fs.nvs.faults == old(fs.nvs.faults) && fs.heap.failures == old(fs.heap.failures))
      ensures r.cmd == P.Apdu && work.onPoll == [] && work.onTransact == [] ==> fs.history == old(fs.history)
    {
      hide Steps.Tracks, Steps.Good, Steps.Blocks, P.Serve;
      P.ServeCases(r, ctx, work.suspended, work.granted);
      match r.cmd
      case Init =>
        var ok := StartSession(work);
        answers := answers + [if ok then P.Res(r.cmd, r.id) else P.Err(r.cmd, r.id)];
      case Apdu =>
        HandleApdu(r, work);
        answers := answers + [P.Res(r.cmd, r.id)];
      case Deinit =>
        EndSession(work);
        answers := answers + [P.Res(r.cmd, r.id)];
      case Reset =>
        CallCore(P.ResetCard, ctx, work.onReset);
        answers := answers + [P.Res(r.cmd, r.id)];
      case Unknown(_) =>
        answers := answers + [P.Err(r.cmd, r.id)];
    }

    /** An APDU: a STATUS runs the core's proactive tasks first. */
    method HandleApdu(r: P.Request, work: CoreWork)
      requires fs.Valid() && fs.current < 0 && r.cmd == P.Apdu
      modifies this`calls, fs, fs.slots, fs.nvs, fs.heap
      ensures fs.Valid() && fs.current < 0 && old(fs.history) <= fs.history && fs.initialized == old(fs.initialized)
      ensures fs.nvs.refused >= old(fs.nvs.refused)
      ensures calls == old(calls) + P.Serve(r, ctx, work.suspended, work.granted).calls
      ensures work.onPoll == [] && work.onTransact == [] ==> fs.history == old(fs.history)
    {
      hide Steps.Tracks, Steps.Good, Steps.Blocks, P.Ins;
      if P.Ins(r) == P.INS_STATUS {
        CallCore(P.Poll, ctx, work.onPoll);
      }
      CallCore(P.Transact, ctx, work.onTransact);
    }

    /** A call into the SIM core, which may do anything to files. */
    method CallCore(kind: P.Kind, live: bool, script: seq<Op>)
      requires fs.Valid() && fs.current < 0
      modifies this`calls, fs, fs.slots, fs.nvs, fs.heap
      ensures fs.Valid() && fs.current < 0 && old(fs.history) <= fs.history && fs.initialized == old(fs.initialized)
      ensures fs.nvs.refused >= old(fs.nvs.refused)
      ensures fs.nvs.faults >= old(fs.nvs.faults) && fs.heap.failures >= old(fs.heap.failures)
      ensures calls == old(calls) + [P.CoreCall(kind, live)]
      ensures script == [] ==> fs.history == old(fs.history)
    {
      calls := calls + [P.CoreCall(kind, live)];
      var skipped := RunCore(fs, script);
    }

    /** INIT: a context if there is none, then, unless suspended, reset and mount. */
    method StartSession(work: CoreWork) returns (ok: bool)
      requires fs.Valid() && fs.current < 0
      modifies this`ctx, this`calls, fs, fs.slots, fs.nvs, fs.heap
      ensures fs.Valid() && fs.current < 0 && old(fs.history) <= fs.history
      ensures fs.nvs.refused >= old(fs.nvs.refused)
      ensures fs.nvs.faults >= old(fs.nvs.faults) && fs.heap.failures >= old(fs.heap.failures)
      ensures ctx == ok == (old(ctx) || work.granted)
      ensures calls == old(calls) + P.InitCalls(old(ctx), work.suspended, work.granted)
      ensures !ok || work.suspended ==> fs.initialized == old(fs.initialized)
      ensures ok && !work.suspended ==>
                && (old(fs.initialized) ==> fs.initialized)
                && (fs.initialized ==> old(fs.initialized) || fs.base.boot != map[])
                && (fs.nvs.faults == old(fs.nvs.faults) && fs.heap.failures == old(fs.heap.failures) ==>
                      fs.base.boot != map[] ==> fs.initialized)
    {
      hide Steps.Tracks, Steps.Good, Steps.Blocks, PlainFs.Legal, Cache.Mountable;
      if !ctx {
        CallCore(P.NewCtx, work.granted, work.onNew);
        ctx := work.granted;
        if !ctx {
          return false;
        }
      }
      if !work.suspended {
        CallCore(P.ResetCard, ctx, work.onReset);
        Steps.MountableBoot(fs.base, fs.history, fs.St());
        var rc := fs.InitFs();
      }
      CallCore(P.Atr, ctx, work.onAtr);
      return true;
    }

    /** DEINIT: unless suspended, free the context and unmount. */
    method EndSession(work: CoreWork)
      requires fs.Valid() && fs.current < 0
      modifies this`ctx, this`calls, fs, fs.slots, fs.nvs, fs.heap
      ensures fs.Valid() && fs.current < 0 && old(fs.history) <= fs.history
      ensures fs.nvs.refused >= old(fs.nvs.refused)
      ensures ctx == (old(ctx) && work.suspended)
      ensures calls == old(calls) + if old(ctx) && !work.suspended then [P.CoreCall(P.FreeCtx, true)] else []
      ensures !old(ctx) || work.suspended ==> fs.St() == old(fs.St())
      ensures old(ctx) && !work.suspended ==>
                if fs.nvs.refused == old(fs.nvs.refused) then !fs.initialized
                else fs.initialized ==> old(fs.initialized)
    {
      hide Steps.Tracks, Steps.Good, Steps.Blocks, PlainFs.Legal;
      if ctx && !work.suspended {
        CallCore(P.FreeCtx, ctx, work.onFree);
        ctx := false;
        var rc := fs.DeinitFs();
      }
    }

    /** Serve one request to the end: answer it, commit if it calls for it, release it. */
    method ServeOne(r: P.Request, work: CoreWork) returns (rc: int)
      requires fs.Valid() && fs.current < 0
      modifies this`ctx, this`calls, this`answers, this`dataFreed, this`nodesFreed, fs, fs.slots, fs.nvs, fs.heap
      ensures fs.Valid() && fs.current < 0 && old(fs.history) <= fs.history
      ensures fs.nvs.refused >= old(fs.nvs.refused)
      ensures ctx == P.Serve(r, old(ctx), work.suspended, work.granted).ctx
      ensures calls == old(calls) + P.Serve(r, old(ctx), work.suspended, work.granted).calls
      // The answer: res, except to an unknown request and to an INIT that gets no context.
      ensures |answers| == |old(answers)| + 1 && old(answers) < answers
      ensures answers[|old(answers)|] ==
                if r.cmd.Unknown? || (r.cmd == P.Init && !old(ctx) && !work.granted) then P.Err(r.cmd, r.id)
                else P.Res(r.cmd, r.id)
      // The calls made for an APDU: a poll first if its second byte is that of STATUS.
      ensures r.cmd == P.Apdu ==>
                calls == old(calls) + if r.payload.Some? && |r.payload.value| > 1 && r.payload.value[1] == 0xF2
                                      then [P.CoreCall(P.Poll, old(ctx)), P.CoreCall(P.Transact, old(ctx))]
                                      else [P.CoreCall(P.Transact, old(ctx))]
      ensures r.cmd == P.Reset ==> calls == old(calls) + [P.CoreCall(P.ResetCard, old(ctx))]
      // The context: an INIT sets it if it can, a DEINIT clears it unless suspended.
      ensures ctx == match r.cmd
                     case Init => old(ctx) || work.granted
                     case Deinit => old(ctx) && work.suspended
                     case _ => old(ctx)
      // One answer, and the node and payload released once.
      ensures answers == old(answers) + [P.AnswerTo(r, P.Serve(r, old(ctx), work.suspended, work.granted).ok)]
      ensures nodesFreed == old(nodesFreed) + [r]
      ensures dataFreed == old(dataFreed) + if r.payload.Some? then [r.payload.value] else []
      // Durability: whatever the core did, after INIT, RESET, DEINIT, an unknown request or an ENVELOPE,
      // whose second byte is 0xC2, no slot is dirty and flash has everything, unless NVS refused a write.
      ensures r.cmd != P.Apdu && fs.nvs.refused == old(fs.nvs.refused) ==> Synced(fs)
      ensures r.cmd == P.Apdu && r.payload.Some? && |r.payload.value| > 1 && r.payload.value[1] == 0xC2 ==>
                fs.nvs.refused == old(fs.nvs.refused) ==> Synced(fs)
      ensures P.Commits(r) && fs.nvs.refused == old(fs.nvs.refused) ==> Synced(fs)
      // Exactly: unless the commit after serving it was refused a write.
      ensures P.Commits(r) ==> (Synced(fs) <==> rc == 0)
      // After any other APDU the worker itself commits nothing.
      ensures r.cmd == P.Apdu && !(r.payload.Some? && |r.payload.value| > 1 && r.payload.value[1] == 0xC2) ==>
                work.onPoll == [] && work.onTransact == [] ==> fs.history == old(fs.history)
    {
      hide Steps.Tracks, Steps.Good, Steps.Blocks, P.Serve, P.AnswerTo, P.Commits, MountFollows, Synced;
      P.WhichCommit(r);
      Execute(r, work);
      rc := CommitAfter(r);
      if r.payload.Some? {
        dataFreed := dataFreed + [r.payload.value];
      }
      nodesFreed := nodesFreed + [r];
    }

    method CommitAfter(r: P.Request) returns (rc: int)
      requires fs.Valid()
      modifies fs.slots, fs.nvs`records, fs.nvs`journal, fs.nvs`refused, fs`history
      ensures fs.Valid() && old(fs.history) <= fs.history && fs.nvs.refused >= old(fs.nvs.refused)
      ensures P.Commits(r) ==> (Synced(fs) <==> rc == 0) && (fs.nvs.refused == old(fs.nvs.refused) ==> rc == 0)
      ensures !P.Commits(r) ==> fs.history == old(fs.history)
    {
      hide Steps.Tracks, Steps.Good, Steps.Blocks, P.Commits;
      rc := 0;
      if P.Commits(r) {
        rc := fs.PortCommitFs();
      }
    }

    /** If a request has been served since n were released, the last one commits and no write was
        refused, then a power loss loses nothing. */
    ghost predicate LastServedSynced(n: nat, refused: nat)
      reads this, fs, fs.slots, fs.nvs
    {
      fs.nvs.refused == refused && |p.released| > n ==>
        var r := p.released[|p.released| - 1];
        r.cmd != P.Apdu || (r.payload.Some? && |r.payload.value| > 1 && r.payload.value[1] == 0xC2) ==> Synced(fs)
    }

    /** softsim_req_task(): drain the queue while requests keep arriving. */
    method ReqTask(turns: seq<TurnInput>) returns (ghost steps: seq<P.Step>, ghost used: nat)
      requires Valid() && p.isr == P.Quiet && p.worker == P.Idle && p.pending
      modifies this, fs, fs.slots, fs.nvs, fs.heap
      ensures Valid() && p == P.Run(old(p), steps)
      // Everything that got a node, also while the worker ran, has been answered and released when
      // the worker returns.
      ensures used <= |turns| && TookIn(old(p), turns[..used], p)
      ensures p.worker == P.Idle && fifo == [] && nodesFreed == p.accepted && |answers| == |p.accepted|
      // Whatever was delivered has had its one completion call.
      ensures AllCompleted(answers, refusals, p.delivered)
      ensures LastServedSynced(|old(p).released|, old(fs.nvs.refused))
    {
      hide Steps.Tracks, Steps.Good, Steps.Blocks, P.Inv, P.Run, ArrivedIn, Requests, WithNode, AllCompleted;
      NothingYet(p);
      assert turns[..0] == [];
      steps, used := [], 0;
      steps := Advance(old(p), steps, P.Start);
      var i := 0;
      var more := true;
      while more
        invariant Valid() && p == P.Run(old(p), steps) && p.isr == P.Quiet
        invariant p.worker == if more then P.AtFifo else P.Leaving
        invariant !more ==> fifo == []
        invariant used == (if i < |turns| then i else |turns|) && TookIn(old(p), turns[..used], p)
        invariant |old(p).released| <= |p.released| && LastServedSynced(|old(p).released|, old(fs.nvs.refused))
        invariant fs.nvs.refused >= old(fs.nvs.refused)
        decreases if i < |turns| then |turns| - i else 0, |fifo|, more
      {
        var turn := if i < |turns| then turns[i] else IDLE;
        ghost var before := p;
        more, steps := Round(old(p), steps, turn, |old(p).released|, old(fs.nvs.refused));
        TookInMore(old(p), turns, used, before, p, turn.arrivals);
        i := i + 1;
        used := if i < |turns| then i else |turns|;
      }
      steps := Advance(old(p), steps, P.Leave);
      DrainedAll(p);
    }

    /** What arrives, and then one pass of the loop. */
    method Round(ghost origin: P.State, ghost steps: seq<P.Step>, turn: TurnInput, ghost n: nat, ghost refused: nat)
      returns (again: bool, ghost more: seq<P.Step>)
      requires Valid() && p == P.Run(origin, steps) && p.isr == P.Quiet && p.worker == P.AtFifo
      requires n <= |p.released| && refused <= fs.nvs.refused && LastServedSynced(n, refused)
      modifies this, fs, fs.slots, fs.nvs, fs.heap
      ensures Valid() && p == P.Run(origin, more) && p.isr == P.Quiet
      ensures p.worker == if again then P.AtFifo else P.Leaving
      ensures if again then turn.arrivals == [] ==> |fifo| < |old(fifo)| else fifo == []
      ensures p.accepted == old(p).accepted + WithNode(turn.arrivals)
      ensures p.delivered == old(p).delivered + Requests(turn.arrivals)
      ensures n <= |p.released| && refused <= fs.nvs.refused && LastServedSynced(n, refused)
    {
      hide Steps.Tracks, Steps.Good, Steps.Blocks, P.Inv, P.Run, WithNode, Requests;
      more := Interrupts(origin, steps, turn.arrivals);
      again := fifo != [];
      if again {
        more := OneTurn(origin, more, turn.work);
      } else {
        more := Advance(origin, more, P.Take);
      }
    }

    /** A step of the worker that touches neither the queue nor the context. */
    ghost method Advance(origin: P.State, steps: seq<P.Step>, step: P.Step) returns (more: seq<P.Step>)
      requires Valid() && p == P.Run(origin, steps) && P.Enabled(p, step)
      requires step == P.Start || step == P.Leave || (step == P.Take && fifo == [])
      modifies this`p
      ensures Valid() && p == P.Next(old(p), step) && p == P.Run(origin, more)
    {
      hide P.Inv;
      P.RunOn(origin, steps, step);
      P.InvStep(p, step);
      p := P.Next(p, step);
      more := steps + [step];
    }

    /** The interrupts between two turns, each to its end. */
    method Interrupts(ghost origin: P.State, ghost steps: seq<P.Step>, arrivals: seq<Arrival>)
      returns (ghost more: seq<P.Step>)
      requires Valid() && p == P.Run(origin, steps) && p.isr == P.Quiet
      modifies this`fifo, this`p, this`refusals
      ensures Valid() && p == P.Run(origin, more) && p.isr == P.Quiet && p.worker == old(p).worker
      ensures p.accepted == old(p).accepted + WithNode(arrivals)
      ensures p.delivered == old(p).delivered + Requests(arrivals)
      ensures arrivals == [] ==> fifo == old(fifo)
    {
      hide P.Inv, P.Run, Steps.Tracks, Steps.Good, Steps.Blocks;
      more := steps;
      for i := 0 to |arrivals|
        invariant Valid() && p == P.Run(origin, more) && p.isr == P.Quiet
        invariant p.worker == old(p).worker
        invariant p.accepted == old(p).accepted + WithNode(arrivals[..i])
        invariant p.delivered == old(p).delivered + Requests(arrivals[..i])
        invariant i == 0 ==> fifo == old(fifo)
      {
        ghost var before := p;
        ghost var taken := ReqHandler(arrivals[i]);
        P.RunConcat(origin, more, taken);
        more := more + taken;
        assert arrivals[..i + 1][..i] == arrivals[..i];
      }
      assert arrivals[..|arrivals|] == arrivals;
    }

    /** One turn of the loop: take the oldest request and serve it. */
    method OneTurn(ghost origin: P.State, ghost steps: seq<P.Step>, work: CoreWork) returns (ghost more: seq<P.Step>)
      requires Valid() && p == P.Run(origin, steps) && p.isr == P.Quiet && p.worker == P.AtFifo && fifo != []
      modifies this, fs, fs.slots, fs.nvs, fs.heap
      ensures Valid() && p == P.Run(origin, more) && p.isr == P.Quiet && p.worker == P.AtFifo
      ensures fifo == old(fifo)[1..] && p.released == old(p).released + [old(fifo)[0]]
      ensures p.accepted == old(p).accepted && p.delivered == old(p).delivered
      ensures fs.nvs.refused >= old(fs.nvs.refused)
      ensures fs.nvs.refused == old(fs.nvs.refused) && P.Commits(old(fifo)[0]) ==> Synced(fs)
    {
      hide Steps.Tracks, Steps.Good, Steps.Blocks, P.Inv, P.Run, P.Turn, P.Serve;
      P.TurnRuns(origin, steps, work.suspended, work.granted);
      var r := fifo[0];
      fifo := fifo[1..];
      var rc := ServeOne(r, work);
      p := P.Turn(p, work.suspended, work.granted);
      more := steps + [P.Take] + [P.Execute(work.suspended, work.granted)] + [P.Finish];
    }
  }

  /** The power fails right after the worker has finished a request that commits: unless NVS refused
      a write, the device comes back with every file as it was. */
  method PowerLossAfter(sim: Softsim, r: P.Request, work: CoreWork) returns (after: FileSystem, rc: int)
    requires sim.fs.Valid() && sim.fs.current < 0
    modifies sim`ctx, sim`calls, sim`answers, sim`dataFreed, sim`nodesFreed
    modifies sim.fs, sim.fs.slots, sim.fs.nvs, sim.fs.heap
    ensures sim.fs.Valid() && after.Valid()
    ensures r.cmd != P.Apdu && sim.fs.nvs.refused == old(sim.fs.nvs.refused) ==> after.view == sim.fs.view
    ensures r.cmd == P.Apdu && r.payload.Some? && |r.payload.value| > 1 && r.payload.value[1] == 0xC2 ==>
              sim.fs.nvs.refused == old(sim.fs.nvs.refused) ==> after.view == sim.fs.view
  {
    hide Steps.Tracks, Steps.Good, Steps.Blocks;
    var committed := sim.ServeOne(r, work);
    after, rc := PowerCycle(sim.fs);
  }

  lemma DrainedAll(p: P.State)
    requires P.Inv(p) && p.worker == P.Idle && p.fifo == []
    ensures p.released == p.accepted && |p.answers| == |p.accepted| && AllCompleted(p.answers, p.refusals, p.delivered)
  {
    hide P.Parts, P.Payloads;
    P.CompletedOnce(p);
  }

  /** The completion calls are, by command and id, one for each request and no more. */
  ghost predicate AllCompleted(answers: seq<P.Answer>, refusals: seq<P.Answer>, requests: seq<P.Request>) {
    multiset(P.AnswerTags(answers)) + multiset(P.AnswerTags(refusals)) == multiset(P.RequestTags(requests))
  }
}
