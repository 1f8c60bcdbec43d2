/** The modem request protocol of lib/nrf_softsim.c: an interrupt handler that queues requests and a
    worker that drains them, as interleaved steps. */
module Protocol {
  import opened Bytes

  datatype Cmd = Init | Apdu | Deinit | Reset | Unknown(code: int)

  /** A request as the modem hands it over; the payload pointer may be NULL. */
  datatype Request = Request(cmd: Cmd, id: u16, payload: Option<bytes>)

  /** A completion call: nrf_modem_softsim_res() or nrf_modem_softsim_err(). */
  datatype Answer =
    | Res(cmd: Cmd, id: u16)
    | Err(cmd: Cmd, id: u16)

  // --- Serving one request ---------------------------------------------------------------------

  /** The instruction byte of a command APDU, 0 when there is none. */
  function Ins(r: Request): byte {
    if r.cmd == Apdu && r.payload.Some? && |r.payload.value| > 1 then r.payload.value[1] else 0
  }

  const INS_ENVELOPE: byte := 0xC2
  const INS_STATUS: byte := 0xF2

  /** After these the worker commits the file system. */
  predicate Commits(r: Request) {
    r.cmd != Apdu || Ins(r) == INS_ENVELOPE
  }

  /** Which requests those are: of the APDUs only one with the ENVELOPE instruction in its second
      byte, and everything that is not an APDU. */
  lemma WhichCommit(r: Request)
    ensures r.cmd != Apdu ==> Commits(r)
    ensures r.cmd == Apdu ==> (Commits(r) <==> r.payload.Some? && |r.payload.value| > 1 && r.payload.value[1] == 0xC2)
  {
  }

  /** These hand the context to the SIM core without checking it. */
  predicate NeedsContext(r: Request) {
    r.cmd == Apdu || r.cmd == Reset
  }

  /** These begin or end a card session. */
  predicate IsSession(r: Request) {
    r.cmd == Init || r.cmd == Deinit
  }

  datatype Kind = NewCtx | ResetCard | Atr | Poll | Transact | FreeCtx

  /** A call into the SIM core, and whether it was given a live context. */
  datatype CoreCall = CoreCall(kind: Kind, live: bool)

  predicate IsNull(c: CoreCall) {
    c.kind != NewCtx && !c.live
  }

  /** What serving a request does: the context afterwards, contexts created and freed, res or err,
      and the calls made to the core. */
  datatype Outcome = Outcome(ctx: bool, created: nat, freed: nat, ok: bool, calls: seq<CoreCall>)

  function InitCalls(ctx: bool, suspended: bool, granted: bool): seq<CoreCall> {
    var made := if ctx then [] else [CoreCall(NewCtx, granted)];
    var reset := if suspended then [] else [CoreCall(ResetCard, true)];
    if ctx || granted then made + reset + [CoreCall(Atr, true)] else made
  }

  /** `suspended` is what the core says of a live context, `granted` whether a new one can be had. */
  function Serve(r: Request, ctx: bool, suspended: bool, granted: bool): Outcome {
    match r.cmd
    case Init =>
      var up := ctx || granted;
      Outcome(up, if up && !ctx then 1 else 0, 0, up, InitCalls(ctx, suspended, granted))
    case Apdu =>
      Outcome(ctx, 0, 0, true, (if Ins(r) == INS_STATUS then [CoreCall(Poll, ctx)] else []) + [CoreCall(Transact, ctx)])
    case Deinit =>
      if ctx && !suspended then Outcome(false, 0, 1, true, [CoreCall(FreeCtx, true)])
      else Outcome(ctx, 0, 0, true, [])
    case Reset => Outcome(ctx, 0, 0, true, [CoreCall(ResetCard, ctx)])
    case Unknown(_) => Outcome(ctx, 0, 0, false, [])
  }

  /** What each request leads to: INIT makes a context only if there is none, and without one goes no
      further; a card that is not suspended is reset; only a STATUS polls, before it is answered. */
  lemma ServeCases(r: Request, ctx: bool, suspended: bool, granted: bool)
    ensures var o := Serve(r, ctx, suspended, granted);
            match r.cmd
            case Init => o.ctx == o.ok == (ctx || granted) && o.calls == InitCalls(ctx, suspended, granted)
            case Apdu => o.ctx == ctx && o.ok
                         && o.calls == if r.payload.Some? && |r.payload.value| > 1 && r.payload.value[1] == 0xF2
                                       then [CoreCall(Poll, ctx), CoreCall(Transact, ctx)]
                                       else [CoreCall(Transact, ctx)]
            case Deinit => o.ctx == (ctx && suspended) && o.ok
                           && o.calls == if ctx && !suspended then [CoreCall(FreeCtx, true)] else []
            case Reset => o.ctx == ctx && o.ok && o.calls == [CoreCall(ResetCard, ctx)]
            case Unknown(_) => o.ctx == ctx && !o.ok && o.calls == []
  {
  }

  /** INIT with a context, with a new one, and with none to be had. */
  lemma InitCases(suspended: bool, granted: bool)
    ensures InitCalls(true, true, granted) == [CoreCall(Atr, true)]
    ensures InitCalls(true, false, granted) == [CoreCall(ResetCard, true), CoreCall(Atr, true)]
    ensures InitCalls(false, true, true) == [CoreCall(NewCtx, true), CoreCall(Atr, true)]
    ensures InitCalls(false, false, true) == [CoreCall(NewCtx, true), CoreCall(ResetCard, true), CoreCall(Atr, true)]
    ensures InitCalls(false, suspended, false) == [CoreCall(NewCtx, false)]
  {
  }

  function AnswerTo(r: Request, ok: bool): Answer {
    if ok then Res(r.cmd, r.id) else Err(r.cmd, r.id)
  }

  predicate Answers(a: Answer, r: Request) {
    a.cmd == r.cmd && a.id == r.id
  }

  /** The worker errs only on an INIT or an unknown request, and always on the latter. */
  predicate RightKind(a: Answer, r: Request) {
    (a.Err? ==> r.cmd == Init || r.cmd.Unknown?) && (r.cmd.Unknown? ==> a.Err?)
  }

  // --- The interleaved machine -----------------------------------------------------------------

  datatype Isr =
    | Quiet
    | Queued   // between k_fifo_put() and k_work_submit_to_queue()

  datatype Worker =
    | Idle
    | AtFifo
    | Serving(req: Request)
    | Answered(req: Request)
    | Leaving  // the FIFO was found empty, the handler has not returned yet

  /** The machine, with everything that has happened so far: requests delivered by the modem, those
      that got a node, those that did not, the worker's answers, the handler's, the nodes released
      and the payloads freed. */
  datatype State = State(
    isr: Isr, fifo: seq<Request>, pending: bool, worker: Worker, ctx: bool,
    delivered: seq<Request>, accepted: seq<Request>, turnedAway: seq<Request>,
    answers: seq<Answer>, refusals: seq<Answer>, released: seq<Request>, dataFreed: seq<bytes>,
    latest: Option<nat>, // index in `accepted` of the latest session request, if that got a node
    created: nat, freed: nat, calls: seq<CoreCall>)

  datatype Step =
    | Deliver(req: Request, node: bool)
    | Submit
    | Start
    | Take
    | Execute(suspended: bool, granted: bool)
    | Finish
    | Leave

  /** After nrf_softsim_init(), whose context allocation may have failed. */
  function Initial(ctx: bool): State {
    State(Quiet, [], false, Idle, ctx, [], [], [], [], [], [], [], None, if ctx then 1 else 0, 0, [])
  }

  function Payload(r: Request): seq<bytes> {
    if r.payload.Some? then [r.payload.value] else []
  }

  function Payloads(rs: seq<Request>): seq<bytes> {
    if rs == [] then [] else Payloads(rs[..|rs| - 1]) + Payload(rs[|rs| - 1])
  }

  predicate Enabled(s: State, step: Step) {
    match step
    case Deliver(_, _) => s.isr == Quiet
    case Submit => s.isr == Queued
    case Start => s.worker == Idle && s.pending
    case Take => s.worker == AtFifo
    case Execute(_, _) => s.worker.Serving?
    case Finish => s.worker.Answered?
    case Leave => s.worker == Leaving
  }

  function Next(s: State, step: Step): State
    requires Enabled(s, step)
  {
    match step
    case Deliver(r, node) =>
      if node then
        s.(isr := Queued, fifo := s.fifo + [r], delivered := s.delivered + [r], accepted := s.accepted + [r],
           latest := if IsSession(r) then Some(|s.accepted|) else s.latest)
      else
        s.(delivered := s.delivered + [r], turnedAway := s.turnedAway + [r],
           refusals := s.refusals + [AnswerTo(r, false)],
           latest := if IsSession(r) then None else s.latest)
    case Submit => s.(isr := Quiet, pending := true)
    case Start => s.(pending := false, worker := AtFifo)
    case Take =>
      if s.fifo == [] then s.(worker := Leaving)
      else s.(worker := Serving(s.fifo[0]), fifo := s.fifo[1..])
    case Execute(suspended, granted) =>
      var r := s.worker.req;
      var o := Serve(r, s.ctx, suspended, granted);
      s.(worker := Answered(r), ctx := o.ctx, answers := s.answers + [AnswerTo(r, o.ok)],
         created := s.created + o.created, freed := s.freed + o.freed, calls := s.calls + o.calls)
    case Finish =>
      s.(worker := AtFifo, released := s.released + [s.worker.req], dataFreed := s.dataFreed + Payload(s.worker.req))
    case Leave => s.(worker := Idle)
  }

  /** Any interleaving: a step that is not enabled does not happen. */
  function Run(s: State, steps: seq<Step>): State {
    if steps == [] then s else
      var t := Run(s, steps[..|steps| - 1]);
      var step := steps[|steps| - 1];
      if Enabled(t, step) then Next(t, step) else t
  }

  // --- Requests are conserved ------------------------------------------------------------------

  function InHand(w: Worker): seq<Request> {
    if w.Serving? || w.Answered? then [w.req] else []
  }

  /** Every request with a node is released, in hand or queued, in arrival order; each answered one
      got exactly one answer, its own, in that order, and is released with its payload after it.
      Every request without one got an error, its own, from the handler. */
  ghost predicate Conserved(s: State) {
    && s.accepted == s.released + InHand(s.worker) + s.fifo
    && |s.answers| == |s.released| + (if s.worker.Answered? then 1 else 0)
    && (forall i :: 0 <= i < |s.answers| ==>
          Answers(s.answers[i], s.accepted[i]) && RightKind(s.answers[i], s.accepted[i]))
    && |s.refusals| == |s.turnedAway|
    && (forall i :: 0 <= i < |s.refusals| ==> s.refusals[i].Err? && Answers(s.refusals[i], s.turnedAway[i]))
    && s.dataFreed == Payloads(s.released)
  }

  /** What a completion call names a request by. */
  datatype Tag = Tag(cmd: Cmd, id: u16)

  function RequestTags(rs: seq<Request>): seq<Tag> {
    seq(|rs|, i requires 0 <= i < |rs| => Tag(rs[i].cmd, rs[i].id))
  }

  function AnswerTags(answers: seq<Answer>): seq<Tag> {
    seq(|answers|, i requires 0 <= i < |answers| => Tag(answers[i].cmd, answers[i].id))
  }

  ghost predicate Parts<T>(all: seq<T>, a: seq<T>, b: seq<T>) {
    multiset(all) == multiset(a) + multiset(b)
  }

  /** The deliveries part into accepted and turned away: the requests, their tags, their payloads. */
  ghost predicate Parted(s: State) {
    && Parts(s.delivered, s.accepted, s.turnedAway)
    && Parts(RequestTags(s.delivered), RequestTags(s.accepted), RequestTags(s.turnedAway))
    && Parts(Payloads(s.delivered), Payloads(s.accepted), Payloads(s.turnedAway))
  }

  /** No lost wakeup. */
  ghost predicate Awake(s: State) {
    s.fifo != [] ==> s.pending || s.worker == AtFifo || s.worker.Serving? || s.worker.Answered? || s.isr == Queued
  }

  ghost predicate Accounted(s: State) {
    s.created == s.freed + if s.ctx then 1 else 0
  }

  ghost predicate Inv(s: State) {
    Conserved(s) && Parted(s) && Awake(s) && Accounted(s)
  }

  lemma ConservedDeliver(s: State, r: Request, node: bool)
    requires Conserved(s) && s.isr == Quiet
    ensures Conserved(Next(s, Deliver(r, node)))
  {
    if node {
      var done := s.released + InHand(s.worker);
      assert done + s.fifo + [r] == done + (s.fifo + [r]);
    }
  }

  lemma ConservedTake(s: State)
    requires Conserved(s) && s.worker == AtFifo
    ensures Conserved(Next(s, Take))
  {
    if s.fifo != [] {
      assert s.released + [] + s.fifo == s.released + [s.fifo[0]] + s.fifo[1..];
    }
  }

  lemma ConservedExecute(s: State, suspended: bool, granted: bool)
    requires Conserved(s) && s.worker.Serving?
    ensures Conserved(Next(s, Execute(suspended, granted)))
  {
    assert s.accepted[|s.released|] == s.worker.req;
  }

  lemma ConservedFinish(s: State)
    requires Conserved(s) && s.worker.Answered?
    ensures Conserved(Next(s, Finish))
  {
    var t := Next(s, Finish);
    assert t.released + [] + t.fifo == s.released + [s.worker.req] + s.fifo;
  }

  lemma ConservedStep(s: State, step: Step)
    requires Conserved(s) && Enabled(s, step)
    ensures Conserved(Next(s, step))
  {
    match step
    case Deliver(r, node) => ConservedDeliver(s, r, node);
    case Take => ConservedTake(s);
    case Execute(suspended, granted) => ConservedExecute(s, suspended, granted);
    case Finish => ConservedFinish(s);
    case _ =>
  }

  lemma OneMore(rs: seq<Request>, r: Request)
    ensures RequestTags(rs + [r]) == RequestTags(rs) + [Tag(r.cmd, r.id)]
    ensures Payloads(rs + [r]) == Payloads(rs) + Payload(r)
  {
    assert (rs + [r])[..|rs|] == rs;
  }

  lemma PartMore<T>(all: seq<T>, a: seq<T>, b: seq<T>, more: seq<T>)
    requires Parts(all, a, b)
    ensures Parts(all + more, a + more, b) && Parts(all + more, a, b + more)
  {
  }

  lemma PartedStep(s: State, step: Step)
    requires Parted(s) && Enabled(s, step)
    ensures Parted(Next(s, step))
  {
    hide Parts, RequestTags, Payloads, Payload;
    if step.Deliver? {
      var r := step.req;
      PartMore(s.delivered, s.accepted, s.turnedAway, [r]);
      PartMore(RequestTags(s.delivered), RequestTags(s.accepted), RequestTags(s.turnedAway), [Tag(r.cmd, r.id)]);
      PartMore(Payloads(s.delivered), Payloads(s.accepted), Payloads(s.turnedAway), Payload(r));
      OneMore(s.delivered, r);
      OneMore(s.accepted, r);
      OneMore(s.turnedAway, r);
    }
  }

  lemma InvStep(s: State, step: Step)
    requires Inv(s) && Enabled(s, step)
    ensures Inv(Next(s, step))
  {
    hide Conserved, Parted;
    ConservedStep(s, step);
    PartedStep(s, step);
  }

  /** Every state of every interleaving. */
  lemma {:induction false} InvRun(ctx: bool, steps: seq<Step>)
    ensures Inv(Run(Initial(ctx), steps))
  {
    if steps != [] {
      InvRun(ctx, steps[..|steps| - 1]);
      var t, step := Run(Initial(ctx), steps[..|steps| - 1]), steps[|steps| - 1];
      if Enabled(t, step) {
        InvStep(t, step);
      }
    }
  }

  /** Nothing but a new delivery can happen. */
  predicate Quiescent(s: State) {
    s.isr == Quiet && !s.pending && s.worker == Idle
  }

  /** Accepted requests the worker has not answered yet. */
  function Unanswered(s: State): seq<Request> {
    (if s.worker.Serving? then [s.worker.req] else []) + s.fifo
  }

  /** Every delivered request gets one completion call of its own, from the worker or the handler,
      and never a second: on every run the calls made and the requests still waiting are, by command
      and id, exactly the requests delivered. */
  lemma EachCompletedOnce(ctx: bool, steps: seq<Step>)
    ensures var s := Run(Initial(ctx), steps);
            multiset(AnswerTags(s.answers)) + multiset(AnswerTags(s.refusals)) + multiset(RequestTags(Unanswered(s)))
            == multiset(RequestTags(s.delivered))
    ensures var s := Run(Initial(ctx), steps);
            Quiescent(s) ==>
              multiset(AnswerTags(s.answers)) + multiset(AnswerTags(s.refusals)) == multiset(RequestTags(s.delivered))
  {
    hide Conserved, Parted, RequestTags, AnswerTags;
    InvRun(ctx, steps);
    CompletedOnce(Run(Initial(ctx), steps));
  }

  lemma CompletedOnce(s: State)
    requires Inv(s)
    ensures multiset(AnswerTags(s.answers)) + multiset(AnswerTags(s.refusals)) + multiset(RequestTags(Unanswered(s)))
            == multiset(RequestTags(s.delivered))
    ensures s.worker == Idle && s.fifo == [] ==> RequestTags(Unanswered(s)) == []
  {
    hide Payloads, Parts, RequestTags, AnswerTags, Conserved;
    TagsMatch(s);
    ThreeParts(RequestTags(s.delivered), AnswerTags(s.answers), RequestTags(Unanswered(s)), AnswerTags(s.refusals));
  }

  /** By tag, the answers are the accepted requests without those still unanswered, in order, and the
      refusals are the requests turned away. */
  lemma TagsMatch(s: State)
    requires Conserved(s)
    ensures RequestTags(s.accepted) == AnswerTags(s.answers) + RequestTags(Unanswered(s))
    ensures RequestTags(s.turnedAway) == AnswerTags(s.refusals)
    ensures s.fifo == [] && !s.worker.Serving? ==> RequestTags(Unanswered(s)) == []
  {
    hide Payloads, RequestTags, AnswerTags;
    assert s.accepted[|s.answers|..] == Unanswered(s);
    TagsAgree(s.accepted, s.answers);
    TagsAgree(s.turnedAway, s.refusals);
  }

  lemma TagsAgree(rs: seq<Request>, answers: seq<Answer>)
    requires |answers| <= |rs| && forall i :: 0 <= i < |answers| ==> Answers(answers[i], rs[i])
    ensures RequestTags(rs) == AnswerTags(answers) + RequestTags(rs[|answers|..])
    ensures |answers| == |rs| ==> RequestTags(rs) == AnswerTags(answers)
    ensures RequestTags([]) == []
  {
  }

  lemma ThreeParts<T>(all: seq<T>, a: seq<T>, b: seq<T>, c: seq<T>)
    requires Parts(all, a + b, c)
    ensures multiset(a) + multiset(c) + multiset(b) == multiset(all)
  {
  }

  /** The payloads: the worker frees each that got a node once, the handler none. So at rest every
      delivered payload has been freed exactly when no request that was turned away carried one. */
  lemma PayloadsFreedExactlyWhen(ctx: bool, steps: seq<Step>)
    requires Quiescent(Run(Initial(ctx), steps))
    ensures var s := Run(Initial(ctx), steps);
            multiset(s.dataFreed) == multiset(Payloads(s.delivered)) <==>
            forall i :: 0 <= i < |s.turnedAway| ==> s.turnedAway[i].payload.None?
  {
    hide Payloads, Parts;
    InvRun(ctx, steps);
    var s := Run(Initial(ctx), steps);
    assert s.released == s.accepted;
    NoPayloads(s.turnedAway);
    EmptyPart(Payloads(s.delivered), Payloads(s.accepted), Payloads(s.turnedAway));
  }

  lemma EmptyPart<T>(all: seq<T>, a: seq<T>, b: seq<T>)
    requires Parts(all, a, b)
    ensures multiset(a) == multiset(all) <==> b == []
  {
    if b != [] {
      assert b[0] in multiset(b);
      assert multiset(all)[b[0]] == multiset(a)[b[0]] + multiset(b)[b[0]];
    }
  }

  lemma {:induction false} NoPayloads(rs: seq<Request>)
    ensures Payloads(rs) == [] <==> forall i :: 0 <= i < |rs| ==> rs[i].payload.None?
  {
    if rs != [] {
      var n := |rs| - 1;
      NoPayloads(rs[..n]);
      assert rs == rs[..n] + [rs[n]];
    }
  }

  /** A request without a node leaks its payload. */
  lemma RefusedPayloadStays(id: u16, data: bytes)
    ensures var s := Run(Initial(true), [Deliver(Request(Apdu, id, Some(data)), false)]);
            Quiescent(s) && s.dataFreed == [] && Payloads(s.delivered) == [data]
  {
    var r := Request(Apdu, id, Some(data));
    RunOne(Initial(true), Deliver(r, false));
    assert [r][..0] == [];
  }

  /** On every run the worker answers APDU, RESET and DEINIT with res, an unknown request with err, and
      INIT with res exactly when it leaves a context. */
  lemma AnswersInKind(ctx: bool, steps: seq<Step>, i: nat)
    requires i < |Run(Initial(ctx), steps).answers|
    ensures var s := Run(Initial(ctx), steps);
            && i < |s.accepted| && s.answers[i].cmd == s.accepted[i].cmd && s.answers[i].id == s.accepted[i].id
            && match s.accepted[i].cmd
               case Init => true
               case Unknown(_) => s.answers[i].Err?
               case _ => s.answers[i].Res?
  {
    hide Payloads, Parted;
    InvRun(ctx, steps);
  }

  lemma InitAnswer(s: State, suspended: bool, granted: bool)
    requires s.worker.Serving? && s.worker.req.cmd == Init
    ensures var t := Next(s, Execute(suspended, granted));
            && t.ctx == (s.ctx || granted)
            && |t.answers| == |s.answers| + 1 && s.answers <= t.answers
            && t.answers[|s.answers|] ==
               if s.ctx || granted then Res(Init, s.worker.req.id) else Err(Init, s.worker.req.id)
  {
    ServeCases(s.worker.req, s.ctx, suspended, granted);
  }

  /** In a quiescent state no request is left behind: the queue is empty, every request that got a
      node has been answered once, in arrival order, and released, and the rest were refused. */
  lemma QuiescentMeansDone(ctx: bool, steps: seq<Step>)
    requires Quiescent(Run(Initial(ctx), steps))
    ensures var s := Run(Initial(ctx), steps);
            && s.fifo == [] && s.released == s.accepted && |s.answers| == |s.accepted|
            && s.dataFreed == Payloads(s.accepted)
            && (forall i :: 0 <= i < |s.accepted| ==> Answers(s.answers[i], s.accepted[i]))
            && |s.refusals| == |s.turnedAway|
            && (forall i :: 0 <= i < |s.turnedAway| ==> s.refusals[i].Err? && Answers(s.refusals[i], s.turnedAway[i]))
            && multiset(s.delivered) == multiset(s.accepted) + multiset(s.turnedAway)
  {
    hide RequestTags;
    InvRun(ctx, steps);
  }

  // --- The worker settles ----------------------------------------------------------------------

  /** Steps left before quiescence if nothing more is delivered. */
  function Work(s: State): nat {
    3 * |s.fifo|
    + (match s.worker
       case Idle => 0
       case AtFifo => 2
       case Serving(_) => 4
       case Answered(_) => 3
       case Leaving => 1)
    + (if s.pending then 3 else 0)
    + (if s.isr == Queued then 4 else 0)
  }

  predicate IsDelivery(step: Step) {
    step.Deliver?
  }

  /** Every step that is not a delivery brings the machine closer to quiescence. */
  lemma Progress(s: State, step: Step)
    requires Enabled(s, step) && !IsDelivery(step)
    ensures Work(Next(s, step)) < Work(s)
  {
  }

  /** Unless it is quiescent, the machine can always move without a new delivery. */
  lemma NeverStuck(s: State)
    requires !Quiescent(s)
    ensures exists step :: !IsDelivery(step) && Enabled(s, step)
  {
    if s.isr == Queued {
      assert !IsDelivery(Submit) && Enabled(s, Submit);
    } else {
      match s.worker
      case Idle => assert !IsDelivery(Start) && Enabled(s, Start);
      case AtFifo => assert !IsDelivery(Take) && Enabled(s, Take);
      case Serving(_) => assert !IsDelivery(Execute(false, false)) && Enabled(s, Execute(false, false));
      case Answered(_) => assert !IsDelivery(Finish) && Enabled(s, Finish);
      case Leaving => assert !IsDelivery(Leave) && Enabled(s, Leave);
    }
  }

  /** A schedule of steps that all happen and deliver nothing. */
  ghost predicate Settling(s: State, steps: seq<Step>) {
    forall i :: 0 <= i < |steps| ==> !IsDelivery(steps[i]) && Enabled(Run(s, steps[..i]), steps[i])
  }

  /** The queue drains under every schedule: once the modem pauses, no schedule runs for more than
      Work(s) steps, and one that cannot go on has reached quiescence. */
  lemma {:induction false} AlwaysSettles(s: State, steps: seq<Step>)
    requires Settling(s, steps)
    ensures |steps| + Work(Run(s, steps)) <= Work(s)
    ensures (forall step :: !IsDelivery(step) ==> !Enabled(Run(s, steps), step)) ==> Quiescent(Run(s, steps))
  {
    if steps != [] {
      var n := |steps| - 1;
      forall i | 0 <= i < n
        ensures !IsDelivery(steps[..n][i]) && Enabled(Run(s, steps[..n][..i]), steps[..n][i])
      {
        assert steps[..n][..i] == steps[..i];
      }
      AlwaysSettles(s, steps[..n]);
      Progress(Run(s, steps[..n]), steps[n]);
    }
    if !Quiescent(Run(s, steps)) {
      NeverStuck(Run(s, steps));
    }
  }

  // --- The core never sees a NULL context ------------------------------------------------------

  /** The latest session request was an INIT that has been answered with res. */
  ghost predicate SessionUp(s: State) {
    && s.latest.Some? && s.latest.value < |s.accepted| && s.accepted[s.latest.value].cmd == Init
    && s.latest.value < |s.answers| && s.answers[s.latest.value].Res?
  }

  /** A modem that sends APDU and RESET only inside a session. */
  ghost predicate Disciplined(s: State, step: Step) {
    step.Deliver? && NeedsContext(step.req) ==> SessionUp(s)
  }

  ghost predicate DisciplinedRun(ctx: bool, steps: seq<Step>) {
    forall i :: 0 <= i < |steps| ==> Disciplined(Run(Initial(ctx), steps[..i]), steps[i])
  }

  ghost predicate ContextSafe(s: State) {
    && (forall i :: 0 <= i < |s.calls| ==> !IsNull(s.calls[i]))
    && (s.latest.Some? ==>
          && s.latest.value < |s.accepted|
          && forall j :: s.latest.value < j < |s.accepted| ==> !IsSession(s.accepted[j]))
    && (SessionUp(s) ==> s.ctx)
    // No unserved request that needs the context waits behind a session request.
    && (forall k :: |s.answers| <= k < |s.accepted| && NeedsContext(s.accepted[k]) ==>
          s.ctx && forall j :: |s.answers| <= j < k ==> !IsSession(s.accepted[j]))
  }

  lemma ContextSafeDeliver(s: State, r: Request, node: bool)
    requires Inv(s) && ContextSafe(s) && s.isr == Quiet && Disciplined(s, Deliver(r, node))
    ensures ContextSafe(Next(s, Deliver(r, node)))
  {
    hide Parted, Payloads;
    var t := Next(s, Deliver(r, node));
    assert forall k :: 0 <= k < |s.accepted| ==> t.accepted[k] == s.accepted[k];
    if NeedsContext(r) {
      assert forall j :: |s.answers| <= j < |s.accepted| ==> !IsSession(s.accepted[j]);
    }
  }

  lemma ServeKeepsContext(r: Request, ctx: bool, suspended: bool, granted: bool)
    ensures var o := Serve(r, ctx, suspended, granted);
            && ((NeedsContext(r) ==> ctx) ==> forall i :: 0 <= i < |o.calls| ==> !IsNull(o.calls[i]))
            && (!IsSession(r) ==> o.ctx == ctx)
            && (r.cmd == Init ==> o.ctx == o.ok)
  {
  }

  lemma ContextSafeExecute(s: State, suspended: bool, granted: bool)
    requires Inv(s) && ContextSafe(s) && s.worker.Serving?
    ensures ContextSafe(Next(s, Execute(suspended, granted)))
  {
    hide Serve, Parted, Payloads, Ins;
    ServeKeepsContext(s.worker.req, s.ctx, suspended, granted);
    var t, n := Next(s, Execute(suspended, granted)), |s.answers|;
    assert s.accepted[n] == s.worker.req;
    assert forall i :: 0 <= i < n ==> t.answers[i] == s.answers[i];
  }

  lemma ContextSafeStep(s: State, step: Step)
    requires Inv(s) && ContextSafe(s) && Enabled(s, step) && Disciplined(s, step)
    ensures ContextSafe(Next(s, step))
  {
    hide Parted, Payloads, Serve;
    match step
    case Deliver(r, node) => ContextSafeDeliver(s, r, node);
    case Execute(suspended, granted) => ContextSafeExecute(s, suspended, granted);
    case _ =>
  }

  /** If the modem sends APDU or RESET only after its latest session request was an INIT answered
      with res, the SIM core never receives a NULL context, on any run. */
  lemma {:induction false} NeverNull(ctx: bool, steps: seq<Step>)
    requires DisciplinedRun(ctx, steps)
    ensures ContextSafe(Run(Initial(ctx), steps))
    ensures forall c :: c in Run(Initial(ctx), steps).calls ==> c.kind == NewCtx || c.live
  {
    if steps != [] {
      var n := |steps| - 1;
      forall i | 0 <= i < n
        ensures Disciplined(Run(Initial(ctx), steps[..n][..i]), steps[..n][i])
      {
        assert steps[..n][..i] == steps[..i];
      }
      NeverNull(ctx, steps[..n]);
      InvRun(ctx, steps[..n]);
      var s := Run(Initial(ctx), steps[..n]);
      if Enabled(s, steps[n]) {
        assert Disciplined(s, steps[n]);
        ContextSafeStep(s, steps[n]);
      }
    }
  }

  lemma RunOn(s: State, steps: seq<Step>, step: Step)
    requires Enabled(Run(s, steps), step)
    ensures Run(s, steps + [step]) == Next(Run(s, steps), step)
  {
    assert (steps + [step])[..|steps|] == steps;
  }

  lemma RunOne(s: State, step: Step)
    requires Enabled(s, step)
    ensures Run(s, [step]) == Next(s, step)
  {
    assert [step][..0] == [];
  }

  lemma {:induction false} RunConcat(s: State, a: seq<Step>, b: seq<Step>)
    ensures Run(s, a + b) == Run(Run(s, a), b)
  {
    if b == [] {
      assert a + b == a;
    } else {
      var n := |b| - 1;
      RunConcat(s, a, b[..n]);
      assert (a + b)[..|a| + n] == a + b[..n];
    }
  }

  /** One turn of the drain loop: the oldest request taken, served and released. */
  function Turn(s: State, suspended: bool, granted: bool): State
    requires s.worker == AtFifo && s.fifo != []
  {
    Next(Next(Next(s, Take), Execute(suspended, granted)), Finish)
  }

  lemma TurnRuns(origin: State, steps: seq<Step>, suspended: bool, granted: bool)
    requires var s := Run(origin, steps); Inv(s) && s.worker == AtFifo && s.fifo != []
    ensures var (s, t) := (Run(origin, steps), Turn(Run(origin, steps), suspended, granted));
            && Inv(t) && t == Run(origin, steps + [Take] + [Execute(suspended, granted)] + [Finish])
            && t.isr == s.isr && t.worker == AtFifo && t.fifo == s.fifo[1..] && t.released == s.released + [s.fifo[0]]
            && t.accepted == s.accepted && t.delivered == s.delivered && t.refusals == s.refusals
            && t.dataFreed == s.dataFreed + Payload(s.fifo[0])
            && t.ctx == Serve(s.fifo[0], s.ctx, suspended, granted).ctx
            && t.calls == s.calls + Serve(s.fifo[0], s.ctx, suspended, granted).calls
            && t.answers == s.answers + [AnswerTo(s.fifo[0], Serve(s.fifo[0], s.ctx, suspended, granted).ok)]
  {
    hide Inv, Serve;
    var s := Run(origin, steps);
    RunOn(origin, steps, Take);
    InvStep(s, Take);
    RunOn(origin, steps + [Take], Execute(suspended, granted));
    InvStep(Next(s, Take), Execute(suspended, granted));
    RunOn(origin, steps + [Take] + [Execute(suspended, granted)], Finish);
    InvStep(Next(Next(s, Take), Execute(suspended, granted)), Finish);
  }

  /** Serving a request hands the core a NULL context exactly when the request needs one and there
      is none; and without the discipline that happens, as with a RESET after a DEINIT. */
  lemma NullExactlyWhen(r: Request, ctx: bool, suspended: bool, granted: bool)
    ensures (exists c :: c in Serve(r, ctx, suspended, granted).calls && IsNull(c)) <==> NeedsContext(r) && !ctx
  {
    if NeedsContext(r) && !ctx {
      var calls := Serve(r, ctx, suspended, granted).calls;
      assert calls[|calls| - 1] in calls && IsNull(calls[|calls| - 1]);
    }
  }

  lemma ResetAfterDeinitIsNull(id: u16) returns (steps: seq<Step>)
    ensures Run(Initial(true), steps).calls == [CoreCall(FreeCtx, true), CoreCall(ResetCard, false)]
  {
    var s := Initial(true);
    steps := [];
    RunOn(s, steps, Deliver(Request(Deinit, id, None), true));
    steps := steps + [Deliver(Request(Deinit, id, None), true)];
    RunOn(s, steps, Submit);
    steps := steps + [Submit];
    RunOn(s, steps, Start);
    steps := steps + [Start];
    RunOn(s, steps, Take);
    steps := steps + [Take];
    RunOn(s, steps, Execute(false, true));
    steps := steps + [Execute(false, true)];
    RunOn(s, steps, Finish);
    steps := steps + [Finish];
    RunOn(s, steps, Deliver(Request(Reset, id, None), true));
    steps := steps + [Deliver(Request(Reset, id, None), true)];
    RunOn(s, steps, Take);
    steps := steps + [Take];
    RunOn(s, steps, Execute(false, true));
    steps := steps + [Execute(false, true)];
  }
}
