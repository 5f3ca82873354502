/** A context talking to a server: the server parses what it receives with the same decoder and
    answers every complete command once, in order; the network cuts both streams anywhere. */
module EndToEnd {
  import opened Bytes
  import opened Resp
  import opened ReaderMachine
  import opened Format
  import opened Async
  import opened AsyncRuns
  import opened RegularRuns

  /** The server's answer to the n-th command. */
  type Answers = nat -> Reply

  ghost predicate ProperAnswers(answers: Answers) {
    forall n: nat :: WellFormed(answers(n)) && Depth(answers(n)) <= MAX_DEPTH
  }

  // -------------------------------------------------------- streams and prefixes

  function Requests(sent: seq<Sent>): seq<Reply> {
    seq(|sent|, i requires 0 <= i < |sent| => Array(Strs(sent[i].args)))
  }

  lemma {:induction false} WireEncodes(sent: seq<Sent>)
    ensures Wire(sent) == EncodeAll(Requests(sent))
  {
    if sent != [] {
      var init, last := sent[..|sent| - 1], sent[|sent| - 1].args;
      WireEncodes(init);
      assert Requests(sent) == Requests(init) + [Array(Strs(last))];
      EncodeAllPush(Requests(init), Array(Strs(last)));
      BulksEncode(last);
    }
  }

  /** What the server has parsed out of the bytes it received. */
  function Requested(c: Ctx): seq<Reply> {
    Drain(Fresh(c.log.written)).replies
  }

  /** The server sees the commands that were sent, in order and whole. */
  lemma ServerHearsCommands(c: Ctx)
    requires Balanced(c)
    ensures Requested(c) <= Requests(c.log.sent)
  {
    WireEncodes(c.log.sent);
    var rs := Requests(c.log.sent);
    forall i | 0 <= i < |rs| ensures WellFormed(rs[i]) && Depth(rs[i]) <= MAX_DEPTH {
      BulksEncode(c.log.sent[i].args);
    }
    PrefixDrains(rs, c.log.written);
  }

  // --------------------------------------------------------------- regular mode

  /** One queued callback for every command sent. */
  ghost predicate RegularMode(c: Ctx) {
    !c.flags.subscribed && !c.flags.monitoring && Paired(c.log)
  }

  ghost predicate Paired(log: History) {
    && |log.accepted| == |log.sent|
    && forall i | 0 <= i < |log.sent| :: log.accepted[i] == log.sent[i].cb
  }

  lemma CommandRegular(c: Ctx, args: seq<bytes>, cb: Callback)
    requires RegularMode(c) && RegularArgs(args)
    ensures RegularMode(AsyncCommand(c, args, cb)) && AsyncCommand(c, args, cb).phase == c.phase
    ensures c.log.accepted <= AsyncCommand(c, args, cb).log.accepted
    ensures c.log.sent <= AsyncCommand(c, args, cb).log.sent
  {
    var parsed := Parse(Command(args) + [NUL]);
    assert AsyncCommand(c, args, cb) == if Closing(c) then c else Append(Push(c, cb), args, cb);
  }

  lemma {:induction false} PerformRegular(c: Ctx, actions: seq<Action>)
    requires RegularMode(c) && RegularActions(actions)
    ensures var d := Perform(c, actions);
            RegularMode(d) && d.phase == c.phase && c.log.accepted <= d.log.accepted && c.log.sent <= d.log.sent
    decreases |actions|
  {
    if actions != [] && c.phase == Alive {
      if actions[0].Issue? {
        CommandRegular(c, actions[0].args, actions[0].cb);
      }
      PerformRegular(Act(c, actions[0]), actions[1..]);
    }
  }

  lemma CallbackRegular(c: Ctx, source: Source, cb: Callback, reply: Option<Reply>, program: Program)
    requires RegularMode(c) && RegularProgram(program)
    ensures var d := RunCallback(c, source, cb, reply, program);
            RegularMode(d) && d.phase == c.phase && c.log.accepted <= d.log.accepted && c.log.sent <= d.log.sent
  {
    if cb.hasFn {
      assert RegularActions(program.run(|c.log.calls|));
      PerformRegular(Enter(c, Invocation(source, cb, reply)), program.run(|c.log.calls|));
    }
  }

  /** A program whose callbacks neither disconnect nor free. */
  ghost predicate Calm(program: Program) {
    forall n: nat, i | 0 <= i < |program.run(n)| :: program.run(n)[i].Issue?
  }

  ghost predicate Open(c: Ctx) {
    c.phase == Alive && !Closing(c)
  }

  lemma {:induction false} PerformCalm(c: Ctx, actions: seq<Action>)
    requires forall i | 0 <= i < |actions| :: actions[i].Issue?
    ensures var d := Perform(c, actions);
            d.flags.disconnecting == c.flags.disconnecting && d.flags.freeing == c.flags.freeing
    decreases |actions|
  {
    hide Parse;
    if actions != [] && c.phase == Alive {
      PerformCalm(Act(c, actions[0]), actions[1..]);
    }
  }

  lemma CallbackCalm(c: Ctx, source: Source, cb: Callback, reply: Option<Reply>, program: Program)
    requires Calm(program)
    ensures var d := RunCallback(c, source, cb, reply, program);
            d.flags.disconnecting == c.flags.disconnecting && d.flags.freeing == c.flags.freeing
  {
    PerformCalm(Enter(c, Invocation(source, cb, reply)), program.run(|c.log.calls|));
  }

  // ------------------------------------------------------------ matching answers

  /** Every delivered reply is the server's answer to the command of the same number. */
  ghost predicate Matched(ds: seq<Delivery>, answers: Answers) {
    forall i | 0 <= i < |ds| && ds[i].reply.Some? :: ds[i].reply.value == answers(i)
  }

  lemma FinishedMatched(c: Ctx, d: Ctx, program: Program, answers: Answers)
    requires Matched(c.log.delivered, answers) && Finished(c, d, program)
    ensures Matched(d.log.delivered, answers)
  {
    forall i | 0 <= i < |d.log.delivered| && d.log.delivered[i].reply.Some?
      ensures d.log.delivered[i].reply.value == answers(i)
    {
      assert i < |c.log.delivered|;
    }
  }

  /** The replies that the unread bytes still hold are the next answers, and each has a
      callback waiting. */
  ghost predicate Promised(c: Ctx, pending: Drained, answers: Answers) {
    && pending.state.Live?
    && |c.log.delivered| + |pending.replies| <= |c.log.accepted|
    && forall i | 0 <= i < |pending.replies| :: pending.replies[i] == answers(|c.log.delivered| + i)
  }

  lemma DisconnectMatched(c: Ctx, program: Program, answers: Answers)
    requires Working(c) && Matched(c.log.delivered, answers)
    requires c.flags.disconnecting
    ensures var d := AsyncDisconnect(c, program);
            && d.phase != Alive && Matched(d.log.delivered, answers)
            && d.log.accepted == c.log.accepted && d.log.sent == c.log.sent && d.log.written == c.log.written
  {
    if c.replies == [] {
      FreeFinishes(c, program);
      FinishedMatched(c, AsyncFree(c, program), program, answers);
    }
  }

  /** One round of redisProcessCallbacks: the head of the queue runs with the reply. */
  function AfterReply(c: Ctx, reply: Reply, rest: bytes, program: Program): Ctx
    requires c.replies != []
  {
    RunCallback(Met(Route(c.(reader := Live(Fresh(rest))), reply, NO_CALLBACK), reply), FromReplies, c.replies[0],
                Some(reply), program)
  }

  lemma DeliverNext(c: Ctx, reply: Reply, rest: bytes, program: Program, answers: Answers)
    requires Working(c) && !c.flags.inCallback && RegularMode(c) && RegularProgram(program) && c.replies != []
    requires Matched(c.log.delivered, answers) && reply == answers(|c.log.delivered|)
    ensures var d := AfterReply(c, reply, rest, program);
            && RegularMode(d) && Matched(d.log.delivered, answers)
            && (d.flags.freeing || Working(d)) && !d.flags.inCallback && d.phase == Alive
            && d.reader == Live(Fresh(rest)) && |d.log.delivered| == |c.log.delivered| + 1
            && (Calm(program) && !Closing(c) ==> !Closing(d))
            && c.log.accepted <= d.log.accepted && c.log.written == d.log.written
  {
    hide Going, RunCallback, Wire, RegularArgs, Calm;
    var c0 := c.(reader := Live(Fresh(rest)));
    var c1 := Shift(c0, Some(reply));
    ShiftKeeps(c0, reply);
    RouteCalls(c0, reply, NO_CALLBACK);
    assert Route(c0, reply, NO_CALLBACK) == Routed(c1, FromReplies, c.replies[0]);
    var c2 := Met(Routed(c1, FromReplies, c.replies[0]), reply);
    CallbackKeeps(c2, FromReplies, c.replies[0], Some(reply), program);
    CallbackRegular(c2, FromReplies, c.replies[0], Some(reply), program);
    SameCalls(Answered(Routed(c1, FromReplies, c.replies[0]), reply), AfterReply(c, reply, rest, program).log);
    if Calm(program) { CallbackCalm(c2, FromReplies, c.replies[0], Some(reply), program); }
  }

  lemma {:induction false} ProcessMatched(c: Ctx, cb: Callback, program: Program, answers: Answers)
    requires Working(c) && !c.flags.inCallback && RegularMode(c) && RegularProgram(program)
    requires Matched(c.log.delivered, answers) && Promised(c, Drain(c.reader.cfg), answers)
    ensures var d := ProcessCallbacks(c, cb, program);
            var pending := Drain(c.reader.cfg);
            && Matched(d.log.delivered, answers) && Paired(d.log) && c.log.written == d.log.written
            && (d.phase == Alive ==>
                  && RegularMode(d) && d.reader == pending.state
                  && |d.log.delivered| == |c.log.delivered| + |pending.replies|)
            && (Calm(program) && Open(c) ==> Open(d))
    decreases Unread(c)
  {
    hide Calm, Going, Wire, AsyncFree;
    match Run(c.reader.cfg) {
      case Failed =>
      case Pending(cfg) =>
        if c.flags.disconnecting && c.obuf == [] {
          DisconnectMatched(c.(reader := Live(cfg)), program, answers);
        }
      case Got(reply, rest) =>
        assert Drain(c.reader.cfg) == Prepend([reply], Drain(Fresh(rest)));
        assert c.replies != [];
        assert reply == Drain(c.reader.cfg).replies[0];
        DeliverNext(c, reply, rest, program, answers);
        var c2 := AfterReply(c, reply, rest, program);
        if c2.flags.freeing {
          FreeFinishes(c2, program);
          FinishedMatched(c2, AsyncFree(c2, program), program, answers);
        } else {
          StillPromised(c, c2, reply, Drain(Fresh(rest)), answers);
          ProcessMatched(c2, c.replies[0], program, answers);
        }
    }
  }

  lemma StillPromised(c: Ctx, d: Ctx, reply: Reply, later: Drained, answers: Answers)
    requires Promised(c, Prepend([reply], later), answers)
    requires |d.log.delivered| == |c.log.delivered| + 1 && |c.log.accepted| <= |d.log.accepted|
    ensures Promised(d, later, answers)
  {
    var all := Prepend([reply], later).replies;
    forall i | 0 <= i < |later.replies|
      ensures later.replies[i] == answers(|d.log.delivered| + i)
    {
      assert later.replies[i] == all[i + 1];
    }
  }

  // ------------------------------------------------------------- the whole system

  /** The context, how many commands the server has answered, and the part of its reply stream
      that has reached the client. */
  datatype System = System(ctx: Ctx, answered: nat, arrived: bytes)

  datatype Move =
    | Client(e: Event)        // anything but incoming bytes
    | Answer                  // the server answers the next complete command
    | Deliver(n: nat)         // n more bytes of the reply stream arrive

  function AnswerList(n: nat, answers: Answers): seq<Reply> {
    seq(n, i requires 0 <= i < n => answers(i))
  }

  function ReplyStream(n: nat, answers: Answers): bytes {
    EncodeAll(AnswerList(n, answers))
  }

  ghost function Arrive(s: System, chunk: bytes, program: Program): System {
    System(Handle(s.ctx, ReadChunk(chunk), program), s.answered, s.arrived + chunk)
  }

  ghost function DeliverBytes(s: System, n: nat, program: Program, answers: Answers): System {
    var stream := ReplyStream(s.answered, answers);
    if s.ctx.phase == Alive && |s.arrived| + n <= |stream| then
      Arrive(s, stream[|s.arrived|..|s.arrived| + n], program)
    else s
  }

  /** A move that is not possible changes nothing. */
  ghost function Next(s: System, m: Move, program: Program, answers: Answers): System {
    match m
    case Client(e) => if e.ReadChunk? then s else s.(ctx := Handle(s.ctx, e, program))
    case Answer => if s.answered < |Requested(s.ctx)| then s.(answered := s.answered + 1) else s
    case Deliver(n) => DeliverBytes(s, n, program, answers)
  }

  ghost function NextAll(s: System, moves: seq<Move>, program: Program, answers: Answers): System
    decreases |moves|
  {
    if moves == [] then s else NextAll(Next(s, moves[0], program, answers), moves[1..], program, answers)
  }

  ghost predicate RegularMove(m: Move) {
    m.Client? ==> RegularEvent(m.e)
  }

  /** Neither an error nor a disconnect nor a free. */
  predicate CalmMove(m: Move) {
    m.Client? ==> m.e.Call? || m.e.Write? || m.e.ReadChunk?
  }

  const Start := System(Init, 0, [])

  /** The context has delivered exactly the replies in the bytes that arrived, each matched. */
  ghost predicate ClientInv(c: Ctx, arrived: bytes, answers: Answers) {
    && Inv(c) && Paired(c.log) && Matched(c.log.delivered, answers)
    && (c.phase == Alive ==>
          && RegularMode(c)
          && c.reader == Drain(Fresh(arrived)).state
          && |c.log.delivered| == |Drain(Fresh(arrived)).replies|)
  }

  /** `calm` says that nothing in the run so far ended or may end the connection. */
  ghost predicate SystemInv(s: System, answers: Answers, calm: bool) {
    && (calm ==> Open(s.ctx))
    && ClientInv(s.ctx, s.arrived, answers)
    && s.answered <= |Requested(s.ctx)|
    && s.arrived <= ReplyStream(s.answered, answers)
  }

  lemma StreamGrows(n: nat, answers: Answers)
    ensures ReplyStream(n, answers) <= ReplyStream(n + 1, answers)
  {
    assert AnswerList(n + 1, answers) == AnswerList(n, answers) + [answers(n)];
    EncodeAllPush(AnswerList(n, answers), answers(n));
  }

  /** Bytes already heard stay heard when more are written. */
  lemma HeardGrows(c: Ctx, d: Ctx)
    requires c.log.written <= d.log.written
    ensures |Requested(c)| <= |Requested(d)|
  {
    var more := d.log.written[|c.log.written|..];
    assert Fresh(c.log.written).Extend(more) == Fresh(d.log.written) by {
      assert c.log.written + more == d.log.written;
    }
    DrainExtend(Fresh(c.log.written), more);
  }

  lemma ClientMove(c: Ctx, e: Event, program: Program, answers: Answers)
    requires Inv(c) && c.phase == Alive && RegularMode(c) && Matched(c.log.delivered, answers)
    requires RegularMove(Client(e)) && !e.ReadChunk?
    ensures var d := Handle(c, e, program);
            && Inv(d) && Paired(d.log) && Matched(d.log.delivered, answers) && c.log.written <= d.log.written
            && (d.phase == Alive ==>
                  RegularMode(d) && d.reader == c.reader && |d.log.delivered| == |c.log.delivered|)
            && (CalmMove(Client(e)) && Open(c) ==> Open(d))
  {
    hide Going, Wire, RegularArgs, AsyncFree, ProcessCallbacks;
    HandleInv(c, e, program);
    match e {
      case Call(args, cb) =>
        CommandRegular(c, args, cb);
        CommandKeeps(c, args, cb);
      case Write(n) =>
      case _ => ClosingMove(c, e, program, answers);
    }
  }

  lemma ClosingMove(c: Ctx, e: Event, program: Program, answers: Answers)
    requires Working(c) && RegularMode(c) && Matched(c.log.delivered, answers)
    requires e.ReadError? || e.WriteError? || e.CallDisconnect? || e.CallFree?
    ensures var d := Handle(c, e, program);
            && Paired(d.log) && Matched(d.log.delivered, answers) && c.log.written == d.log.written
            && (d.phase == Alive ==> RegularMode(d) && d.reader == c.reader && d.log == c.log)
  {
    hide Going, Wire, AsyncFree;
    var d := Handle(c, e, program);
    if e.CallFree? {
      var c' := c.(flags := c.flags.(freeing := true));
      FreeFinishes(c', program);
      FinishedMatched(c', d, program, answers);
    } else if e.CallDisconnect? {
      if c.replies == [] {
        DisconnectMatched(StopCommands(c), program, answers);
      }
    } else {
      var c' := StopCommands(c.(failed := true));
      FreeFinishes(c', program);
      FinishedMatched(c', d, program, answers);
    }
  }

  lemma ArrivalDrains(rs: seq<Reply>, arrived: bytes, chunk: bytes)
    requires forall i | 0 <= i < |rs| :: WellFormed(rs[i]) && Depth(rs[i]) <= MAX_DEPTH
    requires arrived + chunk <= EncodeAll(rs)
    ensures var before := Drain(Fresh(arrived));
            && before.state.Live?
            && var pending := Drain(before.state.cfg.Extend(chunk));
            && pending.state.Live? && before.replies + pending.replies <= rs
            && Drain(Fresh(arrived + chunk)) == Prepend(before.replies, pending)
  {
    hide Drain, EncodeAll, WellFormed, Depth;
    assert arrived <= arrived + chunk;
    PrefixDrains(rs, arrived);
    PrefixDrains(rs, arrived + chunk);
    assert Fresh(arrived).Extend(chunk) == Fresh(arrived + chunk);
    DrainExtend(Fresh(arrived), chunk);
  }

  /** Bytes of the reply stream that arrive are read as the next answers, whatever came before. */
  lemma ArrivalPromised(c: Ctx, n: nat, arrived: bytes, chunk: bytes, answers: Answers)
    requires ProperAnswers(answers)
    requires arrived + chunk <= ReplyStream(n, answers) && n <= |c.log.accepted|
    requires Drain(Fresh(arrived)).state.Live? && |c.log.delivered| == |Drain(Fresh(arrived)).replies|
    ensures var pending := Drain(Drain(Fresh(arrived)).state.cfg.Extend(chunk));
            && Promised(c, pending, answers)
            && Drain(Fresh(arrived + chunk)) == Prepend(Drain(Fresh(arrived)).replies, pending)
  {
    hide Drain, EncodeAll, WellFormed, Depth;
    var rs := AnswerList(n, answers);
    var before := Drain(Fresh(arrived));
    ArrivalDrains(rs, arrived, chunk);
    var pending := Drain(before.state.cfg.Extend(chunk)).replies;
    forall i | 0 <= i < |pending| ensures pending[i] == answers(|c.log.delivered| + i) {
      assert (before.replies + pending)[|before.replies| + i] == rs[|before.replies| + i];
    }
  }

  lemma ReadMove(c: Ctx, n: nat, arrived: bytes, chunk: bytes, program: Program, answers: Answers)
    requires ClientInv(c, arrived, answers) && c.phase == Alive
    requires ProperAnswers(answers) && RegularProgram(program)
    requires arrived + chunk <= ReplyStream(n, answers) && n <= |c.log.accepted|
    ensures var d := Handle(c, ReadChunk(chunk), program);
            ClientInv(d, arrived + chunk, answers) && d.log.written == c.log.written
                && (Calm(program) && Open(c) ==> Open(d))
  {
    hide Drain, EncodeAll, AnswerList, RegularProgram, Matched, Paired;
    var c' := c.(reader := Live(c.reader.cfg.Extend(chunk)));
    ArrivalPromised(c', n, arrived, chunk, answers);
    ProcessMatched(c', NO_CALLBACK, program, answers);
    HandleInv(c, ReadChunk(chunk), program);
  }

  lemma ArriveInv(s: System, chunk: bytes, program: Program, answers: Answers, calm: bool)
    requires SystemInv(s, answers, calm) && s.ctx.phase == Alive && ProperAnswers(answers) && RegularProgram(program)
    requires calm ==> Calm(program)
    requires s.arrived + chunk <= ReplyStream(s.answered, answers)
    ensures SystemInv(Arrive(s, chunk, program), answers, calm)
  {
    ServerHearsCommands(s.ctx);
    ReadMove(s.ctx, s.answered, s.arrived, chunk, program, answers);
    assert Requested(Arrive(s, chunk, program).ctx) == Requested(s.ctx);
  }

  lemma DeliverInv(s: System, n: nat, program: Program, answers: Answers, calm: bool)
    requires SystemInv(s, answers, calm) && ProperAnswers(answers) && RegularProgram(program)
    requires calm ==> Calm(program)
    ensures SystemInv(DeliverBytes(s, n, program, answers), answers, calm)
  {
    hide ClientInv, Requested, Handle, EncodeAll, AnswerList, Arrive;
    var stream := ReplyStream(s.answered, answers);
    if s.ctx.phase == Alive && |s.arrived| + n <= |stream| {
      var chunk := stream[|s.arrived|..|s.arrived| + n];
      assert s.arrived + chunk == stream[..|s.arrived| + n];
      ArriveInv(s, chunk, program, answers, calm);
    }
  }

  lemma ClientInvStep(s: System, e: Event, program: Program, answers: Answers, calm: bool)
    requires SystemInv(s, answers, calm) && ProperAnswers(answers) && RegularProgram(program) && RegularMove(Client(e))
    requires calm ==> Calm(program) && CalmMove(Client(e))
    ensures SystemInv(Next(s, Client(e), program, answers), answers, calm)
  {
    hide Drain, EncodeAll, AnswerList, RegularArgs, Wire;
    if s.ctx.phase == Alive && !e.ReadChunk? {
      ClientMove(s.ctx, e, program, answers);
      HeardGrows(s.ctx, Handle(s.ctx, e, program));
    }
  }

  lemma AnswerInv(s: System, answers: Answers, calm: bool)
    requires SystemInv(s, answers, calm) && s.answered < |Requested(s.ctx)|
    ensures SystemInv(s.(answered := s.answered + 1), answers, calm)
  {
    hide Requested, ClientInv, EncodeAll, AnswerList;
    StreamGrows(s.answered, answers);
  }

  lemma NextInv(s: System, m: Move, program: Program, answers: Answers, calm: bool)
    requires SystemInv(s, answers, calm) && ProperAnswers(answers) && RegularProgram(program) && RegularMove(m)
    requires calm ==> Calm(program) && CalmMove(m)
    ensures SystemInv(Next(s, m, program, answers), answers, calm)
  {
    hide SystemInv, Requested, Handle, DeliverBytes;
    match m {
      case Client(e) => ClientInvStep(s, e, program, answers, calm);
      case Answer =>
        if s.answered < |Requested(s.ctx)| {
          AnswerInv(s, answers, calm);
        }
      case Deliver(n) => DeliverInv(s, n, program, answers, calm);
    }
  }

  lemma {:induction false} NextAllInv(s: System, moves: seq<Move>, program: Program, answers: Answers, calm: bool)
    requires SystemInv(s, answers, calm) && ProperAnswers(answers) && RegularProgram(program)
    requires forall i | 0 <= i < |moves| :: RegularMove(moves[i])
    requires calm ==> Calm(program) && forall i | 0 <= i < |moves| :: CalmMove(moves[i])
    ensures SystemInv(NextAll(s, moves, program, answers), answers, calm)
    decreases |moves|
  {
    if moves != [] {
      NextInv(s, moves[0], program, answers, calm);
      NextAllInv(Next(s, moves[0], program, answers), moves[1..], program, answers, calm);
    }
  }

  lemma NextUnmixed(s: System, m: Move, program: Program, answers: Answers)
    requires Unmixed(s.ctx) && RegularProgram(program) && RegularMove(m)
    ensures Unmixed(Next(s, m, program, answers).ctx)
  {
    hide Unmixed, RegularArgs, RegularProgram, Handle, Requested, ReplyStream;
    match m {
      case Client(e) => HandleUnmixed(s.ctx, e, program);
      case Answer =>
      case Deliver(n) =>
        var stream := ReplyStream(s.answered, answers);
        if s.ctx.phase == Alive && |s.arrived| + n <= |stream| {
          HandleUnmixed(s.ctx, ReadChunk(stream[|s.arrived|..|s.arrived| + n]), program);
        }
    }
  }

  /** Nothing but the reply queue comes into play. */
  lemma {:induction false} NextAllUnmixed(s: System, moves: seq<Move>, program: Program, answers: Answers)
    requires Unmixed(s.ctx) && RegularProgram(program) && forall i | 0 <= i < |moves| :: RegularMove(moves[i])
    ensures Unmixed(NextAll(s, moves, program, answers).ctx)
    decreases |moves|
  {
    hide Unmixed, RegularEvent, RegularProgram, Handle, Requested, ReplyStream;
    if moves != [] {
      NextUnmixed(s, moves[0], program, answers);
      NextAllUnmixed(Next(s, moves[0], program, answers), moves[1..], program, answers);
    }
  }

  /** A server that got every byte heard every command. */
  lemma AllHeard(c: Ctx)
    requires Balanced(c) && c.obuf == []
    ensures Requested(c) == Requests(c.log.sent)
  {
    WireEncodes(c.log.sent);
    var rs := Requests(c.log.sent);
    forall i | 0 <= i < |rs| ensures WellFormed(rs[i]) && Depth(rs[i]) <= MAX_DEPTH {
      BulksEncode(c.log.sent[i].args);
    }
    assert c.log.written + [] == c.log.written;
    DrainWhole(rs);
  }

  /** A reply stream that arrived whole was read whole. */
  lemma AllRead(n: nat, answers: Answers)
    requires ProperAnswers(answers)
    ensures |Drain(Fresh(ReplyStream(n, answers))).replies| == n
  {
    DrainWhole(AnswerList(n, answers));
  }

  /** End-to-end order, over every run in regular mode. Each whole reply that arrives takes one callback
      off the queue, and as long as the context is alive nothing else does: the i-th is the callback of the
      i-th command sent, taken for the server's answer to the i-th command, or for NULL once the context is
      being freed. The calls of callbacks are one for each that was taken and has a function, in order,
      with that reply, and no others. The context stays alive unless an error, a disconnect or a free
      ends it. What the server hears is what was sent. */
  lemma {:induction false} EndToEndOrder(moves: seq<Move>, program: Program, answers: Answers)
    requires ProperAnswers(answers) && RegularProgram(program)
    requires forall i | 0 <= i < |moves| :: RegularMove(moves[i])
    ensures var s := NextAll(Start, moves, program, answers);
            var log := s.ctx.log;
            && log.written + s.ctx.obuf == Wire(log.sent)
            && Requested(s.ctx) <= Requests(log.sent)
            && (s.ctx.obuf == [] ==> Requested(s.ctx) == Requests(log.sent))
            && |log.delivered| <= |log.sent|
            && (s.ctx.phase == Alive ==> |log.delivered| == |Drain(Fresh(s.arrived)).replies|)
            && (s.ctx.phase == Alive && s.arrived == ReplyStream(s.answered, answers) ==> |log.delivered| == s.answered)
            && (s.ctx.phase == Alive ==> AllAnswered(log.delivered))
            && (Calm(program) && (forall i | 0 <= i < |moves| :: CalmMove(moves[i])) ==> s.ctx.phase == Alive)
            && log.calls == Calls(FromReplies, log.delivered)
            && forall i | 0 <= i < |log.delivered| ::
                 && log.delivered[i].cb == log.sent[i].cb
                 && (log.delivered[i].reply.Some? ==> log.delivered[i].reply.value == answers(i))
  {
    hide Drain, Requested, Wire, ReplyStream, Calls, Handle, Unmixed;
    var calm := Calm(program) && forall i | 0 <= i < |moves| :: CalmMove(moves[i]);
    StartInv(answers, calm);
    NextAllInv(Start, moves, program, answers, calm);
    var s := NextAll(Start, moves, program, answers);
    NextAllUnmixed(Start, moves, program, answers);
    UnmixedCalls(s.ctx);
    ServerHearsCommands(s.ctx);
    if s.ctx.obuf == [] { AllHeard(s.ctx); }
    AllRead(s.answered, answers);
    forall i | 0 <= i < |s.ctx.log.delivered|
      ensures s.ctx.log.delivered[i].cb == s.ctx.log.sent[i].cb
    {
      assert Callbacks(s.ctx.log.delivered)[i] == s.ctx.log.accepted[i];
    }
  }

  lemma StartInv(answers: Answers, calm: bool)
    ensures SystemInv(Start, answers, calm) && Unmixed(Start.ctx)
  {
    assert Run(Fresh([])) == Pending(Fresh([]));
    assert Callbacks([]) + [] == [];
  }
}
