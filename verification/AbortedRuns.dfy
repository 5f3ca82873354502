/** When a regular run ends in the failed assert of __redisAsyncDisconnect. */
module AbortedRuns {
  import opened Bytes
  import opened Resp
  import opened ReaderMachine
  import opened Format
  import opened Async
  import opened AsyncRuns
  import opened RegularRuns
  import opened EndToEnd
  import opened Endings

  /** A clean disconnect is due although replies are outstanding. */
  predicate Stuck(c: Ctx) {
    c.flags.disconnecting && c.obuf == [] && c.replies != []
  }

  ghost predicate Serving(c: Ctx, program: Program, answers: Answers) {
    && Working(c) && !c.flags.inCallback && RegularMode(c) && RegularProgram(program)
    && Matched(c.log.delivered, answers) && Promised(c, Drain(c.reader.cfg), answers)
  }

  lemma NeverFails(c: Ctx, program: Program, answers: Answers)
    requires Serving(c, program, answers)
    ensures !Run(c.reader.cfg).Failed?
  {
    hide Run, Going, Wire, RegularProgram, Matched;
  }

  lemma DisconnectAborts(c: Ctx, program: Program)
    requires c.phase == Alive && !c.failed && c.flags.disconnecting
    ensures AsyncDisconnect(c, program).phase == Aborted <==> c.replies != []
  {
    hide AsyncFree, LastCalls;
    if c.replies == [] { FreeFinishes(c, program); }
  }

  /** One round of the loop while answers are read. */
  lemma RoundServes(c: Ctx, cb: Callback, program: Program, answers: Answers)
    requires Serving(c, program, answers) && Run(c.reader.cfg).Got?
    ensures var (reply, rest) := (Run(c.reader.cfg).reply, Run(c.reader.cfg).rest);
            var c0 := c.(reader := Live(Fresh(rest)));
            var r := Route(c0, reply, cb);
            var (d, done) := AfterRoute(r, reply, program);
            && c.replies != [] && r == Routed(Shift(c0, Some(reply)), FromReplies, c.replies[0])
            && Drain(c.reader.cfg) == Prepend([reply], Drain(Fresh(rest)))
            && (if done then d.phase == Freed && AfterReply(c, reply, rest, program).flags.freeing
                else Serving(d, program, answers) && d == AfterReply(c, reply, rest, program)
                     && d.reader == Live(Fresh(rest)))
  {
    hide Run, Going, Wire, AsyncFree, LastCalls, Perform, RegularProgram, Matched;
    var (reply, rest) := (Run(c.reader.cfg).reply, Run(c.reader.cfg).rest);
    assert c.replies != [];
    assert reply == Drain(c.reader.cfg).replies[0];
    DeliverNext(c, reply, rest, program, answers);
    var c2 := AfterReply(c, reply, rest, program);
    if c2.flags.freeing {
      FreeFinishes(c2, program);
    } else {
      StillPromised(c, c2, reply, Drain(Fresh(rest)), answers);
    }
  }

  /** A read fails the assert if and only if it leaves the context stuck when it is through. */
  lemma {:induction false} SpentDecides(c: Ctx, cb: Callback, program: Program, answers: Answers)
    requires Serving(c, program, answers)
    ensures var end := ReadThrough(c, cb, program);
            ProcessCallbacks(c, cb, program).phase == Aborted <==> end.Waits? && Stuck(end.ctx)
    decreases Unread(c)
  {
    hide Run, Route, AfterRoute, AsyncDisconnect, Going, Wire, RegularProgram, Matched, Promised;
    NeverFails(c, program, answers);
    match Run(c.reader.cfg) {
      case Failed => assert false;
      case Pending(cfg) =>
        if c.flags.disconnecting { DisconnectAborts(c.(reader := Live(cfg)), program); }
      case Got(reply, rest) =>
        RoundServes(c, cb, program, answers);
        var r := Route(c.(reader := Live(Fresh(rest))), reply, cb);
        var (d, done) := AfterRoute(r, reply, program);
        if !done { SpentDecides(d, r.cb, program, answers); }
    }
  }

  /** Calm callbacks do not change who is stuck: a context that is disconnecting accepts nothing. */
  lemma {:induction false} CalmSpent(c: Ctx, cb: Callback, program: Program, answers: Answers)
    requires Serving(c, program, answers) && Calm(program)
    ensures var end := ReadThrough(c, cb, program);
            end.Waits? && Stuck(end.ctx) <==>
            c.flags.disconnecting && c.obuf == [] && |Drain(c.reader.cfg).replies| < |c.replies|
    decreases Unread(c)
  {
    hide Run, Route, AfterRoute, AsyncDisconnect, Going, Wire, RegularProgram, Matched, Promised, Calm;
    NeverFails(c, program, answers);
    match Run(c.reader.cfg) {
      case Failed => assert false;
      case Pending(cfg) =>
      case Got(reply, rest) =>
        RoundServes(c, cb, program, answers);
        var r := Route(c.(reader := Live(Fresh(rest))), reply, cb);
        var (d, done) := AfterRoute(r, reply, program);
        CalmRound(c, reply, rest, program);
        CalmSpent(d, r.cb, program, answers);
    }
  }

  lemma CalmRound(c: Ctx, reply: Reply, rest: bytes, program: Program)
    requires c.replies != [] && Calm(program) && !c.flags.freeing
    ensures var d := AfterReply(c, reply, rest, program);
            && d.flags.disconnecting == c.flags.disconnecting && !d.flags.freeing
            && (c.flags.disconnecting ==> d.obuf == c.obuf && d.replies == c.replies[1..])
  {
    hide RunCallback, Calm;
    var c1 := Met(Route(c.(reader := Live(Fresh(rest))), reply, NO_CALLBACK), reply);
    CallbackCalm(c1, FromReplies, c.replies[0], Some(reply), program);
    if c.flags.disconnecting { ClosingRefuses(c1, FromReplies, c.replies[0], Some(reply), program); }
  }

  // ------------------------------------------------------------------------- runs

  /** The bytes that a move brings to the client. */
  function Chunk(s: System, n: nat, answers: Answers): bytes {
    var stream := ReplyStream(s.answered, answers);
    if |s.arrived| + n <= |stream| then stream[|s.arrived|..|s.arrived| + n] else []
  }

  ghost predicate Arrives(s: System, m: Move, answers: Answers) {
    m.Deliver? && |s.arrived| + m.n <= |ReplyStream(s.answered, answers)| && Readable(s.ctx)
  }

  /** The context when the read of this move is through. */
  ghost function AfterRead(s: System, m: Move, program: Program, answers: Answers): Through
    requires Arrives(s, m, answers)
  {
    ReadThrough(s.ctx.(reader := Live(s.ctx.reader.cfg.Extend(Chunk(s, m.n, answers)))), NO_CALLBACK, program)
  }

  lemma ClientNeverAborts(c: Ctx, e: Event, program: Program)
    requires Working(c) && RegularMode(c) && RegularEvent(e) && !e.ReadChunk?
    ensures Handle(c, e, program).phase != Aborted
  {
    hide Going, Wire, AsyncFree, LastCalls, RegularArgs, AsyncCommand;
    match e {
      case Call(args, cb) => CommandRegular(c, args, cb);
      case ReadError => FreeFinishes(StopCommands(c.(failed := true)), program);
      case Write(n) =>
      case WriteError => FreeFinishes(StopCommands(c.(failed := true)), program);
      case CallDisconnect => if c.replies == [] { FreeFinishes(StopCommands(c), program); }
      case CallFree => FreeFinishes(c.(flags := c.flags.(freeing := true)), program);
    }
  }

  lemma ReadServes(s: System, m: Move, program: Program, answers: Answers)
    requires SystemInv(s, answers, false) && s.ctx.phase == Alive && ProperAnswers(answers) && RegularProgram(program)
    requires Arrives(s, m, answers)
    ensures var chunk := Chunk(s, m.n, answers);
            var c := s.ctx.(reader := Live(s.ctx.reader.cfg.Extend(chunk)));
            && Serving(c, program, answers)
            && |Drain(Fresh(s.arrived + chunk)).replies| == |s.ctx.log.delivered| + |Drain(c.reader.cfg).replies|
  {
    hide Drain, EncodeAll, AnswerList, RegularProgram, Matched, Going, Wire;
    var chunk := Chunk(s, m.n, answers);
    var stream := ReplyStream(s.answered, answers);
    ServerHearsCommands(s.ctx);
    assert s.arrived + chunk == stream[..|s.arrived| + m.n];
    ArrivalPromised(s.ctx, s.answered, s.arrived, chunk, answers);
  }

  lemma MoveAborts(s: System, m: Move, program: Program, answers: Answers)
    requires SystemInv(s, answers, false) && s.ctx.phase == Alive && ProperAnswers(answers) && RegularProgram(program)
    requires RegularMove(m)
    ensures EndToEnd.Next(s, m, program, answers).ctx.phase == Aborted <==>
            Arrives(s, m, answers) && var end := AfterRead(s, m, program, answers); end.Waits? && Stuck(end.ctx)
  {
    hide ReadThrough, ProcessCallbacks, Drain, EncodeAll, AnswerList, Requested, RegularProgram, RegularEvent, Serving,
         Going,
         Wire, Matched, Paired;
    match m {
      case Client(e) => if !e.ReadChunk? { ClientNeverAborts(s.ctx, e, program); }
      case Answer =>
      case Deliver(n) =>
        if Arrives(s, m, answers) {
          ReadServes(s, m, program, answers);
          SpentDecides(s.ctx.(reader := Live(s.ctx.reader.cfg.Extend(Chunk(s, n, answers)))), NO_CALLBACK, program,
                       answers);
        }
    }
  }

  /** Over all regular runs against a proper server: a move ends an alive context in the failed assert if
      and only if it is a read that, when it is through, leaves DISCONNECTING set, nothing to write and a
      callback in the queue. */
  lemma AbortsExactly(moves: seq<Move>, m: Move, program: Program, answers: Answers)
    requires ProperAnswers(answers) && RegularProgram(program) && RegularMove(m)
    requires forall i | 0 <= i < |moves| :: RegularMove(moves[i])
    ensures var s := NextAll(Start, moves, program, answers);
            s.ctx.phase == Alive ==>
              (EndToEnd.Next(s, m, program, answers).ctx.phase == Aborted <==>
                 && Arrives(s, m, answers)
                 && var end := AfterRead(s, m, program, answers);
                    end.Waits? && Stuck(end.ctx))
  {
    hide SystemInv, EndToEnd.Next, AfterRead, Arrives, RegularProgram, RegularMove, ProperAnswers, Stuck;
    StartInv(answers, false);
    NextAllInv(Start, moves, program, answers, false);
    var s := NextAll(Start, moves, program, answers);
    if s.ctx.phase == Alive { MoveAborts(s, m, program, answers); }
  }

  /** When the callbacks only issue commands, the assert fails if and only if the program asked for a
      disconnect, everything is written, and the read does not bring the answers to all commands sent. */
  lemma CalmAbortsExactly(moves: seq<Move>, m: Move, program: Program, answers: Answers)
    requires ProperAnswers(answers) && RegularProgram(program) && Calm(program) && RegularMove(m)
    requires forall i | 0 <= i < |moves| :: RegularMove(moves[i])
    ensures var s := NextAll(Start, moves, program, answers);
            s.ctx.phase == Alive ==>
              (EndToEnd.Next(s, m, program, answers).ctx.phase == Aborted <==>
                 && Arrives(s, m, answers) && s.ctx.flags.disconnecting && s.ctx.obuf == []
                 && |Drain(Fresh(s.arrived + Chunk(s, m.n, answers))).replies| < |s.ctx.log.sent|)
  {
    hide EndToEnd.Next, AfterRead, Arrives, RegularProgram, RegularMove, ProperAnswers, Calm, Serving, Drain,
         ReadThrough,
         Chunk, Stuck;
    AbortsExactly(moves, m, program, answers);
    StartInv(answers, false);
    NextAllInv(Start, moves, program, answers, false);
    var s := NextAll(Start, moves, program, answers);
    if s.ctx.phase == Alive && Arrives(s, m, answers) { CalmRead(s, m, program, answers); }
  }

  lemma CalmRead(s: System, m: Move, program: Program, answers: Answers)
    requires SystemInv(s, answers, false) && s.ctx.phase == Alive && ProperAnswers(answers) && RegularProgram(program)
    requires Arrives(s, m, answers) && Calm(program)
    ensures var end := AfterRead(s, m, program, answers);
            end.Waits? && Stuck(end.ctx) <==>
            && s.ctx.flags.disconnecting && s.ctx.obuf == []
            && |Drain(Fresh(s.arrived + Chunk(s, m.n, answers))).replies| < |s.ctx.log.sent|
  {
    hide RegularProgram, ProperAnswers, Calm, Serving, Drain, ReadThrough, Chunk, Stuck, Matched, Requested, Going,
         Wire;
    ReadServes(s, m, program, answers);
    var c := s.ctx.(reader := Live(s.ctx.reader.cfg.Extend(Chunk(s, m.n, answers))));
    CalmSpent(c, NO_CALLBACK, program, answers);
    assert |s.ctx.log.sent| == |s.ctx.log.delivered| + |s.ctx.replies|;
  }

  // --------------------------------------------------------------- one such run

  /** Two commands are sent and written, the first is answered, and the program asks for a disconnect. */
  function Waiting(args: seq<bytes>, cb: Callback): seq<Move> {
    [Client(Call(args, cb)), Client(Call(args, cb)), Client(Write(2 * |Command(args)|)), Answer, Client(CallDisconnect)]
  }

  lemma FirstMove(s: System, moves: seq<Move>, program: Program, answers: Answers)
    requires moves != []
    ensures NextAll(s, moves, program, answers) ==
            NextAll(EndToEnd.Next(s, moves[0], program, answers), moves[1..], program, answers)
  {
  }

  lemma NoMove(s: System, program: Program, answers: Answers)
    ensures NextAll(s, [], program, answers) == s
  {
  }

  /** The context when both commands are written. */
  function BothSent(args: seq<bytes>, cb: Callback): Ctx {
    var c := Append(Push(Append(Push(Init, cb), args, cb), cb), args, cb);
    c.(obuf := [], log := c.log.(written := c.obuf))
  }

  /** The five moves one by one. */
  lemma EachMove(args: seq<bytes>, cb: Callback, program: Program, answers: Answers)
    requires RegularArgs(args)
    ensures var c1 := Append(Push(Init, cb), args, cb);
            var s1, s2 := System(c1, 0, []), System(Append(Push(c1, cb), args, cb), 0, []);
            var s3 := System(BothSent(args, cb), 0, []);
            var moves := Waiting(args, cb);
            && EndToEnd.Next(Start, moves[0], program, answers) == s1
            && EndToEnd.Next(s1, moves[1], program, answers) == s2
            && EndToEnd.Next(s2, moves[2], program, answers) == s3
            && EndToEnd.Next(s3, moves[3], program, answers) == s3.(answered := 1)
            && EndToEnd.Next(s3.(answered := 1), moves[4], program, answers) == System(StopCommands(s3.ctx), 1, [])
  {
    hide Command, Parse, Requested;
    var c1 := Append(Push(Init, cb), args, cb);
    assert AsyncCommand(Init, args, cb) == c1;
    var c2 := Append(Push(c1, cb), args, cb);
    assert AsyncCommand(c1, args, cb) == c2;
    assert |c2.obuf| == 2 * |Command(args)|;
    assert c2.obuf[..|c2.obuf|] == c2.obuf && c2.obuf[|c2.obuf|..] == [] && c2.log.written + c2.obuf == c2.obuf;
    assert Handle(c2, Write(2 * |Command(args)|), program) == BothSent(args, cb);
    TwoRequested(args, cb);
  }

  lemma BothWritten(args: seq<bytes>, cb: Callback, program: Program, answers: Answers)
    requires RegularArgs(args)
    ensures NextAll(Start, Waiting(args, cb), program, answers) == System(StopCommands(BothSent(args, cb)), 1, [])
  {
    hide EndToEnd.Next, NextAll, RegularArgs, BothSent, Append, Push;
    EachMove(args, cb, program, answers);
    var moves := Waiting(args, cb);
    var c1 := Append(Push(Init, cb), args, cb);
    var s1, s2 := System(c1, 0, []), System(Append(Push(c1, cb), args, cb), 0, []);
    var s3 := System(BothSent(args, cb), 0, []);
    FirstMove(Start, moves, program, answers);
    FirstMove(s1, moves[1..], program, answers);
    assert moves[1..][1..] == moves[2..] && moves[2..][1..] == moves[3..] && moves[3..][1..] == moves[4..];
    FirstMove(s2, moves[2..], program, answers);
    FirstMove(s3, moves[3..], program, answers);
    FirstMove(s3.(answered := 1), moves[4..], program, answers);
    assert moves[4..][1..] == [];
    NoMove(System(StopCommands(s3.ctx), 1, []), program, answers);
  }

  lemma TwoRequested(args: seq<bytes>, cb: Callback)
    requires RegularArgs(args)
    ensures |Requested(BothSent(args, cb))| == 2
  {
    hide Command, Requested;
    var c := BothSent(args, cb);
    WirePush([], Sent(args, cb));
    WirePush([Sent(args, cb)], Sent(args, cb));
    assert [] + [Sent(args, cb)] == [Sent(args, cb)] && [] + Command(args) == Command(args);
    assert c.log.written + c.obuf == c.log.written;
    assert Callbacks([]) + c.replies == c.log.accepted && Callbacks([]) + c.invalid == [];
    AllHeard(c);
  }

  /** A run that ends in the failed assert: a disconnect with two answers outstanding, of which only the
      first has come when the next read is through. */
  lemma AbortingRun(args: seq<bytes>, cb: Callback, program: Program, answers: Answers)
    requires RegularArgs(args) && ProperAnswers(answers) && RegularProgram(program) && Calm(program)
    ensures var s := NextAll(Start, Waiting(args, cb), program, answers);
            && s.ctx.phase == Alive
            && EndToEnd.Next(s, Deliver(|ReplyStream(1, answers)|), program, answers).ctx.phase == Aborted
  {
    hide NextAll, EndToEnd.Next, RegularProgram, ProperAnswers, Calm, ReplyStream, RegularArgs, Command, Drain;
    var m := Deliver(|ReplyStream(1, answers)|);
    BothWritten(args, cb, program, answers);
    AllRead(1, answers);
    var s := NextAll(Start, Waiting(args, cb), program, answers);
    assert s.arrived + Chunk(s, m.n, answers) == ReplyStream(1, answers);
    CalmAbortsExactly(Waiting(args, cb), m, program, answers);
  }
}
