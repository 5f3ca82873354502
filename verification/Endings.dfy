/** How a connection comes to its end: what every event, and every request of a callback, does to an
    alive context. */
module Endings {
  import opened Bytes
  import opened Resp
  import opened ReaderMachine
  import opened Format
  import opened Async
  import opened AsyncRuns

  // ------------------------------------------------------------------- one event

  /** A read error or the end of the file, a write error, and a free outside callbacks. */
  predicate Fatal(e: Event) {
    e.ReadError? || e.WriteError? || e.CallFree?
  }

  /** The context is freed: everything that was left is called with NULL, and nothing else. */
  ghost predicate Ends(c: Ctx, d: Ctx, program: Program) {
    && d.phase == Freed && d.replies == [] && d.invalid == []
    && d.log == c.log.(calls := c.log.calls + LastCalls(LeftOf(c, program), c.tables),
                       delivered := c.log.delivered + Nulls(c.replies),
                       aside := c.log.aside.(taken := c.log.aside.taken + Nulls(c.invalid)),
                       frees := c.log.frees + 1)
  }

  lemma FreeEnds(c: Ctx, program: Program)
    requires Closing(c)
    ensures Ends(c, AsyncFree(c, program), program)
  {
    hide LastCalls, AsyncFree;
    FreeFinishes(c, program);
  }

  /** An error frees the context at once. */
  lemma FatalEnds(c: Ctx, e: Event, program: Program)
    requires Inv(c) && c.phase == Alive && Fatal(e)
    ensures Ends(c, Handle(c, e, program), program)
  {
    hide Going, LastCalls, AsyncFree;
    if e.CallFree? {
      FreeEnds(c.(flags := c.flags.(freeing := true)), program);
    } else {
      FreeEnds(StopCommands(c.(failed := true)), program);
    }
  }

  /** A disconnect frees a context that waits for nothing; else it refuses commands from now on. */
  lemma DisconnectEnds(c: Ctx, program: Program)
    requires Inv(c) && c.phase == Alive
    ensures var d := Handle(c, CallDisconnect, program);
            && (c.replies == [] ==> Ends(c, d, program))
            && (c.replies != [] ==> d.phase == Alive && d.flags == c.flags.(disconnecting := true) && d.log == c.log
                                    && d.replies == c.replies && d.obuf == c.obuf)
  {
    hide Going, LastCalls, AsyncFree;
    if c.replies == [] { FreeEnds(StopCommands(c), program); }
  }

  /** A write takes as many bytes as the socket does, and moves no others. */
  lemma WriteMoves(c: Ctx, n: nat, program: Program)
    requires c.phase == Alive
    ensures var d := Handle(c, Write(n), program);
            && d.phase == Alive && d.flags == c.flags && d.replies == c.replies && d.log.calls == c.log.calls
            && |d.obuf| == (if n <= |c.obuf| then |c.obuf| - n else 0)
            && d.log.written + d.obuf == c.log.written + c.obuf
  {
    var k := if n <= |c.obuf| then n else |c.obuf|;
    assert c.log.written + c.obuf[..k] + c.obuf[k..] == c.log.written + c.obuf;
  }

  // ------------------------------------------------------- what a callback asks for

  /** Each request sets its own flag and no other. */
  lemma {:induction false} RequestsNoted(c: Ctx, actions: seq<Action>)
    requires c.phase == Alive && Perform(c, actions).phase == Alive
    ensures var d := Perform(c, actions);
            && (d.flags.freeing <==> c.flags.freeing || Action.Free in actions)
            && (d.flags.disconnecting <==> c.flags.disconnecting || Action.Disconnect in actions)
    decreases |actions|
  {
    hide Parse;
    if actions != [] {
      var d := Act(c, actions[0]);
      if d.phase == Alive {
        RequestsNoted(d, actions[1..]);
      }
      assert forall a :: a in actions <==> a == actions[0] || a in actions[1..];
    }
  }

  lemma CallbackRequests(c: Ctx, source: Source, cb: Callback, reply: Option<Reply>, program: Program)
    requires c.phase == Alive && cb.hasFn && RunCallback(c, source, cb, reply, program).phase == Alive
    ensures var asked := program.run(|c.log.calls|);
            var d := RunCallback(c, source, cb, reply, program);
            && (d.flags.freeing <==> c.flags.freeing || Action.Free in asked)
            && (d.flags.disconnecting <==> c.flags.disconnecting || Action.Disconnect in asked)
  {
    hide Perform;
    RequestsNoted(Enter(c, Invocation(source, cb, reply)), program.run(|c.log.calls|));
  }

  /** Once a callback that asked for a free returns, the context is freed, with everything left called
      with NULL; a callback that did not ask leaves it alive. */
  lemma FreedWhenAsked(r: Routed, reply: Reply, program: Program)
    requires r.ctx.phase == Alive && !r.ctx.failed && !r.ctx.flags.freeing && r.cb.hasFn
    ensures var asked := program.run(|r.ctx.log.calls|);
            var d := RunCallback(Met(r, reply), r.source, r.cb, Some(reply), program);
            var (d', done) := AfterRoute(r, reply, program);
            && (d.phase != Alive ==> d' == d && done)
            && (d.phase == Alive && Action.Free in asked ==> done && Ends(d, d', program))
            && (d.phase == Alive && Action.Free !in asked ==> !done && d' == d)
  {
    hide RunCallback, AsyncFree, LastCalls;
    var d := RunCallback(Met(r, reply), r.source, r.cb, Some(reply), program);
    if d.phase == Alive {
      CallbackRequests(Met(r, reply), r.source, r.cb, Some(reply), program);
      if d.flags.freeing { FreeEnds(d, program); }
    }
  }

  // ------------------------------------------------------------------ a new command

  /** The command goes into the output whole and once. */
  predicate Sends(c: Ctx, d: Ctx, args: seq<bytes>, cb: Callback) {
    d.phase == c.phase && d.obuf == c.obuf + Command(args) && d.log.sent == c.log.sent + [Sent(args, cb)]
  }

  /** An accepted command's callback goes to the place that its name and the mode ask for. Only a closing
      context refuses commands, and one out of subscribed mode unsubscriptions. */
  lemma CommandTaken(c: Ctx, args: seq<bytes>, cb: Callback)
    requires args != [] && CR !in args[0] && !Closing(c)
    ensures var name := args[0];
            var verb := WordVerb(if PVariant(name) then name[1..] else name, |args| > 1);
            var d := AsyncCommand(c, args, cb);
            && (verb == Unsubscribe && !c.flags.subscribed ==> d == c)
            && (verb != Unsubscribe || c.flags.subscribed ==> Sends(c, d, args, cb))
            && d.replies == (if verb == Monitor || (verb == Regular && !c.flags.subscribed) then c.replies + [cb]
                             else c.replies)
            && d.invalid == (if verb == Regular && c.flags.subscribed then c.invalid + [cb] else c.invalid)
            && (verb != Subscribe ==> d.tables == c.tables)
            && d.flags == c.flags.(subscribed := c.flags.subscribed || verb == Subscribe,
                                   monitoring := c.flags.monitoring || verb == Monitor)
  {
    hide AddSubscriptions, Command, PVariant, WordVerb, Parse;
    ParseOfCommand(args);
  }

  // ----------------------------------------------------------------- stray replies

  /** An error that no queued callback waits for ends the connection. */
  lemma StrayErrorEnds(c: Ctx, text: bytes, cb: Callback, program: Program)
    requires c.phase == Alive && c.replies == []
    ensures var (d, done) := AfterRoute(Route(c, Error(text), cb), Error(text), program); done && Ends(c, d, program)
  {
    hide AsyncFree, LastCalls;
    FreeEnds(StopCommands(c.(failed := true)), program);
  }

  /** Any other reply that none waits for fails the assert, unless the context is subscribed or
      monitoring. */
  lemma StrayReplyAborts(c: Ctx, reply: Reply, cb: Callback)
    requires c.phase == Alive && c.replies == [] && !reply.Error? && !c.flags.subscribed && !c.flags.monitoring
    ensures Route(c, reply, cb).ctx.phase == Aborted
  {
  }

  /** In subscribed mode, a reply that is no array answers the oldest command that was sent while
      subscribed: its callback leaves that queue and is called. */
  lemma AsideAnswered(c: Ctx, reply: Reply, cb: Callback, program: Program)
    requires Working(c) && c.flags.subscribed && c.replies == [] && c.invalid != []
    requires reply.Status? || reply.Integer? || reply.Str? || reply.Nil?
    ensures var r := Route(c, reply, cb);
            var d := RunCallback(Met(r, reply), r.source, r.cb, Some(reply), program);
            && r.cb == c.invalid[0] && r.ctx.invalid == c.invalid[1..] && r.ctx.tables == c.tables
            && d.log.calls == c.log.calls + Told(FromInvalid, c.invalid[0], Some(reply))
  {
    hide Perform, Going, Wire;
    var r := Route(c, reply, cb);
    RouteKeeps(c, reply, cb);
    CallbackKeeps(Met(r, reply), r.source, r.cb, Some(reply), program);
  }

  /** In subscribed mode with no queued callback, an array fails an assert if and only if it has fewer than
      two elements, one of the first two is no string, or it confirms the unsubscription of a
      registered name without a number of names left. */
  lemma MalformedAborts(c: Ctx, es: seq<Reply>, cb: Callback)
    requires c.phase == Alive && c.flags.subscribed && c.replies == []
    ensures Route(c, Array(es), cb).ctx.phase == Aborted <==>
            || |es| < 2 || !es[0].Str? || !es[1].Str?
            || var kind := CStr(es[0].text);
               var p := PVariant(kind);
               && es[1].text in (if p then c.tables.patterns else c.tables.channels)
               && LowerAll(if p then kind[1..] else kind) == UNSUBSCRIBE
               && (|es| < 3 || !es[2].Integer?)
  {
    hide CStr, LowerAll, PVariant;
  }

  // -------------------------------------------------------------------- one read

  /** How far the loop over the replies gets: it waits for more bytes, the reader fails, or the
      context is gone before. */
  datatype Through = Waits(ctx: Ctx, cb: Callback) | Breaks(ctx: Ctx) | Over(ctx: Ctx)

  function ReadThrough(c: Ctx, cb: Callback, program: Program): Through
    requires Readable(c)
    decreases Unread(c)
  {
    match Run(c.reader.cfg)
    case Failed => Breaks(c.(reader := Dead))
    case Pending(cfg) => Waits(c.(reader := Live(cfg)), cb)
    case Got(reply, rest) =>
      var c0 := c.(reader := Live(Fresh(rest)));
      var r := Route(c0, reply, cb);
      var (c2, done) := AfterRoute(r, reply, program);
      RouteKeepsReader(c0, reply, cb);
      CallbackKeepsReader(Met(r, reply), r.source, r.cb, Some(reply), program);
      if done then Over(c2) else ReadThrough(c2, r.cb, program)
  }

  /** What becomes of a context whose read is through. */
  ghost predicate Settles(c: Ctx, cb: Callback, d: Ctx, program: Program) {
    if c.flags.disconnecting && c.obuf == [] then
      if c.replies == [] then Ends(c, d, program) else d == c.(phase := Aborted)
    else d == if c.flags.monitoring then Push(c, cb) else c
  }

  /** The end of every read: a reader that fails frees the context; one that waits leaves it alive unless
      a disconnect is due, which frees it or fails the assert; and nothing else ends it but what ended
      it on the way. */
  lemma {:induction false} ReadEnds(c: Ctx, cb: Callback, program: Program)
    requires Working(c) && !c.flags.inCallback
    ensures var d, all := ProcessCallbacks(c, cb, program), Drain(c.reader.cfg);
            match ReadThrough(c, cb, program)
            case Waits(x, k) => Working(x) && x.reader == all.state && all.state.Live? && Settles(x, k, d, program)
            case Breaks(x) => all.state.Dead? && x.phase == Alive && Ends(x, d, program)
            case Over(x) => d == x && d.phase != Alive
    decreases Unread(c)
  {
    hide Run, Route, AfterRoute, AsyncFree, Going, LastCalls, Wire;
    match Run(c.reader.cfg) {
      case Failed => FreeEnds(StopCommands(c.(reader := Dead, failed := true)), program);
      case Pending(cfg) =>
        if c.flags.disconnecting && c.obuf == [] && c.replies == [] { FreeEnds(c.(reader := Live(cfg)), program); }
      case Got(reply, rest) =>
        var c0 := c.(reader := Live(Fresh(rest)));
        RouteKeeps(c0, reply, cb);
        RouteCalls(c0, reply, cb);
        var r := Route(c0, reply, cb);
        var (c2, done) := AfterRoute(r, reply, program);
        AfterRouteReads(r, reply, program);
        if r.ctx.phase == Alive { AfterRouteInv(r, reply, program); }
        if !done {
          AfterRouteAlive(r, reply, program);
          ReadEnds(c2, r.cb, program);
        }
    }
  }

  lemma AfterRouteAlive(r: Routed, reply: Reply, program: Program)
    requires !AfterRoute(r, reply, program).1
    ensures r.ctx.phase == Alive
  {
  }

  // ----------------------------------------------------------------------- runs

  lemma {:induction false} HandleAllAppend(c: Ctx, a: seq<Event>, b: seq<Event>, program: Program)
    ensures HandleAll(c, a + b, program) == HandleAll(HandleAll(c, a, program), b, program)
    decreases |a|
  {
    hide Handle;
    if a == [] {
      assert a + b == b;
    } else {
      assert (a + b)[0] == a[0] && (a + b)[1..] == a[1..] + b;
      HandleAllAppend(Handle(c, a[0], program), a[1..], b, program);
    }
  }

  lemma {:induction false} GoneForGood(c: Ctx, events: seq<Event>, program: Program)
    requires c.phase != Alive
    ensures HandleAll(c, events, program) == c
    decreases |events|
  {
    if events != [] { GoneForGood(c, events[1..], program); }
  }

  /** Over all runs: an error, or a free, that finds the context alive ends the run there and then. Every
      callback ever accepted was taken off its queue, those still waiting with NULL, and nothing that
      happens afterwards changes that. */
  lemma ErrorEndsRun(before: seq<Event>, e: Event, later: seq<Event>, program: Program)
    requires Fatal(e)
    ensures var c, d := HandleAll(Init, before, program), HandleAll(Init, before + [e] + later, program);
            c.phase == Alive ==>
              && Ends(c, d, program)
              && d.log.accepted == Callbacks(d.log.delivered)
              && d.log.aside.pushed == Callbacks(d.log.aside.taken)
  {
    hide Handle, LastCalls, Callbacks, Going, Wire;
    var c := HandleAll(Init, before, program);
    HandleAllAppend(Init, before, [e] + later, program);
    assert before + [e] + later == before + ([e] + later);
    HandleAllAppend(c, [e], later, program);
    assert [e][1..] == [];
    InitInv();
    HandleAllInv(Init, before, program);
    if c.phase == Alive {
      var d := Handle(c, e, program);
      FatalEnds(c, e, program);
      GoneForGood(d, later, program);
      HandleInv(c, e, program);
      assert Callbacks(d.log.delivered) + [] == Callbacks(d.log.delivered);
      assert Callbacks(d.log.aside.taken) + [] == Callbacks(d.log.aside.taken);
    }
  }

  /** Over all runs: once the bytes that arrived break the protocol, the context is not alive. */
  lemma BrokenEndsRun(events: seq<Event>, program: Program)
    ensures Drain(Fresh(Arrived(events))).state.Dead? ==> HandleAll(Init, events, program).phase != Alive
  {
    hide HandleAll, Arrived, Drain, Going, Wire, LastCalls;
    InitInv();
    HandleAllInv(Init, events, program);
    HandleAllReads(Init, events, program, []);
    assert [] + Arrived(events) == Arrived(events);
  }
}
