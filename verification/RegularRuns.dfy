/** Runs with neither subscription commands nor MONITOR: every call of a callback comes from the reply
    queue. */
module RegularRuns {
  import opened Bytes
  import opened Resp
  import opened ReaderMachine
  import opened Format
  import opened Async
  import opened AsyncRuns

  /** A command that is neither a subscription command nor MONITOR, in either variant. */
  ghost predicate RegularArgs(args: seq<bytes>) {
    var parsed := Parse(Command(args) + [NUL]);
    parsed.Some? && parsed.value.verb == Regular
  }

  ghost predicate RegularProgram(program: Program) {
    forall n: nat :: RegularActions(program.run(n))
  }

  ghost predicate RegularActions(actions: seq<Action>) {
    forall i | 0 <= i < |actions| :: actions[i].Issue? ==> RegularArgs(actions[i].args)
  }

  ghost predicate RegularEvent(e: Event) {
    e.Call? ==> RegularArgs(e.args)
  }

  /** Nothing was found anywhere else than in the reply queue, and nothing is anywhere else. */
  ghost predicate OneQueue(c: Ctx) {
    && c.invalid == [] && c.log.aside.pushed == [] && c.tables == Tables(map[], map[])
    && forall i | 0 <= i < |c.log.found| :: c.log.found[i].source == FromReplies
  }

  ghost predicate Unmixed(c: Ctx) {
    OneQueue(c) && (c.phase == Alive ==> !c.flags.subscribed && !c.flags.monitoring)
  }

  lemma CommandUnmixed(c: Ctx, args: seq<bytes>, cb: Callback)
    requires Unmixed(c) && c.phase == Alive && RegularArgs(args)
    ensures Unmixed(AsyncCommand(c, args, cb)) && AsyncCommand(c, args, cb).phase == Alive
  {
    assert AsyncCommand(c, args, cb) == if Closing(c) then c else Append(Push(c, cb), args, cb);
  }

  lemma {:induction false} PerformUnmixed(c: Ctx, actions: seq<Action>)
    requires Unmixed(c) && c.phase == Alive && RegularActions(actions)
    ensures Unmixed(Perform(c, actions)) && Perform(c, actions).phase == Alive
    decreases |actions|
  {
    hide RegularArgs, AsyncCommand;
    if actions != [] {
      if actions[0].Issue? {
        CommandUnmixed(c, actions[0].args, actions[0].cb);
      }
      PerformUnmixed(Act(c, actions[0]), actions[1..]);
    }
  }

  lemma CallbackUnmixed(c: Ctx, source: Source, cb: Callback, reply: Option<Reply>, program: Program)
    requires Unmixed(c) && c.phase == Alive && RegularProgram(program)
    ensures var d := RunCallback(c, source, cb, reply, program); Unmixed(d) && d.phase == Alive
  {
    hide Perform, RegularActions;
    if cb.hasFn {
      assert RegularActions(program.run(|c.log.calls|));
      PerformUnmixed(Enter(c, Invocation(source, cb, reply)), program.run(|c.log.calls|));
    }
  }

  lemma FreeUnmixed(c: Ctx, program: Program)
    requires OneQueue(c) && Closing(c)
    ensures Unmixed(AsyncFree(c, program))
  {
    hide LastCalls, AsyncFree;
    FreeFinishes(c, program);
  }

  lemma DisconnectUnmixed(c: Ctx, program: Program)
    requires OneQueue(c) && (c.failed || c.flags.disconnecting) && c.phase == Alive
    ensures Unmixed(AsyncDisconnect(c, program))
  {
    hide AsyncFree;
    if c.failed {
      FreeUnmixed(StopCommands(c), program);
    } else if c.replies == [] {
      FreeUnmixed(c, program);
    }
  }

  lemma AfterRouteUnmixed(c: Ctx, reply: Reply, cb: Callback, program: Program)
    requires Unmixed(c) && Readable(c) && RegularProgram(program)
    ensures var r := Route(c, reply, cb);
            var (d, done) := AfterRoute(r, reply, program);
            Unmixed(d) && (!done ==> Readable(d) && d.reader == c.reader)
  {
    hide RunCallback, AsyncFree, AsyncDisconnect, RegularProgram;
    var r := Route(c, reply, cb);
    if r.ctx.failed {
      DisconnectUnmixed(r.ctx, program);
    } else if r.ctx.phase == Alive {
      var d := RunCallback(Met(r, reply), r.source, r.cb, Some(reply), program);
      CallbackUnmixed(Met(r, reply), r.source, r.cb, Some(reply), program);
      CallbackKeepsReader(Met(r, reply), r.source, r.cb, Some(reply), program);
      if d.flags.freeing { FreeUnmixed(d, program); }
    }
  }

  lemma {:induction false} ProcessUnmixed(c: Ctx, cb: Callback, program: Program)
    requires Unmixed(c) && Readable(c) && RegularProgram(program)
    ensures Unmixed(ProcessCallbacks(c, cb, program))
    decreases Unread(c)
  {
    hide Route, AfterRoute, AsyncDisconnect, RegularProgram, Run;
    match Run(c.reader.cfg) {
      case Failed => DisconnectUnmixed(c.(reader := Dead, failed := true), program);
      case Pending(cfg) =>
        if c.flags.disconnecting && c.obuf == [] { DisconnectUnmixed(c.(reader := Live(cfg)), program); }
      case Got(reply, rest) =>
        var c0 := c.(reader := Live(Fresh(rest)));
        AfterRouteUnmixed(c0, reply, cb, program);
        var (c2, done) := AfterRoute(Route(c0, reply, cb), reply, program);
        if !done { ProcessUnmixed(c2, Route(c0, reply, cb).cb, program); }
    }
  }

  lemma HandleUnmixed(c: Ctx, e: Event, program: Program)
    requires Unmixed(c) && RegularEvent(e) && RegularProgram(program)
    ensures Unmixed(Handle(c, e, program))
  {
    hide RegularArgs, RegularProgram, AsyncCommand, ProcessCallbacks, AsyncDisconnect, AsyncFree;
    if c.phase == Alive {
      match e {
        case Call(args, cb) => CommandUnmixed(c, args, cb);
        case ReadChunk(chunk) =>
          if Readable(c) { ProcessUnmixed(c.(reader := Live(c.reader.cfg.Extend(chunk))), NO_CALLBACK, program); }
        case ReadError => DisconnectUnmixed(c.(failed := true), program);
        case Write(n) =>
        case WriteError => DisconnectUnmixed(c.(failed := true), program);
        case CallDisconnect => if c.replies == [] { DisconnectUnmixed(StopCommands(c), program); }
        case CallFree => FreeUnmixed(c.(flags := c.flags.(freeing := true)), program);
      }
    }
  }

  lemma {:induction false} HandleAllUnmixed(c: Ctx, events: seq<Event>, program: Program)
    requires Unmixed(c) && RegularProgram(program) && forall i | 0 <= i < |events| :: RegularEvent(events[i])
    ensures Unmixed(HandleAll(c, events, program))
    decreases |events|
  {
    hide Unmixed, RegularEvent, RegularProgram, Handle;
    if events != [] {
      HandleUnmixed(c, events[0], program);
      HandleAllUnmixed(Handle(c, events[0], program), events[1..], program);
    }
  }

  // ------------------------------------------------------------------ all the calls

  lemma {:induction false} CallsAppend(source: Source, a: seq<Delivery>, b: seq<Delivery>)
    ensures Calls(source, a + b) == Calls(source, a) + Calls(source, b)
  {
    if a == [] {
      assert a + b == b;
    } else {
      assert (a + b)[0] == a[0] && (a + b)[1..] == a[1..] + b;
      CallsAppend(source, a[1..], b);
    }
  }

  lemma {:induction false} CalledFromQueue(found: seq<Finding>)
    requires forall i | 0 <= i < |found| :: found[i].source == FromReplies
    ensures Called(found) == Calls(FromReplies, From(found, FromReplies))
  {
    if found != [] {
      var init, last := found[..|found| - 1], found[|found| - 1];
      CalledFromQueue(init);
      var d := [Delivery(last.cb, Some(last.reply))];
      CallsAppend(FromReplies, From(init, FromReplies), d);
      assert d[1..] == [];
    }
  }

  lemma SomeName(names: seq<bytes>)
    ensures names == [] || exists n :: n in names
  {
    if names != [] { assert names[0] in names; }
  }

  lemma NoEntries(pvariant: bool, names: seq<bytes>)
    requires Lists(names, map[])
    ensures EntryCalls(pvariant, map[], names) == []
  {
    SomeName(names);
  }

  /** Nothing was left in the other queue. */
  lemma NothingAside(c: Ctx, left: Left)
    requires Balanced(c) && OneQueue(c) && Gone(c.log, c.tables, left)
    ensures Calls(FromInvalid, Nulls(left.invalid)) == []
  {
    hide Calls, LastCalls;
    assert |Callbacks(c.log.aside.taken)| == |c.log.aside.taken|;
    assert Nulls(left.invalid) == [];
    NoCalls(FromInvalid);
  }

  lemma NoCalls(source: Source)
    ensures Calls(source, []) == []
  {
  }

  lemma UnmixedCalls(c: Ctx)
    requires Inv(c) && Unmixed(c)
    ensures c.log.calls == Calls(FromReplies, c.log.delivered)
  {
    hide Called, From, Calls, EntryCalls;
    CalledFromQueue(c.log.found);
    if c.phase == Freed {
      var left :| Gone(c.log, c.tables, left);
      var found, nulls := From(c.log.found, FromReplies), Nulls(left.replies);
      CallsAppend(FromReplies, found, nulls);
      NoEntries(false, left.channels);
      NoEntries(true, left.patterns);
      NothingAside(c, left);
      assert Calls(FromReplies, found) + Calls(FromReplies, nulls) + [] == Calls(FromReplies, found + nulls);
    }
  }

  /** Exactly-once callbacks in regular mode, over every run with regular commands: the calls are those
      of the callbacks taken off the reply queue, each once, in order, with its reply, and no others. */
  lemma ExactlyOnceRegular(events: seq<Event>, program: Program)
    requires RegularProgram(program) && forall i | 0 <= i < |events| :: RegularEvent(events[i])
    ensures var c := HandleAll(Init, events, program);
            && c.log.calls == Calls(FromReplies, c.log.delivered)
            && c.log.accepted == Callbacks(c.log.delivered) + c.replies
            && (c.phase == Freed ==> c.replies == [])
  {
    hide Handle, Calls, RegularEvent, RegularProgram;
    InitInv();
    HandleAllInv(Init, events, program);
    HandleAllUnmixed(Init, events, program);
    UnmixedCalls(HandleAll(Init, events, program));
  }
}
