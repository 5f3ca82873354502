/** Whole runs of a context: any calls of the program, any bytes from the network, any partial
    writes, and callbacks that issue commands, disconnect or free. */
module AsyncRuns {
  import opened Bytes
  import opened Resp
  import opened ReaderMachine
  import opened Format
  import opened Async

  datatype Event =
    | Call(args: seq<bytes>, cb: Callback)
    | ReadChunk(chunk: bytes)
    | ReadError
    | Write(n: nat)
    | WriteError
    | CallDisconnect
    | CallFree

  /** A context that is gone, or that failed an assert, takes no further event. */
  ghost function Handle(c: Ctx, e: Event, program: Program): Ctx {
    if c.phase != Alive then c
    else
      match e
      case Call(args, cb) => AsyncCommand(c, args, cb)
      case ReadChunk(chunk) => if Readable(c) then HandleRead(c, Some(chunk), program) else c
      case ReadError => if Readable(c) then HandleRead(c, None, program) else c
      case Write(n) => HandleWrite(c, Some(if n <= |c.obuf| then n else |c.obuf|), program)
      case WriteError => HandleWrite(c, None, program)
      case CallDisconnect => UserDisconnect(c, program)
      case CallFree => UserFree(c, program)
  }

  ghost function HandleAll(c: Ctx, events: seq<Event>, program: Program): Ctx
    decreases |events|
  {
    if events == [] then c else HandleAll(Handle(c, events[0], program), events[1..], program)
  }

  // ---------------------------------------------------------------- accounting

  function Callbacks(ds: seq<Delivery>): seq<Callback> {
    seq(|ds|, i requires 0 <= i < |ds| => ds[i].cb)
  }

  function Nulls(cbs: seq<Callback>): seq<Delivery> {
    seq(|cbs|, i requires 0 <= i < |cbs| => Delivery(cbs[i], None))
  }

  /** The bytes of the commands that were put in the output buffer. */
  function Wire(sent: seq<Sent>): bytes {
    if sent == [] then [] else Wire(sent[..|sent| - 1]) + Command(sent[|sent| - 1].args)
  }

  /** Every push on either queue is accounted for, and so is every byte. */
  ghost predicate Balanced(c: Ctx) {
    && c.log.accepted == Callbacks(c.log.delivered) + c.replies
    && c.log.aside.pushed == Callbacks(c.log.aside.taken) + c.invalid
    && c.log.written + c.obuf == Wire(c.log.sent)
  }

  ghost predicate AllAnswered(ds: seq<Delivery>) {
    forall i | 0 <= i < |ds| :: ds[i].reply.Some?
  }

  /** Once one callback was given NULL, so were all after it. */
  ghost predicate NullsLast(ds: seq<Delivery>) {
    forall i, j | 0 <= i <= j < |ds| && ds[i].reply.None? :: ds[j].reply.None?
  }

  // --------------------------------------------------------------------- calls

  /** The callbacks that were found in one place, with their replies. */
  function From(found: seq<Finding>, source: Source): seq<Delivery> {
    if found == [] then []
    else
      var last := found[|found| - 1];
      From(found[..|found| - 1], source) + if last.source == source then [Delivery(last.cb, Some(last.reply))] else []
  }

  /** One call for every callback that was found and has a function, with the reply that found it. */
  function Called(found: seq<Finding>): seq<Invocation> {
    if found == [] then []
    else
      var last := found[|found| - 1];
      Called(found[..|found| - 1]) + Told(last.source, last.cb, Some(last.reply))
  }

  function Replies(found: seq<Finding>): seq<Reply> {
    seq(|found|, i requires 0 <= i < |found| => found[i].reply)
  }

  /** The calls that a queue's callbacks lead to. */
  function Calls(source: Source, ds: seq<Delivery>): seq<Invocation> {
    if ds == [] then [] else Told(source, ds[0].cb, ds[0].reply) + Calls(source, ds[1..])
  }

  /** The calls with NULL that a table's entries lead to. */
  function EntryCalls(pvariant: bool, table: map<bytes, Callback>, names: seq<bytes>): seq<Invocation>
    requires forall n | n in names :: n in table
  {
    if names == [] then []
    else Told(FromTable(pvariant, names[0]), table[names[0]], None) + EntryCalls(pvariant, table, names[1..])
  }

  /** What a context held when it was freed: its queues, and its tables in the iterators' order. */
  datatype Left = Left(replies: seq<Callback>, invalid: seq<Callback>, channels: seq<bytes>, patterns: seq<bytes>)

  ghost predicate Matches(left: Left, tables: Tables) {
    Lists(left.channels, tables.channels) && Lists(left.patterns, tables.patterns)
  }

  /** The calls with NULL that freeing makes. */
  ghost function LastCalls(left: Left, tables: Tables): seq<Invocation>
    requires Matches(left, tables)
  {
    Calls(FromReplies, Nulls(left.replies)) + Calls(FromInvalid, Nulls(left.invalid))
    + EntryCalls(false, tables.channels, left.channels) + EntryCalls(true, tables.patterns, left.patterns)
  }

  /** Before the context is freed: one call for each reply that found a function and no other, and the
      queues gave up exactly the callbacks found in them. */
  ghost predicate Going(log: History) {
    && log.calls == Called(log.found)
    && log.delivered == From(log.found, FromReplies) && log.aside.taken == From(log.found, FromInvalid)
  }

  /** After that: the same, and then one call with NULL for everything that was left. */
  ghost predicate Gone(log: History, tables: Tables, left: Left) {
    && Matches(left, tables)
    && log.calls == Called(log.found) + LastCalls(left, tables)
    && log.delivered == From(log.found, FromReplies) + Nulls(left.replies)
    && log.aside.taken == From(log.found, FromInvalid) + Nulls(left.invalid)
  }

  function WithCalls(log: History, calls: seq<Invocation>): History {
    log.(calls := log.calls + calls)
  }

  // ---------------------------------------------------------------- invariants

  /** While events are still handled. */
  ghost predicate Working(c: Ctx) {
    && c.phase == Alive && Balanced(c) && AllAnswered(c.log.delivered)
    && Going(c.log)
    && c.log.frees == 0 && !c.failed && c.reader.Live? && c.reader.Valid() && !c.flags.freeing
  }

  /** After any sequence of events. */
  ghost predicate Inv(c: Ctx) {
    && Balanced(c) && NullsLast(c.log.delivered)
    && (c.phase == Alive ==> Working(c) && !c.flags.inCallback)
    && (c.phase == Freed ==> c.replies == [] && c.invalid == [] && exists left :: Gone(c.log, c.tables, left))
    && (c.phase != Freed ==> Going(c.log))
    && c.log.frees == (if c.phase == Freed then 1 else 0)
  }

  lemma WirePush(sent: seq<Sent>, s: Sent)
    ensures Wire(sent + [s]) == Wire(sent) + Command(s.args)
  {
    assert (sent + [s])[..|sent|] == sent;
  }

  lemma RecordKeeps(c: Ctx, parsed: Parsed, cb: Callback)
    ensures var d := Record(c, parsed, cb);
            && (Balanced(c) ==> Balanced(d)) && Untouched(c, d)
            && d.phase == c.phase && d.flags.freeing == c.flags.freeing && d.flags.inCallback == c.flags.inCallback
            && d.obuf == c.obuf && d.log.sent == c.log.sent
  {
    hide Callbacks, Wire, AddSubscriptions;
    if Balanced(c) {
      var delivered, taken := Callbacks(c.log.delivered), Callbacks(c.log.aside.taken);
      assert delivered + c.replies + [cb] == delivered + (c.replies + [cb]);
      assert taken + c.invalid + [cb] == taken + (c.invalid + [cb]);
    }
  }

  lemma AppendKeeps(c: Ctx, args: seq<bytes>, cb: Callback)
    requires Balanced(c)
    ensures var d := Append(c, args, cb); Balanced(d) && Untouched(c, d) && d.phase == c.phase && d.flags == c.flags
  {
    hide Callbacks, Wire, Command;
    WirePush(c.log.sent, Sent(args, cb));
    assert c.log.written + (c.obuf + Command(args)) == c.log.written + c.obuf + Command(args);
  }

  lemma AcceptKeeps(c: Ctx, parsed: Option<Parsed>, args: seq<bytes>, cb: Callback)
    requires Balanced(c)
    ensures var d := Accept(c, parsed, args, cb);
            && Balanced(d) && Untouched(c, d) && (d.phase == c.phase || d.phase == Aborted)
            && d.flags.freeing == c.flags.freeing && d.flags.inCallback == c.flags.inCallback
  {
    hide Callbacks, Wire, Record, Append;
    if parsed.Some? && !(parsed.value.verb == Unsubscribe && !c.flags.subscribed) {
      RecordKeeps(c, parsed.value, cb);
      AppendKeeps(Record(c, parsed.value, cb), args, cb);
    }
  }

  lemma {:induction false} CommandKeeps(c: Ctx, args: seq<bytes>, cb: Callback)
    requires Balanced(c)
    ensures var d := AsyncCommand(c, args, cb);
            && Balanced(d) && Untouched(c, d) && (d.phase == c.phase || d.phase == Aborted)
            && d.flags.freeing == c.flags.freeing && d.flags.inCallback == c.flags.inCallback
  {
    if !Closing(c) {
      AcceptKeeps(c, Parse(Command(args) + [NUL]), args, cb);
    }
  }

  lemma {:induction false} PerformKeeps(c: Ctx, actions: seq<Action>)
    requires Balanced(c) && c.phase == Alive
    ensures var d := Perform(c, actions);
            Balanced(d) && Untouched(c, d) && d.phase != Freed
    decreases |actions|
  {
    if actions != [] {
      if actions[0].Issue? {
        CommandKeeps(c, actions[0].args, actions[0].cb);
      }
      if Act(c, actions[0]).phase == Alive {
        PerformKeeps(Act(c, actions[0]), actions[1..]);
      }
    }
  }

  /** A callback with a function is called with the reply; whatever it does, queues and buffer
      stay accounted for. */
  lemma CallbackKeeps(c: Ctx, source: Source, cb: Callback, reply: Option<Reply>, program: Program)
    requires Balanced(c) && c.phase == Alive
    ensures var d := RunCallback(c, source, cb, reply, program);
            && Balanced(d) && Untouched(c.(log := WithCalls(c.log, Told(source, cb, reply))), d) && d.phase != Freed
            && (cb.hasFn ==> !d.flags.inCallback) && (!cb.hasFn ==> d == c)
  {
    if cb.hasFn {
      PerformKeeps(Enter(c, Invocation(source, cb, reply)), program.run(|c.log.calls|));
    } else {
      assert c.log.calls + [] == c.log.calls;
    }
  }

  // ------------------------------------------------------------------- freeing

  ghost function LeftOf(c: Ctx, program: Program): (left: Left)
    ensures Matches(left, c.tables)
  {
    assert Lists(program.order(c.tables.channels), c.tables.channels);
    assert Lists(program.order(c.tables.patterns), c.tables.patterns);
    Left(c.replies, c.invalid, program.order(c.tables.channels), program.order(c.tables.patterns))
  }

  function TableCalls(c: Ctx, pvariant: bool, program: Program): seq<Invocation> {
    var table := if pvariant then c.tables.patterns else c.tables.channels;
    assert Lists(program.order(table), table);
    EntryCalls(pvariant, table, program.order(table))
  }

  /** Freeing calls every queued callback and every table entry with NULL, in order, and changes
      nothing else it could be held to: no command gets in, and the tables are what they were. */
  ghost predicate Finished(c: Ctx, d: Ctx, program: Program) {
    && d.phase == Freed && d.replies == [] && d.invalid == []
    && d.tables == c.tables && d.obuf == c.obuf && d.reader == c.reader && d.failed == c.failed
    && d.log == c.log.(calls := c.log.calls + LastCalls(LeftOf(c, program), c.tables),
                       delivered := c.log.delivered + Nulls(c.replies),
                       aside := c.log.aside.(taken := c.log.aside.taken + Nulls(c.invalid)),
                       frees := c.log.frees + 1)
  }

  lemma {:induction false} DrainRepliesSpec(c: Ctx, program: Program)
    requires Closing(c)
    ensures var d := DrainReplies(c, program);
            d == c.(replies := [], flags := d.flags,
                    log := c.log.(calls := c.log.calls + Calls(FromReplies, Nulls(c.replies)),
                                  delivered := c.log.delivered + Nulls(c.replies)))
    decreases |c.replies|
  {
    hide RunCallback, Told;
    var ds := Nulls(c.replies);
    if c.replies == [] {
      assert c.log.delivered + ds == c.log.delivered && c.log.calls + Calls(FromReplies, ds) == c.log.calls;
    } else {
      var cb := c.replies[0];
      var c', told := Shift(c, None), Told(FromReplies, cb, None);
      ClosingRefuses(c', FromReplies, cb, None, program);
      DrainRepliesSpec(RunCallback(c', FromReplies, cb, None, program), program);
      assert ds[1..] == Nulls(c.replies[1..]);
      assert c'.log.delivered + ds[1..] == c.log.delivered + ds;
      assert c.log.calls + told + Calls(FromReplies, ds[1..]) == c.log.calls + (told + Calls(FromReplies, ds[1..]));
    }
  }

  lemma {:induction false} DrainInvalidSpec(c: Ctx, program: Program)
    requires Closing(c)
    ensures var d := DrainInvalid(c, program);
            d == c.(invalid := [], flags := d.flags,
                    log := c.log.(calls := c.log.calls + Calls(FromInvalid, Nulls(c.invalid)),
                                  aside := c.log.aside.(taken := c.log.aside.taken + Nulls(c.invalid))))
    decreases |c.invalid|
  {
    hide RunCallback, Told;
    var ds := Nulls(c.invalid);
    if c.invalid == [] {
      assert c.log.aside.taken + ds == c.log.aside.taken && c.log.calls + Calls(FromInvalid, ds) == c.log.calls;
    } else {
      var cb := c.invalid[0];
      var c', told := ShiftInvalid(c, None), Told(FromInvalid, cb, None);
      ClosingRefuses(c', FromInvalid, cb, None, program);
      DrainInvalidSpec(RunCallback(c', FromInvalid, cb, None, program), program);
      assert ds[1..] == Nulls(c.invalid[1..]);
      assert c'.log.aside.taken + ds[1..] == c.log.aside.taken + ds;
      assert c.log.calls + told + Calls(FromInvalid, ds[1..]) == c.log.calls + (told + Calls(FromInvalid, ds[1..]));
    }
  }

  lemma {:induction false} RunEntriesSpec(c: Ctx, pvariant: bool, table: map<bytes, Callback>, names: seq<bytes>,
                                          program: Program)
    requires Closing(c) && forall n | n in names :: n in table
    ensures var d := RunEntries(c, pvariant, table, names, program);
            d == c.(flags := d.flags, log := c.log.(calls := c.log.calls + EntryCalls(pvariant, table, names)))
    decreases |names|
  {
    hide RunCallback, Told;
    if names == [] {
      assert c.log.calls + [] == c.log.calls;
    } else {
      var source, cb := FromTable(pvariant, names[0]), table[names[0]];
      var told, later := Told(source, cb, None), EntryCalls(pvariant, table, names[1..]);
      ClosingRefuses(c, source, cb, None, program);
      RunEntriesSpec(RunCallback(c, source, cb, None, program), pvariant, table, names[1..], program);
      assert c.log.calls + told + later == c.log.calls + (told + later);
    }
  }

  lemma RunTableSpec(c: Ctx, pvariant: bool, program: Program)
    requires Closing(c)
    ensures var d := RunTable(c, pvariant, program);
            d == c.(flags := d.flags, log := c.log.(calls := c.log.calls + TableCalls(c, pvariant, program)))
  {
    hide RunEntries, EntryCalls;
    var table := if pvariant then c.tables.patterns else c.tables.channels;
    assert Lists(program.order(table), table);
    RunEntriesSpec(c, pvariant, table, program.order(table), program);
  }

  lemma FreeFinishes(c: Ctx, program: Program)
    requires Closing(c)
    ensures Finished(c, AsyncFree(c, program), program)
  {
    hide DrainReplies, DrainInvalid, RunTable, Calls, EntryCalls, Nulls;
    var left := LeftOf(c, program);
    var c1 := DrainReplies(c, program);
    DrainRepliesSpec(c, program);
    var c2 := DrainInvalid(c1, program);
    DrainInvalidSpec(c1, program);
    var c3 := RunTable(c2, false, program);
    RunTableSpec(c2, false, program);
    RunTableSpec(c3, true, program);
    Regroup(c.log.calls, Calls(FromReplies, Nulls(left.replies)), Calls(FromInvalid, Nulls(left.invalid)),
            TableCalls(c, false, program), TableCalls(c, true, program));
  }

  lemma Regroup<T>(a: seq<T>, b: seq<T>, c: seq<T>, d: seq<T>, e: seq<T>)
    ensures a + b + c + d + e == a + (b + c + d + e)
  {
  }

  lemma {:induction false} NullsBehind(ds: seq<Delivery>, cbs: seq<Callback>)
    requires AllAnswered(ds)
    ensures NullsLast(ds + Nulls(cbs)) && Callbacks(ds + Nulls(cbs)) == Callbacks(ds) + cbs
  {
  }

  lemma FinishedInv(c: Ctx, d: Ctx, program: Program)
    requires Balanced(c) && AllAnswered(c.log.delivered) && c.log.frees == 0 && Finished(c, d, program)
    requires Going(c.log)
    ensures Inv(d)
  {
    hide From, Called, Wire, LastCalls;
    assert Gone(d.log, d.tables, LeftOf(c, program));
    NullsBehind(c.log.delivered, c.replies);
    assert Callbacks(d.log.aside.taken) == Callbacks(c.log.aside.taken) + c.invalid;
    assert Callbacks(d.log.delivered) + [] == Callbacks(d.log.delivered);
    assert Callbacks(d.log.aside.taken) + [] == Callbacks(d.log.aside.taken);
  }

  lemma DisconnectInv(c: Ctx, program: Program)
    requires Balanced(c) && AllAnswered(c.log.delivered) && c.log.frees == 0 && Going(c.log)
    requires (c.failed || c.flags.disconnecting) && c.phase == Alive
    ensures Inv(AsyncDisconnect(c, program))
    ensures var d := AsyncDisconnect(c, program);
            Finished(c, d, program) || (d.phase == Aborted && d.log == c.log)
  {
    hide Going, AsyncFree, Wire, LastCalls;
    if c.failed {
      FreeFinishes(StopCommands(c), program);
      FinishedInv(StopCommands(c), AsyncFree(StopCommands(c), program), program);
    } else if c.replies == [] {
      FreeFinishes(c, program);
      FinishedInv(c, AsyncFree(c, program), program);
    }
  }

  // ------------------------------------------------------------- reply processing

  lemma ShiftKeeps(c: Ctx, reply: Reply)
    requires Balanced(c) && c.replies != []
    ensures Balanced(Shift(c, Some(reply)))
  {
    var d := Shift(c, Some(reply));
    assert Callbacks(d.log.delivered) + d.replies == Callbacks(c.log.delivered) + c.replies;
  }

  lemma ShiftInvalidKeeps(c: Ctx, reply: Reply)
    requires Balanced(c) && c.invalid != []
    ensures Balanced(ShiftInvalid(c, Some(reply)))
  {
    var d := ShiftInvalid(c, Some(reply));
    assert Callbacks(d.log.aside.taken) + d.invalid == Callbacks(c.log.aside.taken) + c.invalid;
  }

  /** The log once the callback of a reply has been called. */
  function Answered(r: Routed, reply: Reply): History {
    WithCalls(Met(r, reply).log, Told(r.source, r.cb, Some(reply)))
  }

  lemma RouteKeeps(c: Ctx, reply: Reply, cb: Callback)
    requires Balanced(c) && AllAnswered(c.log.delivered) && c.phase == Alive && !c.failed
    ensures var d := Route(c, reply, cb).ctx;
            && Balanced(d) && AllAnswered(d.log.delivered) && d.log.frees == c.log.frees && d.reader == c.reader
            && d.phase != Freed && d.flags.freeing == c.flags.freeing && d.flags.inCallback == c.flags.inCallback
            && (d.phase != Alive || d.failed ==> d.log == c.log)
  {
    hide Wire;
    if c.replies != [] {
      ShiftKeeps(c, reply);
    } else if c.invalid != [] {
      ShiftInvalidKeeps(c, reply);
    }
  }

  lemma OneMore(found: seq<Finding>, f: Finding, source: Source)
    ensures Called(found + [f]) == Called(found) + Told(f.source, f.cb, Some(f.reply))
    ensures From(found + [f], source) ==
            From(found, source) + if f.source == source then [Delivery(f.cb, Some(f.reply))] else []
  {
    assert (found + [f])[..|found|] == found;
  }

  /** The call for a reply that found its callback is the only one, and a queue gave up that callback
      exactly when it was found there. */
  lemma RouteCalls(c: Ctx, reply: Reply, cb: Callback)
    requires Going(c.log) && c.phase == Alive && !c.failed
    ensures var r := Route(c, reply, cb);
            Going(if r.ctx.phase == Alive && !r.ctx.failed then Answered(r, reply) else r.ctx.log)
  {
    hide From, Called, Told;
    var r := Route(c, reply, cb);
    OneMore(c.log.found, Finding(r.source, r.cb, reply), FromReplies);
    OneMore(c.log.found, Finding(r.source, r.cb, reply), FromInvalid);
  }

  lemma AfterRouteInv(r: Routed, reply: Reply, program: Program)
    requires Balanced(r.ctx) && AllAnswered(r.ctx.log.delivered) && r.ctx.log.frees == 0
    requires r.ctx.reader.Live? && r.ctx.reader.Valid() && r.ctx.phase == Alive
    requires !r.ctx.flags.freeing && !r.ctx.flags.inCallback
    requires Going(if !r.ctx.failed then Answered(r, reply) else r.ctx.log)
    ensures var (d, done) := AfterRoute(r, reply, program);
            if done then Inv(d) else Working(d) && !d.flags.inCallback && d.reader == r.ctx.reader
  {
    hide Going, RunCallback, AsyncFree, AsyncDisconnect, Wire, LastCalls;
    if r.ctx.failed {
      DisconnectInv(r.ctx, program);
    } else {
      CallbackKeeps(Met(r, reply), r.source, r.cb, Some(reply), program);
      var d := RunCallback(Met(r, reply), r.source, r.cb, Some(reply), program);
      SameCalls(Answered(r, reply), d.log);
      if d.phase == Alive && r.cb.hasFn && d.flags.freeing {
        FreeFinishes(d, program);
        FinishedInv(d, AsyncFree(d, program), program);
      }
    }
  }

  lemma SameCalls(a: History, b: History)
    requires Going(a) && a.calls == b.calls && a.found == b.found
    requires a.delivered == b.delivered && a.aside.taken == b.aside.taken
    ensures Going(b)
  {
  }

  lemma {:induction false} ProcessInv(c: Ctx, cb: Callback, program: Program)
    requires Working(c) && !c.flags.inCallback
    ensures Inv(ProcessCallbacks(c, cb, program))
    decreases Unread(c)
  {
    hide Going, Route, AfterRoute, AsyncDisconnect, Wire;
    match Run(c.reader.cfg) {
      case Failed => DisconnectInv(c.(reader := Dead, failed := true), program);
      case Pending(cfg) =>
        var c' := c.(reader := Live(cfg));
        if c.flags.disconnecting && c.obuf == [] {
          DisconnectInv(c', program);
        } else if c.flags.monitoring {
          PushKeeps(c', cb);
        }
      case Got(reply, rest) =>
        var c0 := c.(reader := Live(Fresh(rest)));
        RouteKeeps(c0, reply, cb);
        RouteCalls(c0, reply, cb);
        var r := Route(c0, reply, cb);
        var (c2, done) := AfterRoute(r, reply, program);
        if r.ctx.phase == Alive {
          AfterRouteInv(r, reply, program);
          if !done {
            ProcessInv(c2, r.cb, program);
          }
        } else {
          AbortedRoute(r, reply, program);
        }
    }
  }

  lemma AbortedRoute(r: Routed, reply: Reply, program: Program)
    requires r.ctx.phase != Alive
    ensures AfterRoute(r, reply, program) == (r.ctx, true)
  {
  }

  lemma PushKeeps(c: Ctx, cb: Callback)
    requires Working(c) && !c.flags.inCallback
    ensures Inv(Push(c, cb))
  {
    hide Going, Wire;
    SameCalls(c.log, Push(c, cb).log);
    assert c.log.accepted + [cb] == Callbacks(c.log.delivered) + (c.replies + [cb]);
  }

  lemma CallInv(c: Ctx, args: seq<bytes>, cb: Callback)
    requires Inv(c) && c.phase == Alive
    ensures Inv(AsyncCommand(c, args, cb))
  {
    hide Going, Wire, AsyncCommand;
    CommandKeeps(c, args, cb);
    SameCalls(c.log, AsyncCommand(c, args, cb).log);
  }

  lemma WriteInv(c: Ctx, k: nat, program: Program)
    requires Inv(c) && c.phase == Alive && k <= |c.obuf|
    ensures Inv(HandleWrite(c, Some(k), program))
  {
    hide Going, Wire;
    assert c.log.written + c.obuf[..k] + c.obuf[k..] == c.log.written + c.obuf;
    SameCalls(c.log, HandleWrite(c, Some(k), program).log);
  }

  lemma FreeInv(c: Ctx, program: Program)
    requires Inv(c) && c.phase == Alive
    ensures Inv(UserFree(c, program))
  {
    hide Going, AsyncFree, Wire, LastCalls;
    var c' := c.(flags := c.flags.(freeing := true));
    FreeFinishes(c', program);
    FinishedInv(c', AsyncFree(c', program), program);
  }

  lemma {:induction false} HandleInv(c: Ctx, e: Event, program: Program)
    requires Inv(c)
    ensures Inv(Handle(c, e, program))
  {
    hide Going, AsyncDisconnect, AsyncFree, ProcessCallbacks, Wire;
    if c.phase == Alive {
      match e {
        case Call(args, cb) => CallInv(c, args, cb);
        case ReadChunk(chunk) =>
          ProcessInv(c.(reader := Live(c.reader.cfg.Extend(chunk))), NO_CALLBACK, program);
        case ReadError => DisconnectInv(c.(failed := true), program);
        case Write(n) => WriteInv(c, if n <= |c.obuf| then n else |c.obuf|, program);
        case WriteError => DisconnectInv(c.(failed := true), program);
        case CallDisconnect =>
          if c.replies == [] {
            DisconnectInv(StopCommands(c), program);
          }
        case CallFree => FreeInv(c, program);
      }
    }
  }

  lemma {:induction false} HandleAllInv(c: Ctx, events: seq<Event>, program: Program)
    requires Inv(c)
    ensures Inv(HandleAll(c, events, program))
    decreases |events|
  {
    if events != [] {
      HandleInv(c, events[0], program);
      HandleAllInv(Handle(c, events[0], program), events[1..], program);
    }
  }

  // ------------------------------------------------------------- replies and calls

  /** The bytes that a run brings in. */
  function Arrived(events: seq<Event>): bytes {
    if events == [] then [] else (if events[0].ReadChunk? then events[0].chunk else []) + Arrived(events[1..])
  }

  /** A callback was found for every whole reply among these bytes, in order, as long as the context
      is alive, and for the first of them after that. */
  ghost predicate HasRead(c: Ctx, arrived: bytes) {
    var d := Drain(Fresh(arrived));
    && Replies(c.log.found) <= d.replies
    && (c.phase == Alive ==> Replies(c.log.found) == d.replies && c.reader == d.state)
  }

  lemma DisconnectReads(c: Ctx, program: Program)
    requires c.failed || c.flags.disconnecting
    ensures var d := AsyncDisconnect(c, program); d.log.found == c.log.found && (c.phase == Alive ==> d.phase != Alive)
  {
    hide LastCalls, AsyncFree;
    if c.failed {
      FreeFinishes(StopCommands(c), program);
    } else if c.replies == [] {
      FreeFinishes(c, program);
    }
  }

  lemma AfterRouteReads(r: Routed, reply: Reply, program: Program)
    ensures var (d, done) := AfterRoute(r, reply, program);
            && (done ==> d.phase != Alive)
            && Replies(d.log.found) <= Replies(r.ctx.log.found) + [reply]
            && (!done ==> d.phase == Alive && !d.failed && d.reader == r.ctx.reader)
            && (!done ==> Replies(d.log.found) == Replies(r.ctx.log.found) + [reply])
  {
    hide RunCallback, AsyncFree, AsyncDisconnect, LastCalls;
    if r.ctx.phase == Alive {
      if r.ctx.failed {
        DisconnectReads(r.ctx, program);
      } else {
        var d := RunCallback(Met(r, reply), r.source, r.cb, Some(reply), program);
        CallbackKeepsReader(Met(r, reply), r.source, r.cb, Some(reply), program);
        assert Replies(d.log.found) == Replies(r.ctx.log.found) + [reply];
        if d.flags.freeing { FreeFinishes(d, program); }
      }
    }
  }

  lemma OneOf(before: seq<Reply>, reply: Reply, later: seq<Reply>, some: seq<Reply>)
    requires some <= before + [reply]
    ensures some <= before + ([reply] + later)
  {
    assert before + ([reply] + later) == before + [reply] + later;
  }

  /** redisProcessCallbacks finds a callback for each reply that the reader completes. */
  lemma {:induction false} ProcessReads(c: Ctx, cb: Callback, program: Program)
    requires Readable(c)
    ensures var d, all := ProcessCallbacks(c, cb, program), Drain(c.reader.cfg);
            && Replies(d.log.found) <= Replies(c.log.found) + all.replies
            && (d.phase == Alive ==>
                  && Replies(d.log.found) == Replies(c.log.found) + all.replies
                  && d.reader == all.state)
    decreases Unread(c)
  {
    hide Route, AfterRoute, AsyncDisconnect, Replies, Run;
    var before := Replies(c.log.found);
    assert before + [] == before;
    match Run(c.reader.cfg) {
      case Failed => DisconnectReads(c.(reader := Dead, failed := true), program);
      case Pending(cfg) =>
        if c.flags.disconnecting && c.obuf == [] { DisconnectReads(c.(reader := Live(cfg)), program); }
      case Got(reply, rest) =>
        var c0 := c.(reader := Live(Fresh(rest)));
        var r := Route(c0, reply, cb);
        var (c2, done) := AfterRoute(r, reply, program);
        var later := Drain(Fresh(rest)).replies;
        RouteKeepsReader(c0, reply, cb);
        AfterRouteReads(r, reply, program);
        if done {
          OneOf(before, reply, later, Replies(c2.log.found));
        } else {
          ProcessReads(c2, r.cb, program);
          assert before + [reply] + later == before + ([reply] + later);
        }
    }
  }

  lemma HandleReads(c: Ctx, e: Event, program: Program, arrived: bytes)
    requires Inv(c) && HasRead(c, arrived)
    ensures HasRead(Handle(c, e, program), arrived + if e.ReadChunk? then e.chunk else [])
  {
    hide Going, AsyncDisconnect, AsyncFree, ProcessCallbacks, Wire, Drain, Replies;
    assert arrived + [] == arrived;
    if e.ReadChunk? {
      DrainExtend(Fresh(arrived), e.chunk);
      assert Fresh(arrived).Extend(e.chunk) == Fresh(arrived + e.chunk);
      if c.phase == Alive { ProcessReads(c.(reader := Live(c.reader.cfg.Extend(e.chunk))), NO_CALLBACK, program); }
    } else if c.phase == Alive {
      match e {
        case Call(args, cb) => CommandKeeps(c, args, cb);
        case ReadError => DisconnectReads(c.(failed := true), program);
        case Write(n) =>
        case WriteError => DisconnectReads(c.(failed := true), program);
        case CallDisconnect => if c.replies == [] { DisconnectReads(StopCommands(c), program); }
        case CallFree => FreeFinishes(c.(flags := c.flags.(freeing := true)), program);
      }
    }
  }

  lemma {:induction false} HandleAllReads(c: Ctx, events: seq<Event>, program: Program, arrived: bytes)
    requires Inv(c) && HasRead(c, arrived)
    ensures HasRead(HandleAll(c, events, program), arrived + Arrived(events))
    decreases |events|
  {
    hide Inv, HasRead, Handle;
    if events == [] {
      assert arrived + [] == arrived;
    } else {
      HandleInv(c, events[0], program);
      HandleReads(c, events[0], program, arrived);
      var first := if events[0].ReadChunk? then events[0].chunk else [];
      HandleAllReads(Handle(c, events[0], program), events[1..], program, arrived + first);
      assert arrived + first + Arrived(events[1..]) == arrived + (first + Arrived(events[1..]));
    }
  }

  /** Exactly-once callbacks, over every run. Each whole reply that arrives while the context is alive
      finds one callback, and that callback is called once, with that reply, if it has a function; there
      is no other call before the context is freed. Freeing adds one call with NULL for
      each callback left in a queue and for each entry of the tables, and happens at most once. The queues
      hold what was pushed and not taken, and what was taken was found for a reply or left in the end. */
  lemma ExactlyOnce(events: seq<Event>, program: Program)
    ensures var c := HandleAll(Init, events, program);
            var arrived := Drain(Fresh(Arrived(events))).replies;
            && Replies(c.log.found) <= arrived && (c.phase == Alive ==> Replies(c.log.found) == arrived)
            && c.log.accepted == Callbacks(c.log.delivered) + c.replies
            && c.log.aside.pushed == Callbacks(c.log.aside.taken) + c.invalid
            && c.log.written + c.obuf == Wire(c.log.sent)
            && NullsLast(c.log.delivered)
            && (c.phase != Freed ==>
                  && c.log.calls == Called(c.log.found)
                  && c.log.delivered == From(c.log.found, FromReplies)
                  && c.log.aside.taken == From(c.log.found, FromInvalid)
                  && c.log.frees == 0)
            && (c.phase == Freed ==>
                  && c.log.accepted == Callbacks(c.log.delivered)
                  && c.log.aside.pushed == Callbacks(c.log.aside.taken)
                  && c.log.frees == 1
                  && exists left | Matches(left, c.tables) ::
                       && c.log.calls == Called(c.log.found) + LastCalls(left, c.tables)
                       && c.log.delivered == From(c.log.found, FromReplies) + Nulls(left.replies)
                       && c.log.aside.taken == From(c.log.found, FromInvalid) + Nulls(left.invalid))
  {
    hide From, Called, LastCalls, Drain, Wire, Handle;
    InitInv();
    HandleAllInv(Init, events, program);
    HandleAllReads(Init, events, program, []);
    assert [] + Arrived(events) == Arrived(events);
    var c := HandleAll(Init, events, program);
    if c.phase == Freed {
      var left :| Gone(c.log, c.tables, left);
      assert Matches(left, c.tables);
    }
  }

  lemma InitInv()
    ensures Inv(Init) && HasRead(Init, [])
  {
    assert Callbacks([]) + [] == [];
    DrainWhole([]);
  }
}
