/** redisAsyncContext as it runs: flag bits, queues, tables and the output buffer changed step by
    step. Every method is proved to do what the function of the same name in Async.dfy says. */
module AsyncContext {
  import opened Bytes
  import opened Resp
  import opened ReaderMachine
  import opened Format
  import A = Async

  type Callback = A.Callback

  class Context {
    var failed: bool
    var disconnecting: bool
    var freeing: bool
    var inCallback: bool
    var subscribed: bool
    var monitoring: bool
    var replies: seq<Callback>
    var invalid: seq<Callback>
    var channels: map<bytes, Callback>
    var patterns: map<bytes, Callback>
    var obuf: bytes
    var reader: State
    var phase: A.Phase
    var calls: seq<A.Invocation>
    ghost var found: seq<A.Finding>
    ghost var accepted: seq<Callback>
    ghost var delivered: seq<A.Delivery>
    ghost var aside: A.Account
    ghost var sent: seq<A.Sent>
    ghost var written: bytes
    ghost var frees: nat

    ghost function Log(): A.History
      reads this
    {
      A.History(calls, found, accepted, delivered, aside, sent, written, frees)
    }

    ghost function View(): A.Ctx
      reads this
    {
      A.Ctx(phase, failed, A.Flags(disconnecting, freeing, inCallback, subscribed, monitoring),
            replies, invalid, A.Tables(channels, patterns), obuf, reader, Log())
    }

    constructor ()
      ensures View() == A.Init
    {
      failed, disconnecting, freeing, inCallback, subscribed, monitoring := false, false, false, false, false, false;
      replies, invalid, channels, patterns, obuf := [], [], map[], map[], [];
      reader := Live(Fresh([]));
      phase, calls := A.Alive, [];
      found, accepted, delivered, aside, sent, written, frees := [], [], [], A.Account([], []), [], [], 0;
    }

    /** __redisPushCallback on the reply queue. */
    method Push(cb: Callback)
      modifies this
      ensures View() == A.Push(old(View()), cb)
    {
      replies := replies + [cb];
      accepted := accepted + [cb];
    }

    /** __redisPushCallback on the queue of commands sent while subscribed. */
    method PushInvalid(cb: Callback)
      modifies this
      ensures View() == A.PushInvalid(old(View()), cb)
    {
      invalid := invalid + [cb];
      aside := aside.(pushed := aside.pushed + [cb]);
    }

    /** __redisShiftCallback on the reply queue; `reply` is what the callback is taken off for. */
    method Shift(ghost reply: Option<Reply>) returns (cb: Callback)
      requires replies != []
      modifies this
      ensures cb == old(replies)[0] && View() == A.Shift(old(View()), reply)
    {
      cb := replies[0];
      replies := replies[1..];
      delivered := delivered + [A.Delivery(cb, reply)];
    }

    method ShiftInvalid(ghost reply: Option<Reply>) returns (cb: Callback)
      requires invalid != []
      modifies this
      ensures cb == old(invalid)[0] && View() == A.ShiftInvalid(old(View()), reply)
    {
      cb := invalid[0];
      invalid := invalid[1..];
      aside := aside.(taken := aside.taken + [A.Delivery(cb, reply)]);
    }

    /** The dictReplace loop over the names of a subscription command. */
    method Register(pvariant: bool, names: seq<bytes>, cb: Callback)
      modifies this
      ensures View() == old(View()).(tables := A.AddSubscriptions(old(View()).tables, pvariant, names, cb))
    {
      var i := 0;
      while i < |names|
        invariant 0 <= i <= |names|
        invariant View() == old(View()).(tables := View().tables)
        invariant A.AddSubscriptions(View().tables, pvariant, names[i..], cb) ==
                  A.AddSubscriptions(old(View()).tables, pvariant, names, cb)
      {
        assert names[i..][1..] == names[i + 1..];
        if pvariant {
          patterns := patterns[names[i] := cb];
        } else {
          channels := channels[names[i] := cb];
        }
        i := i + 1;
      }
    }

    /** Where an accepted command's callback is kept. */
    method Record(parsed: A.Parsed, cb: Callback)
      modifies this
      ensures View() == A.Record(old(View()), parsed, cb)
    {
      match parsed.verb {
        case Subscribe =>
          subscribed := true;
          Register(parsed.pvariant, parsed.names, cb);
        case Unsubscribe =>
        case Monitor =>
          monitoring := true;
          Push(cb);
        case Regular =>
          if subscribed {
            PushInvalid(cb);
          } else {
            Push(cb);
          }
      }
    }

    /** __redisAppendCommand. */
    method Append(args: seq<bytes>, cmd: bytes, ghost cb: Callback)
      requires cmd == Format.Command(args)
      modifies this
      ensures View() == A.Append(old(View()), args, cb)
    {
      obuf := obuf + cmd;
      sent := sent + [A.Sent(args, cb)];
    }

    /** __redisAsyncCommand. */
    method Command(args: seq<bytes>, cb: Callback) returns (ok: bool)
      requires phase == A.Alive
      modifies this
      ensures View() == A.AsyncCommand(old(View()), args, cb)
      ensures sent == if ok then old(sent) + [A.Sent(args, cb)] else old(sent)
    {
      if disconnecting || freeing { return false; }
      var cmd := Format.Command(args);
      var parsed := A.Parse(cmd + [NUL]);
      if parsed.None? {
        phase := A.Aborted;
        return false;
      }
      if parsed.value.verb == A.Unsubscribe && !subscribed {
        return false;
      }
      Record(parsed.value, cb);
      Append(args, cmd, cb);
      return true;
    }

    /** One call made by a callback. */
    method Act(a: A.Action)
      requires phase == A.Alive
      modifies this
      ensures View() == A.Act(old(View()), a)
    {
      match a {
        case Issue(args, cb) =>
          var _ := Command(args, cb);
        case Disconnect => disconnecting := true;
        case Free => freeing := true;
      }
    }

    /** __redisRunCallback: the program's function is called with the reply and makes its calls one
        after the other. `calls` is the trace of these calls. */
    method RunCallback(source: A.Source, cb: Callback, reply: Option<Reply>, program: A.Program)
      requires phase == A.Alive
      modifies this
      ensures View() == A.RunCallback(old(View()), source, cb, reply, program)
    {
      hide A.Perform;
      if !cb.hasFn { return; }
      var actions := program.run(|calls|);
      Enter(A.Invocation(source, cb, reply));
      Perform(actions);
      inCallback := false;
    }

    method Enter(call: A.Invocation)
      modifies this
      ensures View() == A.Enter(old(View()), call) && phase == old(phase)
    {
      inCallback := true;
      calls := calls + [call];
    }

    /** What the called function does with the context; a failed assert ends it. */
    method Perform(actions: seq<A.Action>)
      requires phase == A.Alive
      modifies this
      ensures View() == A.Perform(old(View()), actions)
    {
      hide A.Act, A.AsyncCommand;
      var i := 0;
      assert actions[0..] == actions;
      while i < |actions| && phase == A.Alive
        invariant 0 <= i <= |actions|
        invariant A.Perform(View(), actions[i..]) == A.Perform(old(View()), actions)
      {
        assert actions[i..][1..] == actions[i + 1..];
        Act(actions[i]);
        i := i + 1;
      }
    }

    method DrainReplies(program: A.Program)
      requires phase == A.Alive && (disconnecting || freeing)
      modifies this
      ensures View() == A.DrainReplies(old(View()), program) && phase == A.Alive && (disconnecting || freeing)
    {
      hide A.RunCallback;
      while replies != []
        invariant phase == A.Alive && (disconnecting || freeing)
        invariant A.DrainReplies(View(), program) == A.DrainReplies(old(View()), program)
        decreases |replies|
      {
        var cb := Shift(None);
        A.ClosingRefuses(View(), A.FromReplies, cb, None, program);
        RunCallback(A.FromReplies, cb, None, program);
      }
    }

    method DrainInvalid(program: A.Program)
      requires phase == A.Alive && (disconnecting || freeing)
      modifies this
      ensures View() == A.DrainInvalid(old(View()), program) && phase == A.Alive && (disconnecting || freeing)
    {
      hide A.RunCallback;
      while invalid != []
        invariant phase == A.Alive && (disconnecting || freeing)
        invariant A.DrainInvalid(View(), program) == A.DrainInvalid(old(View()), program)
        decreases |invalid|
      {
        var cb := ShiftInvalid(None);
        A.ClosingRefuses(View(), A.FromInvalid, cb, None, program);
        RunCallback(A.FromInvalid, cb, None, program);
      }
    }

    /** The iterator loop over one table: every entry's callback runs with NULL. */
    method RunTable(pvariant: bool, program: A.Program)
      requires phase == A.Alive && (disconnecting || freeing)
      modifies this
      ensures View() == A.RunTable(old(View()), pvariant, program) && phase == A.Alive && (disconnecting || freeing)
      ensures replies == old(replies) && invalid == old(invalid) && channels == old(channels)
              && patterns == old(patterns)
    {
      hide A.RunCallback;
      var table := if pvariant then patterns else channels;
      var names := program.order(table);
      assert A.Lists(names, table);
      var i := 0;
      assert names[0..] == names;
      while i < |names|
        invariant 0 <= i <= |names|
        invariant phase == A.Alive && (disconnecting || freeing)
        invariant A.RunEntries(View(), pvariant, table, names[i..], program) ==
                  A.RunTable(old(View()), pvariant, program)
        invariant replies == old(replies) && invalid == old(invalid) && channels == old(channels)
                  && patterns == old(patterns)
      {
        var source, cb := A.FromTable(pvariant, names[i]), table[names[i]];
        assert names[i..][1..] == names[i + 1..];
        A.ClosingRefuses(View(), source, cb, None, program);
        RunCallback(source, cb, None, program);
        i := i + 1;
      }
    }

    /** __redisAsyncFree. */
    method AsyncFree(program: A.Program)
      requires phase == A.Alive && (disconnecting || freeing)
      modifies this
      ensures View() == A.AsyncFree(old(View()), program)
    {
      hide A.RunCallback, A.DrainReplies, A.DrainInvalid, A.RunTable;
      DrainReplies(program);
      DrainInvalid(program);
      RunTable(false, program);
      RunTable(true, program);
      phase := A.Freed;
      frees := frees + 1;
    }

    /** __redisAsyncDisconnect. */
    method AsyncDisconnect(program: A.Program)
      requires phase == A.Alive && (failed || disconnecting)
      modifies this
      ensures View() == A.AsyncDisconnect(old(View()), program)
    {
      if !failed {
        if replies != [] {
          phase := A.Aborted;
          return;
        }
      } else {
        disconnecting := true;
      }
      AsyncFree(program);
    }

    /** The unsubscribe branch of __redisGetSubscribeCallback. */
    method Forget(pvariant: bool, name: bytes, left: int)
      modifies this
      ensures View() == A.Forget(old(View()), pvariant, name, left)
    {
      if pvariant {
        patterns := A.Remove(patterns, name);
      } else {
        channels := A.Remove(channels, name);
      }
      if left == 0 { subscribed := false; }
    }

    /** __redisGetSubscribeCallback: `cb` is the caller's variable. */
    method GetSubscribeCallback(reply: Reply, cb: Callback) returns (source: A.Source, target: Callback)
      requires phase == A.Alive
      modifies this
      ensures A.Routed(View(), source, target) == A.SubscribeCallback(old(View()), reply, cb)
    {
      source, target := A.Kept, cb;
      if reply.Array? {
        var es := reply.elements;
        if |es| < 2 || !es[0].Str? || !es[1].Str? {
          phase := A.Aborted;
          return;
        }
        source, target := Lookup(CStr(es[0].text), es[1].text, if |es| > 2 then Some(es[2]) else None, cb);
      } else if reply.Hollow? {
        phase := A.Aborted;
      } else if invalid != [] {
        source := A.FromInvalid;
        target := ShiftInvalid(Some(reply));
      }
    }

    method Lookup(stype: bytes, name: bytes, third: Option<Reply>, cb: Callback)
      returns (source: A.Source, target: Callback)
      requires phase == A.Alive
      modifies this
      ensures A.Routed(View(), source, target) == A.Notify(old(View()), stype, name, third, cb)
    {
      var pvariant := A.PVariant(stype);
      var callbacks := if pvariant then patterns else channels;
      if name !in callbacks { return A.Kept, cb; }
      if A.LowerAll(if pvariant then stype[1..] else stype) == A.UNSUBSCRIBE {
        if third.None? || !third.value.Integer? {
          phase := A.Aborted;
          return A.Kept, cb;
        }
        Forget(pvariant, name, third.value.value);
      }
      return A.FromTable(pvariant, name), callbacks[name];
    }

    /** The part of an iteration that finds the callback of a reply. */
    method RouteReply(reply: Reply, cb: Callback) returns (source: A.Source, target: Callback)
      requires phase == A.Alive
      modifies this
      ensures A.Routed(View(), source, target) == A.Route(old(View()), reply, cb)
    {
      source, target := A.Kept, cb;
      if replies != [] {
        source := A.FromReplies;
        target := Shift(Some(reply));
      } else if reply.Error? {
        failed := true;
      } else if !subscribed && !monitoring {
        phase := A.Aborted;
      } else if subscribed {
        source, target := GetSubscribeCallback(reply, cb);
      }
    }

    /** redisProcessCallbacks. */
    method ProcessCallbacks(program: A.Program)
      requires A.Readable(View())
      modifies this
      ensures View() == A.ProcessCallbacks(old(View()), A.NO_CALLBACK, program)
    {
      var cb, done := A.NO_CALLBACK, false;
      while !done
        invariant if done then View() == A.ProcessCallbacks(old(View()), A.NO_CALLBACK, program)
                  else A.Readable(View()) &&
                       A.ProcessCallbacks(View(), cb, program) ==
                           A.ProcessCallbacks(old(View()), A.NO_CALLBACK, program)
        decreases !done, A.Unread(View())
      {
        cb, done := Iterate(cb, program);
      }
    }

    /** One iteration of redisProcessCallbacks; `done` when it returns or breaks. */
    method Iterate(cb: Callback, program: A.Program) returns (target: Callback, done: bool)
      requires A.Readable(View())
      modifies this
      ensures if done then View() == A.ProcessCallbacks(old(View()), cb, program)
              else A.Readable(View()) && A.Unread(View()) < A.Unread(old(View())) &&
                   A.ProcessCallbacks(View(), target, program) == A.ProcessCallbacks(old(View()), cb, program)
    {
      hide A.Route, A.AsyncDisconnect, A.Perform, Run;
      var run := Run(reader.cfg);
      match run {
        case Failed =>
          reader := Dead;
          failed := true;
          AsyncDisconnect(program);
          return cb, true;
        case Pending(cfg) =>
          reader := Live(cfg);
          Wait(cb, program);
          return cb, true;
        case Got(reply, rest) =>
          reader := Live(Fresh(rest));
          ghost var c0 := View();
          target, done := Dispatch(reply, cb, program);
          A.RouteKeepsReader(c0, reply, cb);
          ghost var r := A.Route(c0, reply, cb);
          A.CallbackKeepsReader(A.Met(r, reply), r.source, r.cb, Some(reply), program);
      }
    }

    /** The branch for a NULL reply. */
    method Wait(cb: Callback, program: A.Program)
      requires phase == A.Alive
      modifies this
      ensures View() == if old(disconnecting) && old(obuf) == [] then A.AsyncDisconnect(old(View()), program)
                        else if old(monitoring) then A.Push(old(View()), cb)
                        else old(View())
    {
      if disconnecting && obuf == [] {
        AsyncDisconnect(program);
      } else if monitoring {
        Push(cb);
      }
    }

    /** One iteration with a reply; `done` when the loop returns. */
    method Dispatch(reply: Reply, cb: Callback, program: A.Program) returns (target: Callback, done: bool)
      requires A.Readable(View())
      modifies this
      ensures var r := A.Route(old(View()), reply, cb);
              target == r.cb && (View(), done) == A.AfterRoute(r, reply, program)
    {
      var source;
      source, target := RouteReply(reply, cb);
      if phase != A.Alive { return target, true; }
      if failed {
        AsyncDisconnect(program);
        return target, true;
      }
      found := found + [A.Finding(source, target, reply)];
      RunCallback(source, target, Some(reply), program);
      if phase != A.Alive { return target, true; }
      if target.hasFn && freeing {
        AsyncFree(program);
        return target, true;
      }
      return target, false;
    }

    /** redisAsyncHandleRead on a connected context. */
    method HandleRead(chunk: Option<bytes>, program: A.Program)
      requires A.Readable(View())
      modifies this
      ensures View() == A.HandleRead(old(View()), chunk, program)
    {
      if chunk.None? {
        failed := true;
        AsyncDisconnect(program);
      } else {
        reader := Live(reader.cfg.Extend(chunk.value));
        ProcessCallbacks(program);
      }
    }

    /** redisAsyncHandleWrite on a connected context. */
    method HandleWrite(n: Option<nat>, program: A.Program)
      requires phase == A.Alive && (n.Some? ==> n.value <= |obuf|)
      modifies this
      ensures View() == A.HandleWrite(old(View()), n, program)
    {
      if n.None? {
        failed := true;
        AsyncDisconnect(program);
      } else {
        written := written + obuf[..n.value];
        obuf := obuf[n.value..];
      }
    }

    /** redisAsyncDisconnect. */
    method Disconnect(program: A.Program)
      requires phase == A.Alive && !inCallback
      modifies this
      ensures View() == A.UserDisconnect(old(View()), program)
    {
      disconnecting := true;
      if !inCallback && replies == [] {
        AsyncDisconnect(program);
      }
    }

    /** redisAsyncFree. */
    method Free(program: A.Program)
      requires phase == A.Alive && !inCallback
      modifies this
      ensures View() == A.UserFree(old(View()), program)
    {
      freeing := true;
      if !inCallback {
        AsyncFree(program);
      }
    }
  }
}
