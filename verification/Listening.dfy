/** What the subscriber's listener is called with: the server's publications, in order, each once. */
module Listening {
  import opened Bytes
  import opened Resp
  import Format
  import opened Async
  import opened PubSub
  import opened Subscriptions

  /** What the calls of sub_callback make the listener hear. */
  function Listened(calls: seq<Invocation>): seq<seq<bytes>> {
    if calls == [] then []
    else
      var last := calls[|calls| - 1];
      Listened(calls[..|calls| - 1])
      + if last.cb == SUB && last.reply.Some? then Messages(Elements(last.reply.value)) else []
  }

  lemma NothingListened()
    ensures Listened([]) == []
  {
  }

  lemma ListenedPush(calls: seq<Invocation>, call: Invocation)
    ensures Listened(calls + [call]) ==
            Listened(calls) + if call.cb == SUB && call.reply.Some? then Messages(Elements(call.reply.value)) else []
  {
    assert (calls + [call])[..|calls|] == calls;
  }

  lemma TracedListened(c: Ctx, source: Source, cb: Callback, reply: Reply)
    requires Ours(cb)
    ensures Listened(Traced(c, source, cb, reply).log.calls) ==
            Listened(c.log.calls) + if cb == SUB then Messages(Elements(reply)) else []
  {
    hide Messages;
    ListenedPush(c.log.calls, Invocation(source, cb, Some(reply)));
  }

  // ------------------------------------------------------------------- one reply

  /** How the kind is recognised: the comparison stops at its end, so that it is any beginning of one of six
      words, and nothing else. An element without text counts as the first of them. */
  lemma KindsByPrefix(kind: bytes)
    requires NUL !in kind
    ensures NoticeOf(kind) != Other <==>
            || kind <= SUBSCRIBE || kind <= UNSUBSCRIBE || kind <= PSUBSCRIBE || kind <= PUNSUBSCRIBE
            || kind <= MESSAGE || kind <= PMESSAGE
    ensures NoticeOf(kind) == Change(true, false) <==> kind <= SUBSCRIBE
    ensures kind == [] ==> NoticeOf(kind) == Change(true, false)
  {
    hide CStr;
    CStrClean(kind);
  }

  /** A message is one call of the listener: channel and text, or pattern, channel and text. */
  lemma MessageHeard(pvariant: bool, name: bytes, channel: bytes, payload: bytes)
    ensures Messages(PublishReply(false, name, channel, payload)) == [[name, payload]]
    ensures Messages(PublishReply(true, name, channel, payload)) == [[name, channel, payload]]
  {
    hide NoticeOf, SamePrefix;
    MessageNotice(false);
    MessageNotice(true);
    var plain, pattern := PublishReply(false, name, channel, payload), PublishReply(true, name, channel, payload);
    assert plain[3..] == [] && pattern[4..] == [];
    LastNotice(Sets({}, {}), []);
    NextNotice(Sets({}, {}), plain);
    NextNotice(Sets({}, {}), pattern);
  }

  /** A confirmation is none. */
  lemma ConfirmSilent(c: Owed, server: Sets)
    requires c.Confirm?
    ensures Messages(ConfirmReply(c, server)) == []
  {
    hide NoticeOf, KindName;
    KindNotice(c.subscribe, c.pvariant);
    var es := ConfirmReply(c, server);
    assert es[3..] == [];
    LastNotice(Sets({}, {}), []);
    NextNotice(Sets({}, {}), es);
  }

  lemma NothingSilent()
    ensures Messages([]) == []
  {
  }

  /** The texts of a publication, as the listener's method gets them. */
  function Texts(pvariant: bool, name: bytes, channel: bytes, payload: bytes): seq<bytes> {
    if pvariant then [name, channel, payload] else [name, payload]
  }

  // ------------------------------------------------------------------------ runs

  /** What the server publishes with this move. */
  function Said(w: World, m: Move): seq<seq<bytes>> {
    match m
    case Publish(p, name, channel, payload) => if name in w.server.Of(p) then [Texts(p, name, channel, payload)] else []
    case _ => []
  }

  ghost function Published(w: World, moves: seq<Move>): seq<seq<bytes>>
    decreases |moves|
  {
    if moves == [] then [] else Said(w, moves[0]) + Published(Next(w, moves[0]), moves[1..])
  }

  lemma SendSilent(c: Ctx, args: seq<bytes>)
    ensures AsyncCommand(c, args, SUB).log.calls == c.log.calls
  {
    hide Accept, Parse;
    AcceptTouches(c, Parse(Format.Command(args) + [NUL]), args, SUB);
  }

  lemma ConfirmationSilent(w: World)
    requires Inv(w) && Safe(w) && w.pending != []
    ensures Listened(Confirmed(w).ctx.log.calls) == Listened(w.ctx.log.calls)
  {
    hide Confirmed, Traced, Messages, Awaiting, ConfirmReply, Forget, Clash, Listened;
    NothingSilent();
    var c := w.pending[0];
    if w.ctx.replies != [] {
      HeadRefused(w);
      RefusalHeard(w);
      TracedListened(Shift(w.ctx, Some(Error(ERR))), FromReplies, SUB, Error(ERR));
    } else {
      assert c.Confirm?;
      var server := ServerAfter(w.server, c);
      OnlyOurs(w);
      ConfirmEffect(w);
      ConfirmSilent(c, server);
      ForgottenCalls(w.ctx, c, server);
      TracedListened(w.ctx, Kept, NO_CALLBACK, OwedReply(c, server));
      TracedListened(w.ctx, FromTable(c.pvariant, c.name), SUB, OwedReply(c, server));
      TracedListened(Forgotten(w.ctx, c, server), FromTable(c.pvariant, c.name), SUB, OwedReply(c, server));
    }
  }

  lemma ForgottenCalls(c: Ctx, d: Owed, server: Sets)
    requires d.Confirm?
    ensures Forgotten(c, d, server).log == c.log
  {
  }

  lemma MoveListened(w: World, m: Move)
    requires Inv(w) && Safe(w)
    ensures Listened(Next(w, m).ctx.log.calls) == Listened(w.ctx.log.calls) + Said(w, m)
  {
    hide Inv, Safe, Confirmed, Receive, Listened, AsyncCommand, Messages, Traced;
    match m {
      case Send(s, p, names, order) => SendSilent(w.ctx, [CommandName(s, p)] + names);
      case Confirmation => if w.pending != [] { ConfirmationSilent(w); }
      case Publish(p, name, channel, payload) =>
        if name in w.server.Of(p) {
          PublishInv(w, p, name, channel, payload);
          MessageHeard(p, name, channel, payload);
          TracedListened(w.ctx, FromTable(p, name), SUB, Array(PublishReply(p, name, channel, payload)));
        }
    }
  }

  lemma {:induction false} RunListened(w: World, moves: seq<Move>)
    requires Inv(w) && Disciplined(w, moves)
    ensures Listened(NextAll(w, moves).ctx.log.calls) == Listened(w.ctx.log.calls) + Published(w, moves)
    decreases |moves|
  {
    hide Inv, Safe, Next, Listened, Said;
    if moves == [] {
      assert Listened(w.ctx.log.calls) + [] == Listened(w.ctx.log.calls);
    } else {
      var w1 := Next(w, moves[0]);
      NextInv(w, moves[0]);
      MoveListened(w, moves[0]);
      RunListened(w1, moves[1..]);
      var before, first, later := Listened(w.ctx.log.calls), Said(w, moves[0]), Published(w1, moves[1..]);
      assert before + first + later == before + (first + later);
    }
  }

  /** Over all disciplined runs, the listener hears exactly what the server published to the names it
      had, in order, each once, with channel before text. */
  lemma ListenerHears(moves: seq<Move>)
    requires Disciplined(Start, moves)
    ensures Listened(NextAll(Start, moves).ctx.log.calls) == Published(Start, moves)
  {
    hide Disciplined, NextAll, Inv, Published, Listened;
    NothingListened();
    StartInv();
    RunListened(Start, moves);
    assert [] + Published(Start, moves) == Published(Start, moves);
  }
}
