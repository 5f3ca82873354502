/** The same agreement over a connection: the server's replies are bytes that arrive in any pieces,
    and the context reads them with redisProcessCallbacks. */
module SubscriptionWire {
  import opened Bytes
  import opened Resp
  import opened ReaderMachine
  import opened Async
  import opened PubSub
  import opened Subscriptions
  import Listening

  /** What the server has sent: what it owed, or a message to a name it has. */
  datatype News = Answer(owed: Owed) | Note(pvariant: bool, name: bytes, channel: bytes, payload: bytes)

  /** The client's context; the server's sets, what it was asked for and has not come to, and the
      bytes it sent that the client has not read. The rest is history: what was sent and not yet read
      whole, the bytes of it that were read, and the server's sets as of what was read. */
  datatype Net = Net(ctx: Ctx, server: Sets, asked: seq<Owed>, wire: bytes,
                     flight: seq<News>, held: bytes, base: Sets)

  datatype NetMove =
    | Ask(subscribe: bool, pvariant: bool, names: seq<bytes>, order: seq<bytes>)
    | Carry
    | Announce(pvariant: bool, name: bytes, channel: bytes, payload: bytes)
    | Deliver(n: nat)

  function ReplyOf(base: Sets, news: News): Reply {
    match news
    case Answer(d) => OwedReply(d, ServerAfter(base, d))
    case Note(p, name, channel, payload) => Array(PublishReply(p, name, channel, payload))
  }

  function BaseAfter(base: Sets, news: News): Sets {
    if news.Answer? then ServerAfter(base, news.owed) else base
  }

  function BaseAll(base: Sets, flight: seq<News>): Sets
    decreases |flight|
  {
    if flight == [] then base else BaseAll(BaseAfter(base, flight[0]), flight[1..])
  }

  /** The replies that make up what was sent. */
  function Said(base: Sets, flight: seq<News>): seq<Reply>
    decreases |flight|
  {
    if flight == [] then [] else [ReplyOf(base, flight[0])] + Said(BaseAfter(base, flight[0]), flight[1..])
  }

  function Confs(flight: seq<News>): seq<Owed> {
    if flight == [] then [] else (if flight[0].Answer? then [flight[0].owed] else []) + Confs(flight[1..])
  }

  /** The texts of the messages among the news. */
  function MessagesOf(flight: seq<News>): seq<seq<bytes>> {
    if flight == [] then [] else MessageOf(flight[0]) + MessagesOf(flight[1..])
  }

  function MessageOf(news: News): seq<seq<bytes>> {
    match news
    case Answer(_) => []
    case Note(p, name, channel, payload) => [Listening.Texts(p, name, channel, payload)]
  }

  /** What the listener was called with. */
  function HeardBy(c: Ctx): seq<seq<bytes>> {
    Listening.Listened(c.log.calls)
  }

  /** Messages go to names the server had when it sent them. */
  predicate Proper(base: Sets, flight: seq<News>)
    decreases |flight|
  {
    flight == [] ||
    (&& (flight[0].Note? ==> flight[0].name in base.Of(flight[0].pvariant))
     && Proper(BaseAfter(base, flight[0]), flight[1..]))
  }

  /** What the calls of sub_callback make of the sets. */
  function Follow(s: Sets, calls: seq<Invocation>): Sets
    decreases |calls|
  {
    if calls == [] then s
    else
      var call := calls[0];
      Follow(if call.cb == SUB && call.reply.Some? then Noted(s, Elements(call.reply.value)) else s, calls[1..])
  }

  /** The subscriber's sets. */
  function Followed(c: Ctx): Sets {
    Follow(Sets({}, {}), c.log.calls)
  }

  function Ready(net: Net, news: News): Net {
    net.(server := BaseAfter(net.server, news), flight := net.flight + [news],
         wire := net.wire + Encode(ReplyOf(net.server, news)))
  }

  /** The client reads a chunk. */
  ghost function Read(net: Net, chunk: bytes, wire: bytes): Net
    requires Readable(net.ctx)
  {
    var ctx := HandleRead(net.ctx, Some(chunk), QUIET);
    var n := |Drain(net.ctx.reader.cfg.Extend(chunk)).replies|;
    var k := if n <= |net.flight| then n else |net.flight|;
    var used := |EncodeAll(Said(net.base, net.flight[..k]))|;
    var bytes := net.held + chunk;
    net.(ctx := ctx, wire := wire,
         flight := net.flight[k..], held := bytes[if used <= |bytes| then used else 0..],
         base := BaseAll(net.base, net.flight[..k]))
  }

  /** Nothing is sent that the server does not owe, no message to a name that it does not have, and no
      byte arrives that was not sent. */
  ghost function NetNext(net: Net, m: NetMove): Net {
    match m
    case Ask(s, p, names, order) =>
      net.(ctx := AsyncCommand(net.ctx, [CommandName(s, p)] + names, SUB),
           asked := if s || net.ctx.flags.subscribed then
                      net.asked + Owes(AfterAll(net.server, net.asked), s, p, names, order)
                    else net.asked)
    case Carry => if net.asked == [] then net else Ready(net, Answer(net.asked[0])).(asked := net.asked[1..])
    case Announce(p, name, channel, payload) =>
      if name in net.server.Of(p) then Ready(net, Note(p, name, channel, payload)) else net
    case Deliver(n) =>
      if Readable(net.ctx) && n <= |net.wire| then Read(net, net.wire[..n], net.wire[n..]) else net
  }

  ghost function NetNextAll(net: Net, moves: seq<NetMove>): Net
    decreases |moves|
  {
    if moves == [] then net else NetNextAll(NetNext(net, moves[0]), moves[1..])
  }

  const NetStart := Net(Init, Sets({}, {}), [], [], [], [], Sets({}, {}))

  function WithoutReader(c: Ctx): Ctx {
    c.(reader := Live(Fresh([])))
  }

  /** What the client sees: everything that was not read is still to come. */
  function View(net: Net): World {
    World(WithoutReader(net.ctx), Followed(net.ctx), net.base, Confs(net.flight) + net.asked)
  }

  /** What the program sends is safe. */
  ghost predicate NetDisciplined(net: Net, moves: seq<NetMove>)
    decreases |moves|
  {
    && Safe(View(net))
    && (moves != [] ==> NetDisciplined(NetNext(net, moves[0]), moves[1..]))
  }

  ghost predicate NetInv(net: Net) {
    && Inv(View(net))
    && net.server == BaseAll(net.base, net.flight) && Proper(net.base, net.flight)
    && Drain(Fresh(net.held)) == Drained([], net.ctx.reader) && net.ctx.reader.Live?
    && net.held + net.wire == EncodeAll(Said(net.base, net.flight))
  }

  // ------------------------------------------------------------------ sequences

  lemma {:induction false} SaidPush(base: Sets, flight: seq<News>, news: News)
    ensures Said(base, flight + [news]) == Said(base, flight) + [ReplyOf(BaseAll(base, flight), news)]
    ensures BaseAll(base, flight + [news]) == BaseAfter(BaseAll(base, flight), news)
    ensures Confs(flight + [news]) == Confs(flight) + if news.Answer? then [news.owed] else []
    ensures Proper(base, flight + [news]) <==>
            Proper(base, flight) && (news.Note? ==> news.name in BaseAll(base, flight).Of(news.pvariant))
    decreases |flight|
  {
    hide ReplyOf, BaseAfter;
    if flight == [] {
      assert [news][1..] == [];
    } else {
      assert (flight + [news])[1..] == flight[1..] + [news];
      SaidPush(BaseAfter(base, flight[0]), flight[1..], news);
    }
  }

  lemma {:induction false} SaidSplit(base: Sets, flight: seq<News>, k: nat)
    requires k <= |flight|
    ensures Said(base, flight) == Said(base, flight[..k]) + Said(BaseAll(base, flight[..k]), flight[k..])
    ensures BaseAll(base, flight) == BaseAll(BaseAll(base, flight[..k]), flight[k..])
    ensures Proper(base, flight) ==> Proper(base, flight[..k]) && Proper(BaseAll(base, flight[..k]), flight[k..])
    decreases |flight|
  {
    hide ReplyOf, BaseAfter;
    if k == 0 {
      assert flight[..0] == [] && flight[0..] == flight;
    } else {
      SaidSplit(BaseAfter(base, flight[0]), flight[1..], k - 1);
      assert flight[..k][0] == flight[0] && flight[..k][1..] == flight[1..][..k - 1]
             && flight[1..][k - 1..] == flight[k..];
    }
  }

  lemma {:induction false} SaidLength(base: Sets, flight: seq<News>)
    ensures |Said(base, flight)| == |flight|
    decreases |flight|
  {
    hide ReplyOf, BaseAfter;
    if flight != [] {
      SaidLength(BaseAfter(base, flight[0]), flight[1..]);
    }
  }

  lemma {:induction false} ConfsSplit(flight: seq<News>, k: nat)
    requires k <= |flight|
    ensures Confs(flight) == Confs(flight[..k]) + Confs(flight[k..])
  {
    if k == 0 {
      assert flight[..0] == [] && flight[0..] == flight;
    } else {
      ConfsSplit(flight[1..], k - 1);
      assert flight[..k][0] == flight[0] && flight[..k][1..] == flight[1..][..k - 1]
             && flight[1..][k - 1..] == flight[k..];
    }
  }

  lemma {:induction false} MessagesSplit(flight: seq<News>, k: nat)
    requires k <= |flight|
    ensures MessagesOf(flight) == MessagesOf(flight[..k]) + MessagesOf(flight[k..])
  {
    hide MessageOf;
    if k == 0 {
      assert flight[..0] == [] && flight[0..] == flight;
    } else {
      MessagesSplit(flight[1..], k - 1);
      assert flight[..k][0] == flight[0] && flight[..k][1..] == flight[1..][..k - 1];
      assert flight[1..][k - 1..] == flight[k..];
    }
  }

  lemma MessagesPush(flight: seq<News>, news: News)
    ensures MessagesOf(flight + [news]) == MessagesOf(flight) + MessageOf(news)
  {
    MessagesSplit(flight + [news], |flight|);
    assert (flight + [news])[..|flight|] == flight && (flight + [news])[|flight|..] == [news] && [news][1..] == [];
    assert MessageOf(news) + [] == MessageOf(news);
  }

  lemma {:induction false} SaidWellFormed(base: Sets, flight: seq<News>)
    ensures forall i | 0 <= i < |Said(base, flight)| ::
              WellFormed(Said(base, flight)[i]) && Depth(Said(base, flight)[i]) <= MAX_DEPTH
    decreases |flight|
  {
    hide Said, BaseAfter, ReplyOf;
    SaidFirst(base, flight);
    if flight != [] {
      FlatReply(base, flight[0]);
      SaidWellFormed(BaseAfter(base, flight[0]), flight[1..]);
    }
  }

  lemma SaidFirst(base: Sets, flight: seq<News>)
    ensures Said(base, flight) ==
            if flight == [] then [] else [ReplyOf(base, flight[0])] + Said(BaseAfter(base, flight[0]), flight[1..])
  {
  }

  lemma FlatReply(base: Sets, news: News)
    ensures WellFormed(ReplyOf(base, news)) && Depth(ReplyOf(base, news)) <= MAX_DEPTH
  {
    hide KindName, ServerAfter, WellFormed, Depth;
    var reply := ReplyOf(base, news);
    if reply.Array? { FlatArray(reply.elements); } else { ShortError(); }
  }

  lemma ShortError()
    ensures WellFormed(Error(ERR)) && Depth(Error(ERR)) <= MAX_DEPTH
  {
  }

  lemma FlatArray(es: seq<Reply>)
    requires forall i | 0 <= i < |es| :: es[i].Str? || es[i].Integer? || es[i].Nil?
    ensures WellFormed(Array(es)) && Depth(Array(es)) <= MAX_DEPTH
  {
    FlatDepth(es);
  }

  lemma {:induction false} FlatDepth(es: seq<Reply>)
    requires forall i | 0 <= i < |es| :: !es[i].Array? && !es[i].Hollow?
    ensures DepthAll(es) == 0
  {
    if es != [] {
      FlatDepth(es[1..]);
    }
  }

  lemma {:induction false} FollowAppend(s: Sets, a: seq<Invocation>, b: seq<Invocation>)
    ensures Follow(s, a + b) == Follow(Follow(s, a), b)
    decreases |a|
  {
    hide Noted;
    if a == [] {
      assert a + b == b;
    } else {
      assert (a + b)[0] == a[0] && (a + b)[1..] == a[1..] + b;
      var s' := if a[0].cb == SUB && a[0].reply.Some? then Noted(s, Elements(a[0].reply.value)) else s;
      FollowAppend(s', a[1..], b);
    }
  }

  // -------------------------------------------------------- the reader does not matter

  lemma CommandReader(c: Ctx, args: seq<bytes>, cb: Callback)
    ensures WithoutReader(AsyncCommand(c, args, cb)) == AsyncCommand(WithoutReader(c), args, cb)
    ensures AsyncCommand(c, args, cb).reader == c.reader
  {
    hide Parse, AddSubscriptions;
  }

  lemma TracedReader(c: Ctx, source: Source, cb: Callback, reply: Reply)
    ensures var d := Traced(c, source, cb, reply);
            && WithoutReader(d) == Traced(WithoutReader(c), source, cb, reply) && d.reader == c.reader
            && d.log.calls == c.log.calls + if cb == SUB then [Invocation(source, cb, Some(reply))] else []
  {
  }

  // --------------------------------------------------------------- one whole reply

  /** The next reply that is read, as a move of the world. */
  function MoveOf(news: News): Move {
    match news
    case Answer(_) => Confirmation
    case Note(p, name, channel, payload) => Publish(p, name, channel, payload)
  }

  /** The news that can come next: a message to a name the server has, or what it owes next. */
  ghost predicate Due(w: World, news: News) {
    && Inv(w) && Safe(w)
    && match news
       case Answer(d) => w.pending != [] && w.pending[0] == d
       case Note(p, name, _, _) => name in w.server.Of(p)
  }

  /** Where the news find their callback, if the reply before them left `cb`: in the table, in the queue,
      or, when an unsubscribed name is not registered, with the reply before. */
  function Finds(c: Ctx, base: Sets, news: News, cb: Callback): Routed {
    match news
    case Note(p, name, _, _) => Routed(c, FromTable(p, name), SUB)
    case Answer(Confirm(s, p, name)) =>
      if name !in Table(c, p) then Routed(c, Kept, cb)
      else Routed(if s then c else Forgotten(c, news.owed, ServerAfter(base, news.owed)), FromTable(p, name), SUB)
    case Answer(_) =>
      if c.replies == [] then Routed(c, Kept, cb)
      else Routed(Shift(c, Some(ReplyOf(base, news))), FromReplies, SUB)
  }

  /** What is due is a confirmation, unless a queued callback waits for a refusal. */
  lemma DueAnswer(w: World, news: News)
    requires Due(w, news) && news.Answer?
    ensures if w.ctx.replies == [] then news.owed.Confirm? else news.owed == Refusal && w.ctx.replies[0] == SUB
  {
    hide TableInv, Clash;
    if w.ctx.replies != [] { HeadRefused(w); }
  }

  lemma FindsAlive(c: Ctx, base: Sets, news: News, cb: Callback)
    requires Idle(c) && Ours(cb)
    ensures var r := Finds(c, base, news, cb);
            && Idle(r.ctx) && Ours(r.cb) && r.ctx.reader == c.reader && r.ctx.log.calls == c.log.calls
            && var d := Finds(WithoutReader(c), base, news, cb);
               d == r.(ctx := WithoutReader(r.ctx))
  {
    hide ReplyOf, ServerAfter, Forgotten, Shift;
    match news {
      case Note(_, _, _, _) => SameQueue(c);
      case Answer(Confirm(s, p, name)) =>
        SameQueue(c);
        SameTable(c, p);
        ForgetReader(c, news.owed, ServerAfter(base, news.owed));
        ForgetAlive(c, news.owed, ServerAfter(base, news.owed));
      case Answer(_) =>
        SameQueue(c);
        if c.replies != [] { ShiftReader(c, Some(ReplyOf(base, news))); }
    }
  }

  lemma ForgetReader(c: Ctx, d: Owed, server: Sets)
    requires d.Confirm?
    ensures WithoutReader(Forgotten(c, d, server)) == Forgotten(WithoutReader(c), d, server)
    ensures Forgotten(c, d, server).log == c.log
  {
  }

  lemma SameQueue(c: Ctx)
    ensures WithoutReader(c).replies == c.replies
  {
  }

  lemma SameTable(c: Ctx, p: bool)
    ensures Table(WithoutReader(c), p) == Table(c, p)
  {
  }

  lemma ShiftReader(c: Ctx, reply: Option<Reply>)
    requires c.replies != []
    ensures var d := Shift(c, reply);
            && WithoutReader(d) == Shift(WithoutReader(c), reply)
            && (Idle(c) ==> Idle(d)) && d.reader == c.reader && d.log.calls == c.log.calls
  {
  }

  /** Where the news go, for every callback left from an earlier reply. */
  lemma NewsRouted(w: World, c: Ctx, news: News, cb: Callback)
    requires Due(w, news) && WithoutReader(c) == WithoutReader(w.ctx) && Ours(cb)
    ensures Idle(c) && Route(c, ReplyOf(w.server, news), cb) == Finds(c, w.server, news, cb)
  {
    hide Safe, Awaiting, ConfirmReply, PublishReply;
    assert TableInv(w, false) && TableInv(w, true);
    OnlyOurs(w);
    assert Table(c, false) == Table(w.ctx, false) && Table(c, true) == Table(w.ctx, true);
    match news {
      case Answer(d) =>
        DueAnswer(w, news);
        if d.Confirm? { AnswerRouted(w, c, d, cb); }
      case Note(p, name, channel, payload) =>
        NamesWaitAlone(w, p, name);
        assert name in Table(w.ctx, p);
        NoteRouted(c, p, name, channel, payload, cb);
    }
  }

  lemma NoteRouted(c: Ctx, p: bool, name: bytes, channel: bytes, payload: bytes, cb: Callback)
    requires Idle(c) && c.replies == [] && c.flags.subscribed && name in Table(c, p)
    ensures Route(c, Array(PublishReply(p, name, channel, payload)), cb) ==
            Routed(c, FromTable(p, name), Table(c, p)[name])
  {
    hide Route;
    PublishRouted(c, p, name, PublishReply(p, name, channel, payload), cb);
  }

  lemma AnswerRouted(w: World, c: Ctx, d: Owed, cb: Callback)
    requires Due(w, Answer(d)) && WithoutReader(c) == WithoutReader(w.ctx) && w.ctx.replies == [] && d.Confirm?
    ensures Route(c, Array(ConfirmReply(d, ServerAfter(w.server, d))), cb) == Finds(c, w.server, Answer(d), cb)
  {
    hide Safe, Awaiting, ConfirmReply, Route;
    OnlyOurs(w);
    assert Table(c, false) == Table(w.ctx, false) && Table(c, true) == Table(w.ctx, true);
    ConfirmRouted(c, d, ServerAfter(w.server, d), cb);
  }

  /** An iteration of redisProcessCallbacks on the news calls what it finds and goes on. */
  lemma NewsProcessed(w: World, c: Ctx, news: News, cb: Callback)
    requires Due(w, news) && WithoutReader(c) == WithoutReader(w.ctx) && Ours(cb)
    ensures var reply := ReplyOf(w.server, news);
            var r := Route(c, reply, cb);
            && r == Finds(c, w.server, news, cb) && Ours(r.cb)
            && AfterRoute(r, reply, QUIET) == (Traced(r.ctx, r.source, r.cb, reply), false)
  {
    hide Due, Route, AfterRoute, ReplyOf, Finds, Traced, Idle;
    NewsRouted(w, c, news, cb);
    FindsAlive(c, w.server, news, cb);
    var r := Route(c, ReplyOf(w.server, news), cb);
    QuietRun(r.ctx, r.source, r.cb, ReplyOf(w.server, news));
  }

  lemma FollowOne(c: Ctx, source: Source, cb: Callback, reply: Reply)
    ensures Followed(Traced(c, source, cb, reply)) ==
            if cb == SUB then Noted(Followed(c), Elements(reply)) else Followed(c)
  {
    hide Noted;
    var call := Invocation(source, cb, Some(reply));
    FollowAppend(Sets({}, {}), c.log.calls, [call]);
    assert [call][1..] == [];
    TracedReader(c, source, cb, reply);
  }

  // -------------------------------------------------------------- a chunk's replies

  /** The world is in agreement, nothing sent can harm it, and the sets are those of the calls. */
  ghost predicate Steady(w: World) {
    Inv(w) && Safe(w) && w.sub == Followed(w.ctx)
  }

  /** What is left to come after the news. */
  function Later(w: World, news: News): seq<Owed>
    requires Due(w, news)
  {
    if news.Answer? then w.pending[1..] else w.pending
  }

  /** The world's move does the same when no callback is left over. */
  lemma NewsIsMove(w: World, news: News)
    requires Due(w, news)
    ensures var r := Finds(w.ctx, w.server, news, NO_CALLBACK);
            var reply := ReplyOf(w.server, news);
            Next(w, MoveOf(news)) ==
              World(Traced(r.ctx, r.source, r.cb, reply), if r.cb == SUB then Noted(w.sub, Elements(reply)) else w.sub,
                    BaseAfter(w.server, news), Later(w, news))
  {
    hide Safe, Route, Receive, Noted, Traced, Awaiting, TableInv, ConfirmReply, PublishReply, Finds;
    var reply := ReplyOf(w.server, news);
    var r := Finds(w.ctx, w.server, news, NO_CALLBACK);
    NewsRouted(w, w.ctx, news, NO_CALLBACK);
    FindsAlive(w.ctx, w.server, news, NO_CALLBACK);
    Received(w.(server := BaseAfter(w.server, news), pending := Later(w, news)), reply, r);
  }

  /** Whatever callback is left over, reading the news keeps the world steady. A confirmation for a name
      that is not registered may be given to the subscriber, whose sets do not have the name either. */
  lemma NewsSteady(w: World, news: News, cb: Callback)
    requires Due(w, news) && Steady(w) && Ours(cb)
    ensures var r := Finds(w.ctx, w.server, news, cb);
            var c := Traced(r.ctx, r.source, r.cb, ReplyOf(w.server, news));
            Steady(World(c, Followed(c), BaseAfter(w.server, news), Later(w, news)))
  {
    hide Inv, Safe, Follow, Noted, Traced, ReplyOf, Idle;
    var reply := ReplyOf(w.server, news);
    var r0, r := Finds(w.ctx, w.server, news, NO_CALLBACK), Finds(w.ctx, w.server, news, cb);
    var v := Next(w, MoveOf(news));
    NextInv(w, MoveOf(news));
    NewsIsMove(w, news);
    SteadyIdle(w, w.ctx);
    FindsAlive(w.ctx, w.server, news, cb);
    FollowOne(r.ctx, r.source, r.cb, reply);
    if r != r0 {
      Overheard(w, news);
      TracedIdle(w.ctx, Kept, cb, reply);
      TracedIdle(w.ctx, Kept, NO_CALLBACK, reply);
      TraceApart(v, Traced(w.ctx, Kept, cb, reply));
    }
  }

  /** Only a confirmation that changes nothing is left to the callback of the reply before it. */
  lemma Overheard(w: World, news: News)
    requires Due(w, news) && Finds(w.ctx, w.server, news, NO_CALLBACK).source == Kept
    ensures Noted(w.sub, Elements(ReplyOf(w.server, news))) == w.sub
    ensures forall cb :: Finds(w.ctx, w.server, news, cb) == Routed(w.ctx, Kept, cb)
  {
    hide Safe, Noted, Awaiting, ConfirmReply;
    DueAnswer(w, news);
    ConfirmNoted(news.owed, ServerAfter(w.server, news.owed), w.sub);
    assert TableInv(w, false) && TableInv(w, true);
    if news.owed.subscribe { HeadRegistered(w); } else { NotRegistered(w); }
  }

  /** Reading a message makes the listener hear its texts; reading anything else makes it hear nothing. */
  lemma NewsListened(w: World, c: Ctx, news: News, cb: Callback)
    requires Due(w, news) && WithoutReader(c) == WithoutReader(w.ctx) && Ours(cb) && Idle(c)
    ensures var r := Finds(c, w.server, news, cb);
            HeardBy(Traced(r.ctx, r.source, r.cb, ReplyOf(w.server, news))) == HeardBy(c) + MessageOf(news)
  {
    hide Inv, Safe, Messages, Listening.Listened, Traced, ConfirmReply, PublishReply, Finds, Idle;
    var r := Finds(c, w.server, news, cb);
    FindsAlive(c, w.server, news, cb);
    Listening.TracedListened(r.ctx, r.source, r.cb, ReplyOf(w.server, news));
    Listening.NothingSilent();
    match news {
      case Answer(d) =>
        if d.Confirm? {
          Listening.ConfirmSilent(d, ServerAfter(w.server, d));
        } else {
          DueRefusal(w, news);
        }
      case Note(p, name, channel, payload) =>
        Listening.MessageHeard(p, name, channel, payload);
        NoteFinds(c, w.server, news, cb);
    }
  }

  lemma DueRefusal(w: World, news: News)
    requires Due(w, news) && news.Answer? && !news.owed.Confirm?
    ensures news.owed == Refusal
  {
    hide Inv, Safe;
    DueAnswer(w, news);
  }

  lemma NoteFinds(c: Ctx, base: Sets, news: News, cb: Callback)
    requires news.Note?
    ensures Finds(c, base, news, cb).cb == SUB
  {
  }

  /** One iteration of redisProcessCallbacks, as a step of the world. */
  lemma Step(w: World, c: Ctx, news: News, cb: Callback) returns (w': World, c': Ctx, kept: Callback)
    requires Due(w, news) && Steady(w) && WithoutReader(c) == w.ctx && Ours(cb)
    ensures var r := Route(c, ReplyOf(w.server, news), cb);
            r.cb == kept && AfterRoute(r, ReplyOf(w.server, news), QUIET) == (c', false)
    ensures Steady(w') && WithoutReader(c') == w'.ctx && c'.reader == c.reader && Ours(kept)
    ensures HeardBy(c') == HeardBy(c) + MessageOf(news)
    ensures w'.server == BaseAfter(w.server, news) && w'.pending == Later(w, news)
  {
    hide Due, Steady, Finds, ReplyOf, BaseAfter, Follow, Route, AfterRoute, Traced, Later, Ours, HeardBy, MessageOf;
    var reply := ReplyOf(w.server, news);
    var r := Finds(c, w.server, news, cb);
    NewsRouted(w, c, news, cb);
    NewsProcessed(w, c, news, cb);
    NewsSteady(w, news, cb);
    FindsAlive(c, w.server, news, cb);
    TracedReader(r.ctx, r.source, r.cb, reply);
    NewsListened(w, c, news, cb);
    c', kept := Traced(r.ctx, r.source, r.cb, reply), r.cb;
    w' := World(WithoutReader(c'), Followed(WithoutReader(c')), BaseAfter(w.server, news), Later(w, news));
  }

  /** What the loop over the replies finds in a world: the news in flight, whole in the reader. */
  ghost predicate Reading(w: World, c: Ctx, flight: seq<News>, later: seq<Owed>, cb: Callback) {
    && Steady(w) && WithoutReader(c) == w.ctx && w.pending == Confs(flight) + later && Proper(w.server, flight)
    && c.reader.Live? && c.reader.Valid() && Drain(c.reader.cfg).state.Live?
    && Drain(c.reader.cfg).replies == Said(w.server, flight) && Ours(cb)
  }

  lemma ReadingIdle(w: World, c: Ctx, flight: seq<News>, later: seq<Owed>, cb: Callback)
    requires Reading(w, c, flight, later, cb)
    ensures Readable(c)
  {
    hide Steady, Drain, Said, Proper, Confs;
    SteadyIdle(w, c);
  }

  /** The first of them. */
  lemma FirstNews(w: World, c: Ctx, flight: seq<News>, later: seq<Owed>, cb: Callback)
    returns (w': World, c': Ctx, kept: Callback)
    requires Reading(w, c, flight, later, cb) && Readable(c) && flight != []
    ensures Reading(w', c', flight[1..], later, kept) && w'.server == BaseAfter(w.server, flight[0])
    ensures Unread(c') < Unread(c) && Drain(c'.reader.cfg).state == Drain(c.reader.cfg).state
    ensures Readable(c') && ProcessCallbacks(c, cb, QUIET) == ProcessCallbacks(c', kept, QUIET)
    ensures HeardBy(c') == HeardBy(c) + MessageOf(flight[0])
  {
    hide Steady, ReplyOf, BaseAfter, Follow, Route, AfterRoute, Due, HeardBy, MessageOf, Drain, Run;
    var news := flight[0];
    var reply := ReplyOf(w.server, news);
    var rest := FirstRead(c, reply, Said(BaseAfter(w.server, news), flight[1..]));
    HeadDue(w, flight, later);
    var c0 := c.(reader := Live(Fresh(rest)));
    w', c', kept := Step(w, c0, news, cb);
    SteadyIdle(w', c');
    SameCalls(c, c0);
  }

  /** However many replies a chunk completes, redisProcessCallbacks does with them what the world does
      one by one. */
  lemma {:induction false} ChunkIsMoves(w: World, c: Ctx, flight: seq<News>, later: seq<Owed>, cb: Callback)
    requires Reading(w, c, flight, later, cb)
    ensures Readable(c)
    ensures var d := ProcessCallbacks(c, cb, QUIET);
            && d.reader == Drain(c.reader.cfg).state
            && Steady(World(WithoutReader(d), Followed(d), BaseAll(w.server, flight), later))
            && HeardBy(d) == HeardBy(c) + MessagesOf(flight)
    decreases |flight|
  {
    hide HeardBy, MessageOf, Steady, BaseAfter, Follow, ProcessCallbacks, Drain;
    ReadingIdle(w, c, flight, later, cb);
    if flight == [] {
      SteadyIdle(w, c);
      NothingRead(c, cb);
      SameCalls(c, ProcessCallbacks(c, cb, QUIET));
      assert HeardBy(c) + [] == HeardBy(c);
      assert Confs(flight) + later == later;
    } else {
      var w1, c1, kept := FirstNews(w, c, flight, later, cb);
      ChunkIsMoves(w1, c1, flight[1..], later, kept);
      var first, rest := MessageOf(flight[0]), MessagesOf(flight[1..]);
      assert HeardBy(c) + first + rest == HeardBy(c) + (first + rest);
    }
  }

  lemma SameCalls(a: Ctx, b: Ctx)
    requires a.log.calls == b.log.calls
    ensures HeardBy(a) == HeardBy(b)
  {
  }

  lemma SteadyIdle(w: World, c: Ctx)
    requires Steady(w) && WithoutReader(c) == WithoutReader(w.ctx)
    ensures Idle(c) && w.sub == Followed(c)
  {
    hide Safe, TableInv, Follow;
  }

  lemma HeadDue(w: World, flight: seq<News>, later: seq<Owed>)
    requires Steady(w) && flight != [] && w.pending == Confs(flight) + later && Proper(w.server, flight)
    ensures Due(w, flight[0]) && Proper(BaseAfter(w.server, flight[0]), flight[1..])
    ensures Later(w, flight[0]) == Confs(flight[1..]) + later
  {
    hide Inv, Safe, Follow, Confs, Followed;
    var first := if flight[0].Answer? then [flight[0].owed] else [];
    ConfsFirst(flight);
    assert w.pending == first + (Confs(flight[1..]) + later);
    assert w.pending[|first|..] == Confs(flight[1..]) + later;
    if flight[0].Answer? {
      assert w.pending[0] == first[0];
    }
  }

  lemma ConfsFirst(flight: seq<News>)
    requires flight != []
    ensures Confs(flight) == (if flight[0].Answer? then [flight[0].owed] else []) + Confs(flight[1..])
  {
  }

  lemma NothingRead(c: Ctx, cb: Callback)
    requires Idle(c) && c.reader.Live? && c.reader.Valid() && Drain(c.reader.cfg).state.Live?
    requires Drain(c.reader.cfg).replies == []
    ensures ProcessCallbacks(c, cb, QUIET) == c.(reader := Drain(c.reader.cfg).state)
  {
    hide Run, Route, AfterRoute;
  }

  lemma FirstRead(c: Ctx, reply: Reply, later: seq<Reply>) returns (rest: bytes)
    requires c.reader.Live? && c.reader.Valid() && Drain(c.reader.cfg).replies == [reply] + later
    ensures Run(c.reader.cfg) == Got(reply, rest)
    ensures Drain(Fresh(rest)) == Drained(later, Drain(c.reader.cfg).state)
  {
    hide Run;
    rest := Run(c.reader.cfg).rest;
    assert ([reply] + later)[0] == reply && ([reply] + later)[1..] == later;
    var d := Drain(Fresh(rest));
    assert ([Run(c.reader.cfg).reply] + d.replies)[1..] == d.replies;
  }

  // ----------------------------------------------------------------------- runs

  /** The sets the server will have are the same, seen from the client or from the server. */
  lemma {:induction false} BaseIsAfter(base: Sets, flight: seq<News>)
    ensures BaseAll(base, flight) == AfterAll(base, Confs(flight))
    decreases |flight|
  {
    if flight != [] {
      BaseIsAfter(BaseAfter(base, flight[0]), flight[1..]);
      AfterAllAppend(base, if flight[0].Answer? then [flight[0].owed] else [], Confs(flight[1..]));
      if flight[0].Answer? { assert [flight[0].owed][1..] == []; }
    }
  }

  lemma AskView(net: Net, s: bool, p: bool, names: seq<bytes>, order: seq<bytes>)
    requires net.server == BaseAll(net.base, net.flight)
    ensures var n := NetNext(net, Ask(s, p, names, order));
            && View(n) == AfterSend(View(net), s, p, names, order)
            && n == net.(ctx := n.ctx, asked := n.asked) && n.ctx.reader == net.ctx.reader
  {
    hide AsyncCommand, Follow, CommandName, Owes, Confs, BaseAll, AfterAll;
    var args := [CommandName(s, p)] + names;
    CommandReader(net.ctx, args, SUB);
    Listening.SendSilent(net.ctx, args);
    BaseIsAfter(net.base, net.flight);
    AfterAllAppend(net.base, Confs(net.flight), net.asked);
    var more := Owes(AfterAll(net.server, net.asked), s, p, names, order);
    assert Confs(net.flight) + net.asked + more == Confs(net.flight) + (net.asked + more);
  }

  lemma AskInv(net: Net, s: bool, p: bool, names: seq<bytes>, order: seq<bytes>)
    requires NetInv(net)
    ensures NetInv(NetNext(net, Ask(s, p, names, order)))
  {
    hide Inv, AfterSend, View, NetNext, Drain, Said, Proper, EncodeAll, BaseAll;
    AskView(net, s, p, names, order);
    SendInv(View(net), s, p, names, order);
  }

  /** What the server sends joins the flight; the client sees no difference yet. */
  lemma ReadyInv(net: Net, news: News, asked: seq<Owed>)
    requires NetInv(net) && (news.Note? ==> news.name in net.server.Of(news.pvariant))
    requires if news.Answer? then net.asked == [news.owed] + asked else asked == net.asked
    ensures var n := Ready(net, news).(asked := asked); NetInv(n) && View(n) == View(net)
  {
    hide Inv, Drain, Said, Proper, EncodeAll, Encode, ReplyOf, BaseAfter, BaseAll, Confs, Follow;
    SaidPush(net.base, net.flight, news);
    var reply := ReplyOf(net.server, news);
    EncodeAllPush(Said(net.base, net.flight), reply);
    assert net.held + (net.wire + Encode(reply)) == net.held + net.wire + Encode(reply);
    if news.Answer? {
      assert Confs(net.flight) + [news.owed] + asked == Confs(net.flight) + ([news.owed] + asked);
    } else {
      assert Confs(net.flight) + [] == Confs(net.flight);
    }
  }

  /** What the reader makes of a chunk behind the bytes it held. */
  lemma ChunkDrains(net: Net, chunk: bytes, wire: bytes)
    requires NetInv(net) && net.wire == chunk + wire
    ensures Readable(net.ctx)
    ensures var d := Drain(net.ctx.reader.cfg.Extend(chunk));
            var k := |d.replies|;
            && k <= |net.flight| && d.replies == Said(net.base, net.flight[..k]) && d.state.Live?
            && var used := |EncodeAll(Said(net.base, net.flight[..k]))|;
               && used <= |net.held + chunk|
               && var rest := (net.held + chunk)[used..];
                  && Drain(Fresh(rest)) == Drained([], d.state)
                  && rest + wire == EncodeAll(Said(BaseAll(net.base, net.flight[..k]), net.flight[k..]))
  {
    hide Inv, Drain, Said, Proper, EncodeAll, BaseAll, Follow;
    ViewIdle(net);
    var rs, bytes := Said(net.base, net.flight), net.held + chunk;
    SaidWellFormed(net.base, net.flight);
    SaidLength(net.base, net.flight);
    DrainExtend(Fresh(net.held), chunk);
    var d := Drain(net.ctx.reader.cfg.Extend(chunk));
    PrependNothing(d);
    assert Fresh(net.held).Extend(chunk) == Fresh(bytes);
    assert bytes + wire == EncodeAll(rs);
    PrefixSplit(rs, bytes);
    var k := |d.replies|;
    SaidSplit(net.base, net.flight, k);
    SaidLength(net.base, net.flight[..k]);
    var first, last := Said(net.base, net.flight[..k]), Said(BaseAll(net.base, net.flight[..k]), net.flight[k..]);
    assert rs[..k] == first;
    EncodeAllAppend(first, last);
    Cancel(EncodeAll(first), bytes[|EncodeAll(first)|..] + wire, EncodeAll(last));
  }

  lemma Cancel(a: bytes, b: bytes, c: bytes)
    requires a + b == a + c
    ensures b == c
  {
    assert (a + b)[|a|..] == b && (a + c)[|a|..] == c;
  }

  lemma ViewIdle(net: Net)
    requires NetInv(net)
    ensures Idle(net.ctx)
  {
    hide TableInv, Drain, Said, Proper, EncodeAll, Follow;
  }

  lemma ReadInv(net: Net, chunk: bytes, wire: bytes)
    requires NetInv(net) && Safe(View(net)) && net.wire == chunk + wire
    ensures Readable(net.ctx)
    ensures var n := Read(net, chunk, wire);
            && NetInv(n) && Safe(View(n))
            && HeardBy(net.ctx) + MessagesOf(net.flight) == HeardBy(n.ctx) + MessagesOf(n.flight)
  {
    hide Inv, Safe, Drain, Said, Proper, EncodeAll, BaseAll, Confs, ProcessCallbacks, Follow, HeardBy, MessagesOf;
    ChunkDrains(net, chunk, wire);
    var w := View(net);
    var cfg := net.ctx.reader.cfg.Extend(chunk);
    var k := |Drain(cfg).replies|;
    ConfsSplit(net.flight, k);
    SaidSplit(net.base, net.flight, k);
    var later := Confs(net.flight[k..]) + net.asked;
    assert w.pending == Confs(net.flight[..k]) + later;
    var c := net.ctx.(reader := Live(cfg));
    ChunkIsMoves(w, c, net.flight[..k], later, NO_CALLBACK);
    MessagesSplit(net.flight, k);
    SameCalls(net.ctx, c);
    var read, rest := MessagesOf(net.flight[..k]), MessagesOf(net.flight[k..]);
    assert HeardBy(net.ctx) + (read + rest) == HeardBy(net.ctx) + read + rest;
  }

  lemma NetNextInv(net: Net, m: NetMove)
    requires NetInv(net) && Safe(View(net))
    ensures NetInv(NetNext(net, m))
    ensures !m.Ask? ==> Safe(View(NetNext(net, m)))
  {
    hide NetInv, Safe, View, Ready, Read;
    match m {
      case Ask(s, p, names, order) => AskInv(net, s, p, names, order);
      case Carry =>
        if net.asked != [] {
          assert net.asked == [net.asked[0]] + net.asked[1..];
          ReadyInv(net, Answer(net.asked[0]), net.asked[1..]);
        }
      case Announce(p, name, channel, payload) =>
        if name in net.server.Of(p) {
          ReadyInv(net, Note(p, name, channel, payload), net.asked);
          AskedSame(net, Note(p, name, channel, payload));
        }
      case Deliver(n) =>
        if Readable(net.ctx) && n <= |net.wire| {
          assert net.wire == net.wire[..n] + net.wire[n..];
          ReadInv(net, net.wire[..n], net.wire[n..]);
        }
    }
  }

  lemma AskedSame(net: Net, news: News)
    ensures Ready(net, news).(asked := net.asked) == Ready(net, news)
  {
  }

  lemma {:induction false} NetAllInv(net: Net, moves: seq<NetMove>)
    requires NetInv(net) && NetDisciplined(net, moves)
    ensures NetInv(NetNextAll(net, moves))
    decreases |moves|
  {
    hide NetInv, Safe, View, NetNext;
    if moves != [] {
      NetNextInv(net, moves[0]);
      NetAllInv(NetNext(net, moves[0]), moves[1..]);
    }
  }

  lemma NetStartInv()
    ensures NetInv(NetStart)
  {
    hide Run, TableInv;
    StartInv();
    DrainWhole([]);
    assert Confs([]) + [] == [];
  }

  /** The agreement over a connection, for every run of bytes cut anywhere: the context stays alive,
      the sets that sub_callback has made are the server's as of the replies that were read whole,
      they are the registered names less those awaiting their first confirmation, and once every byte
      was read they are the server's sets. */
  lemma {:induction false} SetsAgreeOnTheWire(moves: seq<NetMove>)
    requires NetDisciplined(NetStart, moves)
    ensures var net := NetNextAll(NetStart, moves);
            var sets, pending := Followed(net.ctx), View(net).pending;
            && net.ctx.phase == Alive
            && sets == net.base && net.server == BaseAll(net.base, net.flight)
            && (net.wire == [] ==> sets == net.server)
            && sets.channels == net.ctx.tables.channels.Keys - (Awaiting(pending, false) - net.base.channels)
            && sets.patterns == net.ctx.tables.patterns.Keys - (Awaiting(pending, true) - net.base.patterns)
            && (net.ctx.flags.subscribed <==> net.ctx.tables.channels != map[] || net.ctx.tables.patterns != map[])
  {
    hide NetDisciplined, NetNextAll, Awaiting, Follow, Drain, Said, Proper, EncodeAll, BaseAll;
    NetStartInv();
    NetAllInv(NetStart, moves);
    var net := NetNextAll(NetStart, moves);
    assert TableInv(View(net), false) && TableInv(View(net), true);
    if net.wire == [] { AllArrived(net); }
  }

  /** With no byte to come, nothing is in flight. */
  lemma AllArrived(net: Net)
    requires NetInv(net) && net.wire == []
    ensures net.flight == [] && net.server == net.base
  {
    hide Inv, Drain, Proper, EncodeAll, ReplyOf, BaseAfter, Follow;
    assert net.held + [] == net.held;
    SaidWellFormed(net.base, net.flight);
    SaidLength(net.base, net.flight);
    DrainWhole(Said(net.base, net.flight));
  }

  // --------------------------------------------------------------- the listener

  /** What the server publishes with this move. */
  function Announced(net: Net, m: NetMove): seq<seq<bytes>> {
    match m
    case Announce(p, name, channel, payload) =>
      if name in net.server.Of(p) then [Listening.Texts(p, name, channel, payload)] else []
    case _ => []
  }

  ghost function AnnouncedAll(net: Net, moves: seq<NetMove>): seq<seq<bytes>>
    decreases |moves|
  {
    if moves == [] then [] else Announced(net, moves[0]) + AnnouncedAll(NetNext(net, moves[0]), moves[1..])
  }

  lemma MoveAnnounced(net: Net, m: NetMove)
    requires NetInv(net) && Safe(View(net))
    ensures var n := NetNext(net, m);
            HeardBy(n.ctx) + MessagesOf(n.flight) == HeardBy(net.ctx) + MessagesOf(net.flight) + Announced(net, m)
  {
    hide NetInv, Safe, View, Read, HeardBy, MessagesOf, MessageOf, AsyncCommand, Encode, Owes;
    var heard, coming := HeardBy(net.ctx), MessagesOf(net.flight);
    assert heard + coming + [] == heard + coming && coming + [] == coming;
    match m {
      case Ask(s, p, names, order) =>
        Listening.SendSilent(net.ctx, [CommandName(s, p)] + names);
        SameCalls(net.ctx, NetNext(net, m).ctx);
      case Carry => if net.asked != [] { NewsAnnounced(net.flight, Answer(net.asked[0])); }
      case Announce(p, name, channel, payload) =>
        if name in net.server.Of(p) {
          NewsAnnounced(net.flight, Note(p, name, channel, payload));
          assert heard + (coming + Announced(net, m)) == heard + coming + Announced(net, m);
        }
      case Deliver(n) =>
        if Readable(net.ctx) && n <= |net.wire| {
          assert net.wire == net.wire[..n] + net.wire[n..];
          ReadInv(net, net.wire[..n], net.wire[n..]);
        }
    }
  }

  lemma NewsAnnounced(flight: seq<News>, news: News)
    ensures MessagesOf(flight + [news]) ==
            MessagesOf(flight)
            + if news.Answer? then [] else [Listening.Texts(news.pvariant, news.name, news.channel, news.payload)]
  {
    hide MessagesOf;
    MessagesPush(flight, news);
  }

  lemma {:induction false} AllAnnounced(net: Net, moves: seq<NetMove>)
    requires NetInv(net) && NetDisciplined(net, moves)
    ensures var n := NetNextAll(net, moves);
            HeardBy(n.ctx) + MessagesOf(n.flight) ==
                HeardBy(net.ctx) + MessagesOf(net.flight) + AnnouncedAll(net, moves)
    decreases |moves|
  {
    hide NetInv, Safe, View, NetNext, HeardBy, MessagesOf, Announced;
    var before := HeardBy(net.ctx) + MessagesOf(net.flight);
    if moves == [] {
      assert before + [] == before;
    } else {
      var n := NetNext(net, moves[0]);
      NetNextInv(net, moves[0]);
      MoveAnnounced(net, moves[0]);
      AllAnnounced(n, moves[1..]);
      var first, later := Announced(net, moves[0]), AnnouncedAll(n, moves[1..]);
      assert before + first + later == before + (first + later);
    }
  }

  /** Over a connection, for every disciplined run of bytes cut anywhere: what the listener heard, followed
      by the messages that were not read whole, is what the server published, in order, each once; and
      when every byte was read the listener heard it all. */
  lemma ListenerHearsTheWire(moves: seq<NetMove>)
    requires NetDisciplined(NetStart, moves)
    ensures var net := NetNextAll(NetStart, moves);
            && HeardBy(net.ctx) + MessagesOf(net.flight) == AnnouncedAll(NetStart, moves)
            && (net.wire == [] ==> HeardBy(net.ctx) == AnnouncedAll(NetStart, moves))
  {
    hide NetInv, NetDisciplined, NetNextAll, AnnouncedAll, HeardBy;
    NetStartInv();
    NetAllInv(NetStart, moves);
    AllAnnounced(NetStart, moves);
    NothingHeard();
    var net := NetNextAll(NetStart, moves);
    assert [] + [] + AnnouncedAll(NetStart, moves) == AnnouncedAll(NetStart, moves);
    if net.wire == [] {
      AllArrived(net);
      assert HeardBy(net.ctx) + [] == HeardBy(net.ctx);
    }
  }

  lemma NothingHeard()
    ensures HeardBy(NetStart.ctx) == [] && MessagesOf(NetStart.flight) == []
  {
  }

  /** A subscriber that is given the replies of these calls ends with these sets, and its listener has
      heard these texts. */
  method Replay(calls: seq<Invocation>) returns (subscriber: Subscriber)
    ensures fresh(subscriber) && subscriber.View() == Follow(Sets({}, {}), calls)
    ensures subscriber.heard == Listening.Listened(calls)
  {
    hide Noted, Messages, Follow, Listening.Listened;
    subscriber := new Subscriber();
    Listening.NothingListened();
    NothingFollowed(Sets({}, {}));
    assert calls[..0] == [];
    for i := 0 to |calls|
      invariant fresh(subscriber) && subscriber.View() == Follow(Sets({}, {}), calls[..i])
      invariant subscriber.heard == Listening.Listened(calls[..i])
    {
      assert calls[..i + 1] == calls[..i] + [calls[i]];
      FollowAppend(Sets({}, {}), calls[..i], [calls[i]]);
      FollowSingle(subscriber.View(), calls[i]);
      Listening.ListenedPush(calls[..i], calls[i]);
      if calls[i].cb == SUB {
        var _ := subscriber.SubCallback(calls[i].reply);
      }
    }
    assert calls[..|calls|] == calls;
  }

  lemma NothingFollowed(s: Sets)
    ensures Follow(s, []) == s
  {
  }

  lemma FollowSingle(s: Sets, call: Invocation)
    ensures Follow(s, [call]) == if call.cb == SUB && call.reply.Some? then Noted(s, Elements(call.reply.value)) else s
  {
    hide Noted;
    assert [call][1..] == [];
  }
}
