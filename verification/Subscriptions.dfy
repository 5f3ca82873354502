/** A subscriber, its context and a server: when the subscriber's sets, the server's sets and the
    subscription tables stay in agreement. */
module Subscriptions {
  import opened Bytes
  import opened Resp
  import opened ReaderMachine
  import opened Format
  import opened Async
  import opened PubSub

  /** The callback of every subscription: sub_callback with this subscriber. */
  const SUB: Callback := Callback(true, 0)

  /** sub_callback does not touch the context. */
  ghost const QUIET: Program := Program(n => [], AnyOrder)

  /** What the server owes: the confirmation of one name; the error for a subscription without names,
      which it refuses; or the confirmation of an unsubscription without names from a server that has
      none. */
  datatype Owed =
    | Confirm(subscribe: bool, pvariant: bool, name: bytes)
    | Refusal
    | Nothing(pvariant: bool)

  /** The context, the subscriber's sets, the server's sets, and what the server still owes. */
  datatype World = World(ctx: Ctx, sub: Sets, server: Sets, pending: seq<Owed>)

  /** `order` is the order in which the server goes through its names when an unsubscription has none. */
  datatype Move =
    | Send(subscribe: bool, pvariant: bool, names: seq<bytes>, order: seq<bytes>)
    | Confirmation
    | Publish(pvariant: bool, name: bytes, channel: bytes, payload: bytes)

  const UPPER_SUBSCRIBE: bytes := [83, 85, 66, 83, 67, 82, 73, 66, 69]
  const UPPER_UNSUBSCRIBE: bytes := [85, 78, 83, 85, 66, 83, 67, 82, 73, 66, 69]
  const UPPER_P: byte := 80

  /** The first argument that the subscriber's MakeCmd gets. */
  function CommandName(subscribe: bool, pvariant: bool): bytes {
    var name := if subscribe then UPPER_SUBSCRIBE else UPPER_UNSUBSCRIBE;
    if pvariant then [UPPER_P] + name else name
  }

  /** The kind element of a confirmation. */
  function KindName(subscribe: bool, pvariant: bool): bytes {
    var name := if subscribe then SUBSCRIBE else UNSUBSCRIBE;
    if pvariant then [LETTER_P] + name else name
  }

  function Confirms(subscribe: bool, pvariant: bool, names: seq<bytes>): seq<Owed> {
    seq(|names|, i requires 0 <= i < |names| => Confirm(subscribe, pvariant, names[i]))
  }

  function Table(c: Ctx, pvariant: bool): map<bytes, Callback> {
    if pvariant then c.tables.patterns else c.tables.channels
  }

  function ServerAfter(s: Sets, c: Owed): Sets {
    match c
    case Confirm(true, p, name) => s.Insert(p, name)
    case Confirm(false, p, name) => s.Erase(p, name)
    case _ => s
  }

  function AfterAll(s: Sets, cs: seq<Owed>): Sets
    decreases |cs|
  {
    if cs == [] then s else AfterAll(ServerAfter(s, cs[0]), cs[1..])
  }

  lemma {:induction false} AfterAllAppend(s: Sets, a: seq<Owed>, b: seq<Owed>)
    ensures AfterAll(s, a + b) == AfterAll(AfterAll(s, a), b)
    decreases |a|
  {
    if a == [] {
      assert a + b == b;
    } else {
      assert (a + b)[0] == a[0] && (a + b)[1..] == a[1..] + b;
      AfterAllAppend(ServerAfter(s, a[0]), a[1..], b);
    }
  }

  predicate NoNames(s: Sets) {
    s.channels == {} && s.patterns == {}
  }

  // -------------------------------------------------------------------- commands

  ghost function Enumerated(names: set<bytes>): (r: seq<bytes>)
    ensures forall n :: n in r <==> n in names
    ensures Distinct(r)
    decreases |names|
  {
    if names == {} then []
    else
      var n :| n in names;
      [n] + Enumerated(names - {n})
  }

  /** All the names, in this order if it is one of them. */
  ghost function InOrder(names: set<bytes>, order: seq<bytes>): (r: seq<bytes>)
    ensures forall n :: n in r <==> n in names
    ensures Distinct(r)
  {
    if Distinct(order) && forall n :: n in order <==> n in names then order else Enumerated(names)
  }

  /** What a subscription command makes the server owe that has these sets by then. */
  ghost function Owes(server: Sets, subscribe: bool, pvariant: bool, names: seq<bytes>, order: seq<bytes>): seq<Owed> {
    if names != [] then Confirms(subscribe, pvariant, names)
    else if subscribe then [Refusal]
    else if server.Of(pvariant) == {} then [Nothing(pvariant)]
    else Confirms(false, pvariant, InOrder(server.Of(pvariant), order))
  }

  // ---------------------------------------------------------------------- moves

  const ERR: bytes := [69, 82, 82]

  function ConfirmReply(c: Owed, server: Sets): seq<Reply>
    requires c.Confirm?
  {
    [Str(KindName(c.subscribe, c.pvariant)), Str(c.name), Integer(|server.channels| + |server.patterns|)]
  }

  function OwedReply(c: Owed, server: Sets): Reply {
    match c
    case Confirm(_, _, _) => Array(ConfirmReply(c, server))
    case Refusal => Error(ERR)
    case Nothing(p) => Array([Str(KindName(false, p)), Nil, Integer(|server.channels| + |server.patterns|)])
  }

  function PublishReply(pvariant: bool, name: bytes, channel: bytes, payload: bytes): seq<Reply> {
    if pvariant then [Str(PMESSAGE), Str(name), Str(channel), Str(payload)]
    else [Str(MESSAGE), Str(name), Str(payload)]
  }

  /** A reply reaches redisProcessCallbacks in a read of its own; when the callback it finds is the
      subscriber's, its sets follow. */
  ghost function Receive(w: World, reply: Reply): World {
    var r := Route(w.ctx, reply, NO_CALLBACK);
    w.(ctx := AfterRoute(r, reply, QUIET).0,
       sub := if r.ctx.phase == Alive && !r.ctx.failed && r.cb == SUB then Noted(w.sub, Elements(reply)) else w.sub)
  }

  /** A subscription command is sent; the context refuses to unsubscribe out of subscribed mode. */
  ghost function AfterSend(w: World, subscribe: bool, pvariant: bool, names: seq<bytes>, order: seq<bytes>): World {
    w.(ctx := AsyncCommand(w.ctx, [CommandName(subscribe, pvariant)] + names, SUB),
       pending := if subscribe || w.ctx.flags.subscribed then
                    w.pending + Owes(AfterAll(w.server, w.pending), subscribe, pvariant, names, order)
                  else w.pending)
  }

  /** The server carries out what is next, and its reply arrives. */
  ghost function Confirmed(w: World): World
    requires w.pending != []
  {
    var server := ServerAfter(w.server, w.pending[0]);
    Receive(w.(server := server, pending := w.pending[1..]), OwedReply(w.pending[0], server))
  }

  /** Nothing arrives that the server does not owe, and no message to a name that it does not have. */
  ghost function Next(w: World, m: Move): World {
    match m
    case Send(s, p, names, order) => AfterSend(w, s, p, names, order)
    case Confirmation => if w.pending == [] then w else Confirmed(w)
    case Publish(p, name, channel, payload) =>
      if name in w.server.Of(p) then Receive(w, Array(PublishReply(p, name, channel, payload))) else w
  }

  ghost function NextAll(w: World, moves: seq<Move>): World
    decreases |moves|
  {
    if moves == [] then w else NextAll(Next(w, moves[0]), moves[1..])
  }

  const Start := World(Init, Sets({}, {}), Sets({}, {}), [])

  // ----------------------------------------------------------------- discipline

  /** The first unconfirmed unsubscription of a registered name: the one that takes its entry away. */
  predicate Effective(w: World, i: nat)
    requires i < |w.pending|
  {
    && w.pending[i].Confirm? && !w.pending[i].subscribe
    && w.pending[i].name in Table(w.ctx, w.pending[i].pvariant)
    && forall k | 0 <= k < i :: w.pending[k] != w.pending[i]
  }

  /** An unsubscription that takes an entry away stands before a subscription of the same name, or it
      is the server's last name and does not stand last. */
  predicate Clash(w: World, i: nat, j: nat)
    requires i < j < |w.pending|
  {
    && Effective(w, i)
    && (w.pending[j] == w.pending[i].(subscribe := true) || NoNames(AfterAll(w.server, w.pending[..i + 1])))
  }

  /** Subscriptions without names were sent out of subscribed mode, where their callbacks are queued,
      and unsubscriptions without names only when the server had a name. */
  predicate Sensible(w: World) {
    forall i | |w.ctx.replies| <= i < |w.pending| :: w.pending[i].Confirm?
  }

  /** What a program can look at before it sends: its own unconfirmed commands, the names it has
      registered, and the names the server confirmed. */
  predicate Safe(w: World) {
    Sensible(w) && forall i, j | 0 <= i < j < |w.pending| :: !Clash(w, i, j)
  }

  /** If only the confirmations that are due arrive now, the context stays alive and the subscriber's
      sets are the server's after each of them. */
  ghost predicate Follows(w: World)
    decreases |w.pending|
  {
    && w.ctx.phase == Alive && w.sub == w.server
    && if w.pending == [] then true
       else
         ConfirmedPending(w);
         Follows(Confirmed(w))
  }

  lemma ConfirmedPending(w: World)
    requires w.pending != []
    ensures Confirmed(w).pending == w.pending[1..] && Confirmed(w).server == ServerAfter(w.server, w.pending[0])
  {
    hide Route, AfterRoute, Noted;
  }

  // ------------------------------------------------------------------ invariant

  predicate Awaits(c: Owed, pvariant: bool) {
    c.Confirm? && c.subscribe && c.pvariant == pvariant
  }

  /** Names of one table with a subscription still to be confirmed. */
  function Awaiting(pending: seq<Owed>, pvariant: bool): set<bytes> {
    set i | 0 <= i < |pending| && Awaits(pending[i], pvariant) :: pending[i].name
  }

  ghost predicate TableInv(w: World, pvariant: bool) {
    && Table(w.ctx, pvariant).Keys == w.server.Of(pvariant) + Awaiting(w.pending, pvariant)
    && forall n | n in Table(w.ctx, pvariant) :: Table(w.ctx, pvariant)[n] == SUB
  }

  /** Nothing has gone wrong yet. */
  ghost predicate Idle(c: Ctx) {
    c.phase == Alive && !c.failed && !Closing(c) && !c.flags.monitoring
  }

  /** Queued callbacks wait for what comes first: they are those of the subscriptions without names
      that were sent out of subscribed mode, and the server refuses them before it has a name. */
  ghost predicate QueueFirst(w: World) {
    && |w.ctx.replies| <= |w.pending|
    && (forall i | 0 <= i < |w.ctx.replies| :: w.ctx.replies[i] == SUB && w.pending[i] == Refusal)
    && (w.ctx.replies != [] ==> NoNames(w.server))
  }

  /** Subscribed mode lasts as long as there are entries. */
  ghost predicate Listening(c: Ctx) {
    Idle(c) && (c.flags.subscribed <==> c.tables.channels != map[] || c.tables.patterns != map[])
  }

  ghost predicate Inv(w: World) {
    && Listening(w.ctx) && w.sub == w.server
    && TableInv(w, false) && TableInv(w, true)
    && QueueFirst(w) && (|w.pending| > |w.ctx.replies| ==> w.ctx.flags.subscribed)
  }

  // --------------------------------------------------------------------- words

  lemma {:induction false} KindNotice(subscribe: bool, pvariant: bool)
    ensures NoticeOf(KindName(subscribe, pvariant)) == Change(subscribe, pvariant)
    ensures NUL !in KindName(subscribe, pvariant)
  {
    hide CStr;
    var kind := KindName(subscribe, pvariant);
    CStrClean(kind);
    if pvariant {
      assert kind[0] == 112 && SUBSCRIBE[0] == 115 && UNSUBSCRIBE[0] == 117;
      if !subscribe {
        assert kind[1] == 117 && PSUBSCRIBE[1] == 115;
      }
    } else if !subscribe {
      assert kind[0] == 117 && SUBSCRIBE[0] == 115;
    }
  }

  lemma MessageNotice(pvariant: bool)
    ensures NoticeOf(if pvariant then PMESSAGE else MESSAGE) == Message(pvariant)
  {
    hide CStr;
    var kind := if pvariant then PMESSAGE else MESSAGE;
    CStrClean(kind);
    assert SUBSCRIBE[0] == 115 && UNSUBSCRIBE[0] == 117 && PSUBSCRIBE[0] == 112 && PUNSUBSCRIBE[0] == 112;
    if pvariant {
      assert kind[1] == 109 && PSUBSCRIBE[1] == 115 && PUNSUBSCRIBE[1] == 117 && MESSAGE[0] == 109;
    } else {
      assert kind[0] == 109;
    }
  }

  /** The subscriber notes a confirmation exactly as the server carried it out. */
  lemma {:induction false} ConfirmNoted(c: Owed, server: Sets, s: Sets)
    requires c.Confirm?
    ensures WellShaped(ConfirmReply(c, server)) && Noted(s, ConfirmReply(c, server)) == ServerAfter(s, c)
  {
    hide NoticeOf, KindName;
    KindNotice(c.subscribe, c.pvariant);
    var es := ConfirmReply(c, server);
    assert es[3..] == [];
    LastNotice(ServerAfter(s, c), []);
    NextNotice(s, es);
  }

  lemma PublishNoted(pvariant: bool, name: bytes, channel: bytes, payload: bytes, s: Sets)
    ensures var es := PublishReply(pvariant, name, channel, payload); WellShaped(es) && Noted(s, es) == s
  {
    MessageNotice(pvariant);
    var es := PublishReply(pvariant, name, channel, payload);
    assert es[|es|..] == [];
    LastNotice(s, []);
    NextNotice(s, es);
  }

  lemma CommandNameVerb(subscribe: bool, pvariant: bool, hasnext: bool)
    ensures var name := CommandName(subscribe, pvariant);
            && CR !in name && PVariant(name) == pvariant
            && WordVerb(if pvariant then name[1..] else name, hasnext) ==
               if !subscribe then Unsubscribe else if hasnext then Subscribe else Regular
  {
    var word := if subscribe then UPPER_SUBSCRIBE else UPPER_UNSUBSCRIBE;
    var name := CommandName(subscribe, pvariant);
    assert pvariant ==> name[1..] == word;
    assert LowerAll(UPPER_SUBSCRIBE) == SUBSCRIBE;
    assert LowerAll(UPPER_UNSUBSCRIBE) == UNSUBSCRIBE;
    assert SUBSCRIBE[0] == 115 && UNSUBSCRIBE[0] == 117 && MONITOR[0] == 109;
  }

  /** What sending a subscription command does to the context. A subscription without names is a
      regular command to it, and an unsubscription is refused out of subscribed mode. */
  lemma SendEffect(c: Ctx, subscribe: bool, pvariant: bool, names: seq<bytes>)
    requires Idle(c)
    ensures var args := [CommandName(subscribe, pvariant)] + names;
            var d := if !subscribe then c
                     else if names != [] then Registered(c, pvariant, names)
                     else if c.flags.subscribed then PushInvalid(c, SUB)
                     else Push(c, SUB);
            AsyncCommand(c, args, SUB) == if subscribe || c.flags.subscribed then Append(d, args, SUB) else c
  {
    var args := [CommandName(subscribe, pvariant)] + names;
    CommandNameVerb(subscribe, pvariant, names != []);
    ParseOfCommand(args);
    assert args[1..] == names;
  }

  // ------------------------------------------------------------------- sending

  lemma {:induction false} RegisterEffect(table: map<bytes, Callback>, names: seq<bytes>, cb: Callback)
    ensures var t := Register(table, names, cb);
            && t.Keys == table.Keys + (set n | n in names)
            && forall n | n in t :: t[n] == if n in names then cb else table[n]
    decreases |names|
  {
    if names != [] {
      RegisterEffect(table[names[0] := cb], names[1..], cb);
      assert forall n :: n in names <==> n == names[0] || n in names[1..];
    }
  }

  lemma AwaitingConfirms(pending: seq<Owed>, subscribe: bool, pvariant: bool, names: seq<bytes>, p: bool)
    ensures Awaiting(pending + Confirms(subscribe, pvariant, names), p) ==
            Awaiting(pending, p) + if subscribe && p == pvariant then (set n | n in names) else {}
  {
    var more := Confirms(subscribe, pvariant, names);
    var all := pending + more;
    forall n | n in Awaiting(pending, p) ensures n in Awaiting(all, p) {
      var i :| 0 <= i < |pending| && Awaits(pending[i], p) && pending[i].name == n;
      assert all[i] == pending[i];
    }
    if subscribe && p == pvariant {
      forall n | n in names ensures n in Awaiting(all, p) {
        var i :| 0 <= i < |names| && names[i] == n;
        assert all[|pending| + i] == more[i];
      }
    }
    forall n | n in Awaiting(all, p)
      ensures n in Awaiting(pending, p) || (subscribe && p == pvariant && n in names)
    {
      var i :| 0 <= i < |all| && Awaits(all[i], p) && all[i].name == n;
      if i < |pending| {
        assert all[i] == pending[i];
      } else {
        assert all[i] == more[i - |pending|];
      }
    }
  }

  /** The context after new names were registered in one table. */
  function Registered(c: Ctx, pvariant: bool, names: seq<bytes>): Ctx {
    c.(flags := c.flags.(subscribed := true), tables := AddSubscriptions(c.tables, pvariant, names, SUB))
  }

  lemma RegisteredTables(c: Ctx, pvariant: bool, names: seq<bytes>)
    ensures var d := Registered(c, pvariant, names);
            && Table(d, !pvariant) == Table(c, !pvariant)
            && Table(d, pvariant).Keys == Table(c, pvariant).Keys + (set n | n in names)
            && ((forall n | n in Table(c, pvariant) :: Table(c, pvariant)[n] == SUB) ==>
                  forall n | n in Table(d, pvariant) :: Table(d, pvariant)[n] == SUB)
  {
    RegisterEffect(Table(c, pvariant), names, SUB);
  }

  /** A subscription of some names. */
  lemma SendSubscribeInv(w: World, pvariant: bool, names: seq<bytes>, order: seq<bytes>)
    requires Inv(w) && names != []
    ensures Inv(AfterSend(w, true, pvariant, names, order))
  {
    hide Registered, AsyncCommand, Awaiting, Confirms, CommandName, TableInv;
    SendEffect(w.ctx, true, pvariant, names);
    RegisteredIdle(w.ctx, pvariant, names);
    var w' := AfterSend(w, true, pvariant, names, order);
    RegisteredInv(w, w', pvariant, names);
    QueueKept(w, w');
  }

  /** The tables have the new names, which are awaited. */
  lemma RegisteredInv(w: World, w': World, pvariant: bool, names: seq<bytes>)
    requires TableInv(w, false) && TableInv(w, true) && names != []
    requires w'.ctx.tables == Registered(w.ctx, pvariant, names).tables && w'.server == w.server
    requires w'.pending == w.pending + Confirms(true, pvariant, names)
    ensures TableInv(w', false) && TableInv(w', true)
    ensures w'.ctx.tables.channels != map[] || w'.ctx.tables.patterns != map[]
  {
    hide Registered, Awaiting, Confirms;
    RegisteredTables(w.ctx, pvariant, names);
    AwaitingConfirms(w.pending, true, pvariant, names, pvariant);
    AwaitingConfirms(w.pending, true, pvariant, names, !pvariant);
    assert TableInv(w, pvariant) && TableInv(w, !pvariant);
    assert TableInv(w', pvariant) && TableInv(w', !pvariant);
    assert names[0] in names && names[0] in Table(w'.ctx, pvariant);
  }

  lemma QueueKept(w: World, w': World)
    requires QueueFirst(w) && w'.ctx.replies == w.ctx.replies && w'.server == w.server && w.pending <= w'.pending
    ensures QueueFirst(w')
  {
    forall i | 0 <= i < |w'.ctx.replies| ensures w'.ctx.replies[i] == SUB && w'.pending[i] == Refusal {
      assert w.ctx.replies[i] == SUB && w.pending[i] == Refusal;
    }
  }

  lemma RegisteredIdle(c: Ctx, pvariant: bool, names: seq<bytes>)
    requires Idle(c)
    ensures var d := Registered(c, pvariant, names);
            Idle(d) && d.flags.subscribed && d.reader == c.reader && d.replies == c.replies
  {
  }

  lemma AwaitingOther(pending: seq<Owed>, c: Owed, p: bool)
    requires !c.Confirm?
    ensures Awaiting(pending + [c], p) == Awaiting(pending, p)
  {
    var all := pending + [c];
    forall n | n in Awaiting(pending, p) ensures n in Awaiting(all, p) {
      var i :| 0 <= i < |pending| && Awaits(pending[i], p) && pending[i].name == n;
      assert all[i] == pending[i];
    }
  }

  /** A subscription without names. */
  lemma SendNamelessInv(w: World, pvariant: bool, order: seq<bytes>)
    requires Inv(w)
    ensures Inv(AfterSend(w, true, pvariant, [], order))
  {
    hide AsyncCommand, Awaiting, CommandName;
    SendEffect(w.ctx, true, pvariant, []);
    AwaitingOther(w.pending, Refusal, false);
    AwaitingOther(w.pending, Refusal, true);
    var w' := AfterSend(w, true, pvariant, [], order);
    assert TableInv(w, false) && TableInv(w, true);
    assert TableInv(w', false) && TableInv(w', true);
  }

  lemma SendUnsubscribeInv(w: World, pvariant: bool, names: seq<bytes>, order: seq<bytes>)
    requires Inv(w)
    ensures Inv(AfterSend(w, false, pvariant, names, order))
  {
    hide AsyncCommand, Awaiting, CommandName, InOrder, Confirms;
    SendEffect(w.ctx, false, pvariant, names);
    if w.ctx.flags.subscribed {
      var server := AfterAll(w.server, w.pending);
      var all := if names != [] then names else InOrder(server.Of(pvariant), order);
      AwaitingConfirms(w.pending, false, pvariant, all, false);
      AwaitingConfirms(w.pending, false, pvariant, all, true);
      AwaitingOther(w.pending, Nothing(pvariant), false);
      AwaitingOther(w.pending, Nothing(pvariant), true);
      var w' := AfterSend(w, false, pvariant, names, order);
      assert TableInv(w', false) && TableInv(w', true);
    }
  }

  lemma SendInv(w: World, s: bool, p: bool, names: seq<bytes>, order: seq<bytes>)
    requires Inv(w)
    ensures Inv(AfterSend(w, s, p, names, order))
  {
    hide Inv, AfterSend;
    if !s {
      SendUnsubscribeInv(w, p, names, order);
    } else if names == [] {
      SendNamelessInv(w, p, order);
    } else {
      SendSubscribeInv(w, p, names, order);
    }
  }

  // ------------------------------------------------------------ one confirmation

  /** What an array reply with a type and a name comes to in a context without queued callbacks. */
  lemma RouteNotify(c: Ctx, kind: bytes, name: bytes, es: seq<Reply>, cb: Callback)
    requires Idle(c) && c.replies == [] && c.flags.subscribed && NUL !in kind
    requires |es| >= 3 && es[0] == Str(kind) && es[1] == Str(name)
    ensures Route(c, Array(es), cb) == Notify(c, kind, name, Some(es[2]), cb)
  {
    CStrClean(kind);
  }

  /** A reply about a registered name goes to its entry. */
  lemma RoutedToEntry(c: Ctx, pvariant: bool, kind: bytes, name: bytes, es: seq<Reply>, cb: Callback)
    requires Idle(c) && c.replies == [] && c.flags.subscribed && name in Table(c, pvariant)
    requires NUL !in kind && PVariant(kind) == pvariant
    requires LowerAll(if pvariant then kind[1..] else kind) != UNSUBSCRIBE
    requires |es| >= 3 && es[0] == Str(kind) && es[1] == Str(name)
    ensures Route(c, Array(es), cb) == Routed(c, FromTable(pvariant, name), Table(c, pvariant)[name])
  {
    RouteNotify(c, kind, name, es, cb);
  }

  lemma KindWord(subscribe: bool, pvariant: bool)
    ensures var kind := KindName(subscribe, pvariant);
            && PVariant(kind) == pvariant
            && LowerAll(if pvariant then kind[1..] else kind) == if subscribe then SUBSCRIBE else UNSUBSCRIBE
  {
    var kind := KindName(subscribe, pvariant);
    var word := if subscribe then SUBSCRIBE else UNSUBSCRIBE;
    assert pvariant ==> kind[1..] == word;
    assert LowerAll(word) == word;
  }

  /** Where the confirmation d goes: to its entry, which an unsubscription also takes away, or
      nowhere when the name is not registered. */
  lemma ConfirmRouted(c: Ctx, d: Owed, server: Sets, cb: Callback)
    requires Idle(c) && c.replies == [] && d.Confirm?
    ensures var r := Route(c, Array(ConfirmReply(d, server)), cb);
            var left := |server.channels| + |server.patterns|;
            if !c.flags.subscribed then r.ctx.phase == Aborted
            else if d.name !in Table(c, d.pvariant) then r == Routed(c, Kept, cb)
            else r == Routed(if d.subscribe then c else Forget(c, d.pvariant, d.name, left),
                             FromTable(d.pvariant, d.name), Table(c, d.pvariant)[d.name])
  {
    hide LowerAll, KindName, PVariant;
    if c.flags.subscribed {
      KindNotice(d.subscribe, d.pvariant);
      KindWord(d.subscribe, d.pvariant);
      WordsDiffer();
      RouteNotify(c, KindName(d.subscribe, d.pvariant), d.name, ConfirmReply(d, server), cb);
    }
  }

  lemma WordsDiffer()
    ensures SUBSCRIBE != UNSUBSCRIBE && MESSAGE != UNSUBSCRIBE
  {
    assert SUBSCRIBE[0] == 115 && UNSUBSCRIBE[0] == 117 && MESSAGE[0] == 109;
  }

  /** What an iteration leaves of the context that found this callback for the reply: its trace. */
  function Traced(c: Ctx, source: Source, cb: Callback, reply: Reply): Ctx {
    var d := Met(Routed(c, source, cb), reply);
    if cb == SUB then Leave(Enter(d, Invocation(source, cb, Some(reply)))) else d
  }

  /** The subscriber's callback, or none at all. */
  predicate Ours(cb: Callback) {
    cb == SUB || cb == NO_CALLBACK
  }

  lemma TracedIdle(c: Ctx, source: Source, cb: Callback, reply: Reply)
    requires Idle(c)
    ensures var d := Traced(c, source, cb, reply);
            && Idle(d) && d.tables == c.tables && d.flags.subscribed == c.flags.subscribed
            && d.reader == c.reader && d.replies == c.replies
  {
  }

  lemma QuietRun(c: Ctx, source: Source, cb: Callback, reply: Reply)
    requires Idle(c) && Ours(cb)
    ensures AfterRoute(Routed(c, source, cb), reply, QUIET) == (Traced(c, source, cb, reply), false)
  {
  }

  lemma Received(w: World, reply: Reply, r: Routed)
    requires r == Route(w.ctx, reply, NO_CALLBACK) && Idle(r.ctx) && Ours(r.cb)
    ensures Receive(w, reply) == w.(ctx := Traced(r.ctx, r.source, r.cb, reply),
                                    sub := if r.cb == SUB then Noted(w.sub, Elements(reply)) else w.sub)
  {
    hide Route, AfterRoute, Noted;
    QuietRun(r.ctx, r.source, r.cb, reply);
  }

  /** One confirmation, whatever its name: in subscribed mode it carries out on tables and sets what
      the server did, unless the name is not registered; out of subscribed mode it fails the assert. */
  lemma ConfirmEffect(w: World)
    requires Idle(w.ctx) && w.ctx.replies == [] && w.pending != [] && w.pending[0].Confirm?
    requires var t := Table(w.ctx, w.pending[0].pvariant); w.pending[0].name in t ==> t[w.pending[0].name] == SUB
    ensures var c := w.pending[0];
            var server := ServerAfter(w.server, c);
            var reply := OwedReply(c, server);
            var w' := Confirmed(w);
            if !w.ctx.flags.subscribed then w'.ctx.phase == Aborted
            else if c.name !in Table(w.ctx, c.pvariant) then
              w' == World(Traced(w.ctx, Kept, NO_CALLBACK, reply), w.sub, server, w.pending[1..])
            else
              w' == World(Traced(if c.subscribe then w.ctx else Forgotten(w.ctx, c, server),
                                 FromTable(c.pvariant, c.name), SUB, reply),
                          ServerAfter(w.sub, c), server, w.pending[1..])
  {
    hide Route, AfterRoute, Noted, ConfirmReply, Forget, Receive;
    var c := w.pending[0];
    var server := ServerAfter(w.server, c);
    var es := ConfirmReply(c, server);
    var r := Route(w.ctx, Array(es), NO_CALLBACK);
    var w0 := w.(server := server, pending := w.pending[1..]);
    ConfirmRouted(w.ctx, c, server, NO_CALLBACK);
    ConfirmNoted(c, server, w.sub);
    if w.ctx.flags.subscribed {
      ForgetAlive(w.ctx, c, server);
      Received(w0, Array(es), r);
    } else {
      GoneReceive(w0, Array(es));
    }
  }

  /** When the assert fails on the way to a callback, that is the end. */
  lemma GoneReceive(w: World, reply: Reply)
    requires Route(w.ctx, reply, NO_CALLBACK).ctx.phase != Alive
    ensures Receive(w, reply).ctx == Route(w.ctx, reply, NO_CALLBACK).ctx
  {
    hide Route, Noted;
  }

  /** The refusal of a subscription without names that was sent out of subscribed mode goes to its own
      callback, which finds nothing in it. */
  lemma RefusalHeard(w: World)
    requires Idle(w.ctx) && w.ctx.replies != [] && w.ctx.replies[0] == SUB && w.pending != [] && w.pending[0] == Refusal
    ensures var c := Shift(w.ctx, Some(Error(ERR)));
            Confirmed(w) == World(Traced(c, FromReplies, SUB, Error(ERR)), w.sub, w.server, w.pending[1..])
  {
    hide Noted;
    LastNotice(w.sub, []);
    Received(w.(pending := w.pending[1..]), Error(ERR), Route(w.ctx, Error(ERR), NO_CALLBACK));
  }

  /** That of one sent in subscribed mode is an error nobody waits for, and the context disconnects. */
  lemma RefusalEnds(w: World)
    requires Idle(w.ctx) && w.ctx.replies == [] && w.pending != [] && w.pending[0] == Refusal
    ensures Confirmed(w).ctx.phase == Freed
  {
    hide RunTable, DrainReplies, DrainInvalid, Noted;
  }

  /** The confirmation of an unsubscription from nothing has no name, which fails the assert. */
  lemma NothingEnds(w: World)
    requires Idle(w.ctx) && w.ctx.replies == [] && w.pending != [] && w.pending[0].Nothing?
    ensures Confirmed(w).ctx.phase == Aborted
  {
    hide Noted, KindName;
    var reply := OwedReply(w.pending[0], w.server);
    GoneReceive(w.(pending := w.pending[1..]), reply);
  }

  /** The context after an unsubscription confirmation from a server that now has these sets. */
  function Forgotten(c: Ctx, d: Owed, server: Sets): Ctx
    requires d.Confirm?
  {
    Forget(c, d.pvariant, d.name, |server.channels| + |server.patterns|)
  }

  lemma ForgetAlive(c: Ctx, d: Owed, server: Sets)
    requires Idle(c) && d.Confirm?
    ensures var f := Forgotten(c, d, server);
            && Idle(f) && f.replies == c.replies && f.reader == c.reader
            && Table(f, d.pvariant) == Remove(Table(c, d.pvariant), d.name)
            && Table(f, !d.pvariant) == Table(c, !d.pvariant)
            && (f.flags.subscribed <==> c.flags.subscribed && !NoNames(server))
  {
  }

  // -------------------------------------------------- the confirmation at the head

  lemma AwaitingRest(pending: seq<Owed>, p: bool)
    requires pending != []
    ensures Awaiting(pending, p) == Awaiting(pending[1..], p) + if Awaits(pending[0], p) then {pending[0].name} else {}
  {
    var rest := pending[1..];
    forall n | n in Awaiting(rest, p) ensures n in Awaiting(pending, p) {
      var i :| 0 <= i < |rest| && Awaits(rest[i], p) && rest[i].name == n;
      assert pending[i + 1] == rest[i];
    }
    forall n | n in Awaiting(pending, p) && !(Awaits(pending[0], p) && n == pending[0].name)
      ensures n in Awaiting(rest, p)
    {
      var i :| 0 <= i < |pending| && Awaits(pending[i], p) && pending[i].name == n;
      assert rest[i - 1] == pending[i];
    }
  }

  /** The head confirmation clashes with a later one. */
  ghost predicate HeadClash(w: World)
    requires w.pending != []
  {
    exists j | 0 < j < |w.pending| :: Clash(w, 0, j)
  }

  /** The head is an error or a confirmation that the context does not survive. */
  predicate HeadFatal(w: World)
    requires w.pending != []
  {
    w.ctx.replies == [] && !w.pending[0].Confirm?
  }

  lemma OneConfirm(w: World)
    requires w.pending != []
    ensures AfterAll(w.server, w.pending[..1]) == ServerAfter(w.server, w.pending[0])
  {
    assert w.pending[..1] == [w.pending[0]] && w.pending[..1][1..] == [];
  }

  lemma NotAwaited(pending: seq<Owed>, c: Owed)
    requires c.Confirm? && forall j | 0 <= j < |pending| :: pending[j] != c.(subscribe := true)
    ensures c.name !in Awaiting(pending, c.pvariant)
  {
    assert forall j | 0 <= j < |pending| && Awaits(pending[j], c.pvariant) && pending[j].name == c.name ::
        pending[j] == c.(subscribe := true);
  }

  /** What the absence of a clash at the head means for the rest. */
  lemma NoClash(w: World)
    requires w.pending != [] && w.pending[0].Confirm? && !HeadClash(w) && !w.pending[0].subscribe
    requires w.pending[0].name in Table(w.ctx, w.pending[0].pvariant)
    ensures w.pending[0].name !in Awaiting(w.pending[1..], w.pending[0].pvariant)
    ensures NoNames(ServerAfter(w.server, w.pending[0])) ==> w.pending[1..] == []
  {
    var c := w.pending[0];
    OneConfirm(w);
    assert Effective(w, 0);
    forall j | 0 <= j < |w.pending[1..]| ensures w.pending[1..][j] != c.(subscribe := true) {
      assert !Clash(w, 0, j + 1);
    }
    NotAwaited(w.pending[1..], c);
    if |w.pending| > 1 { assert !Clash(w, 0, 1); }
  }

  /** Some table has an entry exactly while the server has a name or one is awaited. */
  lemma EntriesLeft(w: World)
    requires TableInv(w, false) && TableInv(w, true)
    ensures w.ctx.tables.channels == map[] && w.ctx.tables.patterns == map[] <==>
            NoNames(w.server) && Awaiting(w.pending, false) == {} && Awaiting(w.pending, true) == {}
  {
    hide Awaiting;
    assert w.ctx.tables.channels.Keys == w.server.channels + Awaiting(w.pending, false);
    assert w.ctx.tables.patterns.Keys == w.server.patterns + Awaiting(w.pending, true);
  }

  lemma NothingAwaited(p: bool)
    ensures Awaiting([], p) == {}
  {
  }

  lemma HeadRefused(w: World)
    requires QueueFirst(w) && w.ctx.replies != []
    ensures w.pending != [] && w.pending[0] == Refusal && w.ctx.replies[0] == SUB
  {
    assert w.ctx.replies[0] == SUB;
  }

  /** A confirmation comes first only when no queued callback waits. */
  lemma HeadWaitsAlone(w: World)
    requires QueueFirst(w) && w.pending != [] && w.pending[0].Confirm?
    ensures w.ctx.replies == []
  {
    if w.ctx.replies != [] { HeadRefused(w); }
  }

  lemma NoneQueued(w: World)
    requires w.ctx.replies == []
    ensures QueueFirst(w)
  {
  }

  /** The head refuses a subscription without names that was sent out of subscribed mode. */
  lemma RefusalConfirmed(w: World)
    requires Inv(w) && w.ctx.replies != [] && w.pending != []
    ensures var w' := Confirmed(w);
            Inv(w') && w'.ctx.tables == w.ctx.tables && w'.ctx.replies == w.ctx.replies[1..]
  {
    hide Confirmed, Awaiting, Traced;
    AwaitingRest(w.pending, false);
    AwaitingRest(w.pending, true);
    assert TableInv(w, false) && TableInv(w, true);
    HeadRefused(w);
    RefusalHeard(w);
    TracedIdle(Shift(w.ctx, Some(Error(ERR))), FromReplies, SUB, Error(ERR));
    var w' := Confirmed(w);
    assert TableInv(w', false) && TableInv(w', true);
    forall i | 0 <= i < |w'.ctx.replies| ensures w'.ctx.replies[i] == SUB && w'.pending[i] == Refusal {
      assert w.ctx.replies[i + 1] == SUB && w.pending[i + 1] == Refusal;
    }
  }

  /** Tables that changed as the server did agree with it again. */
  lemma TablesAgree(w: World, w': World, c: Owed)
    requires TableInv(w, false) && TableInv(w, true)
    requires w.pending != [] && w.pending[0] == c && c.Confirm?
    requires w'.pending == w.pending[1..] && w'.server == ServerAfter(w.server, c)
    requires var t := Table(w.ctx, c.pvariant);
             Table(w'.ctx, c.pvariant) == if c.subscribe then t else Remove(t, c.name)
    requires Table(w'.ctx, !c.pvariant) == Table(w.ctx, !c.pvariant)
    requires c.subscribe || c.name !in Awaiting(w'.pending, c.pvariant)
    ensures TableInv(w', false) && TableInv(w', true)
  {
    hide Awaiting;
    AwaitingRest(w.pending, c.pvariant);
    AwaitingRest(w.pending, !c.pvariant);
    assert TableInv(w, c.pvariant) && TableInv(w, !c.pvariant);
    assert TableInv(w', c.pvariant) && TableInv(w', !c.pvariant);
  }

  /** The head confirms a subscription. */
  lemma SubscribeConfirmed(w: World)
    requires Inv(w) && w.pending != [] && w.pending[0].Confirm? && w.pending[0].subscribe
    ensures var w' := Confirmed(w);
            Inv(w') && w'.ctx.tables == w.ctx.tables && w'.ctx.replies == w.ctx.replies
  {
    hide Confirmed, Awaiting, Traced, ConfirmReply, TableInv, QueueFirst;
    var c := w.pending[0];
    var w' := Confirmed(w);
    HeadWaitsAlone(w);
    HeadRegistered(w);
    OnlyOurs(w);
    ConfirmEffect(w);
    TracedIdle(w.ctx, FromTable(c.pvariant, c.name), SUB, OwedReply(c, ServerAfter(w.server, c)));
    TablesAgree(w, w', c);
    NoneQueued(w');
  }

  lemma OnlyOurs(w: World)
    requires TableInv(w, false) && TableInv(w, true)
    ensures forall p: bool, n | n in Table(w.ctx, p) :: Table(w.ctx, p)[n] == SUB
  {
    forall p: bool ensures TableInv(w, p) {
      if p { assert TableInv(w, true); } else { assert TableInv(w, false); }
    }
  }

  /** The head confirms an unsubscription of a name that is not registered. */
  lemma IdleConfirmed(w: World)
    requires Inv(w) && w.pending != [] && w.pending[0].Confirm? && !w.pending[0].subscribe
    requires w.pending[0].name !in Table(w.ctx, w.pending[0].pvariant)
    ensures var w' := Confirmed(w);
            Inv(w') && w'.ctx.tables == w.ctx.tables && w'.ctx.replies == w.ctx.replies
  {
    hide Confirmed, Awaiting, Traced, ConfirmReply, TableInv, QueueFirst;
    var c := w.pending[0];
    var w' := Confirmed(w);
    HeadWaitsAlone(w);
    NotRegistered(w);
    ConfirmEffect(w);
    TracedIdle(w.ctx, Kept, NO_CALLBACK, OwedReply(c, ServerAfter(w.server, c)));
    RemoveAbsent(Table(w.ctx, c.pvariant), c.name);
    TablesAgree(w, w', c);
    NoneQueued(w');
  }

  /** A name without an entry is neither the server's nor awaited. */
  lemma NotRegistered(w: World)
    requires TableInv(w, false) && TableInv(w, true) && w.pending != []
    requires var c := w.pending[0]; c.Confirm? && !c.subscribe && c.name !in Table(w.ctx, c.pvariant)
    ensures ServerAfter(w.server, w.pending[0]) == w.server
    ensures w.pending[0].name !in Awaiting(w.pending[1..], w.pending[0].pvariant)
  {
    hide Awaiting;
    AwaitingRest(w.pending, w.pending[0].pvariant);
    assert TableInv(w, w.pending[0].pvariant);
  }

  /** The head takes an entry away. */
  lemma UnsubscribeConfirmed(w: World)
    requires Inv(w) && w.pending != [] && w.pending[0].Confirm? && !w.pending[0].subscribe && !HeadClash(w)
    requires w.pending[0].name in Table(w.ctx, w.pending[0].pvariant)
    ensures Inv(Confirmed(w)) && Confirmed(w).ctx.replies == w.ctx.replies
  {
    hide Confirmed, Awaiting, Traced, ConfirmReply, Forgotten, HeadClash, NoNames, TableInv, QueueFirst, ServerAfter;
    var c := w.pending[0];
    var server := ServerAfter(w.server, c);
    var w' := Confirmed(w);
    HeadWaitsAlone(w);
    OnlyOurs(w);
    NoClash(w);
    ConfirmEffect(w);
    ForgetAlive(w.ctx, c, server);
    TracedIdle(Forgotten(w.ctx, c, server), FromTable(c.pvariant, c.name), SUB, OwedReply(c, server));
    TablesAgree(w, w', c);
    EntriesLeft(w');
    NothingAwaited(false);
    NothingAwaited(true);
    NoneQueued(w');
  }

  lemma HeadRegistered(w: World)
    requires TableInv(w, false) && TableInv(w, true) && w.pending != []
    requires w.pending[0].Confirm? && w.pending[0].subscribe
    ensures w.pending[0].name in Table(w.ctx, w.pending[0].pvariant)
  {
    AwaitingRest(w.pending, w.pending[0].pvariant);
  }

  /** Without a clash at the head, its confirmation keeps everything in agreement. */
  lemma ConfirmInv(w: World)
    requires Inv(w) && w.pending != [] && !HeadFatal(w) && !HeadClash(w)
    ensures Inv(Confirmed(w))
  {
    hide Confirmed, Inv, HeadClash;
    if w.ctx.replies != [] {
      RefusalConfirmed(w);
    } else if w.pending[0].subscribe {
      SubscribeConfirmed(w);
    } else if w.pending[0].name in Table(w.ctx, w.pending[0].pvariant) {
      UnsubscribeConfirmed(w);
    } else {
      IdleConfirmed(w);
    }
  }

  // ------------------------------------------------------- clashes move to the head

  /** The names that a confirmation leaves registered, and the callbacks it leaves queued. */
  lemma TableAfter(w: World)
    requires Inv(w) && w.pending != [] && !HeadFatal(w)
    ensures var c, w' := w.pending[0], Confirmed(w);
            && |w'.ctx.replies| == (if w.ctx.replies == [] then 0 else |w.ctx.replies| - 1)
            && forall p: bool, n: bytes :: n in Table(w'.ctx, p) <==>
                 n in Table(w.ctx, p) && c != Confirm(false, p, n)
  {
    hide Confirmed, TableInv;
    if w.ctx.replies != [] {
      HeadRefused(w);
      RefusalConfirmed(w);
    } else {
      TableAfterConfirm(w);
    }
  }

  lemma TableAfterConfirm(w: World)
    requires Inv(w) && w.pending != [] && w.ctx.replies == [] && w.pending[0].Confirm?
    ensures var c, w' := w.pending[0], Confirmed(w);
            && w'.ctx.replies == []
            && forall p: bool, n: bytes :: n in Table(w'.ctx, p) <==>
                 n in Table(w.ctx, p) && c != Confirm(false, p, n)
  {
    hide Confirmed, Awaiting, Traced, ConfirmReply, Forgotten;
    var c := w.pending[0];
    var server := ServerAfter(w.server, c);
    var reply := OwedReply(c, server);
    ConfirmEffect(w);
    ForgetAlive(w.ctx, c, server);
    TracedIdle(w.ctx, Kept, NO_CALLBACK, reply);
    TracedIdle(w.ctx, FromTable(c.pvariant, c.name), SUB, reply);
    TracedIdle(Forgotten(w.ctx, c, server), FromTable(c.pvariant, c.name), SUB, reply);
    assert TableInv(w, c.pvariant);
    forall p: bool ensures Table(Confirmed(w).ctx, p) ==
                           if !c.subscribe && c.pvariant == p then Remove(Table(w.ctx, p), c.name) else Table(w.ctx, p)
    {
      if p != c.pvariant { assert p == !c.pvariant; }
      if c.name !in Table(w.ctx, c.pvariant) { RemoveAbsent(Table(w.ctx, c.pvariant), c.name); }
      if c.subscribe { HeadRegistered(w); }
    }
  }

  lemma RemoveAbsent(table: map<bytes, Callback>, name: bytes)
    requires name !in table
    ensures Remove(table, name) == table
  {
  }

  lemma AfterHead(s: Sets, pending: seq<Owed>, i: nat)
    requires 0 < i <= |pending|
    ensures AfterAll(s, pending[..i]) == AfterAll(ServerAfter(s, pending[0]), pending[1..][..i - 1])
  {
    assert pending[..i][0] == pending[0] && pending[..i][1..] == pending[1..][..i - 1];
  }

  /** Behind the head, an unsubscription takes an entry away or not, whether the head is confirmed
      already or not. */
  lemma EffectiveBehind(w: World, i: nat)
    requires Inv(w) && 0 < i < |w.pending| && !HeadFatal(w)
    ensures Confirmed(w).pending == w.pending[1..]
    ensures Effective(w, i) <==> Effective(Confirmed(w), i - 1)
  {
    hide Confirmed, Inv;
    var w' := Confirmed(w);
    ConfirmedPending(w);
    TableAfter(w);
    var c := w.pending[i];
    assert w'.pending[i - 1] == c;
    if Effective(w, i) {
      assert w.pending[0] != c;
      forall k | 0 <= k < i - 1 ensures w'.pending[k] != c {
        assert w.pending[k + 1] != c;
      }
    }
    if Effective(w', i - 1) {
      forall k | 0 <= k < i ensures w.pending[k] != c {
        if k == 0 {
          assert c.name in Table(w'.ctx, c.pvariant);
        } else {
          assert w'.pending[k - 1] != c;
        }
      }
    }
  }

  /** The same for a clash. */
  lemma ClashBehind(w: World, i: nat, j: nat)
    requires Inv(w) && 0 < i < j < |w.pending| && !HeadFatal(w)
    ensures Confirmed(w).pending == w.pending[1..]
    ensures Clash(w, i, j) <==> Clash(Confirmed(w), i - 1, j - 1)
  {
    hide Confirmed, Inv, AfterAll, ServerAfter, Effective;
    ConfirmedPending(w);
    EffectiveBehind(w, i);
    AfterHead(w.server, w.pending, i + 1);
    assert Confirmed(w).pending[i - 1] == w.pending[i] && Confirmed(w).pending[j - 1] == w.pending[j];
  }

  lemma SensibleRest(w: World)
    requires Inv(w) && w.pending != []
    ensures if HeadFatal(w) then !Sensible(w) else (Sensible(w) <==> Sensible(Confirmed(w)))
  {
    hide Confirmed, Inv;
    ConfirmedPending(w);
    var w' := Confirmed(w);
    if HeadFatal(w) {
      assert !w.pending[0].Confirm?;
    } else {
      TableAfter(w);
      if Sensible(w') {
        forall i | |w.ctx.replies| <= i < |w.pending| ensures w.pending[i].Confirm? {
          if i > 0 { assert w'.pending[i - 1].Confirm?; }
        }
      }
      if Sensible(w) {
        forall i | |w'.ctx.replies| <= i < |w'.pending| ensures w'.pending[i].Confirm? {
          assert w.pending[i + 1].Confirm?;
        }
      }
    }
  }

  lemma SafeRest(w: World)
    requires Inv(w) && w.pending != []
    ensures Safe(w) <==> !HeadFatal(w) && !HeadClash(w) && Safe(Confirmed(w))
  {
    hide Confirmed, Inv, Clash, Sensible;
    var w' := Confirmed(w);
    ConfirmedPending(w);
    SensibleRest(w);
    if !HeadFatal(w) {
      forall i, j | 0 < i < j < |w.pending| ensures Clash(w, i, j) <==> Clash(w', i - 1, j - 1) {
        ClashBehind(w, i, j);
      }
      if !HeadClash(w) && Safe(w') {
        forall i, j | 0 <= i < j < |w.pending| ensures !Clash(w, i, j) {
          if i == 0 {
            assert !HeadClash(w);
          } else {
            assert !Clash(w', i - 1, j - 1);
          }
        }
      }
      if Safe(w) {
        forall i, j | 0 <= i < j < |w'.pending| ensures !Clash(w', i, j) {
          assert !Clash(w, i + 1, j + 1);
        }
      }
    }
  }

  // ------------------------------------------------------------ what a clash does

  /** The name is in no table and not the server's, but it is awaited. */
  ghost predicate Lost(w: World, p: bool, n: bytes) {
    && Idle(w.ctx) && w.ctx.replies == [] && n !in Table(w.ctx, p) && n !in w.server.Of(p)
    && forall q: bool, m | m in Table(w.ctx, q) :: Table(w.ctx, q)[m] == SUB
  }

  /** It stays lost until its confirmation is there, which only the server notes. */
  lemma LostStep(w: World, p: bool, n: bytes)
    requires Lost(w, p, n) && w.pending != [] && w.pending[0].Confirm? && w.sub == w.server
    ensures var w' := Confirmed(w);
            || w'.ctx.phase != Alive || w'.sub != w'.server
            || (w.pending[0] != Confirm(true, p, n) && Lost(w', p, n))
  {
    hide Confirmed, Traced, ConfirmReply, Forgotten, Idle, Table;
    var c := w.pending[0];
    var server := ServerAfter(w.server, c);
    var reply := OwedReply(c, server);
    ConfirmEffect(w);
    if w.ctx.flags.subscribed {
      if c.name !in Table(w.ctx, c.pvariant) {
        TracedTables(w.ctx, Kept, NO_CALLBACK, reply);
      } else if c.subscribe {
        TracedTables(w.ctx, FromTable(c.pvariant, c.name), SUB, reply);
      } else {
        ForgetIdle(w.ctx, c, server);
        TablesShrink(w.ctx, c, server, p, n);
        TracedTables(Forgotten(w.ctx, c, server), FromTable(c.pvariant, c.name), SUB, reply);
      }
    }
  }

  lemma TracedTables(c: Ctx, source: Source, cb: Callback, reply: Reply)
    requires Idle(c)
    ensures var d := Traced(c, source, cb, reply);
            Idle(d) && d.replies == c.replies && forall q: bool :: Table(d, q) == Table(c, q)
  {
    TracedIdle(c, source, cb, reply);
  }

  lemma ForgetIdle(c: Ctx, d: Owed, server: Sets)
    requires Idle(c) && d.Confirm?
    ensures Idle(Forgotten(c, d, server)) && Forgotten(c, d, server).replies == c.replies
  {
    ForgetAlive(c, d, server);
  }

  /** A subscription of a name that is in no table goes to no callback when it is confirmed. */
  lemma {:induction false} LostName(w: World, p: bool, n: bytes, j: nat)
    requires Lost(w, p, n) && j < |w.pending| && w.pending[j] == Confirm(true, p, n)
    ensures !Follows(w)
    decreases j
  {
    hide Confirmed, Table, Idle;
    var w' := Confirmed(w);
    ConfirmedPending(w);
    if !w.pending[0].Confirm? {
      FatalHead(w);
    } else if w.sub == w.server {
      LostStep(w, p, n);
      if w'.ctx.phase != Alive || w'.sub != w'.server {
        assert !Follows(w');
      } else {
        LostName(w', p, n, j - 1);
      }
    }
  }

  /** An error nobody waits for, or a confirmation without a name, ends everything. */
  lemma FatalHead(w: World)
    requires Idle(w.ctx) && w.pending != [] && HeadFatal(w)
    ensures !Follows(w)
  {
    hide Confirmed, Idle;
    if w.pending[0] == Refusal { RefusalEnds(w); } else { NothingEnds(w); }
    ConfirmedPending(w);
    assert !Follows(Confirmed(w));
  }

  /** No confirmation brings an entry back. */
  lemma TablesShrink(c: Ctx, d: Owed, server: Sets, p: bool, n: bytes)
    requires Idle(c) && d.Confirm? && n !in Table(c, p)
    requires forall q: bool, m | m in Table(c, q) :: Table(c, q)[m] == SUB
    ensures n !in Table(Forgotten(c, d, server), p)
    ensures var f := Forgotten(c, d, server); forall q: bool, m | m in Table(f, q) :: Table(f, q)[m] == SUB
  {
    ForgetAlive(c, d, server);
  }

  lemma HeadClashFails(w: World)
    requires Inv(w) && w.pending != [] && HeadClash(w)
    ensures !Follows(w) && !HeadFatal(w)
  {
    hide Confirmed, Traced, ConfirmReply, Forgotten, Idle, Awaiting;
    var j :| 0 < j < |w.pending| && Clash(w, 0, j);
    var c := w.pending[0];
    var server := ServerAfter(w.server, c);
    var w' := Confirmed(w);
    HeadWaitsAlone(w);
    assert TableInv(w, c.pvariant) && TableInv(w, !c.pvariant);
    ConfirmedPending(w);
    ConfirmEffect(w);
    OneConfirm(w);
    ForgetAlive(w.ctx, c, server);
    TablesShrinkAll(w.ctx, c, server);
    TracedIdle(Forgotten(w.ctx, c, server), FromTable(c.pvariant, c.name), SUB, OwedReply(c, server));
    if !NoNames(server) {
      LostName(w', c.pvariant, c.name, j - 1);
    } else if w'.pending[0].Confirm? {
      ConfirmedPending(w');
      ConfirmEffect(w');
      assert !Follows(Confirmed(w'));
      assert !Follows(w');
    } else {
      FatalHead(w');
    }
  }

  lemma TablesShrinkAll(c: Ctx, d: Owed, server: Sets)
    requires Idle(c) && d.Confirm? && forall q: bool, m | m in Table(c, q) :: Table(c, q)[m] == SUB
    ensures var f := Forgotten(c, d, server);
            d.name !in Table(f, d.pvariant) && forall q: bool, m | m in Table(f, q) :: Table(f, q)[m] == SUB
  {
    ForgetAlive(c, d, server);
  }

  /** The exact condition: if what is due arrives, the context stays alive and the sets equal, step by
      step, if and only if every command was sensible and no unconfirmed unsubscription clashes with
      what was sent after it. */
  lemma {:induction false} SafeIsExact(w: World)
    requires Inv(w)
    ensures Safe(w) <==> Follows(w)
    decreases |w.pending|
  {
    hide Confirmed, HeadClash, Clash, Awaiting;
    if w.pending != [] {
      ConfirmedPending(w);
      SafeRest(w);
      if HeadFatal(w) {
        FatalHead(w);
      } else if HeadClash(w) {
        HeadClashFails(w);
      } else {
        ConfirmInv(w);
        SafeIsExact(Confirmed(w));
      }
    }
  }

  // ----------------------------------------------------------------------- runs

  /** The invariant and the discipline are about flags, tables and the queue, not about the trace. */
  lemma TraceApart(w: World, c: Ctx)
    requires Inv(w) && Idle(c) && c.tables == w.ctx.tables && c.replies == w.ctx.replies
    requires c.flags.subscribed == w.ctx.flags.subscribed
    ensures var w' := w.(ctx := c); Inv(w') && (Safe(w) ==> Safe(w'))
  {
    hide AfterAll, Awaiting;
    var w' := w.(ctx := c);
    assert TableInv(w, false) && TableInv(w, true);
    assert TableInv(w', false) && TableInv(w', true);
    if Safe(w) {
      assert Sensible(w');
      forall i, j | 0 <= i < j < |w.pending| ensures !Clash(w', i, j) {
        assert !Clash(w, i, j);
        assert Effective(w', i) <==> Effective(w, i);
      }
    }
  }

  /** Messages arrive only when no queued callback waits. */
  lemma NamesWaitAlone(w: World, pvariant: bool, name: bytes)
    requires QueueFirst(w) && name in w.server.Of(pvariant)
    ensures w.ctx.replies == []
  {
  }

  lemma PublishInv(w: World, pvariant: bool, name: bytes, channel: bytes, payload: bytes)
    requires Inv(w) && name in w.server.Of(pvariant)
    ensures var reply := Array(PublishReply(pvariant, name, channel, payload));
            var w' := Receive(w, reply);
            && w' == w.(ctx := Traced(w.ctx, FromTable(pvariant, name), SUB, reply))
            && Inv(w') && (Safe(w) ==> Safe(w'))
  {
    hide Awaiting, Traced, Noted, Receive, Safe;
    var es := PublishReply(pvariant, name, channel, payload);
    assert TableInv(w, pvariant);
    NamesWaitAlone(w, pvariant, name);
    PublishRouted(w.ctx, pvariant, name, es, NO_CALLBACK);
    PublishNoted(pvariant, name, channel, payload, w.sub);
    Received(w, Array(es), Routed(w.ctx, FromTable(pvariant, name), SUB));
    TracedIdle(w.ctx, FromTable(pvariant, name), SUB, Array(es));
    TraceApart(w, Traced(w.ctx, FromTable(pvariant, name), SUB, Array(es)));
  }

  lemma PublishRouted(c: Ctx, pvariant: bool, name: bytes, es: seq<Reply>, cb: Callback)
    requires Idle(c) && c.replies == [] && c.flags.subscribed && name in Table(c, pvariant) && |es| >= 3
    requires es[0] == Str(if pvariant then PMESSAGE else MESSAGE) && es[1] == Str(name)
    ensures Route(c, Array(es), cb) == Routed(c, FromTable(pvariant, name), Table(c, pvariant)[name])
  {
    var kind := if pvariant then PMESSAGE else MESSAGE;
    assert pvariant ==> kind[1..] == MESSAGE;
    assert LowerAll(MESSAGE)[0] == 109 && UNSUBSCRIBE[0] == 117;
    RoutedToEntry(c, pvariant, kind, name, es, cb);
  }

  /** Every move from a world that is safe keeps the invariant; only sending can make it unsafe. */
  lemma NextInv(w: World, m: Move)
    requires Inv(w) && Safe(w)
    ensures Inv(Next(w, m)) && (!m.Send? ==> Safe(Next(w, m)))
  {
    hide Inv, Safe, HeadClash, Confirmed, Receive, AfterSend;
    match m {
      case Send(s, p, names, order) => SendInv(w, s, p, names, order);
      case Confirmation =>
        if w.pending != [] {
          SafeRest(w);
          ConfirmInv(w);
        }
      case Publish(p, name, channel, payload) =>
        if name in w.server.Of(p) {
          PublishInv(w, p, name, channel, payload);
        }
    }
  }

  /** The program sends only what leaves it safe. */
  ghost predicate Disciplined(w: World, moves: seq<Move>)
    decreases |moves|
  {
    Safe(w) && (moves != [] ==> Disciplined(Next(w, moves[0]), moves[1..]))
  }

  /** At every point of the run, what is due could arrive now without harm. */
  ghost predicate FollowsThroughout(w: World, moves: seq<Move>)
    decreases |moves|
  {
    Follows(w) && (moves != [] ==> FollowsThroughout(Next(w, moves[0]), moves[1..]))
  }

  lemma {:induction false} ExactFrom(w: World, moves: seq<Move>)
    requires Inv(w)
    ensures Disciplined(w, moves) <==> FollowsThroughout(w, moves)
    ensures Disciplined(w, moves) ==> Inv(NextAll(w, moves)) && Safe(NextAll(w, moves))
    decreases |moves|
  {
    hide Inv, Safe, Follows, Next;
    SafeIsExact(w);
    if moves != [] && Safe(w) {
      NextInv(w, moves[0]);
      ExactFrom(Next(w, moves[0]), moves[1..]);
    }
  }

  lemma StartInv()
    ensures Inv(Start)
  {
    NothingAwaited(false);
    NothingAwaited(true);
    assert TableInv(Start, false) && TableInv(Start, true);
  }

  /** The discipline is exact: over all runs, a program keeps to it if and only if the context
      stays alive and the sets stay equal at every point, whenever the confirmations arrive. */
  lemma {:induction false} DisciplineExact(moves: seq<Move>)
    ensures Disciplined(Start, moves) <==> FollowsThroughout(Start, moves)
  {
    hide Inv;
    StartInv();
    ExactFrom(Start, moves);
  }

  /** The subscriber's sets agree with the tables in every disciplined run: they are the server's
      sets, they are the registered names less those awaiting their first confirmation, and
      SUBSCRIBED is set exactly while a table has an entry. */
  lemma {:induction false} SetsAgree(moves: seq<Move>)
    requires Disciplined(Start, moves)
    ensures var w := NextAll(Start, moves);
            && w.ctx.phase == Alive
            && w.sub == w.server
            && w.sub.channels == w.ctx.tables.channels.Keys - (Awaiting(w.pending, false) - w.server.channels)
            && w.sub.patterns == w.ctx.tables.patterns.Keys - (Awaiting(w.pending, true) - w.server.patterns)
            && (w.ctx.flags.subscribed <==> w.ctx.tables.channels != map[] || w.ctx.tables.patterns != map[])
  {
    hide Disciplined, NextAll, Awaiting;
    StartInv();
    ExactFrom(Start, moves);
    var w := NextAll(Start, moves);
    assert TableInv(w, false) && TableInv(w, true);
  }

  // --------------------------------------------------------------- failing runs

  lemma OneMove(w: World, m: Move, moves: seq<Move>)
    ensures NextAll(w, [m] + moves) == NextAll(Next(w, m), moves)
  {
    assert ([m] + moves)[1..] == moves;
  }

  /** After a run of one name that was subscribed and is unconfirmed as unsubscribed, what is sent
      next waits behind it. */
  lemma Resubscribed(a: bytes, b: bytes)
    ensures var w1 := Next(Start, Send(true, false, [a], []));
            var w2 := Next(w1, Confirmation);
            var w3 := Next(w2, Send(false, false, [a], []));
            var w4 := Next(w3, Send(true, false, [b], []));
            && Inv(w4) && w4.server == Sets({a}, {})
            && w4.pending == [Confirm(false, false, a), Confirm(true, false, b)]
            && a in Table(w4.ctx, false) && w4.ctx.replies == []
  {
    hide Confirmed, AsyncCommand, Awaiting;
    StartInv();
    var w1 := AfterSend(Start, true, false, [a], []);
    SendInv(Start, true, false, [a], []);
    assert w1.pending == [Confirm(true, false, a)];
    var w2 := Confirmed(w1);
    SubscribeConfirmed(w1);
    ConfirmedPending(w1);
    assert w2.server == Sets({a}, {}) && w2.pending == [];
    assert a in Table(w2.ctx, false) by { assert TableInv(w2, false); }
    var w3 := AfterSend(w2, false, false, [a], []);
    SendInv(w2, false, false, [a], []);
    assert w2.ctx.flags.subscribed && w3.pending == [Confirm(false, false, a)];
    SendInv(w3, true, false, [b], []);
    var w4 := AfterSend(w3, true, false, [b], []);
    assert w4.pending == [Confirm(false, false, a), Confirm(true, false, b)];
    SentServer(w3, true, false, [b]);
    SentServer(w2, false, false, [a]);
    assert a in Table(w4.ctx, false) by { assert TableInv(w4, false); }
    HeadWaitsAlone(w4);
  }

  lemma SentServer(w: World, subscribe: bool, pvariant: bool, names: seq<bytes>)
    ensures AfterSend(w, subscribe, pvariant, names, []).server == w.server
  {
  }

  /** The discipline is broken within four moves of a new context: the last name is unsubscribed and
      another, or the same one, subscribed before the confirmation is there. The next two
      confirmations end the run in a failed assert. */
  lemma {:induction false} FailingRun(a: bytes, b: bytes)
    ensures var sent := [Send(true, false, [a], []), Confirmation, Send(false, false, [a], []),
                         Send(true, false, [b], [])];
            && !Safe(NextAll(Start, sent))
            && NextAll(NextAll(Start, sent), [Confirmation, Confirmation]).ctx.phase == Aborted
  {
    hide Confirmed, AsyncCommand, Awaiting, Traced, ConfirmReply, Inv, AfterSend, Safe;
    var m1, m3, m4 := Send(true, false, [a], []), Send(false, false, [a], []), Send(true, false, [b], []);
    var w4 := Next(Next(Next(Next(Start, m1), Confirmation), m3), m4);
    Resubscribed(a, b);
    Unrolled(m1, m3, m4);
    TwoUnsafe(w4, a, b);
    TwoConfirms(w4);
    assert NextAll(w4, [Confirmation, Confirmation]) == Next(Next(w4, Confirmation), Confirmation);
    UnsubscribedLast(w4, a, b);
  }

  lemma Unrolled(m1: Move, m3: Move, m4: Move)
    ensures NextAll(Start, [m1, Confirmation, m3, m4]) == Next(Next(Next(Next(Start, m1), Confirmation), m3), m4)
  {
    hide Next;
    OneMove(Start, m1, [Confirmation, m3, m4]);
    OneMove(Next(Start, m1), Confirmation, [m3, m4]);
    OneMove(Next(Next(Start, m1), Confirmation), m3, [m4]);
    OneMove(Next(Next(Next(Start, m1), Confirmation), m3), m4, []);
    assert [m1] + [Confirmation, m3, m4] == [m1, Confirmation, m3, m4];
    assert [Confirmation] + [m3, m4] == [Confirmation, m3, m4] && [m3] + [m4] == [m3, m4] && [m4] + [] == [m4];
  }

  lemma TwoConfirms(w: World)
    ensures NextAll(w, [Confirmation, Confirmation]) == Next(Next(w, Confirmation), Confirmation)
  {
    hide Next;
    OneMove(w, Confirmation, [Confirmation]);
    OneMove(Next(w, Confirmation), Confirmation, []);
    assert [Confirmation] + [Confirmation] == [Confirmation, Confirmation] && [Confirmation] + [] == [Confirmation];
  }

  lemma TwoUnsafe(w: World, a: bytes, b: bytes)
    requires w.server == Sets({a}, {}) && w.pending == [Confirm(false, false, a), Confirm(true, false, b)]
    requires a in Table(w.ctx, false)
    ensures !Safe(w)
  {
    OneConfirm(w);
    assert Clash(w, 0, 1);
  }

  lemma UnsubscribedLast(w: World, a: bytes, b: bytes)
    requires Inv(w) && w.server == Sets({a}, {}) && w.pending == [Confirm(false, false, a), Confirm(true, false, b)]
    requires a in Table(w.ctx, false) && w.ctx.replies == []
    ensures Next(Next(w, Confirmation), Confirmation).ctx.phase == Aborted
  {
    hide Confirmed, Traced, ConfirmReply, Forgotten, Awaiting;
    var c := w.pending[0];
    var server := ServerAfter(w.server, c);
    var w' := Confirmed(w);
    ConfirmedPending(w);
    ConfirmEffect(w);
    ForgetAlive(w.ctx, c, server);
    TracedIdle(Forgotten(w.ctx, c, server), FromTable(false, a), SUB, OwedReply(c, server));
    TablesShrinkAll(w.ctx, c, server);
    assert NoNames(server);
    ConfirmEffect(w');
  }

  /** So it is with a command without names while subscribed: the next reply after a subscription of
      one name disconnects the context, and after an unsubscription from no name it fails the assert. */
  lemma {:induction false} NamelessRun(a: bytes, subscribe: bool)
    ensures var sent := [Send(true, false, [a], []), Confirmation, Send(subscribe, true, [], [])];
            && !Safe(NextAll(Start, sent))
            && NextAll(NextAll(Start, sent), [Confirmation]).ctx.phase == if subscribe then Freed else Aborted
  {
    hide Next, Safe, Inv;
    var m1, m3 := Send(true, false, [a], []), Send(subscribe, true, [], []);
    OneMove(Start, m1, [Confirmation, m3]);
    OneMove(Next(Start, m1), Confirmation, [m3]);
    OneMove(Next(Next(Start, m1), Confirmation), m3, []);
    assert [m1] + [Confirmation, m3] == [m1, Confirmation, m3] && [Confirmation] + [m3] == [Confirmation, m3];
    assert [m3] + [] == [m3] && [Confirmation] + [] == [Confirmation];
    Nameless(a, subscribe);
    OneMove(Next(Next(Next(Start, m1), Confirmation), m3), Confirmation, []);
  }

  lemma Nameless(a: bytes, subscribe: bool)
    ensures var w2 := Next(Next(Start, Send(true, false, [a], [])), Confirmation);
            var w3 := Next(w2, Send(subscribe, true, [], []));
            !Safe(w3) && Next(w3, Confirmation).ctx.phase == if subscribe then Freed else Aborted
  {
    hide Confirmed, AsyncCommand, Awaiting;
    StartInv();
    var w1 := AfterSend(Start, true, false, [a], []);
    SendInv(Start, true, false, [a], []);
    assert w1.pending == [Confirm(true, false, a)];
    var w2 := Confirmed(w1);
    SubscribeConfirmed(w1);
    ConfirmedPending(w1);
    assert w2.server == Sets({a}, {}) && w2.pending == [];
    assert a in Table(w2.ctx, false) by { assert TableInv(w2, false); }
    var w3 := AfterSend(w2, subscribe, true, [], []);
    SendInv(w2, subscribe, true, [], []);
    SendEffect(w2.ctx, subscribe, true, []);
    assert w3.pending == [if subscribe then Refusal else Nothing(true)] && w3.ctx.replies == [];
    assert !w3.pending[0].Confirm?;
    if subscribe { RefusalEnds(w3); } else { NothingEnds(w3); }
  }
}
