/** The asynchronous context: its callback queues, flags, subscription tables and output
    buffer, and what every entry point does to them. The class in AsyncContext.dfy is proved
    against these functions. */
module Async {
  import opened Bytes
  import opened Resp
  import opened ReaderMachine
  import opened Format

  /** redisCallback; `hasFn` is false for a NULL function. */
  datatype Callback = Callback(hasFn: bool, privdata: int)

  const NO_CALLBACK := Callback(false, 0)

  /** What a callback may do with the context it is given. */
  datatype Action = Issue(args: seq<bytes>, cb: Callback) | Disconnect | Free

  /** Every key of the table once. */
  ghost predicate Lists(names: seq<bytes>, table: map<bytes, Callback>) {
    Distinct(names) && forall n :: n in names <==> n in table
  }

  ghost predicate ListsAll(order: map<bytes, Callback> -> seq<bytes>) {
    forall table :: Lists(order(table), table)
  }

  ghost function AnyOrder(table: map<bytes, Callback>): (names: seq<bytes>)
    ensures Lists(names, table)
    decreases |table|
  {
    if table == map[] then []
    else
      var n :| n in table;
      var rest := AnyOrder(table - {n});
      [n] + rest
  }

  /** The order in which a table's iterator visits the entries. */
  type Order = order: map<bytes, Callback> -> seq<bytes> | ListsAll(order) ghost witness AnyOrder

  /** What the context does not decide: the calls that the n-th callback run makes, and the order of
      the tables' iterators. Every behaviour of the callbacks in a run is some function `run`,
      however they decide. */
  datatype Program = Program(run: nat -> seq<Action>, order: Order)

  datatype Sent = Sent(args: seq<bytes>, cb: Callback)

  /** A callback taken off a queue, and the reply it was taken off for; None is a NULL reply. */
  datatype Delivery = Delivery(cb: Callback, reply: Option<Reply>)

  /** Where the callback of a run came from: the head of a queue, a table's entry, or the variable
      that was left from an earlier reply. */
  datatype Source = FromReplies | FromInvalid | FromTable(pvariant: bool, name: bytes) | Kept

  /** The callback found for a reply; it may have no function. */
  datatype Finding = Finding(source: Source, cb: Callback, reply: Reply)

  /** A callback's function was called with this reply. */
  datatype Invocation = Invocation(source: Source, cb: Callback, reply: Option<Reply>)

  /** What went through the queue of commands sent while subscribed. */
  datatype Account = Account(pushed: seq<Callback>, taken: seq<Delivery>)

  /** `Aborted` is a failed assert. */
  datatype Phase = Alive | Freed | Aborted

  /** What happened so far. */
  datatype History = History(
    calls: seq<Invocation>,      // calls of callback functions
    found: seq<Finding>,         // the callback found for each reply that was read
    accepted: seq<Callback>,     // pushes on the reply queue
    delivered: seq<Delivery>,    // shifts from it
    aside: Account,              // pushes on and shifts from the invalid queue
    sent: seq<Sent>,             // commands put in the output buffer
    written: bytes,              // bytes taken by the socket
    frees: nat                   // times the context was freed
  )

  /** The flag bits: REDIS_DISCONNECTING, REDIS_FREEING, REDIS_IN_CALLBACK, REDIS_SUBSCRIBED and
      REDIS_MONITORING. */
  datatype Flags = Flags(disconnecting: bool, freeing: bool, inCallback: bool, subscribed: bool, monitoring: bool)

  /** The subscription tables, name to callback. */
  datatype Tables = Tables(channels: map<bytes, Callback>, patterns: map<bytes, Callback>)

  datatype Ctx = Ctx(
    phase: Phase, failed: bool, flags: Flags,
    replies: seq<Callback>, invalid: seq<Callback>, tables: Tables,
    obuf: bytes, reader: State, log: History)

  const Init := Ctx(Alive, false, Flags(false, false, false, false, false), [], [], Tables(map[], map[]), [],
                    Live(Fresh([])), History([], [], [], [], Account([], []), [], [], 0))

  /** New commands are refused. */
  predicate Closing(c: Ctx) {
    c.flags.disconnecting || c.flags.freeing
  }

  // ------------------------------------------------------------ issuing a command

  const SUBSCRIBE: bytes := [115, 117, 98, 115, 99, 114, 105, 98, 101]
  const UNSUBSCRIBE: bytes := [117, 110, 115, 117, 98, 115, 99, 114, 105, 98, 101]
  const MONITOR: bytes := [109, 111, 110, 105, 116, 111, 114]
  const LETTER_P: byte := 112

  function Lower(c: byte): byte {
    if 65 <= c <= 90 then c + 32 else c
  }

  function LowerAll(s: bytes): bytes {
    seq(|s|, i requires 0 <= i < |s| => Lower(s[i]))
  }

  /** strncasecmp of s with the whole of a lower-case literal. */
  predicate StartsWith(s: bytes, literal: bytes) {
    |literal| <= |s| && LowerAll(s[..|literal|]) == literal
  }

  datatype Verb = Subscribe | Unsubscribe | Monitor | Regular

  /** The comparisons of __redisAsyncCommand on the text that starts at the command name. */
  function VerbOf(text: bytes, hasnext: bool): Verb {
    if hasnext && StartsWith(text, SUBSCRIBE + CRLF) then Subscribe
    else if StartsWith(text, UNSUBSCRIBE + CRLF) then Unsubscribe
    else if StartsWith(text, MONITOR + CRLF) then Monitor
    else Regular
  }

  /** What __redisAsyncCommand finds out about a command: the variant of the name, the verb,
      and the arguments after the name. None when the first assert fails. */
  datatype Parsed = Parsed(pvariant: bool, verb: Verb, names: seq<bytes>)

  function Parse(cmd: bytes): Option<Parsed> {
    match NextArgument(cmd)
    case Argument(name, p) => Some(ParseText(cmd[|cmd| - |p| - 2 - |name|..], p))
    case _ => None
  }

  /** The text from the command name on, and from the argument after it on. */
  function ParseText(text: bytes, p: bytes): Parsed
    requires text != []
  {
    var pvariant := PVariant(text);
    Parsed(pvariant, VerbOf(if pvariant then text[1..] else text, p != [] && p[0] == DOLLAR), Arguments(p))
  }

  predicate PVariant(name: bytes) {
    name != [] && Lower(name[0]) == LETTER_P
  }

  /** Matching a literal line against a word that ends its own line is comparing the words. */
  lemma StartsWithLine(word: bytes, tail: bytes, literal: bytes)
    requires CR !in word && CR !in literal
    ensures StartsWith(word + CRLF + tail, literal + CRLF) <==> LowerAll(word) == literal
  {
    var s, n := word + CRLF + tail, |literal|;
    if StartsWith(s, literal + CRLF) {
      var low := LowerAll(s[..n + 2]);
      assert low[n] == CR && forall i | 0 <= i < n :: low[i] == literal[i] != CR;
      assert s[n] == CR && forall i | 0 <= i < |word| :: s[i] == word[i] != CR;
      assert s[|word|] == CR && forall i | 0 <= i < n :: low[i] == Lower(s[i]) != CR;
      assert s[..n] == word;
    }
    if LowerAll(word) == literal {
      assert |word| == n && s[..n + 2] == word + CRLF;
      assert LowerAll(s[..n + 2]) == literal + CRLF;
    }
  }

  /** The verb of a command whose name is a plain word. */
  function WordVerb(word: bytes, hasnext: bool): Verb {
    if hasnext && LowerAll(word) == SUBSCRIBE then Subscribe
    else if LowerAll(word) == UNSUBSCRIBE then Unsubscribe
    else if LowerAll(word) == MONITOR then Monitor
    else Regular
  }

  lemma VerbOfLine(word: bytes, tail: bytes, hasnext: bool)
    requires CR !in word
    ensures VerbOf(word + CRLF + tail, hasnext) == WordVerb(word, hasnext)
  {
    StartsWithLine(word, tail, SUBSCRIBE);
    StartsWithLine(word, tail, UNSUBSCRIBE);
    StartsWithLine(word, tail, MONITOR);
  }

  lemma HeaderFirst(args: seq<bytes>, rest: bytes)
    requires args != [] && rest == Bulks(args[1..]) + [NUL]
    ensures Command(args) + [NUL] ==
            Line(STAR, Decimal(|args|)) + Line(DOLLAR, Decimal(|args[0]|)) + (args[0] + CRLF + rest)
  {
    hide Decimal;
    assert Bulks(args) == Bulk(args[0]) + Bulks(args[1..]);
  }

  lemma NameOfCommand(args: seq<bytes>)
    requires args != []
    ensures var rest := Bulks(args[1..]) + [NUL];
            var cmd := Command(args) + [NUL];
            && NextArgument(cmd) == Argument(args[0], rest)
            && |cmd| - |rest| - 2 - |args[0]| >= 0
            && cmd[|cmd| - |rest| - 2 - |args[0]|..] == args[0] + CRLF + rest
  {
    hide NextArgument, Decimal;
    var rest := Bulks(args[1..]) + [NUL];
    var header := Line(STAR, Decimal(|args|)) + Line(DOLLAR, Decimal(|args[0]|));
    assert Command(args) + [NUL] == Line(STAR, Decimal(|args|)) + (Bulk(args[0]) + rest);
    HeaderFirst(args, rest);
    NextArgumentFirst(|args|, args[0], rest);
    NextArgumentBulk(args[0], rest);
  }

  lemma ParseLine(name: bytes, rest: bytes)
    requires CR !in name && rest != []
    ensures ParseText(name + CRLF + rest, rest) ==
            Parsed(PVariant(name), WordVerb(if PVariant(name) then name[1..] else name, rest[0] == DOLLAR),
                   Arguments(rest))
  {
    var text := name + CRLF + rest;
    if name != [] {
      assert text[0] == name[0];
      assert text[1..] == name[1..] + CRLF + rest;
      assert CR !in name[1..] by { assert forall x | x in name[1..] :: x in name; }
      VerbOfLine(name[1..], rest, rest[0] == DOLLAR);
    }
    VerbOfLine(name, rest, rest[0] == DOLLAR);
  }

  lemma ParseSplit(cmd: bytes, name: bytes, p: bytes, text: bytes)
    requires NextArgument(cmd) == Argument(name, p)
    requires |cmd| - |p| - 2 - |name| >= 0 && cmd[|cmd| - |p| - 2 - |name|..] == text
    ensures Parse(cmd) == Some(ParseText(text, p))
  {
  }

  lemma BulksStart(args: seq<bytes>)
    ensures (Bulks(args) + [NUL])[0] == DOLLAR <==> args != []
  {
  }

  /** What __redisAsyncCommand reads out of a formatted command: the verb comes from the first
      argument, whatever its case, and the names are the other arguments, whatever they hold. */
  lemma ParseOfCommand(args: seq<bytes>)
    requires args != [] && CR !in args[0]
    ensures var name := args[0];
            Parse(Command(args) + [NUL]) ==
              Some(Parsed(PVariant(name), WordVerb(if PVariant(name) then name[1..] else name, |args| > 1), args[1..]))
  {
    var rest := Bulks(args[1..]) + [NUL];
    NameOfCommand(args);
    ParseSplit(Command(args) + [NUL], args[0], rest, args[0] + CRLF + rest);
    ParseLine(args[0], rest);
    ArgumentsBulks(args[1..]);
    BulksStart(args[1..]);
  }

  function Register(table: map<bytes, Callback>, names: seq<bytes>, cb: Callback): map<bytes, Callback>
    decreases |names|
  {
    if names == [] then table else Register(table[names[0] := cb], names[1..], cb)
  }

  function Push(c: Ctx, cb: Callback): Ctx {
    c.(replies := c.replies + [cb], log := c.log.(accepted := c.log.accepted + [cb]))
  }

  function PushInvalid(c: Ctx, cb: Callback): Ctx {
    c.(invalid := c.invalid + [cb],
       log := c.log.(aside := c.log.aside.(pushed := c.log.aside.pushed + [cb])))
  }

  function Append(c: Ctx, args: seq<bytes>, cb: Callback): Ctx {
    c.(obuf := c.obuf + Command(args), log := c.log.(sent := c.log.sent + [Sent(args, cb)]))
  }

  function AddSubscriptions(t: Tables, pvariant: bool, names: seq<bytes>, cb: Callback): Tables {
    if pvariant then t.(patterns := Register(t.patterns, names, cb))
    else t.(channels := Register(t.channels, names, cb))
  }

  /** Where __redisAsyncCommand keeps the callback of an accepted command. */
  function Record(c: Ctx, parsed: Parsed, cb: Callback): Ctx {
    match parsed.verb
    case Subscribe =>
      c.(flags := c.flags.(subscribed := true),
         tables := AddSubscriptions(c.tables, parsed.pvariant, parsed.names, cb))
    case Unsubscribe => c
    case Monitor => Push(c.(flags := c.flags.(monitoring := true)), cb)
    case Regular => if c.flags.subscribed then PushInvalid(c, cb) else Push(c, cb)
  }

  /** __redisAsyncCommand once the command is parsed. */
  function Accept(c: Ctx, parsed: Option<Parsed>, args: seq<bytes>, cb: Callback): Ctx {
    if parsed.None? then c.(phase := Aborted)
    else if parsed.value.verb == Unsubscribe && !c.flags.subscribed then c
    else Append(Record(c, parsed.value, cb), args, cb)
  }

  /** __redisAsyncCommand. */
  function AsyncCommand(c: Ctx, args: seq<bytes>, cb: Callback): Ctx {
    if Closing(c) then c else Accept(c, Parse(Command(args) + [NUL]), args, cb)
  }

  // ------------------------------------------------------------ running callbacks

  /** One call made by a callback. IN_CALLBACK is set, so redisAsyncDisconnect and
      redisAsyncFree only leave their flag. */
  function Act(c: Ctx, a: Action): Ctx {
    match a
    case Issue(args, cb) => AsyncCommand(c, args, cb)
    case Disconnect => c.(flags := c.flags.(disconnecting := true))
    case Free => c.(flags := c.flags.(freeing := true))
  }

  function Perform(c: Ctx, actions: seq<Action>): Ctx
    decreases |actions|
  {
    if actions == [] || c.phase != Alive then c else Perform(Act(c, actions[0]), actions[1..])
  }

  /** The call that a callback leads to; none without a function. */
  function Told(source: Source, cb: Callback, reply: Option<Reply>): seq<Invocation> {
    if cb.hasFn then [Invocation(source, cb, reply)] else []
  }

  function Enter(c: Ctx, call: Invocation): Ctx {
    c.(flags := c.flags.(inCallback := true), log := c.log.(calls := c.log.calls + [call]))
  }

  function Leave(c: Ctx): Ctx {
    c.(flags := c.flags.(inCallback := false))
  }

  /** __redisRunCallback: the function, if there is one, is called with the reply. */
  function RunCallback(c: Ctx, source: Source, cb: Callback, reply: Option<Reply>, program: Program): Ctx {
    if cb.hasFn then
      Leave(Perform(Enter(c, Invocation(source, cb, reply)), program.run(|c.log.calls|)))
    else c
  }

  /** Nothing a callback does changes more than the flags, apart from the calls listed. */
  ghost predicate OnlyCalls(c: Ctx, d: Ctx, calls: seq<Invocation>) {
    && d == c.(flags := d.flags, log := c.log.(calls := c.log.calls + calls))
    && d.flags.subscribed == c.flags.subscribed && d.flags.monitoring == c.flags.monitoring
  }

  lemma {:induction false} PerformClosing(c: Ctx, actions: seq<Action>)
    requires Closing(c)
    ensures Closing(Perform(c, actions)) && OnlyCalls(c, Perform(c, actions), [])
    ensures c.flags.freeing ==> Perform(c, actions).flags.freeing
    decreases |actions|
  {
    assert c.log.calls + [] == c.log.calls;
    if actions != [] && c.phase == Alive {
      PerformClosing(Act(c, actions[0]), actions[1..]);
    }
  }

  /** While the context is closing, a callback is called as ever, but it can only set the closing
      flags again: no command is accepted, so neither queue nor table changes under an iteration. */
  lemma ClosingRefuses(c: Ctx, source: Source, cb: Callback, reply: Option<Reply>, program: Program)
    requires Closing(c)
    ensures var d := RunCallback(c, source, cb, reply, program);
            Closing(d) && OnlyCalls(c, d, Told(source, cb, reply)) && (c.flags.freeing ==> d.flags.freeing)
  {
    var call := Invocation(source, cb, reply);
    PerformClosing(Enter(c, call), program.run(|c.log.calls|));
    assert c.log.calls + [call] + [] == c.log.calls + [call] && c.log.calls + [] == c.log.calls;
  }

  function Shift(c: Ctx, reply: Option<Reply>): Ctx
    requires c.replies != []
  {
    c.(replies := c.replies[1..], log := c.log.(delivered := c.log.delivered + [Delivery(c.replies[0], reply)]))
  }

  // --------------------------------------------------------------------- freeing

  function ShiftInvalid(c: Ctx, reply: Option<Reply>): Ctx
    requires c.invalid != []
  {
    c.(invalid := c.invalid[1..],
       log := c.log.(aside := c.log.aside.(taken := c.log.aside.taken + [Delivery(c.invalid[0], reply)])))
  }

  /** The loops of __redisAsyncFree: each takes one callback and runs it with NULL. The
      measure is the queue itself, which the callbacks cannot refill. */
  function DrainReplies(c: Ctx, program: Program): (d: Ctx)
    requires Closing(c)
    ensures Closing(d) && d.replies == []
    decreases |c.replies|
  {
    if c.replies == [] then c
    else
      var c' := Shift(c, None);
      ClosingRefuses(c', FromReplies, c.replies[0], None, program);
      DrainReplies(RunCallback(c', FromReplies, c.replies[0], None, program), program)
  }

  function DrainInvalid(c: Ctx, program: Program): (d: Ctx)
    requires Closing(c)
    ensures Closing(d) && d.invalid == []
    decreases |c.invalid|
  {
    if c.invalid == [] then c
    else
      var c' := ShiftInvalid(c, None);
      ClosingRefuses(c', FromInvalid, c.invalid[0], None, program);
      DrainInvalid(RunCallback(c', FromInvalid, c.invalid[0], None, program), program)
  }

  /** The iterator loop over one table: `names` are the entries still to visit. */
  function RunEntries(c: Ctx, pvariant: bool, table: map<bytes, Callback>, names: seq<bytes>,
                      program: Program): (d: Ctx)
    requires Closing(c) && forall n | n in names :: n in table
    ensures Closing(d)
    decreases |names|
  {
    if names == [] then c
    else
      var source, cb := FromTable(pvariant, names[0]), table[names[0]];
      ClosingRefuses(c, source, cb, None, program);
      RunEntries(RunCallback(c, source, cb, None, program), pvariant, table, names[1..], program)
  }

  function RunTable(c: Ctx, pvariant: bool, program: Program): (d: Ctx)
    requires Closing(c)
    ensures Closing(d)
  {
    var table := if pvariant then c.tables.patterns else c.tables.channels;
    assert Lists(program.order(table), table);
    RunEntries(c, pvariant, table, program.order(table), program)
  }

  /** __redisAsyncFree. */
  function AsyncFree(c: Ctx, program: Program): Ctx
    requires Closing(c)
  {
    var c1 := DrainReplies(c, program);
    var c2 := DrainInvalid(c1, program);
    var c3 := RunTable(c2, false, program);
    var c4 := RunTable(c3, true, program);
    c4.(phase := Freed, log := c4.log.(frees := c4.log.frees + 1))
  }

  function StopCommands(c: Ctx): Ctx {
    c.(flags := c.flags.(disconnecting := true))
  }

  /** __redisAsyncDisconnect. Its callers either found an error or are disconnecting. */
  function AsyncDisconnect(c: Ctx, program: Program): Ctx
    requires c.failed || c.flags.disconnecting
  {
    if c.failed then AsyncFree(StopCommands(c), program)
    else if c.replies != [] then c.(phase := Aborted)
    else AsyncFree(c, program)
  }

  // ------------------------------------------------------------ incoming replies

  function Remove(table: map<bytes, Callback>, name: bytes): map<bytes, Callback> {
    map n | n in table && n != name :: table[n]
  }

  /** An unsubscribe confirmation: the entry goes, and the last one ends subscribed mode. */
  function Forget(c: Ctx, pvariant: bool, name: bytes, left: int): Ctx {
    c.(tables := if pvariant then c.tables.(patterns := Remove(c.tables.patterns, name))
                 else c.tables.(channels := Remove(c.tables.channels, name)),
       flags := if left == 0 then c.flags.(subscribed := false) else c.flags)
  }

  /** The context after a reply found its callback, where it found it, and the callback. */
  datatype Routed = Routed(ctx: Ctx, source: Source, cb: Callback)

  /** A pub/sub message of type `stype` about `name`. The callback stays what it was when the name is
      not registered. */
  function Notify(c: Ctx, stype: bytes, name: bytes, third: Option<Reply>, cb: Callback): Routed {
    var pvariant := PVariant(stype);
    var table := if pvariant then c.tables.patterns else c.tables.channels;
    if name !in table then Routed(c, Kept, cb)
    else if LowerAll(if pvariant then stype[1..] else stype) != UNSUBSCRIBE then
      Routed(c, FromTable(pvariant, name), table[name])
    else
      match third
      case Some(Integer(left)) => Routed(Forget(c, pvariant, name, left), FromTable(pvariant, name), table[name])
      case _ => Routed(c.(phase := Aborted), Kept, cb)
  }

  /** __redisGetSubscribeCallback. */
  function SubscribeCallback(c: Ctx, reply: Reply, cb: Callback): Routed {
    match reply
    case Array(es) =>
      if |es| < 2 || !es[0].Str? || !es[1].Str? then Routed(c.(phase := Aborted), Kept, cb)
      else Notify(c, CStr(es[0].text), es[1].text, if |es| > 2 then Some(es[2]) else None, cb)
    case Hollow(_) => Routed(c.(phase := Aborted), Kept, cb)
    case _ =>
      if c.invalid == [] then Routed(c, Kept, cb)
      else Routed(ShiftInvalid(c, Some(reply)), FromInvalid, c.invalid[0])
  }

  /** Which callback a reply goes to: the head of the queue, or the subscription's; an error
      nobody waits for is a connection error, and other replies must belong to a subscription. */
  function Route(c: Ctx, reply: Reply, cb: Callback): (r: Routed)
    ensures r.ctx.failed ==> c.failed || reply.Error?
  {
    if c.replies != [] then Routed(Shift(c, Some(reply)), FromReplies, c.replies[0])
    else if reply.Error? then Routed(c.(failed := true), Kept, cb)
    else if !c.flags.subscribed && !c.flags.monitoring then Routed(c.(phase := Aborted), Kept, cb)
    else if c.flags.subscribed then SubscribeCallback(c, reply, cb)
    else Routed(c, Kept, cb)
  }

  /** What callbacks leave alone. */
  ghost predicate Untouched(c: Ctx, d: Ctx) {
    && d.reader == c.reader && d.failed == c.failed
    && d.log.delivered == c.log.delivered && d.log.written == c.log.written && d.log.frees == c.log.frees
    && d.log.calls == c.log.calls && d.log.found == c.log.found && d.log.aside.taken == c.log.aside.taken
  }

  lemma AcceptTouches(c: Ctx, parsed: Option<Parsed>, args: seq<bytes>, cb: Callback)
    ensures Untouched(c, Accept(c, parsed, args, cb))
  {
  }

  lemma {:induction false} PerformKeepsReader(c: Ctx, actions: seq<Action>)
    ensures Untouched(c, Perform(c, actions))
    decreases |actions|
  {
    if actions != [] && c.phase == Alive {
      if actions[0].Issue? && !Closing(c) {
        AcceptTouches(c, Parse(Command(actions[0].args) + [NUL]), actions[0].args, actions[0].cb);
      }
      PerformKeepsReader(Act(c, actions[0]), actions[1..]);
    }
  }

  ghost predicate Readable(c: Ctx) {
    c.phase == Alive && !c.failed && c.reader.Live? && c.reader.Valid()
  }

  function Unread(c: Ctx): nat {
    if c.reader.Live? then |c.reader.cfg.rest| else 0
  }

  /** It is noted which callback the reply found. */
  function Met(r: Routed, reply: Reply): Ctx {
    r.ctx.(log := r.ctx.log.(found := r.ctx.log.found + [Finding(r.source, r.cb, reply)]))
  }

  /** What an iteration of redisProcessCallbacks does once the reply has its callback; true when
      the loop returns there. */
  function AfterRoute(r: Routed, reply: Reply, program: Program): (d: (Ctx, bool))
    ensures !d.1 ==> d.0 == RunCallback(Met(r, reply), r.source, r.cb, Some(reply), program) && d.0.phase == Alive &&
                     r.ctx.phase == Alive && !r.ctx.failed
  {
    if r.ctx.phase != Alive then (r.ctx, true)
    else if r.ctx.failed then (AsyncDisconnect(r.ctx, program), true)
    else
      var d := RunCallback(Met(r, reply), r.source, r.cb, Some(reply), program);
      if d.phase != Alive then (d, true)
      else if r.cb.hasFn && d.flags.freeing then (AsyncFree(d, program), true)
      else (d, false)
  }

  lemma RouteKeepsReader(c: Ctx, reply: Reply, cb: Callback)
    ensures Route(c, reply, cb).ctx.reader == c.reader && Route(c, reply, cb).ctx.log.found == c.log.found
  {
  }

  lemma CallbackKeepsReader(c: Ctx, source: Source, cb: Callback, reply: Option<Reply>, program: Program)
    ensures var d := RunCallback(c, source, cb, reply, program);
            d.reader == c.reader && d.failed == c.failed && d.log.found == c.log.found
  {
    PerformKeepsReader(Enter(c, Invocation(source, cb, reply)), program.run(|c.log.calls|));
  }

  /** redisProcessCallbacks; `cb` is the variable that lives across its iterations. */
  function ProcessCallbacks(c: Ctx, cb: Callback, program: Program): Ctx
    requires Readable(c)
    decreases Unread(c)
  {
    match Run(c.reader.cfg)
    case Failed => AsyncDisconnect(c.(reader := Dead, failed := true), program)
    case Pending(cfg) =>
      var c' := c.(reader := Live(cfg));
      if c.flags.disconnecting && c.obuf == [] then AsyncDisconnect(c', program)
      else if c.flags.monitoring then Push(c', cb)
      else c'
    case Got(reply, rest) =>
      var c0 := c.(reader := Live(Fresh(rest)));
      var r := Route(c0, reply, cb);
      var (c2, done) := AfterRoute(r, reply, program);
      RouteKeepsReader(c0, reply, cb);
      CallbackKeepsReader(Met(r, reply), r.source, r.cb, Some(reply), program);
      if done then c2 else ProcessCallbacks(c2, r.cb, program)
  }

  // ------------------------------------------------------------------ entry points

  /** redisAsyncHandleRead on a connected context: None is a read error or the end of file. */
  function HandleRead(c: Ctx, chunk: Option<bytes>, program: Program): Ctx
    requires Readable(c)
  {
    match chunk
    case None => AsyncDisconnect(c.(failed := true), program)
    case Some(bytes) =>
      ProcessCallbacks(c.(reader := Live(c.reader.cfg.Extend(bytes))), NO_CALLBACK, program)
  }

  /** redisAsyncHandleWrite: the socket takes n bytes, or None for a write error. */
  function HandleWrite(c: Ctx, n: Option<nat>, program: Program): Ctx
    requires n.Some? ==> n.value <= |c.obuf|
  {
    match n
    case None => AsyncDisconnect(c.(failed := true), program)
    case Some(k) => c.(obuf := c.obuf[k..], log := c.log.(written := c.log.written + c.obuf[..k]))
  }

  /** redisAsyncDisconnect outside callbacks. */
  function UserDisconnect(c: Ctx, program: Program): Ctx {
    var c' := StopCommands(c);
    if c.replies == [] then AsyncDisconnect(c', program) else c'
  }

  /** redisAsyncFree outside callbacks. */
  function UserFree(c: Ctx, program: Program): Ctx {
    AsyncFree(c.(flags := c.flags.(freeing := true)), program)
  }
}
