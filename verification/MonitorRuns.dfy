/** MONITOR: its callback is put back in the queue at the end of every read, so that it hears the next
    line. When that works, and when lines go to nobody. */
module MonitorRuns {
  import opened Bytes
  import opened Resp
  import opened ReaderMachine
  import opened Format
  import opened Async
  import opened AsyncRuns

  // ----------------------------------------------------------- the queue, by counts

  /** The callback that the i-th line of a read meets when the read finds this queue. */
  function Meets(queue: seq<Callback>, i: nat): Callback {
    if i < |queue| then queue[i] else if queue == [] then NO_CALLBACK else queue[|queue| - 1]
  }

  function MeetAll(queue: seq<Callback>, lines: nat): seq<Callback> {
    seq(lines, i requires 0 <= i < lines => Meets(queue, i))
  }

  /** The queue after the read: what was not met, and the last one met, or no callback at all. */
  function Requeued(queue: seq<Callback>, lines: nat): seq<Callback> {
    (if lines <= |queue| then queue[lines..] else []) + [if lines == 0 then NO_CALLBACK else Meets(queue, lines - 1)]
  }

  /** What the lines of several reads meet, one after the other. */
  function MeetReads(queue: seq<Callback>, counts: seq<nat>): seq<Callback>
    decreases |counts|
  {
    if counts == [] then [] else MeetAll(queue, counts[0]) + MeetReads(Requeued(queue, counts[0]), counts[1..])
  }

  predicate Only(cbs: seq<Callback>, cb: Callback) {
    forall i | 0 <= i < |cbs| :: cbs[i] == cb
  }

  function Sum(counts: seq<nat>): nat {
    if counts == [] then 0 else counts[0] + Sum(counts[1..])
  }

  lemma OnlyAppend(a: seq<Callback>, b: seq<Callback>, cb: Callback)
    ensures Only(a + b, cb) <==> Only(a, cb) && Only(b, cb)
  {
    if Only(a + b, cb) {
      forall i | 0 <= i < |a| ensures a[i] == cb { assert (a + b)[i] == a[i]; }
      forall i | 0 <= i < |b| ensures b[i] == cb { assert (a + b)[|a| + i] == b[i]; }
    }
  }

  /** A queue that starts with nobody loses the next line. */
  lemma {:induction false} NobodyFirst(queue: seq<Callback>, counts: seq<nat>, cb: Callback)
    requires queue != [] && queue[0] == NO_CALLBACK && cb != NO_CALLBACK
    ensures Only(MeetReads(queue, counts), cb) <==> Sum(counts) == 0
    decreases |counts|
  {
    if counts != [] {
      var first, rest := MeetAll(queue, counts[0]), MeetReads(Requeued(queue, counts[0]), counts[1..]);
      OnlyAppend(first, rest, cb);
      if counts[0] == 0 {
        NobodyFirst(Requeued(queue, 0), counts[1..], cb);
      } else {
        assert first[0] == NO_CALLBACK;
      }
    }
  }

  /** With the callback first and nobody behind it, only one more line is heard. */
  lemma {:induction false} NobodyNext(queue: seq<Callback>, counts: seq<nat>, cb: Callback)
    requires |queue| >= 2 && queue[0] == cb && queue[1] == NO_CALLBACK && cb != NO_CALLBACK
    ensures Only(MeetReads(queue, counts), cb) <==> Sum(counts) <= 1
    decreases |counts|
  {
    if counts != [] {
      var first, rest := MeetAll(queue, counts[0]), MeetReads(Requeued(queue, counts[0]), counts[1..]);
      OnlyAppend(first, rest, cb);
      if counts[0] == 0 {
        NobodyNext(Requeued(queue, 0), counts[1..], cb);
      } else if counts[0] == 1 {
        NobodyFirst(Requeued(queue, 1), counts[1..], cb);
      } else {
        assert first[1] == NO_CALLBACK;
      }
    }
  }

  /** After a read without a whole line at most one line may still come. */
  predicate NoneLost(counts: seq<nat>) {
    forall e | 0 <= e < |counts| && counts[e] == 0 :: Sum(counts[e + 1..]) <= 1
  }

  lemma SumRest(counts: seq<nat>, e: nat)
    requires e < |counts|
    ensures Sum(counts[e + 1..]) <= Sum(counts)
    decreases e
  {
    if e > 0 {
      SumRest(counts[1..], e - 1);
      assert counts[1..][e..] == counts[e + 1..];
    }
  }

  lemma NoneLostRest(counts: seq<nat>)
    requires counts != []
    ensures NoneLost(counts) <==> if counts[0] == 0 then Sum(counts[1..]) <= 1 else NoneLost(counts[1..])
  {
    var rest := counts[1..];
    forall e | 1 <= e < |counts| ensures rest[e - 1] == counts[e] && rest[e..] == counts[e + 1..] {
    }
    if counts[0] == 0 && Sum(rest) <= 1 {
      forall e | 0 <= e < |counts| && counts[e] == 0 ensures Sum(counts[e + 1..]) <= 1 {
        if e > 0 { SumRest(rest, e - 1); }
      }
    } else if counts[0] != 0 && NoneLost(rest) {
      forall e | 0 <= e < |counts| && counts[e] == 0 ensures Sum(counts[e + 1..]) <= 1 {
        assert rest[e - 1] == 0;
      }
    } else if NoneLost(counts) {
      forall e | 0 <= e < |rest| && rest[e] == 0 ensures Sum(rest[e + 1..]) <= 1 {
        assert counts[e + 1] == 0 && counts[e + 2..] == rest[e + 1..];
      }
    }
  }

  /** The callback hears every line exactly when no read without a whole line is followed by more than
      one line. */
  lemma {:induction false} CountsExact(counts: seq<nat>, cb: Callback)
    requires cb != NO_CALLBACK
    ensures Only(MeetReads([cb], counts), cb) <==> NoneLost(counts)
    decreases |counts|
  {
    if counts != [] {
      NoneLostRest(counts);
      var first, rest := MeetAll([cb], counts[0]), MeetReads(Requeued([cb], counts[0]), counts[1..]);
      OnlyAppend(first, rest, cb);
      if counts[0] == 0 {
        assert Requeued([cb], 0) == [cb, NO_CALLBACK];
        NobodyNext([cb, NO_CALLBACK], counts[1..], cb);
      } else {
        assert Requeued([cb], counts[0]) == [cb];
        CountsExact(counts[1..], cb);
      }
    }
  }

  // -------------------------------------------------------------------- the context

  /** Callbacks that leave the context alone. */
  ghost predicate Silent(program: Program) {
    forall n: nat :: program.run(n) == []
  }

  ghost predicate Monitoring(c: Ctx) {
    && c.phase == Alive && !c.failed && !Closing(c) && c.flags.monitoring && !c.flags.subscribed
    && c.reader.Live? && c.reader.Valid()
  }

  predicate NoErrors(rs: seq<Reply>) {
    forall i | 0 <= i < |rs| :: !rs[i].Error?
  }

  function FoundCallbacks(found: seq<Finding>): seq<Callback> {
    seq(|found|, i requires 0 <= i < |found| => found[i].cb)
  }

  lemma SilentRun(c: Ctx, source: Source, cb: Callback, reply: Reply, program: Program)
    requires Silent(program) && Monitoring(c)
    ensures var d := RunCallback(c, source, cb, Some(reply), program);
            && Monitoring(d) && d.replies == c.replies && d.reader == c.reader
            && d.log.found == c.log.found && d.log.calls == c.log.calls + Told(source, cb, Some(reply))
  {
    assert c.log.calls + [] == c.log.calls;
  }

  /** One line: it meets the head of the queue, or the callback of the line before it. */
  lemma LineRead(c: Ctx, reply: Reply, cb: Callback, program: Program)
    requires Silent(program) && Monitoring(c) && !reply.Error?
    ensures var met := if c.replies == [] then cb else c.replies[0];
            var r := Route(c, reply, cb);
            var (d, done) := AfterRoute(r, reply, program);
            && r.cb == met && !done && Monitoring(d) && d.reader == c.reader
            && d.replies == (if c.replies == [] then [] else c.replies[1..])
            && FoundCallbacks(d.log.found) == FoundCallbacks(c.log.found) + [met]
            && d.log.calls == c.log.calls + Told(r.source, met, Some(reply))
  {
    hide RunCallback, Told;
    var r := Route(c, reply, cb);
    SilentRun(Met(r, reply), r.source, r.cb, reply, program);
  }

  /** Lines that find this queue when the line before them met `cb`. */
  function MeetAfter(queue: seq<Callback>, cb: Callback, lines: nat): seq<Callback> {
    seq(lines, i requires 0 <= i < lines =>
      if i < |queue| then queue[i] else if queue == [] then cb else queue[|queue| - 1])
  }

  function QueueAfter(queue: seq<Callback>, cb: Callback, lines: nat): seq<Callback> {
    (if lines <= |queue| then queue[lines..] else [])
    + [if lines == 0 then cb else MeetAfter(queue, cb, lines)[lines - 1]]
  }

  lemma MeetOneMore(queue: seq<Callback>, cb: Callback, lines: nat)
    requires lines > 0
    ensures var met := if queue == [] then cb else queue[0];
            var rest := if queue == [] then [] else queue[1..];
            && MeetAfter(queue, cb, lines) == [met] + MeetAfter(rest, met, lines - 1)
            && QueueAfter(queue, cb, lines) == QueueAfter(rest, met, lines - 1)
  {
    var met := if queue == [] then cb else queue[0];
    var rest := if queue == [] then [] else queue[1..];
    var all, later := MeetAfter(queue, cb, lines), MeetAfter(rest, met, lines - 1);
    assert all == [met] + later;
    if lines > 1 {
      assert all[lines - 1] == later[lines - 2];
    }
    if 0 < |queue| && lines <= |queue| {
      assert queue[lines..] == rest[lines - 1..];
    }
  }

  /** A read of lines, whatever queue it finds. */
  lemma {:induction false} LinesRead(c: Ctx, cb: Callback, program: Program)
    requires Silent(program) && Monitoring(c) && NoErrors(Drain(c.reader.cfg).replies)
    requires Drain(c.reader.cfg).state.Live?
    ensures var d := ProcessCallbacks(c, cb, program);
            var lines := |Drain(c.reader.cfg).replies|;
            && Monitoring(d) && d.reader == Drain(c.reader.cfg).state
            && FoundCallbacks(d.log.found) == FoundCallbacks(c.log.found) + MeetAfter(c.replies, cb, lines)
            && d.replies == QueueAfter(c.replies, cb, lines)
    decreases Unread(c)
  {
    hide Run, Route, AfterRoute, MeetAfter, QueueAfter, FoundCallbacks, Silent;
    var all := Drain(c.reader.cfg);
    match Run(c.reader.cfg) {
      case Failed => assert false;
      case Pending(cfg) =>
        NothingMet(c.replies, cb);
        SameFound(c.log, Push(c, cb).log);
        assert FoundCallbacks(c.log.found) + [] == FoundCallbacks(c.log.found);
      case Got(reply, rest) =>
        var later := Drain(Fresh(rest)).replies;
        assert all.replies == [reply] + later;
        FirstLine(reply, later);
        var c0 := c.(reader := Live(Fresh(rest)));
        LineRead(c0, reply, cb, program);
        var r := Route(c0, reply, cb);
        LinesRead(AfterRoute(r, reply, program).0, r.cb, program);
        MeetOneMore(c.replies, cb, 1 + |later|);
    }
  }

  lemma SameFound(a: History, b: History)
    requires a.found == b.found
    ensures FoundCallbacks(a.found) == FoundCallbacks(b.found)
  {
  }

  lemma FirstLine(reply: Reply, later: seq<Reply>)
    requires NoErrors([reply] + later)
    ensures !reply.Error? && NoErrors(later)
  {
    assert ([reply] + later)[0] == reply;
    forall i | 0 <= i < |later| ensures !later[i].Error? { assert ([reply] + later)[i + 1] == later[i]; }
  }

  lemma NothingMet(queue: seq<Callback>, cb: Callback)
    ensures MeetAfter(queue, cb, 0) == [] && QueueAfter(queue, cb, 0) == queue + [cb]
  {
  }

  lemma FreshRead(queue: seq<Callback>, lines: nat)
    ensures MeetAfter(queue, NO_CALLBACK, lines) == MeetAll(queue, lines)
    ensures QueueAfter(queue, NO_CALLBACK, lines) == Requeued(queue, lines)
  {
  }

  // ----------------------------------------------------------------------- runs

  function Chunks(chunks: seq<bytes>): seq<Event> {
    seq(|chunks|, i requires 0 <= i < |chunks| => ReadChunk(chunks[i]))
  }

  /** How many whole lines each chunk completes. */
  function Lines(st: State, chunks: seq<bytes>): seq<nat>
    requires st.Valid()
    decreases |chunks|
  {
    if chunks == [] then []
    else
      var first := FeedAndDrain(st, chunks[0]);
      [|first.replies|] + Lines(first.state, chunks[1..])
  }

  lemma FirstChunk(st: State, chunks: seq<bytes>)
    requires st.Valid() && chunks != []
    ensures FeedChunks(st, chunks) ==
            Prepend(FeedAndDrain(st, chunks[0]).replies, FeedChunks(FeedAndDrain(st, chunks[0]).state, chunks[1..]))
  {
    hide Drain, FeedAndDrain;
  }

  lemma DeadFeeds(st: State, chunk: bytes)
    requires st.Valid()
    ensures st.Dead? ==> FeedAndDrain(st, chunk).state.Dead?
  {
  }

  lemma {:induction false} DeadStays(st: State, chunks: seq<bytes>)
    requires st.Valid()
    ensures st.Dead? ==> FeedChunks(st, chunks).state.Dead?
    decreases |chunks|
  {
    hide FeedChunks, FeedAndDrain;
    if chunks == [] {
      NoChunks(st);
    } else {
      DeadFeeds(st, chunks[0]);
      FirstChunk(st, chunks);
      DeadStays(FeedAndDrain(st, chunks[0]).state, chunks[1..]);
    }
  }

  lemma NoChunks(st: State)
    requires st.Valid()
    ensures FeedChunks(st, []) == Drained([], st)
  {
  }

  lemma LiveUntil(st: State, chunks: seq<bytes>)
    requires st.Valid() && chunks != [] && FeedChunks(st, chunks).state.Live?
    ensures st.Live? && FeedAndDrain(st, chunks[0]).state.Live?
    ensures FeedChunks(FeedAndDrain(st, chunks[0]).state, chunks[1..]).state.Live?
  {
    hide FeedChunks, FeedAndDrain;
    FirstChunk(st, chunks);
    DeadStays(st, chunks);
    DeadStays(FeedAndDrain(st, chunks[0]).state, chunks[1..]);
  }

  lemma NoErrorsSplit(st: State, chunks: seq<bytes>)
    requires st.Valid() && chunks != [] && NoErrors(FeedChunks(st, chunks).replies)
    ensures var first := FeedAndDrain(st, chunks[0]);
            NoErrors(first.replies) && NoErrors(FeedChunks(first.state, chunks[1..]).replies)
  {
    hide FeedChunks, FeedAndDrain;
    FirstChunk(st, chunks);
    var first := FeedAndDrain(st, chunks[0]);
    var later := FeedChunks(first.state, chunks[1..]).replies;
    var all := first.replies + later;
    forall i | 0 <= i < |first.replies| ensures !first.replies[i].Error? { assert all[i] == first.replies[i]; }
    forall i | 0 <= i < |later| ensures !later[i].Error? { assert all[|first.replies| + i] == later[i]; }
  }

  lemma {:induction false} ReadsMeet(c: Ctx, chunks: seq<bytes>, program: Program)
    requires Silent(program) && Monitoring(c)
    requires FeedChunks(c.reader, chunks).state.Live? && NoErrors(FeedChunks(c.reader, chunks).replies)
    ensures var d := HandleAll(c, Chunks(chunks), program);
            FoundCallbacks(d.log.found) == FoundCallbacks(c.log.found) + MeetReads(c.replies, Lines(c.reader, chunks))
    decreases |chunks|
  {
    hide MeetAll, Requeued, FoundCallbacks, Silent, Drain, ProcessCallbacks, FeedChunks;
    if chunks == [] {
      assert FoundCallbacks(c.log.found) + [] == FoundCallbacks(c.log.found);
    } else {
      LiveUntil(c.reader, chunks);
      NoErrorsSplit(c.reader, chunks);
      var c0 := c.(reader := Live(c.reader.cfg.Extend(chunks[0])));
      LinesRead(c0, NO_CALLBACK, program);
      var d := ProcessCallbacks(c0, NO_CALLBACK, program);
      var lines := |Drain(c0.reader.cfg).replies|;
      FreshRead(c.replies, lines);
      assert Chunks(chunks)[0] == ReadChunk(chunks[0]) && Chunks(chunks)[1..] == Chunks(chunks[1..]);
      assert Handle(c, ReadChunk(chunks[0]), program) == d;
      ReadsMeet(d, chunks[1..], program);
      var first, later := MeetAll(c.replies, lines),
          MeetReads(Requeued(c.replies, lines), Lines(d.reader, chunks[1..]));
      assert FoundCallbacks(c.log.found) + first + later == FoundCallbacks(c.log.found) + (first + later);
    }
  }

  const MONITOR_NAME: bytes := [77, 79, 78, 73, 84, 79, 82]

  /** MONITOR is accepted, and its callback waits in the reply queue. */
  lemma MonitorSent(cb: Callback)
    ensures var c := AsyncCommand(Init, [MONITOR_NAME], cb);
            Monitoring(c) && c.replies == [cb] && c.reader == Init.reader && c.log.found == []
  {
    var args := [MONITOR_NAME];
    assert LowerAll(MONITOR_NAME) == MONITOR;
    assert SUBSCRIBE[0] == 115 && UNSUBSCRIBE[0] == 117 && MONITOR[0] == 109;
    ParseOfCommand(args);
    assert args[1..] == [];
  }

  /** Over all runs of MONITOR on a new context, with replies that are no errors and callbacks that leave
      the context alone: its callback hears every whole line that arrives if and only if no
      read that completes none is followed by more than one line. What a read without a whole line puts
      back in the queue is no callback, and the second line from then on goes to it. */
  lemma MonitorExact(cb: Callback, chunks: seq<bytes>, program: Program)
    requires Silent(program) && cb.hasFn
    requires var all := Drain(Fresh(Concat(chunks))); all.state.Live? && NoErrors(all.replies)
    ensures var d := HandleAll(Init, [Call([MONITOR_NAME], cb)] + Chunks(chunks), program);
            var counts := Lines(Live(Fresh([])), chunks);
            && |d.log.found| == |Drain(Fresh(Concat(chunks))).replies|
            && ((forall i | 0 <= i < |d.log.found| :: d.log.found[i].cb == cb) <==> NoneLost(counts))
  {
    hide Drain, MeetReads, HandleAll, AsyncCommand, NoneLost, Lines, FeedChunks, FoundCallbacks, Only, Silent;
    var c := AsyncCommand(Init, [MONITOR_NAME], cb);
    MonitorSent(cb);
    ChunkingIrrelevant(chunks);
    ReadsMeet(c, chunks, program);
    MonitorHandled(cb, Chunks(chunks), program);
    var d := HandleAll(c, Chunks(chunks), program);
    var counts := Lines(Live(Fresh([])), chunks);
    CountsExact(counts, cb);
    assert FoundCallbacks([]) + MeetReads([cb], counts) == MeetReads([cb], counts) by { NoneFound(); }
    AllFound(d.log.found, cb);
    CountAll([cb], counts);
    LinesSum(Live(Fresh([])), chunks);
  }

  lemma NoneFound()
    ensures FoundCallbacks([]) == []
  {
  }

  lemma AllFound(found: seq<Finding>, cb: Callback)
    ensures |FoundCallbacks(found)| == |found|
    ensures Only(FoundCallbacks(found), cb) <==> forall i | 0 <= i < |found| :: found[i].cb == cb
  {
    assert forall i | 0 <= i < |found| :: FoundCallbacks(found)[i] == found[i].cb;
  }

  lemma MonitorHandled(cb: Callback, events: seq<Event>, program: Program)
    ensures HandleAll(Init, [Call([MONITOR_NAME], cb)] + events, program) ==
            HandleAll(AsyncCommand(Init, [MONITOR_NAME], cb), events, program)
  {
    hide AsyncCommand;
    var all := [Call([MONITOR_NAME], cb)] + events;
    assert all[0] == Call([MONITOR_NAME], cb) && all[1..] == events;
  }

  lemma {:induction false} CountAll(queue: seq<Callback>, counts: seq<nat>)
    ensures |MeetReads(queue, counts)| == Sum(counts)
    decreases |counts|
  {
    if counts != [] { CountAll(Requeued(queue, counts[0]), counts[1..]); }
  }

  lemma {:induction false} LinesSum(st: State, chunks: seq<bytes>)
    requires st.Valid()
    ensures Sum(Lines(st, chunks)) == |FeedChunks(st, chunks).replies|
    decreases |chunks|
  {
    if chunks != [] {
      var first := FeedAndDrain(st, chunks[0]);
      LinesSum(first.state, chunks[1..]);
      assert Lines(st, chunks)[1..] == Lines(first.state, chunks[1..]);
    }
  }
}
