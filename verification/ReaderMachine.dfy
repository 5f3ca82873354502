/** The reader as a machine over values: a task stack, the type of the item being read
    and the unread bytes. The class in Reader.dfy is proved against `Run`; here `Run` is
    proved to agree with the recursive decoder and not to depend on chunk boundaries. */
module ReaderMachine {
  import opened Bytes
  import opened Resp

  /** An array being filled: its element count and the elements read so far. */
  datatype Frame = Frame(total: nat, done: seq<Reply>)

  datatype Config = Config(frames: seq<Frame>, kind: Kind, rest: bytes) {
    /** Every open array still lacks an element, and the stack has nine slots. */
    ghost predicate Valid() {
      && |frames| <= MAX_DEPTH
      && forall i | 0 <= i < |frames| :: |frames[i].done| < frames[i].total
    }

    /** A ninth array level is refused before its header line is looked at. */
    ghost predicate Waiting() {
      Valid() && !(kind == ArrayKind && |frames| == MAX_DEPTH)
    }

    function Extend(more: bytes): Config {
      this.(rest := rest + more)
    }
  }

  /** `Go` is REDIS_OK with tasks left, `Finish` is REDIS_OK with an empty stack,
      `Stall` waits for bytes and `Crash` is a protocol error. */
  datatype StepResult = Go(cfg: Config) | Finish(reply: Reply, rest: bytes) | Stall(cfg: Config) | Crash

  datatype RunResult = Got(reply: Reply, rest: bytes) | Pending(cfg: Config) | Failed

  function Fresh(s: bytes): Config {
    Config([], Untyped, s)
  }

  /** moveToNextTask: a finished reply fills its slot, which may finish the array around it. */
  function Place(frames: seq<Frame>, r: Reply, rest: bytes): (res: StepResult)
    requires Config(frames, Untyped, rest).Valid()
    ensures res.Go? ==> res.cfg.Valid() && res.cfg.rest == rest && res.cfg.kind == Untyped
    ensures res.Finish? ==> res.rest == rest
    ensures res.Go? || res.Finish?
  {
    if frames == [] then Finish(r, rest)
    else
      var outer := frames[..|frames| - 1];
      var top := frames[|frames| - 1];
      var done := top.done + [r];
      if |done| == top.total then Place(outer, Array(done), rest)
      else Go(Config(outer + [Frame(top.total, done)], Untyped, rest))
  }

  /** The part of processItem after the type byte is known. */
  function StepTyped(frames: seq<Frame>, kind: Kind, s: bytes): (res: StepResult)
    requires kind != Untyped && Config(frames, kind, s).Valid()
    ensures res.Go? ==> res.cfg.Valid() && |res.cfg.rest| < |s|
    ensures res.Finish? ==> |res.rest| < |s|
    ensures res.Stall? ==> res.cfg == Config(frames, kind, s) && res.cfg.Waiting()
  {
    if kind == ArrayKind && |frames| == MAX_DEPTH then Crash
    else
      match ReadItem(kind, s)
      case Short => Stall(Config(frames, kind, s))
      case Whole(r, n) => Place(frames, r, s[n..])
      case Header(count, n) => Go(Config(frames + [Frame(count, [])], Untyped, s[n..]))
  }

  /** processItem. */
  function Step(cfg: Config): (res: StepResult)
    requires cfg.Valid()
    ensures res.Go? ==> res.cfg.Valid() && |res.cfg.rest| < |cfg.rest|
    ensures res.Finish? ==> |res.rest| < |cfg.rest|
    ensures res.Stall? ==> res.cfg.Waiting()
  {
    if cfg.kind != Untyped then StepTyped(cfg.frames, cfg.kind, cfg.rest)
    else if cfg.rest == [] then Stall(cfg)
    else
      match KindOf(cfg.rest[0])
      case None => Crash
      case Some(kind) => StepTyped(cfg.frames, kind, cfg.rest[1..])
  }

  /** The loop of redisReaderGetReply. */
  function Run(cfg: Config): (res: RunResult)
    requires cfg.Valid()
    ensures res.Got? ==> |res.rest| < |cfg.rest|
    ensures res.Pending? ==> res.cfg.Waiting()
    decreases |cfg.rest|
  {
    match Step(cfg)
    case Go(c) => Run(c)
    case Finish(r, rest) => Got(r, rest)
    case Stall(c) => Pending(c)
    case Crash => Failed
  }

  lemma RunNothing(cfg: Config)
    requires cfg.Waiting() && cfg.rest == []
    ensures Run(cfg) == Pending(cfg)
  {
    assert Step(cfg) == Stall(cfg);
  }

  /** What the loop makes of one step's result. */
  function Continue(res: StepResult): RunResult
    requires res.Go? || res.Stall? ==> res.cfg.Valid()
  {
    match res
    case Go(c) => Run(c)
    case Finish(r, rest) => Got(r, rest)
    case Stall(c) => Pending(c)
    case Crash => Failed
  }

  // ------------------------------------------- agreement with the recursive decoder

  /** The machine's result for an item inside `frames` whose recursive reading is o. */
  ghost predicate Agrees(frames: seq<Frame>, o: Outcome, run: RunResult)
    requires Config(frames, Untyped, []).Valid()
  {
    match o
    case Done(r, rest) => run == Continue(Place(frames, r, rest))
    case More => run.Pending?
    case Broken => run == Failed
  }

  /** Reading one item with arrays open around it is reading it recursively and then
      placing it. */
  lemma {:induction false} RunDecodes(frames: seq<Frame>, s: bytes)
    requires Config(frames, Untyped, s).Valid()
    ensures Agrees(frames, Decode(s, |frames|), Run(Config(frames, Untyped, s)))
    decreases |s|, 0
  {
    var cfg := Config(frames, Untyped, s);
    assert Run(cfg) == Continue(Step(cfg));
    if s != [] && KindOf(s[0]).Some? {
      var kind := KindOf(s[0]).value;
      assert Step(cfg) == StepTyped(frames, kind, s[1..]);
      if !(kind == ArrayKind && |frames| == MAX_DEPTH) {
        match ReadItem(kind, s[1..]) {
          case Short =>
          case Whole(r, n) =>
            assert Decode(s, |frames|) == Done(r, s[1..][n..]);
          case Header(count, n) =>
            RunDecodesElements(frames, Frame(count, []), s[1..][n..]);
        }
      }
    }
  }

  lemma {:induction false} RunDecodesElements(frames: seq<Frame>, top: Frame, s: bytes)
    requires Config(frames, Untyped, s).Valid()
    requires |frames| < MAX_DEPTH && |top.done| < top.total
    ensures Agrees(frames, DecodeElements(top.total - |top.done|, s, |frames| + 1, top.done),
                   Run(Config(frames + [top], Untyped, s)))
    decreases |s|, 1
  {
    var all := frames + [top];
    RunDecodes(all, s);
    if Decode(s, |all|).Done? {
      var Done(r, rest) := Decode(s, |all|);
      var done := top.done + [r];
      PlaceTop(frames, top, r, rest);
      if |done| < top.total {
        RunDecodesElements(frames, Frame(top.total, done), rest);
      } else {
        assert DecodeElements(0, rest, |all|, done) == Done(Array(done), rest);
      }
    }
  }

  lemma PlaceTop(frames: seq<Frame>, top: Frame, r: Reply, rest: bytes)
    requires Config(frames, Untyped, rest).Valid()
    requires |frames| < MAX_DEPTH && |top.done| < top.total
    ensures var done := top.done + [r];
            Place(frames + [top], r, rest) ==
              if |done| == top.total then Place(frames, Array(done), rest)
              else Go(Config(frames + [Frame(top.total, done)], Untyped, rest))
  {
    assert (frames + [top])[..|frames|] == frames;
  }

  /** The stack reader is the recursive decoder. */
  lemma RunIsDecode(s: bytes)
    ensures match Decode(s, 0)
            case Done(r, rest) => Run(Fresh(s)) == Got(r, rest)
            case More => Run(Fresh(s)).Pending?
            case Broken => Run(Fresh(s)) == Failed
  {
    RunDecodes([], s);
  }

  /** Any reply a server can encode comes back unchanged and alone; nine array levels fail. */
  lemma RunEncode(r: Reply, tail: bytes)
    requires WellFormed(r)
    ensures Run(Fresh(Encode(r) + tail)) == if Depth(r) <= MAX_DEPTH then Got(r, tail) else Failed
  {
    DecodeEncode(r, 0, tail);
    RunIsDecode(Encode(r) + tail);
  }

  // ------------------------------------------------------- more bytes arrive later

  function ExtendStep(res: StepResult, more: bytes): StepResult
    requires !res.Stall?
  {
    match res
    case Go(c) => Go(c.Extend(more))
    case Finish(r, rest) => Finish(r, rest + more)
    case Crash => Crash
  }

  lemma {:induction false} PlaceExtend(frames: seq<Frame>, r: Reply, rest: bytes, more: bytes)
    requires Config(frames, Untyped, rest).Valid()
    ensures Place(frames, r, rest + more) == ExtendStep(Place(frames, r, rest), more)
  {
    if frames != [] {
      var outer := frames[..|frames| - 1];
      var top := frames[|frames| - 1];
      PlaceExtend(outer, Array(top.done + [r]), rest, more);
    }
  }

  lemma StepTypedExtend(frames: seq<Frame>, kind: Kind, s: bytes, more: bytes)
    requires kind != Untyped && Config(frames, kind, s).Valid()
    requires !StepTyped(frames, kind, s).Stall?
    ensures StepTyped(frames, kind, s + more) == ExtendStep(StepTyped(frames, kind, s), more)
  {
    if !(kind == ArrayKind && |frames| == MAX_DEPTH) {
      ReadItemExtend(kind, s, more);
      var item := ReadItem(kind, s);
      assert (s + more)[item.size..] == s[item.size..] + more;
      if item.Whole? {
        PlaceExtend(frames, item.reply, s[item.size..], more);
      }
    }
  }

  /** A step that did not stall is the same step with more bytes behind it; a step that
      stalled has lost nothing by having been tried. */
  lemma StepExtend(cfg: Config, more: bytes)
    requires cfg.Valid()
    ensures var res := Step(cfg);
            if res.Stall? then Step(cfg.Extend(more)) == Step(res.cfg.Extend(more))
            else Step(cfg.Extend(more)) == ExtendStep(res, more)
  {
    if cfg.kind != Untyped {
      if !Step(cfg).Stall? {
        StepTypedExtend(cfg.frames, cfg.kind, cfg.rest, more);
      }
    } else if cfg.rest != [] && KindOf(cfg.rest[0]).Some? {
      assert (cfg.rest + more)[1..] == cfg.rest[1..] + more;
      if !Step(cfg).Stall? {
        StepTypedExtend(cfg.frames, KindOf(cfg.rest[0]).value, cfg.rest[1..], more);
      }
    }
  }

  lemma {:induction false} RunExtend(cfg: Config, more: bytes)
    requires cfg.Valid()
    ensures match Run(cfg)
            case Got(r, rest) => Run(cfg.Extend(more)) == Got(r, rest + more)
            case Pending(c) => Run(cfg.Extend(more)) == Run(c.Extend(more))
            case Failed => Run(cfg.Extend(more)) == Failed
    decreases |cfg.rest|
  {
    StepExtend(cfg, more);
    if Step(cfg).Go? {
      RunExtend(Step(cfg).cfg, more);
    }
  }

  // --------------------------------------------------------------- draining

  /** Where a reader is left: waiting for bytes, or in the error state for good. */
  datatype State = Live(cfg: Config) | Dead {
    ghost predicate Valid() {
      Live? ==> cfg.Valid()
    }
  }

  /** The replies a caller takes before the reader waits or fails, and the reader after. */
  datatype Drained = Drained(replies: seq<Reply>, state: State)

  function Prepend(rs: seq<Reply>, d: Drained): Drained {
    Drained(rs + d.replies, d.state)
  }

  lemma PrependPrepend(a: seq<Reply>, b: seq<Reply>, d: Drained)
    ensures Prepend(a, Prepend(b, d)) == Prepend(a + b, d)
  {
    assert a + (b + d.replies) == a + b + d.replies;
  }

  lemma PrependNothing(d: Drained)
    ensures Prepend([], d) == d
  {
    assert [] + d.replies == d.replies;
  }

  function Drain(cfg: Config): (d: Drained)
    requires cfg.Valid()
    ensures d.state.Valid()
    decreases |cfg.rest|
  {
    match Run(cfg)
    case Got(r, rest) => Prepend([r], Drain(Fresh(rest)))
    case Pending(c) => Drained([], Live(c))
    case Failed => Drained([], Dead)
  }

  /** Feed one chunk and take every reply it completes. */
  function FeedAndDrain(st: State, chunk: bytes): (d: Drained)
    requires st.Valid()
    ensures d.state.Valid()
  {
    if st.Live? then Drain(st.cfg.Extend(chunk)) else Drained([], Dead)
  }

  function FeedChunks(st: State, chunks: seq<bytes>): (d: Drained)
    requires st.Valid()
    ensures d.state.Valid()
    decreases |chunks|
  {
    if chunks == [] then Drained([], st)
    else
      var first := FeedAndDrain(st, chunks[0]);
      Prepend(first.replies, FeedChunks(first.state, chunks[1..]))
  }

  lemma {:induction false} DrainExtend(cfg: Config, more: bytes)
    requires cfg.Valid()
    ensures Drain(cfg.Extend(more)) == Prepend(Drain(cfg).replies, FeedAndDrain(Drain(cfg).state, more))
    decreases |cfg.rest|
  {
    hide Run;
    RunExtend(cfg, more);
    match Run(cfg) {
      case Got(r, rest) =>
        DrainExtend(Fresh(rest), more);
        var d := Drain(Fresh(rest));
        assert Fresh(rest).Extend(more) == Fresh(rest + more);
        PrependPrepend([r], d.replies, FeedAndDrain(d.state, more));
      case Pending(c) =>
      case Failed =>
    }
  }

  lemma {:induction false} FeedChunksIsDrain(cfg: Config, chunks: seq<bytes>)
    requires cfg.Valid()
    ensures var d := Drain(cfg);
            Prepend(d.replies, FeedChunks(d.state, chunks)) == Drain(cfg.Extend(Concat(chunks)))
    decreases |chunks|
  {
    var d := Drain(cfg);
    if chunks == [] {
      assert cfg.rest + [] == cfg.rest;
      assert d.replies + [] == d.replies;
    } else {
      var first := FeedAndDrain(d.state, chunks[0]);
      var later := FeedChunks(first.state, chunks[1..]);
      DrainExtend(cfg, chunks[0]);
      FeedChunksIsDrain(cfg.Extend(chunks[0]), chunks[1..]);
      assert cfg.rest + Concat(chunks) == cfg.rest + chunks[0] + Concat(chunks[1..]);
      PrependPrepend(d.replies, first.replies, later);
    }
  }

  /** Chunking does not matter: the same replies, then the same wait or error, however the
      stream is cut. */
  lemma ChunkingIrrelevant(chunks: seq<bytes>)
    ensures FeedChunks(Live(Fresh([])), chunks) == Drain(Fresh(Concat(chunks)))
  {
    FeedChunksIsDrain(Fresh([]), chunks);
    assert [] + Concat(chunks) == Concat(chunks);
    PrependNothing(FeedChunks(Live(Fresh([])), chunks));
  }

  lemma DrainGot(cfg: Config)
    requires cfg.Valid() && Run(cfg).Got?
    ensures Drain(cfg) == Prepend([Run(cfg).reply], Drain(Fresh(Run(cfg).rest)))
  {
  }

  /** A stream of encoded replies drains to exactly those replies. */
  lemma {:induction false} DrainEncodeAll(rs: seq<Reply>, tail: bytes)
    requires forall i | 0 <= i < |rs| :: WellFormed(rs[i]) && Depth(rs[i]) <= MAX_DEPTH
    ensures Drain(Fresh(EncodeAll(rs) + tail)) == Prepend(rs, Drain(Fresh(tail)))
  {
    hide Encode, WellFormed, Depth, Run, Drain;
    var d := Drain(Fresh(tail));
    if rs == [] {
      assert EncodeAll(rs) + tail == tail;
      PrependNothing(d);
    } else {
      var rest := EncodeAll(rs[1..]) + tail;
      assert EncodeAll(rs) + tail == Encode(rs[0]) + rest by {
        assert EncodeAll(rs) == Encode(rs[0]) + EncodeAll(rs[1..]);
      }
      RunEncode(rs[0], rest);
      DrainGot(Fresh(Encode(rs[0]) + rest));
      DrainEncodeAll(rs[1..], tail);
      PrependPrepend([rs[0]], rs[1..], d);
      assert [rs[0]] + rs[1..] == rs;
    }
  }

  lemma {:induction false} DrainWhole(rs: seq<Reply>)
    requires forall i | 0 <= i < |rs| :: WellFormed(rs[i]) && Depth(rs[i]) <= MAX_DEPTH
    ensures Drain(Fresh(EncodeAll(rs))) == Drained(rs, Live(Fresh([])))
  {
    DrainEncodeAll(rs, []);
    assert EncodeAll(rs) + [] == EncodeAll(rs);
    assert rs + [] == rs;
  }

  /** However a server's replies are cut into chunks, the client takes exactly them. */
  lemma {:induction false} ChunkedReplies(rs: seq<Reply>, chunks: seq<bytes>)
    requires forall i | 0 <= i < |rs| :: WellFormed(rs[i]) && Depth(rs[i]) <= MAX_DEPTH
    requires Concat(chunks) == EncodeAll(rs)
    ensures FeedChunks(Live(Fresh([])), chunks) == Drained(rs, Live(Fresh([])))
  {
    ChunkingIrrelevant(chunks);
    DrainWhole(rs);
  }

  /** Cutting a stream of encoded replies short loses replies from its end only, and never
      breaks the reader. */
  lemma {:induction false} PrefixDrains(rs: seq<Reply>, cut: bytes)
    requires forall i | 0 <= i < |rs| :: WellFormed(rs[i]) && Depth(rs[i]) <= MAX_DEPTH
    requires cut <= EncodeAll(rs)
    ensures Drain(Fresh(cut)).replies <= rs && Drain(Fresh(cut)).state.Live?
  {
    var s := EncodeAll(rs);
    var more := s[|cut|..];
    assert Fresh(cut).Extend(more) == Fresh(s) by { assert cut + more == s; }
    DrainWhole(rs);
    DrainExtend(Fresh(cut), more);
  }

  /** A reply that is not there whole is waited for. */
  lemma PartWaits(r: Reply, part: bytes)
    requires WellFormed(r) && Depth(r) <= MAX_DEPTH && part <= Encode(r) && part != Encode(r)
    ensures Run(Fresh(part)).Pending?
  {
    hide Run, Encode, WellFormed, Depth;
    var more := Encode(r)[|part|..];
    assert Encode(r) + [] == Encode(r) && Fresh(part).Extend(more) == Fresh(Encode(r)) by {
      assert part + more == Encode(r);
    }
    RunExtend(Fresh(part), more);
    RunEncode(r, []);
  }

  /** What is left of a stream of encoded replies, cut anywhere, once its whole replies are taken. */
  ghost predicate Split(rs: seq<Reply>, cut: bytes, d: Drained) {
    var k := |d.replies|;
    && k <= |rs| && d.replies == rs[..k] && |EncodeAll(rs[..k])| <= |cut|
    && var rest := cut[|EncodeAll(rs[..k])|..];
       && cut == EncodeAll(rs[..k]) + rest
       && Drain(Fresh(rest)) == Drained([], d.state) && d.state.Live?
  }

  lemma SplitNone(rs: seq<Reply>, cut: bytes, d: Drained)
    requires d == Drain(Fresh(cut)) && d.replies == [] && d.state.Live?
    ensures Split(rs, cut, d)
  {
    hide Drain, Encode;
    assert rs[..0] == [] && cut[0..] == cut && [] + cut == cut;
  }

  lemma SplitMore(rs: seq<Reply>, later: bytes, d: Drained)
    requires rs != [] && Split(rs[1..], later, d)
    ensures Split(rs, Encode(rs[0]) + later, Prepend([rs[0]], d))
  {
    hide Drain, Encode;
    var e, k := Encode(rs[0]), |d.replies|;
    var used := EncodeAll(rs[1..][..k]);
    assert rs[..k + 1] == [rs[0]] + rs[1..][..k] && rs[..k + 1][1..] == rs[1..][..k];
    assert EncodeAll(rs[..k + 1]) == e + used;
    assert (e + later)[|e + used|..] == later[|used|..];
    assert e + (used + later[|used|..]) == e + used + later[|used|..];
  }

  lemma {:induction false} PrefixSplit(rs: seq<Reply>, cut: bytes)
    requires forall i | 0 <= i < |rs| :: WellFormed(rs[i]) && Depth(rs[i]) <= MAX_DEPTH
    requires cut <= EncodeAll(rs)
    ensures Split(rs, cut, Drain(Fresh(cut)))
  {
    hide Run, Encode, WellFormed, Depth, Drain, Split;
    if rs == [] {
      DrainWhole([]);
      SplitNone(rs, cut, Drain(Fresh(cut)));
    } else {
      var e := Encode(rs[0]);
      assert EncodeAll(rs) == e + EncodeAll(rs[1..]);
      if |cut| < |e| {
        assert cut <= e;
        PartWaits(rs[0], cut);
        DrainPending(Fresh(cut));
        SplitNone(rs, cut, Drain(Fresh(cut)));
      } else {
        var later := cut[|e|..];
        assert cut == e + later && later <= EncodeAll(rs[1..]);
        RunEncode(rs[0], later);
        DrainGot(Fresh(cut));
        PrefixSplit(rs[1..], later);
        SplitMore(rs, later, Drain(Fresh(later)));
      }
    }
  }

  lemma DrainPending(cfg: Config)
    requires cfg.Valid() && Run(cfg).Pending?
    ensures Drain(cfg) == Drained([], Live(Run(cfg).cfg))
  {
  }
}
