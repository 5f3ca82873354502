/** A caller's loops around the reader object: after every chunk it takes all the replies there are.
    The objects it gets are those of the whole stream, however the stream was cut. */
module ReaderChunks {
  import opened Bytes
  import opened Resp
  import opened ReaderMachine
  import opened Reader

  /** The objects stand for the replies, each inside its own tree. */
  ghost predicate RepresentAll(outs: seq<ReplyObject>, rs: seq<Reply>, trees: seq<set<ReplyObject>>)
    reads set i, o | 0 <= i < |trees| && o in trees[i] :: o
  {
    |outs| == |rs| == |trees| && forall i | 0 <= i < |rs| :: Represents(outs[i], rs[i], trees[i])
  }

  /** What the reader may still write to lies outside the trees that were handed out. */
  ghost predicate Apart(open: seq<ReplyObject>, trees: seq<set<ReplyObject>>) {
    forall k, i | 0 <= k < |open| && 0 <= i < |trees| :: open[k] !in trees[i]
  }

  lemma BetweenReplies(r: Reader)
    requires r.Valid()
    ensures r.View().Dead? <==> r.err
    ensures r.View().Live? ==> r.View().cfg.Waiting()
    ensures r.View().Live? && r.View().cfg.frames == [] ==> r.open == []
  {
    hide r.Level;
  }

  /** redisReaderGetReply on a reader without an error. */
  method TakeOne(r: Reader) returns (out: ReplyObject?, ghost tree: set<ReplyObject>)
    requires r.Valid() && r.View().Live?
    modifies r, r.rstack, r.open
    ensures r.Valid() && r.View().Valid() && (r.err <==> r.View().Dead?)
    ensures match Run(old(r.View()).cfg)
            case Got(x, rest) => out != null && Represents(out, x, tree) && r.View() == Live(Fresh(rest))
                && r.open == []
            case Pending(c) => out == null && r.View() == Live(c)
            case Failed => out == null && r.View() == Dead
    ensures forall k | 0 <= k < |r.open| :: r.open[k] in old(r.open) || fresh(r.open[k])
  {
    hide r.Valid, r.View, Represents, Run;
    BetweenReplies(r);
    var ok;
    ok, out := r.GetReply();
    BetweenReplies(r);
    tree := r.built;
  }

  /** Takes replies until there is none left or the reader fails. */
  method TakeReplies(r: Reader) returns (outs: seq<ReplyObject>, ghost trees: seq<set<ReplyObject>>)
    requires r.Valid() && r.View().Live? && r.View().Valid()
    modifies r, r.rstack, r.open
    ensures r.Valid() && r.View() == Drain(old(r.View()).cfg).state && (r.err <==> r.View().Dead?)
    ensures RepresentAll(outs, Drain(old(r.View()).cfg).replies, trees) && Apart(r.open, trees)
    ensures forall k | 0 <= k < |r.open| :: r.open[k] in old(r.open) || fresh(r.open[k])
  {
    hide r.Valid, r.View, Represents, Run;
    outs, trees := [], [];
    ghost var start := r.View().cfg;
    ghost var rs: seq<Reply> := [];
    PrependNothing(Drain(start));
    while true
      invariant r.Valid() && r.View().Live? && r.View().Valid()
      invariant Drain(start) == Prepend(rs, Drain(r.View().cfg))
      invariant RepresentAll(outs, rs, trees)
      invariant r.open == if outs == [] then old(r.open) else []
      decreases |r.View().cfg.rest|
    {
      ghost var cfg := r.View().cfg;
      var out;
      ghost var tree;
      out, tree := TakeOne(r);
      if out == null { break; }
      ghost var reply := Run(cfg).reply;
      PrependPrepend(rs, [reply], Drain(Fresh(Run(cfg).rest)));
      outs, trees, rs := outs + [out], trees + [tree], rs + [reply];
    }
    assert rs + [] == rs;
  }

  /** One chunk is fed, and every reply it completes is taken. */
  method FeedOne(r: Reader, chunk: bytes) returns (outs: seq<ReplyObject>, ghost trees: seq<set<ReplyObject>>)
    requires r.Valid() && r.View().Valid()
    modifies r, r.rstack, r.open
    ensures r.Valid() && r.View() == FeedAndDrain(old(r.View()), chunk).state
    ensures RepresentAll(outs, FeedAndDrain(old(r.View()), chunk).replies, trees) && Apart(r.open, trees)
    ensures forall k | 0 <= k < |r.open| :: r.open[k] in old(r.open) || fresh(r.open[k])
  {
    hide r.Valid, r.View, Represents, Drain;
    BetweenReplies(r);
    var fed := r.Feed(chunk);
    if fed {
      outs, trees := TakeReplies(r);
    } else {
      outs, trees := [], [];
    }
  }

  lemma ChunkStep(rs: seq<Reply>, st: State, chunks: seq<bytes>)
    requires st.Valid() && chunks != []
    ensures var first := FeedAndDrain(st, chunks[0]);
            Prepend(rs, FeedChunks(st, chunks)) == Prepend(rs + first.replies, FeedChunks(first.state, chunks[1..]))
  {
    hide FeedAndDrain;
    var first := FeedAndDrain(st, chunks[0]);
    PrependPrepend(rs, first.replies, FeedChunks(first.state, chunks[1..]));
  }

  lemma NoChunks(st: State)
    requires st.Valid()
    ensures FeedChunks(st, []) == Drained([], st)
  {
  }

  lemma NoTrees(open: seq<ReplyObject>)
    ensures Apart(open, [])
  {
  }

  lemma ApartMore(open: seq<ReplyObject>, a: seq<set<ReplyObject>>, b: seq<set<ReplyObject>>)
    requires Apart(open, a) && Apart(open, b)
    ensures Apart(open, a + b)
  {
  }

  /** Chunking does not matter to the caller of the reader object: the replies it takes are those of
      the whole stream, and the reader is left in the same state. */
  method ReceiveChunks(r: Reader, chunks: seq<bytes>)
    returns (outs: seq<ReplyObject>, ghost trees: seq<set<ReplyObject>>)
    requires r.Valid() && r.View() == Live(Fresh([]))
    modifies r, r.rstack, r.open
    ensures r.Valid() && r.View() == Drain(Fresh(Concat(chunks))).state
    ensures RepresentAll(outs, Drain(Fresh(Concat(chunks))).replies, trees)
  {
    hide r.Valid, r.View, Represents, Drain, Concat, FeedAndDrain, FeedChunks;
    outs, trees := [], [];
    ghost var rs: seq<Reply> := [];
    var i := 0;
    assert chunks[0..] == chunks && Apart(r.open, []) by { NoTrees(r.open); }
    PrependNothing(FeedChunks(Live(Fresh([])), chunks));
    while i < |chunks|
      invariant 0 <= i <= |chunks| && r.Valid() && r.View().Valid()
      invariant FeedChunks(Live(Fresh([])), chunks) == Prepend(rs, FeedChunks(r.View(), chunks[i..]))
      invariant RepresentAll(outs, rs, trees) && Apart(r.open, trees)
      invariant forall k | 0 <= k < |r.open| :: r.open[k] in old(r.open) || fresh(r.open[k])
    {
      ghost var first := FeedAndDrain(r.View(), chunks[i]);
      ChunkStep(rs, r.View(), chunks[i..]);
      assert chunks[i..][1..] == chunks[i + 1..];
      var more;
      ghost var moreTrees;
      label fed:
      more, moreTrees := FeedOne(r, chunks[i]);
      assert forall n | 0 <= n < |rs| :: old@fed(Represents(outs[n], rs[n], trees[n]));
      ApartMore(r.open, trees, moreTrees);
      outs, trees := outs + more, trees + moreTrees;
      rs := rs + first.replies;
      i := i + 1;
    }
    assert rs + [] == rs && chunks[i..] == [];
    NoChunks(r.View());
    ChunkingIrrelevant(chunks);
  }
}
