/** Subscriber::reconnect: what becomes of the sets it kept. */
module Reconnect {
  import opened Bytes
  import opened Resp
  import opened Async
  import opened PubSub
  import opened Subscriptions


  /** Everything that is due arrives. */
  ghost function ConfirmAll(w: World): World
    decreases |w.pending|
  {
    if w.pending == [] then w
    else
      ConfirmedPending(w);
      ConfirmAll(Confirmed(w))
  }

  /** Only subscriptions are unconfirmed, and their names are registered. */
  ghost predicate Subscribing(w: World) {
    && Idle(w.ctx) && QueueFirst(w) && (|w.pending| > |w.ctx.replies| ==> w.ctx.flags.subscribed)
    && forall i | |w.ctx.replies| <= i < |w.pending| :: w.pending[i] == Refusal || IsRegistered(w.ctx, w.pending[i])
  }

  predicate IsRegistered(c: Ctx, d: Owed) {
    d.Confirm? && d.subscribe && d.name in Table(c, d.pvariant) && Table(c, d.pvariant)[d.name] == SUB
  }

  lemma {:induction false} DeadStays(w: World)
    requires w.ctx.phase != Alive
    ensures ConfirmAll(w).ctx.phase != Alive
    decreases |w.pending|
  {
    hide Noted;
    if w.pending != [] {
      ConfirmedPending(w);
      DeadStays(Confirmed(w));
    }
  }

  /** The head is confirmed, or refused as a queued callback expects. */
  lemma SubscribingNext(w: World)
    requires Subscribing(w) && w.pending != [] && !HeadFatal(w)
    ensures var w' := Confirmed(w);
            && Subscribing(w') && w'.sub == ServerAfter(w.sub, w.pending[0])
            && (Sensible(w) <==> Sensible(w'))
  {
    hide Confirmed, Traced, ConfirmReply, Idle;
    ConfirmedPending(w);
    var c, w' := w.pending[0], Confirmed(w);
    if w.ctx.replies != [] {
      HeadRefused(w);
      RefusalHeard(w);
      ShiftIdle(w.ctx);
      TracedIdle(Shift(w.ctx, Some(Error(ERR))), FromReplies, SUB, Error(ERR));
    } else {
      assert IsRegistered(w.ctx, c);
      ConfirmEffect(w);
      TracedIdle(w.ctx, FromTable(c.pvariant, c.name), SUB, OwedReply(c, ServerAfter(w.server, c)));
    }
    SubscribingKept(w, w');
  }

  lemma ShiftIdle(c: Ctx)
    requires Idle(c) && c.replies != []
    ensures var d := Shift(c, Some(Error(ERR)));
            Idle(d) && d.tables == c.tables && d.flags == c.flags && d.replies == c.replies[1..]
  {
  }

  lemma SubscribingKept(w: World, w': World)
    requires Subscribing(w) && w.pending != [] && !HeadFatal(w) && Idle(w'.ctx)
    requires w'.pending == w.pending[1..] && w'.server == ServerAfter(w.server, w.pending[0])
    requires w'.ctx.replies == if w.ctx.replies == [] then [] else w.ctx.replies[1..]
    requires w'.ctx.tables == w.ctx.tables && w'.ctx.flags.subscribed == w.ctx.flags.subscribed
    ensures Subscribing(w') && (Sensible(w) <==> Sensible(w'))
  {
    hide Idle;
    if w.ctx.replies != [] { HeadRefused(w); }
    forall i | 0 <= i < |w'.pending| ensures w'.pending[i] == w.pending[i + 1] {}
    forall i | 0 <= i < |w'.ctx.replies| ensures w'.ctx.replies[i] == SUB && w'.pending[i] == Refusal {
      assert w.ctx.replies[i + 1] == SUB && w.pending[i + 1] == Refusal;
    }
    forall i | |w'.ctx.replies| <= i < |w'.pending|
      ensures w'.pending[i] == Refusal || IsRegistered(w'.ctx, w'.pending[i])
    {
      assert w.pending[i + 1] == Refusal || IsRegistered(w.ctx, w.pending[i + 1]);
    }
    if Sensible(w') {
      forall i | |w.ctx.replies| <= i < |w.pending| ensures w.pending[i].Confirm? {
        if i > 0 { assert w'.pending[i - 1].Confirm?; }
      }
    }
    if Sensible(w) {
      forall i | |w'.ctx.replies| <= i < |w'.pending| ensures w'.pending[i].Confirm? {
        assert w.pending[i + 1].Confirm?;
      }
    }
  }

  lemma {:induction false} SubscribingExact(w: World)
    requires Subscribing(w)
    ensures var all := ConfirmAll(w);
            && (all.ctx.phase == Alive <==> Sensible(w))
            && (Sensible(w) ==> all.sub == AfterAll(w.sub, w.pending) && all.server == AfterAll(w.server, w.pending))
    decreases |w.pending|
  {
    hide Confirmed, Subscribing, ServerAfter;
    if w.pending == [] {
      assert Idle(w.ctx) by { SubscribingIdle(w); }
    } else if HeadFatal(w) {
      SubscribingIdle(w);
      RefusalEnds(w);
      ConfirmedPending(w);
      DeadStays(Confirmed(w));
      assert !w.pending[0].Confirm?;
    } else {
      ConfirmedPending(w);
      SubscribingNext(w);
      SubscribingExact(Confirmed(w));
    }
  }

  lemma SubscribingIdle(w: World)
    requires Subscribing(w)
    ensures Idle(w.ctx) && (w.pending != [] && HeadFatal(w) ==> w.pending[0] == Refusal)
  {
    hide Idle;
    assert w.pending != [] && w.ctx.replies == [] ==> w.pending[0] == Refusal || IsRegistered(w.ctx, w.pending[0]);
  }

  lemma {:induction false} AfterAllConfirms(s: Sets, pvariant: bool, names: seq<bytes>)
    ensures var t := AfterAll(s, Confirms(true, pvariant, names));
            t.Of(pvariant) == s.Of(pvariant) + (set n | n in names) && t.Of(!pvariant) == s.Of(!pvariant)
    decreases |names|
  {
    var cs := Confirms(true, pvariant, names);
    if names != [] {
      assert cs[0] == Confirm(true, pvariant, names[0]) && cs[1..] == Confirms(true, pvariant, names[1..]);
      AfterAllConfirms(ServerAfter(s, cs[0]), pvariant, names[1..]);
      assert forall n :: n in names <==> n == names[0] || n in names[1..];
    }
  }

  lemma AfterAllOwes(s: Sets, pvariant: bool, names: seq<bytes>)
    ensures var t := AfterAll(s, Owes(s, true, pvariant, names, []));
            t.Of(pvariant) == s.Of(pvariant) + (set n | n in names) && t.Of(!pvariant) == s.Of(!pvariant)
  {
    if names == [] {
      assert [Refusal][1..] == [];
    } else {
      AfterAllConfirms(s, pvariant, names);
    }
  }

  lemma NamesRegistered(c: Ctx, pvariant: bool, names: seq<bytes>, d: Owed)
    requires IsRegistered(c, d) || (exists i :: 0 <= i < |names| && d == Confirm(true, pvariant, names[i]))
    ensures IsRegistered(Registered(c, pvariant, names), d)
  {
    RegisterEffect(Table(c, pvariant), names, SUB);
  }

  /** A subscription joins them; without names it is refused, which is harmless out of subscribed mode. */
  lemma SubscribingSend(w: World, pvariant: bool, names: seq<bytes>)
    requires Subscribing(w) && NoNames(w.server)
    ensures var w' := AfterSend(w, true, pvariant, names, []);
            && Subscribing(w') && w'.sub == w.sub && w'.server == w.server
            && w'.pending == w.pending + Owes(w.server, true, pvariant, names, [])
            && (w'.ctx.flags.subscribed <==> w.ctx.flags.subscribed || names != [])
            && (Sensible(w') <==> Sensible(w) && (names != [] || !w.ctx.flags.subscribed))
  {
    hide AsyncCommand, CommandName, AddSubscriptions, AfterAll, Register;
    SendEffect(w.ctx, true, pvariant, names);
    if names == [] { NamelessSent(w, pvariant); } else { NamesSent(w, pvariant, names); }
  }

  lemma NamesSent(w: World, pvariant: bool, names: seq<bytes>)
    requires Subscribing(w) && names != []
    ensures var w' := w.(ctx := Append(Registered(w.ctx, pvariant, names), [CommandName(true, pvariant)] + names, SUB),
                         pending := w.pending + Confirms(true, pvariant, names));
            Subscribing(w') && (Sensible(w') <==> Sensible(w)) && w'.ctx.flags.subscribed
  {
    hide CommandName, AddSubscriptions, Registered, IsRegistered;
    var more := Confirms(true, pvariant, names);
    var w' := w.(ctx := Append(Registered(w.ctx, pvariant, names), [CommandName(true, pvariant)] + names, SUB),
                 pending := w.pending + more);
    RegisteredIdle(w.ctx, pvariant, names);
    SameTables(Registered(w.ctx, pvariant, names), [CommandName(true, pvariant)] + names);
    forall i | |w.ctx.replies| <= i < |w'.pending|
      ensures w'.pending[i] == Refusal || IsRegistered(w'.ctx, w'.pending[i])
    {
      if i < |w.pending| {
        assert w'.pending[i] == w.pending[i];
      } else {
        assert w'.pending[i] == more[i - |w.pending|] == Confirm(true, pvariant, names[i - |w.pending|]);
      }
      if w'.pending[i] != Refusal { NamesRegistered(w.ctx, pvariant, names, w'.pending[i]); }
      assert IsRegistered(Registered(w.ctx, pvariant, names), w'.pending[i]) ==> IsRegistered(w'.ctx, w'.pending[i]);
    }
    PendingGrows(w, w', more);
  }

  lemma SameTables(c: Ctx, args: seq<bytes>)
    ensures forall d :: IsRegistered(c, d) ==> IsRegistered(Append(c, args, SUB), d)
  {
  }

  /** What is owed in addition matters to the discipline by itself. */
  lemma PendingGrows(w: World, w': World, more: seq<Owed>)
    requires |w.ctx.replies| <= |w.pending| && w'.pending == w.pending + more
    requires w'.ctx.replies == w.ctx.replies
    ensures Sensible(w') <==> Sensible(w) && forall i | 0 <= i < |more| :: more[i].Confirm?
  {
    if Sensible(w') {
      forall i | 0 <= i < |more| ensures more[i].Confirm? { assert w'.pending[|w.pending| + i] == more[i]; }
      forall i | |w.ctx.replies| <= i < |w.pending| ensures w.pending[i].Confirm? {
        assert w'.pending[i] == w.pending[i];
      }
    }
  }

  lemma SameEntries(c: Ctx, d: Ctx)
    requires c.tables == d.tables
    ensures forall o :: IsRegistered(c, o) <==> IsRegistered(d, o)
  {
  }

  lemma NamelessSent(w: World, pvariant: bool)
    requires Subscribing(w) && NoNames(w.server)
    ensures var c := if w.ctx.flags.subscribed then PushInvalid(w.ctx, SUB) else Push(w.ctx, SUB);
            var w' := w.(ctx := Append(c, [CommandName(true, pvariant)] + [], SUB), pending := w.pending + [Refusal]);
            && Subscribing(w') && w'.ctx.flags == w.ctx.flags
            && (Sensible(w') <==> Sensible(w) && !w.ctx.flags.subscribed)
  {
    hide CommandName, IsRegistered;
    var c := if w.ctx.flags.subscribed then PushInvalid(w.ctx, SUB) else Push(w.ctx, SUB);
    var w' := w.(ctx := Append(c, [CommandName(true, pvariant)] + [], SUB), pending := w.pending + [Refusal]);
    SameEntries(w.ctx, w'.ctx);
    forall i | |w'.ctx.replies| <= i < |w'.pending|
      ensures w'.pending[i] == Refusal || IsRegistered(w'.ctx, w'.pending[i])
    {
      if i < |w.pending| { assert w'.pending[i] == w.pending[i]; }
    }
    if w.ctx.flags.subscribed { assert !w'.pending[|w.pending|].Confirm?; }
  }

  /** Subscriber::reconnect: on a new context, with the sets that it kept, it subscribes all channels
      and then all patterns. The context survives the server's replies, with both sets equal to what
      they were, if and only if there are patterns or no channels: otherwise the second command has no
      names, and it is refused in subscribed mode. */
  lemma ReconnectExact(sets: Sets, channels: seq<bytes>, patterns: seq<bytes>)
    requires forall n :: n in channels <==> n in sets.channels
    requires forall n :: n in patterns <==> n in sets.patterns
    ensures var w1 := AfterSend(World(Init, sets, Sets({}, {}), []), true, false, channels, []);
            var w := ConfirmAll(AfterSend(w1, true, true, patterns, []));
            && (w.ctx.phase == Alive <==> sets.channels == {} || sets.patterns != {})
            && (w.ctx.phase == Alive ==> w.sub == sets && w.server == sets)
  {
    hide AfterSend, Subscribing, Confirms, Sensible, Owes, AfterAll, ConfirmAll;
    var none := Sets({}, {});
    var w0 := World(Init, sets, none, []);
    NewContext(sets);
    SubscribingSend(w0, false, channels);
    var w1 := AfterSend(w0, true, false, channels, []);
    SubscribingSend(w1, true, patterns);
    var w2 := AfterSend(w1, true, true, patterns, []);
    SubscribingExact(w2);
    SomeNames(channels, sets.channels);
    SomeNames(patterns, sets.patterns);
    BothConfirmed(none, channels, patterns);
    BothConfirmed(sets, channels, patterns);
    assert [] + Owes(none, true, false, channels, []) == Owes(none, true, false, channels, []);
  }

  lemma NewContext(sets: Sets)
    ensures var w := World(Init, sets, Sets({}, {}), []); Subscribing(w) && Sensible(w)
  {
  }

  lemma SomeNames(names: seq<bytes>, all: set<bytes>)
    requires forall n :: n in names <==> n in all
    ensures names == [] <==> all == {}
  {
    if names != [] { assert names[0] in all; }
  }

  lemma BothConfirmed(s: Sets, channels: seq<bytes>, patterns: seq<bytes>)
    ensures AfterAll(s, Owes(Sets({}, {}), true, false, channels, []) + Owes(Sets({}, {}), true, true, patterns, [])) ==
            Sets(s.channels + (set n | n in channels), s.patterns + (set n | n in patterns))
  {
    hide AfterAll;
    var a, b := Owes(Sets({}, {}), true, false, channels, []), Owes(Sets({}, {}), true, true, patterns, []);
    AfterAllAppend(s, a, b);
    AfterAllOwes(s, false, channels);
    AfterAllOwes(AfterAll(s, a), true, patterns);
    var t, u := AfterAll(s, a), AfterAll(AfterAll(s, a), b);
    assert t.Of(false) == t.channels && t.Of(true) == t.patterns && u.Of(true) == u.patterns
           && u.Of(false) == u.channels;
    assert s.Of(false) == s.channels && s.Of(true) == s.patterns;
  }
}
