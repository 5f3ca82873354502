/** The subscriber's own copy of the subscription sets, and the callback that keeps it. */
module PubSub {
  import opened Bytes
  import opened Resp
  import opened Async

  const PSUBSCRIBE: bytes := [112] + SUBSCRIBE
  const PUNSUBSCRIBE: bytes := [112] + UNSUBSCRIBE
  const MESSAGE: bytes := [109, 101, 115, 115, 97, 103, 101]
  const PMESSAGE: bytes := [112] + MESSAGE

  /** The sets `channels_` and `patterns_`. */
  datatype Sets = Sets(channels: set<bytes>, patterns: set<bytes>) {
    function Insert(pvariant: bool, name: bytes): Sets {
      if pvariant then this.(patterns := patterns + {name}) else this.(channels := channels + {name})
    }

    function Erase(pvariant: bool, name: bytes): Sets {
      if pvariant then this.(patterns := patterns - {name}) else this.(channels := channels - {name})
    }

    function Of(pvariant: bool): set<bytes> {
      if pvariant then patterns else channels
    }
  }

  /** strncmp(literal, s, |s|) == 0: the comparison stops at the end of s or at a NUL. */
  predicate SamePrefix(literal: bytes, s: bytes) {
    var t := CStr(s);
    if |t| == |s| then s <= literal else t == literal
  }

  /** The bytes an element's str and len fields give: none unless it holds text. */
  function Text(r: Reply): bytes {
    match r
    case Str(t) => t
    case Status(t) => t
    case Error(t) => t
    case _ => []
  }

  /** What one element of a reply means to the callback, and how many elements it takes. */
  datatype Notice = Change(subscribe: bool, pvariant: bool) | Message(pvariant: bool) | Other

  function NoticeOf(kind: bytes): Notice {
    if SamePrefix(SUBSCRIBE, kind) then Change(true, false)
    else if SamePrefix(UNSUBSCRIBE, kind) then Change(false, false)
    else if SamePrefix(PSUBSCRIBE, kind) then Change(true, true)
    else if SamePrefix(PUNSUBSCRIBE, kind) then Change(false, true)
    else if SamePrefix(MESSAGE, kind) then Message(false)
    else if SamePrefix(PMESSAGE, kind) then Message(true)
    else Other
  }

  function Width(notice: Notice): nat {
    if notice == Message(true) then 4 else if notice == Other then 1 else 3
  }

  /** The notice at the head of the elements. */
  function First(es: seq<Reply>): Notice
    requires es != []
  {
    NoticeOf(Text(es[0]))
  }

  /** No notice reaches behind the elements. */
  predicate WellShaped(es: seq<Reply>)
    decreases |es|
  {
    es == [] || (Width(First(es)) <= |es| && WellShaped(es[Width(First(es))..]))
  }

  function NoteOne(s: Sets, notice: Notice, name: bytes): Sets {
    match notice
    case Change(true, p) => s.Insert(p, name)
    case Change(false, p) => s.Erase(p, name)
    case _ => s
  }

  /** The sets after sub_callback has gone through a reply, up to a notice that reaches behind it. */
  function Noted(s: Sets, es: seq<Reply>): Sets
    decreases |es|
  {
    if es == [] || Width(First(es)) > |es| then s
    else Noted(NoteOne(s, First(es), if |es| > 1 then Text(es[1]) else []), es[Width(First(es))..])
  }

  /** The calls of the listener that one notice leads to. */
  function CallsOf(notice: Notice, es: seq<Reply>): seq<seq<bytes>>
    requires |es| >= Width(notice)
  {
    match notice
    case Message(false) => [[Text(es[1]), Text(es[2])]]
    case Message(true) => [[Text(es[1]), Text(es[2]), Text(es[3])]]
    case _ => []
  }

  /** The texts the listener is called with, message by message. */
  function Messages(es: seq<Reply>): seq<seq<bytes>>
    decreases |es|
  {
    if es == [] || Width(First(es)) > |es| then []
    else CallsOf(First(es), es) + Messages(es[Width(First(es))..])
  }

  lemma NextNotice(s: Sets, es: seq<Reply>)
    requires es != [] && Width(First(es)) <= |es|
    ensures var n := Width(First(es));
            && WellShaped(es) == WellShaped(es[n..])
            && Noted(s, es) == Noted(NoteOne(s, First(es), if |es| > 1 then Text(es[1]) else []), es[n..])
            && Messages(es) == CallsOf(First(es), es) + Messages(es[n..])
  {
    hide NoticeOf, NoteOne, CallsOf, Text;
  }

  lemma LastNotice(s: Sets, es: seq<Reply>)
    requires es == [] || Width(First(es)) > |es|
    ensures WellShaped(es) == (es == []) && Noted(s, es) == s && Messages(es) == []
  {
  }

  /** The elements of a reply; a negative count is a huge number of elements without any there. */
  function Elements(reply: Reply): seq<Reply> {
    if reply.Array? then reply.elements else []
  }

  /** The class of pubsub.cpp; `heard` is what its listener was called with. */
  class Subscriber {
    var channels: set<bytes>
    var patterns: set<bytes>
    var heard: seq<seq<bytes>>

    constructor ()
      ensures channels == {} && patterns == {} && heard == []
    {
      channels, patterns, heard := {}, {}, [];
    }

    function View(): Sets
      reads this
    {
      Sets(channels, patterns)
    }

    /** sub_callback; None is the NULL reply of a context that is being freed. The result tells
        whether every element it read was there; it stops before one that is not. */
    method SubCallback(reply: Option<Reply>) returns (ok: bool)
      modifies this
      ensures ok == (reply.Some? ==> !reply.value.Hollow? && WellShaped(Elements(reply.value)))
      ensures View() == if reply.None? then old(View()) else Noted(old(View()), Elements(reply.value))
      ensures heard == if reply.None? then old(heard) else old(heard) + Messages(Elements(reply.value))
    {
      hide SamePrefix, WellShaped, Noted, Messages;
      if reply.None? { return true; }
      var es := Elements(reply.value);
      var index := 0;
      assert es[0..] == es;
      while index < |es|
        invariant 0 <= index <= |es| && WellShaped(es[index..]) == WellShaped(es)
        invariant Noted(View(), es[index..]) == Noted(old(View()), es)
        invariant heard + Messages(es[index..]) == old(heard) + Messages(es)
      {
        var n := Width(NoticeOf(Text(es[index])));
        if index + n > |es| {
          LastNotice(View(), es[index..]);
          return false;
        }
        NextNotice(View(), es[index..]);
        assert es[index..][n..] == es[index + n..];
        assert heard + (CallsOf(First(es[index..]), es[index..]) + Messages(es[index + n..])) ==
               heard + CallsOf(First(es[index..]), es[index..]) + Messages(es[index + n..]);
        Note(es[index..]);
        index := index + n;
      }
      assert es[index..] == [];
      LastNotice(View(), es[index..]);
      return !reply.value.Hollow?;
    }

    /** One round of the loop: the branches of sub_callback on the kind at the head of `es`. */
    method Note(es: seq<Reply>)
      requires es != [] && Width(First(es)) <= |es|
      modifies this
      ensures View() == NoteOne(old(View()), First(es), if |es| > 1 then Text(es[1]) else [])
      ensures heard == old(heard) + CallsOf(First(es), es)
    {
      hide SamePrefix;
      var kind := Text(es[0]);
      if SamePrefix(SUBSCRIBE, kind) {
        channels := channels + {Text(es[1])};
      } else if SamePrefix(UNSUBSCRIBE, kind) {
        channels := channels - {Text(es[1])};
      } else if SamePrefix(PSUBSCRIBE, kind) {
        patterns := patterns + {Text(es[1])};
      } else if SamePrefix(PUNSUBSCRIBE, kind) {
        patterns := patterns - {Text(es[1])};
      } else if SamePrefix(MESSAGE, kind) {
        heard := heard + [[Text(es[1]), Text(es[2])]];
      } else if SamePrefix(PMESSAGE, kind) {
        heard := heard + [[Text(es[1]), Text(es[2]), Text(es[3])]];
      }
    }
  }
}
