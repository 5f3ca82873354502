/** The reader as it runs: a cursor into a buffer, a nine-slot task array and reply objects
    that are linked into their parents before they are complete. */
module Reader {
  import opened Bytes
  import opened Resp
  import opened ReaderMachine

  /** redisReply: `str` is filled for strings, `integer` for integers and `element` for arrays. */
  class ReplyObject {
    const kind: Kind
    const nil: bool
    var integer: int
    var str: bytes
    var elements: int
    var element: seq<ReplyObject?>

    constructor String(kind: Kind, str: bytes)
      ensures this.kind == kind && !nil && this.str == str
    {
      this.kind, this.nil, this.integer, this.str := kind, false, 0, str;
      elements, element := 0, [];
    }

    constructor Integer(value: int)
      ensures kind == IntegerKind && !nil && integer == value
    {
      kind, nil, integer, str := IntegerKind, false, value, [];
      elements, element := 0, [];
    }

    constructor Nil()
      ensures nil
    {
      kind, nil, integer, str := Untyped, true, 0, [];
      elements, element := 0, [];
    }

    /** The element vector of an array starts out with empty slots. */
    constructor Array(count: int)
      ensures kind == ArrayKind && !nil && elements == count
      ensures |element| == if count > 0 then count else 0
      ensures forall i | 0 <= i < |element| :: element[i] == null
    {
      kind, nil, integer, str := ArrayKind, false, 0, [];
      elements := count;
      element := seq(if count > 0 then count else 0, _ => null);
    }
  }

  /** o is the root of a finished object tree for r, all of it inside `tree`. */
  ghost predicate Represents(o: ReplyObject, r: Reply, tree: set<ReplyObject>)
    reads tree
    decreases r
  {
    && o in tree
    && match r
       case Status(t) => o.kind == StatusKind && !o.nil && o.str == t
       case Error(t) => o.kind == ErrorKind && !o.nil && o.str == t
       case Str(t) => o.kind == StrKind && !o.nil && o.str == t
       case Integer(v) => o.kind == IntegerKind && !o.nil && o.integer == v
       case Nil => o.nil
       case Hollow(n) => o.kind == ArrayKind && !o.nil && o.elements == n && o.element == []
       case Array(es) =>
         && o.kind == ArrayKind && !o.nil
         && o.elements == |es| == |o.element|
         && forall i | 0 <= i < |es| :: o.element[i] != null && Represents(o.element[i], es[i], tree)
  }

  lemma {:induction false} RepresentsGrows(o: ReplyObject, r: Reply, a: set<ReplyObject>, b: set<ReplyObject>)
    requires Represents(o, r, a) && a <= b
    ensures Represents(o, r, b)
    decreases r
  {
    if r.Array? {
      forall i | 0 <= i < |r.elements|
        ensures Represents(o.element[i], r.elements[i], b)
      {
        RepresentsGrows(o.element[i], r.elements[i], a, b);
      }
    }
  }

  /** An array object whose first elements are finished. */
  ghost predicate Partial(o: ReplyObject, f: Frame, tree: set<ReplyObject>)
    reads o, tree
  {
    && o.kind == ArrayKind && !o.nil
    && o.elements == f.total == |o.element|
    && |f.done| <= f.total
    && forall j | 0 <= j < |f.done| :: o.element[j] != null && Represents(o.element[j], f.done[j], tree)
  }

  lemma PartialGrows(o: ReplyObject, f: Frame, a: set<ReplyObject>, b: set<ReplyObject>)
    requires Partial(o, f, a) && a <= b
    ensures Partial(o, f, b)
  {
    forall j | 0 <= j < |f.done| ensures Represents(o.element[j], f.done[j], b) {
      RepresentsGrows(o.element[j], f.done[j], a, b);
    }
  }

  lemma PartialPush(o: ReplyObject, f: Frame, child: ReplyObject, r: Reply, tree: set<ReplyObject>)
    requires Partial(o, f, tree) && |f.done| < f.total
    requires o.element[|f.done|] == child && Represents(child, r, tree)
    ensures Partial(o, Frame(f.total, f.done + [r]), tree)
  {
  }

  /** The last element makes the array object a finished one. */
  lemma PartialComplete(o: ReplyObject, f: Frame, tree: set<ReplyObject>)
    requires Partial(o, f, tree) && |f.done| == f.total
    ensures Represents(o, Array(f.done), tree + {o})
  {
    PartialGrows(o, f, tree, tree + {o});
  }

  /** An object takes the next slot of an array; what the array stood for stays. */
  method SetSlot(o: ReplyObject, idx: nat, obj: ReplyObject, ghost f: Frame, ghost tree: set<ReplyObject>)
    requires Partial(o, f, tree) && o !in tree && idx == |f.done| < f.total
    modifies o`element
    ensures Partial(o, f, tree) && idx < |o.element| && o.element[idx] == obj
  {
    hide Represents;
    o.element := o.element[idx := obj];
    forall j | 0 <= j < |f.done| ensures o.element[j] != null && Represents(o.element[j], f.done[j], tree) {
      assert old(Represents(o.element[j], f.done[j], tree));
    }
  }

  /** redisReadTask; `parent` is the index of the parent's slot, -1 for none. */
  datatype Task = Task(kind: Kind, elements: int, idx: int, obj: ReplyObject?, parent: int)

  /** seekNewline over `len` bytes that are followed by a terminator. */
  method SeekNewline(s: bytes, len: nat) returns (r: Option<nat>)
    requires len < |s| && s[len] == NUL
    ensures r == FindCrlf(s[..len])
  {
    var pos, last := 0, len - 1;
    while pos < last
      invariant 0 <= pos && (pos <= last || len == 0 || pos == len)
      invariant forall j | 0 <= j < pos :: !CrlfAt(s[..len], j)
    {
      while pos < last && s[pos] != CR
        invariant 0 <= pos <= last
        invariant forall j | 0 <= j < pos :: !CrlfAt(s[..len], j)
      {
        pos := pos + 1;
      }
      if s[pos] != CR {
        return None;
      } else {
        if s[pos + 1] == LF {
          FirstCrlf(s[..len], pos);
          return Some(pos);
        } else {
          pos := pos + 1;
        }
      }
    }
    return None;
  }

  method ReadLongLong(s: bytes) returns (n: int)
    requires CR in s
    ensures n == ReadNumber(s)
  {
    var v, mult, i := 0, 1, 0;
    if s[0] == MINUS {
      mult, i := -1, 1;
    } else if s[0] == PLUS {
      mult, i := 1, 1;
    }
    ghost var digits := s[i..];
    while s[i] != CR
      invariant 0 <= i < |s| && CR in s[i..]
      invariant DigitRun(digits, 0) == DigitRun(s[i..], v)
      decreases |s| - i
    {
      var dec := s[i] - ZERO;
      assert s[i..][1..] == s[i + 1..];
      if 0 <= dec < 10 {
        v := v * 10;
        v := v + dec;
      } else {
        return -1;
      }
      i := i + 1;
    }
    return mult * v;
  }

  lemma TooDeep(frames: seq<Frame>, p: bytes)
    requires Config(frames, ArrayKind, p).Valid() && |frames| == MAX_DEPTH
    ensures StepTyped(frames, ArrayKind, p) == Crash
  {
  }

  lemma NoLine(frames: seq<Frame>, kind: Kind, p: bytes)
    requires kind != Untyped && Config(frames, kind, p).Waiting() && FindCrlf(p).None?
    ensures StepTyped(frames, kind, p) == Stall(Config(frames, kind, p))
  {
  }

  /** What a complete item asks the machine to do. */
  lemma WholeStep(frames: seq<Frame>, kind: Kind, p: bytes, r: Reply, n: nat)
    requires kind != Untyped && Config(frames, kind, p).Waiting() && ReadItem(kind, p) == Whole(r, n)
    ensures StepTyped(frames, kind, p) == Place(frames, r, p[n..])
  {
    hide Place, ReadItem;
  }

  function LineReply(kind: Kind, p: bytes, n: nat): Reply
    requires n <= |p| && CR in p
  {
    if kind == IntegerKind then Integer(ReadNumber(p))
    else if kind == StatusKind then Status(p[..n])
    else Error(p[..n])
  }

  lemma LineStep(frames: seq<Frame>, kind: Kind, p: bytes)
    requires kind in {StatusKind, ErrorKind, IntegerKind} && Config(frames, kind, p).Waiting() && FindCrlf(p).Some?
    ensures CR in p
    ensures var n := FindCrlf(p).value; StepTyped(frames, kind, p) == Place(frames, LineReply(kind, p, n), p[n + 2..])
  {
    hide Place, ReadNumber;
  }

  lemma ShortStep(frames: seq<Frame>, kind: Kind, p: bytes)
    requires kind != Untyped && Config(frames, kind, p).Waiting() && ReadItem(kind, p).Short?
    ensures StepTyped(frames, kind, p) == Stall(Config(frames, kind, p))
  {
    hide ReadItem;
  }

  /** What a complete count line of an array asks the machine to do. */
  /** The step that an array header of n elements makes when `rest` follows it. */
  function Counted(frames: seq<Frame>, n: int, rest: bytes): StepResult
    requires Config(frames, Untyped, rest).Valid()
  {
    if n > 0 then Go(Config(frames + [Frame(n, [])], Untyped, rest))
    else Place(frames, if n == -1 then Nil else if n == 0 then Array([]) else Hollow(n), rest)
  }

  lemma HeaderStep(frames: seq<Frame>, p: bytes, n: int)
    requires Config(frames, ArrayKind, p).Waiting() && FindCrlf(p).Some? && CR in p && n == ReadNumber(p)
    ensures StepTyped(frames, ArrayKind, p) == Counted(frames, n, p[FindCrlf(p).value + 2..])
  {
    hide Place, ReadNumber, FindCrlf;
  }

  class Reader {
    var err: bool
    var buf: bytes
    var pos: nat
    var len: nat
    var ridx: int
    var reply: ReplyObject?
    const rstack: array<Task>

    /** The frames of the machine that the task slots stand for, the array objects being
        filled, and the finished objects below them. */
    ghost var frames: seq<Frame>
    ghost var open: seq<ReplyObject>
    ghost var built: set<ReplyObject>

    /** Slot k is an array whose child tasks run in slot k + 1. */
    ghost predicate Level(k: nat)
      requires k < |open| == |frames| < rstack.Length
      reads `frames, `open, `built, rstack, open[k], built
    {
      && rstack[k] == Task(ArrayKind, frames[k].total, rstack[k].idx, open[k], k - 1)
      && rstack[k + 1].idx == |frames[k].done| < frames[k].total
      && open[k] !in built
      && Partial(open[k], frames[k], built)
      && (k + 1 < |open| ==> open[k].element[|frames[k].done|] == open[k + 1])
    }

    ghost predicate Stack()
      reads `frames, `open, `built, rstack, open, built
    {
      && rstack.Length == 9
      && |open| == |frames| <= MAX_DEPTH
      && Config(frames, Untyped, []).Valid()
      && (forall i, j | 0 <= i < j < |open| :: open[i] != open[j])
      && (forall k: nat | k < |open| :: Level(k))
    }

    ghost predicate Buffer()
      reads this
    {
      len == |buf| && pos <= len
    }

    ghost predicate Active()
      reads this, rstack, open, built
    {
      && Stack()
      && ridx == |frames|
      && rstack[ridx].parent == ridx - 1
    }

    /** Between two steps of the parse loop. */
    ghost predicate Ready()
      reads this, rstack, open, built
    {
      && Active() && Buffer() && ridx >= 0 && !err
      && reply == (if ridx > 0 then open[0] else null)
    }

    ghost function Current(): Config
      requires Ready()
      reads this, rstack, open, built
    {
      Config(frames, rstack[ridx].kind, buf[pos..])
    }

    /** Between two calls. */
    ghost predicate Valid()
      reads this, rstack, open, built
    {
      if ridx == -1 then Stack() && Buffer() && frames == [] && reply == null
      else Ready() && Current().Waiting()
    }

    /** What the reader stands for. */
    ghost function View(): State
      requires Valid()
      reads this, rstack, open, built
    {
      if err then Dead else if ridx == -1 then Live(Fresh(buf[pos..])) else Live(Current())
    }

    constructor ()
      ensures Valid() && fresh(rstack) && View() == Live(Fresh([]))
    {
      err, buf, pos, len, ridx, reply := false, [], 0, 0, -1, null;
      rstack := new Task[9](_ => Task(Untyped, -1, -1, null, -1));
      frames, open, built := [], [], {};
    }

    /** redisReaderFeed. */
    method Feed(chunk: bytes) returns (ok: bool)
      requires Valid()
      modifies this`buf, this`len
      ensures Valid() && ok == !err
      ensures View() == if old(View()).Dead? then Dead else Live(old(View()).cfg.Extend(chunk))
    {
      if err { return false; }
      if |chunk| >= 1 {
        assert (buf + chunk)[pos..] == buf[pos..] + chunk;
        buf := buf + chunk;
        len := |buf|;
      } else {
        assert buf[pos..] + chunk == buf[pos..];
      }
      return true;
    }

    /** __redisReaderSetError. */
    method SetError()
      requires Ready()
      modifies this
      ensures Valid() && err && open == []
      ensures reply == null && buf == [] && pos == len == 0 && ridx == -1
    {
      reply := null;
      buf := [];
      pos, len := 0, 0;
      ridx := -1;
      err := true;
      frames, open := [], [];
    }

    /** The slot of the current task in the array around it holds obj. */
    ghost predicate Attached(obj: ReplyObject)
      requires Active() && ridx >= 0
      reads this, rstack, open, built
    {
      ridx > 0 ==>
        && 0 <= rstack[ridx].idx < |open[ridx - 1].element|
        && open[ridx - 1].element[rstack[ridx].idx] == obj
    }

    /** The attach step at the end of every create function: the object takes its slot in
        the array that the parent task is filling. The object is finished. */
    method AttachLeaf(obj: ReplyObject, ghost r: Reply)
      requires Active()
      requires obj !in open && obj !in built && Represents(obj, r, {obj})
      modifies this`built, open
      ensures Active() && built == old(built) + {obj} && Represents(obj, r, built)
      ensures Attached(obj)
    {
      hide Represents, Partial;
      var cur := rstack[ridx];
      built := built + {obj};
      forall k: nat | k < |open| ensures Level(k) {
        assert old(Level(k));
        PartialGrows(open[k], frames[k], old(built), built);
      }
      RepresentsGrows(obj, r, {obj}, built);
      assert forall k: nat | k < |open| :: open[k] !in built by {
        forall k: nat | k < |open| ensures open[k] !in built { assert Level(k); }
      }
      if cur.parent >= 0 {
        Attach(obj);
      }
    }

    /** The object is written into the slot of the array around the current task. */
    method Attach(obj: ReplyObject)
      requires Active() && ridx > 0
      modifies open
      ensures Active() && Attached(obj)
    {
      hide Represents, Partial;
      var cur := rstack[ridx];
      assert Level(ridx - 1);
      SetSlot(rstack[cur.parent].obj, cur.idx, obj, frames[ridx - 1], built);
      forall k: nat | k < |open| ensures Level(k) {
        assert old(Level(k));
      }
    }

    /** The innermost open array is no longer being filled; its object joins the finished ones. */
    ghost method DropLevel()
      requires Active() && ridx > 0
      modifies `frames, `open, `built
      ensures Stack() && frames == old(frames)[..ridx - 1] && open == old(open)[..ridx - 1]
      ensures built == old(built) + {old(open)[ridx - 1]}
      ensures var k := ridx - 2; k >= 0 ==> Level(k) && open[k].element[|frames[k].done|] == old(open)[k + 1]
    {
      var k := ridx - 1;
      assert Level(k);
      frames, open, built := frames[..k], open[..k], built + {open[k]};
      forall j: nat | j < |open| ensures Level(j) {
        assert old(Level(j));
        PartialGrows(open[j], frames[j], old(built), built);
      }
      k := k - 1;
      assert k >= 0 ==> old(Level(k)) && Level(k);
    }

    /** The innermost open array has all its elements: it joins the finished objects and its
        own task becomes the current one. */
    method PopTask(ghost child: ReplyObject, ghost r: Reply) returns (ghost obj: ReplyObject, ghost whole: Reply)
      requires Active() && ridx > 0 && Attached(child) && child in built && Represents(child, r, built)
      requires rstack[ridx].idx == rstack[ridx - 1].elements - 1
      modifies `ridx, `frames, `open, `built
      ensures Active() && ridx == old(ridx) - 1 && Attached(obj) && obj in built && Represents(obj, whole, built)
      ensures open == old(open)[..ridx] && obj == old(open)[ridx]
      ensures forall rest :: Place(frames, whole, rest) == Place(old(frames), r, rest)
    {
      ghost var k := ridx - 1;
      assert Level(k);
      ghost var top := frames[k];
      obj, whole := open[k], Array(top.done + [r]);
      PartialPush(obj, top, child, r, built);
      PartialComplete(obj, Frame(top.total, top.done + [r]), built);
      DropLevel();
      ridx := ridx - 1;
    }

    /** The current task is reset and stands for the next slot of the same array. */
    method AdvanceSlot(ghost child: ReplyObject, ghost r: Reply)
      requires Active() && ridx > 0 && Attached(child) && child in built && Represents(child, r, built)
      requires rstack[ridx].idx != rstack[ridx - 1].elements - 1
      modifies `frames, rstack
      ensures Active() && rstack[ridx].kind == Untyped
      ensures forall rest :: Place(old(frames), r, rest) == Go(Config(frames, Untyped, rest))
    {
      assert Level(ridx - 1);
      var cur, prv := rstack[ridx], rstack[ridx - 1];
      assert cur.idx < prv.elements;
      ghost var top := frames[ridx - 1];
      PartialPush(open[ridx - 1], top, child, r, built);
      frames := frames[..ridx - 1] + [Frame(top.total, top.done + [r])];
      rstack[ridx] := cur.(kind := Untyped, elements := -1, idx := cur.idx + 1);
      forall k: nat | k < |open| ensures Level(k) {
        assert old(Level(k));
      }
    }

    method MoveToNextTask(ghost obj: ReplyObject, ghost r: Reply, ghost rest: bytes)
      requires Active() && ridx >= 0
      requires Attached(obj) && obj in built && Represents(obj, r, built)
      modifies `ridx, `frames, `open, `built, rstack
      ensures open <= old(open)
      ensures match Place(old(frames), r, rest)
              case Go(c) =>
                Active() && ridx >= 0 && frames == c.frames && rstack[ridx].kind == Untyped && open != []
              case Finish(whole, _) =>
                && Stack() && ridx == -1 && frames == []
                && Represents(if old(open) == [] then obj else old(open)[0], whole, built)
    {
      ghost var child, value := obj, r;
      while ridx >= 0
        invariant ridx >= 0 && Active() && Attached(child) && child in built && Represents(child, value, built)
        invariant open <= old(open)
        invariant (open == [] ==> child == if old(open) == [] then obj else old(open)[0])
        invariant Place(frames, value, rest) == Place(old(frames), r, rest)
        decreases ridx
      {
        if ridx == 0 {
          ridx := ridx - 1;
          return;
        }
        var cur, prv := rstack[ridx], rstack[ridx - 1];
        assert Level(ridx - 1);
        assert prv.kind == ArrayKind;
        if cur.idx == prv.elements - 1 {
          child, value := PopTask(child, value);
        } else {
          AdvanceSlot(child, value);
          return;
        }
      }
    }

    /** The state and status code that a step of the machine asks for. */
    ghost predicate Stepped(res: StepResult, ok: bool)
      reads this, rstack, open, built
    {
      match res
      case Go(c) => ok && Ready() && Current() == c
      case Stall(c) => !ok && Ready() && Current() == c
      case Crash => !ok && Valid() && err && open == []
      case Finish(r, rest) =>
        && ok && !err && ridx == -1
        && Stack() && frames == [] && Buffer() && buf[pos..] == rest
        && reply != null && Represents(reply, r, built)
    }

    lemma Stalled()
      requires Ready()
      ensures Stepped(Stall(Current()), false)
    {
    }

    lemma Crashed()
      requires Valid() && err && open == []
      ensures Stepped(Crash, false)
    {
    }

    /** What every branch does with a reply that needs no further items. */
    method CompleteLeaf(obj: ReplyObject, ghost r: Reply)
      requires Ready() && obj !in open && obj !in built && Represents(obj, r, {obj})
      modifies this`ridx, this`reply, this`frames, this`open, this`built, rstack, open
      ensures Stepped(Place(old(frames), r, buf[pos..]), true)
      ensures open <= old(open)
    {
      hide Level, Partial, Represents, Place;
      AttachLeaf(obj, r);
      if ridx == 0 { reply := obj; }
      MoveToNextTask(obj, r, buf[pos..]);
    }

    lemma Bounds()
      requires Ready()
      ensures 0 <= ridx == |frames| <= MAX_DEPTH && rstack.Length == 9 && pos <= len == |buf| && !err
      ensures Config(frames, Untyped, []).Valid()
    {
    }

    /** The cursor moves on inside the buffer; nothing else of the reader changes. */
    method Advance(n: nat)
      requires Ready() && pos + n <= len
      modifies this`pos
      ensures Ready() && buf[pos..] == old(buf[pos..])[n..]
    {
      hide Level, Partial, Stack;
      assert buf[pos + n..] == buf[pos..][n..];
      pos := pos + n;
    }

    /** readLine: the bytes from the cursor and the length of the line, if it is complete. */
    method ReadLine() returns (line: bytes, n: Option<nat>)
      requires Ready()
      modifies this`pos
      ensures Ready() && line == old(buf[pos..]) && n == FindCrlf(line)
      ensures buf[pos..] == if n.Some? then line[n.value + 2..] else line
    {
      hide Ready, FindCrlf;
      Bounds();
      line := buf[pos..];
      assert (line + [NUL])[..len - pos] == line;
      n := SeekNewline(line + [NUL], len - pos);
      if n.Some? {
        Advance(n.value + 2);
      }
    }

    /** A reply object for a line is built and takes its place. */
    method CompleteLine(kind: Kind, p: bytes, n: nat)
      requires Ready() && kind in {StatusKind, ErrorKind, IntegerKind}
      requires n <= |p| && CR in p
      modifies this, rstack, open
      ensures Stepped(Place(old(frames), LineReply(kind, p, n), old(buf[pos..])), true)
      ensures open <= old(open)
    {
      hide Ready, Place, ReadNumber, Stepped;
      Bounds();
      var obj: ReplyObject;
      if kind == IntegerKind {
        var v := ReadLongLong(p);
        obj := new ReplyObject.Integer(v);
      } else {
        obj := new ReplyObject.String(kind, p[..n]);
      }
      CompleteLeaf(obj, LineReply(kind, p, n));
    }

    method ProcessLineItem() returns (ok: bool)
      requires Ready() && rstack[ridx].kind in {StatusKind, ErrorKind, IntegerKind}
      modifies this, rstack, open
      ensures Stepped(StepTyped(old(frames), old(rstack[ridx].kind), old(buf[pos..])), ok)
      ensures open <= old(open)
    {
      hide Ready, Place, FindCrlf, ReadNumber, StepTyped;
      Bounds();
      var kind := rstack[ridx].kind;
      ghost var f := frames;
      var p, len := ReadLine();
      if len.None? {
        NoLine(f, kind, p);
        return false;
      }
      LineStep(f, kind, p);
      CompleteLine(kind, p, len.value);
      return true;
    }

    /** The scanning half of processBulkItem: no text means the nil object. */
    method ScanBulk() returns (item: Option<Option<bytes>>, bytelen: nat)
      requires Buffer()
      ensures match item
              case None => ReadItem(StrKind, buf[pos..]).Short?
              case Some(None) => ReadItem(StrKind, buf[pos..]) == Whole(Nil, bytelen)
              case Some(Some(text)) => ReadItem(StrKind, buf[pos..]) == Whole(Str(text), bytelen)
    {
      var p := buf[pos..];
      assert (p + [NUL])[..len - pos] == p;
      var s := SeekNewline(p + [NUL], len - pos);
      if s.None? { return None, 0; }
      bytelen := s.value + 2;
      var n := ReadLongLong(p);
      if n < 0 {
        return Some(None), bytelen;
      }
      bytelen := bytelen + n + 2;
      if pos + bytelen > len { return None, 0; }
      return Some(Some(p[s.value + 2..s.value + 2 + n])), bytelen;
    }

    /** A string object, or the nil object, is built and takes its place. */
    method CompleteBulk(text: Option<bytes>)
      requires Ready()
      modifies this, rstack, open
      ensures Stepped(Place(old(frames), if text.None? then Nil else Str(text.value), old(buf[pos..])), true)
      ensures open <= old(open)
    {
      hide Ready, Place, Stepped;
      Bounds();
      var obj: ReplyObject;
      if text.None? {
        obj := new ReplyObject.Nil();
      } else {
        obj := new ReplyObject.String(StrKind, text.value);
      }
      CompleteLeaf(obj, if text.None? then Nil else Str(text.value));
    }

    method ProcessBulkItem() returns (ok: bool)
      requires Ready() && rstack[ridx].kind == StrKind
      modifies this, rstack, open
      ensures Stepped(StepTyped(old(frames), StrKind, old(buf[pos..])), ok)
      ensures open <= old(open)
    {
      hide Ready, Place, ReadItem, StepTyped;
      Bounds();
      ghost var f, p := frames, buf[pos..];
      var item, bytelen := ScanBulk();
      if item.None? {
        ShortStep(f, StrKind, p);
        return false;
      }
      WholeStep(f, StrKind, p, if item.value.None? then Nil else Str(item.value.value), bytelen);
      Advance(bytelen);
      CompleteBulk(item.value);
      return true;
    }

    /** The array branch when elements follow: the object takes its slot unfinished and a
        task for its first element goes on the stack. */
    method OpenArray(obj: ReplyObject, count: int)
      requires Active() && 0 <= ridx < 8 && rstack[ridx].kind == ArrayKind
      requires obj !in open && obj !in built && count > 0 && Partial(obj, Frame(count, []), {})
      modifies `ridx, `frames, `open, rstack, open
      ensures Active() && ridx == old(ridx) + 1 && rstack[ridx].kind == Untyped
      ensures frames == old(frames) + [Frame(count, [])] && open == old(open) + [obj]
    {
      hide Represents, Partial;
      var cur := rstack[ridx];
      if cur.parent >= 0 {
        Attach(obj);
      }
      PartialGrows(obj, Frame(count, []), {}, built);
      label slotted:
      rstack[ridx] := cur.(elements := count, obj := obj);
      ridx := ridx + 1;
      rstack[ridx] := Task(Untyped, -1, 0, null, ridx - 1);
      frames, open := frames + [Frame(count, [])], open + [obj];
      forall k: nat | k < |open| ensures Level(k) {
        if k < ridx - 1 { assert old@slotted(Level(k)); }
      }
    }

    /** processMultiBulkItem once the element count is read. */
    method AcceptHeader(elements: int)
      requires Ready() && rstack[ridx].kind == ArrayKind && ridx < 8
      modifies this, rstack, open
      ensures Stepped(Counted(old(frames), elements, old(buf[pos..])), true)
      ensures forall i | 0 <= i < |open| :: open[i] in old(open) || fresh(open[i])
    {
      hide Level, Place, ReadItem;
      var root := ridx == 0;
      if elements == -1 {
        var obj := new ReplyObject.Nil();
        CompleteLeaf(obj, Nil);
      } else {
        var obj := new ReplyObject.Array(elements);
        if elements > 0 {
          OpenArray(obj, elements);
          if root { reply := obj; }
        } else {
          CompleteLeaf(obj, if elements == 0 then Array([]) else Hollow(elements));
        }
      }
    }

    /** The count line of an array, if it is complete. */
    method ReadCount() returns (elements: Option<int>)
      requires Ready() && rstack[ridx].kind == ArrayKind && ridx < 8
      modifies this`pos
      ensures Ready()
      ensures var step := StepTyped(frames, ArrayKind, old(buf[pos..]));
              if elements.None? then Stepped(step, false)
              else step == Counted(frames, elements.value, buf[pos..])
    {
      hide Counted, Ready, Place, FindCrlf, ReadNumber, StepTyped, Stepped;
      Bounds();
      var p, len := ReadLine();
      if len.None? {
        NoLine(frames, ArrayKind, p);
        Stalled();
        return None;
      }
      var n := ReadLongLong(p);
      HeaderStep(frames, p, n);
      return Some(n);
    }

    method ProcessMultiBulkItem() returns (ok: bool)
      requires Ready() && rstack[ridx].kind == ArrayKind
      modifies this, rstack, open
      ensures Stepped(StepTyped(old(frames), ArrayKind, old(buf[pos..])), ok)
      ensures forall i | 0 <= i < |open| :: open[i] in old(open) || fresh(open[i])
    {
      hide Ready, Valid, Place, Counted, StepTyped, Stepped;
      Bounds();
      if ridx == 8 {
        TooDeep(frames, buf[pos..]);
        SetError();
        Crashed();
        return false;
      }
      var elements := ReadCount();
      if elements.None? { return false; }
      AcceptHeader(elements.value);
      return true;
    }

    /** processItem. */
    method ProcessItem() returns (ok: bool)
      requires Ready()
      modifies this, rstack, open
      ensures Stepped(Step(old(Current())), ok)
      ensures forall i | 0 <= i < |open| :: open[i] in old(open) || fresh(open[i])
    {
      hide Ready, Place, StepTyped;
      Bounds();
      if rstack[ridx].kind == Untyped {
        if len - pos < 1 { return false; }
        var c := buf[pos];
        assert buf[pos..][0] == c;
        Advance(1);
        var kind := KindOf(c);
        if kind.None? {
          SetError();
          return false;
        }
        SetKind(kind.value);
      }
      if rstack[ridx].kind in {StatusKind, ErrorKind, IntegerKind} {
        ok := ProcessLineItem();
      } else if rstack[ridx].kind == StrKind {
        ok := ProcessBulkItem();
      } else {
        ok := ProcessMultiBulkItem();
      }
    }

    method SetKind(kind: Kind)
      requires Ready()
      modifies rstack
      ensures Ready() && rstack[ridx].kind == kind
    {
      rstack[ridx] := rstack[ridx].(kind := kind);
      forall k: nat | k < |open| ensures Level(k) {
        assert old(Level(k));
      }
    }

    method DiscardConsumed()
      requires Buffer()
      modifies `buf, `pos, `len
      ensures Buffer() && buf[pos..] == old(buf[pos..])
    {
      if pos >= 1024 {
        buf := buf[pos..];
        pos := 0;
        len := |buf|;
      }
    }

    /** The first task goes on an empty stack. */
    method BeginReply()
      requires Valid() && !err
      modifies `ridx, rstack
      ensures Ready() && Current() == old(View()).cfg
    {
      if ridx == -1 {
        rstack[0] := Task(Untyped, -1, -1, null, -1);
        ridx := 0;
      }
    }

    /** The parse loop of redisReaderGetReply. */
    method ProcessItems() returns (ok: bool)
      requires Ready()
      modifies this, rstack, open
      ensures forall i | 0 <= i < |open| :: open[i] in old(open) || fresh(open[i])
      ensures match Run(old(Current()))
              case Got(r, rest) => Stepped(Finish(r, rest), ok)
              case Pending(c) => Stepped(Stall(c), ok)
              case Failed => Stepped(Crash, ok)
    {
      hide Level, Partial, Represents, Step;
      ghost var start := Current();
      ok := true;
      while ridx >= 0
        invariant ok
        invariant forall i | 0 <= i < |open| :: open[i] in old(open) || fresh(open[i])
        invariant if ridx >= 0 then Ready() && Run(Current()) == Run(start)
                  else Run(start).Got? && Stepped(Finish(Run(start).reply, Run(start).rest), true)
        decreases if ridx >= 0 then len - pos + 1 else 0
      {
        ghost var step := Step(Current());
        ok := ProcessItem();
        if !ok { break; }
        if step.Go? {
          assert |buf[pos..]| == len - pos;
        }
      }
    }

    method Emit() returns (out: ReplyObject?)
      requires !err && if ridx == -1 then Stack() && Buffer() && frames == [] else Ready() && Current().Waiting()
      modifies `reply
      ensures Valid() && View() == Live(if ridx == -1 then Fresh(buf[pos..]) else old(Current()))
      ensures out == if ridx == -1 then old(reply) else null
    {
      out := null;
      if ridx == -1 {
        out := reply;
        reply := null;
      }
    }

    /** The state and the reply that a run of the machine asks for. */
    ghost predicate Answered(run: RunResult, out: ReplyObject?)
      reads this, rstack, open, built
    {
      && Valid()
      && match run
         case Got(r, rest) => View() == Live(Fresh(rest)) && out != null && Represents(out, r, built)
         case Pending(c) => View() == Live(c) && out == null
         case Failed => View() == Dead && out == null
    }

    method Parse() returns (out: ReplyObject?)
      requires Valid() && !err
      modifies this, rstack, open
      ensures Answered(Run(old(View()).cfg), out)
      ensures forall i | 0 <= i < |open| :: open[i] in old(open) || fresh(open[i])
    {
      hide Level, Partial, Represents, Run, Stack;
      BeginReply();
      var ok := ProcessItems();
      if err { return null; }
      DiscardConsumed();
      out := Emit();
    }

    /** redisReaderGetReply. */
    method GetReply() returns (ok: bool, out: ReplyObject?)
      requires Valid()
      modifies this, rstack, open
      ensures ok == !err
      ensures if old(View()).Dead? then Valid() && View() == Dead && out == null
              else Answered(Run(old(View()).cfg), out)
      ensures forall i | 0 <= i < |open| :: open[i] in old(open) || fresh(open[i])
    {
      if err { return false, null; }
      if len == 0 {
        RunNothing(View().cfg);
        return true, null;
      }
      out := Parse();
      ok := !err;
    }
  }
}
