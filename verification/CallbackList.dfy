/** The linked list of callbacks with head and tail that serves as a queue. */
module CallbackList {
  import opened Bytes
  import opened Async

  class Node {
    const cb: Callback
    var next: Node?

    constructor (cb: Callback)
      ensures this.cb == cb && next == null
    {
      this.cb, next := cb, null;
    }
  }

  /** redisCallbackList. */
  class List {
    var head: Node?
    var tail: Node?
    ghost var nodes: seq<Node>

    /** The nodes are distinct and linked in order from head to tail. */
    ghost predicate Valid()
      reads this, nodes
    {
      && (forall i, j | 0 <= i < j < |nodes| :: nodes[i] != nodes[j])
      && (forall i, j | 0 <= i && j == i + 1 < |nodes| :: nodes[i].next == nodes[j])
      && if nodes == [] then head == null && tail == null
         else head == nodes[0] && tail == nodes[|nodes| - 1] && nodes[|nodes| - 1].next == null
    }

    ghost function Nodes(): set<Node>
      reads this
    {
      set n | n in nodes
    }

    /** The queue that the list stands for. */
    ghost function Contents(): seq<Callback>
      reads this
    {
      seq(|nodes|, i requires 0 <= i < |nodes| reads this => nodes[i].cb)
    }

    constructor ()
      ensures Valid() && Contents() == [] && nodes == []
    {
      head, tail, nodes := null, null, [];
    }

    /** __redisPushCallback: a copy of the callback is stored behind the tail. */
    method Push(source: Callback)
      requires Valid()
      modifies this, nodes
      ensures Valid() && Contents() == old(Contents()) + [source]
      ensures fresh(Nodes() - old(Nodes()))
    {
      var cb := new Node(source);
      if head == null {
        head := cb;
      }
      if tail != null {
        tail.next := cb;
      }
      tail := cb;
      nodes := nodes + [cb];
    }

    /** __redisShiftCallback: the head is copied out and freed; None when the list is empty. */
    method Shift() returns (target: Option<Callback>)
      requires Valid()
      modifies this
      ensures Valid() && target == if old(Contents()) == [] then None else Some(old(Contents())[0])
      ensures Contents() == if old(Contents()) == [] then [] else old(Contents())[1..]
      ensures Nodes() <= old(Nodes())
    {
      if head == null { return None; }
      var cb := head;
      head := cb.next;
      target := Some(cb.cb);
      if cb == tail {
        tail := null;
      }
      nodes := nodes[1..];
    }
  }

  /** What a program does with the list. */
  datatype Step = PushStep(cb: Callback) | ShiftStep

  function RunSteps(queue: seq<Callback>, steps: seq<Step>): (r: (seq<Callback>, seq<Callback>))
    decreases |steps|
  {
    if steps == [] then (queue, [])
    else
      match steps[0]
      case PushStep(cb) => RunSteps(queue + [cb], steps[1..])
      case ShiftStep =>
        if queue == [] then RunSteps(queue, steps[1..])
        else
          var (left, out) := RunSteps(queue[1..], steps[1..]);
          (left, [queue[0]] + out)
  }

  function Pushed(steps: seq<Step>): seq<Callback> {
    if steps == [] then []
    else (if steps[0].PushStep? then [steps[0].cb] else []) + Pushed(steps[1..])
  }

  /** First in, first out: what was shifted and what is left are what was there and was pushed. */
  lemma {:induction false} FirstInFirstOut(queue: seq<Callback>, steps: seq<Step>)
    ensures var (left, out) := RunSteps(queue, steps); out + left == queue + Pushed(steps)
    decreases |steps|
  {
    if steps != [] {
      match steps[0] {
        case PushStep(cb) =>
          FirstInFirstOut(queue + [cb], steps[1..]);
          assert queue + [cb] + Pushed(steps[1..]) == queue + Pushed(steps);
        case ShiftStep =>
          if queue == [] {
            FirstInFirstOut(queue, steps[1..]);
          } else {
            var (left, out) := RunSteps(queue[1..], steps[1..]);
            FirstInFirstOut(queue[1..], steps[1..]);
            assert [queue[0]] + out + left == [queue[0]] + (out + left);
            assert [queue[0]] + (queue[1..] + Pushed(steps[1..])) == queue + Pushed(steps);
          }
      }
    }
  }

  /** Any pushes and shifts on a new list do what they do to a queue. */
  method RunList(steps: seq<Step>) returns (list: List, out: seq<Callback>)
    ensures fresh(list) && list.Valid() && (list.Contents(), out) == RunSteps([], steps)
    ensures out + list.Contents() == Pushed(steps)
  {
    hide RunSteps, Pushed;
    list := new List();
    out := [];
    var i := 0;
    assert steps[0..] == steps && [] + RunSteps([], steps).1 == RunSteps([], steps).1;
    while i < |steps|
      invariant 0 <= i <= |steps| && fresh(list) && list.Valid() && fresh(list.Nodes())
      invariant var (left, later) := RunSteps(list.Contents(), steps[i..]); (left, out + later) == RunSteps([], steps)
    {
      RunStep(list.Contents(), steps[i..], out);
      assert steps[i..][1..] == steps[i + 1..];
      match steps[i] {
        case PushStep(cb) =>
          assert forall k | 0 <= k < |list.nodes| :: list.nodes[k] in list.Nodes();
          list.Push(cb);
        case ShiftStep =>
          var target := list.Shift();
          if target.Some? {
            out := out + [target.value];
          }
      }
      i := i + 1;
    }
    assert steps[i..] == [] && out + [] == out;
    NoSteps(list.Contents());
    FirstInFirstOut([], steps);
    assert [] + Pushed(steps) == Pushed(steps);
  }

  lemma RunStep(queue: seq<Callback>, steps: seq<Step>, out: seq<Callback>)
    requires steps != []
    ensures var (left, later) := RunSteps(queue, steps);
            var shifted := steps[0].ShiftStep? && queue != [];
            var next := if steps[0].PushStep? then queue + [steps[0].cb] else if shifted then queue[1..] else queue;
            var taken := if shifted then out + [queue[0]] else out;
            var (left', later') := RunSteps(next, steps[1..]);
            left == left' && out + later == taken + later'
  {
  }

  lemma NoSteps(queue: seq<Callback>)
    ensures RunSteps(queue, []) == (queue, [])
  {
  }
}
