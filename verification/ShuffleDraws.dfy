/** What the Fisher-Yates shuffle does with the numbers it draws: each sequence of draws gives an order of
    its own, and every order has one. */
module ShuffleDraws {
  import opened TestOrder

  /** One draw for every width from `width` down to two, each below its width. */
  predicate Drawn(draws: seq<nat>, width: nat) {
    && |draws| == (if width < 2 then 0 else width - 1)
    && forall k | 0 <= k < |draws| :: draws[k] < width - k
  }

  /** The draws that the generator makes from this state on. */
  function Draws(state: nat, width: nat): (draws: seq<nat>)
    ensures Drawn(draws, width)
    decreases width
  {
    if width < 2 then []
    else
      var next := NextState(state);
      [next % width] + Draws(next, width - 1)
  }

  /** The shuffle for any draws. */
  function ShuffledBy<T>(v: seq<T>, begin: nat, width: nat, draws: seq<nat>): (w: seq<T>)
    requires begin + width <= |v| && Drawn(draws, width)
    ensures |w| == |v|
    decreases width
  {
    if width < 2 then v
    else ShuffledBy(Swap(v, begin + draws[0], begin + width - 1), begin, width - 1, draws[1..])
  }

  lemma {:induction false} ShuffledIsBy<T>(v: seq<T>, begin: nat, width: nat, state: nat)
    requires begin + width <= |v|
    ensures Shuffled(v, begin, width, state).0 == ShuffledBy(v, begin, width, Draws(state, width))
    decreases width
  {
    hide NextState;
    if width >= 2 {
      var next := NextState(state);
      ShuffledIsBy(Swap(v, begin + next % width, begin + width - 1), begin, width - 1, next);
      assert Draws(state, width)[1..] == Draws(next, width - 1);
    }
  }

  lemma {:induction false} ShuffledByKeeps<T>(v: seq<T>, begin: nat, width: nat, draws: seq<nat>)
    requires begin + width <= |v| && Drawn(draws, width)
    ensures var w := ShuffledBy(v, begin, width, draws);
            |w| == |v| && forall i | 0 <= i < begin || begin + width <= i < |v| :: w[i] == v[i]
    decreases width
  {
    if width >= 2 {
      ShuffledByKeeps(Swap(v, begin + draws[0], begin + width - 1), begin, width - 1, draws[1..]);
    }
  }

  /** What the shuffle is: the first draw picks the element that goes to the last position of the range,
      the element that was there fills the gap, and the others are shuffled with the later draws. */
  lemma ShuffleStep<T>(v: seq<T>, begin: nat, width: nat, draws: seq<nat>)
    requires begin + width <= |v| && width >= 2 && Drawn(draws, width)
    ensures var last := begin + width - 1;
            var left := if begin + draws[0] == last then v else v[begin + draws[0] := v[last]];
            && |ShuffledBy(v, begin, width, draws)| == |v|
            && ShuffledBy(v, begin, width, draws)[last] == v[begin + draws[0]]
            && ShuffledBy(v, begin, width, draws)[..last] == ShuffledBy(left, begin, width - 1, draws[1..])[..last]
  {
    var last := begin + width - 1;
    var left := if begin + draws[0] == last then v else v[begin + draws[0] := v[last]];
    var swapped := Swap(v, begin + draws[0], last);
    ShuffledByKeeps(swapped, begin, width - 1, draws[1..]);
    ShuffledByPrefix(swapped, left, begin, width - 1, draws[1..]);
  }

  predicate SameBefore<T(==)>(v: seq<T>, w: seq<T>, end: nat) {
    end <= |v| == |w| && forall i | 0 <= i < end :: v[i] == w[i]
  }

  /** The shuffle of a range does not look behind it. */
  lemma {:induction false} ShuffledByPrefix<T>(v: seq<T>, w: seq<T>, begin: nat, width: nat, draws: seq<nat>)
    requires SameBefore(v, w, begin + width) && Drawn(draws, width)
    ensures SameBefore(ShuffledBy(v, begin, width, draws), ShuffledBy(w, begin, width, draws), begin + width)
    decreases width
  {
    if width >= 2 {
      var end := begin + width - 1;
      var v', w' := Swap(v, begin + draws[0], end), Swap(w, begin + draws[0], end);
      ShuffledByPrefix(v', w', begin, width - 1, draws[1..]);
      ShuffledByKeeps(v', begin, width - 1, draws[1..]);
      ShuffledByKeeps(w', begin, width - 1, draws[1..]);
    }
  }

  predicate Different<T(==)>(v: seq<T>, begin: nat, width: nat)
    requires begin + width <= |v|
  {
    forall i, j | begin <= i < j < begin + width :: v[i] != v[j]
  }

  /** Different draws give different orders. */
  lemma {:induction false} DrawsDiffer<T>(v: seq<T>, begin: nat, width: nat, a: seq<nat>, b: seq<nat>)
    requires begin + width <= |v| && Drawn(a, width) && Drawn(b, width) && Different(v, begin, width)
    requires ShuffledBy(v, begin, width, a) == ShuffledBy(v, begin, width, b)
    ensures a == b
    decreases width
  {
    if width >= 2 {
      ShuffleStep(v, begin, width, a);
      ShuffleStep(v, begin, width, b);
      assert a[0] == b[0];
      DrawsDiffer(Swap(v, begin + a[0], begin + width - 1), begin, width - 1, a[1..], b[1..]);
      assert a == [a[0]] + a[1..] && b == [b[0]] + b[1..];
    }
  }

  /** Every order of the range is reached by some draws. */
  lemma {:induction false} EveryOrder<T>(v: seq<T>, w: seq<T>, begin: nat, width: nat) returns (draws: seq<nat>)
    requires begin + width <= |v| && Reordered(v, w, begin, begin + width)
    ensures Drawn(draws, width) && ShuffledBy(v, begin, width, draws) == w
    decreases width
  {
    hide Reordered, Swap, ShuffledBy;
    if width < 2 {
      NarrowOrder(v, w, begin, width);
      NoDraws(v, begin, width);
      return [];
    }
    var last := begin + width - 1;
    var draw := LastDraw(v, w, begin, last);
    var v' := Swap(v, begin + draw, last);
    var later := EveryOrder(v', w, begin, width - 1);
    draws := [draw] + later;
    FirstDraw(v, begin, width, draw, later);
  }

  lemma NoDraws<T>(v: seq<T>, begin: nat, width: nat)
    requires width < 2 && begin + width <= |v|
    ensures ShuffledBy(v, begin, width, []) == v
  {
  }

  lemma FirstDraw<T>(v: seq<T>, begin: nat, width: nat, draw: nat, later: seq<nat>)
    requires width >= 2 && begin + width <= |v| && draw < width && Drawn(later, width - 1)
    ensures Drawn([draw] + later, width)
    ensures ShuffledBy(v, begin, width, [draw] + later) ==
            ShuffledBy(Swap(v, begin + draw, begin + width - 1), begin, width - 1, later)
  {
    assert ([draw] + later)[1..] == later;
  }

  /** The draw that takes the right element to the last position. */
  lemma LastDraw<T>(v: seq<T>, w: seq<T>, begin: nat, last: nat) returns (draw: nat)
    requires begin <= last < |v| && Reordered(v, w, begin, last + 1)
    ensures begin + draw <= last
    ensures var v' := Swap(v, begin + draw, last); |v'| == |v| && Reordered(v', w, begin, last)
  {
    hide Reordered, Swap;
    draw := Found(v, w, begin, last);
    var v' := Swap(v, begin + draw, last);
    ReorderedBack(v, w, begin, last + 1);
    ReorderedSwap(w, v, begin, last + 1, begin + draw, last);
    SwappedLast(v, begin + draw, last);
    ReorderedBack(w, v', begin, last + 1);
    LessReordered(v', w, begin, last);
  }

  lemma Found<T>(v: seq<T>, w: seq<T>, begin: nat, last: nat) returns (draw: nat)
    requires begin <= last < |v| && Reordered(v, w, begin, last + 1)
    ensures |w| == |v| && begin + draw <= last && v[begin + draw] == w[last]
  {
    var part := v[begin..last + 1];
    assert w[begin..last + 1][last - begin] == w[last];
    assert w[last] in multiset(part);
    draw :| 0 <= draw < |part| && part[draw] == w[last];
  }

  lemma SwappedLast<T>(v: seq<T>, i: nat, last: nat)
    requires i <= last < |v|
    ensures |Swap(v, i, last)| == |v| && Swap(v, i, last)[last] == v[i]
  {
  }

  lemma ReorderedBack<T>(v: seq<T>, w: seq<T>, begin: nat, end: nat)
    requires begin <= end <= |v| && Reordered(v, w, begin, end)
    ensures |w| == |v| && Reordered(w, v, begin, end)
  {
  }

  lemma NarrowOrder<T>(v: seq<T>, w: seq<T>, begin: nat, width: nat)
    requires width < 2 && begin + width <= |v| && Reordered(v, w, begin, begin + width)
    ensures v == w
  {
    assert v == v[..begin] + v[begin..begin + width] + v[begin + width..];
    assert w == w[..begin] + w[begin..begin + width] + w[begin + width..];
    if width == 1 {
      assert v[begin..begin + 1] == [v[begin]] && w[begin..begin + 1] == [w[begin]];
      assert v[begin] in multiset([w[begin]]);
    }
  }

  /** With the same last element, the ranges before it are orders of each other. */
  lemma LessReordered<T>(v: seq<T>, w: seq<T>, begin: nat, last: nat)
    requires begin <= last < |v| && Reordered(v, w, begin, last + 1) && v[last] == w[last]
    ensures Reordered(v, w, begin, last)
  {
    RangeEnd(v, begin, last);
    RangeEnd(w, begin, last);
  }

  lemma RangeEnd<T>(v: seq<T>, begin: nat, last: nat)
    requires begin <= last < |v|
    ensures multiset(v[begin..last]) == multiset(v[begin..last + 1]) - multiset{v[last]}
    ensures v[last..] == [v[last]] + v[last + 1..]
  {
    assert v[begin..last + 1] == v[begin..last] + [v[last]];
  }

  /** The shuffle that the generator makes, from every state: the element at the first draw goes to the
      last position, the rest is shuffled with the draws that follow, and nothing outside the range moves. */
  lemma GeneratedShuffle<T>(v: seq<T>, begin: nat, width: nat, state: nat)
    requires begin + width <= |v| && width >= 2
    ensures var w, last := Shuffled(v, begin, width, state).0, begin + width - 1;
            var draws := Draws(state, width);
            var left := if begin + draws[0] == last then v else v[begin + draws[0] := v[last]];
            && |w| == |v| && w[last] == v[begin + draws[0]]
            && w[..last] == ShuffledBy(left, begin, width - 1, draws[1..])[..last]
            && forall i | 0 <= i < begin || begin + width <= i < |v| :: w[i] == v[i]
  {
    hide Draws, Shuffled, ShuffledBy;
    var draws := Draws(state, width);
    ShuffledIsBy(v, begin, width, state);
    ShuffleStep(v, begin, width, draws);
    ShuffledByKeeps(v, begin, width, draws);
  }
}
