/** From a C++ map to a command and back: MakeCmd flattens it, the wire carries it, and
    recv_string_hash_map_reply folds the elements into the same map. */
module HashMaps {
  import opened Bytes
  import opened Resp
  import opened ReaderMachine
  import opened Format

  type Pairs = seq<(bytes, bytes)>

  /** The map whose entries an iteration lists as `pairs`. */
  function MapOf(pairs: Pairs): map<bytes, bytes> {
    if pairs == [] then map[] else map[pairs[0].0 := pairs[0].1] + MapOf(pairs[1..])
  }

  function Flatten(pairs: Pairs): seq<bytes> {
    if pairs == [] then [] else [pairs[0].0, pairs[0].1] + Flatten(pairs[1..])
  }

  /** MakeCmd: a list of arguments that the insertion operators extend. */
  class MakeCmd {
    var args: seq<bytes>

    constructor (name: bytes)
      ensures args == [name]
    {
      args := [name];
    }

    method InsertArray(strs: seq<bytes>)
      modifies this
      ensures args == old(args) + strs
    {
      var i := 0;
      while i < |strs|
        invariant 0 <= i <= |strs| && args == old(args) + strs[..i]
      {
        args := args + [strs[i]];
        i := i + 1;
      }
      assert strs[..i] == strs;
    }

    method InsertMap(pairs: Pairs)
      modifies this
      ensures args == old(args) + Flatten(pairs)
    {
      var i := 0;
      assert pairs[0..] == pairs;
      while i < |pairs|
        invariant 0 <= i <= |pairs| && args + Flatten(pairs[i..]) == old(args) + Flatten(pairs)
      {
        ghost var later := Flatten(pairs[i + 1..]);
        assert pairs[i..][1..] == pairs[i + 1..];
        assert args + ([pairs[i].0, pairs[i].1] + later) == args + [pairs[i].0] + [pairs[i].1] + later;
        args := args + [pairs[i].0];
        args := args + [pairs[i].1];
        i := i + 1;
      }
    }
  }

  /** The map, the exception, or a count of elements that the element vector does not have. */
  datatype Received = Map(h: map<bytes, bytes>) | Exception | Overrun

  /** The elements pairwise. */
  function Fold(es: seq<Reply>, h: map<bytes, bytes>): Received
    decreases |es|
  {
    if es == [] then Map(h)
    else if |es| == 1 then Overrun
    else if es[0].Str? && es[1].Str? then Fold(es[2..], h[es[0].text := es[1].text])
    else Exception
  }

  /** recv_string_hash_map_reply. An odd number of elements, or a negative one, makes the source read
      behind the element vector unless a pair before it throws. */
  method RecvStringHashMapReply(reply: Reply) returns (h: Received, elements: nat)
    ensures h == if reply.Array? then Fold(reply.elements, map[]) else if reply.Hollow? then Overrun else Exception
    ensures h.Map? ==> elements == |reply.elements| / 2
  {
    elements := 0;
    if reply.Hollow? { return Overrun, 0; }
    if !reply.Array? { return Exception, 0; }
    var es := reply.elements;
    var m: map<bytes, bytes>, i := map[], 0;
    assert es[0..] == es;
    while i < |es|
      invariant 0 <= i <= |es| && i == 2 * elements
      invariant Fold(es[i..], m) == Fold(es, map[])
    {
      var field := es[i];
      i := i + 1;
      if i == |es| { return Overrun, elements; }
      var value := es[i];
      assert es[i - 1..][2..] == es[i + 1..];
      if field.Str? && value.Str? {
        m := m[field.text := value.text];
        elements := elements + 1;
      } else {
        return Exception, elements;
      }
      i := i + 1;
    }
    return Map(m), elements;
  }

  /** An odd number of string elements always ends behind the vector. */
  lemma {:induction false} OddOverruns(es: seq<Reply>, h: map<bytes, bytes>)
    requires forall i | 0 <= i < |es| :: es[i].Str?
    ensures Fold(es, h).Overrun? <==> |es| % 2 == 1
    ensures Fold(es, h).Map? <==> |es| % 2 == 0
    decreases |es|
  {
    if |es| > 1 {
      OddOverruns(es[2..], h[es[0].text := es[1].text]);
    }
  }

  /** Whether the fold builds the map, throws, or reads behind the elements, for every reply: it throws at
      the first whole pair that is not two strings. */
  predicate BadPair(es: seq<Reply>, i: nat) {
    i % 2 == 0 && i + 1 < |es| && !(es[i].Str? && es[i + 1].Str?)
  }

  lemma {:induction false} FoldExact(es: seq<Reply>, h: map<bytes, bytes>)
    ensures Fold(es, h).Exception? <==> exists i: nat :: BadPair(es, i)
    ensures Fold(es, h).Overrun? <==> |es| % 2 == 1 && forall i: nat :: !BadPair(es, i)
    decreases |es|
  {
    if |es| >= 2 {
      var rest := es[2..];
      forall i: nat | i >= 2 ensures BadPair(es, i) <==> BadPair(rest, i - 2) {
      }
      assert forall i: nat :: BadPair(rest, i) <==> BadPair(es, i + 2);
      assert !BadPair(es, 1);
      if !BadPair(es, 0) { FoldExact(rest, h[es[0].text := es[1].text]); }
    }
  }

  /** A pair behind the others sets its field, whether it was there before or not. */
  lemma {:induction false} LastWins(es: seq<Reply>, k: bytes, v: bytes, h: map<bytes, bytes>)
    requires Fold(es, h).Map?
    ensures Fold(es + [Str(k), Str(v)], h) == Map(Fold(es, h).h[k := v])
    decreases |es|
  {
    var all := es + [Str(k), Str(v)];
    if es == [] {
      assert all[2..] == [];
    } else {
      assert all[2..] == es[2..] + [Str(k), Str(v)];
      LastWins(es[2..], k, v, h[es[0].text := es[1].text]);
    }
  }

  predicate DistinctFields(pairs: Pairs) {
    forall i, j | 0 <= i < j < |pairs| :: pairs[i].0 != pairs[j].0
  }

  lemma StrsAppend(a: seq<bytes>, b: seq<bytes>)
    ensures Strs(a + b) == Strs(a) + Strs(b)
  {
  }

  /** The element list of a flattened map starts with the first field and its value. */
  lemma FlattenFirst(pairs: Pairs)
    requires pairs != []
    ensures var es := Strs(Flatten(pairs));
            && |es| == 2 + |Strs(Flatten(pairs[1..]))| && es[0] == Str(pairs[0].0) && es[1] == Str(pairs[0].1)
            && es[2..] == Strs(Flatten(pairs[1..]))
  {
    hide MapOf, Fold;
    var rest := Flatten(pairs[1..]);
    StrsAppend([pairs[0].0, pairs[0].1], rest);
  }

  lemma FoldFirst(es: seq<Reply>, k: bytes, v: bytes, h: map<bytes, bytes>)
    requires |es| >= 2 && es[0] == Str(k) && es[1] == Str(v)
    ensures Fold(es, h) == Fold(es[2..], h[k := v])
  {
  }

  lemma {:induction false} FoldFlatten(pairs: Pairs, h: map<bytes, bytes>)
    requires DistinctFields(pairs)
    ensures |Strs(Flatten(pairs))| == 2 * |pairs|
    ensures Fold(Strs(Flatten(pairs)), h) == Map(h + MapOf(pairs))
    decreases |pairs|
  {
    hide Strs, Flatten, Fold;
    if pairs == [] {
      FoldNothing(h);
      assert h + map[] == h;
    } else {
      var (k, v) := pairs[0];
      FlattenFirst(pairs);
      FoldFlatten(pairs[1..], h[k := v]);
      FoldFirst(Strs(Flatten(pairs)), k, v, h);
      FirstFieldOnce(pairs);
      assert h[k := v] + MapOf(pairs[1..]) == h + MapOf(pairs);
    }
  }

  lemma FoldNothing(h: map<bytes, bytes>)
    ensures Strs(Flatten([])) == [] && Fold([], h) == Map(h)
  {
  }

  lemma FirstFieldOnce(pairs: Pairs)
    requires DistinctFields(pairs) && pairs != []
    ensures pairs[0].0 !in MapOf(pairs[1..])
  {
    FieldsOfMap(pairs[1..]);
  }

  lemma {:induction false} FieldsOfMap(pairs: Pairs)
    ensures MapOf(pairs).Keys == set i | 0 <= i < |pairs| :: pairs[i].0
  {
    if pairs != [] {
      FieldsOfMap(pairs[1..]);
      forall i | 1 <= i < |pairs| ensures pairs[i].0 in MapOf(pairs) {
        assert pairs[1..][i - 1] == pairs[i];
      }
    }
  }

  /** A map sent as a command's arguments and read back by the reply reader is the same map. */
  lemma {:induction false} MapRoundTrip(name: bytes, pairs: Pairs, tail: bytes)
    requires DistinctFields(pairs)
    ensures var args := [name] + Flatten(pairs);
            && Run(Fresh(Command(args) + tail)) == Got(Array([Str(name)] + Strs(Flatten(pairs))), tail)
            && Fold(Strs(Flatten(pairs)), map[]) == Map(MapOf(pairs))
  {
    hide Run, Command, Flatten, Fold, MapOf, DistinctFields;
    var args := [name] + Flatten(pairs);
    CommandRoundTrip(args, tail);
    assert Strs(args) == [Str(name)] + Strs(Flatten(pairs));
    FoldFlatten(pairs, map[]);
    assert map[] + MapOf(pairs) == MapOf(pairs);
  }
}
