/** The iterator of the hash table. It remembers the next entry, so its caller may delete the one it
    was just given. */
module DictIterator {
  import opened Bytes
  import opened HashTable

  /** tail is the end of chain. */
  ghost predicate Suffix<V>(tail: seq<Entry<V>>, chain: seq<Entry<V>>) {
    |tail| <= |chain| && chain[|chain| - |tail|..] == tail
  }

  lemma SizeIs<V>(ht: Dict<V>)
    requires ht.Valid()
    ensures ht.size == |ht.chains|
  {
    hide Injective, Placed, Linked, Stores, Total;
  }

  lemma WholeSuffix<V>(chain: seq<Entry<V>>)
    ensures Suffix(chain, chain)
  {
  }

  lemma NothingFlat<V>()
    ensures Flat<V>([]) == []
  {
  }

  class Iterator<V> {
    const ht: Dict<V>
    var index: int
    var entry: Entry?<V>
    var nextEntry: Entry?<V>
    /** The rest of the current chain, behind `entry`. */
    ghost var tail: seq<Entry<V>>

    ghost predicate Valid()
      reads this, ht
    {
      && index >= -1
      && (entry == null ==> tail == [])
      && (entry != null ==>
            0 <= index < |ht.chains| && Suffix(tail, ht.chains[index]) && nextEntry == At(tail, 0))
    }

    /** The entries still to come. */
    ghost function Left(): seq<Entry<V>>
      requires Valid()
      reads this, ht
    {
      tail + if index < |ht.chains| then Flat(ht.chains[index + 1..]) else []
    }

    /** dictGetIterator. */
    constructor (ht: Dict<V>)
      requires ht.Valid()
      ensures ht.Valid() && Valid() && this.ht == ht && Left() == Flat(ht.chains) && entry == null
    {
      hide Buckets, Stores, Total;
      this.ht := ht;
      index, entry, nextEntry, tail := -1, null, null, [];
      new;
      assert ht.chains[0..] == ht.chains;
      assert [] + Flat(ht.chains) == Flat(ht.chains);
    }

    /** Where the iterator stands right after it returned an entry. */
    ghost predicate Returned(e: Entry<V>)
      reads this, ht
    {
      && Valid() && entry == e && 0 <= index < |ht.chains|
      && |tail| < |ht.chains[index]| && ht.chains[index][|ht.chains[index]| - |tail| - 1] == e
    }

    /** The next entry of the current chain, if there is one. */
    method Take(ghost rest: seq<Entry<V>>) returns (found: bool)
      requires ht.Valid() && 0 <= index < |ht.chains| && Suffix(rest, ht.chains[index]) && entry == At(rest, 0)
      modifies this`nextEntry, this`tail
      ensures ht.Valid() && Valid() && found == (rest != []) && tail == if found then rest[1..] else []
      ensures found ==> Returned(rest[0])
    {
      hide Total, IsPower, Slot, Injective, Placed, Stores, Members;
      ghost var chain := ht.chains[index];
      assert Linked(ht.table[index], chain);
      ghost var k := |chain| - |rest|;
      if entry != null {
        assert chain[k] == rest[0] && (|rest| > 1 ==> chain[k + 1] == rest[1]);
        nextEntry := entry.next;
        tail := rest[1..];
        return true;
      }
      tail := [];
      return false;
    }

    /** The first entry of the bucket the index has moved to. */
    method NextBucket() returns (ghost rest: seq<Entry<V>>)
      requires ht.Valid() && 0 <= index < ht.size
      modifies this`entry
      ensures rest == ht.chains[index] && entry == At(rest, 0)
      ensures Flat(ht.chains[index..]) == rest + Flat(ht.chains[index + 1..])
    {
      hide Total, IsPower, Slot, Injective, Placed, Stores, Members;
      entry := ht.table[index];
      rest := ht.chains[index];
      assert Linked(entry, rest);
      assert ht.chains[index..][1..] == ht.chains[index + 1..];
    }

    /** The chain is used up: on to the next bucket, if there is one. */
    method NextIndex() returns (ended: bool, ghost rest: seq<Entry<V>>)
      requires ht.Valid() && Valid() && entry == null
      modifies this`index, this`entry
      ensures ht.Valid() && index == old(index) + 1
      ensures ended ==> Valid() && old(Left()) == [] && Left() == []
      ensures !ended ==> 0 <= index < |ht.chains| && rest == ht.chains[index] && entry == At(rest, 0)
      ensures !ended ==> old(Left()) == rest + Flat(ht.chains[index + 1..])
    {
      hide Flat, Buckets, Stores, Total, IsPower;
      SizeIs(ht);
      NothingFlat<V>();
      rest := [];
      index := index + 1;
      if index >= ht.size {
        assert index == |ht.chains| ==> ht.chains[index..] == [];
        return true, rest;
      }
      rest := NextBucket();
      return false, rest;
    }

    /** The first half of a round of dictNext's loop: the entry to look at, or the end. */
    method Position() returns (ended: bool, ghost rest: seq<Entry<V>>)
      requires ht.Valid() && Valid()
      modifies this`index, this`entry
      ensures ht.Valid()
      ensures ended ==> Valid() && old(Left()) == [] && Left() == [] && index > old(index)
      ensures !ended ==> 0 <= index < |ht.chains| && Suffix(rest, ht.chains[index]) && entry == At(rest, 0)
      ensures !ended ==> old(Left()) == rest + Flat(ht.chains[index + 1..])
      ensures !ended ==> index > old(index) || (index == old(index) && old(entry) != null)
    {
      hide Flat, Buckets, Stores, Total, IsPower;
      if entry == null {
        ended, rest := NextIndex();
        if !ended { WholeSuffix(rest); }
      } else {
        rest := tail;
        entry := nextEntry;
        ended := false;
      }
    }

    /** One round of dictNext's loop: `stop` when it breaks or returns. */
    method Round() returns (e: Entry?<V>, stop: bool)
      requires ht.Valid() && Valid()
      modifies this
      ensures Valid() && ht.Valid()
      ensures !stop ==> e == null && Left() == old(Left())
      ensures !stop ==>
                && index <= |ht.chains|
                && (index > old(index) || (index == old(index) && entry == null && old(entry) != null))
      ensures stop ==> e == At(old(Left()), 0) && Left() == if old(Left()) == [] then [] else old(Left())[1..]
      ensures stop && e != null ==> Returned(e)
    {
      hide Total, Stores, Members, Buckets, Flat, ht.Valid;
      var ended;
      ghost var rest;
      ended, rest := Position();
      if ended { return null, true; }
      ghost var later := Flat(ht.chains[index + 1..]);
      var found := Take(rest);
      assert found ==> (rest + later)[1..] == rest[1..] + later;
      return entry, found;
    }

    /** dictNext. */
    method Next() returns (e: Entry?<V>)
      requires ht.Valid() && Valid()
      modifies this
      ensures ht.Valid() && Valid() && e == At(old(Left()), 0)
      ensures Left() == if old(Left()) == [] then [] else old(Left())[1..]
      ensures e != null ==> Returned(e)
    {
      hide *;
      ghost var all := Left();
      var stop;
      e, stop := Round();
      while !stop
        invariant ht.Valid() && Valid()
        invariant !stop ==> e == null && Left() == all
        invariant stop ==>
                    && e == At(all, 0) && (Left() == if all == [] then [] else all[1..])
                    && (e != null ==> Returned(e))
        decreases !stop, |ht.chains| - index, entry != null
      {
        e, stop := Round();
      }
    }
  }

  function Keys<V>(entries: seq<Entry<V>>): seq<bytes> {
    seq(|entries|, i requires 0 <= i < |entries| => entries[i].key)
  }

  lemma {:induction false} FlatMembers<V>(chains: seq<seq<Entry<V>>>)
    ensures forall e :: e in Flat(chains) <==> e in Members(chains)
  {
    if chains != [] {
      FlatMembers(chains[1..]);
      MembersSplit(chains, 1);
      assert Members(chains[..1]) == set e | e in chains[0] by {
        forall e | e in chains[0] ensures e in Members(chains[..1]) {
          var i :| 0 <= i < |chains[0]| && chains[0][i] == e;
          assert chains[..1][0][i] == e;
        }
      }
    }
  }

  /** Entries in the order of the buckets, none twice. */
  lemma {:induction false} FlatDistinct<V>(chains: seq<seq<Entry<V>>>)
    requires Injective(chains)
    ensures forall i, j | 0 <= i < j < |Flat(chains)| :: Flat(chains)[i] != Flat(chains)[j]
  {
    if chains != [] {
      var rest := chains[1..];
      assert Injective(rest) by {
        forall b, i, c, j | 0 <= b < |rest| && 0 <= i < |rest[b]| && 0 <= c < |rest| && 0 <= j < |rest[c]|
            && rest[b][i] == rest[c][j]
          ensures b == c && i == j
        {
          assert chains[b + 1][i] == chains[c + 1][j];
        }
      }
      FlatDistinct(rest);
      FlatMembers(rest);
      forall i | 0 <= i < |chains[0]| ensures chains[0][i] !in Members(rest) {
        forall b, j | 0 <= b < |rest| && 0 <= j < |rest[b]| ensures rest[b][j] != chains[0][i] {
          assert rest[b][j] == chains[b + 1][j];
        }
      }
    }
  }

  /** What an iteration visits when nothing is deleted: every key of the table, once. */
  lemma {:induction false} IterationKeys<V>(ht: Dict<V>)
    requires ht.Valid()
    ensures Distinct(Keys(Flat(ht.chains)))
    ensures forall k :: k in Keys(Flat(ht.chains)) <==> k in ht.model
  {
    var all := Flat(ht.chains);
    FlatMembers(ht.chains);
    FlatDistinct(ht.chains);
    forall i, j | 0 <= i < j < |all| ensures Keys(all)[i] != Keys(all)[j] {
      assert all[i] in Members(ht.chains) && all[j] in Members(ht.chains);
    }
    forall k | k in ht.model ensures k in Keys(all) {
      var e :| e in Members(ht.chains) && e.key == k;
      var i :| 0 <= i < |all| && all[i] == e;
      assert Keys(all)[i] == k;
    }
  }

  /** Deleting the entry that was just returned leaves everything still to come in place. */
  lemma DeletionSafe<V>(chains: seq<seq<Entry<V>>>, h: nat, tail: seq<Entry<V>>)
    requires h < |chains| && Suffix(tail, chains[h]) && |tail| < |chains[h]|
    ensures var chains' := Unlinked(chains, h, |chains[h]| - |tail| - 1);
            |chains'| == |chains| && Suffix(tail, chains'[h]) && chains'[h + 1..] == chains[h + 1..]
  {
    var i := |chains[h]| - |tail| - 1;
    var c := Without(chains[h], i);
    assert |c| - |tail| == i && c[i..] == chains[h][i + 1..];
  }

  lemma OnlySpot<V>(ht: Dict<V>, h: nat, i: nat)
    requires ht.Valid() && h < |ht.chains| && i < |ht.chains[h]|
    ensures forall b, j | 0 <= b < |ht.chains| && 0 <= j < |ht.chains[b]|
            && ht.chains[b][j].key == ht.chains[h][i].key ::
              b == h && j == i
  {
    hide Total, IsPower, Slot, Placed, Linked;
    forall b, j | 0 <= b < |ht.chains| && 0 <= j < |ht.chains[b]| && ht.chains[b][j].key == ht.chains[h][i].key
      ensures b == h && j == i
    {
      assert ht.chains[b][j] in Members(ht.chains) && ht.chains[h][i] in Members(ht.chains);
    }
  }

  /** A map without the visited keys that are to be dropped. */
  function Kept<V>(model: map<bytes, V>, drop: bytes -> bool, visited: seq<bytes>): map<bytes, V> {
    map k | k in model && !(drop(k) && k in visited) :: model[k]
  }

  lemma KeptPush<V>(model: map<bytes, V>, drop: bytes -> bool, visited: seq<bytes>, k: bytes)
    ensures Kept(model, drop, visited + [k]) ==
            if drop(k) then Kept(model, drop, visited) - {k} else Kept(model, drop, visited)
  {
  }

  /** The iterator has just returned entry n of `all`, or has come to its end. */
  ghost predicate AtEntry<V>(it: Iterator<V>, all: seq<Entry<V>>, n: nat, e: Entry?<V>)
    reads it, it.ht
  {
    && it.Valid() && n <= |all| && e == At(all, n)
    && (e != null ==> it.Left() == all[n + 1..] && it.Returned(e))
  }

  /** One round of the caller's loop below. */
  method Visit<V>(it: Iterator<V>, drop: bytes -> bool, e: Entry<V>, ghost all: seq<Entry<V>>, ghost n: nat)
    returns (next: Entry?<V>)
    requires it.ht.Valid() && AtEntry(it, all, n, e)
    modifies it, it.ht, it.ht.table, Members(it.ht.chains)`next
    ensures it.ht.Valid() && it.ht.table == old(it.ht.table) && Members(it.ht.chains) <= old(Members(it.ht.chains))
    ensures AtEntry(it, all, n + 1, next)
    ensures it.ht.model == if drop(e.key) then old(it.ht.model) - {e.key} else old(it.ht.model)
  {
    hide it.ht.Valid, Members, Flat;
    if drop(e.key) {
      DeleteReturned(it, e);
    }
    next := it.Next();
  }

  /** A caller's loop: visit every entry, and delete those it does not want right away. */
  method Sweep<V>(ht: Dict<V>, drop: bytes -> bool) returns (visited: seq<bytes>)
    requires ht.Valid()
    modifies ht, ht.table, Members(ht.chains)`next
    ensures ht.Valid() && visited == Keys(Flat(old(ht.chains)))
    ensures Distinct(visited) && forall k :: k in visited <==> k in old(ht.model)
    ensures ht.model == Kept(old(ht.model), drop, visited)
  {
    hide ht.Valid, Members, Flat, AtEntry;
    IterationKeys(ht);
    ghost var all := Flat(ht.chains);
    var it, e := StartIteration(ht, all);
    visited := [];
    while e != null
      invariant fresh(it) && it.ht == ht && ht.Valid()
      invariant ht.table == old(ht.table) && Members(ht.chains) <= old(Members(ht.chains))
      invariant AtEntry(it, all, |visited|, e) && |visited| <= |all| && e == At(all, |visited|)
      invariant visited == Keys(all[..|visited|])
      invariant ht.model == Kept(old(ht.model), drop, visited)
      decreases |all| - |visited|
    {
      assert all[..|visited| + 1] == all[..|visited|] + [e];
      KeptPush(old(ht.model), drop, visited, e.key);
      var next := Visit(it, drop, e, all, |visited|);
      visited := visited + [e.key];
      e := next;
      EntryIs(it, all, |visited|, e);
    }
    assert all[..|visited|] == all;
  }

  lemma EntryIs<V>(it: Iterator<V>, all: seq<Entry<V>>, n: nat, e: Entry?<V>)
    requires AtEntry(it, all, n, e)
    ensures n <= |all| && e == At(all, n)
  {
  }

  method StartIteration<V>(ht: Dict<V>, ghost all: seq<Entry<V>>) returns (it: Iterator<V>, e: Entry?<V>)
    requires ht.Valid() && all == Flat(ht.chains)
    ensures fresh(it) && it.ht == ht && ht.Valid() && AtEntry(it, all, 0, e) && e == At(all, 0)
  {
    hide ht.Valid, Members, Flat;
    it := new Iterator(ht);
    e := it.Next();
  }

  /** The entry just returned is in the table, and no other place holds its key. */
  lemma ReturnedSpot<V>(it: Iterator<V>, e: Entry<V>)
    requires it.ht.Valid() && it.Returned(e)
    ensures e.key in it.ht.model
    ensures forall b, j | 0 <= b < |it.ht.chains| && 0 <= j < |it.ht.chains[b]| && it.ht.chains[b][j].key == e.key ::
              b == it.index && j == |it.ht.chains[it.index]| - |it.tail| - 1
  {
    hide Total, Stores, Buckets;
    var ht := it.ht;
    assert e in Members(ht.chains);
    ht.InModel(e);
    OnlySpot(ht, it.index, |ht.chains[it.index]| - |it.tail| - 1);
  }

  /** dictDelete of the entry just returned: the iterator stays valid and loses nothing. */
  method DeleteReturned<V>(it: Iterator<V>, e: Entry<V>)
    requires it.ht.Valid() && it.Returned(e)
    modifies it.ht, it.ht.table, Members(it.ht.chains)`next
    ensures it.ht.Valid() && it.Valid() && it.Left() == old(it.Left()) && it.ht.table == old(it.ht.table)
    ensures it.ht.model == old(it.ht.model) - {e.key} && e.key in old(it.ht.model)
    ensures Members(it.ht.chains) <= old(Members(it.ht.chains))
  {
    hide it.ht.Valid, Members, Flat, Suffix, Unlinked;
    var ht := it.ht;
    ghost var chains, h, i := ht.chains, it.index, |ht.chains[it.index]| - |it.tail| - 1;
    ReturnedSpot(it, e);
    DeletionSafe(chains, h, it.tail);
    var ok;
    ghost var b, j;
    ok, b, j := ht.Delete(e.key);
    assert b == h && j == i;
    assert Members(ht.chains) <= Members(chains) by { UnlinkShrinks(chains, h, i); }
  }
}
