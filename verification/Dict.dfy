/** The chained hash table: buckets of linked entries, and power-of-two growth that relinks the
    entries in place. */
module HashTable {
  import opened Bytes

  // -------------------------------------------------------------------- hashing

  const HASH_RANGE: nat := 0x1_0000_0000

  /** dictGenHashFunction on 32-bit unsigned integers: hash * 33 + c from 5381 on. */
  function Hash(key: bytes): (h: nat)
    ensures h < HASH_RANGE
  {
    if key == [] then 5381 else (Hash(key[..|key| - 1]) * 33 + key[|key| - 1]) % HASH_RANGE
  }

  method HashKey(key: bytes) returns (hash: nat)
    ensures hash == Hash(key)
  {
    hash := 5381;
    var i := 0;
    while i < |key|
      invariant 0 <= i <= |key| && hash == Hash(key[..i])
    {
      assert key[..i + 1][..i] == key[..i];
      hash := (hash * 33 + key[i]) % HASH_RANGE;
      i := i + 1;
    }
    assert key[..i] == key;
  }

  function Power(base: nat, n: nat): nat {
    if n == 0 then 1 else base * Power(base, n - 1)
  }

  /** The bytes as digits of a number to the base 33. */
  function Digits33(key: bytes): nat {
    if key == [] then 0 else key[0] * Power(33, |key| - 1) + Digits33(key[1..])
  }

  lemma {:induction false} Digits33Push(key: bytes, c: byte)
    ensures Digits33(key + [c]) == 33 * Digits33(key) + c
  {
    var longer := key + [c];
    if key == [] {
      assert longer[1..] == [];
    } else {
      assert longer[1..] == key[1..] + [c];
      Digits33Push(key[1..], c);
      assert Power(33, |key|) == 33 * Power(33, |key| - 1);
      assert key[0] * (33 * Power(33, |key| - 1)) == 33 * (key[0] * Power(33, |key| - 1));
    }
  }

  lemma ModuloStep(x: nat, c: nat)
    ensures (x % HASH_RANGE * 33 + c) % HASH_RANGE == (x * 33 + c) % HASH_RANGE
  {
    var q, r := x / HASH_RANGE, x % HASH_RANGE;
    assert x * 33 + c == HASH_RANGE * (33 * q) + (r * 33 + c);
    SameModulo(r * 33 + c, 33 * q);
  }

  lemma {:induction false} SameModulo(x: nat, k: nat)
    ensures (HASH_RANGE * k + x) % HASH_RANGE == x % HASH_RANGE
  {
    if k > 0 {
      SameModulo(x, k - 1);
      assert HASH_RANGE * k + x == HASH_RANGE * (k - 1) + x + HASH_RANGE;
    }
  }

  /** The hash is the number that 5381 and the bytes make to the base 33, on 32 bits. */
  lemma {:induction false} HashIsNumber(key: bytes)
    ensures Hash(key) == (5381 * Power(33, |key|) + Digits33(key)) % HASH_RANGE
  {
    if key != [] {
      var init, c := key[..|key| - 1], key[|key| - 1];
      HashIsNumber(init);
      assert key == init + [c];
      Digits33Push(init, c);
      var x := 5381 * Power(33, |init|) + Digits33(init);
      ModuloStep(x, c);
      assert 5381 * Power(33, |key|) == 33 * (5381 * Power(33, |init|));
    }
  }

  predicate IsPower(size: nat) {
    size == 1 || (size > 1 && size % 2 == 0 && IsPower(size / 2))
  }

  /** There is one power of two from n up to its double. */
  lemma {:induction false} PowerBetween(r: nat, n: nat)
    requires IsPower(r) && IsPower(n) && n <= r && r / 2 < n
    ensures r == n
  {
    if r > 1 && n > 1 { PowerBetween(r / 2, n / 2); }
  }

  lemma FirstPower()
    ensures IsPower(INITIAL_SIZE)
  {
  }

  lemma TwicePower(n: nat)
    requires IsPower(n)
    ensures IsPower(2 * n)
  {
  }

  /** The & of two natural numbers, bit by bit. */
  function BitAnd(x: nat, y: nat): (r: nat)
    ensures r <= x && r <= y
  {
    if x == 0 || y == 0 then 0 else 2 * BitAnd(x / 2, y / 2) + (if x % 2 == 1 && y % 2 == 1 then 1 else 0)
  }

  /** Masking with size - 1 is the remainder, because the size is a power of two. */
  lemma {:induction false} MaskIsModulo(x: nat, size: nat)
    requires IsPower(size)
    ensures BitAnd(x, size - 1) == x % size
  {
    hide BitAnd;
    if size == 1 || x == 0 {
      ZeroMask(x, size - 1);
    } else {
      var half := size / 2;
      assert size == 2 * half && (size - 1) / 2 == half - 1 && (size - 1) % 2 == 1;
      MaskIsModulo(x / 2, half);
      HalfModulo(x, half);
      OddMask(x, size - 1);
    }
  }

  lemma ZeroMask(x: nat, y: nat)
    ensures x == 0 || y == 0 ==> BitAnd(x, y) == 0
  {
  }

  lemma OddMask(x: nat, y: nat)
    requires y % 2 == 1
    ensures BitAnd(x, y) == 2 * BitAnd(x / 2, y / 2) + x % 2
  {
  }

  lemma HalfModulo(x: nat, half: nat)
    requires half > 0
    ensures x % (2 * half) == 2 * ((x / 2) % half) + x % 2
  {
    var q, r := (x / 2) / half, (x / 2) % half;
    var d, low := 2 * half, 2 * r + x % 2;
    assert x == d * q + low by {
      assert x / 2 == half * q + r;
      assert d * q == 2 * (half * q);
    }
    ModuloUnique(x, d, q, low);
  }

  lemma ModuloUnique(x: nat, d: nat, q: nat, r: nat)
    requires d > 0 && x == d * q + r && r < d
    ensures x % d == r
  {
    var q', r' := x / d, x % d;
    assert d * (q' - q) == r - r' by {
      assert x == d * q' + r';
      assert d * (q' - q) == d * q' - d * q;
    }
    SmallMultiple(d, q' - q);
  }

  /** The bucket of a key in a table of n buckets. */
  function Slot(key: bytes, n: nat): (b: nat)
    requires n > 0
    ensures b < n
  {
    BitAnd(Hash(key), n - 1)
  }

  // -------------------------------------------------------------------- buckets

  class Entry<V> {
    const key: bytes
    var val: V
    var next: Entry?<V>

    constructor (key: bytes, val: V, next: Entry?<V>)
      ensures this.key == key && this.val == val && this.next == next
    {
      this.key, this.val, this.next := key, val, next;
    }
  }

  /** The i-th entry of a chain, or null past its end. */
  function At<V>(chain: seq<Entry<V>>, i: nat): Entry?<V> {
    if i < |chain| then chain[i] else null
  }

  /** The linked list from `head` is exactly `chain`. */
  ghost predicate Linked<V>(head: Entry?<V>, chain: seq<Entry<V>>)
    reads chain`next
  {
    && head == At(chain, 0)
    && (forall i, j | 0 <= i < |chain| && j == i + 1 < |chain| :: chain[i].next == chain[j])
    && (chain != [] ==> chain[|chain| - 1].next == null)
  }

  ghost function Flat<V>(chains: seq<seq<Entry<V>>>): seq<Entry<V>> {
    if chains == [] then [] else chains[0] + Flat(chains[1..])
  }

  ghost function Members<V>(chains: seq<seq<Entry<V>>>): set<Entry<V>> {
    set b, i | 0 <= b < |chains| && 0 <= i < |chains[b]| :: chains[b][i]
  }

  ghost function Total<V>(chains: seq<seq<Entry<V>>>): nat {
    if chains == [] then 0 else |chains[0]| + Total(chains[1..])
  }

  /** No entry stands in two places. */
  ghost predicate Injective<V>(chains: seq<seq<Entry<V>>>) {
    forall b, i, c, j | 0 <= b < |chains| && 0 <= i < |chains[b]| && 0 <= c < |chains| && 0 <= j < |chains[c]| ::
      chains[b][i] == chains[c][j] ==> b == c && i == j
  }

  /** Every entry sits in the bucket of its key. */
  ghost predicate Placed<V>(chains: seq<seq<Entry<V>>>) {
    forall b, i | 0 <= b < |chains| && 0 <= i < |chains[b]| :: Slot(chains[b][i].key, |chains|) == b
  }

  ghost predicate Buckets<V>(table: array<Entry?<V>>, chains: seq<seq<Entry<V>>>)
    reads table, Members(chains)`next
  {
    && |chains| == table.Length
    && Injective(chains) && Placed(chains)
    && forall b | 0 <= b < |chains| :: Linked(table[b], chains[b])
  }

  lemma BucketCount<V>(table: array<Entry?<V>>, chains: seq<seq<Entry<V>>>)
    requires Buckets(table, chains)
    ensures |chains| == table.Length
  {
  }

  /** Put an unlinked entry at the head of its bucket. */
  method PushFront<V>(table: array<Entry?<V>>, h: nat, e: Entry<V>, ghost chains: seq<seq<Entry<V>>>)
    requires Buckets(table, chains) && h < table.Length && e !in Members(chains) && Slot(e.key, table.Length) == h
    modifies table, e`next
    ensures Buckets(table, chains[h := [e] + chains[h]])
    ensures Members(chains[h := [e] + chains[h]]) == Members(chains) + {e}
  {
    hide Members, Slot;
    ghost var chains' := chains[h := [e] + chains[h]];
    MembersPush(chains, h, e);
    e.next := table[h];
    table[h] := e;
    assert Linked(table[h], chains'[h]);
    forall b | 0 <= b < |chains| ensures Linked(table[b], chains'[b]) {
      if b != h {
        assert Linked(old(table[b]), chains[b]);
      }
    }
  }

  lemma MembersPush<V>(chains: seq<seq<Entry<V>>>, h: nat, e: Entry<V>)
    requires h < |chains| && e !in Members(chains) && Injective(chains) && Placed(chains) && Slot(e.key, |chains|) == h
    ensures var chains' := chains[h := [e] + chains[h]];
            Members(chains') == Members(chains) + {e} && Injective(chains') && Placed(chains')
    ensures forall b, i | 0 <= b < |chains| && 0 <= i < |chains[b]| :: chains[b][i] != e
  {
    hide Slot;
    var chains' := chains[h := [e] + chains[h]];
    assert chains'[h][0] == e;
    forall b, i | 0 <= b < |chains'| && 0 <= i < |chains'[b]| && !(b == h && i == 0)
      ensures chains'[b][i] == chains[b][if b == h then i - 1 else i] && chains'[b][i] in Members(chains)
    {
    }
    forall x | x in Members(chains) ensures x in Members(chains') {
      var b, i :| 0 <= b < |chains| && 0 <= i < |chains[b]| && chains[b][i] == x;
      assert chains'[b][if b == h then i + 1 else i] == x;
    }
  }

  lemma TotalPush<V>(chains: seq<seq<Entry<V>>>, b: nat, chain: seq<Entry<V>>)
    requires b < |chains|
    ensures Total(chains[b := chain]) == Total(chains) - |chains[b]| + |chain|
  {
    if b > 0 {
      TotalPush(chains[1..], b - 1, chain);
      assert chains[b := chain][1..] == chains[1..][b - 1 := chain];
    } else {
      assert chains[b := chain][1..] == chains[1..];
    }
  }

  function Without<T>(s: seq<T>, i: nat): seq<T>
    requires i < |s|
  {
    s[..i] + s[i + 1..]
  }

  /** The chains after entry i of bucket h is gone. */
  ghost function Unlinked<V>(chains: seq<seq<Entry<V>>>, h: nat, i: nat): seq<seq<Entry<V>>>
    requires h < |chains| && i < |chains[h]|
  {
    chains[h := Without(chains[h], i)]
  }

  /** Where the entries that remain came from. */
  function Shifted(h: nat, i: nat, b: nat, j: nat): nat {
    if b == h && j >= i then j + 1 else j
  }

  lemma UnlinkedAt<V>(chains: seq<seq<Entry<V>>>, h: nat, i: nat, b: nat, j: nat)
    requires h < |chains| && i < |chains[h]| && b < |chains| && j < |Unlinked(chains, h, i)[b]|
    ensures var k := Shifted(h, i, b, j); k < |chains[b]| && Unlinked(chains, h, i)[b][j] == chains[b][k]
  {
  }

  lemma UnlinkKeepsPlaces<V>(chains: seq<seq<Entry<V>>>, h: nat, i: nat)
    requires h < |chains| && i < |chains[h]| && Injective(chains) && Placed(chains)
    ensures Injective(Unlinked(chains, h, i)) && Placed(Unlinked(chains, h, i))
  {
    hide Slot;
    var chains': seq<seq<Entry<V>>> := Unlinked(chains, h, i);
    forall b, j | 0 <= b < |chains'| && 0 <= j < |chains'[b]| ensures Slot(chains'[b][j].key, |chains'|) == b {
      UnlinkedAt(chains, h, i, b, j);
    }
    forall b, j, c, k | 0 <= b < |chains'| && 0 <= j < |chains'[b]| && 0 <= c < |chains'| && 0 <= k < |chains'[c]|
        && chains'[b][j] == chains'[c][k]
      ensures b == c && j == k
    {
      UnlinkedAt(chains, h, i, b, j);
      UnlinkedAt(chains, h, i, c, k);
    }
  }

  lemma UnlinkedOther<V>(chains: seq<seq<Entry<V>>>, h: nat, i: nat, b: nat, j: nat)
    requires h < |chains| && i < |chains[h]| && Injective(chains) && b < |chains| && j < |Unlinked(chains, h, i)[b]|
    ensures Unlinked(chains, h, i)[b][j] in Members(chains) && Unlinked(chains, h, i)[b][j] != chains[h][i]
  {
    hide Unlinked;
    UnlinkedAt(chains, h, i, b, j);
    assert chains[b][Shifted(h, i, b, j)] in Members(chains);
  }

  lemma StaysLinked<V>(chains: seq<seq<Entry<V>>>, h: nat, i: nat, b: nat, j: nat)
    requires h < |chains| && i < |chains[h]| && b < |chains| && j < |chains[b]| && (b != h || j != i)
    ensures chains[b][j] in Members(Unlinked(chains, h, i))
  {
    assert Unlinked(chains, h, i)[b][if b == h && j > i then j - 1 else j] == chains[b][j];
  }

  lemma UnlinkedCount<V>(chains: seq<seq<Entry<V>>>, h: nat, i: nat)
    requires h < |chains| && i < |chains[h]|
    ensures |Unlinked(chains, h, i)| == |chains| && Total(Unlinked(chains, h, i)) == Total(chains) - 1
  {
    hide Total;
    TotalPush(chains, h, Without(chains[h], i));
  }

  lemma MembersUnlink<V>(chains: seq<seq<Entry<V>>>, h: nat, i: nat)
    requires h < |chains| && i < |chains[h]| && Injective(chains) && Placed(chains)
    ensures var chains' := Unlinked(chains, h, i);
            Members(chains') == Members(chains) - {chains[h][i]} && Injective(chains') && Placed(chains')
    ensures Total(Unlinked(chains, h, i)) == Total(chains) - 1
  {
    hide Total, Placed, Injective, Unlinked;
    UnlinkKeepsPlaces(chains, h, i);
    UnlinkedCount(chains, h, i);
    var chains' := Unlinked(chains, h, i);
    forall e | e in Members(chains') ensures e in Members(chains) && e != chains[h][i] {
      var b, j :| 0 <= b < |chains'| && 0 <= j < |chains'[b]| && chains'[b][j] == e;
      UnlinkedOther(chains, h, i, b, j);
    }
    forall e | e in Members(chains) && e != chains[h][i] ensures e in Members(chains') {
      var b, j :| 0 <= b < |chains| && 0 <= j < |chains[b]| && chains[b][j] == e;
      StaysLinked(chains, h, i, b, j);
    }
  }

  /** What the table stands for. */
  ghost predicate Stores<V>(entries: set<Entry<V>>, model: map<bytes, V>)
    reads entries`val
  {
    && (forall e, f | e in entries && f in entries && e.key == f.key :: e == f)
    && (forall e | e in entries :: e.key in model && e.val == model[e.key])
    && (forall k | k in model :: exists e :: e in entries && e.key == k)
  }

  lemma StoresAdd<V>(entries: set<Entry<V>>, model: map<bytes, V>, e: Entry<V>)
    requires Stores(entries, model) && e.key !in model
    ensures Stores(entries + {e}, model[e.key := e.val])
  {
    var model' := model[e.key := e.val];
    forall k | k in model' ensures exists f :: f in entries + {e} && f.key == k {
      if k == e.key {
        assert e in entries + {e};
      } else {
        var f :| f in entries && f.key == k;
        assert f in entries + {e};
      }
    }
  }

  lemma StoresRemove<V>(entries: set<Entry<V>>, model: map<bytes, V>, e: Entry<V>)
    requires Stores(entries, model) && e in entries
    ensures Stores(entries - {e}, model - {e.key}) && |model - {e.key}| == |model| - 1
  {
    var model' := model - {e.key};
    forall k | k in model' ensures exists f :: f in entries - {e} && f.key == k {
      var f :| f in entries && f.key == k;
      assert f in entries - {e};
    }
    assert model.Keys == model'.Keys + {e.key};
  }

  /** The loop over one linked list: the entry with the key, and the one before it. */
  method WalkList<V>(head: Entry?<V>, key: bytes, ghost chain: seq<Entry<V>>)
    returns (prev: Entry?<V>, e: Entry?<V>, ghost i: nat)
    requires Linked(head, chain)
    ensures e == null ==> forall j | 0 <= j < |chain| :: chain[j].key != key
    ensures e != null ==> i < |chain| && e == chain[i] && e.key == key
    ensures i <= |chain| && prev == if i == 0 then null else chain[i - 1]
  {
    prev, e, i := null, head, 0;
    while e != null
      invariant 0 <= i <= |chain|
      invariant e == At(chain, i)
      invariant prev == if i == 0 then null else chain[i - 1]
      invariant forall j | 0 <= j < i :: chain[j].key != key
      decreases |chain| - i
    {
      if e.key == key { return; }
      assert chain[i].next == At(chain, i + 1);
      prev := e;
      e := e.next;
      i := i + 1;
    }
  }

  /** The body of dictExpand's loops: one entry moves to the new table. */
  method Relink<V>(ntable: array<Entry?<V>>, mask: nat, e: Entry<V>, ghost nchains: seq<seq<Entry<V>>>)
    returns (ghost nchains': seq<seq<Entry<V>>>)
    requires Buckets(ntable, nchains) && mask == ntable.Length - 1 >= 0
    requires e !in Members(nchains)
    modifies ntable, e`next
    ensures Buckets(ntable, nchains') && Members(nchains') == Members(nchains) + {e}
    ensures Total(nchains') == Total(nchains) + 1
  {
    var hash := HashKey(e.key);
    var h := BitAnd(hash, mask);
    PushFront(ntable, h, e, nchains);
    nchains' := nchains[h := [e] + nchains[h]];
    TotalPush(nchains, h, [e] + nchains[h]);
  }

  /** The inner loop of dictExpand: one old bucket is emptied into the new table. */
  method MoveBucket<V>(head: Entry?<V>, ghost chain: seq<Entry<V>>, ntable: array<Entry?<V>>, mask: nat,
                       ghost nchains: seq<seq<Entry<V>>>)
    returns (moved: nat, ghost nchains': seq<seq<Entry<V>>>)
    requires Linked(head, chain) && (forall i, j | 0 <= i < j < |chain| :: chain[i] != chain[j])
    requires Buckets(ntable, nchains) && mask == ntable.Length - 1 >= 0
    requires forall e | e in chain :: e !in Members(nchains)
    modifies ntable, chain`next
    ensures Buckets(ntable, nchains') && Members(nchains') == Members(nchains) + (set e | e in chain)
    ensures moved == |chain| && Total(nchains') == Total(nchains) + moved
  {
    hide Buckets, Members, Total;
    var he := head;
    moved, nchains' := 0, nchains;
    while he != null
      invariant 0 <= moved <= |chain|
      invariant he == At(chain, moved)
      invariant forall i, j | moved <= i < |chain| && j == i + 1 < |chain| :: chain[i].next == chain[j]
      invariant moved < |chain| ==> chain[|chain| - 1].next == null
      invariant Buckets(ntable, nchains') && Members(nchains') == Members(nchains) + (set e | e in chain[..moved])
      invariant Total(nchains') == Total(nchains) + moved
      decreases |chain| - moved
    {
      assert chain[moved].next == At(chain, moved + 1);
      var next := he.next;
      assert chain[..moved + 1] == chain[..moved] + [he];
      nchains' := Relink(ntable, mask, he, nchains');
      he := next;
      moved := moved + 1;
    }
    assert chain[..moved] == chain;
  }

  lemma {:induction false} EmptyTotal<V>(chains: seq<seq<Entry<V>>>)
    requires Total(chains) == 0
    ensures (forall b | 0 <= b < |chains| :: chains[b] == []) && Members(chains) == {}
  {
    if chains != [] {
      EmptyTotal(chains[1..]);
      forall b | 0 < b < |chains| ensures chains[b] == [] {
        assert chains[1..][b - 1] == [];
      }
    }
  }

  lemma MembersSplit<V>(chains: seq<seq<Entry<V>>>, i: nat)
    requires i <= |chains|
    ensures Members(chains) == Members(chains[..i]) + Members(chains[i..])
  {
    forall e | e in Members(chains) ensures e in Members(chains[..i]) || e in Members(chains[i..]) {
      var b, j :| 0 <= b < |chains| && 0 <= j < |chains[b]| && chains[b][j] == e;
      if b < i {
        assert chains[..i][b][j] == e;
      } else {
        assert chains[i..][b - i][j] == e;
      }
    }
  }

  lemma MembersNext<V>(chains: seq<seq<Entry<V>>>, i: nat)
    requires i < |chains|
    ensures Members(chains[..i + 1]) == Members(chains[..i]) + (set e | e in chains[i])
    ensures Total(chains[i..]) == |chains[i]| + Total(chains[i + 1..])
  {
    assert chains[i..][1..] == chains[i + 1..];
    forall e | e in chains[i] ensures e in Members(chains[..i + 1]) {
      var j :| 0 <= j < |chains[i]| && chains[i][j] == e;
      assert chains[..i + 1][i][j] == e;
    }
    forall e | e in Members(chains[..i]) ensures e in Members(chains[..i + 1]) {
      var b, j :| 0 <= b < i && 0 <= j < |chains[b]| && chains[b][j] == e;
      assert chains[..i + 1][b][j] == e;
    }
    forall e | e in Members(chains[..i + 1]) ensures e in Members(chains[..i]) || e in chains[i] {
      var b, j :| 0 <= b < i + 1 && 0 <= j < |chains[b]| && chains[b][j] == e;
      assert b < i ==> chains[..i][b][j] == e;
    }
  }

  lemma BucketApart<V>(chains: seq<seq<Entry<V>>>, i: nat)
    requires i < |chains| && Injective(chains)
    ensures forall e | e in chains[i] :: e !in Members(chains[..i])
    ensures forall j, k | 0 <= j < k < |chains[i]| :: chains[i][j] != chains[i][k]
    ensures forall b, j | i < b < |chains| && 0 <= j < |chains[b]| :: chains[b][j] !in chains[i]
  {
    forall e | e in chains[i] ensures e !in Members(chains[..i]) {
      var j :| 0 <= j < |chains[i]| && chains[i][j] == e;
      forall b, k | 0 <= b < i && 0 <= k < |chains[b]| ensures chains[..i][b][k] != e {
        assert chains[b][k] != chains[i][j];
      }
    }
  }

  ghost function NoChains<V>(n: nat): seq<seq<Entry<V>>> {
    seq(n, _ => [])
  }

  lemma {:induction false} NoChainsEmpty<V>(n: nat)
    ensures Members(NoChains<V>(n)) == {} && Total(NoChains<V>(n)) == 0
  {
    if n > 0 {
      NoChainsEmpty<V>(n - 1);
      assert NoChains<V>(n)[1..] == NoChains<V>(n - 1);
    }
  }

  method NewTable<V>(n: nat) returns (table: array<Entry?<V>>)
    ensures fresh(table) && table.Length == n && Buckets(table, NoChains<V>(n))
    ensures Members(NoChains<V>(n)) == {} && Total(NoChains<V>(n)) == 0
  {
    NoChainsEmpty<V>(n);
    table := new Entry?<V>[n](_ => null);
  }

  // ----------------------------------------------------------------- the dictionary

  const INITIAL_SIZE: nat := 4

  class Dict<V> {
    var table: array<Entry?<V>>
    var size: nat
    var sizemask: nat
    var used: nat
    ghost var chains: seq<seq<Entry<V>>>
    ghost var model: map<bytes, V>

    ghost predicate Shape()
      reads this, table, Members(chains)
    {
      && Buckets(table, chains) && size == table.Length
      && (size == 0 || (IsPower(size) && size >= INITIAL_SIZE && sizemask == size - 1))
      && Stores(Members(chains), model)
    }

    ghost predicate Valid()
      reads this, table, Members(chains)
    {
      Shape() && used == Total(chains) == |model| && used <= size
    }

    constructor ()
      ensures Valid() && model == map[] && size == 0 && fresh(table) && Members(chains) == {}
    {
      table := new Entry?<V>[0];
      size, sizemask, used := 0, 0, 0;
      chains, model := [], map[];
    }

    /** The bucket index of a key. */
    method Index(key: bytes) returns (h: nat)
      requires Shape() && size > 0
      ensures h == Slot(key, size)
    {
      var hash := HashKey(key);
      h := BitAnd(hash, sizemask);
    }

    /** A key that its bucket does not hold is nowhere. */
    lemma Absent(key: bytes, h: nat)
      requires Shape() && size > 0 && h == Slot(key, size)
      requires forall j | 0 <= j < |chains[h]| :: chains[h][j].key != key
      ensures key !in model
    {
      forall e | e in Members(chains) ensures e.key != key {
        var b, j :| 0 <= b < |chains| && 0 <= j < |chains[b]| && chains[b][j] == e;
        assert Slot(e.key, size) == b;
      }
    }

    /** The bucket walk that every operation starts with. */
    method Walk(key: bytes, h: nat) returns (prev: Entry?<V>, e: Entry?<V>, ghost i: nat)
      requires Shape() && size > 0 && h == Slot(key, size)
      ensures i <= |chains[h]|
      ensures e == null ==> key !in model
      ensures e != null ==> i < |chains[h]| && e == chains[h][i] && e.key == key && e in Members(chains)
      ensures e != null ==> prev == if i == 0 then null else chains[h][i - 1]
    {
      prev, e, i := WalkList(table[h], key, chains[h]);
      if e == null {
        Absent(key, h);
      }
    }

    /** dictFind. */
    method Find(key: bytes) returns (e: Entry?<V>)
      requires Valid()
      ensures e == null <==> key !in model
      ensures e != null ==> e in Members(chains) && e.key == key && e.val == model[key]
    {
      hide Slot, IsPower, Total, Stores, Injective, Placed, Linked;
      if size == 0 {
        EmptyModel();
        return null;
      }
      var h := Index(key);
      var prev;
      ghost var i;
      prev, e, i := Walk(key, h);
      if e != null {
        InModel(e);
      }
    }

    lemma EmptyModel()
      requires Valid() && size == 0
      ensures model == map[]
    {
    }

    /** _dictNextPower. */
    static method NextPower(n: nat) returns (r: nat)
      ensures IsPower(r) && r >= INITIAL_SIZE && r >= n && (r == INITIAL_SIZE || r / 2 < n)
    {
      r := INITIAL_SIZE;
      while r < n
        invariant IsPower(r) && r >= INITIAL_SIZE && (r == INITIAL_SIZE || r / 2 < n)
        decreases n - r
      {
        r := r * 2;
      }
    }

    /** What the moving loops keep: old buckets below i are in the new table, the others still
        linked, and `used` counts the entries to go. */
    ghost predicate Moving(i: nat, ntable: array<Entry?<V>>, nchains: seq<seq<Entry<V>>>)
      reads this, table, ntable, Members(chains), Members(nchains)
    {
      && i <= size == |chains| == table.Length && Injective(chains)
      && used == Total(chains[i..]) && Total(nchains) + used == Total(chains)
      && Buckets(ntable, nchains) && Members(nchains) == Members(chains[..i])
      && forall b | i <= b < |chains| :: Linked(table[b], chains[b])
    }

    method MoveNext(i: nat, ntable: array<Entry?<V>>, mask: nat, ghost nchains: seq<seq<Entry<V>>>)
      returns (ghost nchains': seq<seq<Entry<V>>>)
      requires Moving(i, ntable, nchains) && i < size && ntable != table
      requires mask == ntable.Length - 1 >= 0
      modifies this`used, ntable, Members(chains)`next
      ensures Moving(i + 1, ntable, nchains')
    {
      hide Slot, IsPower, Total, Placed, Buckets, Injective;
      MembersSplit(chains, i);
      MembersNext(chains, i);
      BucketApart(chains, i);
      var n;
      n, nchains' := MoveBucket(table[i], chains[i], ntable, mask, nchains);
      used := used - n;
      forall b | i < b < |chains| ensures Linked(table[b], chains[b]) {
        assert old(Linked(table[b], chains[b]));
      }
    }

    lemma MovingStart(ntable: array<Entry?<V>>, empty: seq<seq<Entry<V>>>)
      requires Valid() && Buckets(ntable, empty) && Members(empty) == {} && Total(empty) == 0
      ensures Moving(0, ntable, empty)
    {
      assert chains[..0] == [] && chains[0..] == chains;
    }

    /** The loops of dictExpand: every entry moves, so the assert on `used` holds. */
    method MoveAll(ntable: array<Entry?<V>>, mask: nat, ghost empty: seq<seq<Entry<V>>>)
      returns (ghost nchains: seq<seq<Entry<V>>>)
      requires Valid() && ntable != table
      requires Buckets(ntable, empty) && Members(empty) == {} && Total(empty) == 0
      requires mask == ntable.Length - 1 >= 0
      modifies this`used, ntable, Members(chains)`next
      ensures used == 0
      ensures Buckets(ntable, nchains) && Members(nchains) == Members(chains) && Total(nchains) == Total(chains)
    {
      hide Buckets, Linked, Injective, Members, Stores;
      nchains := empty;
      var i := 0;
      MovingStart(ntable, empty);
      while i < size && used > 0
        invariant Moving(i, ntable, nchains)
      {
        nchains := MoveNext(i, ntable, mask, nchains);
        i := i + 1;
      }
      MembersSplit(chains, i);
      assert i == size ==> chains[i..] == [];
      EmptyTotal(chains[i..]);
    }

    /** The new table takes the place of the old one. */
    method Install(ntable: array<Entry?<V>>, count: nat, ghost nchains: seq<seq<Entry<V>>>)
      requires Stores(Members(chains), model) && count == Total(chains) == |model|
      requires Buckets(ntable, nchains) && Members(nchains) == Members(chains) && Total(nchains) == Total(chains)
      requires IsPower(ntable.Length) && ntable.Length >= INITIAL_SIZE && count <= ntable.Length
      modifies this
      ensures Valid() && model == old(model) && Members(chains) == old(Members(chains)) && table == ntable
      ensures size == ntable.Length
    {
      hide Buckets, Stores, Total, Members;
      table, size, sizemask, used := ntable, ntable.Length, ntable.Length - 1, count;
      chains := nchains;
    }

    /** dictExpand. */
    method Expand(n: nat) returns (ok: bool)
      requires Valid()
      modifies this, Members(chains)`next
      ensures ok == (old(used) <= n)
      ensures Valid() && model == old(model) && Members(chains) == old(Members(chains))
      ensures ok ==> fresh(table) && size >= n && size >= INITIAL_SIZE && (size == INITIAL_SIZE || size / 2 < n)
      ensures !ok ==> table == old(table) && size == old(size)
    {
      hide Buckets, Total;
      var realsize := NextPower(n);
      if used > n { return false; }
      var ntable := NewTable<V>(realsize);
      var count := used;
      ghost var nchains := MoveAll(ntable, realsize - 1, NoChains<V>(realsize));
      assert used == 0;
      Install(ntable, count, nchains);
      return true;
    }

    lemma Sizes()
      requires Valid()
      ensures used == |model| && used <= size && (size == 0 || (IsPower(size) && size >= INITIAL_SIZE))
    {
      hide Buckets, Stores, Total, IsPower;
    }

    /** _dictExpandIfNeeded. */
    method ExpandIfNeeded() returns (ok: bool)
      requires Valid()
      modifies this, Members(chains)`next
      ensures ok && Valid() && model == old(model) && Members(chains) == old(Members(chains))
      ensures used < size == Grown(old(size), |model|) && (table == old(table) || fresh(table))
    {
      hide Valid, IsPower;
      ghost var before := size;
      Sizes();
      if size == 0 {
        ok := Expand(INITIAL_SIZE);
        FirstPower();
        Sizes();
        PowerBetween(size, INITIAL_SIZE);
      } else if used == size {
        ok := Expand(size * 2);
        TwicePower(before);
        Sizes();
        PowerBetween(size, before * 2);
      } else {
        return true;
      }
      Sizes();
    }

    /** _dictKeyIndex: the bucket for a new key, or -1 when the key exists. */
    method KeyIndex(key: bytes) returns (index: int)
      requires Valid()
      modifies this, Members(chains)`next
      ensures Valid() && model == old(model) && Members(chains) == old(Members(chains))
      ensures used < size == Grown(old(size), |model|) && (table == old(table) || fresh(table))
      ensures index == if key in model then -1 else Slot(key, size)
    {
      hide Slot, IsPower, Total, Placed, Injective, Linked, Stores;
      var ok := ExpandIfNeeded();
      if !ok { return -1; }
      var h := Index(key);
      var prev, e;
      ghost var i;
      prev, e, i := Walk(key, h);
      if e != null {
        InModel(e);
        return -1;
      }
      return h;
    }

    lemma InModel(e: Entry<V>)
      requires Shape() && e in Members(chains)
      ensures e.key in model && e.val == model[e.key]
    {
    }

    /** The chains were relinked inside the table: the model and the count follow. */
    method Adopt(ghost next: seq<seq<Entry<V>>>, ghost m: map<bytes, V>, count: nat)
      requires Buckets(table, next) && size == table.Length && Stores(Members(next), m)
      requires size == 0 || (IsPower(size) && size >= INITIAL_SIZE && sizemask == size - 1)
      requires count == Total(next) == |m| && count <= size
      modifies this`chains, this`model, this`used
      ensures Valid() && model == m && chains == next
    {
      hide Buckets, Stores, Total, Members, IsPower;
      chains, model, used := next, m, count;
    }

    /** The new entry is linked in at the head of its bucket. */
    method Link(key: bytes, val: V, h: nat)
      requires Valid() && key !in model && used < size && h == Slot(key, size)
      modifies this, table
      ensures Valid() && model == old(model)[key := val] && table == old(table) && size == old(size)
      ensures fresh(Members(chains) - old(Members(chains)))
    {
      hide Slot, IsPower, Total, Buckets, Stores;
      assert |chains| == size by { BucketCount(table, chains); }
      var e := new Entry(key, val, table[h]);
      StoresAdd(Members(chains), model, e);
      PushFront(table, h, e, chains);
      TotalPush(chains, h, [e] + chains[h]);
      assert |model[key := val]| == |model| + 1;
      Adopt(chains[h := [e] + chains[h]], model[key := val], used + 1);
    }

    /** dictAdd. */
    method Add(key: bytes, val: V) returns (ok: bool)
      requires Valid()
      modifies this, table, Members(chains)`next
      ensures Valid() && ok == (key !in old(model)) && size == Grown(old(size), |old(model)|)
      ensures model == if ok then old(model)[key := val] else old(model)
      ensures fresh(Members(chains) - old(Members(chains))) && (table == old(table) || fresh(table))
    {
      hide Buckets, Stores, Total;
      var index := KeyIndex(key);
      if index == -1 { return false; }
      Link(key, val, index);
      return true;
    }

    /** dictReplace: true when the key is new. */
    method Replace(key: bytes, val: V) returns (added: bool)
      requires Valid()
      modifies this, table, Members(chains)
      ensures Valid() && added == (key !in old(model)) && model == old(model)[key := val]
      ensures size == Grown(old(size), |old(model)|)
      ensures fresh(Members(chains) - old(Members(chains))) && (table == old(table) || fresh(table))
    {
      hide Buckets, Stores, Total;
      added := Add(key, val);
      if added { return true; }
      var entry := Find(key);
      SetVal(entry, val);
      return false;
    }

    method SetVal(entry: Entry<V>, val: V)
      requires Valid() && entry in Members(chains)
      modifies this`model, entry`val
      ensures Valid() && model == old(model)[entry.key := val]
    {
      hide Buckets, Total;
      InModel(entry);
      entry.val := val;
      ghost var before := model;
      model := model[entry.key := val];
      assert model.Keys == before.Keys && |model.Keys| == |before.Keys|;
    }

    /** dictDelete: the entry leaves its chain and nothing else moves. */
    method Delete(key: bytes) returns (ok: bool, ghost h: nat, ghost i: nat)
      requires Valid()
      modifies this, table, Members(chains)`next
      ensures Valid() && table == old(table) && size == old(size) && ok == (key in old(model))
      ensures model == old(model) - {key}
      ensures ok ==> h < |old(chains)| && i < |old(chains)[h]| && old(chains)[h][i].key == key
      ensures chains == if ok then Unlinked(old(chains), h, i) else old(chains)
    {
      hide Slot, IsPower, Total, Stores, Injective, Placed, Linked;
      h, i := 0, 0;
      if size == 0 {
        EmptyModel();
        return false, h, i;
      }
      var b := Index(key);
      var prev, e;
      prev, e, i := Walk(key, b);
      h := b;
      if e == null {
        return false, h, i;
      }
      InModel(e);
      Remove(b, prev, e, i);
      return true, h, i;
    }

    /** The entry that the walk found is unlinked and freed. */
    method Remove(h: nat, prev: Entry?<V>, e: Entry<V>, ghost i: nat)
      requires Valid() && h < |chains| && i < |chains[h]| && e == chains[h][i]
      requires prev == if i == 0 then null else chains[h][i - 1]
      modifies this`chains, this`model, this`used, table, Members(chains)`next
      ensures Valid() && model == old(model) - {e.key} && chains == Unlinked(old(chains), h, i)
    {
      hide Slot, IsPower, Total, Buckets, Stores, Unlinked;
      BucketCount(table, chains);
      assert e in Members(chains) && (prev != null ==> prev in Members(chains));
      StoresRemove(Members(chains), model, e);
      Unlink(table, h, prev, e, chains, i);
      Adopt(Unlinked(chains, h, i), model - {e.key}, used - 1);
    }

    /** Every entry sits in the bucket of its hash modulo the size. */
    lemma {:induction false} PlacedByHash(b: nat, i: nat)
      requires Valid() && b < |chains| && i < |chains[b]|
      ensures Hash(chains[b][i].key) % size == b
    {
      hide Hash, BitAnd, Linked, Injective, Stores, Total, IsPower, Members;
      MaskIsModulo(Hash(chains[b][i].key), size);
    }
  }

  // ------------------------------------------------------------- sequences of calls

  datatype Op<V> = AddOp(key: bytes, val: V) | ReplaceOp(key: bytes, val: V) | DeleteOp(key: bytes)

  function Apply<V>(m: map<bytes, V>, op: Op<V>): map<bytes, V> {
    match op
    case AddOp(k, v) => if k in m then m else m[k := v]
    case ReplaceOp(k, v) => m[k := v]
    case DeleteOp(k) => m - {k}
  }

  function ApplyAll<V>(m: map<bytes, V>, ops: seq<Op<V>>): map<bytes, V>
    decreases |ops|
  {
    if ops == [] then m else ApplyAll(Apply(m, ops[0]), ops[1..])
  }

  /** The size that a table of so many entries has after a key was looked for to be added. */
  function Grown(size: nat, used: nat): nat {
    if size == 0 then INITIAL_SIZE else if used == size then 2 * size else size
  }

  function SizeAfter<V>(m: map<bytes, V>, size: nat, ops: seq<Op<V>>): nat
    decreases |ops|
  {
    if ops == [] then size
    else SizeAfter(Apply(m, ops[0]), if ops[0].DeleteOp? then size else Grown(size, |m|), ops[1..])
  }

  /** The most entries at any time. */
  function Peak<V>(m: map<bytes, V>, ops: seq<Op<V>>): nat
    decreases |ops|
  {
    if ops == [] then |m|
    else var later := Peak(Apply(m, ops[0]), ops[1..]); if later < |m| then |m| else later
  }

  /** The table never has more than twice as many buckets as the most entries it held, or four. */
  lemma {:induction false} SizeBound<V>(m: map<bytes, V>, size: nat, ops: seq<Op<V>>)
    ensures SizeAfter(m, size, ops) >= size
    ensures var most := 2 * Peak(m, ops);
            SizeAfter(m, size, ops) <= if most <= 4 && size <= 4 then 4
                                       else if most <= size then size else most
    decreases |ops|
  {
    if ops != [] {
      SizeBound(Apply(m, ops[0]), if ops[0].DeleteOp? then size else Grown(size, |m|), ops[1..]);
    }
  }

  /** Any sequence of calls on a new table, with whatever growth it takes, does to the table what
      it does to a plain map. */
  method RunOps<V>(ops: seq<Op<V>>) returns (ht: Dict<V>)
    ensures fresh(ht) && ht.Valid() && ht.model == ApplyAll(map[], ops)
    ensures ht.size == SizeAfter(map[], 0, ops)
  {
    ht := new Dict<V>();
    hide ht.Valid, SizeAfter;
    var i := 0;
    assert ops[0..] == ops;
    while i < |ops|
      invariant 0 <= i <= |ops| && fresh(ht) && ht.Valid() && fresh(ht.table) && fresh(Members(ht.chains))
      invariant ApplyAll(ht.model, ops[i..]) == ApplyAll(map[], ops)
      invariant SizeAfter(ht.model, ht.size, ops[i..]) == SizeAfter(map[], 0, ops)
    {
      assert ops[i..][1..] == ops[i + 1..];
      SizeStep(ht.model, ht.size, ops[i..]);
      RunOp(ht, ops[i]);
      i := i + 1;
    }
    SizeStep(ht.model, ht.size, ops[i..]);
  }

  lemma SizeStep<V>(m: map<bytes, V>, size: nat, ops: seq<Op<V>>)
    ensures ops != [] ==>
            SizeAfter(m, size, ops) ==
            SizeAfter(Apply(m, ops[0]), if ops[0].DeleteOp? then size else Grown(size, |m|), ops[1..])
    ensures ops == [] ==> SizeAfter(m, size, ops) == size
  {
  }

  method RunOp<V>(ht: Dict<V>, op: Op<V>)
    requires ht.Valid()
    modifies ht, ht.table, Members(ht.chains)
    ensures ht.Valid() && ht.model == Apply(old(ht.model), op)
    ensures ht.size == if op.DeleteOp? then old(ht.size) else Grown(old(ht.size), |old(ht.model)|)
    ensures (ht.table == old(ht.table) || fresh(ht.table)) && fresh(Members(ht.chains) - old(Members(ht.chains)))
  {
    hide ht.Valid;
    match op {
      case AddOp(k, v) =>
        var _ := ht.Add(k, v);
      case ReplaceOp(k, v) =>
        var _ := ht.Replace(k, v);
      case DeleteOp(k) =>
        ghost var chains := ht.chains;
        var ok;
        ghost var h, i;
        ok, h, i := ht.Delete(k);
        if ok { UnlinkShrinks(chains, h, i); }
    }
  }

  lemma UnlinkShrinks<V>(chains: seq<seq<Entry<V>>>, h: nat, i: nat)
    requires h < |chains| && i < |chains[h]|
    ensures Members(Unlinked(chains, h, i)) <= Members(chains)
  {
    var chains' := Unlinked(chains, h, i);
    forall b, j | 0 <= b < |chains'| && 0 <= j < |chains'[b]| ensures chains'[b][j] in Members(chains) {
      assert chains'[b][j] == chains[b][if b == h && j >= i then j + 1 else j];
    }
  }

  /** The pointer change of dictDelete. */
  method Unlink<V>(table: array<Entry?<V>>, h: nat, prev: Entry?<V>, e: Entry<V>, ghost chains: seq<seq<Entry<V>>>,
                   ghost i: nat)
    requires Buckets(table, chains) && h < table.Length && i < |chains[h]| && e == chains[h][i]
    requires prev == if i == 0 then null else chains[h][i - 1]
    modifies table, (if prev == null then {} else {prev})`next
    ensures Buckets(table, Unlinked(chains, h, i))
    ensures Members(Unlinked(chains, h, i)) == Members(chains) - {e}
    ensures Total(Unlinked(chains, h, i)) == Total(chains) - 1
  {
    hide Slot, Members, Total;
    MembersUnlink(chains, h, i);
    var next := e.next;
    assert next == At(chains[h], i + 1);
    if prev != null {
      prev.next := next;
    } else {
      table[h] := next;
    }
    ghost var chains' := Unlinked(chains, h, i);
    forall b | 0 <= b < |chains| ensures Linked(table[b], chains'[b]) {
      assert old(Linked(table[b], chains[b]));
    }
  }
}
