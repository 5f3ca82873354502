/** Which test cases are death tests, and the order in which the runner visits them. */
module TestOrder {
  import opened Bytes

  // --------------------------------------------------------------- glob filters

  /** PatternMatchesString: the pattern ends at its end or at a colon. */
  predicate PatternMatches(pattern: bytes, str: bytes)
    decreases |pattern| + |str|
  {
    if pattern == [] || pattern[0] == COLON then str == []
    else if pattern[0] == 63 then str != [] && PatternMatches(pattern[1..], str[1..])
    else if pattern[0] == STAR then
      (str != [] && PatternMatches(pattern, str[1..])) || PatternMatches(pattern[1..], str)
    else str != [] && pattern[0] == str[0] && PatternMatches(pattern[1..], str[1..])
  }

  function AfterColon(filter: bytes): Option<bytes> {
    if filter == [] then None
    else if filter[0] == COLON then Some(filter[1..])
    else AfterColon(filter[1..])
  }

  lemma AfterColonShorter(filter: bytes)
    ensures AfterColon(filter).Some? ==> |AfterColon(filter).value| < |filter|
  {
  }

  /** Some pattern of the colon-separated list matches. */
  predicate FilterMatches(name: bytes, filter: bytes)
    decreases |filter|
  {
    AfterColonShorter(filter);
    PatternMatches(filter, name) ||
    match AfterColon(filter)
    case Some(next) => FilterMatches(name, next)
    case None => false
  }

  /** MatchesFilter. */
  method MatchesFilter(name: bytes, filter: bytes) returns (r: bool)
    ensures r == FilterMatches(name, filter)
  {
    var pattern := filter;
    while true
      invariant FilterMatches(name, pattern) == FilterMatches(name, filter)
      decreases |pattern|
    {
      if PatternMatches(pattern, name) { return true; }
      var next := AfterColon(pattern);
      AfterColonShorter(pattern);
      if next.None? { return false; }
      pattern := next.value;
    }
  }

  const SLASH: byte := 47

  // "DeathTest"
  const DEATH_TEST: bytes := [68, 101, 97, 116, 104, 84, 101, 115, 116]

  // The two patterns *DeathTest and *DeathTest followed by a slash and a star.
  const DEATH_FILTER: bytes := [STAR] + DEATH_TEST + [COLON, STAR] + DEATH_TEST + [SLASH, STAR]

  predicate PlainText(s: bytes) {
    forall i | 0 <= i < |s| :: s[i] != COLON && s[i] != STAR && s[i] != 63
  }

  /** Plain characters of a pattern match themselves. */
  lemma {:induction false} PlainMatches(lit: bytes, rest: bytes, str: bytes)
    requires PlainText(lit)
    ensures PatternMatches(lit + rest, str) <==> lit <= str && PatternMatches(rest, str[|lit|..])
  {
    if lit == [] {
      assert lit + rest == rest && str[0..] == str;
    } else {
      assert (lit + rest)[1..] == lit[1..] + rest;
      if str != [] && str[0] == lit[0] {
        PlainMatches(lit[1..], rest, str[1..]);
        assert lit <= str <==> lit[1..] <= str[1..];
        assert lit <= str ==> str[1..][|lit| - 1..] == str[|lit|..];
      }
    }
  }

  /** A leading star skips nothing, or one character and then any number. */
  lemma StarStep(pattern: bytes, str: bytes)
    ensures PatternMatches([STAR] + pattern, str) <==>
            PatternMatches(pattern, str) || (str != [] && PatternMatches([STAR] + pattern, str[1..]))
  {
    assert ([STAR] + pattern)[1..] == pattern;
  }

  /** A leading star skips any number of characters. */
  lemma {:induction false} StarMatches(pattern: bytes, str: bytes)
    ensures PatternMatches([STAR] + pattern, str) <==> exists i | 0 <= i <= |str| :: PatternMatches(pattern, str[i..])
    decreases |str|
  {
    hide PatternMatches;
    StarStep(pattern, str);
    assert str[0..] == str;
    if str != [] {
      var rest := str[1..];
      StarMatches(pattern, rest);
      if i :| 0 <= i <= |str| && PatternMatches(pattern, str[i..]) {
        if i > 0 { assert rest[i - 1..] == str[i..]; }
      }
      if i :| 0 <= i <= |rest| && PatternMatches(pattern, rest[i..]) {
        assert rest[i..] == str[i + 1..];
      }
    }
  }

  /** A question mark stands for any single character. */
  lemma QuestionMatches(pattern: bytes, str: bytes)
    ensures PatternMatches([63] + pattern, str) <==> str != [] && PatternMatches(pattern, str[1..])
  {
    assert ([63] + pattern)[1..] == pattern;
  }

  /** Patterns with colons between them. */
  function Filter(patterns: seq<bytes>): bytes {
    if patterns == [] then []
    else if |patterns| == 1 then patterns[0]
    else patterns[0] + ([COLON] + Filter(patterns[1..]))
  }

  /** A pattern ends at its colon. */
  lemma {:induction false} PatternCut(pattern: bytes, more: bytes, str: bytes)
    requires COLON !in pattern
    ensures PatternMatches(pattern + ([COLON] + more), str) <==> PatternMatches(pattern, str)
    decreases |pattern|, |str|
  {
    var p := pattern + ([COLON] + more);
    if pattern == [] {
      assert p[0] == COLON;
    } else {
      assert p[0] == pattern[0] && p[1..] == pattern[1..] + ([COLON] + more);
      assert pattern[0] in pattern && forall x | x in pattern[1..] :: x in pattern;
      if pattern[0] == STAR && str != [] { PatternCut(pattern, more, str[1..]); }
      PatternCut(pattern[1..], more, str);
      if str != [] { PatternCut(pattern[1..], more, str[1..]); }
    }
  }

  /** A filter matches exactly the names that one of its patterns matches. */
  lemma {:induction false} FilterIsAny(name: bytes, patterns: seq<bytes>)
    requires patterns != [] && forall i | 0 <= i < |patterns| :: COLON !in patterns[i]
    ensures FilterMatches(name, Filter(patterns)) <==>
            exists i :: 0 <= i < |patterns| && PatternMatches(patterns[i], name)
    decreases |patterns|
  {
    hide PatternMatches;
    var filter := Filter(patterns);
    if |patterns| == 1 {
      AfterPlain(filter, []);
      assert filter + [] == filter;
    } else {
      var rest := patterns[1..];
      PatternCut(patterns[0], Filter(rest), name);
      AfterPlain(patterns[0], [COLON] + Filter(rest));
      assert ([COLON] + Filter(rest))[1..] == Filter(rest);
      FilterIsAny(name, rest);
      assert forall i | 1 <= i < |patterns| :: patterns[i] == rest[i - 1];
    }
  }

  /** The last two patterns that matter: the end of the pattern, and a final star. */
  lemma {:induction false} FinalStar(str: bytes)
    ensures PatternMatches([STAR], str)
  {
    assert [STAR][1..] == [];
    if str != [] {
      FinalStar(str[1..]);
    }
  }

  predicate OccursAt(lit: bytes, s: bytes, i: nat) {
    i + |lit| <= |s| && s[i..i + |lit|] == lit
  }

  predicate IsDeathTest(name: bytes) {
    FilterMatches(name, DEATH_FILTER)
  }

  lemma PrefixOccurs(lit: bytes, s: bytes, i: nat)
    requires i <= |s|
    ensures lit <= s[i..] <==> OccursAt(lit, s, i)
  {
    if i + |lit| <= |s| {
      assert s[i..][..|lit|] == s[i..i + |lit|];
    }
  }

  lemma PatternEnd(tail: bytes, str: bytes)
    requires tail == [] || tail[0] == COLON
    ensures PatternMatches(tail, str) <==> str == []
  {
  }

  lemma SuffixAt(name: bytes, tail: bytes, i: nat)
    requires i <= |name| && (tail == [] || tail[0] == COLON)
    ensures PatternMatches(DEATH_TEST + tail, name[i..]) <==>
            OccursAt(DEATH_TEST, name, i) && i + |DEATH_TEST| == |name|
  {
    hide PatternMatches, OccursAt;
    PlainMatches(DEATH_TEST, tail, name[i..]);
    if DEATH_TEST <= name[i..] { PatternEnd(tail, name[i..][|DEATH_TEST|..]); }
    PrefixOccurs(DEATH_TEST, name, i);
  }

  lemma SuffixPattern(name: bytes, tail: bytes)
    requires tail == [] || tail[0] == COLON
    ensures PatternMatches([STAR] + (DEATH_TEST + tail), name) <==>
            |name| >= |DEATH_TEST| && OccursAt(DEATH_TEST, name, |name| - |DEATH_TEST|)
  {
    hide PatternMatches, OccursAt;
    var pattern := DEATH_TEST + tail;
    StarMatches(pattern, name);
    forall i | 0 <= i <= |name|
      ensures PatternMatches(pattern, name[i..]) <==> OccursAt(DEATH_TEST, name, i) && i + |DEATH_TEST| == |name|
    {
      SuffixAt(name, tail, i);
    }
    if |name| >= |DEATH_TEST| {
      var k := |name| - |DEATH_TEST|;
      assert PatternMatches(pattern, name[k..]) <==> OccursAt(DEATH_TEST, name, k);
    }
  }

  lemma InfixPattern(name: bytes)
    ensures PatternMatches([STAR] + (DEATH_TEST + [SLASH] + [STAR]), name) <==>
            exists i: nat :: OccursAt(DEATH_TEST + [SLASH], name, i)
  {
    hide PatternMatches;
    var lit := DEATH_TEST + [SLASH];
    StarMatches(lit + [STAR], name);
    forall i | 0 <= i <= |name| ensures PatternMatches(lit + [STAR], name[i..]) <==> OccursAt(lit, name, i) {
      PlainMatches(lit, [STAR], name[i..]);
      if lit <= name[i..] { FinalStar(name[i..][|lit|..]); }
      PrefixOccurs(lit, name, i);
    }
  }

  lemma {:induction false} AfterPlain(lit: bytes, rest: bytes)
    requires COLON !in lit
    ensures AfterColon(lit + rest) == AfterColon(rest)
  {
    if lit == [] {
      assert lit + rest == rest;
    } else {
      assert lit[0] in lit && forall x | x in lit[1..] :: x in lit;
      assert (lit + rest)[1..] == lit[1..] + rest;
      AfterPlain(lit[1..], rest);
    }
  }

  /** The death-test filter singles out the names that end in DeathTest or hold DeathTest/. */
  lemma DeathTestMeaning(name: bytes)
    ensures IsDeathTest(name) <==>
            || (|name| >= |DEATH_TEST| && OccursAt(DEATH_TEST, name, |name| - |DEATH_TEST|))
            || exists i: nat :: OccursAt(DEATH_TEST + [SLASH], name, i)
  {
    var second := [STAR] + (DEATH_TEST + [SLASH] + [STAR]);
    var first := [STAR] + (DEATH_TEST + ([COLON] + second));
    assert DEATH_FILTER == first;
    SuffixPattern(name, [COLON] + second);
    InfixPattern(name);
    assert first == ([STAR] + DEATH_TEST) + ([COLON] + second);
    AfterPlain([STAR] + DEATH_TEST, [COLON] + second);
    assert ([COLON] + second)[1..] == second;
    AfterPlain(second, []);
    assert second + [] == second;
    assert AfterColon(first) == Some(second) && AfterColon(second) == None;
    assert FilterMatches(name, second) <==> PatternMatches(second, name);
  }

  // -------------------------------------------------------------------- shuffling

  const MAX_RANGE: nat := 0x8000_0000

  /** The linear congruential step, on 32-bit unsigned integers. */
  function NextState(state: nat): (next: nat)
    ensures next < MAX_RANGE
  {
    ((1103515245 * state + 12345) % 0x1_0000_0000) % MAX_RANGE
  }

  // The inverse of the multiplier modulo 2^31: their product is 1 + MAX_RANGE * INVERSE_QUOTIENT.
  const MULTIPLIER: nat := 1103515245
  const INVERSE: nat := 1857678181
  const INVERSE_QUOTIENT: nat := 954594553

  lemma DivideOut(d: int, k: int)
    requires MULTIPLIER * d == MAX_RANGE * k
    ensures d == MAX_RANGE * (INVERSE * k - INVERSE_QUOTIENT * d)
  {
    assert INVERSE * (MULTIPLIER * d) == INVERSE * (MAX_RANGE * k);
    assert INVERSE * MULTIPLIER == 1 + MAX_RANGE * INVERSE_QUOTIENT;
  }

  lemma LowBits(x: nat)
    ensures x % 0x1_0000_0000 % MAX_RANGE == x % MAX_RANGE
  {
  }

  lemma SameRest(x: nat, y: nat)
    requires x % MAX_RANGE == y % MAX_RANGE
    ensures x - y == MAX_RANGE * (x / MAX_RANGE - y / MAX_RANGE)
  {
  }

  lemma NextStateIs(s: nat)
    ensures NextState(s) == (MULTIPLIER * s + 12345) % MAX_RANGE
  {
    LowBits(MULTIPLIER * s + 12345);
  }

  /** The generator never runs two sequences together: its step takes different states to different
      states. */
  lemma NextStateInjective(s: nat, t: nat)
    requires s < MAX_RANGE && t < MAX_RANGE && NextState(s) == NextState(t)
    ensures s == t
  {
    hide NextState;
    var x, y := MULTIPLIER * s + 12345, MULTIPLIER * t + 12345;
    NextStateIs(s);
    NextStateIs(t);
    SameRest(x, y);
    var d: int, k := s - t, x / MAX_RANGE - y / MAX_RANGE;
    assert MULTIPLIER * d == x - y;
    DivideOut(d, k);
    SmallMultiple(MAX_RANGE, INVERSE * k - INVERSE_QUOTIENT * d);
  }

  class Random {
    var state: nat

    constructor (seed: nat)
      ensures state == seed
    {
      state := seed;
    }

    /** Random::Generate. */
    method Generate(range: nat) returns (r: nat)
      requires 0 < range <= MAX_RANGE
      modifies this
      ensures state == NextState(old(state)) && r == state % range && r < range
    {
      state := ((1103515245 * state + 12345) % 0x1_0000_0000) % MAX_RANGE;
      r := state % range;
    }
  }

  function Swap<T>(s: seq<T>, i: nat, j: nat): seq<T>
    requires i < |s| && j < |s|
  {
    s[i := s[j]][j := s[i]]
  }

  lemma SwapKeeps<T>(s: seq<T>, i: nat, j: nat)
    requires i < |s| && j < |s|
    ensures multiset(Swap(s, i, j)) == multiset(s)
  {
  }

  lemma SwapInside<T>(v: seq<T>, begin: nat, end: nat, i: nat, j: nat)
    requires begin <= i < end && begin <= j < end <= |v|
    ensures Swap(v, i, j) == v[..begin] + Swap(v[begin..end], i - begin, j - begin) + v[end..]
  {
  }

  /** The range holds the same elements in some order, and nothing else moved. */
  predicate Reordered<T(==)>(v: seq<T>, w: seq<T>, begin: nat, end: nat)
    requires begin <= end <= |v|
  {
    && |w| == |v| && w[..begin] == v[..begin] && w[end..] == v[end..]
    && multiset(w[begin..end]) == multiset(v[begin..end])
  }

  lemma ReorderedSelf<T>(v: seq<T>, begin: nat, end: nat)
    requires begin <= end <= |v|
    ensures Reordered(v, v, begin, end)
  {
  }

  lemma SameLength<T>(v: seq<T>, w: seq<T>, begin: nat, end: nat)
    requires begin <= end <= |v| && Reordered(v, w, begin, end)
    ensures |w| == |v|
  {
  }

  lemma BothReordered<T>(a: seq<T>, b: seq<T>, c: seq<T>, d: nat)
    requires d <= |a| == |b| && Reordered(a, b, 0, d) && Reordered(b, c, d, |b|)
    ensures |c| == |a| && multiset(c[..d]) == multiset(a[..d]) && multiset(c[d..]) == multiset(a[d..])
  {
    assert a[0..d] == a[..d] && b[0..d] == b[..d] && b[d..|b|] == b[d..] && c[d..|b|] == c[d..];
  }

  lemma ReorderedSwap<T>(v: seq<T>, w: seq<T>, begin: nat, end: nat, i: nat, j: nat)
    requires begin <= i < end <= |v| && begin <= j < end && Reordered(v, w, begin, end)
    ensures |Swap(w, i, j)| == |v| && Reordered(v, Swap(w, i, j), begin, end)
  {
    SwapInside(w, begin, end, i, j);
    SwapKeeps(w[begin..end], i - begin, j - begin);
  }

  /** The Fisher-Yates shuffle of `width` elements from `begin` on, with the generator's state. */
  function Shuffled<T>(v: seq<T>, begin: nat, width: nat, state: nat): (seq<T>, nat)
    requires begin + width <= |v|
    decreases width
  {
    if width < 2 then (v, state)
    else
      var next := NextState(state);
      Shuffled(Swap(v, begin + next % width, begin + width - 1), begin, width - 1, next)
  }

  /** ShuffleRange: whatever the generator says, the range is only reordered. */
  method ShuffleRange(random: Random, begin: nat, end: nat, v: seq<int>) returns (w: seq<int>)
    requires begin <= end <= |v| <= MAX_RANGE
    modifies random
    ensures (w, random.state) == Shuffled(v, begin, end - begin, old(random.state))
    ensures Reordered(v, w, begin, end)
  {
    hide NextState, Swap, Reordered;
    w := v;
    var width: nat := end - begin;
    ReorderedSelf(v, begin, end);
    while width >= 2
      invariant width <= end - begin && |w| == |v| && Reordered(v, w, begin, end)
      invariant Shuffled(w, begin, width, random.state) == Shuffled(v, begin, end - begin, old(random.state))
    {
      var last := begin + width - 1;
      var offset := random.Generate(width);
      var selected := begin + offset;
      ReorderedSwap(v, w, begin, end, selected, last);
      w := Swap(w, selected, last);
      width := width - 1;
    }
  }

  /** Every vector shuffled whole, one after the other. */
  function ShuffledEach<T>(vs: seq<seq<T>>, state: nat): (seq<seq<T>>, nat) {
    if vs == [] then ([], state)
    else
      var (v, next) := Shuffled(vs[0], 0, |vs[0]|, state);
      var (rest, last) := ShuffledEach(vs[1..], next);
      ([v] + rest, last)
  }

  // ------------------------------------------------------------------- test cases

  function Identity(from: nat, to: nat): seq<int>
    requires from <= to
  {
    seq(to - from, i => from + i)
  }

  /** Each vector is an order of the tests of its case. */
  ghost predicate Orders(orders: seq<seq<int>>, tests: seq<seq<bytes>>) {
    && |orders| == |tests|
    && forall i | 0 <= i < |orders| :: |tests[i]| <= MAX_RANGE && Order(orders[i], |tests[i]|)
  }

  ghost predicate Order(order: seq<int>, n: nat) {
    |order| == n && multiset(order) == multiset(Identity(0, n))
  }

  /** UnitTestImpl: the test cases by name, the tests of each, the visiting order of the cases and of
      the tests inside each, and where the death tests end. */
  class UnitTest {
    var cases: seq<bytes>
    var tests: seq<seq<bytes>>
    var indices: seq<int>
    var orders: seq<seq<int>>
    var lastDeath: int

    /** Names are unique and exactly the first ones are death tests; the death tests and the
        others are each visited in some order, death tests first. */
    ghost predicate Valid()
      reads this
    {
      && -1 <= lastDeath < |cases| == |indices| <= MAX_RANGE
      && Sorted(cases, lastDeath + 1)
      && multiset(indices[..lastDeath + 1]) == multiset(Identity(0, lastDeath + 1))
      && multiset(indices[lastDeath + 1..]) == multiset(Identity(lastDeath + 1, |cases|))
      && |tests| == |cases| && Orders(orders, tests)
    }

    /** The order of registration, before any shuffle. */
    ghost predicate Unshuffled()
      reads this
    {
      && |cases| == |indices| && indices == Identity(0, |cases|)
      && |orders| == |tests| && forall i | 0 <= i < |orders| :: orders[i] == Identity(0, |tests[i]|)
    }

    constructor ()
      ensures Valid() && Unshuffled() && cases == [] && tests == [] && lastDeath == -1
    {
      hide IsDeathTest;
      cases, tests, indices, orders, lastDeath := [], [], [], [], -1;
      new;
      assert Identity(0, 0) == [] && indices[..0] == [] && indices[0..] == [];
    }

    /** GetTestCase. Its caller must not call it on shuffled tests. */
    method GetTestCase(name: bytes) returns (at: nat)
      requires Valid() && Unshuffled() && |cases| < MAX_RANGE
      modifies this
      ensures Valid() && Unshuffled() && at < |cases| && cases[at] == name
      ensures name in old(cases) ==> cases == old(cases) && tests == old(tests) && lastDeath == old(lastDeath)
      ensures name !in old(cases) ==>
                && at == (if IsDeathTest(name) then old(lastDeath) + 1 else |old(cases)|)
                && cases == Inserted(old(cases), at, name) && tests == Inserted(old(tests), at, [])
                && lastDeath == if IsDeathTest(name) then old(lastDeath) + 1 else old(lastDeath)
    {
      hide Sorted, FilterMatches, Orders;
      at := 0;
      while at < |cases|
        invariant 0 <= at <= |cases| && name !in cases[..at]
      {
        if cases[at] == name { return; }
        at := at + 1;
      }
      var death := MatchesFilter(name, DEATH_FILTER);
      at := Insert(name, death);
    }

    /** A new test case goes behind the last death test, or to the end. */
    method Insert(name: bytes, death: bool) returns (at: nat)
      requires Valid() && Unshuffled() && |cases| < MAX_RANGE && name !in cases && death == IsDeathTest(name)
      modifies this
      ensures Valid() && Unshuffled() && at < |cases| && cases[at] == name
      ensures at == if death then old(lastDeath) + 1 else |old(cases)|
      ensures cases == Inserted(old(cases), at, name) && tests == Inserted(old(tests), at, [])
      ensures lastDeath == if death then old(lastDeath) + 1 else old(lastDeath)
    {
      hide IsDeathTest, Sorted, Orders, Inserted;
      ghost var d := lastDeath + 1;
      OrdersLength(orders, tests);
      if death {
        lastDeath := lastDeath + 1;
        at := lastDeath;
      } else {
        at := |cases|;
      }
      InsertKeeps(cases, at, name, d);
      InsertOrders(orders, tests, at);
      InsertedAt(cases, at, name);
      InsertedAt(tests, at, []);
      cases, tests, orders := Inserted(cases, at, name), Inserted(tests, at, []), Inserted(orders, at, []);
      indices := indices + [|indices|];
      IdentitySplit(indices, lastDeath + 1, |cases|);
    }

    lemma CasesSorted()
      requires Valid()
      ensures Sorted(cases, lastDeath + 1) && 0 <= lastDeath + 1 <= |cases| == |tests| == |orders|
    {
      hide Sorted, Orders, Identity;
      OrdersLength(orders, tests);
    }

    /** AddTestInfo: a test is registered under its case. */
    method AddTest(name: bytes, test: bytes)
      requires Valid() && Unshuffled() && |cases| < MAX_RANGE
      requires forall i | 0 <= i < |tests| :: |tests[i]| < MAX_RANGE
      modifies this
      ensures Valid() && Unshuffled() && name in cases
      ensures forall n :: n in cases <==> n in old(cases) || n == name
      ensures |cases| <= |old(cases)| + 1
      ensures (cases, lastDeath + 1) == WithCase(old(cases), old(lastDeath) + 1, name)
      ensures forall i | 0 <= i < |cases| ::
                tests[i] == TestsOf(old(cases), old(tests), cases[i]) + if cases[i] == name then [test] else []
    {
      hide IsDeathTest, Sorted, Orders, Identity, Inserted, TestsOf, WithCase, Valid, Unshuffled;
      CasesSorted();
      ghost var before, had, d := cases, tests, lastDeath + 1;
      var at := GetTestCase(name);
      CasesSorted();
      if name !in before {
        InsertedAt(before, at, name);
        InsertedAt(had, at, []);
      }
      WithCaseIs(before, d, name);
      FoundTests(before, had, d, cases, tests, at, name);
      FewTestsKept(had, tests, at);
      OneTestMore(before, had, cases, tests, at, test, lastDeath + 1);
      Append(at, test);
    }

    /** The test goes behind the others of its case. */
    method Append(at: nat, test: bytes)
      requires Valid() && Unshuffled() && at < |cases| && |tests[at]| < MAX_RANGE
      modifies this`tests, this`orders
      ensures Valid() && Unshuffled() && tests == old(tests)[at := old(tests)[at] + [test]]
    {
      hide IsDeathTest, Sorted, Orders, Identity;
      OrdersLength(orders, tests);
      OrderGrows(orders, tests, at, test);
      tests := tests[at := tests[at] + [test]];
      orders := orders[at := orders[at] + [|orders[at]|]];
    }

    /** ShuffleTests. */
    method ShuffleTests(random: Random)
      requires Valid()
      modifies this`indices, this`orders, random
      ensures Valid()
      ensures var d := lastDeath + 1;
              var (deaths, s1) := Shuffled(old(indices), 0, d, old(random.state));
              && |deaths| == |cases|
              && var (all, s2) := Shuffled(deaths, d, |cases| - d, s1);
                 indices == all && (orders, random.state) == ShuffledEach(old(orders), s2)
    {
      hide Shuffled, ShuffledEach, Reordered, Sorted, Identity, Orders;
      var d := lastDeath + 1;
      ghost var before := indices;
      indices := ShuffleRange(random, 0, d, indices);
      ghost var middle := indices;
      SameLength(before, middle, 0, d);
      indices := ShuffleRange(random, d, |cases|, indices);
      BothReordered(before, middle, indices, d);
      ShuffleEach(random);
    }

    /** The loop that shuffles the tests inside each case. */
    method ShuffleEach(random: Random)
      requires Orders(orders, tests)
      modifies this`orders, random
      ensures Orders(orders, tests)
      ensures (orders, random.state) == ShuffledEach(old(orders), old(random.state))
    {
      hide Shuffled, Reordered, Orders, EachDone;
      var i := 0;
      EachStart(orders, random.state);
      OrdersLength(orders, tests);
      while i < |orders|
        invariant 0 <= i <= |orders| && Orders(orders, tests) && |orders| == |tests|
        invariant EachDone(old(orders), orders, i, old(random.state), random.state)
      {
        ghost var state := random.state;
        OrdersLength(orders, tests);
        var order := ShuffleRange(random, 0, |orders[i]|, orders[i]);
        WholeOrder(orders, tests, i, order);
        EachStep(old(orders), orders, i, order, old(random.state), state, random.state);
        orders := orders[i := order];
        i := i + 1;
      }
      EachEnd(old(orders), orders, old(random.state), random.state);
    }

    /** UnshuffleTests restores the order of registration. */
    method UnshuffleTests()
      requires Valid()
      modifies this`indices, this`orders
      ensures Valid() && Unshuffled()
    {
      hide Sorted, Orders, Identity, Restored;
      RestoredNone(orders, tests);
      PutAllBack();
      IdentitySplit(indices, lastDeath + 1, |cases|);
      RestoredAll(orders, tests, old(orders));
    }

    /** The loop over the cases. */
    method PutAllBack()
      requires |cases| == |indices| == |orders| && Restored(orders, tests, 0)
      modifies this`indices, this`orders
      ensures |orders| == |cases| && Restored(orders, tests, |orders|)
      ensures |indices| == |cases| && forall j | 0 <= j < |indices| :: indices[j] == j
    {
      hide Identity, Restored;
      var i := 0;
      while i < |cases|
        invariant 0 <= i <= |cases| == |indices| == |orders| && Restored(orders, tests, i)
        invariant forall j | 0 <= j < i :: indices[j] == j
      {
        var order := PutBack(orders[i]);
        RestoredOne(orders, tests, i, order);
        orders := orders[i := order];
        indices := indices[i := i];
        i := i + 1;
      }
    }

    /** The cases in the order in which the run loop visits them, and the tests that run in each. */
    method RunOrder() returns (visited: seq<bytes>, runs: seq<seq<bytes>>)
      requires Valid()
      ensures visited == Picked(cases, indices)
      ensures |runs| == |indices| && forall k | 0 <= k < |runs| ::
                0 <= indices[k] < |cases| && runs[k] == Picked(tests[indices[k]], orders[indices[k]])
      ensures IsRunOrder(visited, cases, lastDeath + 1) && RunsOf(runs, visited, cases, tests)
    {
      hide IsDeathTest, Identity, IsRunOrder, RunsOf, Sorted, Orders;
      InRange(indices, lastDeath + 1, |cases|);
      OrdersLength(orders, tests);
      visited, runs := RunCases();
      assert indices[..|cases|] == indices;
      PickedSelect(cases, indices);
      Visited(cases, indices, lastDeath + 1);
    }

    /** The run loop. */
    method RunCases() returns (visited: seq<bytes>, runs: seq<seq<bytes>>)
      requires |indices| == |cases| == |tests| && Orders(orders, tests) && lastDeath >= -1
               && Sorted(cases, lastDeath + 1)
      requires forall j | 0 <= j < |indices| :: 0 <= indices[j] < |cases|
      ensures visited == Select(cases, indices) && RunsOf(runs, visited, cases, tests)
      ensures |runs| == |indices| == |orders|
      ensures forall k | 0 <= k < |runs| :: runs[k] == Picked(tests[indices[k]], orders[indices[k]])
    {
      hide IsDeathTest, RunsOf, Sorted, Orders, Picked;
      OrdersLength(orders, tests);
      visited, runs := [], [];
      NoRuns(cases, tests);
      while |visited| < |cases|
        invariant |visited| <= |cases| && visited == Select(cases, indices[..|visited|])
        invariant RunsOf(runs, visited, cases, tests) && |runs| == |visited|
        invariant forall k | 0 <= k < |runs| :: runs[k] == Picked(tests[indices[k]], orders[indices[k]])
      {
        var i := |visited|;
        assert indices[..i + 1] == indices[..i] + [indices[i]];
        assert forall j | 0 <= j < i + 1 :: indices[..i + 1][j] == indices[j];
        var run := RunCase(indices[i]);
        RunsPush(runs, visited, cases, tests, indices[i], run, lastDeath + 1);
        visited, runs := visited + [cases[indices[i]]], runs + [run];
      }
      assert indices[..|cases|] == indices;
    }

    /** The tests of one case in the order in which its run loop takes them. */
    method RunCase(i: nat) returns (run: seq<bytes>)
      requires i < |tests| && Orders(orders, tests)
      ensures |orders| == |tests| && run == Picked(tests[i], orders[i]) && multiset(run) == multiset(tests[i])
    {
      OrdersLength(orders, tests);
      var order := orders[i];
      OrderRange(order, |tests[i]|);
      run := [];
      while |run| < |tests[i]|
        invariant |run| <= |tests[i]| && run == Select(tests[i], order[..|run|])
      {
        var j := |run|;
        assert order[..j + 1] == order[..j] + [order[j]];
        run := run + [tests[i][order[j]]];
      }
      assert order[..|order|] == order;
      PickedSelect(tests[i], order);
      OrderSelects(tests[i], order);
    }
  }

  /** The elements at these positions. */
  function Picked(elements: seq<bytes>, order: seq<int>): seq<bytes> {
    seq(|order|, k requires 0 <= k < |order| => if 0 <= order[k] < |elements| then elements[order[k]] else [])
  }

  lemma PickedSelect(elements: seq<bytes>, order: seq<int>)
    requires forall i | 0 <= i < |order| :: 0 <= order[i] < |elements|
    ensures Picked(elements, order) == Select(elements, order)
  {
  }

  lemma PickedAll(elements: seq<bytes>)
    ensures Picked(elements, Identity(0, |elements|)) == elements
  {
  }

  /** In each visited case exactly its tests run. */
  ghost predicate RunsOf(runs: seq<seq<bytes>>, visited: seq<bytes>, cases: seq<bytes>, tests: seq<seq<bytes>>)
    requires |tests| == |cases|
  {
    && |runs| == |visited|
    && forall k | 0 <= k < |runs| :: multiset(runs[k]) == multiset(TestsOf(cases, tests, visited[k]))
  }

  lemma NoRuns(cases: seq<bytes>, tests: seq<seq<bytes>>)
    requires |tests| == |cases|
    ensures RunsOf([], [], cases, tests)
  {
  }

  lemma RunsPush(runs: seq<seq<bytes>>, visited: seq<bytes>, cases: seq<bytes>, tests: seq<seq<bytes>>, i: nat,
                 run: seq<bytes>, d: nat)
    requires |tests| == |cases| && i < |cases| && Sorted(cases, d)
    requires RunsOf(runs, visited, cases, tests) && multiset(run) == multiset(tests[i])
    ensures RunsOf(runs + [run], visited + [cases[i]], cases, tests)
  {
    hide TestsOf, IsDeathTest, Sorted;
    CaseAt(cases, tests, i, d);
  }

  method PutBack(order: seq<int>) returns (restored: seq<int>)
    ensures restored == Identity(0, |order|) && |restored| == |order|
  {
    restored := order;
    var i := 0;
    while i < |order|
      invariant 0 <= i <= |order| == |restored|
      invariant forall j | 0 <= j < i :: restored[j] == j
    {
      restored := restored[i := i];
      i := i + 1;
    }
  }

  /** The tests registered under a name. */
  function TestsOf(cases: seq<bytes>, tests: seq<seq<bytes>>, name: bytes): seq<bytes>
    requires |tests| == |cases|
    decreases |cases|
  {
    if cases == [] then []
    else if cases[0] == name then tests[0]
    else TestsOf(cases[1..], tests[1..], name)
  }

  lemma FewTestsKept(had: seq<seq<bytes>>, tests: seq<seq<bytes>>, at: nat)
    requires forall i | 0 <= i < |had| :: |had[i]| < MAX_RANGE
    requires at < |tests| && (tests == had || (at <= |had| && tests == Inserted(had, at, [])))
    ensures |tests[at]| < MAX_RANGE
  {
  }

  lemma {:induction false} TestsAt(cases: seq<bytes>, tests: seq<seq<bytes>>, i: nat)
    requires |tests| == |cases| && i < |cases| && Distinct(cases)
    ensures TestsOf(cases, tests, cases[i]) == tests[i]
    decreases |cases|
  {
    if i > 0 {
      assert cases[0] != cases[i] && cases[1..][i - 1] == cases[i] && tests[1..][i - 1] == tests[i];
      TestsAt(cases[1..], tests[1..], i - 1);
    }
  }

  lemma {:induction false} NoTests(cases: seq<bytes>, tests: seq<seq<bytes>>, name: bytes)
    requires |tests| == |cases| && name !in cases
    ensures TestsOf(cases, tests, name) == []
    decreases |cases|
  {
    if cases != [] {
      assert forall n | n in cases[1..] :: n in cases;
      NoTests(cases[1..], tests[1..], name);
    }
  }

  /** Finding or creating a case leaves the tests of every case what they were. */
  lemma FoundTests(before: seq<bytes>, had: seq<seq<bytes>>, d: nat, cases: seq<bytes>, tests: seq<seq<bytes>>,
                   at: nat, name: bytes)
    requires |had| == |before| && |tests| == |cases|
    requires Sorted(before, d)
    requires if name in before then cases == before && tests == had
             else at <= |before| && cases == Inserted(before, at, name) && tests == Inserted(had, at, [])
    ensures forall i | 0 <= i < |cases| :: tests[i] == TestsOf(before, had, cases[i])
    ensures forall n :: n in cases <==> n in before || n == name
  {
    hide IsDeathTest, TestsOf, Inserted, Sorted;
    forall i | 0 <= i < |cases| ensures tests[i] == TestsOf(before, had, cases[i]) {
      if name in before {
        CaseAt(before, had, i, d);
      } else if i == at {
        InsertedAt(before, at, name);
        InsertedAt(had, at, []);
        NoTests(before, had, name);
      } else {
        var k := if i < at then i else i - 1;
        InsertedOther(before, at, name, i);
        InsertedOther(had, at, [], i);
        CaseAt(before, had, k, d);
      }
    }
    if name !in before { InsertedNames(before, at, name); }
  }

  lemma CaseAt(cases: seq<bytes>, tests: seq<seq<bytes>>, i: nat, d: nat)
    requires |tests| == |cases| && i < |cases| && Sorted(cases, d)
    ensures TestsOf(cases, tests, cases[i]) == tests[i]
  {
    hide IsDeathTest, TestsOf;
    TestsAt(cases, tests, i);
  }

  lemma InsertedOther<T>(s: seq<T>, at: nat, x: T, i: nat)
    requires at <= |s| && i < |Inserted(s, at, x)| && i != at
    ensures |Inserted(s, at, x)| == |s| + 1
    ensures Inserted(s, at, x)[i] == s[if i < at then i else i - 1]
  {
  }

  lemma OneTestMore(before: seq<bytes>, had: seq<seq<bytes>>, cases: seq<bytes>, tests: seq<seq<bytes>>, at: nat,
                    test: bytes, d: nat)
    requires |had| == |before| && |tests| == |cases| && at < |cases| && Sorted(cases, d)
    requires forall i | 0 <= i < |cases| :: tests[i] == TestsOf(before, had, cases[i])
    ensures var ts := tests[at := tests[at] + [test]];
            forall i | 0 <= i < |cases| ::
              ts[i] == TestsOf(before, had, cases[i]) + if cases[i] == cases[at] then [test] else []
  {
    hide TestsOf, IsDeathTest, Sorted;
    var ts := tests[at := tests[at] + [test]];
    forall i | 0 <= i < |cases|
      ensures ts[i] == TestsOf(before, had, cases[i]) + if cases[i] == cases[at] then [test] else []
    {
      DistinctCases(cases, d, i, at);
      if i != at {
        assert ts[i] == tests[i] && tests[i] + [] == tests[i];
      }
    }
  }

  lemma DistinctCases(cases: seq<bytes>, d: nat, i: nat, j: nat)
    requires Sorted(cases, d) && i < |cases| && j < |cases|
    ensures cases[i] == cases[j] <==> i == j
  {
    if i < j {
      assert cases[i] != cases[j];
    } else if j < i {
      assert cases[j] != cases[i];
    }
  }

  /** The cases, and how many of them are death tests, when this one has to be among them. */
  function WithCase(cases: seq<bytes>, d: nat, name: bytes): (seq<bytes>, nat) {
    if name in cases then (cases, d)
    else if IsDeathTest(name) && d <= |cases| then (cases[..d] + [name] + cases[d..], d + 1)
    else (cases + [name], d)
  }

  lemma WithCaseIs(cases: seq<bytes>, d: nat, name: bytes)
    requires d <= |cases|
    ensures WithCase(cases, d, name) ==
            if name in cases then (cases, d)
            else (Inserted(cases, if IsDeathTest(name) then d else |cases|, name),
                  if IsDeathTest(name) then d + 1 else d)
  {
    hide IsDeathTest;
    assert cases[..|cases|] + [name] + cases[|cases|..] == cases + [name];
  }

  lemma InsertedAt<T>(s: seq<T>, at: nat, x: T)
    requires at <= |s|
    ensures var r := Inserted(s, at, x); |r| == |s| + 1 && r[at] == x
  {
  }

  lemma OneMore(n: nat)
    ensures Identity(0, n) + [n] == Identity(0, n + 1)
  {
  }

  lemma OrdersLength(orders: seq<seq<int>>, tests: seq<seq<bytes>>)
    requires Orders(orders, tests)
    ensures |orders| == |tests| && forall i | 0 <= i < |orders| :: |orders[i]| == |tests[i]| <= MAX_RANGE
  {
  }

  /** The first i vectors are in the order of registration. */
  ghost predicate Restored(orders: seq<seq<int>>, tests: seq<seq<bytes>>, i: nat) {
    && |orders| == |tests| && (forall j | 0 <= j < |orders| :: |orders[j]| == |tests[j]|)
    && forall j | 0 <= j < |orders| && j < i :: orders[j] == Identity(0, |tests[j]|)
  }

  lemma RestoredNone(orders: seq<seq<int>>, tests: seq<seq<bytes>>)
    requires Orders(orders, tests)
    ensures Restored(orders, tests, 0)
  {
  }

  lemma RestoredOne(orders: seq<seq<int>>, tests: seq<seq<bytes>>, i: nat, order: seq<int>)
    requires Restored(orders, tests, i) && i < |orders| && order == Identity(0, |orders[i]|) && |order| == |orders[i]|
    ensures Restored(orders[i := order], tests, i + 1)
  {
    hide Identity;
  }

  lemma RestoredAll(orders: seq<seq<int>>, tests: seq<seq<bytes>>, before: seq<seq<int>>)
    requires Restored(orders, tests, |orders|) && Orders(before, tests)
    ensures Orders(orders, tests) && forall i | 0 <= i < |orders| :: orders[i] == Identity(0, |tests[i]|)
  {
    hide Identity;
  }

  lemma InsertOrders(orders: seq<seq<int>>, tests: seq<seq<bytes>>, at: nat)
    requires Orders(orders, tests) && at <= |orders|
    requires forall i | 0 <= i < |orders| :: orders[i] == Identity(0, |tests[i]|)
    ensures var os, ts := Inserted(orders, at, []), Inserted(tests, at, []);
            Orders(os, ts) && forall i | 0 <= i < |os| :: os[i] == Identity(0, |ts[i]|)
  {
    var os, ts := Inserted(orders, at, []), Inserted(tests, at, []);
    forall i | 0 <= i < |os| ensures os[i] == Identity(0, |ts[i]|) && |ts[i]| <= MAX_RANGE {
      assert i < at ==> os[i] == orders[i] && ts[i] == tests[i];
      assert i > at ==> os[i] == orders[i - 1] && ts[i] == tests[i - 1];
    }
  }

  lemma OrderGrows(orders: seq<seq<int>>, tests: seq<seq<bytes>>, at: nat, test: bytes)
    requires Orders(orders, tests) && at < |orders|
    requires forall i | 0 <= i < |orders| :: orders[i] == Identity(0, |tests[i]|)
    requires |tests[at]| < MAX_RANGE
    ensures var os, ts := orders[at := orders[at] + [|orders[at]|]], tests[at := tests[at] + [test]];
            Orders(os, ts) && forall i | 0 <= i < |os| :: os[i] == Identity(0, |ts[i]|)
  {
    OneMore(|orders[at]|);
  }

  /** A vector reordered whole is another order of the same tests. */
  lemma WholeOrder(orders: seq<seq<int>>, tests: seq<seq<bytes>>, i: nat, order: seq<int>)
    requires Orders(orders, tests) && i < |orders| && Reordered(orders[i], order, 0, |orders[i]|)
    ensures Orders(orders[i := order], tests)
  {
    hide Identity;
    assert orders[i][0..|orders[i]|] == orders[i] && order[0..|order|] == order;
  }

  /** The first i vectors have been shuffled, and the generator went from s0 to s. */
  ghost predicate EachDone(start: seq<seq<int>>, orders: seq<seq<int>>, i: nat, s0: nat, s: nat) {
    && i <= |orders| == |start| && orders[i..] == start[i..]
    && var (rest, last) := ShuffledEach(start[i..], s);
       (orders[..i] + rest, last) == ShuffledEach(start, s0)
  }

  lemma EachStart(start: seq<seq<int>>, s0: nat)
    ensures EachDone(start, start, 0, s0, s0)
  {
    hide ShuffledEach;
    assert start[0..] == start && start[..0] + ShuffledEach(start, s0).0 == ShuffledEach(start, s0).0;
  }

  lemma EachStep(start: seq<seq<int>>, orders: seq<seq<int>>, i: nat, order: seq<int>, s0: nat, s: nat, next: nat)
    requires EachDone(start, orders, i, s0, s) && i < |orders|
    requires (order, next) == Shuffled(orders[i], 0, |orders[i]|, s)
    ensures EachDone(start, orders[i := order], i + 1, s0, next)
  {
    hide Shuffled;
    var more := orders[i := order];
    assert start[i..][0] == orders[i..][0] == orders[i] && start[i..][1..] == start[i + 1..];
    assert more[i + 1..] == orders[i..][1..] == start[i + 1..];
    var (rest, last) := ShuffledEach(start[i + 1..], next);
    assert more[..i + 1] == orders[..i] + [order];
    assert more[..i + 1] + rest == orders[..i] + ([order] + rest);
  }

  lemma EachEnd(start: seq<seq<int>>, orders: seq<seq<int>>, s0: nat, s: nat)
    requires EachDone(start, orders, |orders|, s0, s)
    ensures (orders, s) == ShuffledEach(start, s0)
  {
    assert start[|orders|..] == [] && orders[..|orders|] + [] == orders;
  }

  lemma OrderRange(order: seq<int>, n: nat)
    requires Order(order, n)
    ensures forall j | 0 <= j < n :: 0 <= order[j] < n
  {
    assert order[..0] == [] && order[0..] == order && Identity(0, 0) == [];
    InRange(order, 0, n);
  }

  lemma OrderSelects(tests: seq<bytes>, order: seq<int>)
    requires Order(order, |tests|)
    ensures forall j | 0 <= j < |order| :: 0 <= order[j] < |tests|
    ensures multiset(Select(tests, order)) == multiset(tests)
  {
    OrderRange(order, |tests|);
    SelectMultiset(tests, order, Identity(0, |tests|));
    assert Select(tests, Identity(0, |tests|)) == tests;
  }

  /** A list of unique names whose first d are the death tests. */
  ghost predicate Sorted(cases: seq<bytes>, d: nat) {
    && Distinct(cases)
    && (forall i | 0 <= i < |cases| :: IsDeathTest(cases[i]) <==> i < d)
  }

  function Inserted<T>(s: seq<T>, at: nat, x: T): seq<T>
    requires at <= |s|
  {
    s[..at] + [x] + s[at..]
  }

  lemma InsertKeeps(cases: seq<bytes>, at: nat, name: bytes, d: nat)
    requires Sorted(cases, d) && d <= |cases| && name !in cases
    requires at == if IsDeathTest(name) then d else |cases|
    ensures Sorted(Inserted(cases, at, name), if IsDeathTest(name) then d + 1 else d)
  {
    hide IsDeathTest;
    var after := Inserted(cases, at, name);
    assert forall i | 0 <= i < |after| ::
           after[i] == if i < at then cases[i] else if i == at then name else cases[i - 1];
  }

  lemma IdentitySplit(indices: seq<int>, d: nat, n: nat)
    requires d <= n == |indices| && forall i | 0 <= i < n :: indices[i] == i
    ensures indices == Identity(0, n) && indices[..d] == Identity(0, d) && indices[d..] == Identity(d, n)
  {
  }

  /** Every case once, and the first d exactly the death tests. */
  ghost predicate IsRunOrder(visited: seq<bytes>, cases: seq<bytes>, d: nat) {
    && |visited| == |cases| && multiset(visited) == multiset(cases) && d <= |visited|
    && forall i | 0 <= i < |visited| :: IsDeathTest(visited[i]) <==> i < d
  }

  function Select(cases: seq<bytes>, indices: seq<int>): seq<bytes>
    requires forall i | 0 <= i < |indices| :: 0 <= indices[i] < |cases|
  {
    seq(|indices|, i requires 0 <= i < |indices| => cases[indices[i]])
  }

  /** Equal multisets of indices hold indices of the same range. */
  lemma InRange(indices: seq<int>, d: nat, n: nat)
    requires d <= n == |indices|
    requires multiset(indices[..d]) == multiset(Identity(0, d)) && multiset(indices[d..]) == multiset(Identity(d, n))
    ensures forall i | 0 <= i < n :: 0 <= indices[i] < n && (indices[i] < d <==> i < d)
  {
    forall i | 0 <= i < n ensures 0 <= indices[i] < n && (indices[i] < d <==> i < d) {
      if i < d {
        assert indices[..d][i] in multiset(indices[..d]);
        assert indices[i] in Identity(0, d);
      } else {
        assert indices[d..][i - d] in multiset(indices[d..]);
        assert indices[i] in Identity(d, n);
      }
    }
  }

  lemma Cancel(x: int, a: multiset<int>, b: multiset<int>)
    requires multiset{x} + a == multiset{x} + b
    ensures a == b
  {
    forall y ensures a[y] == b[y] {
      assert (multiset{x} + a)[y] == (multiset{x} + b)[y];
    }
  }

  /** Selecting by a reordered index vector is reordering the selection. */
  lemma {:induction false} SelectMultiset(cases: seq<bytes>, a: seq<int>, b: seq<int>)
    requires forall i | 0 <= i < |a| :: 0 <= a[i] < |cases|
    requires forall i | 0 <= i < |b| :: 0 <= b[i] < |cases|
    requires multiset(a) == multiset(b)
    ensures multiset(Select(cases, a)) == multiset(Select(cases, b))
    decreases |a|
  {
    if a == [] {
      assert |multiset(b)| == 0;
    } else {
      var x := a[0];
      assert x in multiset(b);
      var k :| 0 <= k < |b| && b[k] == x;
      TakeOut(a, 0);
      TakeOut(b, k);
      Cancel(x, multiset(Drop(a, 0)), multiset(Drop(b, k)));
      SelectDrop(cases, a, 0);
      SelectDrop(cases, b, k);
      SelectMultiset(cases, Drop(a, 0), Drop(b, k));
      TakeOut(Select(cases, a), 0);
      TakeOut(Select(cases, b), k);
    }
  }

  function Drop<T>(s: seq<T>, k: nat): seq<T>
    requires k < |s|
  {
    s[..k] + s[k + 1..]
  }

  lemma TakeOut<T>(s: seq<T>, k: nat)
    requires k < |s|
    ensures multiset(s) == multiset{s[k]} + multiset(Drop(s, k))
  {
    assert s == s[..k] + [s[k]] + s[k + 1..];
  }

  lemma SelectDrop(cases: seq<bytes>, b: seq<int>, k: nat)
    requires k < |b| && forall i | 0 <= i < |b| :: 0 <= b[i] < |cases|
    ensures forall i | 0 <= i < |Drop(b, k)| :: 0 <= Drop(b, k)[i] < |cases|
    ensures Select(cases, Drop(b, k)) == Drop(Select(cases, b), k)
  {
  }

  lemma Visited(cases: seq<bytes>, indices: seq<int>, d: nat)
    requires d <= |cases| == |indices|
    requires multiset(indices[..d]) == multiset(Identity(0, d))
             && multiset(indices[d..]) == multiset(Identity(d, |cases|))
    requires Sorted(cases, d)
    ensures forall i | 0 <= i < |indices| :: 0 <= indices[i] < |cases|
    ensures IsRunOrder(Select(cases, indices), cases, d)
  {
    var n := |cases|;
    InRange(indices, d, n);
    assert indices == indices[..d] + indices[d..];
    assert Identity(0, n) == Identity(0, d) + Identity(d, n);
    SelectMultiset(cases, indices, Identity(0, n));
    assert Select(cases, Identity(0, n)) == cases;
  }

  // -------------------------------------------------------------- whole histories

  lemma {:induction false} AtMostOnce(names: seq<bytes>, n: bytes)
    requires Distinct(names)
    ensures multiset(names)[n] <= 1
  {
    if names != [] {
      var rest := names[1..];
      assert names == [names[0]] + rest;
      AtMostOnce(rest, n);
      if n == names[0] {
        assert n !in rest;
      }
    }
  }

  lemma RepeatCounts(names: seq<bytes>, i: nat, j: nat)
    requires i < j < |names| && names[i] == names[j]
    ensures multiset(names)[names[i]] >= 2
  {
    TakeOut(names, i);
    assert Drop(names, i)[j - 1] == names[j];
  }

  lemma RunOrderOnce(visited: seq<bytes>, cases: seq<bytes>, d: nat)
    requires IsRunOrder(visited, cases, d) && Sorted(cases, d)
    ensures Distinct(visited) && forall n :: n in visited <==> n in cases
    ensures forall i, j | 0 <= i < j < |visited| && IsDeathTest(visited[j]) :: IsDeathTest(visited[i])
  {
    hide IsDeathTest;
    forall i, j | 0 <= i < j < |visited| ensures visited[i] != visited[j] {
      AtMostOnce(cases, visited[i]);
      if visited[i] == visited[j] { RepeatCounts(visited, i, j); }
    }
    forall n ensures n in visited <==> n in cases {
      assert n in visited <==> n in multiset(visited);
      assert n in cases <==> n in multiset(cases);
    }
  }

  /** What the repetitions of a run do in between: the generator is reseeded and the tests are
      shuffled, or they are put back. */
  datatype Step = Shuffle(seed: nat) | Unshuffle

  /** The tests that a list of registrations puts under a name, in order. */
  function Registered(tests: seq<(bytes, bytes)>, name: bytes): seq<bytes> {
    if tests == [] then []
    else
      var (n, test) := tests[|tests| - 1];
      Registered(tests[..|tests| - 1], name) + if n == name then [test] else []
  }

  /** The names of the cases that are death tests, or that are not, in the order of their first test. */
  function FirstSeen(tests: seq<(bytes, bytes)>, death: bool): seq<bytes> {
    if tests == [] then []
    else
      var before, name := FirstSeen(tests[..|tests| - 1], death), tests[|tests| - 1].0;
      if IsDeathTest(name) == death && name !in before then before + [name] else before
  }

  /** Any registrations, then any shuffles from any seeds and any unshuffles, then a run: every case
      with a registered test is visited exactly once, no death test comes after another case, and in
      each case exactly the registered tests run, each as often as it was registered. Without a shuffle
      since the tests were put back, cases and tests come in the order of registration, death tests
      first. */
  method RunAfter(tests: seq<(bytes, bytes)>, steps: seq<Step>) returns (order: seq<bytes>, runs: seq<seq<bytes>>)
    requires |tests| <= MAX_RANGE
    ensures Distinct(order) && forall n :: n in order <==> exists i :: 0 <= i < |tests| && tests[i].0 == n
    ensures forall i, j | 0 <= i < j < |order| && IsDeathTest(order[j]) :: IsDeathTest(order[i])
    ensures |runs| == |order| && forall k | 0 <= k < |runs| ::
            multiset(runs[k]) == multiset(Registered(tests, order[k]))
    ensures steps == [] || steps[|steps| - 1].Unshuffle? ==>
            && order == FirstSeen(tests, true) + FirstSeen(tests, false)
            && forall k | 0 <= k < |runs| :: runs[k] == Registered(tests, order[k])
  {
    hide IsDeathTest, Orders, Identity, Sorted, Picked, FirstSeen, Registered, RunsOf, IsRunOrder, AllRegistered,
         Distinct;
    var unit := RegisterAll(tests);
    hide unit.Valid, unit.Unshuffled;
    Repeat(unit, steps);
    unit.CasesSorted();
    order, runs := unit.RunOrder();
    if steps == [] || steps[|steps| - 1].Unshuffle? {
      PutBackOrder(unit, tests, order, runs);
    }
    RunOrderOnce(order, unit.cases, unit.lastDeath + 1);
    NamesRegistered(unit.cases, unit.tests, tests, order);
    RunsRegistered(unit.cases, unit.tests, unit.lastDeath + 1, tests, order, runs);
  }

  lemma NamesRegistered(cases: seq<bytes>, tests: seq<seq<bytes>>, registered: seq<(bytes, bytes)>, order: seq<bytes>)
    requires AllRegistered(cases, tests, registered) && forall n :: n in order <==> n in cases
    ensures forall n :: n in order <==> exists i :: 0 <= i < |registered| && registered[i].0 == n
  {
    hide Registered;
  }

  lemma RunsRegistered(cases: seq<bytes>, tests: seq<seq<bytes>>, d: nat, registered: seq<(bytes, bytes)>,
                       order: seq<bytes>, runs: seq<seq<bytes>>)
    requires AllRegistered(cases, tests, registered) && Sorted(cases, d) && RunsOf(runs, order, cases, tests)
    requires forall n :: n in order <==> n in cases
    ensures |runs| == |order|
    ensures forall k | 0 <= k < |runs| :: multiset(runs[k]) == multiset(Registered(registered, order[k]))
  {
    hide IsDeathTest, Sorted, TestsOf, Registered;
    forall k | 0 <= k < |runs| ensures multiset(runs[k]) == multiset(Registered(registered, order[k])) {
      assert order[k] in cases;
      CaseTests(cases, tests, registered, order[k], d);
    }
  }

  method Repeat(unit: UnitTest, steps: seq<Step>)
    requires unit.Valid()
    modifies unit
    ensures unit.Valid() && unit.cases == old(unit.cases) && unit.tests == old(unit.tests)
    ensures (if steps == [] then old(unit.Unshuffled()) else steps[|steps| - 1].Unshuffle?) ==> unit.Unshuffled()
  {
    hide IsDeathTest, Orders, Identity, Sorted, Shuffled, ShuffledEach, unit.Unshuffled;
    var random := new Random(0);
    for i := 0 to |steps|
      invariant fresh(random) && unit.Valid() && unit.cases == old(unit.cases) && unit.tests == old(unit.tests)
      invariant (if i == 0 then old(unit.Unshuffled()) else steps[i - 1].Unshuffle?) ==> unit.Unshuffled()
    {
      match steps[i] {
        case Shuffle(seed) =>
          random.state := seed;
          unit.ShuffleTests(random);
        case Unshuffle => unit.UnshuffleTests();
      }
    }
  }

  /** The cases are those with a registered test, each with its tests in order. */
  ghost predicate AllRegistered(cases: seq<bytes>, tests: seq<seq<bytes>>, registered: seq<(bytes, bytes)>) {
    && |tests| == |cases|
    && (forall n :: n in cases <==> exists i :: 0 <= i < |registered| && registered[i].0 == n)
    && (forall i | 0 <= i < |cases| :: tests[i] == Registered(registered, cases[i]))
  }

  lemma CaseTests(cases: seq<bytes>, tests: seq<seq<bytes>>, registered: seq<(bytes, bytes)>, name: bytes, d: nat)
    requires AllRegistered(cases, tests, registered) && name in cases && Sorted(cases, d)
    ensures TestsOf(cases, tests, name) == Registered(registered, name)
  {
    hide IsDeathTest;
    var i :| 0 <= i < |cases| && cases[i] == name;
    TestsAt(cases, tests, i);
  }

  method RegisterAll(tests: seq<(bytes, bytes)>) returns (unit: UnitTest)
    requires |tests| <= MAX_RANGE
    ensures fresh(unit) && unit.Valid() && unit.Unshuffled() && AllRegistered(unit.cases, unit.tests, tests)
    ensures unit.cases == FirstSeen(tests, true) + FirstSeen(tests, false)
  {
    hide IsDeathTest, Orders, Identity, Sorted, Registered, AllRegistered, FirstSeen, unit.Unshuffled, unit.Valid;
    NothingRegistered();
    unit := new UnitTest();
    assert tests[..0] == [];
    for i := 0 to |tests|
      invariant fresh(unit) && unit.Valid() && unit.Unshuffled() && |unit.cases| <= i
      invariant AllRegistered(unit.cases, unit.tests, tests[..i]) && InOrder(unit.cases, unit.lastDeath, tests[..i])
    {
      ghost var before, had, d := unit.cases, unit.tests, unit.lastDeath + 1;
      unit.CasesSorted();
      FewTests(before, had, tests[..i]);
      unit.AddTest(tests[i].0, tests[i].1);
      unit.CasesSorted();
      assert tests[..i + 1] == tests[..i] + [tests[i]];
      RegisteredMore(before, had, d, unit.cases, unit.tests, tests[..i], tests[i]);
      OrderMore(before, had, d, unit.cases, unit.lastDeath, tests[..i], tests[i]);
    }
    assert tests[..|tests|] == tests;
  }

  ghost predicate InOrder(cases: seq<bytes>, lastDeath: int, tests: seq<(bytes, bytes)>) {
    && cases == FirstSeen(tests, true) + FirstSeen(tests, false)
    && lastDeath + 1 == |FirstSeen(tests, true)|
  }

  lemma NothingRegistered()
    ensures AllRegistered([], [], []) && InOrder([], -1, [])
  {
    hide IsDeathTest;
  }

  lemma {:induction false} SeenNames(tests: seq<(bytes, bytes)>, death: bool, name: bytes)
    ensures name in FirstSeen(tests, death) <==>
            IsDeathTest(name) == death && exists i :: 0 <= i < |tests| && tests[i].0 == name
  {
    hide IsDeathTest;
    if tests != [] {
      var before, last := tests[..|tests| - 1], tests[|tests| - 1].0;
      SeenNames(before, death, name);
      if i :| 0 <= i < |tests| && tests[i].0 == name {
        if i < |before| { assert before[i].0 == name; }
      }
      if i :| 0 <= i < |before| && before[i].0 == name { assert tests[i].0 == name; }
    }
  }

  /** A new case goes where it was first seen. */
  lemma OrderMore(before: seq<bytes>, had: seq<seq<bytes>>, d: nat, cases: seq<bytes>, lastDeath: int,
                  tests: seq<(bytes, bytes)>, last: (bytes, bytes))
    requires AllRegistered(before, had, tests) && InOrder(before, d - 1, tests)
    requires d <= |before| && lastDeath >= -1 && (cases, lastDeath + 1) == WithCase(before, d, last.0)
    ensures InOrder(cases, lastDeath, tests + [last])
  {
    hide IsDeathTest;
    var all, name := tests + [last], last.0;
    assert all[..|all| - 1] == tests;
    SeenNames(tests, true, name);
    SeenNames(tests, false, name);
    var deaths, others := FirstSeen(tests, true), FirstSeen(tests, false);
    assert before[..d] == deaths && before[d..] == others;
    assert deaths + (others + [name]) == deaths + others + [name];
  }

  /** Without a shuffle the run follows the registration. */
  lemma PutBackOrder(unit: UnitTest, tests: seq<(bytes, bytes)>, order: seq<bytes>, runs: seq<seq<bytes>>)
    requires unit.Valid() && unit.Unshuffled() && AllRegistered(unit.cases, unit.tests, tests)
    requires order == Picked(unit.cases, unit.indices) && |runs| == |unit.indices|
    requires |unit.orders| == |unit.tests|
    requires forall k | 0 <= k < |runs| ::
               && 0 <= unit.indices[k] < |unit.cases|
               && runs[k] == Picked(unit.tests[unit.indices[k]], unit.orders[unit.indices[k]])
    ensures order == unit.cases && forall k | 0 <= k < |runs| :: runs[k] == Registered(tests, order[k])
  {
    hide IsDeathTest, Sorted, Orders, Picked;
    PickedAll(unit.cases);
    forall k | 0 <= k < |runs| ensures runs[k] == Registered(tests, order[k]) {
      assert unit.indices[k] == Identity(0, |unit.cases|)[k] == k;
      PickedAll(unit.tests[k]);
    }
  }

  lemma {:induction false} RegisteredShort(registered: seq<(bytes, bytes)>, name: bytes)
    ensures |Registered(registered, name)| <= |registered|
  {
    if registered != [] {
      RegisteredShort(registered[..|registered| - 1], name);
    }
  }

  lemma FewTests(cases: seq<bytes>, tests: seq<seq<bytes>>, registered: seq<(bytes, bytes)>)
    requires AllRegistered(cases, tests, registered)
    ensures forall i | 0 <= i < |tests| :: |tests[i]| <= |registered|
  {
    forall i | 0 <= i < |tests| ensures |tests[i]| <= |registered| {
      RegisteredShort(registered, cases[i]);
    }
  }

  lemma {:induction false} NeverRegistered(registered: seq<(bytes, bytes)>, name: bytes)
    requires forall i | 0 <= i < |registered| :: registered[i].0 != name
    ensures Registered(registered, name) == []
  {
    if registered != [] {
      NeverRegistered(registered[..|registered| - 1], name);
    }
  }

  lemma RegisteredMore(before: seq<bytes>, had: seq<seq<bytes>>, d: nat, cases: seq<bytes>, tests: seq<seq<bytes>>,
                       registered: seq<(bytes, bytes)>, last: (bytes, bytes))
    requires AllRegistered(before, had, registered) && Sorted(before, d) && |tests| == |cases|
    requires forall n :: n in cases <==> n in before || n == last.0
    requires forall i | 0 <= i < |cases| ::
               tests[i] == TestsOf(before, had, cases[i]) + if cases[i] == last.0 then [last.1] else []
    ensures AllRegistered(cases, tests, registered + [last])
  {
    hide Sorted, TestsOf;
    var all := registered + [last];
    assert all[..|all| - 1] == registered;
    forall n ensures n in cases <==> exists i :: 0 <= i < |all| && all[i].0 == n {
      if n in before {
        var i :| 0 <= i < |registered| && registered[i].0 == n;
        assert all[i].0 == n;
      }
      assert all[|registered|].0 == last.0;
      if i :| 0 <= i < |all| && all[i].0 == n {
        assert i < |registered| ==> registered[i].0 == n;
      }
    }
    forall i | 0 <= i < |cases| ensures tests[i] == Registered(all, cases[i]) {
      if cases[i] in before {
        CaseTests(before, had, registered, cases[i], d);
      } else {
        NoTests(before, had, cases[i]);
        NeverRegistered(registered, cases[i]);
      }
    }
  }

  lemma InsertedNames(cases: seq<bytes>, at: nat, name: bytes)
    requires at <= |cases|
    ensures forall n :: n in Inserted(cases, at, name) <==> n in cases || n == name
  {
    assert cases == cases[..at] + cases[at..];
    assert forall n :: n in cases <==> n in cases[..at] || n in cases[at..];
  }
}
