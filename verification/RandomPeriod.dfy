/** The random generator goes through all its 2^31 states before it repeats one. */
module RandomPeriod {
  import opened Bytes
  import opened TestOrder

  function Iterate(state: nat, n: nat): nat
    decreases n
  {
    if n == 0 then state else Iterate(NextState(state), n - 1)
  }

  lemma {:induction false} IterateAdd(state: nat, n: nat, m: nat)
    ensures Iterate(state, n + m) == Iterate(Iterate(state, n), m)
    decreases n
  {
    hide NextState;
    if n > 0 { IterateAdd(NextState(state), n - 1, m); }
  }

  lemma {:induction false} IterateSmall(state: nat, n: nat)
    requires state < MAX_RANGE
    ensures Iterate(state, n) < MAX_RANGE
    decreases n
  {
    hide NextState;
    if n > 0 { IterateSmall(NextState(state), n - 1); }
  }

  function Pow2(k: nat): nat {
    if k == 0 then 1 else 2 * Pow2(k - 1)
  }

  // --------------------------------------------------------------- equal up to a modulus

  ghost predicate Same(x: int, y: int, m: int) {
    exists q: int :: x - y == m * q
  }

  lemma SameBy(x: int, y: int, m: int, q: int)
    requires x - y == m * q
    ensures Same(x, y, m)
  {
  }

  lemma SameTrans(x: int, y: int, z: int, m: int)
    requires Same(x, y, m) && Same(y, z, m)
    ensures Same(x, z, m)
  {
    var p :| x - y == m * p;
    var q :| y - z == m * q;
    assert m * (p + q) == m * p + m * q;
    SameBy(x, z, m, p + q);
  }

  /** An affine step keeps the equality. */
  lemma SameAffine(x: int, y: int, m: int, a: int, c: int)
    requires Same(x, y, m)
    ensures Same(a * x + c, a * y + c, m)
  {
    var q :| x - y == m * q;
    assert a * x + c - (a * y + c) == a * (x - y) == a * (m * q) == m * (a * q);
    SameBy(a * x + c, a * y + c, m, a * q);
  }

  /** It also holds up to a divisor of the modulus. */
  lemma SameDivisor(x: int, y: int, m: int, d: int, e: int)
    requires Same(x, y, m) && m == d * e
    ensures Same(x, y, d)
  {
    var q :| x - y == m * q;
    assert m * q == d * (e * q);
    SameBy(x, y, d, e * q);
  }

  // -------------------------------------------------------------- 2^k steps at once

  /** 2^k steps multiply by A(k) and add C(k), up to 2^31. */
  function A(k: nat): int {
    if k == 0 then MULTIPLIER else A(k - 1) * A(k - 1)
  }

  function C(k: nat): int {
    if k == 0 then 12345 else A(k - 1) * C(k - 1) + C(k - 1)
  }

  lemma OneStep(state: nat)
    ensures Same(NextState(state), A(0) * state + C(0), MAX_RANGE)
  {
    hide NextState;
    NextStateIs(state);
    var x := MULTIPLIER * state + 12345;
    SameBy(NextState(state), x, MAX_RANGE, -(x / MAX_RANGE));
  }

  lemma {:induction false} ManySteps(state: nat, k: nat)
    ensures Same(Iterate(state, Pow2(k)), A(k) * state + C(k), MAX_RANGE)
    decreases k
  {
    hide Iterate, Same, NextState;
    if k == 0 {
      OneStep(state);
      OnceIterated(state);
    } else {
      var half, whole := Iterate(state, Pow2(k - 1)), Iterate(state, Pow2(k));
      var a, c := A(k - 1), C(k - 1);
      ManySteps(state, k - 1);
      ManySteps(half, k - 1);
      IterateAdd(state, Pow2(k - 1), Pow2(k - 1));
      assert whole == Iterate(half, Pow2(k - 1));
      SameAffine(half, a * state + c, MAX_RANGE, a, c);
      SameTrans(whole, a * half + c, a * (a * state + c) + c, MAX_RANGE);
      Distribute(a, state, c);
    }
  }

  lemma OnceIterated(state: nat)
    ensures Iterate(state, 1) == NextState(state)
  {
    assert Iterate(NextState(state), 0) == NextState(state);
  }

  lemma Distribute(a: int, x: int, c: int)
    ensures a * (a * x + c) + c == a * a * x + (a * c + c)
  {
  }

  /** A(k) is one more than a multiple of 2^(k + 2), C(k) an odd multiple of 2^k. */
  lemma {:induction false} Powers(k: nat) returns (u: int, v: int)
    ensures A(k) == 1 + Pow2(k + 2) * u && C(k) == Pow2(k) * (2 * v + 1)
  {
    if k == 0 {
      u, v := 275878811, 6172;
      assert Pow2(2) == 4 && Pow2(0) == 1;
    } else {
      var u', v' := Powers(k - 1);
      var p := Pow2(k);
      assert Pow2(k + 1) == 2 * p && Pow2(k + 2) == 4 * p;
      u := u' + p * u' * u';
      v := v' + Pow2(k - 1) * u' * (2 * v' + 1);
      SquareStep(p, u');
      SumStep(p, Pow2(k - 1), u', v');
    }
  }

  lemma SquareStep(p: int, u: int)
    ensures (1 + 2 * p * u) * (1 + 2 * p * u) == 1 + 4 * p * (u + p * u * u)
  {
    var x := p * u;
    assert 2 * p * u == 2 * x;
    assert (1 + 2 * x) * (1 + 2 * x) == 1 + 4 * x + 4 * (x * x);
    assert x * x == p * (p * u * u);
    assert 4 * p * (u + p * u * u) == 4 * (p * u) + 4 * (p * (p * u * u));
  }

  lemma SumStep(p: int, h: int, u: int, v: int)
    requires p == 2 * h
    ensures (1 + 2 * p * u) * (h * (2 * v + 1)) + h * (2 * v + 1) == p * (2 * (v + h * u * (2 * v + 1)) + 1)
  {
    var o := 2 * v + 1;
    var c, x := h * o, p * u;
    assert 2 * p * u == 2 * x;
    assert (1 + 2 * x) * c + c == 2 * c + 2 * (x * c);
    assert 2 * (h * u * o) == x * o by { assert x == 2 * (h * u); }
    assert p * (o + x * o) == p * o + p * (x * o);
    assert p * o == 2 * c;
    assert p * (x * o) == 2 * (x * c) by { assert p * (x * o) == 2 * (h * (x * o)) && h * (x * o) == x * (h * o); }
  }

  // ---------------------------------------------------------------------- the period

  lemma {:induction false} Pow2Add(a: nat, b: nat)
    ensures Pow2(a + b) == Pow2(a) * Pow2(b)
  {
    if a > 0 { Pow2Add(a - 1, b); }
  }

  lemma WholeRange()
    ensures Pow2(31) == MAX_RANGE
  {
    assert Pow2(8) == 256;
    Pow2Add(8, 8);
    Pow2Add(16, 8);
    assert Pow2(7) == 128;
    Pow2Add(24, 7);
  }

  /** Up to 2^(k + 1), 2^k steps add 2^k. */
  lemma BlockStep(state: nat, k: nat)
    requires k <= 30
    ensures Same(Iterate(state, Pow2(k)), state + Pow2(k), Pow2(k + 1))
  {
    hide Iterate, Same, A, C;
    ManySteps(state, k);
    WholeRange();
    Pow2Add(k + 1, 30 - k);
    var u, v := Powers(k);
    var p := Pow2(k);
    assert Pow2(k + 1) == 2 * p && Pow2(k + 2) == 4 * p by { Doubled(k); }
    var whole := A(k) * state + C(k);
    SameDivisor(Iterate(state, p), whole, MAX_RANGE, Pow2(k + 1), Pow2(30 - k));
    BlockSum(p, u, v, state);
    SameBy(whole, state + p, Pow2(k + 1), 2 * (u * state) + v);
    SameTrans(Iterate(state, p), whole, state + p, Pow2(k + 1));
  }

  lemma Doubled(k: nat)
    ensures Pow2(k + 1) == 2 * Pow2(k) && Pow2(k + 2) == 4 * Pow2(k)
  {
  }

  lemma BlockSum(p: int, u: int, v: int, x: int)
    ensures (1 + 4 * p * u) * x + p * (2 * v + 1) - (x + p) == 2 * p * (2 * (u * x) + v)
  {
    assert (1 + 4 * p * u) * x == x + 4 * p * (u * x) by { assert 4 * p * u * x == 4 * p * (u * x); }
    assert p * (2 * v + 1) == 2 * (p * v) + p;
    assert 2 * p * (2 * (u * x) + v) == 4 * p * (u * x) + 2 * (p * v);
  }

  lemma {:induction false} Blocks(state: nat, k: nat, m: nat)
    requires k <= 30
    ensures Same(Iterate(state, Pow2(k) * m), state + Pow2(k) * m, Pow2(k + 1))
    decreases m
  {
    hide Iterate, Same, Pow2;
    var p := Pow2(k);
    if m == 0 {
      NotIterated(state);
      SameBy(state, state, Pow2(k + 1), 0);
    } else {
      var done := p * (m - 1);
      assert p * m == done + p;
      Blocks(state, k, m - 1);
      NextBlock(state, k, done);
    }
  }

  lemma NextBlock(state: nat, k: nat, done: nat)
    requires k <= 30 && Same(Iterate(state, done), state + done, Pow2(k + 1))
    ensures Same(Iterate(state, done + Pow2(k)), state + done + Pow2(k), Pow2(k + 1))
  {
    hide Iterate, Same, Pow2;
    var p, before := Pow2(k), Iterate(state, done);
    IterateAdd(state, done, p);
    BlockStep(before, k);
    SameAffine(before, state + done, Pow2(k + 1), 1, p);
    SameTrans(Iterate(before, p), before + p, state + done + p, Pow2(k + 1));
  }

  lemma NotIterated(state: nat)
    ensures Iterate(state, 0) == state
  {
  }

  lemma {:induction false} OddPart(d: nat) returns (k: nat, m: nat)
    requires d > 0
    ensures d == Pow2(k) * m && m % 2 == 1
    decreases d
  {
    if d % 2 == 1 {
      k, m := 0, d;
    } else {
      k, m := OddPart(d / 2);
      assert Pow2(k + 1) * m == 2 * (Pow2(k) * m);
      k := k + 1;
    }
  }

  lemma Pow2Grows(n: nat, k: nat)
    requires n <= k
    ensures Pow2(n) <= Pow2(k)
  {
    Pow2Add(n, k - n);
    Positive(k - n);
    AtLeast(Pow2(n), Pow2(k - n));
  }

  lemma AtLeast(a: nat, b: nat)
    requires b >= 1
    ensures a * b >= a
  {
  }

  lemma {:induction false} Positive(k: nat)
    ensures Pow2(k) >= 1
  {
    if k > 0 { Positive(k - 1); }
  }

  /** From no state does the generator come back in fewer than 2^31 steps. */
  lemma NeverSooner(state: nat, d: nat)
    requires state < MAX_RANGE && 0 < d < MAX_RANGE
    ensures Iterate(state, d) != state
  {
    hide Iterate, Pow2;
    var k, m := OddPart(d);
    WholeRange();
    AtLeast(Pow2(k), m);
    if 31 <= k { Pow2Grows(31, k); }
    Blocks(state, k, m);
    if Iterate(state, d) == state {
      var q :| state - (state + Pow2(k) * m) == Pow2(k + 1) * q;
      Doubled(k);
      Positive(k);
      OddMultiple(Pow2(k), m, q);
    }
  }

  lemma OddMultiple(p: int, m: int, q: int)
    requires p >= 1 && m % 2 == 1
    ensures -(p * m) != 2 * p * q
  {
    assert p * (m + 2 * q) == p * m + 2 * p * q;
    NotZero(p, m + 2 * q);
  }

  lemma NotZero(p: int, x: int)
    requires p >= 1 && x != 0
    ensures p * x != 0
  {
  }

  /** After 2^31 steps it is back. */
  lemma ComesBack(state: nat)
    requires state < MAX_RANGE
    ensures Iterate(state, MAX_RANGE) == state
  {
    hide Iterate, A, C, Pow2;
    WholeRange();
    ManySteps(state, 31);
    var u, v := Powers(31);
    Doubled(31);
    IterateSmall(state, MAX_RANGE);
    var p := Pow2(31);
    var whole := A(31) * state + C(31);
    BlockSum(p, u, v, state);
    var q := 2 * (2 * (u * state) + v) + 1;
    assert whole - state == p * q by { assert 2 * p * (2 * (u * state) + v) + p == p * q; }
    SameBy(whole, state, p, q);
    SameTrans(Iterate(state, p), whole, state, p);
    var r :| Iterate(state, p) - state == p * r;
    SmallMultiple(p, r);
  }

  /** The period is the whole range: from any state, 2^31 steps lead through 2^31 different states, and
      there are no more. */
  lemma FullPeriod(state: nat, i: nat, j: nat)
    requires state < MAX_RANGE && i < j < MAX_RANGE
    ensures Iterate(state, i) != Iterate(state, j)
    ensures Iterate(state, i) < MAX_RANGE && Iterate(state, j) < MAX_RANGE
    ensures Iterate(state, MAX_RANGE) == state
  {
    hide Iterate;
    IterateSmall(state, i);
    IterateSmall(state, j);
    IterateAdd(state, i, j - i);
    NeverSooner(Iterate(state, i), j - i);
    ComesBack(state);
  }
}
