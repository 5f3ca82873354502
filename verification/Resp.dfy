/** The reply format: what one item of the wire means, the recursive decoder that the
    reader must agree with, and the encoder whose output it must invert. */
module Resp {
  import opened Bytes

  /** Mirrors redisReply. `Hollow` is the array object that a count below -1 creates:
      it has no element vector. */
  datatype Reply =
    | Status(text: bytes)
    | Error(text: bytes)
    | Integer(value: int)
    | Str(text: bytes)
    | Nil
    | Array(elements: seq<Reply>)
    | Hollow(count: int)

  /** The type field of a read task; `Untyped` is the value -1. */
  datatype Kind = Untyped | StatusKind | ErrorKind | IntegerKind | StrKind | ArrayKind

  const MAX_DEPTH: nat := 8

  // ---------------------------------------------------------------- scanning

  predicate CrlfAt(s: bytes, i: nat) {
    i + 1 < |s| && s[i] == CR && s[i + 1] == LF
  }

  /** Where the first CR LF pair starts. */
  function FindCrlf(s: bytes): (r: Option<nat>)
    ensures r.Some? ==> CrlfAt(s, r.value) && forall i | 0 <= i < r.value :: !CrlfAt(s, i)
    ensures r.None? ==> forall i: nat :: !CrlfAt(s, i)
  {
    if |s| < 2 then None
    else if s[0] == CR && s[1] == LF then Some(0)
    else
      assert forall i: nat | 0 < i :: CrlfAt(s, i) <==> CrlfAt(s[1..], i - 1);
      match FindCrlf(s[1..])
      case None => None
      case Some(i) => Some(i + 1)
  }

  lemma FirstCrlf(s: bytes, i: nat)
    requires CrlfAt(s, i) && forall j | 0 <= j < i :: !CrlfAt(s, j)
    ensures FindCrlf(s) == Some(i)
  {
  }

  /** A pair found early stays the first one when more bytes arrive. */
  lemma FindCrlfExtend(s: bytes, more: bytes)
    requires FindCrlf(s).Some?
    ensures FindCrlf(s + more) == FindCrlf(s)
  {
    var i := FindCrlf(s).value;
    assert forall j | 0 <= j <= i :: CrlfAt(s + more, j) <==> CrlfAt(s, j);
    FirstCrlf(s + more, i);
  }

  /** The digit loop of readLongLong: stops at the first CR, gives None at any byte that is not a digit. */
  function DigitRun(s: bytes, v: int): Option<int>
    requires CR in s
  {
    if s[0] == CR then Some(v)
    else if IsDigit(s[0]) then DigitRun(s[1..], v * 10 + (s[0] - ZERO))
    else None
  }

  /** readLongLong: an optional sign, then digits up to CR; -1 for anything else. */
  function ReadNumber(s: bytes): int
    requires CR in s
  {
    var signed := s[0] == MINUS || s[0] == PLUS;
    var mult := if s[0] == MINUS then -1 else 1;
    match DigitRun(if signed then s[1..] else s, 0)
    case Some(v) => mult * v
    case None => -1
  }

  lemma {:induction false} DigitRunExtend(s: bytes, v: int, more: bytes)
    requires CR in s
    ensures DigitRun(s + more, v) == DigitRun(s, v)
  {
    if s[0] != CR && IsDigit(s[0]) {
      assert (s + more)[1..] == s[1..] + more;
      DigitRunExtend(s[1..], v * 10 + (s[0] - ZERO), more);
    }
  }

  lemma ReadNumberExtend(s: bytes, more: bytes)
    requires CR in s
    ensures ReadNumber(s + more) == ReadNumber(s)
  {
    var signed := s[0] == MINUS || s[0] == PLUS;
    var t := if signed then s[1..] else s;
    assert (s + more)[1..] == s[1..] + more;
    DigitRunExtend(t, 0, more);
  }

  lemma RunDigit(d: byte, s: bytes, v: int)
    requires CR in s && IsDigit(d)
    ensures DigitRun([d] + s, v) == DigitRun(s, v * 10 + (d - ZERO))
  {
    assert ([d] + s)[1..] == s;
  }

  /** Reading a numeral leaves its value in the accumulator. */
  lemma {:induction false} DigitRunDecimal(n: nat, s: bytes)
    requires CR in s
    ensures CR in Decimal(n) + s && DigitRun(Decimal(n) + s, 0) == DigitRun(s, n)
  {
    hide DigitRun;
    if n < 10 {
      RunDigit(ZERO + n, s, 0);
    } else {
      var d := ZERO + n % 10;
      assert Decimal(n) + s == Decimal(n / 10) + ([d] + s);
      assert CR in [d] + s;
      DigitRunDecimal(n / 10, [d] + s);
      RunDigit(d, s, n / 10);
    }
  }

  lemma RunStops(s: bytes, v: int)
    requires s != [] && s[0] == CR
    ensures DigitRun(s, v) == Some(v)
  {
  }

  /** Decimal printing and reading agree. */
  lemma ReadNumberDecimal(v: int, s: bytes)
    requires s != [] && s[0] == CR
    ensures CR in SignedDecimal(v) + s && ReadNumber(SignedDecimal(v) + s) == v
  {
    hide Decimal, DigitRun;
    var w := SignedDecimal(v) + s;
    assert w[|SignedDecimal(v)|] == CR;
    RunStops(s, if v < 0 then -v else v);
    if v < 0 {
      assert w[1..] == Decimal(-v) + s;
      DigitRunDecimal(-v, s);
    } else {
      assert w[0] == Decimal(v)[0];
      DigitRunDecimal(v, s);
    }
  }

  // ---------------------------------------------------------------- one item

  function KindOf(c: byte): Option<Kind> {
    if c == MINUS then Some(ErrorKind)
    else if c == PLUS then Some(StatusKind)
    else if c == COLON then Some(IntegerKind)
    else if c == DOLLAR then Some(StrKind)
    else if c == STAR then Some(ArrayKind)
    else None
  }

  /** What the bytes after a type byte hold: a whole value, the header of an array
      that still needs its elements, or not enough yet. */
  datatype Item = Whole(reply: Reply, size: nat) | Header(count: nat, size: nat) | Short

  function ReadItem(kind: Kind, s: bytes): (item: Item)
    requires kind != Untyped
    ensures item.Whole? ==> 2 <= item.size <= |s|
    ensures item.Header? ==> 2 <= item.size <= |s| && item.count > 0 && kind == ArrayKind
  {
    match FindCrlf(s)
    case None => Short
    case Some(e) =>
      match kind
      case StatusKind => Whole(Status(s[..e]), e + 2)
      case ErrorKind => Whole(Error(s[..e]), e + 2)
      case IntegerKind => Whole(Integer(ReadNumber(s)), e + 2)
      case StrKind =>
        var n := ReadNumber(s);
        if n < 0 then Whole(Nil, e + 2)
        else if e + 2 + n + 2 <= |s| then Whole(Str(s[e + 2..e + 2 + n]), e + 2 + n + 2)
        else Short
      case ArrayKind =>
        var n := ReadNumber(s);
        if n == -1 then Whole(Nil, e + 2)
        else if n > 0 then Header(n, e + 2)
        else if n == 0 then Whole(Array([]), e + 2)
        else Whole(Hollow(n), e + 2)
  }

  /** An item that could be read is read the same when more bytes follow it. */
  lemma ReadItemExtend(kind: Kind, s: bytes, more: bytes)
    requires kind != Untyped && !ReadItem(kind, s).Short?
    ensures ReadItem(kind, s + more) == ReadItem(kind, s)
  {
    FindCrlfExtend(s, more);
    var e := FindCrlf(s).value;
    assert (s + more)[..e] == s[..e];
    ReadNumberExtend(s, more);
    var n := ReadNumber(s);
    if kind == StrKind && n >= 0 {
      assert (s + more)[e + 2..e + 2 + n] == s[e + 2..e + 2 + n];
    }
  }

  // ---------------------------------------------------------------- decoder

  datatype Outcome = Done(reply: Reply, rest: bytes) | More | Broken

  /** The simple recursive reading of one reply inside `depth` arrays. */
  function Decode(s: bytes, depth: nat): (o: Outcome)
    requires depth <= MAX_DEPTH
    ensures o.Done? ==> |o.rest| < |s|
    decreases |s|, 0
  {
    if s == [] then More
    else
      match KindOf(s[0])
      case None => Broken
      case Some(kind) =>
        if kind == ArrayKind && depth == MAX_DEPTH then Broken
        else
          match ReadItem(kind, s[1..])
          case Short => More
          case Whole(r, n) => Done(r, s[1..][n..])
          case Header(count, n) => DecodeElements(count, s[1..][n..], depth + 1, [])
  }

  function DecodeElements(n: nat, s: bytes, depth: nat, acc: seq<Reply>): (o: Outcome)
    requires depth <= MAX_DEPTH
    ensures o.Done? ==> |o.rest| <= |s|
    decreases |s|, 1
  {
    if n == 0 then Done(Array(acc), s)
    else
      match Decode(s, depth)
      case Done(r, rest) => DecodeElements(n - 1, rest, depth, acc + [r])
      case More => More
      case Broken => Broken
  }

  // ---------------------------------------------------------------- encoder

  function Line(tag: byte, body: bytes): bytes {
    [tag] + body + CRLF
  }

  function Encode(r: Reply): bytes {
    match r
    case Status(t) => Line(PLUS, t)
    case Error(t) => Line(MINUS, t)
    case Integer(v) => Line(COLON, SignedDecimal(v))
    case Str(t) => Line(DOLLAR, Decimal(|t|)) + t + CRLF
    case Nil => Line(DOLLAR, SignedDecimal(-1))
    case Array(es) => Line(STAR, Decimal(|es|)) + EncodeAll(es)
    case Hollow(n) => Line(STAR, SignedDecimal(n))
  }

  function EncodeAll(rs: seq<Reply>): bytes {
    if rs == [] then [] else Encode(rs[0]) + EncodeAll(rs[1..])
  }

  lemma {:induction false} EncodeAllPush(rs: seq<Reply>, r: Reply)
    ensures EncodeAll(rs + [r]) == EncodeAll(rs) + Encode(r)
  {
    if rs == [] {
      assert [r][1..] == [] && EncodeAll([r]) == Encode(r) + [];
    } else {
      assert (rs + [r])[1..] == rs[1..] + [r];
      EncodeAllPush(rs[1..], r);
    }
  }

  lemma {:induction false} EncodeAllAppend(a: seq<Reply>, b: seq<Reply>)
    ensures EncodeAll(a + b) == EncodeAll(a) + EncodeAll(b)
  {
    hide Encode;
    if a == [] {
      assert a + b == b;
    } else {
      assert (a + b)[1..] == a[1..] + b;
      EncodeAllAppend(a[1..], b);
    }
  }

  /** Texts on a line of their own hold no CR LF; arrays have a real count. */
  predicate WellFormed(r: Reply) {
    match r
    case Status(t) => FindCrlf(t).None?
    case Error(t) => FindCrlf(t).None?
    case Array(es) => forall i :: 0 <= i < |es| ==> WellFormed(es[i])
    case Hollow(_) => false
    case _ => true
  }

  /** How many arrays lie around the innermost array of r. */
  function Depth(r: Reply): nat {
    match r
    case Array(es) => 1 + DepthAll(es)
    case _ => 0
  }

  function DepthAll(rs: seq<Reply>): nat {
    if rs == [] then 0
    else var d := Depth(rs[0]); var e := DepthAll(rs[1..]); if d < e then e else d
  }

  lemma FindCrlfLine(body: bytes, tail: bytes)
    requires FindCrlf(body).None?
    ensures FindCrlf(body + CRLF + tail) == Some(|body|)
  {
    var s := body + CRLF + tail;
    forall j | 0 <= j < |body| ensures !CrlfAt(s, j) {
      assert !CrlfAt(body, j);
    }
    FirstCrlf(s, |body|);
  }

  /** A numeral line is read as its number, and its CR LF is the first. */
  lemma NumberLine(v: int, tail: bytes)
    ensures var s := SignedDecimal(v) + CRLF + tail;
            FindCrlf(s) == Some(|SignedDecimal(v)|) && CR in s && ReadNumber(s) == v
  {
    var d := SignedDecimal(v);
    assert forall i | 0 <= i < |d| :: d[i] != CR;
    FindCrlfLine(d, tail);
    assert d + CRLF + tail == d + (CRLF + tail);
    ReadNumberDecimal(v, CRLF + tail);
  }

  lemma ReadItemNumber(kind: Kind, v: int, tail: bytes)
    requires kind == IntegerKind || kind == ArrayKind || (kind == StrKind && v < 0)
    ensures var n := |SignedDecimal(v)| + 2;
            ReadItem(kind, SignedDecimal(v) + CRLF + tail) ==
              if kind == IntegerKind then Whole(Integer(v), n)
              else if kind == StrKind || v == -1 then Whole(Nil, n)
              else if v > 0 then Header(v, n)
              else if v == 0 then Whole(Array([]), n)
              else Whole(Hollow(v), n)
  {
    NumberLine(v, tail);
  }

  lemma ReadItemText(kind: Kind, t: bytes, tail: bytes)
    requires kind == StatusKind || kind == ErrorKind
    requires FindCrlf(t).None?
    ensures ReadItem(kind, t + CRLF + tail) ==
              Whole(if kind == StatusKind then Status(t) else Error(t), |t| + 2)
  {
    FindCrlfLine(t, tail);
    assert (t + CRLF + tail)[..|t|] == t;
  }

  lemma Unsigned(n: nat)
    ensures SignedDecimal(n) == Decimal(n)
  {
  }

  lemma ReadItemStr(t: bytes, tail: bytes)
    ensures var head := Decimal(|t|) + CRLF;
            ReadItem(StrKind, head + t + CRLF + tail) == Whole(Str(t), |head| + |t| + 2)
  {
    hide FindCrlf, Decimal, SignedDecimal, ReadNumber;
    var head := Decimal(|t|) + CRLF;
    var s := head + t + CRLF + tail;
    NumberLine(|t|, t + CRLF + tail);
    assert SignedDecimal(|t|) == Decimal(|t|) by { Unsigned(|t|); }
    assert s == SignedDecimal(|t|) + CRLF + (t + CRLF + tail);
    assert s[|head|..|head| + |t|] == t;
  }

  lemma DecodeWhole(tag: byte, kind: Kind, body: bytes, r: Reply, tail: bytes, depth: nat)
    requires depth <= MAX_DEPTH && KindOf(tag) == Some(kind) && kind != ArrayKind
    requires ReadItem(kind, body + tail) == Whole(r, |body|)
    ensures Decode([tag] + body + tail, depth) == Done(r, tail)
  {
    var s := [tag] + body + tail;
    assert s[1..] == body + tail;
    assert s[1..][|body|..] == tail;
  }

  lemma DecodeEncodeLeaf(r: Reply, depth: nat, tail: bytes)
    requires WellFormed(r) && depth <= MAX_DEPTH && !r.Array?
    ensures Decode(Encode(r) + tail, depth) == Done(r, tail)
  {
    hide Decode, ReadItem, FindCrlf, Decimal, SignedDecimal;
    match r {
      case Status(t) =>
        ReadItemText(StatusKind, t, tail);
        assert Encode(r) + tail == [PLUS] + (t + CRLF) + tail;
        DecodeWhole(PLUS, StatusKind, t + CRLF, r, tail, depth);
      case Error(t) =>
        ReadItemText(ErrorKind, t, tail);
        assert Encode(r) + tail == [MINUS] + (t + CRLF) + tail;
        DecodeWhole(MINUS, ErrorKind, t + CRLF, r, tail, depth);
      case Integer(v) =>
        ReadItemNumber(IntegerKind, v, tail);
        assert Encode(r) + tail == [COLON] + (SignedDecimal(v) + CRLF) + tail;
        DecodeWhole(COLON, IntegerKind, SignedDecimal(v) + CRLF, r, tail, depth);
      case Str(t) =>
        ReadItemStr(t, tail);
        var body := Decimal(|t|) + CRLF + t + CRLF;
        assert Encode(r) + tail == [DOLLAR] + body + tail;
        DecodeWhole(DOLLAR, StrKind, body, r, tail, depth);
      case Nil =>
        ReadItemNumber(StrKind, -1, tail);
        assert Encode(r) + tail == [DOLLAR] + (SignedDecimal(-1) + CRLF) + tail;
        DecodeWhole(DOLLAR, StrKind, SignedDecimal(-1) + CRLF, r, tail, depth);
    }
  }

  lemma DecodeHeader(n: nat, depth: nat, tail: bytes)
    requires depth <= MAX_DEPTH
    ensures Decode(Line(STAR, Decimal(n)) + tail, depth) ==
            if depth < MAX_DEPTH then DecodeElements(n, tail, depth + 1, []) else Broken
  {
    var d := SignedDecimal(n);
    var s := Line(STAR, Decimal(n)) + tail;
    assert s[1..] == d + CRLF + tail;
    ReadItemNumber(ArrayKind, n, tail);
    assert s[1..][|d| + 2..] == tail;
  }

  /** Decoding inverts encoding exactly when the array nesting fits in the task stack;
      one level more is a protocol error. */
  lemma {:induction false} DecodeEncode(r: Reply, depth: nat, tail: bytes)
    requires WellFormed(r) && depth <= MAX_DEPTH
    ensures Decode(Encode(r) + tail, depth) ==
            if depth + Depth(r) <= MAX_DEPTH then Done(r, tail) else Broken
    decreases r, 0
  {
    hide Decode, DecodeElements, Decimal;
    if r.Array? {
      var es := r.elements;
      var body := EncodeAll(es) + tail;
      assert Encode(r) + tail == Line(STAR, Decimal(|es|)) + body by {
        assert Encode(r) == Line(STAR, Decimal(|es|)) + EncodeAll(es);
      }
      DecodeHeader(|es|, depth, body);
      if depth < MAX_DEPTH {
        DecodeEncodeAll(es, depth + 1, [], tail);
        assert [] + es == es;
      }
    } else {
      DecodeEncodeLeaf(r, depth, tail);
    }
  }

  lemma {:induction false} DecodeEncodeAll(rs: seq<Reply>, depth: nat, acc: seq<Reply>, tail: bytes)
    requires forall i :: 0 <= i < |rs| ==> WellFormed(rs[i])
    requires depth <= MAX_DEPTH
    ensures DecodeElements(|rs|, EncodeAll(rs) + tail, depth, acc) ==
            if depth + DepthAll(rs) <= MAX_DEPTH then Done(Array(acc + rs), tail) else Broken
    decreases rs, 1
  {
    hide Encode, WellFormed, Depth;
    if rs == [] {
      assert EncodeAll(rs) + tail == tail;
      assert acc + rs == acc;
    } else {
      var rest := EncodeAll(rs[1..]) + tail;
      assert EncodeAll(rs) + tail == Encode(rs[0]) + rest;
      DecodeEncode(rs[0], depth, rest);
      DecodeEncodeAll(rs[1..], depth, acc + [rs[0]], tail);
      assert acc + [rs[0]] + rs[1..] == acc + rs;
    }
  }
}
