/** What the reader makes of bytes that no server should send: type bytes it does not know, and number
    lines of any form. */
module Malformed {
  import opened Bytes
  import opened Resp
  import opened ReaderMachine

  // ------------------------------------------------------------------ type bytes

  /** The bytes of "-+:$*". */
  const TYPE_BYTES: bytes := [45, 43, 58, 36, 42]

  lemma TypeBytes(b: byte)
    ensures KindOf(b).Some? <==> b in TYPE_BYTES
    ensures KindOf(b) == Some(ArrayKind) <==> b == 42
  {
  }

  /** Where a reply should begin, any other byte is a protocol error, whatever arrays are open and
      whatever follows. */
  lemma UnknownTypeFails(frames: seq<Frame>, b: byte, rest: bytes)
    requires Config(frames, Untyped, [b] + rest).Valid() && b !in TYPE_BYTES
    ensures Run(Config(frames, Untyped, [b] + rest)) == Failed
  {
    TypeBytes(b);
  }

  /** And only such a byte is: the reader waits behind a known one, unless it opens a ninth array. */
  lemma TypeByteExact(frames: seq<Frame>, b: byte)
    requires Config(frames, Untyped, [b]).Valid()
    ensures Run(Config(frames, Untyped, [b])) == Failed <==> b !in TYPE_BYTES || (b == 42 && |frames| == MAX_DEPTH)
  {
    TypeBytes(b);
    if KindOf(b).Some? {
      assert [b][1..] == [];
      assert FindCrlf([]) == None;
    }
  }

  /** Every complete reply before such a byte is handed out, and the reader is dead from then on. */
  lemma BrokenStream(rs: seq<Reply>, b: byte, rest: bytes)
    requires forall i | 0 <= i < |rs| :: WellFormed(rs[i]) && Depth(rs[i]) <= MAX_DEPTH
    requires b !in TYPE_BYTES
    ensures Drain(Fresh(EncodeAll(rs) + ([b] + rest))) == Drained(rs, Dead)
  {
    hide Run;
    UnknownTypeFails([], b, rest);
    DrainEncodeAll(rs, [b] + rest);
    assert rs + [] == rs;
  }

  /** So it is when the stream comes in pieces. */
  lemma BrokenChunks(rs: seq<Reply>, b: byte, rest: bytes, chunks: seq<bytes>)
    requires forall i | 0 <= i < |rs| :: WellFormed(rs[i]) && Depth(rs[i]) <= MAX_DEPTH
    requires b !in TYPE_BYTES && Concat(chunks) == EncodeAll(rs) + ([b] + rest)
    ensures FeedChunks(Live(Fresh([])), chunks) == Drained(rs, Dead)
  {
    ChunkingIrrelevant(chunks);
    BrokenStream(rs, b, rest);
  }

  // ------------------------------------------------------------------ nested arrays

  /** Arrays of one element, one inside the other, around a nil. */
  function Nested(levels: nat): Reply {
    if levels == 0 then Nil else Array([Nested(levels - 1)])
  }

  lemma {:induction false} NestedDepth(levels: nat)
    ensures WellFormed(Nested(levels)) && Depth(Nested(levels)) == levels
  {
    hide WellFormed, Depth, DepthAll;
    if levels == 0 {
      NilDepth();
    } else {
      NestedDepth(levels - 1);
      OneElement(Nested(levels - 1));
    }
  }

  lemma NilDepth()
    ensures WellFormed(Nil) && Depth(Nil) == 0
  {
  }

  lemma OneElement(r: Reply)
    requires WellFormed(r)
    ensures WellFormed(Array([r])) && Depth(Array([r])) == Depth(r) + 1
  {
    assert [r][1..] == [];
    assert DepthAll([r]) == Depth(r);
  }

  /** Eight levels of arrays are read, nine are a protocol error. */
  lemma EightLevels(levels: nat, tail: bytes)
    ensures Run(Fresh(Encode(Nested(levels)) + tail)) == if levels <= 8 then Got(Nested(levels), tail) else Failed
  {
    hide Run, Encode, Nested;
    NestedDepth(levels);
    RunEncode(Nested(levels), tail);
  }

  // ----------------------------------------------------------------- number lines

  predicate AllDigits(s: bytes) {
    forall i | 0 <= i < |s| :: IsDigit(s[i])
  }

  /** The value of digits, most significant first; none at all are zero. */
  function Value(s: bytes): nat
    requires AllDigits(s)
  {
    if s == [] then 0 else 10 * Value(s[..|s| - 1]) + (s[|s| - 1] - ZERO)
  }

  lemma {:induction false} DigitRunValue(done: bytes, s: bytes, tail: bytes)
    requires AllDigits(done + s)
    ensures AllDigits(done)
    ensures CR in s + ([CR] + tail) && DigitRun(s + ([CR] + tail), Value(done)) == Some(Value(done + s))
    decreases |s|
  {
    var line := s + ([CR] + tail);
    assert line[|s|] == CR;
    assert done == (done + s)[..|done|];
    if s == [] {
      assert line == [CR] + tail && done + s == done;
    } else {
      assert (done + s)[|done|] == s[0];
      var more := done + [s[0]];
      assert more + s[1..] == done + s;
      assert more[..|more| - 1] == done;
      assert line[1..] == s[1..] + ([CR] + tail);
      DigitRunValue(more, s[1..], tail);
    }
  }

  /** A number line is an optional sign and digits, with any leading zeros or none at all. */
  lemma NumberValue(sign: bytes, digits: bytes, tail: bytes)
    requires (sign == [] || sign == [45] || sign == [43]) && AllDigits(digits)
    ensures var s := sign + digits + ([CR] + tail);
            CR in s && ReadNumber(s) == (if sign == [45] then -1 else 1) * Value(digits)
  {
    hide DigitRun, Value;
    var line := digits + ([CR] + tail);
    assert [] + digits == digits;
    DigitRunValue([], digits, tail);
    NothingValue();
    SignedLine(sign, line);
    assert sign + digits + ([CR] + tail) == sign + line;
    assert line[0] == if digits == [] then CR else digits[0];
  }

  lemma NothingValue()
    ensures Value([]) == 0
  {
  }

  /** The sign is taken off, and the digits are read. */
  lemma SignedLine(sign: bytes, line: bytes)
    requires (sign == [] || sign == [45] || sign == [43]) && CR in line
    requires sign == [] ==> line[0] != 45 && line[0] != 43
    ensures CR in sign + line
    ensures var run := DigitRun(line, 0);
            ReadNumber(sign + line) == if run.None? then -1 else (if sign == [45] then -1 else 1) * run.value
  {
    hide DigitRun;
    var s := sign + line;
    assert forall x | x in line :: x in s;
    if sign != [] { assert s[0] == sign[0] && s[1..] == line; } else { assert s == line; }
  }

  lemma {:induction false} DigitRunStops(s: bytes, c: byte, tail: bytes, v: int)
    requires AllDigits(s) && !IsDigit(c) && c != CR && CR in tail
    ensures CR in s + ([c] + tail) && DigitRun(s + ([c] + tail), v) == None
  {
    var line := s + ([c] + tail);
    assert forall x | x in tail :: x in line;
    if s == [] {
      assert line == [c] + tail;
    } else {
      assert line[0] == s[0] && line[1..] == s[1..] + ([c] + tail);
      DigitRunStops(s[1..], c, tail, v * 10 + (s[0] - ZERO));
    }
  }

  /** With anything else in it the line reads as -1. */
  lemma NumberUnreadable(sign: bytes, digits: bytes, c: byte, tail: bytes)
    requires (sign == [] || sign == [45] || sign == [43]) && AllDigits(digits)
    requires !IsDigit(c) && c != CR && CR in tail && (sign == [] && digits == [] ==> c != 45 && c != 43)
    ensures var s := sign + digits + ([c] + tail); CR in s && ReadNumber(s) == -1
  {
    hide DigitRun;
    var line := digits + ([c] + tail);
    DigitRunStops(digits, c, tail, 0);
    SignedLine(sign, line);
    assert sign + digits + ([c] + tail) == sign + line;
    assert line[0] == if digits == [] then c else digits[0];
  }

  /** A negative length of a string is nil whatever the number. */
  lemma NegativeLength(v: int, depth: nat, tail: bytes)
    requires v < 0 && depth <= MAX_DEPTH
    ensures Decode(Line(DOLLAR, SignedDecimal(v)) + tail, depth) == Done(Nil, tail)
  {
    hide Decode, ReadItem, SignedDecimal;
    var d := SignedDecimal(v) + CRLF;
    ReadItemNumber(StrKind, v, tail);
    assert Line(DOLLAR, SignedDecimal(v)) + tail == [DOLLAR] + d + tail;
    DecodeWhole(DOLLAR, StrKind, d, Nil, tail, depth);
  }

  /** A negative count of an array is nil only if it is -1; a smaller one gives an array object without
      elements. */
  lemma NegativeCount(v: int, depth: nat, tail: bytes)
    requires v < 0 && depth < MAX_DEPTH
    ensures Decode(Line(STAR, SignedDecimal(v)) + tail, depth) == Done(if v == -1 then Nil else Hollow(v), tail)
  {
    hide ReadItem, SignedDecimal;
    var d := SignedDecimal(v) + CRLF;
    ReadItemNumber(ArrayKind, v, tail);
    var s := Line(STAR, SignedDecimal(v)) + tail;
    assert s == [STAR] + d + tail && s[1..] == d + tail && s[1..][|d|..] == tail;
    StarDecodes(s, depth);
  }

  lemma StarDecodes(s: bytes, depth: nat)
    requires depth < MAX_DEPTH && s != [] && s[0] == STAR && ReadItem(ArrayKind, s[1..]).Whole?
    ensures var item := ReadItem(ArrayKind, s[1..]); Decode(s, depth) == Done(item.reply, s[1..][item.size..])
  {
    hide ReadItem;
  }
}
