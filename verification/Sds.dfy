/** The dynamic string: a buffer with a length, spare room and a terminator. */
module Sds {
  import opened Bytes

  const MAX_PREALLOC: nat := 1024 * 1024

  class SdsString {
    var len: nat
    var free: nat
    var buf: array<byte>

    ghost predicate Valid()
      reads this, buf
    {
      buf.Length == len + free + 1 && buf[len] == NUL
    }

    ghost function Contents(): bytes
      requires Valid()
      reads this, buf
    {
      buf[..len]
    }

    /** sdsnewlen. */
    constructor (init: bytes)
      ensures Valid() && fresh(buf) && Contents() == init && free == 0
    {
      len, free := |init|, 0;
      buf := new byte[|init| + 1](i requires 0 <= i <= |init| => if i < |init| then init[i] else NUL);
    }

    /** sdsMakeRoomFor: the contents stay, and the room doubles while it is small. */
    method MakeRoomFor(addlen: nat)
      requires Valid()
      modifies this
      ensures Valid() && Contents() == old(Contents()) && free >= addlen
      ensures if old(free) >= addlen then buf == old(buf) && free == old(free)
              else fresh(buf) && len + free == if len + addlen < MAX_PREALLOC then 2 * (len + addlen)
                                               else len + addlen + MAX_PREALLOC
    {
      if free >= addlen { return; }
      var newlen := len + addlen;
      if newlen < MAX_PREALLOC {
        newlen := newlen * 2;
      } else {
        newlen := newlen + MAX_PREALLOC;
      }
      var grown := new byte[newlen + 1];
      forall i | 0 <= i < buf.Length { grown[i] := buf[i]; }
      free := newlen - len;
      buf := grown;
    }

    /** sdscatlen. */
    method CatLen(t: bytes)
      requires Valid()
      modifies this, buf
      ensures Valid() && Contents() == old(Contents()) + t
      ensures buf == old(buf) || fresh(buf)
    {
      var curlen := len;
      MakeRoomFor(|t|);
      forall i | 0 <= i < |t| { buf[curlen + i] := t[i]; }
      len := curlen + |t|;
      free := free - |t|;
      buf[len] := NUL;
    }

    /** The index arithmetic of sdsrange: what is kept starts at `from` and is `newlen` long. */
    method RangeBounds(start: int, end: int) returns (from: int, newlen: int)
      requires len > 0
      ensures 0 <= newlen && newlen == KeptLen(len, start, end)
      ensures newlen > 0 ==> from == FromEnd(len, start) && from + newlen <= len
    {
      var to := end;
      from := start;
      if from < 0 {
        from := len + from;
        if from < 0 { from := 0; }
      }
      if to < 0 {
        to := len + to;
        if to < 0 { to := 0; }
      }
      newlen := if from > to then 0 else to - from + 1;
      if newlen != 0 {
        if from >= len {
          newlen := 0;
        } else if to >= len {
          to := len - 1;
          newlen := if from > to then 0 else to - from + 1;
        }
      } else {
        from := 0;
      }
    }

    /** The memmove to the front of the buffer. */
    method MoveDown(from: nat, n: nat)
      requires Valid() && 0 < n && from + n <= len
      modifies buf
      ensures buf[..n] == old(Contents())[from..from + n]
    {
      forall i | 0 <= i < n { buf[i] := buf[from + i]; }
    }

    /** sdsrange: the bytes from start to end, both included; negative positions count from the
        end of the string. */
    method Range(start: int, end: int)
      requires Valid()
      modifies this, buf
      ensures Valid() && buf == old(buf) && Contents() == Slice(old(Contents()), start, end)
    {
      if len == 0 { return; }
      var from, newlen := RangeBounds(start, end);
      ghost var was := buf[..len];
      if from != 0 && newlen != 0 {
        MoveDown(from, newlen);
      }
      assert from == 0 && newlen > 0 ==> buf[..newlen] == was[from..from + newlen];
      buf[newlen] := NUL;
      free := free + (len - newlen);
      len := newlen;
    }
  }

  function FromEnd(len: nat, i: int): nat {
    if i >= 0 then i else if len + i < 0 then 0 else len + i
  }

  function KeptLen(len: nat, start: int, end: int): (n: nat)
    ensures n > 0 ==> FromEnd(len, start) + n <= len
  {
    var from, to := FromEnd(len, start), FromEnd(len, end) + 1;
    var stop := if to > len then len else to;
    if from >= stop then 0 else stop - from
  }

  /** What sdsrange keeps of a string. */
  function Slice(s: bytes, start: int, end: int): bytes {
    var n := KeptLen(|s|, start, end);
    if n == 0 then [] else s[FromEnd(|s|, start)..FromEnd(|s|, start) + n]
  }

  /** Which bytes a range keeps: both ends are included, and a range that is empty or starts behind the
      string keeps nothing. */
  lemma RangeMeaning(s: bytes, a: nat, b: nat)
    ensures a <= b < |s| ==> Slice(s, a, b) == s[a..b + 1]
    ensures a > b || a >= |s| ==> Slice(s, a, b) == []
  {
  }

  /** Negative positions count from the end and stop at the beginning, and an end behind the string is
      its last byte. */
  lemma RangePositions(s: bytes, a: int, b: int)
    requires s != []
    ensures b >= |s| ==> Slice(s, a, b) == Slice(s, a, |s| - 1)
    ensures a < 0 ==> Slice(s, a, b) == Slice(s, if a < -|s| then 0 else |s| + a, b)
    ensures b < 0 ==> Slice(s, a, b) == Slice(s, a, if b < -|s| then 0 else |s| + b)
  {
  }

  /** The two uses in the reader and the writer: dropping what was consumed. */
  lemma DropConsumed(s: bytes, pos: nat)
    requires pos <= |s|
    ensures Slice(s, pos, -1) == s[pos..]
  {
  }
}
