/** Text functions of the string library: quoted printing and argument splitting, splitting and
    joining on a separator, and decimal printing. */
module SdsText {
  import opened Bytes

  const QUOTE: byte := 34
  const APOSTROPHE: byte := 39
  const BACKSLASH: byte := 92
  const LETTER_X: byte := 120

  // ------------------------------------------------------------ quoted printing

  predicate IsPrint(c: byte) {
    32 <= c <= 126
  }

  function HexDigit(n: nat): byte
    requires n < 16
  {
    if n < 10 then ZERO + n else 97 + (n - 10)
  }

  predicate IsHexDigit(c: byte) {
    IsDigit(c) || 97 <= c <= 102 || 65 <= c <= 70
  }

  function HexValue(c: byte): (n: nat)
    ensures n < 16
  {
    if IsDigit(c) then c - ZERO
    else if 97 <= c <= 102 then c - 97 + 10
    else if 65 <= c <= 70 then c - 65 + 10
    else 0
  }

  /** How sdscatrepr writes one byte. */
  function ReprByte(c: byte): bytes {
    if c == BACKSLASH || c == QUOTE then [BACKSLASH, c]
    else if c == 10 then [BACKSLASH, 110]
    else if c == 13 then [BACKSLASH, 114]
    else if c == 9 then [BACKSLASH, 116]
    else if c == 7 then [BACKSLASH, 97]
    else if c == 8 then [BACKSLASH, 98]
    else if IsPrint(c) then [c]
    else [BACKSLASH, LETTER_X, HexDigit(c / 16), HexDigit(c % 16)]
  }

  /** The printed form of a byte holds printable characters only. A printable byte is printed as it is, a
      quote or a backslash behind a backslash, the five named control characters as their letter, and
      every other byte as two lower-case hexadecimal digits. */
  lemma ReprForm(c: byte)
    ensures forall i | 0 <= i < |ReprByte(c)| :: 32 <= ReprByte(c)[i] <= 126
    ensures 32 <= c <= 126 && c != 34 && c != 92 ==> ReprByte(c) == [c]
    ensures c == 34 || c == 92 ==> ReprByte(c) == [92, c]
    ensures c in [7, 8, 9, 10, 13] ==>
            ReprByte(c) == [92, if c == 7 then 97 else if c == 8 then 98 else if c == 9 then 116
                                else if c == 10 then 110 else 114]
    ensures c !in [7, 8, 9, 10, 13] && !(32 <= c <= 126) ==>
            var r := ReprByte(c);
            && |r| == 4 && r[..2] == [92, 120] && !(65 <= r[2] <= 70) && !(65 <= r[3] <= 70)
            && HexValue(r[2]) * 16 + HexValue(r[3]) == c
  {
  }

  function ReprBody(s: bytes): bytes {
    if s == [] then [] else ReprByte(s[0]) + ReprBody(s[1..])
  }

  function Repr(s: bytes): bytes {
    [QUOTE] + ReprBody(s) + [QUOTE]
  }

  lemma {:induction false} ReprBodyPush(s: bytes, c: byte)
    ensures ReprBody(s + [c]) == ReprBody(s) + ReprByte(c)
  {
    if s == [] {
      assert [c][1..] == [];
    } else {
      assert (s + [c])[1..] == s[1..] + [c];
      ReprBodyPush(s[1..], c);
    }
  }

  lemma EmptyBody()
    ensures ReprBody([]) == []
  {
  }

  /** sdscatrepr. */
  method CatRepr(s: bytes, p: bytes) returns (r: bytes)
    ensures r == s + Repr(p)
  {
    hide ReprBody;
    r := s + [QUOTE];
    var i := 0;
    EmptyBody();
    assert p[..i] == [] && r == s + ([QUOTE] + []);
    while i < |p|
      invariant 0 <= i <= |p| && r == s + ([QUOTE] + ReprBody(p[..i]))
    {
      assert p[..i + 1] == p[..i] + [p[i]];
      ReprBodyPush(p[..i], p[i]);
      if p[i] == BACKSLASH || p[i] == QUOTE {
        r := r + [BACKSLASH, p[i]];
      } else if p[i] == 10 {
        r := r + [BACKSLASH, 110];
      } else if p[i] == 13 {
        r := r + [BACKSLASH, 114];
      } else if p[i] == 9 {
        r := r + [BACKSLASH, 116];
      } else if p[i] == 7 {
        r := r + [BACKSLASH, 97];
      } else if p[i] == 8 {
        r := r + [BACKSLASH, 98];
      } else if IsPrint(p[i]) {
        r := r + [p[i]];
      } else {
        r := r + [BACKSLASH, LETTER_X, HexDigit(p[i] / 16), HexDigit(p[i] % 16)];
      }
      i := i + 1;
    }
    assert p[..i] == p;
    r := r + [QUOTE];
  }

  // ---------------------------------------------------------- argument splitting

  /** The flags inq and insq. */
  datatype Mode = Bare | Double | Single

  function Unescape(c: byte): byte {
    if c == 110 then 10
    else if c == 114 then 13
    else if c == 116 then 9
    else if c == 98 then 8
    else if c == 97 then 7
    else c
  }

  predicate EndsPlain(c: byte) {
    c == 32 || c == 10 || c == 13 || c == 9
  }

  datatype Token = Token(text: bytes, rest: bytes)

  /** The inner loop of sdssplitargs from p on, with the token so far; None is the error exit. */
  function ReadToken(p: bytes, cur: bytes, mode: Mode): (t: Option<Token>)
    ensures t.Some? ==> |t.value.rest| <= |p| && (p != [] ==> |t.value.rest| < |p|)
    decreases |p|
  {
    match mode
    case Double =>
      if |p| >= 4 && p[0] == BACKSLASH && p[1] == LETTER_X && IsHexDigit(p[2]) && IsHexDigit(p[3]) then
        ReadToken(p[4..], cur + [HexValue(p[2]) * 16 + HexValue(p[3])], Double)
      else if |p| >= 2 && p[0] == BACKSLASH then ReadToken(p[2..], cur + [Unescape(p[1])], Double)
      else if p != [] && p[0] == QUOTE then
        if |p| > 1 && !IsSpace(p[1]) then None else Some(Token(cur, p[1..]))
      else if p == [] then None
      else ReadToken(p[1..], cur + [p[0]], Double)
    case Single =>
      if |p| >= 2 && p[0] == BACKSLASH && p[1] == APOSTROPHE then ReadToken(p[2..], cur + [APOSTROPHE], Single)
      else if p != [] && p[0] == APOSTROPHE then
        if |p| > 1 && !IsSpace(p[1]) then None else Some(Token(cur, p[1..]))
      else if p == [] then None
      else ReadToken(p[1..], cur + [p[0]], Single)
    case Bare =>
      if p == [] then Some(Token(cur, []))
      else if EndsPlain(p[0]) then Some(Token(cur, p[1..]))
      else if p[0] == QUOTE then ReadToken(p[1..], cur, Double)
      else if p[0] == APOSTROPHE then ReadToken(p[1..], cur, Single)
      else ReadToken(p[1..], cur + [p[0]], Bare)
  }

  function SkipBlanks(p: bytes): (r: bytes)
    ensures |r| <= |p|
  {
    if p != [] && IsSpace(p[0]) then SkipBlanks(p[1..]) else p
  }

  /** The outer loop of sdssplitargs. */
  function ReadTokens(p: bytes, argv: seq<bytes>): Option<seq<bytes>>
    decreases |p|
  {
    var q := SkipBlanks(p);
    if q == [] then Some(argv)
    else
      match ReadToken(q, [], Bare)
      case Some(Token(text, rest)) => ReadTokens(rest, argv + [text])
      case None => None
  }

  /** The line ends at its first NUL. */
  function SplitLine(line: bytes): Option<seq<bytes>> {
    ReadTokens(CStr(line), [])
  }

  function At(s: bytes, i: nat): byte {
    if i < |s| then s[i] else NUL
  }

  /** What one round of the inner loop of sdssplitargs comes to. */
  datatype Round = Fail | Finish | Continue

  ghost predicate Rounded(round: Round, s: bytes, before: Option<Token>, p: nat, text: bytes, mode: Mode) {
    && p <= |s|
    && match round
       case Fail => before == None
       case Finish => before == Some(Token(text, s[p..]))
       case Continue => before == ReadToken(s[p..], text, mode)
  }

  /** The rules of a round inside double quotes, one by one. */
  lemma DoubleHex(p: bytes, cur: bytes)
    requires |p| >= 4 && p[0] == BACKSLASH && p[1] == LETTER_X && IsHexDigit(p[2]) && IsHexDigit(p[3])
    ensures ReadToken(p, cur, Double) == ReadToken(p[4..], cur + [HexValue(p[2]) * 16 + HexValue(p[3])], Double)
  {
  }

  lemma DoubleEscape(p: bytes, cur: bytes)
    requires |p| >= 2 && p[0] == BACKSLASH
    requires !(|p| >= 4 && p[1] == LETTER_X && IsHexDigit(p[2]) && IsHexDigit(p[3]))
    ensures ReadToken(p, cur, Double) == ReadToken(p[2..], cur + [Unescape(p[1])], Double)
  {
  }

  lemma DoubleQuote(p: bytes, cur: bytes)
    requires p != [] && p[0] == QUOTE
    ensures ReadToken(p, cur, Double) == if |p| > 1 && !IsSpace(p[1]) then None else Some(Token(cur, p[1..]))
  {
  }

  lemma DoublePlain(p: bytes, cur: bytes)
    requires p == [] || (p[0] != QUOTE && (p[0] == BACKSLASH ==> |p| == 1))
    ensures ReadToken(p, cur, Double) == if p == [] then None else ReadToken(p[1..], cur + [p[0]], Double)
  {
  }

  lemma TextEnds(p: bytes)
    requires NUL !in p
    ensures forall k: nat :: At(p, k) != NUL <==> k < |p|
    ensures !IsHexDigit(NUL)
  {
  }

  lemma AtRest(s: bytes, p: nat)
    requires p <= |s| && NUL !in s
    ensures NUL !in s[p..] && forall k: nat :: At(s, p + k) == At(s[p..], k)
    ensures forall k: nat | k <= |s| - p :: s[p..][k..] == s[p + k..]
  {
    assert forall i | 0 <= i < |s[p..]| :: s[p..][i] == s[p + i] && s[p + i] in s;
  }

  /** One round inside double quotes. */
  method InDouble(s: bytes, p: nat, text: bytes) returns (round: Round, p': nat, text': bytes)
    requires NUL !in s && p <= |s|
    ensures Rounded(round, s, ReadToken(s[p..], text, Double), p', text', Double) && (round.Continue? ==> p < p')
  {
    hide ReadToken, HexValue, Unescape, IsSpace, IsHexDigit;
    p', text' := p, text;
    ghost var rest := s[p..];
    AtRest(s, p);
    TextEnds(rest);
    assert At(s, p) == At(rest, 0) && At(s, p + 1) == At(rest, 1) && At(s, p + 2) == At(rest, 2)
           && At(s, p + 3) == At(rest, 3);
    if At(s, p) == BACKSLASH && At(s, p + 1) == LETTER_X && IsHexDigit(At(s, p + 2)) && IsHexDigit(At(s, p + 3)) {
      DoubleHex(rest, text);
      text' := text + [HexValue(At(s, p + 2)) * 16 + HexValue(At(s, p + 3))];
      p' := p + 3;
    } else if At(s, p) == BACKSLASH && At(s, p + 1) != NUL {
      DoubleEscape(rest, text);
      p' := p + 1;
      text' := text + [Unescape(s[p'])];
    } else if At(s, p) == QUOTE {
      DoubleQuote(rest, text);
      if At(s, p + 1) != NUL && !IsSpace(At(s, p + 1)) { return Fail, p', text'; }
      return Finish, p + 1, text';
    } else if At(s, p) == NUL {
      DoublePlain(rest, text);
      return Fail, p', text';
    } else {
      DoublePlain(rest, text);
      text' := text + [s[p]];
    }
    return Continue, p' + 1, text';
  }

  /** One round inside single quotes. */
  method InSingle(s: bytes, p: nat, text: bytes) returns (round: Round, p': nat, text': bytes)
    requires NUL !in s && p <= |s|
    ensures Rounded(round, s, ReadToken(s[p..], text, Single), p', text', Single) && (round.Continue? ==> p < p')
  {
    hide IsSpace;
    p', text' := p, text;
    ghost var rest := s[p..];
    AtRest(s, p);
    TextEnds(rest);
    assert At(s, p) == At(rest, 0) && At(s, p + 1) == At(rest, 1);
    if At(s, p) == BACKSLASH && At(s, p + 1) == APOSTROPHE {
      p' := p + 1;
      text' := text + [APOSTROPHE];
    } else if At(s, p) == APOSTROPHE {
      if At(s, p + 1) != NUL && !IsSpace(At(s, p + 1)) { return Fail, p', text'; }
      return Finish, p + 1, text';
    } else if At(s, p) == NUL {
      return Fail, p', text';
    } else {
      text' := text + [s[p]];
    }
    return Continue, p' + 1, text';
  }

  /** One round outside quotes; it may open a quoted part. */
  method InBare(s: bytes, p: nat, text: bytes) returns (round: Round, p': nat, text': bytes, mode: Mode)
    requires NUL !in s && p <= |s|
    ensures Rounded(round, s, ReadToken(s[p..], text, Bare), p', text', mode) && (round.Continue? ==> p < p')
  {
    p', text', mode := p, text, Bare;
    ghost var rest := s[p..];
    AtRest(s, p);
    TextEnds(rest);
    assert At(s, p) == At(rest, 0);
    if At(s, p) == NUL || EndsPlain(At(s, p)) {
      return Finish, if p < |s| then p + 1 else p, text', mode;
    } else if s[p] == QUOTE {
      mode := Double;
    } else if s[p] == APOSTROPHE {
      mode := Single;
    } else {
      text' := text + [s[p]];
    }
    return Continue, p + 1, text', mode;
  }

  /** The inner loop of sdssplitargs. */
  method ScanToken(s: bytes, start: nat) returns (ok: bool, text: bytes, p: nat)
    requires NUL !in s && start <= |s|
    ensures match ReadToken(s[start..], [], Bare)
            case None => !ok
            case Some(Token(t, rest)) => ok && text == t && p <= |s| && s[p..] == rest
  {
    hide ReadToken;
    p, text := start, [];
    var mode, round := Bare, Continue;
    ghost var target := ReadToken(s[start..], [], Bare);
    while round.Continue?
      invariant Rounded(round, s, target, p, text, mode)
      decreases round.Continue?, |s| - p
    {
      match mode {
        case Double => round, p, text := InDouble(s, p, text);
        case Single => round, p, text := InSingle(s, p, text);
        case Bare => round, p, text, mode := InBare(s, p, text);
      }
    }
    ok := round.Finish?;
  }

  /** sdssplitargs. */
  method SplitArgs(s: bytes) returns (argv: Option<seq<bytes>>)
    ensures argv == SplitLine(s)
  {
    var line := CStr(s);
    var p, vector: seq<bytes> := 0, [];
    assert line[0..] == line;
    while true
      invariant p <= |line| && ReadTokens(line[p..], vector) == ReadTokens(line, [])
      decreases |line| - p
    {
      ghost var before := p;
      while p < |line| && IsSpace(line[p])
        invariant before <= p <= |line| && SkipBlanks(line[p..]) == SkipBlanks(line[before..])
      {
        assert line[p..][1..] == line[p + 1..];
        p := p + 1;
      }
      assert SkipBlanks(line[before..]) == line[p..];
      if p == |line| { return Some(vector); }
      var ok, text, q := ScanToken(line, p);
      if !ok { return None; }
      assert |line[q..]| < |line[p..]|;
      vector, p := vector + [text], q;
    }
  }

  // ------------------------------------------------------------------ round trip

  lemma ReprByteClean(c: byte)
    ensures NUL !in ReprByte(c)
  {
  }

  lemma {:induction false} ReprBodyClean(s: bytes)
    ensures NUL !in ReprBody(s)
  {
    if s != [] {
      ReprByteClean(s[0]);
      ReprBodyClean(s[1..]);
    }
  }

  /** Whatever byte was printed, reading its printed form gives it back. */
  lemma ReadReprByte(c: byte, t: bytes, cur: bytes)
    ensures ReadToken(ReprByte(c) + t, cur, Double) == ReadToken(t, cur + [c], Double)
  {
    var p := ReprByte(c) + t;
    assert p[|ReprByte(c)|..] == t;
    if !IsPrint(c) && c != 10 && c != 13 && c != 9 && c != 7 && c != 8 {
      assert HexValue(HexDigit(c / 16)) * 16 + HexValue(HexDigit(c % 16)) == c;
    }
  }

  lemma ReadQuote(rest: bytes, cur: bytes)
    requires rest == [] || IsSpace(rest[0])
    ensures ReadToken([QUOTE] + rest, cur, Double) == Some(Token(cur, rest))
  {
    assert ([QUOTE] + rest)[1..] == rest;
  }

  lemma {:induction false} ReadReprBody(s: bytes, rest: bytes, cur: bytes)
    requires rest == [] || IsSpace(rest[0])
    ensures ReadToken(ReprBody(s) + [QUOTE] + rest, cur, Double) == Some(Token(cur + s, rest))
  {
    hide ReprByte, ReadToken;
    var p := ReprBody(s) + [QUOTE] + rest;
    if s == [] {
      assert p == [QUOTE] + rest && cur + s == cur;
      ReadQuote(rest, cur);
    } else {
      var t := ReprBody(s[1..]) + [QUOTE] + rest;
      assert p == ReprByte(s[0]) + t;
      ReadReprByte(s[0], t, cur);
      ReadReprBody(s[1..], rest, cur + [s[0]]);
      assert cur + [s[0]] + s[1..] == cur + s;
    }
  }

  /** The printed arguments with single spaces between them. */
  function ReprLine(args: seq<bytes>): bytes {
    if args == [] then []
    else if |args| == 1 then Repr(args[0])
    else Repr(args[0]) + [SPACE] + ReprLine(args[1..])
  }

  lemma {:induction false} ReprLineClean(args: seq<bytes>)
    ensures NUL !in ReprLine(args)
  {
    if args != [] {
      ReprBodyClean(args[0]);
      if |args| > 1 { ReprLineClean(args[1..]); }
    }
  }

  lemma ReadRepr(a: bytes, rest: bytes, argv: seq<bytes>)
    requires rest == [] || IsSpace(rest[0])
    ensures ReadTokens(Repr(a) + rest, argv) == ReadTokens(rest, argv + [a])
  {
    var p := Repr(a) + rest;
    assert p[1..] == ReprBody(a) + [QUOTE] + rest;
    ReadReprBody(a, rest, []);
    assert [] + a == a;
    assert SkipBlanks(p) == p;
    assert ReadToken(p, [], Bare) == ReadToken(p[1..], [], Double);
  }

  lemma ReprLineFirst(args: seq<bytes>)
    ensures ReprLine(args) ==
            if args == [] then [] else Repr(args[0]) + if |args| == 1 then [] else [SPACE] + ReprLine(args[1..])
  {
    hide Repr;
  }

  lemma NoTokens(argv: seq<bytes>)
    ensures ReadTokens([], argv) == Some(argv)
  {
  }

  lemma {:induction false} ReadReprLine(args: seq<bytes>, argv: seq<bytes>)
    ensures ReadTokens(ReprLine(args), argv) == Some(argv + args)
  {
    hide ReadTokens, Repr, ReprLine;
    ReprLineFirst(args);
    NoTokens(argv + args);
    if args == [] {
      assert argv + args == argv;
    } else if |args| == 1 {
      assert Repr(args[0]) + [] == Repr(args[0]) && argv + args == argv + [args[0]];
      ReadRepr(args[0], [], argv);
    } else {
      var rest := [SPACE] + ReprLine(args[1..]);
      assert ReprLine(args) == Repr(args[0]) + rest;
      ReadRepr(args[0], rest, argv);
      assert rest[1..] == ReprLine(args[1..]);
      BlankFirst(ReprLine(args[1..]), argv + [args[0]]);
      ReadReprLine(args[1..], argv + [args[0]]);
      assert argv + [args[0]] + args[1..] == argv + args;
    }
  }

  lemma BlankFirst(p: bytes, argv: seq<bytes>)
    ensures ReadTokens([SPACE] + p, argv) == ReadTokens(p, argv)
  {
    assert ([SPACE] + p)[1..] == p;
    assert SkipBlanks([SPACE] + p) == SkipBlanks(p);
  }

  /** Quoted printing and argument splitting are inverse, for arguments of any bytes. */
  lemma SplitInvertsRepr(args: seq<bytes>)
    ensures SplitLine(ReprLine(args)) == Some(args)
  {
    ReprLineClean(args);
    CStrClean(ReprLine(args));
    ReadReprLine(args, []);
    assert [] + args == args;
  }

  // ------------------------------------------------------- splitting and joining

  predicate MatchAt(s: bytes, sep: bytes, j: nat) {
    j + |sep| <= |s| && s[j..j + |sep|] == sep
  }

  /** The scan of sdssplitlen: the current token began at `start`, the cursor is at j. */
  function SplitFrom(s: bytes, sep: bytes, start: nat, j: nat): seq<bytes>
    requires sep != [] && start <= j <= |s|
    decreases |s| - j
  {
    if j + |sep| > |s| then [s[start..]]
    else if MatchAt(s, sep, j) then [s[start..j]] + SplitFrom(s, sep, j + |sep|, j + |sep|)
    else SplitFrom(s, sep, start, j + 1)
  }

  function SplitOn(s: bytes, sep: bytes): seq<bytes>
    requires sep != []
  {
    if s == [] then [] else SplitFrom(s, sep, 0, 0)
  }

  lemma SplitFromStep(s: bytes, sep: bytes, start: nat, j: nat)
    requires sep != [] && start <= j <= |s|
    ensures SplitFrom(s, sep, start, j) ==
            if j + |sep| > |s| then [s[start..]]
            else if s[j..j + |sep|] == sep then [s[start..j]] + SplitFrom(s, sep, j + |sep|, j + |sep|)
            else SplitFrom(s, sep, start, j + 1)
  {
  }

  /** sdssplitlen, with its growing slot array; None is the NULL result. */
  method SplitLen(s: bytes, sep: bytes) returns (tokens: Option<seq<bytes>>)
    ensures tokens == if sep == [] then None else Some(SplitOn(s, sep))
  {
    hide SplitFrom, MatchAt;
    if |sep| < 1 { return None; }
    var slots, elements := 5, 0;
    var slotv := new bytes[slots](_ => []);
    if |s| == 0 { return Some([]); }
    var start, j := 0, 0;
    while j + |sep| <= |s|
      invariant 0 <= start <= j <= |s|
      invariant 0 <= elements < slots == slotv.Length && fresh(slotv)
      invariant slotv[..elements] + SplitFrom(s, sep, start, j) == SplitFrom(s, sep, 0, 0)
      decreases |s| - j
    {
      SplitFromStep(s, sep, start, j);
      if slots < elements + 2 {
        slotv := Grow(slotv, slots * 2);
        slots := slots * 2;
      }
      assert |sep| == 1 && s[j] == sep[0] ==> s[j..j + |sep|] == sep;
      if (|sep| == 1 && s[j] == sep[0]) || s[j..j + |sep|] == sep {
        MoveOne(slotv[..elements], s[start..j], SplitFrom(s, sep, j + |sep|, j + |sep|));
        Store(slotv, elements, s[start..j]);
        elements := elements + 1;
        start := j + |sep|;
        j := j + |sep| - 1;
      }
      j := j + 1;
    }
    SplitFromStep(s, sep, start, j);
    Store(slotv, elements, s[start..]);
    elements := elements + 1;
    return Some(slotv[..elements]);
  }

  lemma MoveOne(tokens: seq<bytes>, t: bytes, later: seq<bytes>)
    ensures tokens + ([t] + later) == (tokens + [t]) + later
  {
  }

  method Store(a: array<bytes>, n: nat, t: bytes)
    requires n < a.Length
    modifies a
    ensures a[..n + 1] == old(a[..n]) + [t]
  {
    a[n] := t;
  }

  /** realloc of the slot array. */
  method Grow(a: array<bytes>, n: nat) returns (b: array<bytes>)
    requires a.Length <= n
    ensures fresh(b) && b.Length == n && b[..a.Length] == a[..]
  {
    b := new bytes[n](_ => []);
    forall i | 0 <= i < a.Length { b[i] := a[i]; }
  }

  function Join(tokens: seq<bytes>, sep: bytes): bytes {
    if tokens == [] then []
    else if |tokens| == 1 then tokens[0]
    else tokens[0] + sep + Join(tokens[1..], sep)
  }

  /** sdsjoinsds. */
  method JoinSds(argv: seq<bytes>, sep: bytes) returns (join: bytes)
    ensures join == Join(argv, sep)
  {
    join := [];
    var j := 0;
    assert argv[0..] == argv;
    while j < |argv|
      invariant 0 <= j <= |argv| && join + Join(argv[j..], sep) == Join(argv, sep)
    {
      ghost var later := Join(argv[j + 1..], sep);
      assert argv[j..][1..] == argv[j + 1..];
      if j != |argv| - 1 {
        assert join + (argv[j] + sep + later) == join + argv[j] + sep + later;
      }
      join := join + argv[j];
      if j != |argv| - 1 {
        join := join + sep;
      }
      j := j + 1;
    }
  }

  lemma {:induction false} SplitFromJoins(s: bytes, sep: bytes, start: nat, j: nat)
    requires sep != [] && start <= j <= |s|
    ensures SplitFrom(s, sep, start, j) != []
    ensures Join(SplitFrom(s, sep, start, j), sep) == s[start..]
    decreases |s| - j
  {
    if j + |sep| > |s| {
    } else if MatchAt(s, sep, j) {
      var n := j + |sep|;
      SplitFromJoins(s, sep, n, n);
      var tokens := SplitFrom(s, sep, start, j);
      assert tokens[1..] == SplitFrom(s, sep, n, n);
      assert s[start..j] + sep + s[n..] == s[start..];
    } else {
      SplitFromJoins(s, sep, start, j + 1);
    }
  }

  /** Joining the tokens gives the string back. */
  lemma JoinInvertsSplit(s: bytes, sep: bytes)
    requires sep != []
    ensures Join(SplitOn(s, sep), sep) == s
  {
    if s != [] {
      SplitFromJoins(s, sep, 0, 0);
    }
  }

  ghost predicate Contains(t: bytes, sep: bytes) {
    exists q: nat :: MatchAt(t, sep, q)
  }

  lemma NoMatchInPart(s: bytes, sep: bytes, start: nat, end: nat)
    requires sep != [] && start <= end <= |s|
    requires forall q | start <= q < end && q + |sep| <= end :: !MatchAt(s, sep, q)
    ensures !Contains(s[start..end], sep)
  {
    var t := s[start..end];
    forall q: nat ensures !MatchAt(t, sep, q) {
      if q + |sep| <= |t| {
        SliceOfSlice(s, start, end, q, q + |sep|);
        assert !MatchAt(s, sep, start + q);
      }
    }
  }

  lemma SliceOfSlice(s: bytes, a: nat, b: nat, c: nat, d: nat)
    requires a <= b <= |s| && c <= d <= b - a
    ensures s[a..b][c..d] == s[a + c..a + d]
  {
    assert forall k | 0 <= k < d - c :: s[a..b][c..d][k] == s[a + c + k];
  }

  lemma {:induction false} SplitFromClean(s: bytes, sep: bytes, start: nat, j: nat)
    requires sep != [] && start <= j <= |s|
    requires forall q | start <= q < j :: !MatchAt(s, sep, q)
    ensures forall t | t in SplitFrom(s, sep, start, j) :: !Contains(t, sep)
    decreases |s| - j
  {
    if j + |sep| > |s| {
      assert s[start..|s|] == s[start..];
      NoMatchInPart(s, sep, start, |s|);
    } else if MatchAt(s, sep, j) {
      NoMatchInPart(s, sep, start, j);
      SplitFromClean(s, sep, j + |sep|, j + |sep|);
    } else {
      SplitFromClean(s, sep, start, j + 1);
    }
  }

  /** No token contains the separator. */
  lemma TokensClean(s: bytes, sep: bytes)
    requires sep != []
    ensures forall t | t in SplitOn(s, sep) :: !Contains(t, sep)
  {
    if s != [] {
      SplitFromClean(s, sep, 0, 0);
    }
  }

  /** With the separator behind it, the token ends at the first place where the separator is. */
  predicate Ends(t: bytes, sep: bytes) {
    forall q | 0 <= q < |t| :: !MatchAt(t + sep, sep, q)
  }

  /** Tokens that splitting can give: all but the last end at their separators, the last holds none. */
  ghost predicate Tokens(tokens: seq<bytes>, sep: bytes) {
    && tokens != [] && !Contains(tokens[|tokens| - 1], sep)
    && forall i | 0 <= i < |tokens| - 1 :: Ends(tokens[i], sep)
  }

  lemma {:induction false} ScanOn(s: bytes, sep: bytes, start: nat, j: nat, end: nat)
    requires sep != [] && start <= j <= end && end + |sep| <= |s| && forall q | j <= q < end :: !MatchAt(s, sep, q)
    ensures SplitFrom(s, sep, start, j) == SplitFrom(s, sep, start, end)
    decreases end - j
  {
    if j < end { ScanOn(s, sep, start, j + 1, end); }
  }

  lemma {:induction false} ScanOut(s: bytes, sep: bytes, start: nat, j: nat)
    requires sep != [] && start <= j <= |s| && forall q | j <= q < |s| :: !MatchAt(s, sep, q)
    ensures SplitFrom(s, sep, start, j) == [s[start..]]
    decreases |s| - j
  {
    if j + |sep| <= |s| { ScanOut(s, sep, start, j + 1); }
  }

  /** The first token and the place behind its separator. */
  lemma FirstToken(s: bytes, sep: bytes, start: nat, t: bytes, rest: bytes)
    requires sep != [] && start <= |s| && s[start..] == t + sep + rest && Ends(t, sep)
    ensures var next := start + |t| + |sep|;
            && next <= |s| && s[next..] == rest
            && SplitFrom(s, sep, start, start) == [t] + SplitFrom(s, sep, next, next)
  {
    hide SplitFrom;
    var end := start + |t|;
    forall q | start <= q < end ensures !MatchAt(s, sep, q) {
      assert !MatchAt(t + sep, sep, q - start);
      if MatchAt(s, sep, q) { MatchInside(s, sep, start, t + sep, rest, q); }
    }
    assert s[end..end + |sep|] == s[start..][|t|..|t| + |sep|] == sep;
    assert s[start..end] == s[start..][..|t|] == t;
    assert s[end + |sep|..] == s[start..][|t| + |sep|..] == rest;
    ScanOn(s, sep, start, start, end);
    SplitFromStep(s, sep, start, end);
  }

  /** A separator that begins inside t, where a whole one follows, lies before the end of that one. */
  lemma MatchInside(s: bytes, sep: bytes, start: nat, head: bytes, rest: bytes, q: nat)
    requires start <= q && start <= |s| && s[start..] == head + rest && q + |sep| <= start + |head|
             && MatchAt(s, sep, q)
    ensures MatchAt(head, sep, q - start)
  {
    var t := s[start..];
    assert t[q - start..q - start + |sep|] == s[q..q + |sep|];
    assert t[..|head|] == head && t[..|head|][q - start..q - start + |sep|] == t[q - start..q - start + |sep|];
  }

  lemma {:induction false} SplitFromTokens(s: bytes, sep: bytes, start: nat, tokens: seq<bytes>)
    requires sep != [] && start <= |s| && Tokens(tokens, sep) && s[start..] == Join(tokens, sep)
    ensures SplitFrom(s, sep, start, start) == tokens
    decreases |tokens|
  {
    hide SplitFrom;
    if |tokens| == 1 {
      assert s[start..] == tokens[0];
      forall q | start <= q < |s| ensures !MatchAt(s, sep, q) {
        assert !MatchAt(tokens[0], sep, q - start);
        assert tokens[0] + [] == tokens[0];
        if MatchAt(s, sep, q) { MatchInside(s, sep, start, tokens[0], [], q); }
      }
      ScanOut(s, sep, start, start);
    } else {
      var rest := Join(tokens[1..], sep);
      assert Ends(tokens[0], sep);
      FirstToken(s, sep, start, tokens[0], rest);
      SplitFromTokens(s, sep, start + |tokens[0]| + |sep|, tokens[1..]);
    }
  }

  /** Splitting gives any such tokens back that were joined, so that the separators it finds are the
      leftmost ones. Only the empty string, which has no tokens, is the exception. */
  lemma SplitInvertsJoin(tokens: seq<bytes>, sep: bytes)
    requires sep != [] && Tokens(tokens, sep)
    ensures SplitOn(Join(tokens, sep), sep) == if tokens == [[]] then [] else tokens
  {
    var s := Join(tokens, sep);
    assert s[0..] == s;
    if s != [] { SplitFromTokens(s, sep, 0, tokens); }
  }

  // ------------------------------------------------------------ decimal printing

  const LLONG_MAX: int := 0x7fff_ffff_ffff_ffff

  function Pow10(k: nat): nat {
    if k == 0 then 1 else 10 * Pow10(k - 1)
  }

  lemma Pow10Values()
    ensures Pow10(19) == 10_000_000_000_000_000_000
  {
    assert Pow10(5) == 100_000;
    assert Pow10(10) == 10_000_000_000;
    assert Pow10(15) == 1_000_000_000_000_000;
  }

  lemma {:induction false} DecimalLength(n: nat, k: nat)
    requires k > 0 && n < Pow10(k)
    ensures |Decimal(n)| <= k
  {
    if n >= 10 {
      assert k > 1 by { assert Pow10(1) == 10; }
      DecimalLength(n / 10, k - 1);
    }
  }

  /** sdsfromlonglong: the digits fill a 32-byte buffer from its end. The 64-bit minimum, whose
      negation overflows, is left out. */
  method FromLongLong(value: int) returns (s: bytes)
    requires -LLONG_MAX <= value <= LLONG_MAX
    ensures s == SignedDecimal(value)
  {
    hide Pow10, Decimal;
    var buf := new byte[32](_ => 0);
    var n := if value < 0 then -value else value;
    Pow10Values();
    DecimalLength(n, 19);
    var v, p := n / 10, 30;
    buf[31] := ZERO + n % 10;
    LastDigit(n);
    assert buf[31..] == [ZERO + n % 10];
    while v != 0
      invariant 0 <= v && 0 <= p < 31
      invariant Decimal(n) == (if v == 0 then [] else Decimal(v)) + buf[p + 1..]
      decreases v
    {
      assert |Decimal(v)| >= 1;
      MoveDigit(v, buf[p + 1..]);
      WriteBelow(buf, p, ZERO + v % 10);
      p := p - 1;
      v := v / 10;
    }
    if value < 0 {
      WriteBelow(buf, p, MINUS);
      p := p - 1;
    }
    return buf[p + 1..];
  }

  lemma LastDigit(n: nat)
    ensures Decimal(n) == (if n / 10 == 0 then [] else Decimal(n / 10)) + [ZERO + n % 10]
  {
  }

  lemma MoveDigit(v: nat, tail: bytes)
    requires v > 0
    ensures Decimal(v) + tail == (if v / 10 == 0 then [] else Decimal(v / 10)) + ([ZERO + v % 10] + tail)
  {
  }

  method WriteBelow(buf: array<byte>, p: nat, c: byte)
    requires p < buf.Length
    modifies buf
    ensures buf[p..] == [c] + old(buf[p + 1..])
  {
    buf[p] := c;
  }
}
