/** Commands on the wire: the two formatters, and nextArgument, which reads their output back. */
module Format {
  import opened Bytes
  import opened Resp
  import opened ReaderMachine

  /** A command as the protocol section on arrays of bulk strings defines it. */
  function Command(args: seq<bytes>): bytes {
    Line(STAR, Decimal(|args|)) + Bulks(args)
  }

  function Bulk(a: bytes): bytes {
    Line(DOLLAR, Decimal(|a|)) + a + CRLF
  }

  function Bulks(args: seq<bytes>): bytes {
    if args == [] then [] else Bulk(args[0]) + Bulks(args[1..])
  }

  lemma {:induction false} BulksPush(args: seq<bytes>, a: bytes)
    ensures Bulks(args + [a]) == Bulks(args) + Bulk(a)
  {
    if args == [] {
      assert [a][1..] == [];
    } else {
      assert (args + [a])[1..] == args[1..] + [a];
      BulksPush(args[1..], a);
    }
  }

  function Strs(args: seq<bytes>): seq<Reply> {
    seq(|args|, i requires 0 <= i < |args| => Str(args[i]))
  }

  lemma {:induction false} BulksEncode(args: seq<bytes>)
    ensures Bulks(args) == EncodeAll(Strs(args)) && DepthAll(Strs(args)) == 0
  {
    if args != [] {
      BulksEncode(args[1..]);
      assert Strs(args)[1..] == Strs(args[1..]);
      assert Bulk(args[0]) == Encode(Str(args[0]));
    }
  }

  /** The reply reader parses a command back to exactly its arguments. */
  lemma CommandRoundTrip(args: seq<bytes>, tail: bytes)
    ensures Run(Fresh(Command(args) + tail)) == Got(Array(Strs(args)), tail)
  {
    BulksEncode(args);
    var r := Array(Strs(args));
    assert Command(args) == Encode(r);
    RunEncode(r, tail);
  }

  // ------------------------------------------------------------------ lengths

  const INT_MIN: int := -0x8000_0000

  /** intlen. Negating INT_MIN overflows in the source. */
  method IntLen(i: int) returns (len: nat)
    requires i > INT_MIN
    ensures len == |SignedDecimal(i)|
  {
    len := 0;
    var n := i;
    if n < 0 {
      len := len + 1;
      n := -n;
    }
    ghost var m := n;
    len := len + 1;
    n := n / 10;
    while n != 0
      invariant n >= 0
      invariant |SignedDecimal(i)| == len + if n == 0 then 0 else |Decimal(n)|
    {
      len := len + 1;
      n := n / 10;
    }
  }

  method BulkLen(len: nat) returns (n: nat)
    ensures forall a: bytes | |a| == len :: n == |Bulk(a)|
  {
    var digits := IntLen(len);
    n := 1 + digits + 2 + len + 2;
  }

  // ------------------------------------------------------------------ filling

  method Put(cmd: array<byte>, pos: nat, s: bytes) returns (next: nat)
    requires pos + |s| <= cmd.Length
    modifies cmd
    ensures next == pos + |s|
    ensures cmd[..next] == old(cmd[..pos]) + s
  {
    next := pos;
    while next < pos + |s|
      invariant pos <= next <= pos + |s|
      invariant cmd[..next] == old(cmd[..pos]) + s[..next - pos]
    {
      cmd[next] := s[next - pos];
      next := next + 1;
    }
  }

  method PutBulk(cmd: array<byte>, pos: nat, a: bytes) returns (next: nat)
    requires pos + |Bulk(a)| <= cmd.Length
    modifies cmd
    ensures next == pos + |Bulk(a)|
    ensures cmd[..next] == old(cmd[..pos]) + Bulk(a)
  {
    next := Put(cmd, pos, Line(DOLLAR, Decimal(|a|)));
    next := Put(cmd, next, a);
    next := Put(cmd, next, CRLF);
  }

  /** The filling loop that ends both formatters: the length computed beforehand is exact. */
  method Fill(args: seq<bytes>, totlen: nat) returns (cmd: array<byte>)
    requires totlen == |Command(args)|
    ensures fresh(cmd) && cmd.Length == totlen + 1
    ensures cmd[..totlen] == Command(args) && cmd[totlen] == NUL
  {
    hide Bulk, Decimal;
    ghost var head := Line(STAR, Decimal(|args|));
    cmd := new byte[totlen + 1];
    var pos := Put(cmd, 0, Line(STAR, Decimal(|args|)));
    var j := 0;
    assert args[0..] == args && head + Bulks([]) == head;
    while j < |args|
      invariant 0 <= j <= |args|
      invariant 0 <= pos && pos + |Bulks(args[j..])| == totlen
      invariant cmd[..pos] == head + Bulks(args[..j])
    {
      ghost var before := Bulks(args[..j]);
      assert Bulks(args[j..]) == Bulk(args[j]) + Bulks(args[j + 1..]) by {
        assert args[j..][1..] == args[j + 1..];
      }
      assert Bulks(args[..j + 1]) == before + Bulk(args[j]) by {
        assert args[..j + 1] == args[..j] + [args[j]];
        BulksPush(args[..j], args[j]);
      }
      assert head + before + Bulk(args[j]) == head + (before + Bulk(args[j]));
      pos := PutBulk(cmd, pos, args[j]);
      j := j + 1;
    }
    assert args[..j] == args;
    assert pos == totlen;
    cmd[pos] := NUL;
  }

  /** The arguments that the pointers in argv and the lengths in argvlen give: argvlen[j] bytes, or
      the bytes up to the first NUL when argvlen is NULL. */
  function Given(argv: seq<bytes>, argvlen: Option<seq<nat>>): seq<bytes>
    requires argvlen.Some? ==> |argvlen.value| == |argv| && forall j | 0 <= j < |argv| :: argvlen.value[j] <= |argv[j]|
  {
    seq(|argv|, j requires 0 <= j < |argv| => if argvlen.None? then CStr(argv[j]) else argv[j][..argvlen.value[j]])
  }

  /** redisFormatCommandArgv; argv[j] is the memory from the pointer on. */
  method FormatCommandArgv(argv: seq<bytes>, argvlen: Option<seq<nat>>) returns (cmd: array<byte>, totlen: nat)
    requires argvlen.Some? ==> |argvlen.value| == |argv| && forall j | 0 <= j < |argv| :: argvlen.value[j] <= |argv[j]|
    ensures fresh(cmd) && cmd.Length == totlen + 1
    ensures cmd[..totlen] == Command(Given(argv, argvlen)) && cmd[totlen] == NUL
  {
    var args := Given(argv, argvlen);
    var digits := IntLen(|args|);
    totlen := 1 + digits + 2;
    var j := 0;
    while j < |args|
      invariant 0 <= j <= |args|
      invariant totlen == |Line(STAR, Decimal(|args|))| + |Bulks(args[..j])|
    {
      var n := BulkLen(|args[j]|);
      totlen := totlen + n;
      assert args[..j + 1] == args[..j] + [args[j]];
      BulksPush(args[..j], args[j]);
      j := j + 1;
    }
    assert args[..j] == args;
    cmd := Fill(args, totlen);
  }

  // ------------------------------------------------------- printf-like formats

  const PERCENT: byte := 37
  const LETTER_S: byte := 115
  const LETTER_B: byte := 98

  /** What the variable arguments hold: a NUL-terminated string for %s, a counted one for %b. */
  datatype Vararg = CString(text: bytes) | Binary(text: bytes)

  /** What %s or %b (by its letter) appends; None for anything that is not one of these two
      with the argument it needs. */
  function Interpolate(letter: byte, ap: seq<Vararg>): Option<bytes> {
    if ap == [] then None
    else
      match ap[0]
      case CString(text) => if letter == LETTER_S then Some(CStr(text)) else None
      case Binary(text) => if letter == LETTER_B then Some(text) else None
  }

  /** The scan of redisvFormatCommand: fmt is the text still to read, cur the current argument.
      None stands for the branch that hands a conversion to printf. */
  function Scan(fmt: bytes, ap: seq<Vararg>, cur: bytes, touched: bool, argv: seq<bytes>): Option<seq<bytes>> {
    if fmt == [] then Some(if touched then argv + [cur] else argv)
    else if fmt[0] != PERCENT || |fmt| == 1 then
      if fmt[0] != SPACE then Scan(fmt[1..], ap, cur + [fmt[0]], true, argv)
      else if touched then Scan(fmt[1..], ap, [], false, argv + [cur])
      else Scan(fmt[1..], ap, cur, false, argv)
    else if fmt[1] == PERCENT then Scan(fmt[2..], ap, cur + [PERCENT], true, argv)
    else
      match Interpolate(fmt[1], ap)
      case Some(text) => Scan(fmt[2..], ap[1..], cur + text, true, argv)
      case None => None
  }

  /** redisvFormatCommand over %s, %b and %%. */
  method VFormatCommand(format: bytes, varargs: seq<Vararg>) returns (cmd: array?<byte>, totlen: int)
    requires NUL !in format
    ensures match Scan(format, varargs, [], false, [])
            case None => cmd == null && totlen == -1
            case Some(args) =>
              && cmd != null && fresh(cmd) && totlen == |Command(args)| && cmd.Length == totlen + 1
              && cmd[..totlen] == Command(args) && cmd[totlen] == NUL
  {
    var c, ap := 0, varargs;
    var curarg: bytes, touched, curargv: seq<bytes> := [], false, [];
    totlen := 0;
    assert format[0..] == format;
    while c < |format|
      invariant 0 <= c <= |format|
      invariant totlen == |Bulks(curargv)|
      invariant Scan(format, varargs, [], false, []) == Scan(format[c..], ap, curarg, touched, curargv)
    {
      assert format[c..][1..] == format[c + 1..];
      if format[c] != PERCENT || c + 1 == |format| {
        if format[c] == SPACE {
          if touched {
            var n := BulkLen(|curarg|);
            BulksPush(curargv, curarg);
            curargv := curargv + [curarg];
            totlen := totlen + n;
            curarg, touched := [], false;
          }
        } else {
          curarg, touched := curarg + [format[c]], true;
        }
      } else {
        assert format[c..][2..] == format[c + 2..];
        if format[c + 1] == PERCENT {
          curarg := curarg + [PERCENT];
        } else {
          var text := Interpolate(format[c + 1], ap);
          if text.None? { return null, -1; }
          curarg, ap := curarg + text.value, ap[1..];
        }
        touched := true;
        c := c + 1;
      }
      c := c + 1;
    }
    if touched {
      var n := BulkLen(|curarg|);
      BulksPush(curargv, curarg);
      curargv := curargv + [curarg];
      totlen := totlen + n;
    }
    var digits := IntLen(|curargv|);
    totlen := totlen + 1 + digits + 2;
    cmd := Fill(curargv, totlen);
  }

  /** A format is written as words; a word is made of plain characters, %% and holes. */
  datatype Piece = Plain(c: byte) | Percent | Hole(arg: Vararg)
  type Word = seq<Piece>

  predicate PlainWord(w: Word) {
    w != [] && forall p | p in w :: p.Plain? ==> p.c !in {NUL, SPACE, PERCENT}
  }

  function PieceFormat(p: Piece): bytes {
    match p
    case Plain(c) => [c]
    case Percent => [PERCENT, PERCENT]
    case Hole(CString(_)) => [PERCENT, LETTER_S]
    case Hole(Binary(_)) => [PERCENT, LETTER_B]
  }

  function PieceArgs(p: Piece): seq<Vararg> {
    if p.Hole? then [p.arg] else []
  }

  function PieceText(p: Piece): bytes {
    match p
    case Plain(c) => [c]
    case Percent => [PERCENT]
    case Hole(CString(text)) => CStr(text)
    case Hole(Binary(text)) => text
  }

  function FormatOf(w: Word): bytes {
    if w == [] then [] else PieceFormat(w[0]) + FormatOf(w[1..])
  }

  function ArgsOf(w: Word): seq<Vararg> {
    if w == [] then [] else PieceArgs(w[0]) + ArgsOf(w[1..])
  }

  function Expansion(w: Word): bytes {
    if w == [] then [] else PieceText(w[0]) + Expansion(w[1..])
  }

  function Spaces(n: nat): bytes {
    seq(n, _ => SPACE)
  }

  /** `gaps[i]` spaces come before word i, and `trailing` spaces after the last. */
  function FormatOfAll(words: seq<Word>, gaps: seq<nat>, trailing: nat): bytes
    requires |gaps| == |words|
  {
    if words == [] then Spaces(trailing)
    else Spaces(gaps[0]) + FormatOf(words[0]) + FormatOfAll(words[1..], gaps[1..], trailing)
  }

  function ArgsOfAll(words: seq<Word>): seq<Vararg> {
    if words == [] then [] else ArgsOf(words[0]) + ArgsOfAll(words[1..])
  }

  function Expansions(words: seq<Word>): seq<bytes> {
    if words == [] then [] else [Expansion(words[0])] + Expansions(words[1..])
  }

  lemma {:induction false} ScanSpaces(n: nat, fmt: bytes, ap: seq<Vararg>, cur: bytes, touched: bool, argv: seq<bytes>)
    requires touched || cur == []
    ensures Scan(Spaces(n) + fmt, ap, cur, touched, argv) ==
            if touched && n > 0 then Scan(fmt, ap, [], false, argv + [cur]) else Scan(fmt, ap, cur, touched, argv)
  {
    if n == 0 {
      assert Spaces(n) + fmt == fmt;
    } else {
      assert (Spaces(n) + fmt)[1..] == Spaces(n - 1) + fmt;
      if touched {
        ScanSpaces(n - 1, fmt, ap, [], false, argv + [cur]);
      } else {
        ScanSpaces(n - 1, fmt, ap, cur, false, argv);
      }
    }
  }

  lemma ScanPiece(p: Piece, fmt: bytes, ap: seq<Vararg>, cur: bytes, touched: bool, argv: seq<bytes>)
    requires p.Plain? ==> p.c !in {NUL, SPACE, PERCENT}
    ensures Scan(PieceFormat(p) + fmt, PieceArgs(p) + ap, cur, touched, argv) ==
            Scan(fmt, ap, cur + PieceText(p), true, argv)
  {
    var f, a := PieceFormat(p) + fmt, PieceArgs(p) + ap;
    assert f[|PieceFormat(p)|..] == fmt;
    if p.Hole? {
      assert a[1..] == ap;
    } else {
      assert a == ap;
    }
  }

  /** A word grows the current argument by its expansion, whatever the interpolated text holds. */
  lemma {:induction false} ScanWord(w: Word, fmt: bytes, ap: seq<Vararg>, cur: bytes, touched: bool, argv: seq<bytes>)
    requires PlainWord(w)
    ensures Scan(FormatOf(w) + fmt, ArgsOf(w) + ap, cur, touched, argv) ==
            Scan(fmt, ap, cur + Expansion(w), true, argv)
  {
    hide Scan, PieceFormat, PieceArgs, PieceText;
    var f, a := FormatOf(w[1..]) + fmt, ArgsOf(w[1..]) + ap;
    assert FormatOf(w) + fmt == PieceFormat(w[0]) + f;
    assert ArgsOf(w) + ap == PieceArgs(w[0]) + a;
    assert cur + PieceText(w[0]) + Expansion(w[1..]) == cur + Expansion(w);
    ScanPiece(w[0], f, a, cur, touched, argv);
    if |w| == 1 {
      assert f == fmt && a == ap && cur + Expansion(w) == cur + PieceText(w[0]);
    } else {
      ScanWord(w[1..], fmt, ap, cur + PieceText(w[0]), true, argv);
    }
  }

  /** The words of a format become the arguments, one for one: interpolated text is never
      split, not even at its own spaces or percent signs. */
  lemma {:induction false} ScanWords(words: seq<Word>, gaps: seq<nat>, trailing: nat, cur: bytes, touched: bool,
                                     argv: seq<bytes>)
    requires forall w | w in words :: PlainWord(w)
    requires |gaps| == |words| && (forall i | 0 < i < |gaps| :: gaps[i] > 0) && (touched && gaps != [] ==> gaps[0] > 0)
    requires touched || cur == []
    ensures Scan(FormatOfAll(words, gaps, trailing), ArgsOfAll(words), cur, touched, argv) ==
            Some(argv + (if touched then [cur] else []) + Expansions(words))
    decreases |words|
  {
    if words == [] {
      assert Spaces(trailing) + [] == Spaces(trailing);
      ScanSpaces(trailing, [], [], cur, touched, argv);
      assert argv + [cur] + [] == argv + [cur] && argv + [] + [] == argv;
    } else {
      var pushed := argv + if touched then [cur] else [];
      var rest := FormatOfAll(words[1..], gaps[1..], trailing);
      var later := ArgsOfAll(words[1..]);
      assert FormatOfAll(words, gaps, trailing) == Spaces(gaps[0]) + (FormatOf(words[0]) + rest);
      ScanSpaces(gaps[0], FormatOf(words[0]) + rest, ArgsOfAll(words), cur, touched, argv);
      assert !touched ==> pushed == argv;
      ScanWord(words[0], rest, later, [], false, pushed);
      assert [] + Expansion(words[0]) == Expansion(words[0]);
      ScanWords(words[1..], gaps[1..], trailing, Expansion(words[0]), true, pushed);
      assert pushed + [Expansion(words[0])] + Expansions(words[1..]) == pushed + Expansions(words);
    }
  }

  /** A percent sign at the end of the format is a plain character. */
  lemma LonePercent(w: Word, ap: seq<Vararg>, cur: bytes, touched: bool, argv: seq<bytes>)
    requires PlainWord(w)
    ensures Scan(FormatOf(w) + [PERCENT], ArgsOf(w) + ap, cur, touched, argv) ==
            Some(argv + [cur + Expansion(w) + [PERCENT]])
  {
    ScanWord(w, [PERCENT], ap, cur, touched, argv);
    assert [PERCENT][1..] == [];
  }

  /** Any other conversion, or one without its argument, is not expanded here. */
  lemma OtherConversion(w: Word, letter: byte, rest: bytes, ap: seq<Vararg>, cur: bytes, touched: bool,
                        argv: seq<bytes>)
    requires PlainWord(w) && letter != PERCENT
    requires (letter != 115 && letter != 98) || ap == [] || ap[0].CString? != (letter == 115)
    ensures Scan(FormatOf(w) + ([PERCENT, letter] + rest), ArgsOf(w) + ap, cur, touched, argv) == None
  {
    ScanWord(w, [PERCENT, letter] + rest, ap, cur, touched, argv);
  }

  function Holes(args: seq<bytes>): seq<Word> {
    seq(|args|, i requires 0 <= i < |args| => [Hole(Binary(args[i]))])
  }

  /** Arguments given through "%b %b ..." make the same command as the argument vector. */
  lemma PercentBIsArgv(args: seq<bytes>)
    requires args != []
    ensures var words := Holes(args);
            var gaps := seq(|args|, i => if i == 0 then 0 else 1);
            Scan(FormatOfAll(words, gaps, 0), ArgsOfAll(words), [], false, []) == Some(args)
  {
    var words := Holes(args);
    ScanWords(words, seq(|args|, i => if i == 0 then 0 else 1), 0, [], false, []);
    HolesExpand(args);
    assert [] + [] + args == args;
  }

  lemma OneHole(a: bytes)
    ensures Expansion([Hole(Binary(a))]) == a
  {
    var w := [Hole(Binary(a))];
    assert w[1..] == [] && Expansion(w) == a + [] == a;
  }

  lemma {:induction false} HolesExpand(args: seq<bytes>)
    ensures Expansions(Holes(args)) == args
  {
    hide Expansion;
    if args != [] {
      HolesExpand(args[1..]);
      assert Holes(args)[1..] == Holes(args[1..]);
      OneHole(args[0]);
      assert [args[0]] + args[1..] == args;
    }
  }

  // --------------------------------------------------------------- nextArgument

  /** strchr for a character that is not NUL. */
  function StrChr(s: bytes, c: byte): (r: Option<nat>)
    ensures r.Some? ==> r.value < |s| && s[r.value] == c
  {
    if s == [] || s[0] == NUL then None
    else if s[0] == c then Some(0)
    else
      match StrChr(s[1..], c)
      case None => None
      case Some(i) => Some(i + 1)
  }

  function DigitPrefix(s: bytes, v: int): int {
    if s != [] && IsDigit(s[0]) then DigitPrefix(s[1..], v * 10 + (s[0] - ZERO)) else v
  }

  /** strtol in base ten. */
  function StrToL(s: bytes): int {
    if s == [] then 0
    else if IsSpace(s[0]) then StrToL(s[1..])
    else if s[0] == MINUS then -DigitPrefix(s[1..], 0)
    else if s[0] == PLUS then DigitPrefix(s[1..], 0)
    else DigitPrefix(s, 0)
  }

  /** `Malformed` is a failed assert, or a length that leaves the string. */
  datatype Next = Argument(text: bytes, rest: bytes) | NoArgument | Malformed

  /** nextArgument once p stands on a '$'. */
  function ArgumentHere(p: bytes): (next: Next)
    requires p != []
    ensures next.Argument? ==> |next.rest| < |p|
  {
    var len := StrToL(p[1..]);
    match StrChr(p, CR)
    case None => Malformed
    case Some(cr) =>
      if 0 <= len && cr + 2 + len + 2 <= |p| then
        Argument(p[cr + 2..cr + 2 + len], p[cr + 2 + len + 2..])
      else Malformed
  }

  /** nextArgument on the rest of a NUL-terminated string. */
  function NextArgument(s: bytes): (next: Next)
    ensures next.Argument? ==> |next.rest| < |s|
  {
    if s == [] then NoArgument
    else if s[0] == DOLLAR then ArgumentHere(s)
    else
      match StrChr(s, DOLLAR)
      case None => NoArgument
      case Some(d) => ArgumentHere(s[d..])
  }

  /** What repeated calls yield. */
  function Arguments(s: bytes): seq<bytes>
    decreases |s|
  {
    var next := NextArgument(s);
    if next.Argument? then [next.text] + Arguments(next.rest) else []
  }

  lemma {:induction false} DigitPrefixDecimal(n: nat, s: bytes)
    requires s != [] && !IsDigit(s[0])
    ensures DigitPrefix(Decimal(n) + s, 0) == n
  {
    DigitPrefixAppend(n, s);
    assert DigitPrefix(s, n) == n;
  }

  lemma {:induction false} DigitPrefixAppend(n: nat, s: bytes)
    ensures DigitPrefix(Decimal(n) + s, 0) == DigitPrefix(s, n)
  {
    if n < 10 {
      assert (Decimal(n) + s)[1..] == s;
    } else {
      var d := ZERO + n % 10;
      assert Decimal(n) + s == Decimal(n / 10) + ([d] + s);
      assert ([d] + s)[1..] == s;
      DigitPrefixAppend(n / 10, [d] + s);
    }
  }

  /** The search runs through a stretch without NUL and without the character. */
  lemma {:induction false} StrChrAt(pre: bytes, c: byte, tail: bytes)
    requires c != NUL && NUL !in pre && c !in pre
    ensures StrChr(pre + [c] + tail, c) == Some(|pre|)
  {
    var s := pre + [c] + tail;
    if pre != [] {
      assert s[1..] == pre[1..] + [c] + tail;
      assert pre[0] in pre && forall x | x in pre[1..] :: x in pre;
      StrChrAt(pre[1..], c, tail);
    }
  }

  lemma DecimalBytes(n: nat)
    ensures NUL !in Decimal(n) && CR !in Decimal(n) && DOLLAR !in Decimal(n)
  {
  }

  /** The position found depends on the header only, so the argument may hold any byte. */
  lemma NextArgumentBulk(a: bytes, tail: bytes)
    ensures NextArgument(Bulk(a) + tail) == Argument(a, tail)
  {
    hide StrChr, Decimal, DigitPrefix;
    var d := Decimal(|a|);
    var s := Bulk(a) + tail;
    DecimalBytes(|a|);
    assert s == [DOLLAR] + d + [CR] + ([LF] + a + CRLF + tail);
    StrChrAt([DOLLAR] + d, CR, [LF] + a + CRLF + tail);
    assert s[1..] == d + ([CR, LF] + a + CRLF + tail);
    DigitPrefixDecimal(|a|, [CR, LF] + a + CRLF + tail);
    assert StrToL(s[1..]) == |a|;
    var cr := 1 + |d|;
    assert s[cr + 2..cr + 2 + |a|] == a;
    assert s[cr + 2 + |a| + 2..] == tail;
  }

  lemma NextArgumentFirst(n: nat, a: bytes, tail: bytes)
    ensures NextArgument(Line(STAR, Decimal(n)) + (Bulk(a) + tail)) == NextArgument(Bulk(a) + tail)
  {
    var head := Line(STAR, Decimal(n));
    var bulk := Bulk(a) + tail;
    var s := head + bulk;
    DecimalBytes(n);
    assert s == head + [DOLLAR] + bulk[1..];
    StrChrAt(head, DOLLAR, bulk[1..]);
    assert s[|head|..] == bulk;
  }

  lemma {:induction false} ArgumentsBulks(args: seq<bytes>)
    ensures Arguments(Bulks(args) + [NUL]) == args
  {
    if args == [] {
      assert Bulks(args) + [NUL] == [NUL];
    } else {
      var rest := Bulks(args[1..]) + [NUL];
      assert Bulks(args) + [NUL] == Bulk(args[0]) + rest;
      NextArgumentBulk(args[0], rest);
      ArgumentsBulks(args[1..]);
    }
  }

  /** Repeated nextArgument calls on a formatted command yield exactly its arguments. */
  lemma {:induction false} ArgumentsOfCommand(args: seq<bytes>)
    ensures Arguments(Command(args) + [NUL]) == args
  {
    var head := Line(STAR, Decimal(|args|));
    if args == [] {
      DecimalBytes(0);
      assert Command(args) + [NUL] == head + [NUL];
      NoDollar(head);
    } else {
      var rest := Bulks(args[1..]) + [NUL];
      assert Command(args) + [NUL] == head + (Bulk(args[0]) + rest);
      NextArgumentFirst(|args|, args[0], rest);
      NextArgumentBulk(args[0], rest);
      ArgumentsBulks(args[1..]);
    }
  }

  lemma {:induction false} NoDollar(s: bytes)
    requires DOLLAR !in s
    ensures StrChr(s + [NUL], DOLLAR) == None
  {
    if s != [] {
      assert (s + [NUL])[1..] == s[1..] + [NUL];
      assert s[0] in s && forall x | x in s[1..] :: x in s;
      NoDollar(s[1..]);
    }
  }
}
