/** The lines that sdssplitargs accepts, as a grammar of their own: arguments with blanks around them, each
    some bare characters and at most one quoted part at its end. */
module SplitGrammar {
  import opened Bytes
  import opened SdsText

  // -------------------------------------------------------------------- the grammar

  /** What stands for one byte inside double quotes. */
  datatype Letter = Plain(c: byte) | Escaped(c: byte) | Hex(high: byte, low: byte)

  datatype Quoted = InSingle(text: bytes) | InDouble(letters: seq<Letter>)

  datatype Arg = Arg(bare: bytes, quoted: Option<Quoted>)

  /** An argument and the blanks behind it. */
  datatype Item = Item(arg: Arg, gap: bytes)

  /** The digits 0-9, a-f and A-F. */
  predicate IsNibble(c: byte) {
    48 <= c <= 57 || 97 <= c <= 102 || 65 <= c <= 70
  }

  function Nibble(c: byte): nat
    requires IsNibble(c)
  {
    if c <= 57 then c - 48 else if c <= 70 then c - 55 else c - 87
  }

  predicate ProperLetter(l: Letter) {
    match l
    case Plain(c) => c != 34 && c != 92 && c != NUL
    case Escaped(c) => c != NUL
    case Hex(h, l) => IsNibble(h) && IsNibble(l)
  }

  predicate PlainNibble(l: Letter) {
    l.Plain? && IsNibble(l.c)
  }

  /** An escaped x is not followed by two hexadecimal digits: that is another letter. */
  predicate ProperLetters(ls: seq<Letter>) {
    ls == [] ||
    (&& ProperLetter(ls[0]) && ProperLetters(ls[1..])
     && !(ls[0] == Escaped(120) && |ls| > 2 && PlainNibble(ls[1]) && PlainNibble(ls[2])))
  }

  /** The bytes of a letter, and the byte it stands for: \n, \r, \t, \b and \a are control characters. */
  function Written(l: Letter): bytes {
    match l
    case Plain(c) => [c]
    case Escaped(c) => [92, c]
    case Hex(h, l) => [92, 120, h, l]
  }

  function Meant(l: Letter): byte
    requires ProperLetter(l)
  {
    match l
    case Plain(c) => c
    case Escaped(110) => 10
    case Escaped(114) => 13
    case Escaped(116) => 9
    case Escaped(98) => 8
    case Escaped(97) => 7
    case Escaped(c) => c
    case Hex(h, l) => Nibble(h) * 16 + Nibble(l)
  }

  function WrittenAll(ls: seq<Letter>): bytes {
    if ls == [] then [] else Written(ls[0]) + WrittenAll(ls[1..])
  }

  function MeantAll(ls: seq<Letter>): bytes
    requires ProperLetters(ls)
  {
    if ls == [] then [] else [Meant(ls[0])] + MeantAll(ls[1..])
  }

  /** Inside single quotes an apostrophe is written with a backslash, every other byte as it is. */
  function Apostrophes(text: bytes): bytes {
    if text == [] then [] else (if text[0] == 39 then [92, 39] else [text[0]]) + Apostrophes(text[1..])
  }

  predicate ProperQuoted(q: Quoted) {
    match q
    case InSingle(text) => NUL !in text && (text == [] || text[|text| - 1] != 92)
    case InDouble(ls) => ProperLetters(ls)
  }

  function WrittenQuoted(q: Quoted): bytes {
    match q
    case InSingle(text) => [39] + Apostrophes(text) + [39]
    case InDouble(ls) => [34] + WrittenAll(ls) + [34]
  }

  function MeantQuoted(q: Quoted): bytes
    requires ProperQuoted(q)
  {
    match q
    case InSingle(text) => text
    case InDouble(ls) => MeantAll(ls)
  }

  /** Not a blank that ends a bare argument, not a quote, not the end of the line. */
  predicate BareChar(c: byte) {
    c != 32 && c != 10 && c != 13 && c != 9 && c != 34 && c != 39 && c != NUL
  }

  predicate AllBare(s: bytes) {
    forall i | 0 <= i < |s| :: BareChar(s[i])
  }

  predicate ProperArg(a: Arg) {
    && AllBare(a.bare)
    && (a.bare != [] ==> !IsSpace(a.bare[0])) && (a.bare == [] ==> a.quoted.Some?)
    && (a.quoted.Some? ==> ProperQuoted(a.quoted.value))
  }

  function WrittenArg(a: Arg): bytes {
    a.bare + if a.quoted.Some? then WrittenQuoted(a.quoted.value) else []
  }

  function MeantArg(a: Arg): bytes
    requires ProperArg(a)
  {
    a.bare + if a.quoted.Some? then MeantQuoted(a.quoted.value) else []
  }

  predicate Blank(s: bytes) {
    forall i | 0 <= i < |s| :: IsSpace(s[i])
  }

  /** Blanks end the argument: after bare characters the first one is a space, a tab or a line end. */
  predicate ProperItem(i: Item) {
    && ProperArg(i.arg) && Blank(i.gap)
    && (i.arg.quoted.None? && i.gap != [] ==> !BareChar(i.gap[0]))
  }

  /** Only the last argument may stand at the end of the line. */
  predicate ProperItems(items: seq<Item>) {
    items == [] || (ProperItem(items[0]) && (|items| > 1 ==> items[0].gap != []) && ProperItems(items[1..]))
  }

  function WrittenItems(items: seq<Item>): bytes {
    if items == [] then [] else WrittenArg(items[0].arg) + items[0].gap + WrittenItems(items[1..])
  }

  function MeantItems(items: seq<Item>): seq<bytes>
    requires ProperItems(items)
  {
    if items == [] then [] else [MeantArg(items[0].arg)] + MeantItems(items[1..])
  }

  /** The blanks: space, tab, line feed, vertical tab, form feed and carriage return. */
  lemma Blanks(c: byte)
    ensures IsSpace(c) <==> c in [32, 9, 10, 11, 12, 13]
  {
  }

  // --------------------------------------------------------- what is written is read

  lemma SameDigits(c: byte)
    ensures IsHexDigit(c) <==> IsNibble(c)
    ensures IsNibble(c) ==> HexValue(c) == Nibble(c)
    ensures BareChar(c) <==> !EndsPlain(c) && c != QUOTE && c != APOSTROPHE && c != NUL
  {
  }

  lemma SameEscape(c: byte)
    requires c != NUL
    ensures Unescape(c) == Meant(Escaped(c))
  {
  }

  lemma {:induction false} ReadBare(bare: bytes, rest: bytes, cur: bytes)
    requires AllBare(bare)
    ensures ReadToken(bare + rest, cur, Bare) == ReadToken(rest, cur + bare, Bare)
  {
    if bare == [] {
      assert bare + rest == rest && cur + bare == cur;
    } else {
      SameDigits(bare[0]);
      assert (bare + rest)[1..] == bare[1..] + rest;
      ReadBare(bare[1..], rest, cur + [bare[0]]);
      assert cur + [bare[0]] + bare[1..] == cur + bare;
    }
  }

  lemma ReadEnd(rest: bytes, cur: bytes)
    requires rest == [] || (IsSpace(rest[0]) && !BareChar(rest[0]))
    ensures ReadToken(rest, cur, Bare) == Some(Token(cur, if rest == [] then [] else rest[1..]))
  {
  }

  /** After a closing quote only a blank or the end of the line is accepted. */
  function Closed(cur: bytes, rest: bytes): Option<Token> {
    if rest != [] && !IsSpace(rest[0]) then None else Some(Token(cur, rest))
  }

  lemma ReadLetter(l: Letter, rest: bytes, cur: bytes)
    requires ProperLetter(l)
    requires l == Escaped(120) ==> !(|rest| >= 2 && IsNibble(rest[0]) && IsNibble(rest[1]))
    ensures ReadToken(Written(l) + rest, cur, Double) == ReadToken(rest, cur + [Meant(l)], Double)
  {
    hide ReadToken, HexValue, Unescape, IsHexDigit, Nibble;
    var p := Written(l) + rest;
    assert p[|Written(l)|..] == rest;
    match l {
      case Plain(c) => DoublePlain(p, cur);
      case Escaped(c) =>
        SameEscape(c);
        if |p| >= 4 { SameDigits(p[2]); SameDigits(p[3]); assert rest[0] == p[2] && rest[1] == p[3]; }
        DoubleEscape(p, cur);
      case Hex(h, low) =>
        SameDigits(h);
        SameDigits(low);
        DoubleHex(p, cur);
    }
  }

  lemma FirstNibbles(ls: seq<Letter>, rest: bytes)
    requires ProperLetters(ls)
    ensures var p := WrittenAll(ls) + ([34] + rest);
            |p| >= 2 && IsNibble(p[0]) && IsNibble(p[1]) ==> |ls| >= 2 && PlainNibble(ls[0]) && PlainNibble(ls[1])
  {
    var p := WrittenAll(ls) + ([34] + rest);
    if ls != [] {
      assert p[0] == Written(ls[0])[0];
      if ls[0].Plain? {
        assert WrittenAll(ls) == [ls[0].c] + WrittenAll(ls[1..]);
        if |ls| > 1 {
          assert p[1] == Written(ls[1])[0];
        } else {
          assert p[1] == 34;
        }
      }
    } else {
      assert p[0] == 34;
    }
  }

  lemma {:induction false} ReadLetters(ls: seq<Letter>, rest: bytes, cur: bytes)
    requires ProperLetters(ls)
    ensures ReadToken(WrittenAll(ls) + ([34] + rest), cur, Double) == Closed(cur + MeantAll(ls), rest)
  {
    hide ReadToken, Written, Meant, IsSpace, IsNibble;
    var p := WrittenAll(ls) + ([34] + rest);
    if ls == [] {
      assert p == [34] + rest && cur + [] == cur;
      DoubleQuote(p, cur);
      assert p[1..] == rest;
    } else {
      var later := WrittenAll(ls[1..]) + ([34] + rest);
      assert p == Written(ls[0]) + later;
      FirstNibbles(ls[1..], rest);
      ReadLetter(ls[0], later, cur);
      ReadLetters(ls[1..], rest, cur + [Meant(ls[0])]);
      assert cur + [Meant(ls[0])] + MeantAll(ls[1..]) == cur + MeantAll(ls);
    }
  }

  /** The rules of single quotes, one by one. */
  lemma SingleStep(p: bytes, cur: bytes)
    requires p != []
    ensures ReadToken(p, cur, Single) ==
            if |p| >= 2 && p[0] == 92 && p[1] == 39 then ReadToken(p[2..], cur + [39], Single)
            else if p[0] == 39 then Closed(cur, p[1..])
            else ReadToken(p[1..], cur + [p[0]], Single)
  {
    if |p| > 1 { assert p[1..][0] == p[1]; }
  }

  lemma {:induction false} ReadApostrophes(text: bytes, tail: bytes, cur: bytes)
    requires text != [] && text[|text| - 1] == 92 ==> tail == [] || tail[0] != 39
    ensures ReadToken(Apostrophes(text) + tail, cur, Single) == ReadToken(tail, cur + text, Single)
  {
    hide ReadToken;
    var p := Apostrophes(text) + tail;
    if text == [] {
      assert p == tail && cur + text == cur;
    } else {
      var rest, later := text[1..], Apostrophes(text[1..]) + tail;
      SingleStep(p, cur);
      assert rest != [] ==> rest[|rest| - 1] == text[|text| - 1];
      ReadApostrophes(rest, tail, cur + [text[0]]);
      assert cur + [text[0]] + rest == cur + text;
      if text[0] == 39 {
        assert p == [92, 39] + later && p[2..] == later;
      } else {
        assert p == [text[0]] + later && p[1..] == later;
        if |p| > 1 && rest != [] { assert later[0] == Apostrophes(rest)[0] == if rest[0] == 39 then 92 else rest[0]; }
        if rest == [] { assert later == tail; }
      }
    }
  }

  lemma ReadQuoted(q: Quoted, rest: bytes, cur: bytes)
    requires ProperQuoted(q)
    ensures ReadToken(WrittenQuoted(q) + rest, cur, Bare) == Closed(cur + MeantQuoted(q), rest)
  {
    hide ReadToken, WrittenAll, MeantAll, Apostrophes, ProperLetters, IsSpace;
    var p := WrittenQuoted(q) + rest;
    match q {
      case InDouble(ls) =>
        DoubleOpens(p, cur);
        assert p[1..] == WrittenAll(ls) + ([34] + rest);
        ReadLetters(ls, rest, cur);
      case InSingle(text) =>
        assert p[1..] == Apostrophes(text) + ([39] + rest);
        SingleOpens(p, cur);
        ReadApostrophes(text, [39] + rest, cur);
        SingleStep([39] + rest, cur + text);
        assert ([39] + rest)[1..] == rest;
    }
  }

  lemma DoubleOpens(p: bytes, cur: bytes)
    requires p != [] && p[0] == 34
    ensures ReadToken(p, cur, Bare) == ReadToken(p[1..], cur, Double)
  {
  }

  lemma SingleOpens(p: bytes, cur: bytes)
    requires p != [] && p[0] == 39
    ensures ReadToken(p, cur, Bare) == ReadToken(p[1..], cur, Single)
  {
  }

  /** One argument and what is left behind it. */
  lemma ReadArg(item: Item, rest: bytes)
    requires ProperItem(item) && (item.gap == [] ==> rest == [])
    ensures var left := if item.arg.quoted.Some? || item.gap == [] then item.gap + rest else item.gap[1..] + rest;
            ReadToken(WrittenArg(item.arg) + item.gap + rest, [], Bare) == Some(Token(MeantArg(item.arg), left))
  {
    hide ReadToken, WrittenArg, MeantArg, IsSpace, BareChar, ProperQuoted, AllBare;
    var tail := item.gap + rest;
    assert WrittenArg(item.arg) + item.gap + rest == WrittenArg(item.arg) + tail;
    assert tail != [] ==> item.gap != [] && tail[0] == item.gap[0];
    if item.arg.quoted.Some? {
      ReadQuotedArg(item.arg, tail);
    } else {
      ReadBareArg(item.arg, tail);
      if item.gap != [] { assert tail[1..] == item.gap[1..] + rest; }
    }
  }

  lemma ReadQuotedArg(a: Arg, tail: bytes)
    requires ProperArg(a) && a.quoted.Some? && (tail != [] ==> IsSpace(tail[0]))
    ensures ReadToken(WrittenArg(a) + tail, [], Bare) == Some(Token(MeantArg(a), tail))
  {
    hide ReadToken, WrittenQuoted, MeantQuoted, IsSpace, AllBare, ProperQuoted;
    var quoted := WrittenQuoted(a.quoted.value) + tail;
    assert [] + a.bare == a.bare && WrittenArg(a) + tail == a.bare + quoted;
    ReadBare(a.bare, quoted, []);
    ReadQuoted(a.quoted.value, tail, a.bare);
  }

  lemma ReadBareArg(a: Arg, tail: bytes)
    requires ProperArg(a) && a.quoted.None? && (tail != [] ==> IsSpace(tail[0]) && !BareChar(tail[0]))
    ensures ReadToken(WrittenArg(a) + tail, [], Bare) ==
            Some(Token(MeantArg(a), if tail == [] then [] else tail[1..]))
  {
    hide ReadToken, IsSpace, AllBare, BareChar;
    assert [] + a.bare == a.bare && a.bare + [] == a.bare;
    ReadBare(a.bare, tail, []);
    ReadEnd(tail, a.bare);
  }

  lemma {:induction false} SkipBlank(lead: bytes, p: bytes)
    requires Blank(lead) && (p != [] ==> !IsSpace(p[0]))
    ensures SkipBlanks(lead + p) == p
  {
    if lead == [] {
      assert lead + p == p;
    } else {
      assert (lead + p)[1..] == lead[1..] + p;
      SkipBlank(lead[1..], p);
    }
  }

  lemma FirstOfItem(item: Item, rest: bytes)
    requires ProperItem(item)
    ensures var p := WrittenArg(item.arg) + item.gap + rest; p != [] && !IsSpace(p[0])
  {
    hide WrittenAll, Apostrophes;
    var p := WrittenArg(item.arg) + item.gap + rest;
    if item.arg.bare == [] {
      assert p[0] == WrittenQuoted(item.arg.quoted.value)[0];
    } else {
      assert p[0] == item.arg.bare[0];
    }
  }

  lemma TokensStep(p: bytes, q: bytes, argv: seq<bytes>)
    requires SkipBlanks(p) == q && q != []
    ensures var t := ReadToken(q, [], Bare);
            ReadTokens(p, argv) == if t.None? then None else ReadTokens(t.value.rest, argv + [t.value.text])
  {
    hide ReadToken;
  }

  /** The blanks that are left when an argument was read. */
  function GapLeft(item: Item): bytes {
    if item.arg.quoted.Some? || item.gap == [] then item.gap else item.gap[1..]
  }

  lemma NextItem(items: seq<Item>)
    requires items != [] && ProperItems(items)
    ensures ProperItem(items[0]) && ProperArg(items[0].arg)
    ensures ProperItems(items[1..]) && Blank(GapLeft(items[0]))
    ensures items[0].gap == [] ==> items[1..] == []
    ensures WrittenItems(items) == WrittenArg(items[0].arg) + items[0].gap + WrittenItems(items[1..])
    ensures MeantItems(items) == [MeantArg(items[0].arg)] + MeantItems(items[1..])
  {
    hide WrittenArg, MeantArg, ProperArg, IsSpace, BareChar;
  }

  /** Reading goes on behind the first argument. */
  lemma ReadItem(lead: bytes, item: Item, later: bytes, argv: seq<bytes>)
    requires Blank(lead) && ProperItem(item) && (item.gap == [] ==> later == [])
    ensures ReadTokens(lead + (WrittenArg(item.arg) + item.gap + later), argv) ==
            ReadTokens(GapLeft(item) + later, argv + [MeantArg(item.arg)])
  {
    hide ReadToken, ReadTokens, SkipBlanks, WrittenArg, MeantArg, ProperItem, IsSpace, BareChar, Blank;
    var q := WrittenArg(item.arg) + item.gap + later;
    FirstOfItem(item, later);
    SkipBlank(lead, q);
    TokensStep(lead + q, q, argv);
    ReadArg(item, later);
  }

  lemma {:induction false} ReadItems(lead: bytes, items: seq<Item>, argv: seq<bytes>)
    requires Blank(lead) && ProperItems(items)
    ensures ReadTokens(lead + WrittenItems(items), argv) == Some(argv + MeantItems(items))
    decreases |items|
  {
    hide ReadTokens, SkipBlanks, WrittenArg, MeantArg, WrittenItems, MeantItems, ProperItems, ProperItem, GapLeft,
         Blank;
    if items == [] {
      NoneWritten();
      SkipBlank(lead, []);
      NoItems(lead + [], argv);
      assert argv + [] == argv;
    } else {
      NextItem(items);
      var item := items[0];
      if items[1..] == [] { NoneWritten(); }
      ReadItem(lead, item, WrittenItems(items[1..]), argv);
      ReadItems(GapLeft(item), items[1..], argv + [MeantArg(item.arg)]);
      var first, rest := [MeantArg(item.arg)], MeantItems(items[1..]);
      assert argv + first + rest == argv + (first + rest);
    }
  }

  lemma NoneWritten()
    ensures WrittenItems([]) == [] && ProperItems([]) && MeantItems([]) == []
  {
  }

  lemma NoItems(p: bytes, argv: seq<bytes>)
    requires SkipBlanks(p) == []
    ensures ReadTokens(p, argv) == Some(argv)
  {
  }

  // --------------------------------------------------------- what is read is written

  /** An accepted text up to a closing double quote is a proper sequence of letters. */
  lemma {:induction false} LettersOf(p: bytes, cur: bytes) returns (ls: seq<Letter>)
    requires NUL !in p && ReadToken(p, cur, Double).Some?
    ensures ProperLetters(ls)
    ensures var t := ReadToken(p, cur, Double).value;
            && p == WrittenAll(ls) + ([34] + t.rest) && t.text == cur + MeantAll(ls)
            && (t.rest != [] ==> IsSpace(t.rest[0]))
    decreases |p|
  {
    hide ReadToken, Unescape, HexValue, IsHexDigit, Nibble, IsSpace;
    if p == [] {
      DoublePlain(p, cur);
    } else if p[0] == 34 {
      DoubleQuote(p, cur);
      ls := [];
      assert p == [34] + p[1..] && cur + [] == cur;
      if |p| > 1 { assert p[1..][0] == p[1]; }
    } else {
      var l, rest := LetterOf(p, cur);
      Behind(p, |p| - |rest|);
      assert p[|p| - |rest|..] == rest;
      var later := LettersOf(rest, cur + [Meant(l)]);
      ls := [l] + later;
      LettersJoined(cur, l, later, [34] + ReadToken(p, cur, Double).value.rest);
    }
  }

  /** One letter more in front of a quoted text. */
  lemma LettersJoined(cur: bytes, l: Letter, later: seq<Letter>, end: bytes)
    requires ProperLetter(l) && ProperLetters(later)
    requires var rest := WrittenAll(later) + end;
             l == Escaped(120) ==> !(|rest| >= 2 && IsNibble(rest[0]) && IsNibble(rest[1]))
    ensures ProperLetters([l] + later)
    ensures WrittenAll([l] + later) + end == Written(l) + (WrittenAll(later) + end)
    ensures cur + [Meant(l)] + MeantAll(later) == cur + MeantAll([l] + later)
  {
    hide Meant, Written, IsNibble;
    var ls := [l] + later;
    assert ls[1..] == later;
    if l == Escaped(120) && |later| >= 2 && PlainNibble(later[0]) && PlainNibble(later[1]) {
      PlainFirst(later, end);
    }
    assert cur + [Meant(l)] + MeantAll(later) == cur + ([Meant(l)] + MeantAll(later));
  }

  lemma PlainFirst(ls: seq<Letter>, tail: bytes)
    requires |ls| >= 2 && ls[0].Plain? && ls[1].Plain?
    ensures var p := WrittenAll(ls) + tail; |p| >= 2 && p[0] == ls[0].c && p[1] == ls[1].c
  {
    assert WrittenAll(ls) == [ls[0].c] + WrittenAll(ls[1..]);
    assert WrittenAll(ls[1..]) == [ls[1].c] + WrittenAll(ls[1..][1..]);
  }

  /** The letter at the head, as the reader takes it. */
  lemma LetterOf(p: bytes, cur: bytes) returns (l: Letter, rest: bytes)
    requires NUL !in p && p != [] && p[0] != 34 && ReadToken(p, cur, Double).Some?
    ensures ProperLetter(l) && p == Written(l) + rest && |rest| < |p|
    ensures ReadToken(p, cur, Double) == ReadToken(rest, cur + [Meant(l)], Double)
    ensures l == Escaped(120) ==> !(|rest| >= 2 && IsNibble(rest[0]) && IsNibble(rest[1]))
  {
    hide ReadToken, Unescape, HexValue, IsHexDigit, Nibble;
    assert p[0] in p;
    if |p| >= 4 { SameDigits(p[2]); SameDigits(p[3]); }
    if |p| >= 4 && p[0] == 92 && p[1] == 120 && IsNibble(p[2]) && IsNibble(p[3]) {
      DoubleHex(p, cur);
      l, rest := Hex(p[2], p[3]), p[4..];
    } else if |p| >= 2 && p[0] == 92 {
      assert p[1] in p;
      DoubleEscape(p, cur);
      SameEscape(p[1]);
      l, rest := Escaped(p[1]), p[2..];
      if |rest| >= 2 { assert rest[0] == p[2] && rest[1] == p[3]; }
    } else {
      DoublePlain(p, cur);
      if p[0] == 92 {
        DoublePlain(p[1..], cur + [p[0]]);
      }
      l, rest := Plain(p[0]), p[1..];
    }
  }

  /** An accepted text up to a closing apostrophe. */
  lemma {:induction false} TextOf(p: bytes, cur: bytes) returns (text: bytes)
    requires NUL !in p && ReadToken(p, cur, Single).Some?
    ensures ProperQuoted(InSingle(text))
    ensures var t := ReadToken(p, cur, Single).value;
            && p == Apostrophes(text) + ([39] + t.rest) && t.text == cur + text
            && (t.rest != [] ==> IsSpace(t.rest[0]))
    decreases |p|
  {
    hide ReadToken, IsSpace, Apostrophes;
    if p == [] {
      SingleNothing(cur);
    } else if p[0] == 39 {
      SingleStep(p, cur);
      text := [];
      NoText();
      assert p == [39] + p[1..] && cur + [] == cur && [] + p == p;
    } else {
      SingleStep(p, cur);
      var escaped := |p| >= 2 && p[0] == 92 && p[1] == 39;
      var c := if escaped then 39 else p[0];
      var rest := p[if escaped then 2 else 1..];
      Behind(p, if escaped then 2 else 1);
      var later := TextOf(rest, cur + [c]);
      text := [c] + later;
      TextJoined(p, cur, c, later, rest, [39] + ReadToken(p, cur, Single).value.rest);
    }
  }

  lemma Behind(p: bytes, k: nat)
    requires NUL !in p && 0 < k <= |p|
    ensures NUL !in p[k..] && p[0] != NUL && p == p[..k] + p[k..]
  {
    assert p[0] in p && forall x | x in p[k..] :: x in p;
  }

  /** One byte more in front of a quoted text. */
  lemma TextJoined(p: bytes, cur: bytes, c: byte, later: bytes, rest: bytes, end: bytes)
    requires p != [] && p[0] != NUL && p[0] != 39 && end != [] && end[0] == 39
    requires var escaped := |p| >= 2 && p[0] == 92 && p[1] == 39;
             c == (if escaped then 39 else p[0]) && rest == p[if escaped then 2 else 1..]
    requires rest == Apostrophes(later) + end && ProperQuoted(InSingle(later))
    ensures p == Apostrophes([c] + later) + end && cur + [c] + later == cur + ([c] + later)
    ensures ProperQuoted(InSingle([c] + later))
  {
    hide Apostrophes;
    TextFirst(c, later, end);
    LastByte(c, later);
    var k := if |p| >= 2 && p[0] == 92 && p[1] == 39 then 2 else 1;
    assert p == p[..k] + rest && p[..k] == if c == 39 then [92, 39] else [c];
    if later == [] {
      NoText();
      assert [] + end == end;
    }
  }

  lemma NoText()
    ensures Apostrophes([]) == []
  {
  }

  lemma TextFirst(c: byte, later: bytes, end: bytes)
    ensures Apostrophes([c] + later) + end == (if c == 39 then [92, 39] else [c]) + (Apostrophes(later) + end)
  {
    assert ([c] + later)[1..] == later;
  }

  lemma LastByte(c: byte, later: bytes)
    ensures var text := [c] + later; text[|text| - 1] == if later == [] then c else later[|later| - 1]
    ensures NUL !in later && c != NUL ==> NUL !in [c] + later
  {
  }

  lemma SingleNothing(cur: bytes)
    ensures ReadToken([], cur, Single) == None
  {
  }

  lemma BareStep(p: bytes, cur: bytes)
    requires p != [] && BareChar(p[0])
    ensures ReadToken(p, cur, Bare) == ReadToken(p[1..], cur + [p[0]], Bare)
  {
    SameDigits(p[0]);
  }

  lemma BareStops(p: bytes, cur: bytes)
    requires NUL !in p && (p != [] ==> !BareChar(p[0]) && p[0] != 34 && p[0] != 39)
    ensures p != [] ==> IsSpace(p[0])
    ensures ReadToken(p, cur, Bare) == Some(Token(cur, if p == [] then [] else p[1..]))
  {
    if p != [] { assert p[0] in p; }
  }

  /** The bytes p begin with this argument, which `after` does not go on with, and reading them behind
      `cur` gives this token. */
  ghost predicate ArgAt(p: bytes, cur: bytes, a: Arg, after: bytes, t: Token) {
    && AllBare(a.bare) && (a.quoted.Some? ==> ProperQuoted(a.quoted.value))
    && p == WrittenArg(a) + after && (after != [] ==> IsSpace(after[0]) && (a.quoted.None? ==> !BareChar(after[0])))
    && t.text == cur + (a.bare + if a.quoted.Some? then MeantQuoted(a.quoted.value) else [])
    && t.rest == if a.quoted.Some? || after == [] then after else after[1..]
  }

  /** An accepted argument, and what stands behind it. */
  lemma {:induction false} ArgOf(p: bytes, cur: bytes) returns (a: Arg, after: bytes)
    requires NUL !in p && ReadToken(p, cur, Bare).Some?
    ensures ArgAt(p, cur, a, after, ReadToken(p, cur, Bare).value)
    decreases |p|
  {
    hide ReadToken, ArgAt, BareChar, IsSpace;
    if p == [] || (!BareChar(p[0]) && p[0] != 34 && p[0] != 39) {
      BareStops(p, cur);
      a, after := Arg([], None), p;
      ArgNone(p, cur);
    } else if p[0] == 34 || p[0] == 39 {
      var q, rest := QuotedOf(p, cur);
      a, after := Arg([], Some(q)), rest;
      ArgQuoted(p, cur, q, rest);
    } else {
      BareStep(p, cur);
      Behind(p, 1);
      var b, rest := ArgOf(p[1..], cur + [p[0]]);
      a, after := b.(bare := [p[0]] + b.bare), rest;
      ArgLonger(p, cur, b, after, ReadToken(p, cur, Bare).value);
    }
  }

  lemma ArgNone(p: bytes, cur: bytes)
    requires p != [] ==> IsSpace(p[0]) && !BareChar(p[0])
    ensures ArgAt(p, cur, Arg([], None), p, Token(cur, if p == [] then [] else p[1..]))
  {
    hide BareChar, IsSpace;
    BareNone();
    assert cur + ([] + []) == cur && [] + [] + p == p;
  }

  lemma ArgQuoted(p: bytes, cur: bytes, q: Quoted, rest: bytes)
    requires ProperQuoted(q) && p == WrittenQuoted(q) + rest && (rest != [] ==> IsSpace(rest[0]))
    ensures ArgAt(p, cur, Arg([], Some(q)), rest, Token(cur + MeantQuoted(q), rest))
  {
    hide BareChar, IsSpace, WrittenQuoted, MeantQuoted, ProperQuoted;
    BareNone();
    assert [] + MeantQuoted(q) == MeantQuoted(q) && [] + WrittenQuoted(q) == WrittenQuoted(q);
  }

  lemma ArgLonger(p: bytes, cur: bytes, b: Arg, after: bytes, t: Token)
    requires p != [] && BareChar(p[0]) && ArgAt(p[1..], cur + [p[0]], b, after, t)
    ensures ArgAt(p, cur, b.(bare := [p[0]] + b.bare), after, t)
  {
    hide BareChar, IsSpace, WrittenQuoted, WrittenArg, MeantQuoted, ProperQuoted, AllBare;
    assert p == [p[0]] + p[1..];
    BareMore(p[0], b.bare);
    BareLonger(p[0], b, after, cur, if b.quoted.Some? then MeantQuoted(b.quoted.value) else []);
  }

  lemma BareNone()
    ensures AllBare([])
  {
  }

  lemma BareMore(c: byte, s: bytes)
    requires BareChar(c) && AllBare(s)
    ensures AllBare([c] + s)
  {
    hide BareChar;
  }

  lemma BareLonger(c: byte, b: Arg, after: bytes, cur: bytes, tail: bytes)
    ensures WrittenArg(b.(bare := [c] + b.bare)) + after == [c] + (WrittenArg(b) + after)
    ensures cur + [c] + (b.bare + tail) == cur + ([c] + b.bare + tail)
  {
    hide WrittenQuoted;
    var q := if b.quoted.Some? then WrittenQuoted(b.quoted.value) else [];
    assert [c] + b.bare + q + after == [c] + (b.bare + q + after);
  }

  lemma QuotedOf(p: bytes, cur: bytes) returns (q: Quoted, rest: bytes)
    requires NUL !in p && p != [] && (p[0] == 34 || p[0] == 39) && ReadToken(p, cur, Bare).Some?
    ensures ProperQuoted(q) && p == WrittenQuoted(q) + rest && (rest != [] ==> IsSpace(rest[0]))
    ensures ReadToken(p, cur, Bare) == Some(Token(cur + MeantQuoted(q), rest))
  {
    hide ReadToken, WrittenAll, MeantAll, Apostrophes, ProperLetters, IsSpace, WrittenQuoted;
    Behind(p, 1);
    rest := ReadToken(p, cur, Bare).value.rest;
    if p[0] == 34 {
      DoubleOpens(p, cur);
      var ls := LettersOf(p[1..], cur);
      q := InDouble(ls);
      Enclosed(q, rest);
      assert p == [34] + p[1..];
    } else {
      SingleOpens(p, cur);
      var text := TextOf(p[1..], cur);
      q := InSingle(text);
      Enclosed(q, rest);
      assert p == [39] + p[1..];
    }
  }

  lemma Enclosed(q: Quoted, rest: bytes)
    ensures WrittenQuoted(q) + rest ==
            if q.InSingle? then [39] + (Apostrophes(q.text) + ([39] + rest))
            else [34] + (WrittenAll(q.letters) + ([34] + rest))
  {
    hide WrittenAll, Apostrophes;
  }

  /** The blanks before the next argument. */
  lemma {:induction false} BlanksOf(p: bytes) returns (lead: bytes)
    ensures Blank(lead) && p == lead + SkipBlanks(p) && (SkipBlanks(p) != [] ==> !IsSpace(SkipBlanks(p)[0]))
  {
    if p != [] && IsSpace(p[0]) {
      var later := BlanksOf(p[1..]);
      lead := [p[0]] + later;
      assert p == [p[0]] + p[1..];
    } else {
      lead := [];
      assert p == [] + p;
    }
  }

  lemma {:induction false} ItemsOf(p: bytes, argv: seq<bytes>) returns (lead: bytes, items: seq<Item>)
    requires NUL !in p && ReadTokens(p, argv).Some?
    ensures Blank(lead) && ProperItems(items)
    ensures p == lead + WrittenItems(items) && ReadTokens(p, argv) == Some(argv + MeantItems(items))
    decreases |p|
  {
    hide ReadToken, ReadTokens, SkipBlanks, IsSpace, BareChar, WrittenArg, MeantArg, ProperArg, ProperItem;
    lead := BlanksOf(p);
    var q := SkipBlanks(p);
    if q == [] {
      NoItems(p, argv);
      items := [];
      assert argv + [] == argv;
    } else {
      CleanRest(lead, q);
      TokensStep(p, q, argv);
      var a, after, rest := FirstArg(q);
      var gap, later := ItemsOf(rest, argv + [MeantArg(a)]);
      items := [Item(a, if a.quoted.Some? || after == [] then gap else [after[0]] + gap)] + later;
      ItemJoined(q, a, after, gap, later);
      assert items[1..] == later;
      assert argv + [MeantArg(a)] + MeantItems(later) == argv + ([MeantArg(a)] + MeantItems(later));
    }
  }

  lemma CleanRest(lead: bytes, q: bytes)
    ensures NUL !in lead + q ==> NUL !in q
  {
    assert (lead + q)[|lead|..] == q;
  }

  lemma FirstArg(q: bytes) returns (a: Arg, after: bytes, rest: bytes)
    requires NUL !in q && q != [] && !IsSpace(q[0]) && ReadToken(q, [], Bare).Some?
    ensures ProperArg(a) && q == WrittenArg(a) + after && NUL !in rest && |rest| < |q|
    ensures after != [] ==> IsSpace(after[0]) && (a.quoted.None? ==> !BareChar(after[0]))
    ensures rest == (if a.quoted.Some? || after == [] then after else after[1..])
    ensures ReadToken(q, [], Bare) == Some(Token(MeantArg(a), rest))
  {
    hide ReadToken, WrittenArg, MeantQuoted, ProperQuoted, IsSpace, BareChar;
    a, after := ArgOf(q, []);
    ArgNotEmpty(q, a, after);
    rest := ReadToken(q, [], Bare).value.rest;
    CleanRest(WrittenArg(a), after);
    if a.quoted.None? && after != [] { Behind(after, 1); }
    assert [] + MeantArg(a) == MeantArg(a);
  }

  lemma ArgNotEmpty(q: bytes, a: Arg, after: bytes)
    requires q != [] && !IsSpace(q[0]) && q == WrittenArg(a) + after && (after != [] ==> IsSpace(after[0]))
    ensures a.bare == [] ==> a.quoted.Some?
    ensures a.bare != [] ==> !IsSpace(a.bare[0])
  {
    assert a.bare == [] && a.quoted.None? ==> q == after;
    if a.bare != [] { assert q[0] == a.bare[0]; }
  }

  /** The argument, its blanks and the later arguments are what was read. */
  lemma ItemJoined(q: bytes, a: Arg, after: bytes, gap: bytes, later: seq<Item>)
    requires ProperArg(a) && q == WrittenArg(a) + after && Blank(gap) && ProperItems(later)
    requires after != [] ==> IsSpace(after[0]) && (a.quoted.None? ==> !BareChar(after[0]))
    requires (if a.quoted.Some? || after == [] then after else after[1..]) == gap + WrittenItems(later)
    ensures var whole := if a.quoted.Some? || after == [] then gap else [after[0]] + gap;
            var items := [Item(a, whole)] + later;
            ProperItems(items) && q == WrittenItems(items)
  {
    hide WrittenArg, ProperArg, ProperItems, ProperItem, WrittenItems, BareChar, IsSpace, Blank;
    var whole := if a.quoted.Some? || after == [] then gap else [after[0]] + gap;
    var written := WrittenItems(later);
    WholeGap(a, after, gap, written);
    BlankGap(gap, after);
    GapProper(a, whole, after, written);
    LaterFirst(later);
    assert whole == [] ==> after == written;
    OneItemMore(Item(a, whole), later);
    assert WrittenArg(a) + (whole + written) == WrittenArg(a) + whole + written;
  }

  lemma WholeGap(a: Arg, after: bytes, gap: bytes, written: bytes)
    requires (if a.quoted.Some? || after == [] then after else after[1..]) == gap + written
    ensures after == (if a.quoted.Some? || after == [] then gap else [after[0]] + gap) + written
  {
    if after != [] && a.quoted.None? { assert after == [after[0]] + after[1..]; }
  }

  lemma BlankGap(gap: bytes, after: bytes)
    requires Blank(gap) && (after != [] ==> IsSpace(after[0]))
    ensures after != [] ==> Blank([after[0]] + gap)
  {
    hide IsSpace;
  }

  /** The blanks behind the argument are proper. */
  lemma GapProper(a: Arg, whole: bytes, after: bytes, written: bytes)
    requires ProperArg(a) && after == whole + written && Blank(whole)
    requires after != [] ==> IsSpace(after[0]) && (a.quoted.None? ==> !BareChar(after[0]))
    ensures ProperItem(Item(a, whole))
  {
    hide ProperArg, BareChar, IsSpace;
    if whole != [] { assert whole[0] == after[0]; }
  }

  lemma LaterFirst(later: seq<Item>)
    requires ProperItems(later)
    ensures var p := WrittenItems(later); (later == [] <==> p == []) && (p != [] ==> !IsSpace(p[0]))
  {
    hide WrittenArg, ProperArg, BareChar, IsSpace;
    if later != [] { FirstOfItem(later[0], WrittenItems(later[1..])); }
  }

  lemma OneItemMore(item: Item, later: seq<Item>)
    requires ProperItem(item) && ProperItems(later) && (later != [] ==> item.gap != [])
    ensures ProperItems([item] + later)
    ensures WrittenItems([item] + later) == WrittenArg(item.arg) + item.gap + WrittenItems(later)
  {
    hide WrittenArg, ProperItem;
    assert ([item] + later)[1..] == later;
  }

  // ------------------------------------------------------------------- the language

  ghost predicate Reads(line: bytes, lead: bytes, items: seq<Item>) {
    Blank(lead) && ProperItems(items) && CStr(line) == lead + WrittenItems(items)
  }

  /** A line is split into these arguments if and only if, up to its first NUL, it is written as the
      grammar says, with arguments that mean these; every other line is rejected. */
  lemma SplitIsGrammar(line: bytes, argv: seq<bytes>)
    ensures SplitLine(line) == Some(argv) <==>
            exists lead, items | Reads(line, lead, items) :: MeantItems(items) == argv
  {
    hide ReadTokens, CStr, WrittenItems;
    if SplitLine(line).Some? {
      var lead, items := ItemsOf(CStr(line), []);
      assert [] + MeantItems(items) == MeantItems(items);
      assert Reads(line, lead, items);
    }
    forall lead, items | Reads(line, lead, items) ensures SplitLine(line) == Some(MeantItems(items)) {
      ReadItems(lead, items, []);
      assert [] + MeantItems(items) == MeantItems(items);
    }
  }

  /** Nothing behind a NUL matters. */
  lemma {:induction false} CStrEnds(s: bytes, more: bytes)
    requires NUL !in s
    ensures CStr(s + ([NUL] + more)) == s
  {
    hide CStr;
    var all := s + ([NUL] + more);
    CStrStep(all);
    if s == [] {
      assert all[0] == NUL;
    } else {
      assert all[0] == s[0] && all[1..] == s[1..] + ([NUL] + more);
      assert s[0] in s && forall x | x in s[1..] :: x in s;
      CStrEnds(s[1..], more);
      assert s == [s[0]] + s[1..];
    }
  }

  lemma CStrStep(s: bytes)
    ensures CStr(s) == if s == [] || s[0] == NUL then [] else [s[0]] + CStr(s[1..])
  {
  }

  // ------------------------------------------------------------------- plain words

  /** No blank of any kind, no quote and no NUL. */
  predicate Word(w: bytes) {
    w != [] && forall i | 0 <= i < |w| :: !IsSpace(w[i]) && w[i] != 34 && w[i] != 39 && w[i] != NUL
  }

  /** Blanks that end a word: the first is a space, a tab or a line end. */
  predicate Gap(gap: bytes) {
    gap != [] && Blank(gap) && gap[0] in [32, 9, 10, 13]
  }

  function Spaced(words: seq<bytes>, gaps: seq<bytes>): bytes
    requires |words| == |gaps|
    decreases |words|
  {
    if words == [] then [] else words[0] + gaps[0] + Spaced(words[1..], gaps[1..])
  }

  ghost predicate Words(words: seq<bytes>, gaps: seq<bytes>) {
    && |words| == |gaps| && (forall i | 0 <= i < |words| :: Word(words[i]))
    && forall i | 0 <= i < |gaps| :: Gap(gaps[i]) || (gaps[i] == [] && i == |gaps| - 1)
  }

  lemma {:induction false} ItemsOfWords(words: seq<bytes>, gaps: seq<bytes>) returns (items: seq<Item>)
    requires Words(words, gaps)
    ensures ProperItems(items) && |items| == |words| && WrittenItems(items) == Spaced(words, gaps)
            && MeantItems(items) == words
    ensures NUL !in Spaced(words, gaps)
    decreases |words|
  {
    if words == [] {
      items := [];
    } else {
      var later := ItemsOfWords(words[1..], gaps[1..]);
      var w := words[0];
      assert Word(w) && (Gap(gaps[0]) || (gaps[0] == [] && |gaps| == 1));
      var first := Item(Arg(w, None), gaps[0]);
      items := [first] + later;
      assert items[1..] == later && w + [] == w;
      WordIsItem(w, gaps[0]);
      assert words == [w] + words[1..];
    }
  }

  lemma WordIsItem(w: bytes, gap: bytes)
    requires Word(w) && (Gap(gap) || gap == [])
    ensures ProperItem(Item(Arg(w, None), gap)) && NUL !in w && NUL !in gap
  {
    assert forall i | 0 <= i < |gap| :: gap[i] != NUL by { assert !IsSpace(NUL); }
  }

  /** Words separated by any positive number of blanks, with any blanks before and behind, are split into
      exactly these words. */
  lemma WordsSplit(lead: bytes, words: seq<bytes>, gaps: seq<bytes>)
    requires Blank(lead) && Words(words, gaps)
    ensures SplitLine(lead + Spaced(words, gaps)) == Some(words)
  {
    hide SplitLine, CStr;
    var items := ItemsOfWords(words, gaps);
    var line := lead + Spaced(words, gaps);
    assert NUL !in lead by { assert !IsSpace(NUL); }
    CStrClean(line);
    assert Reads(line, lead, items);
    SplitIsGrammar(line, words);
  }

  /** A single-quoted argument contributes its text, with a backslash before each apostrophe; double
      quotes and other backslashes in it are plain. */
  lemma SingleQuotedSplit(text: bytes)
    requires ProperQuoted(InSingle(text))
    ensures SplitLine([39] + Apostrophes(text) + [39]) == Some([text])
  {
    hide SplitLine, CStr, Apostrophes;
    var line := [39] + Apostrophes(text) + [39];
    var items := [Item(Arg([], Some(InSingle(text))), [])];
    assert items[1..] == [];
    ApostrophesClean(text);
    CStrClean(line);
    var a := items[0].arg;
    assert ProperItem(items[0]) && ProperItems(items);
    assert WrittenArg(a) == [] + line && MeantArg(a) == [] + text;
    assert WrittenItems([]) == [];
    assert WrittenItems(items) == [] + line + [] + [] == line;
    assert Reads(line, [], items);
    assert MeantItems(items[1..]) == [] && MeantItems(items) == [[] + text] && [] + text == text;
    SplitIsGrammar(line, [text]);
  }

  lemma {:induction false} ApostrophesClean(text: bytes)
    requires NUL !in text
    ensures NUL !in Apostrophes(text)
  {
    if text != [] {
      assert text[0] in text && forall x | x in text[1..] :: x in text;
      ApostrophesClean(text[1..]);
    }
  }

  // -------------------------------------------------------------------- rejections

  lemma {:induction false} ReadAhead(lead: bytes, items: seq<Item>, tail: bytes, argv: seq<bytes>)
    requires Blank(lead) && ProperItems(items) && (forall i | 0 <= i < |items| :: items[i].gap != [])
    requires tail != [] && !IsSpace(tail[0]) && ReadToken(tail, [], Bare) == None
    ensures ReadTokens(lead + WrittenItems(items) + tail, argv) == None
    decreases |items|
  {
    hide ReadToken, ReadTokens, SkipBlanks, WrittenArg, MeantArg, WrittenItems, MeantItems, ProperItems, ProperItem,
         GapLeft, Blank, IsSpace;
    if items == [] {
      NoneWritten();
      assert lead + [] + tail == lead + tail;
      SkipBlank(lead, tail);
      TokensStep(lead + tail, tail, argv);
    } else {
      NextItem(items);
      var item, written := items[0], WrittenItems(items[1..]);
      assert lead + WrittenItems(items) + tail == lead + (WrittenArg(item.arg) + item.gap + (written + tail));
      ReadItem(lead, item, written + tail, argv);
      assert GapLeft(item) + (written + tail) == GapLeft(item) + written + tail;
      ReadAhead(GapLeft(item), items[1..], tail, argv + [MeantArg(item.arg)]);
    }
  }

  /** After any proper arguments with blanks behind each, a bare part and an open quote. */
  ghost predicate Ahead(lead: bytes, items: seq<Item>, bare: bytes) {
    && Blank(lead) && ProperItems(items) && (forall i | 0 <= i < |items| :: items[i].gap != [])
    && AllBare(bare) && (bare != [] ==> !IsSpace(bare[0]))
  }

  lemma RejectedTail(lead: bytes, items: seq<Item>, bare: bytes, tail: bytes)
    requires Ahead(lead, items, bare) && tail != [] && !IsSpace(tail[0]) && ReadToken(tail, bare, Bare) == None
    requires NUL !in lead + WrittenItems(items) + (bare + tail)
    ensures SplitLine(lead + WrittenItems(items) + (bare + tail)) == None
  {
    hide ReadToken, ReadTokens, WrittenItems, ProperItems;
    CStrClean(lead + WrittenItems(items) + (bare + tail));
    ReadBare(bare, tail, []);
    assert [] + bare == bare;
    ReadAhead(lead, items, bare + tail, []);
  }

  /** A closing quote followed by anything but a blank rejects the line. */
  lemma GluedRejected(lead: bytes, items: seq<Item>, bare: bytes, q: Quoted, rest: bytes)
    requires Ahead(lead, items, bare) && ProperQuoted(q) && rest != [] && !IsSpace(rest[0])
    requires NUL !in lead + WrittenItems(items) + (bare + (WrittenQuoted(q) + rest))
    ensures SplitLine(lead + WrittenItems(items) + (bare + (WrittenQuoted(q) + rest))) == None
  {
    hide ReadToken, ReadTokens, WrittenItems, ProperItems, SplitLine, ProperQuoted, MeantQuoted;
    ReadQuoted(q, rest, bare);
    QuoteFirst(q, rest);
    RejectedTail(lead, items, bare, WrittenQuoted(q) + rest);
  }

  lemma QuoteFirst(q: Quoted, rest: bytes)
    ensures var p := WrittenQuoted(q) + rest; p != [] && !IsSpace(p[0])
  {
    hide WrittenAll, Apostrophes;
  }

  /** So does a quote that is never closed, whatever comes behind it. */
  lemma UnclosedRejected(lead: bytes, items: seq<Item>, bare: bytes, text: bytes, ls: seq<Letter>)
    requires Ahead(lead, items, bare) && ProperLetters(ls)
    ensures NUL !in lead + WrittenItems(items) + (bare + ([39] + Apostrophes(text))) ==>
            SplitLine(lead + WrittenItems(items) + (bare + ([39] + Apostrophes(text)))) == None
    ensures NUL !in lead + WrittenItems(items) + (bare + ([34] + WrittenAll(ls))) ==>
            SplitLine(lead + WrittenItems(items) + (bare + ([34] + WrittenAll(ls)))) == None
  {
    hide ReadToken, ReadTokens, WrittenItems, ProperItems, SplitLine, Apostrophes, WrittenAll, ProperLetters;
    var single, double := [39] + Apostrophes(text), [34] + WrittenAll(ls);
    assert single[1..] == Apostrophes(text) && double[1..] == WrittenAll(ls);
    SingleOpens(single, bare);
    assert Apostrophes(text) + [] == Apostrophes(text);
    ReadApostrophes(text, [], bare);
    SingleNothing(bare + text);
    DoubleOpens(double, bare);
    LettersUnclosed(ls, bare);
    if NUL !in lead + WrittenItems(items) + (bare + single) { RejectedTail(lead, items, bare, single); }
    if NUL !in lead + WrittenItems(items) + (bare + double) { RejectedTail(lead, items, bare, double); }
  }

  lemma {:induction false} LettersUnclosed(ls: seq<Letter>, cur: bytes)
    requires ProperLetters(ls)
    ensures ReadToken(WrittenAll(ls), cur, Double) == None
    decreases |ls|
  {
    hide ReadToken, Written, Meant, IsNibble, WrittenAll;
    if ls == [] {
      NothingWritten();
      DoublePlain([], cur);
    } else {
      var later := WrittenAll(ls[1..]);
      assert WrittenAll(ls) == Written(ls[0]) + later by { FirstWritten(ls); }
      FirstNibbles(ls[1..], []);
      assert |later| >= 2 ==> (later + ([34] + []))[0] == later[0] && (later + ([34] + []))[1] == later[1];
      ReadLetter(ls[0], later, cur);
      LettersUnclosed(ls[1..], cur + [Meant(ls[0])]);
    }
  }

  lemma NothingWritten()
    ensures WrittenAll([]) == []
  {
  }

  lemma FirstWritten(ls: seq<Letter>)
    requires ls != []
    ensures WrittenAll(ls) == Written(ls[0]) + WrittenAll(ls[1..])
  {
  }
}
