/** The simple regular expressions of the bundled gtest: the validator accepts exactly a grammar,
    and the matcher finds exactly the substrings in the language of an accepted expression. */
module SimpleRegex {
  import opened Bytes

  const BACKSLASH: byte := 92
  const CARET: byte := 94
  const DOT: byte := 46
  const QUESTION: byte := 63

  // ---------------------------------------------------------------- characters

  predicate IsAsciiPunct(c: byte) {
    33 <= c <= 47 || 58 <= c <= 64 || 91 <= c <= 96 || 123 <= c <= 126
  }

  /** One of ? * + */
  predicate IsRepeat(c: byte) {
    c == QUESTION || c == STAR || c == PLUS
  }

  /** One of ( ) [ ] { } | */
  predicate IsUnsupported(c: byte) {
    c == 40 || c == 41 || c == 91 || c == 93 || c == 123 || c == 125 || c == 124
  }

  predicate IsAsciiWhiteSpace(c: byte) {
    c == 32 || 9 <= c <= 13
  }

  predicate IsAsciiWordChar(c: byte) {
    97 <= c <= 122 || 65 <= c <= 90 || IsDigit(c) || c == 95
  }

  /** Punctuation, or one of dDfnrsStvwW. */
  predicate IsValidEscape(c: byte) {
    IsAsciiPunct(c) || c in {100, 68, 102, 110, 114, 115, 83, 116, 118, 119, 87}
  }

  predicate AtomMatchesChar(escaped: bool, p: byte, c: byte) {
    if escaped then
      if p == 100 then IsDigit(c)
      else if p == 68 then !IsDigit(c)
      else if p == 102 then c == 12
      else if p == 110 then c == 10
      else if p == 114 then c == 13
      else if p == 115 then IsAsciiWhiteSpace(c)
      else if p == 83 then !IsAsciiWhiteSpace(c)
      else if p == 116 then c == 9
      else if p == 118 then c == 11
      else if p == 119 then IsAsciiWordChar(c)
      else if p == 87 then !IsAsciiWordChar(c)
      else IsAsciiPunct(p) && p == c
    else (p == DOT && c != 10) || p == c
  }

  // The classes of characters, written out.
  const DIGITS: bytes := [48, 49, 50, 51, 52, 53, 54, 55, 56, 57]
  const PUNCTUATION: bytes := [94, 45, 33, 34, 35, 36, 37, 38, 39, 40, 41, 42, 43, 44, 46, 47, 58, 59, 60, 61, 62, 63,
                               64, 91, 92, 93, 95, 96, 123, 124, 125, 126]
  const SPACES: bytes := [32, 12, 10, 13, 9, 11]
  const CLASSES: bytes := [100, 68, 102, 110, 114, 115, 83, 116, 118, 119, 87]

  /** What the escapes for classes match: \d, \s and \w the class, \D, \S and \W everything outside it. */
  lemma ClassMeaning(c: byte)
    ensures AtomMatchesChar(true, 100, c) <==> c in DIGITS
    ensures AtomMatchesChar(true, 68, c) <==> c !in DIGITS
    ensures AtomMatchesChar(true, 115, c) <==> c in SPACES
    ensures AtomMatchesChar(true, 83, c) <==> c !in SPACES
    ensures AtomMatchesChar(true, 119, c) <==> 97 <= c <= 122 || 65 <= c <= 90 || c in DIGITS || c == 95
    ensures AtomMatchesChar(true, 87, c) <==> !(97 <= c <= 122 || 65 <= c <= 90 || c in DIGITS || c == 95)
  {
  }

  /** The escapes for control characters: \f, \n, \r, \t and \v. */
  lemma ControlMeaning(c: byte)
    ensures AtomMatchesChar(true, 102, c) <==> c == 12
    ensures AtomMatchesChar(true, 110, c) <==> c == 10
    ensures AtomMatchesChar(true, 114, c) <==> c == 13
    ensures AtomMatchesChar(true, 116, c) <==> c == 9
    ensures AtomMatchesChar(true, 118, c) <==> c == 11
  {
  }

  lemma PunctuationRange(p: byte)
    ensures IsAsciiPunct(p) <==> p in PUNCTUATION
  {
  }

  /** Escaped punctuation matches itself. */
  lemma PunctuationMeaning(p: byte, c: byte)
    requires p in PUNCTUATION
    ensures AtomMatchesChar(true, p, c) <==> c == p
  {
    PunctuationRange(p);
  }

  /** A dot matches every character but the line feed, any other plain character only itself. */
  lemma PlainMeaning(p: byte, c: byte)
    ensures AtomMatchesChar(false, p, c) <==> if p == 46 then c != 10 else c == p
  {
  }

  /** The characters that may be escaped, those that repeat, and those that are not supported. */
  lemma SignMeaning(c: byte)
    ensures IsValidEscape(c) <==> c in PUNCTUATION || c in CLASSES
    ensures IsRepeat(c) <==> c in [63, 42, 43]
    ensures IsUnsupported(c) <==> c in [40, 41, 91, 93, 123, 125, 124]
  {
  }

  /** A question mark admits at most one match, a star any number, a plus at least one. */
  lemma RepeatSigns(n: nat)
    ensures Count(RepeatOf(63), n) <==> n <= 1
    ensures Count(RepeatOf(42), n)
    ensures Count(RepeatOf(43), n) <==> n >= 1
  {
  }

  // ------------------------------------------------------------------- grammar

  datatype Repeat = One | Optional | Any | Some1

  datatype Piece = Piece(escaped: bool, c: byte, rep: Repeat)

  /** An expression after its optional ^: pieces, and whether a $ ends it. */
  datatype Regex = Regex(pieces: seq<Piece>, toEnd: bool)

  function RepeatOf(c: byte): Repeat {
    if c == QUESTION then Optional else if c == STAR then Any else Some1
  }

  predicate IsPlainChar(c: byte) {
    c != BACKSLASH && c != CARET && c != DOLLAR && !IsUnsupported(c) && !IsRepeat(c)
  }

  /** The length of the atom at the head of s; 0 when there is none. */
  function AtomSize(s: bytes): (n: nat)
    ensures n <= |s| && n <= 2
  {
    if s == [] then 0
    else if s[0] == BACKSLASH then if |s| > 1 && IsValidEscape(s[1]) then 2 else 0
    else if IsPlainChar(s[0]) then 1
    else 0
  }

  /** The grammar: atoms with an optional repetition sign, then an optional $. */
  function Parse(s: bytes): Option<Regex>
    decreases |s|
  {
    if s == [] then Some(Regex([], false))
    else if s == [DOLLAR] then Some(Regex([], true))
    else
      var n := AtomSize(s);
      if n == 0 then None
      else
        var repeated := |s| > n && IsRepeat(s[n]);
        match Parse(s[if repeated then n + 1 else n..])
        case None => None
        case Some(rest) =>
          Some(rest.(pieces := [Piece(n == 2, s[n - 1], if repeated then RepeatOf(s[n]) else One)] + rest.pieces))
  }

  // ------------------------------------------------------------------ validator

  /** ValidateRegex from some character on. */
  predicate ValidFrom(s: bytes, first: bool, repeatable: bool)
    decreases |s|
  {
    if s == [] then true
    else if s[0] == BACKSLASH then |s| > 1 && IsValidEscape(s[1]) && ValidFrom(s[2..], false, true)
    else
      var c := s[0];
      && !(c == CARET && !first) && !(c == DOLLAR && |s| > 1) && !IsUnsupported(c) && !(IsRepeat(c) && !repeatable)
      && ValidFrom(s[1..], false, c != CARET && c != DOLLAR && !IsRepeat(c))
  }

  predicate Valid(regex: bytes) {
    ValidFrom(regex, true, false)
  }

  /** ValidateRegex; the messages are left out. */
  method ValidateRegex(regex: bytes) returns (isValid: bool)
    ensures isValid == Valid(regex)
  {
    isValid := true;
    var repeatable, i := false, 0;
    assert regex[0..] == regex;
    while i < |regex|
      invariant 0 <= i <= |regex|
      invariant (isValid && ValidFrom(regex[i..], i == 0, repeatable)) == Valid(regex)
    {
      ghost var s := regex[i..];
      assert s[1..] == regex[i + 1..];
      if regex[i] == BACKSLASH {
        i := i + 1;
        if i == |regex| { return false; }
        assert s[2..] == regex[i + 1..];
        if !IsValidEscape(regex[i]) {
          isValid := false;
        }
        repeatable := true;
      } else {
        var ch := regex[i];
        if ch == CARET && i > 0 {
          isValid := false;
        } else if ch == DOLLAR && i + 1 < |regex| {
          isValid := false;
        } else if IsUnsupported(ch) {
          isValid := false;
        } else if IsRepeat(ch) && !repeatable {
          isValid := false;
        }
        repeatable := !(ch == CARET || ch == DOLLAR || IsRepeat(ch));
      }
      i := i + 1;
    }
  }

  lemma {:induction false} ValidFromIsGrammar(s: bytes, repeatable: bool)
    ensures ValidFrom(s, false, repeatable) <==>
            Parse(if repeatable && s != [] && IsRepeat(s[0]) then s[1..] else s).Some?
    decreases |s|
  {
    if s != [] {
      var n := AtomSize(s);
      if n > 0 {
        ValidFromIsGrammar(s[n..], true);
        assert |s| > n ==> s[n..][0] == s[n] && s[n..][1..] == s[n + 1..];
      } else if IsRepeat(s[0]) {
        ValidFromIsGrammar(s[1..], false);
      }
    }
  }

  function Body(regex: bytes): bytes {
    if regex != [] && regex[0] == CARET then regex[1..] else regex
  }

  /** The validator accepts exactly the expressions of the grammar. */
  lemma ValidIsGrammar(regex: bytes)
    ensures Valid(regex) <==> Parse(Body(regex)).Some?
  {
    ValidFromIsGrammar(Body(regex), false);
  }

  // ------------------------------------------------------------------- language

  predicate Count(rep: Repeat, n: nat) {
    match rep
    case One => n == 1
    case Optional => n <= 1
    case Any => true
    case Some1 => n >= 1
  }

  predicate Fits(p: Piece, t: bytes) {
    Count(p.rep, |t|) && forall i | 0 <= i < |t| :: AtomMatchesChar(p.escaped, p.c, t[i])
  }

  /** t is a word of the pieces: it splits into parts that fit them in order. */
  ghost predicate InLanguage(pieces: seq<Piece>, t: bytes)
    decreases |pieces|
  {
    if pieces == [] then t == []
    else exists m | 0 <= m <= |t| :: Fits(pieces[0], t[..m]) && InLanguage(pieces[1..], t[m..])
  }

  /** Some prefix of str is a word, the whole of str if the expression ends in $. */
  ghost predicate PrefixMatches(r: Regex, str: bytes) {
    exists k | 0 <= k <= |str| :: (r.toEnd ==> k == |str|) && InLanguage(r.pieces, str[..k])
  }

  // -------------------------------------------------------------------- matcher

  /** MatchRegexAtHead. */
  predicate AtHead(regex: bytes, str: bytes)
    decreases |regex|, 0, 0
  {
    if regex == [] then true
    else if regex[0] == DOLLAR then str == []
    else
      var escaped := regex[0] == BACKSLASH;
      var r := if escaped then regex[1..] else regex;
      if r == [] then false
      else if |r| > 1 && IsRepeat(r[1]) then RepeatAtHead(escaped, r[0], r[1], r[2..], str, 0)
      else str != [] && AtomMatchesChar(escaped, r[0], str[0]) && AtHead(r[1..], str[1..])
  }

  /** The loop of MatchRepetitionAndRegexAtHead from i on. */
  predicate RepeatAtHead(escaped: bool, c: byte, repeat: byte, regex: bytes, str: bytes, i: nat)
    requires i <= |str|
    decreases |regex|, 1, |str| - i
  {
    !(repeat == QUESTION && i > 1) &&
    (|| ((repeat == PLUS ==> i >= 1) && AtHead(regex, str[i..]))
     || (i < |str| && AtomMatchesChar(escaped, c, str[i]) && RepeatAtHead(escaped, c, repeat, regex, str, i + 1)))
  }

  method MatchRegexAtHead(regex: bytes, str: bytes) returns (r: bool)
    ensures r == AtHead(regex, str)
    decreases |regex|, 0
  {
    if |regex| == 0 { return true; }
    if regex[0] == DOLLAR { return |str| == 0; }
    var escaped := regex[0] == BACKSLASH;
    var rest := if escaped then regex[1..] else regex;
    if |rest| == 0 { return false; }
    if |rest| > 1 && IsRepeat(rest[1]) {
      r := MatchRepetitionAndRegexAtHead(escaped, rest[0], rest[1], rest[2..], str);
    } else if |str| == 0 || !AtomMatchesChar(escaped, rest[0], str[0]) {
      return false;
    } else {
      r := MatchRegexAtHead(rest[1..], str[1..]);
    }
  }

  method MatchRepetitionAndRegexAtHead(escaped: bool, c: byte, repeat: byte, regex: bytes, str: bytes) returns (r: bool)
    ensures r == RepeatAtHead(escaped, c, repeat, regex, str, 0)
    decreases |regex|, 1
  {
    var minCount := if repeat == PLUS then 1 else 0;
    var i := 0;
    while !(repeat == QUESTION && i > 1)
      invariant 0 <= i <= |str|
      invariant RepeatAtHead(escaped, c, repeat, regex, str, 0) == RepeatAtHead(escaped, c, repeat, regex, str, i)
      decreases |str| - i
    {
      if i >= minCount {
        var tail := MatchRegexAtHead(regex, str[i..]);
        if tail { return true; }
      }
      if i == |str| || !AtomMatchesChar(escaped, c, str[i]) {
        return false;
      }
      i := i + 1;
    }
    return false;
  }

  ghost predicate Anywhere(regex: bytes, str: bytes) {
    if regex != [] && regex[0] == CARET then AtHead(regex[1..], str)
    else exists i | 0 <= i <= |str| :: AtHead(regex, str[i..])
  }

  method MatchRegexAnywhere(regex: bytes, str: bytes) returns (r: bool)
    ensures r == Anywhere(regex, str)
  {
    if |regex| > 0 && regex[0] == CARET {
      r := MatchRegexAtHead(regex[1..], str);
      return;
    }
    var i := 0;
    while i <= |str|
      invariant 0 <= i <= |str| + 1
      invariant forall j | 0 <= j < i :: !AtHead(regex, str[j..])
    {
      r := MatchRegexAtHead(regex, str[i..]);
      if r { return; }
      i := i + 1;
    }
    return false;
  }

  // --------------------------------------------------- soundness and completeness

  /** i more characters in, the loop succeeds exactly when some admissible number of matches
      leaves a tail that the rest of the expression matches. */
  lemma {:induction false} RepeatMeaning(escaped: bool, c: byte, repeat: byte, regex: bytes, str: bytes, i: nat)
    requires i <= |str| && IsRepeat(repeat)
    requires forall j | 0 <= j < i :: AtomMatchesChar(escaped, c, str[j])
    ensures RepeatAtHead(escaped, c, repeat, regex, str, i) <==>
            exists m | i <= m <= |str| :: Fits(Piece(escaped, c, RepeatOf(repeat)), str[..m]) && AtHead(regex, str[m..])
    decreases |str| - i
  {
    var p := Piece(escaped, c, RepeatOf(repeat));
    if i < |str| && AtomMatchesChar(escaped, c, str[i]) {
      RepeatMeaning(escaped, c, repeat, regex, str, i + 1);
    } else {
      forall m | i < m <= |str| ensures !Fits(p, str[..m]) {
        assert str[..m][i] == str[i];
      }
    }
    assert Fits(p, str[..i]) <==> Count(p.rep, i);
    if repeat == QUESTION && i > 1 {
      forall m | i <= m <= |str| ensures !Fits(p, str[..m]) {
      }
    }
  }

  lemma PrefixStep(p: Piece, rest: Regex, str: bytes)
    ensures PrefixMatches(rest.(pieces := [p] + rest.pieces), str) <==>
            exists m | 0 <= m <= |str| :: Fits(p, str[..m]) && PrefixMatches(rest, str[m..])
  {
    var r := rest.(pieces := [p] + rest.pieces);
    assert r.pieces[1..] == rest.pieces;
    if PrefixMatches(r, str) {
      var k :| 0 <= k <= |str| && (r.toEnd ==> k == |str|) && InLanguage(r.pieces, str[..k]);
      var t := str[..k];
      var m :| 0 <= m <= |t| && Fits(p, t[..m]) && InLanguage(rest.pieces, t[m..]);
      assert t[..m] == str[..m] && t[m..] == str[m..][..k - m];
      assert PrefixMatches(rest, str[m..]);
    }
    if m :| 0 <= m <= |str| && Fits(p, str[..m]) && PrefixMatches(rest, str[m..]) {
      var k :| 0 <= k <= |str[m..]| && (rest.toEnd ==> k == |str[m..]|) && InLanguage(rest.pieces, str[m..][..k]);
      var t := str[..m + k];
      assert t[..m] == str[..m] && t[m..] == str[m..][..k];
      assert InLanguage(r.pieces, t);
    }
  }

  lemma {:induction false} AtHeadMeaning(regex: bytes, str: bytes)
    requires Parse(regex).Some?
    ensures AtHead(regex, str) <==> PrefixMatches(Parse(regex).value, str)
    decreases |regex|
  {
    if regex == [] {
      assert InLanguage([], str[..0]);
    } else if regex == [DOLLAR] {
      assert str[..|str|] == str;
    } else {
      var n := AtomSize(regex);
      var repeated := |regex| > n && IsRepeat(regex[n]);
      var tail := regex[if repeated then n + 1 else n..];
      var p := Piece(n == 2, regex[n - 1], if repeated then RepeatOf(regex[n]) else One);
      var rest := Parse(tail).value;
      PrefixStep(p, rest, str);
      forall m | 0 <= m <= |str| ensures AtHead(tail, str[m..]) <==> PrefixMatches(rest, str[m..]) {
        AtHeadMeaning(tail, str[m..]);
      }
      AtHeadUnfolds(regex, str, p, tail, repeated);
    }
  }

  /** AtHead on an atom, in terms of how much of str the atom takes. */
  lemma AtHeadUnfolds(regex: bytes, str: bytes, p: Piece, tail: bytes, repeated: bool)
    requires var n := AtomSize(regex);
             && n > 0 && repeated == (|regex| > n && IsRepeat(regex[n]))
             && tail == regex[if repeated then n + 1 else n..]
             && p == Piece(n == 2, regex[n - 1], if repeated then RepeatOf(regex[n]) else One)
    ensures AtHead(regex, str) <==> exists m | 0 <= m <= |str| :: Fits(p, str[..m]) && AtHead(tail, str[m..])
  {
    var n := AtomSize(regex);
    var r := if n == 2 then regex[1..] else regex;
    assert r[0] == p.c && r[1..] == regex[n..];
    if repeated {
      assert r[1] == regex[n] && r[2..] == tail;
      RepeatMeaning(p.escaped, p.c, r[1], tail, str, 0);
    } else {
      assert AtHead(regex, str) <==> str != [] && AtomMatchesChar(p.escaped, p.c, str[0]) && AtHead(tail, str[1..]);
      if str != [] {
        assert Fits(p, str[..1]) <==> AtomMatchesChar(p.escaped, p.c, str[0]);
      }
    }
  }

  /** Some substring that starts at i is a word, up to the end of str if the expression ends in $. */
  ghost predicate WordFrom(r: Regex, str: bytes, i: nat)
    requires i <= |str|
  {
    exists j | i <= j <= |str| :: (r.toEnd ==> j == |str|) && InLanguage(r.pieces, str[i..j])
  }

  lemma PrefixIsWord(r: Regex, str: bytes, i: nat)
    requires i <= |str|
    ensures PrefixMatches(r, str[i..]) <==> WordFrom(r, str, i)
  {
    assert forall k | 0 <= k <= |str| - i :: str[i..][..k] == str[i..i + k];
    assert forall j | i <= j <= |str| :: str[i..j] == str[i..][..j - i];
  }

  /** The matcher is sound and complete for every accepted expression: it succeeds exactly when
      some substring, at the start if ^ leads and up to the end if $ closes, is a word. */
  lemma MatcherCorrect(regex: bytes, str: bytes)
    requires Valid(regex)
    ensures Parse(Body(regex)).Some?
    ensures var r := Parse(Body(regex)).value;
            Anywhere(regex, str) <==> if Body(regex) != regex then WordFrom(r, str, 0)
                                      else exists i | 0 <= i <= |str| :: WordFrom(r, str, i)
  {
    ValidIsGrammar(regex);
    var r := Parse(Body(regex)).value;
    forall i | 0 <= i <= |str| ensures AtHead(Body(regex), str[i..]) <==> WordFrom(r, str, i) {
      AtHeadMeaning(Body(regex), str[i..]);
      PrefixIsWord(r, str, i);
    }
    assert str[0..] == str;
  }
}
