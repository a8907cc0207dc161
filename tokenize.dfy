/** The two `re.split` calls of the parser, each with its pattern in one
    capturing group, so that the matches are kept in the result:
      ElementSymbol  `([A-Z][a-z]?)`                 (Code.py.PY:42)
      ParenGroup     `(\([A-Za-z0-9]*\)[0-9]*)`       (Code.py.PY:55)
    `re.split` returns text, match, text, ..., match, text: always an odd
    number of parts, with the matches at the odd positions. */
module Tokenize {
  import opened Text

  datatype Pattern = ElementSymbol | ParenGroup

  /** Length of the match of `p` that starts at the first character of `s`,
      0 when there is none (neither pattern matches the empty string). */
  function MatchLen(p: Pattern, s: string): (n: nat)
    ensures n <= |s|
  {
    match p
    case ElementSymbol =>
      if s != [] && IsUpper(s[0]) then (if |s| > 1 && IsLower(s[1]) then 2 else 1) else 0
    case ParenGroup =>
      if s != [] && s[0] == '(' then
        var k := 1 + Span(s[1..], Alphanumerics);
        if k < |s| && s[k] == ')' then k + 1 + Span(s[k + 1..], Digits) else 0
      else 0
  }

  /** `re.split` with a pattern in one capturing group: scan left to right,
      and at each position either take the match that starts there or keep the
      character as text. */
  function Split(p: Pattern, s: string): (parts: seq<string>)
    ensures |parts| >= 1
    decreases |s|
  {
    if s == [] then [""]
    else if MatchLen(p, s) > 0 then
      var n := MatchLen(p, s);
      ["", s[..n]] + Split(p, s[n..])
    else
      var rest := Split(p, s[1..]);
      [[s[0]] + rest[0]] + rest[1..]
  }

  /** An element symbol as the tokeniser recognises it: `[A-Z][a-z]?`. */
  predicate IsSymbol(s: string)
  {
    (|s| == 1 && IsUpper(s[0])) || (|s| == 2 && IsUpper(s[0]) && IsLower(s[1]))
  }

  /** A parenthesised group `(inner)digits` with an alphanumeric inner part;
      `close` is the position of its only ')'. */
  predicate IsGroupAt(g: string, close: nat)
  {
    && 1 <= close < |g|
    && g[0] == '(' && g[close] == ')'
    && (forall i :: 1 <= i < close ==> InClass(g[i], Alphanumerics))
    && AllDigits(g[close + 1..])
  }

  /** Matching again inside a match finds the same match. */
  lemma MatchOfMatch(p: Pattern, s: string)
    requires MatchLen(p, s) > 0
    ensures MatchLen(p, s[..MatchLen(p, s)]) == MatchLen(p, s)
  {
    var n := MatchLen(p, s);
    var m := s[..n];
    if p.ParenGroup? {
      var k := 1 + Span(s[1..], Alphanumerics);
      assert k < |s| && s[k] == ')';
      assert m[1..][..k] == s[1..][..k];
      SpanAgrees(s[1..], m[1..], Alphanumerics, k);
      var digits := s[k + 1..];
      var d := Span(digits, Digits);
      assert m[k + 1..] == digits[..d];
      SpanMaximal(digits, Digits);
      SpanOfAll(digits[..d], Digits);
    }
  }

  /** Two texts that agree up to the point where a span stops have that span. */
  /** A match at the front of a text is still a match once more text
      follows. */
  lemma MatchExtends(p: Pattern, t: string, u: string)
    requires MatchLen(p, t) > 0
    requires |t| <= |u| && u[..|t|] == t
    ensures MatchLen(p, u) > 0
  {
    assert u[0] == t[0] by { assert u[..|t|][0] == t[0]; }
    if p.ParenGroup? {
      var k := 1 + Span(t[1..], Alphanumerics);
      assert t[1..][..k] == u[1..][..k] by {
        assert t[1..][..k] == t[1..k + 1];
        assert u[1..][..k] == u[..|t|][1..k + 1];
      }
      SpanAgrees(t[1..], u[1..], Alphanumerics, k);
      assert u[k] == t[k] by { assert u[..|t|][k] == t[k]; }
    } else if |t| > 1 && IsLower(t[1]) {
      assert u[1] == t[1] by { assert u[..|t|][1] == t[1]; }
    }
  }

  /** The first part of a split is a prefix of the text. */
  lemma SplitFirstIsPrefix(p: Pattern, s: string)
    ensures |Split(p, s)[0]| <= |s| && s[..|Split(p, s)[0]|] == Split(p, s)[0]
  {
    var parts := Split(p, s);
    SplitRoundTrip(p, s);
    assert parts == [parts[0]] + parts[1..];
    ConcatCons(parts[0], parts[1..]);
  }

  /** Where no match starts, none starts at the front of the first text
      part either. */
  lemma FirstTextNoMatch(p: Pattern, s: string)
    requires s != [] && MatchLen(p, s) == 0
    ensures MatchLen(p, Split(p, s)[0]) == 0
  {
    var first := Split(p, s)[0];
    SplitFirstIsPrefix(p, s);
    if MatchLen(p, first) > 0 {
      MatchExtends(p, first, s);
    }
  }

  /** No match of `p` starts anywhere inside a text part of its split (the
      part at position `2 * half`): the scan would have taken it. */
  lemma {:induction false} TextHasNoMatch(p: Pattern, s: string, half: nat, i: nat)
    requires 2 * half < |Split(p, s)|
    requires i < |Split(p, s)[2 * half]|
    ensures MatchLen(p, Split(p, s)[2 * half][i..]) == 0
    decreases |s|
  {
    var n := MatchLen(p, s);
    if n > 0 {
      TextPartAfterMatch(p, s, 2 * half);
      TextHasNoMatch(p, s[n..], half - 1, i);
    } else if half == 0 && i == 0 {
      FirstTextNoMatch(p, s);
      assert Split(p, s)[0][0..] == Split(p, s)[0];
    } else if half == 0 {
      FirstTextTail(p, s, i);
      TextHasNoMatch(p, s[1..], 0, i - 1);
    } else {
      TextPartAfterText(p, s, 2 * half);
      TextHasNoMatch(p, s[1..], half, i);
    }
  }

  /** Past a match, text part k is text part k - 2 of the rest. */
  lemma TextPartAfterMatch(p: Pattern, s: string, k: nat)
    requires MatchLen(p, s) > 0 && k < |Split(p, s)| && k != 1
    requires Split(p, s)[k] != []
    ensures k >= 2 && k - 2 < |Split(p, s[MatchLen(p, s)..])|
    ensures Split(p, s)[k] == Split(p, s[MatchLen(p, s)..])[k - 2]
  {
    var parts, n := Split(p, s), MatchLen(p, s);
    var rest := Split(p, s[n..]);
    assert parts == ["", s[..n]] + rest by { SplitMatchUnfold(p, s); }
    assert k != 0 by { assert parts[0] == ""; }
    ShiftTwo(parts, "", s[..n], rest, k);
  }

  lemma ShiftTwo(parts: seq<string>, a: string, b: string, rest: seq<string>, k: nat)
    requires parts == [a, b] + rest && 2 <= k < |parts|
    ensures k - 2 < |rest| && parts[k] == rest[k - 2]
  {
  }

  /** Past a character kept as text, the first text part goes on in the
      first text part of the rest. */
  lemma FirstTextTail(p: Pattern, s: string, i: nat)
    requires s != [] && MatchLen(p, s) == 0
    requires 0 < i < |Split(p, s)[0]|
    ensures i - 1 < |Split(p, s[1..])[0]|
    ensures Split(p, s)[0][i..] == Split(p, s[1..])[0][i - 1..]
  {
    SplitTextUnfold(p, s);
  }

  /** Past a character kept as text, later parts are those of the rest. */
  lemma TextPartAfterText(p: Pattern, s: string, k: nat)
    requires s != [] && MatchLen(p, s) == 0
    requires 0 < k < |Split(p, s)|
    ensures k < |Split(p, s[1..])| && Split(p, s)[k] == Split(p, s[1..])[k]
  {
    SplitTextUnfold(p, s);
  }

  lemma {:induction false} SpanAgrees(s: string, t: string, cls: CharClass, n: nat)
    requires Span(s, cls) < n <= |t| && n <= |s|
    requires s[..n] == t[..n]
    ensures Span(t, cls) == Span(s, cls)
    decreases n
  {
    assert s[0] == t[0] by { assert s[..n][0] == t[..n][0]; }
    if InClass(s[0], cls) {
      assert s[1..][..n - 1] == t[1..][..n - 1] by {
        assert s[1..][..n - 1] == s[..n][1..];
        assert t[1..][..n - 1] == t[..n][1..];
      }
      SpanAgrees(s[1..], t[1..], cls, n - 1);
    }
  }

  /** `re.split` loses nothing: concatenating the parts gives back the input. */
  lemma {:induction false} SplitRoundTrip(p: Pattern, s: string)
    ensures Concat(Split(p, s)) == s
    decreases |s|
  {
    if s != [] {
      var n := MatchLen(p, s);
      if n > 0 {
        SplitRoundTrip(p, s[n..]);
        RoundTripMatchStep(p, s);
      } else {
        SplitRoundTrip(p, s[1..]);
        RoundTripTextStep(p, s);
      }
    }
  }

  /** The round trip across a match at the front of the text. */
  lemma RoundTripMatchStep(p: Pattern, s: string)
    requires MatchLen(p, s) > 0
    requires Concat(Split(p, s[MatchLen(p, s)..])) == s[MatchLen(p, s)..]
    ensures Concat(Split(p, s)) == s
  {
    var n := MatchLen(p, s);
    SplitMatchUnfold(p, s);
    ConcatMatch(s[..n], Split(p, s[n..]));
    SliceHalves(s, n);
  }

  /** The round trip across one character of text that starts no match. */
  lemma RoundTripTextStep(p: Pattern, s: string)
    requires s != [] && MatchLen(p, s) == 0
    requires Concat(Split(p, s[1..])) == s[1..]
    ensures Concat(Split(p, s)) == s
  {
    SplitTextUnfold(p, s);
    ConcatText(s[0], Split(p, s[1..]));
    SliceHalves(s, 1);
    assert s[..1] == [s[0]];
  }

  lemma SliceHalves(s: string, n: nat)
    requires n <= |s|
    ensures s[..n] + s[n..] == s
  {
  }

  /** One step of the split where a match starts the text. */
  lemma SplitMatchUnfold(p: Pattern, s: string)
    requires MatchLen(p, s) > 0
    ensures Split(p, s) == ["", s[..MatchLen(p, s)]] + Split(p, s[MatchLen(p, s)..])
  {
  }

  /** One step of the split where the first character starts no match. */
  lemma SplitTextUnfold(p: Pattern, s: string)
    requires s != [] && MatchLen(p, s) == 0
    ensures Split(p, s) == [[s[0]] + Split(p, s[1..])[0]] + Split(p, s[1..])[1..]
  {
  }

  lemma ConcatMatch(m: string, rest: seq<string>)
    ensures Concat(["", m] + rest) == m + Concat(rest)
  {
    assert ["", m] + rest == [""] + ([m] + rest);
    ConcatCons("", [m] + rest);
    ConcatCons(m, rest);
  }

  lemma ConcatText(c: char, rest: seq<string>)
    requires |rest| >= 1
    ensures Concat([[c] + rest[0]] + rest[1..]) == [c] + Concat(rest)
  {
    var head, tail := rest[0], Concat(rest[1..]);
    ConcatCons([c] + head, rest[1..]);
    assert Concat(rest) == head + tail;
    AppendAssoc([c], head, tail);
  }

  lemma AppendAssoc(a: string, b: string, c: string)
    ensures (a + b) + c == a + (b + c)
  {
  }

  /** A whole match of `p`. */
  predicate IsMatch(p: Pattern, t: string)
  {
    0 < |t| && MatchLen(p, t) == |t|
  }

  /** The matches of `p` sit at the odd positions of a split. */
  predicate MatchesAtOdd(p: Pattern, parts: seq<string>)
  {
    forall k :: 0 <= k < |parts| && k % 2 == 1 ==> IsMatch(p, parts[k])
  }

  /** The split has `2 * h + 1` parts: `h` matches and `h + 1` texts. */
  lemma {:induction false} SplitHalves(p: Pattern, s: string) returns (h: nat)
    ensures |Split(p, s)| == 2 * h + 1
    decreases |s|
  {
    if s == [] {
      h := 0;
    } else if MatchLen(p, s) > 0 {
      SplitMatchUnfold(p, s);
      var rest := SplitHalves(p, s[MatchLen(p, s)..]);
      h := rest + 1;
    } else {
      SplitTextUnfold(p, s);
      h := SplitHalves(p, s[1..]);
    }
  }

  lemma {:induction false} SplitOddLength(p: Pattern, s: string)
    ensures |Split(p, s)| % 2 == 1
  {
    var h := SplitHalves(p, s);
    assert (2 * h + 1) % 2 == 1;
  }

  /** After a leading match, the second part is that match. */
  lemma SplitFirstMatch(p: Pattern, s: string)
    requires MatchLen(p, s) > 0
    ensures IsMatch(p, Split(p, s)[1])
  {
    assert Split(p, s)[1] == s[..MatchLen(p, s)] by { SplitMatchUnfold(p, s); }
    MatchOfMatch(p, s);
  }

  /** After a leading match, part `2 * half + 1` is part `2 * half - 1` of
      the rest of the text. */
  lemma MatchPartAfterMatch(p: Pattern, s: string, half: nat)
    requires MatchLen(p, s) > 0 && 0 < half && 2 * half + 1 < |Split(p, s)|
    ensures 2 * (half - 1) + 1 < |Split(p, s[MatchLen(p, s)..])|
    ensures Split(p, s)[2 * half + 1] == Split(p, s[MatchLen(p, s)..])[2 * (half - 1) + 1]
  {
    var n := MatchLen(p, s);
    var rest := Split(p, s[n..]);
    var k := 2 * half + 1;
    assert k - 2 < |rest| && Split(p, s)[k] == rest[k - 2] by {
      SplitMatchUnfold(p, s);
      ShiftTwo(Split(p, s), "", s[..n], rest, k);
    }
    assert k - 2 == 2 * (half - 1) + 1;
  }

  /** Part `2 * half + 1` is a whole match. */
  lemma {:induction false} SplitMatchAt(p: Pattern, s: string, half: nat)
    requires 2 * half + 1 < |Split(p, s)|
    ensures IsMatch(p, Split(p, s)[2 * half + 1])
    decreases |s|, 1
  {
    if MatchLen(p, s) > 0 {
      MatchAtAfterMatch(p, s, half);
    } else {
      MatchAtAfterText(p, s, half);
    }
  }

  lemma {:induction false} MatchAtAfterMatch(p: Pattern, s: string, half: nat)
    requires MatchLen(p, s) > 0 && 2 * half + 1 < |Split(p, s)|
    ensures IsMatch(p, Split(p, s)[2 * half + 1])
    decreases |s|, 0
  {
    if half == 0 {
      SplitFirstMatch(p, s);
    } else {
      MatchPartAfterMatch(p, s, half);
      SplitMatchAt(p, s[MatchLen(p, s)..], half - 1);
    }
  }

  lemma {:induction false} MatchAtAfterText(p: Pattern, s: string, half: nat)
    requires MatchLen(p, s) == 0 && 2 * half + 1 < |Split(p, s)|
    ensures IsMatch(p, Split(p, s)[2 * half + 1])
    decreases |s|, 0
  {
    assert s != [] by { assert Split(p, []) == [""]; }
    TextPartAfterText(p, s, 2 * half + 1);
    SplitMatchAt(p, s[1..], half);
  }

  lemma OddHalf(k: nat) returns (half: nat)
    requires k % 2 == 1
    ensures k == 2 * half + 1
  {
    half := k / 2;
  }

  lemma SplitOddIsMatch(p: Pattern, s: string, k: nat)
    requires k < |Split(p, s)| && k % 2 == 1
    ensures IsMatch(p, Split(p, s)[k])
  {
    var half := OddHalf(k);
    SplitMatchAt(p, s, half);
  }

  /** The parts alternate: text at even positions, a whole match at odd ones. */
  lemma SplitAlternates(p: Pattern, s: string)
    ensures |Split(p, s)| % 2 == 1
    ensures MatchesAtOdd(p, Split(p, s))
  {
    SplitOddLength(p, s);
    forall k | 0 <= k < |Split(p, s)| && k % 2 == 1
      ensures IsMatch(p, Split(p, s)[k])
    {
      SplitOddIsMatch(p, s, k);
    }
  }

  /** The element tokeniser: odd parts are symbols `[A-Z][a-z]?`, even parts
      hold no upper-case letter, and the parts concatenate to the segment. */
  lemma ElementSplit(segment: string)
    ensures var parts := Split(ElementSymbol, segment);
      && |parts| % 2 == 1
      && Concat(parts) == segment
      && (forall k :: 0 <= k < |parts| && k % 2 == 1 ==> IsSymbol(parts[k]))
      && (forall k, i :: 0 <= k < |parts| && k % 2 == 0 && 0 <= i < |parts[k]| ==> !IsUpper(parts[k][i]))
  {
    var parts := Split(ElementSymbol, segment);
    SplitRoundTrip(ElementSymbol, segment);
    SplitAlternates(ElementSymbol, segment);
    forall k, i | 0 <= k < |parts| && k % 2 == 0 && 0 <= i < |parts[k]|
      ensures !IsUpper(parts[k][i])
    {
      TextHasNoUpper(segment, k, i);
    }
  }

  lemma {:induction false} TextHasNoUpper(s: string, k: nat, i: nat)
    requires k < |Split(ElementSymbol, s)| && k % 2 == 0
    requires i < |Split(ElementSymbol, s)[k]|
    ensures !IsUpper(Split(ElementSymbol, s)[k][i])
    decreases |s|
  {
    var parts := Split(ElementSymbol, s);
    var n := MatchLen(ElementSymbol, s);
    if n > 0 {
      var rest := Split(ElementSymbol, s[n..]);
      assert parts == ["", s[..n]] + rest;
      assert parts[k] == rest[k - 2];
      TextHasNoUpper(s[n..], k - 2, i);
    } else {
      assert !IsUpper(s[0]);
      var rest := Split(ElementSymbol, s[1..]);
      assert parts == [[s[0]] + rest[0]] + rest[1..];
      if k == 0 && i == 0 {
        assert parts[0][0] == s[0];
      } else if k == 0 {
        assert parts[0][i] == rest[0][i - 1];
        TextHasNoUpper(s[1..], 0, i - 1);
      } else {
        assert parts[k] == rest[k];
        TextHasNoUpper(s[1..], k, i);
      }
    }
  }

  /** A whole group match is `(inner)digits`. */
  lemma MatchIsGroup(g: string)
    requires IsMatch(ParenGroup, g)
    ensures IsGroup(g)
  {
    var close := 1 + Span(g[1..], Alphanumerics);
    SpanMaximal(g[1..], Alphanumerics);
    SpanMaximal(g[close + 1..], Digits);
    forall i | 1 <= i < close ensures InClass(g[i], Alphanumerics) {
      assert g[i] == g[1..][i - 1];
    }
    assert g[close + 1..] == g[close + 1..][..Span(g[close + 1..], Digits)];
  }

  /** A group: `(inner)digits` with `inner` alphanumeric. */
  predicate IsGroup(g: string)
  {
    |g| >= 2 && IsGroupAt(g, 1 + Span(g[1..], Alphanumerics))
  }

  /** The digits after a group's `)` are taken greedily: the character
      after the match, if any, is not a digit. */
  lemma GroupDigitsMaximal(s: string)
    requires 0 < MatchLen(ParenGroup, s) < |s|
    ensures !IsDigit(s[MatchLen(ParenGroup, s)])
  {
    var k := 1 + Span(s[1..], Alphanumerics);
    var t := s[k + 1..];
    SpanMaximal(t, Digits);
    assert s[MatchLen(ParenGroup, s)] == t[Span(t, Digits)];
  }

  /** A text part right after a group does not start with a digit. */
  lemma {:induction false} TextAfterGroup(s: string, half: nat)
    requires 0 < half && 2 * half < |Split(ParenGroup, s)|
    requires Split(ParenGroup, s)[2 * half] != []
    ensures !IsDigit(Split(ParenGroup, s)[2 * half][0])
    decreases |s|, 1
  {
    if MatchLen(ParenGroup, s) > 0 {
      TextAfterGroupMatch(s, half);
    } else {
      assert s != [] by { assert Split(ParenGroup, []) == [""]; }
      TextPartAfterText(ParenGroup, s, 2 * half);
      TextAfterGroup(s[1..], half);
    }
  }

  lemma {:induction false} TextAfterGroupMatch(s: string, half: nat)
    requires MatchLen(ParenGroup, s) > 0
    requires 0 < half && 2 * half < |Split(ParenGroup, s)|
    requires Split(ParenGroup, s)[2 * half] != []
    ensures !IsDigit(Split(ParenGroup, s)[2 * half][0])
    decreases |s|, 0
  {
    var n := MatchLen(ParenGroup, s);
    TextPartAfterMatch(ParenGroup, s, 2 * half);
    var rest := s[n..];
    if half == 1 {
      var first := Split(ParenGroup, rest)[0];
      SplitFirstIsPrefix(ParenGroup, rest);
      assert first[0] == rest[0] == s[n];
      GroupDigitsMaximal(s);
    } else {
      assert 2 * half - 2 == 2 * (half - 1);
      TextAfterGroup(rest, half - 1);
    }
  }

  lemma EvenHalf(k: nat) returns (half: nat)
    requires k % 2 == 0
    ensures k == 2 * half
  {
    half := k / 2;
  }

  /** The group splitter: odd parts are groups `(inner)digits`, no group
      starts anywhere in a text part, a text part after a group does not
      start with a digit (the digits are taken greedily), and the parts
      concatenate to the compound. */
  lemma GroupSplit(compound: string)
    ensures |Split(ParenGroup, compound)| % 2 == 1
    ensures Concat(Split(ParenGroup, compound)) == compound
    ensures forall k :: 0 <= k < |Split(ParenGroup, compound)| && k % 2 == 1 ==>
      IsGroup(Split(ParenGroup, compound)[k])
    ensures var parts := Split(ParenGroup, compound);
      forall k, i :: 0 <= k < |parts| && k % 2 == 0 && 0 <= i < |parts[k]| ==> MatchLen(ParenGroup, parts[k][i..]) == 0
    ensures var parts := Split(ParenGroup, compound);
      forall k :: 0 < k < |parts| && k % 2 == 0 && parts[k] != [] ==> !IsDigit(parts[k][0])
  {
    forall k, i | 0 <= k < |Split(ParenGroup, compound)| && k % 2 == 0 && 0 <= i < |Split(ParenGroup, compound)[k]|
      ensures MatchLen(ParenGroup, Split(ParenGroup, compound)[k][i..]) == 0
    {
      var half := EvenHalf(k);
      TextHasNoMatch(ParenGroup, compound, half, i);
    }
    forall k | 0 < k < |Split(ParenGroup, compound)| && k % 2 == 0 && Split(ParenGroup, compound)[k] != []
      ensures !IsDigit(Split(ParenGroup, compound)[k][0])
    {
      var half := EvenHalf(k);
      TextAfterGroup(compound, half);
    }
    SplitRoundTrip(ParenGroup, compound);
    SplitOddLength(ParenGroup, compound);
    forall k | 0 <= k < |Split(ParenGroup, compound)| && k % 2 == 1
      ensures IsGroup(Split(ParenGroup, compound)[k])
    {
      SplitOddIsMatch(ParenGroup, compound, k);
      MatchIsGroup(Split(ParenGroup, compound)[k]);
    }
  }

  /** A first character other than '(' is kept as text. */
  lemma SplitTextStep(t: string)
    requires t != [] && t[0] != '('
    ensures var tail := Split(ParenGroup, t[1..]);
      Split(ParenGroup, t)[0] == [t[0]] + tail[0] && Split(ParenGroup, t)[1..] == tail[1..]
  {
    assert MatchLen(ParenGroup, t) == 0;
  }

  /** Where no match starts, the first character is kept as text. */
  lemma SplitNoMatch(p: Pattern, t: string)
    requires t != [] && MatchLen(p, t) == 0
    ensures var tail := Split(p, t[1..]);
      Split(p, t)[0] == [t[0]] + tail[0] && Split(p, t)[1..] == tail[1..]
  {
  }

  /** Where a match starts, the text before it is empty. */
  lemma SplitMatchFirst(p: Pattern, t: string)
    requires MatchLen(p, t) > 0
    ensures Split(p, t)[0] == ""
  {
  }

  /** Text without '(' holds no group: it is kept whole in front of the
      split of what follows. */
  lemma {:induction false} SplitBareThen(a: string, s: string)
    requires Avoids(a, '(')
    ensures var rest := Split(ParenGroup, s);
      Split(ParenGroup, a + s)[0] == a + rest[0] && Split(ParenGroup, a + s)[1..] == rest[1..]
    decreases |a|
  {
    var rest := Split(ParenGroup, s);
    if a == [] {
      assert a + s == s && a + rest[0] == rest[0];
    } else {
      var t := a + s;
      assert t[0] == a[0] && t[1..] == a[1..] + s;
      SplitTextStep(t);
      SplitBareThen(a[1..], s);
      AppendAssoc([a[0]], a[1..], rest[0]);
      assert [a[0]] + a[1..] == a;
    }
  }

  /** A group on its own is one match between two empty texts. */
  lemma SplitGroupAlone(g: string)
    requires IsGroup(g)
    ensures Split(ParenGroup, g) == ["", g, ""]
  {
    var close := 1 + Span(g[1..], Alphanumerics);
    var digits := g[close + 1..];
    SpanOfAll(digits, Digits);
    assert MatchLen(ParenGroup, g) == |g|;
    assert g[..|g|] == g && g[|g|..] == [];
  }
}
