/** Character classes, decimal numerals and the string operations the balancer
    applies to its input. Only ASCII letters and digits are recognised, which is
    what the regular expressions `[A-Z]`, `[a-z]` and `[0-9]` match. */
module Text {

  predicate IsUpper(c: char) { 'A' <= c <= 'Z' }
  predicate IsLower(c: char) { 'a' <= c <= 'z' }
  predicate IsDigit(c: char) { '0' <= c <= '9' }

  datatype CharClass = Digits | Alphanumerics

  predicate InClass(c: char, cls: CharClass)
  {
    match cls
    case Digits => IsDigit(c)
    case Alphanumerics => IsUpper(c) || IsLower(c) || IsDigit(c)
  }

  predicate AllDigits(s: string)
  {
    forall i :: 0 <= i < |s| ==> IsDigit(s[i])
  }

  /** Python's `str.isdigit` on ASCII text: non-empty and nothing but digits. */
  predicate IsDigits(s: string)
  {
    |s| > 0 && AllDigits(s)
  }

  /** Length of the longest prefix of `s` whose characters are all in `cls`:
      what a greedy `[0-9]*` or `[A-Za-z0-9]*` consumes (SpanMaximal). */
  function Span(s: string, cls: CharClass): (n: nat)
    ensures n <= |s|
    decreases |s|
  {
    if s != [] && InClass(s[0], cls) then 1 + Span(s[1..], cls) else 0
  }

  /** The span is a prefix in the class that cannot be extended. */
  lemma {:induction false} SpanMaximal(s: string, cls: CharClass)
    ensures forall i :: 0 <= i < Span(s, cls) ==> InClass(s[i], cls)
    ensures Span(s, cls) < |s| ==> !InClass(s[Span(s, cls)], cls)
    decreases |s|
  {
    if s != [] && InClass(s[0], cls) {
      SpanMaximal(s[1..], cls);
      forall i | 0 < i < Span(s, cls) ensures InClass(s[i], cls) {
        assert s[i] == s[1..][i - 1];
      }
    }
  }

  /** Text entirely in the class is spanned whole. */
  lemma {:induction false} SpanOfAll(s: string, cls: CharClass)
    requires forall i :: 0 <= i < |s| ==> InClass(s[i], cls)
    ensures Span(s, cls) == |s|
    decreases |s|
  {
    if s != [] {
      assert InClass(s[0], cls);
      forall i | 0 <= i < |s| - 1 ensures InClass(s[1..][i], cls) {
        assert s[1..][i] == s[i + 1];
      }
      SpanOfAll(s[1..], cls);
    }
  }

  /** Position of the first `c` in `s`, or `|s|` when there is none
      (IndexOfFirst). */
  function IndexOf(s: string, c: char): (n: nat)
    ensures n <= |s|
    decreases |s|
  {
    if s == [] || s[0] == c then 0 else 1 + IndexOf(s[1..], c)
  }

  lemma {:induction false} IndexOfFirst(s: string, c: char)
    ensures forall i :: 0 <= i < IndexOf(s, c) ==> s[i] != c
    ensures IndexOf(s, c) < |s| ==> s[IndexOf(s, c)] == c
    decreases |s|
  {
    if s != [] && s[0] != c {
      IndexOfFirst(s[1..], c);
      forall i | 0 < i < IndexOf(s, c) ensures s[i] != c {
        assert s[i] == s[1..][i - 1];
      }
    }
  }

  /** The first `c` is where the text says it is. */
  lemma {:induction false} IndexOfAt(s: string, c: char, n: nat)
    requires n < |s| && s[n] == c
    requires forall i :: 0 <= i < n ==> s[i] != c
    ensures IndexOf(s, c) == n
    decreases n
  {
    if n > 0 {
      assert s[0] != c;
      forall i | 0 <= i < n - 1 ensures s[1..][i] != c {
        assert s[1..][i] == s[i + 1];
      }
      IndexOfAt(s[1..], c, n - 1);
    }
  }

  function DigitValue(c: char): nat
    requires IsDigit(c)
  {
    (c as int - '0' as int) as nat
  }

  function DigitChar(d: nat): (c: char)
    requires d < 10
    ensures IsDigit(c) && DigitValue(c) == d
  {
    ('0' as int + d) as char
  }

  /** Python's `int` on a string of ASCII digits; leading zeros are allowed. */
  function DecimalValue(s: string): nat
    requires AllDigits(s)
    decreases |s|
  {
    if s == [] then 0 else 10 * DecimalValue(s[..|s| - 1]) + DigitValue(s[|s| - 1])
  }

  /** Python's `str` on a natural number. */
  function NatToString(n: nat): string
    decreases n
  {
    if n < 10 then [DigitChar(n)] else NatToString(n / 10) + [DigitChar(n % 10)]
  }

  /** Python's `str` on an integer. */
  function IntToString(i: int): string
  {
    if i < 0 then "-" + NatToString(-i) else NatToString(i)
  }

  /** Reads back what IntToString writes: an optional minus sign, then digits. */
  function ParseInt(s: string): int
    requires (s != [] && s[0] == '-') ==> AllDigits(s[1..])
    requires (s == [] || s[0] != '-') ==> AllDigits(s)
  {
    if s != [] && s[0] == '-' then -(DecimalValue(s[1..]) as int) else DecimalValue(s)
  }

  lemma {:induction false} NatToStringDigits(n: nat)
    ensures IsDigits(NatToString(n))
    ensures DecimalValue(NatToString(n)) == n
    ensures NatToString(n)[0] == '0' ==> n == 0
    decreases n
  {
    if n >= 10 {
      NatToStringDigits(n / 10);
      var s := NatToString(n);
      assert s[..|s| - 1] == NatToString(n / 10);
    }
  }

  lemma IntToStringRoundTrip(i: int)
    ensures var s := IntToString(i);
      (s != [] && s[0] == '-' ==> AllDigits(s[1..])) &&
      (s == [] || s[0] != '-' ==> AllDigits(s)) &&
      ParseInt(s) == i
  {
    if i < 0 {
      NatToStringDigits(-i);
      assert IntToString(i)[1..] == NatToString(-i);
    } else {
      NatToStringDigits(i);
    }
  }

  /** `re.sub(r'^\d+', '', s)`: drops the leading run of digits. */
  function StripLeadingDigits(s: string): (r: string)
    ensures |r| <= |s| && s == s[..|s| - |r|] + r
    ensures AllDigits(s[..|s| - |r|])
    ensures r == [] || !IsDigit(r[0])
  {
    var k := Span(s, Digits);
    SpanMaximal(s, Digits);
    assert s == s[..k] + s[k..];
    s[k..]
  }

  /** `s.replace(' ', '')`. */
  function RemoveSpaces(s: string): (r: string)
    ensures forall i :: 0 <= i < |r| ==> r[i] != ' '
    ensures (forall i :: 0 <= i < |s| ==> s[i] != ' ') ==> r == s
    ensures |r| <= |s|
    decreases |s|
  {
    if s == [] then []
    else (if s[0] == ' ' then [] else [s[0]]) + RemoveSpaces(s[1..])
  }

  /** All parts in order, nothing between them. */
  function Concat(parts: seq<string>): string
  {
    if parts == [] then [] else parts[0] + Concat(parts[1..])
  }

  lemma ConcatCons(head: string, tail: seq<string>)
    ensures Concat([head] + tail) == head + Concat(tail)
  {
    assert ([head] + tail)[1..] == tail;
  }

  /** Python's `sep.join(parts)`. */
  function Join(parts: seq<string>, sep: string): string
  {
    if |parts| == 0 then []
    else if |parts| == 1 then parts[0]
    else parts[0] + sep + Join(parts[1..], sep)
  }

  /** Joining one more part adds the separator and the part at the end. */
  lemma {:induction false} JoinSnoc(parts: seq<string>, p: string, sep: string)
    requires |parts| >= 1
    ensures Join(parts + [p], sep) == Join(parts, sep) + sep + p
    decreases |parts|
  {
    var all := parts + [p];
    assert all[0] == parts[0] && all[1..] == parts[1..] + [p];
    if |parts| > 1 {
      JoinSnoc(parts[1..], p, sep);
    }
  }

  predicate Avoids(s: string, c: char)
  {
    forall i :: 0 <= i < |s| ==> s[i] != c
  }

  /** Python's `s.split(sep)` for a one-character separator. */
  function SplitOn(s: string, sep: char): (parts: seq<string>)
    ensures |parts| >= 1
    decreases |s|
  {
    if s == [] then [""]
    else
      var rest := SplitOn(s[1..], sep);
      if s[0] == sep then [""] + rest else [[s[0]] + rest[0]] + rest[1..]
  }

  /** No part of a split holds the separator, and joining the parts with it
      gives back the input. */
  lemma {:induction false} SplitOnJoin(s: string, sep: char)
    ensures forall k :: 0 <= k < |SplitOn(s, sep)| ==> Avoids(SplitOn(s, sep)[k], sep)
    ensures Join(SplitOn(s, sep), [sep]) == s
    decreases |s|
  {
    if s != [] {
      var rest := SplitOn(s[1..], sep);
      SplitOnJoin(s[1..], sep);
      var parts := SplitOn(s, sep);
      if s[0] == sep {
        assert parts[1..] == rest;
        assert s == [sep] + s[1..];
      } else {
        assert parts[1..] == rest[1..];
        forall k | 0 <= k < |parts| ensures Avoids(parts[k], sep) {
          if k > 0 { assert parts[k] == rest[k]; }
        }
        if |rest| == 1 {
          assert s == [s[0]] + rest[0];
        } else {
          assert Join(rest, [sep]) == rest[0] + [sep] + Join(rest[1..], [sep]);
          assert s == [s[0]] + rest[0] + [sep] + Join(rest[1..], [sep]);
        }
      }
    }
  }

  /** Splitting text that starts with a separator-free prefix. */
  lemma {:induction false} SplitOnPrefix(a: string, s: string, sep: char)
    requires Avoids(a, sep)
    ensures SplitOn(a + s, sep) == [a + SplitOn(s, sep)[0]] + SplitOn(s, sep)[1..]
    decreases |a|
  {
    if a == [] {
      assert a + s == s;
      var parts := SplitOn(s, sep);
      assert a + parts[0] == parts[0];
      assert [parts[0]] + parts[1..] == parts;
    } else {
      assert (a + s)[1..] == a[1..] + s;
      assert (a + s)[0] == a[0] != sep;
      SplitOnPrefix(a[1..], s, sep);
      var rest := SplitOn(a[1..] + s, sep);
      assert SplitOn(a + s, sep) == [[a[0]] + rest[0]] + rest[1..];
      assert [a[0]] + (a[1..] + SplitOn(s, sep)[0]) == a + SplitOn(s, sep)[0];
    }
  }

  /** The converse of SplitOnJoin: joining separator-free parts and splitting
      again gives the parts back. */
  lemma {:induction false} JoinSplitOn(parts: seq<string>, sep: char)
    requires |parts| >= 1
    requires forall k :: 0 <= k < |parts| ==> Avoids(parts[k], sep)
    ensures SplitOn(Join(parts, [sep]), sep) == parts
    decreases |parts|
  {
    if |parts| == 1 {
      SplitOnPrefix(parts[0], [], sep);
      assert parts[0] + [] == parts[0];
    } else {
      var tail := Join(parts[1..], [sep]);
      JoinSplitOn(parts[1..], sep);
      assert Join(parts, [sep]) == parts[0] + ([sep] + tail);
      SplitOnPrefix(parts[0], [sep] + tail, sep);
      assert ([sep] + tail)[1..] == tail;
      assert SplitOn([sep] + tail, sep) == [""] + parts[1..];
      assert parts[0] + "" == parts[0];
    }
  }
}
