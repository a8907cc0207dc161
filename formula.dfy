/** What the parser hands to addToMatrix for one species: the sequence of
    (symbol, count) calls that findSymbols (Code.py.PY:41-52) and
    compoundDecipher (Code.py.PY:54-63) make, and whether they then finish or
    raise. The methods of Balancer.Workspace are proved to make exactly these
    calls. */
module Formula {
  import opened Text
  import opened Tokenize
  import opened Failures

  /** One call of addToMatrix: the symbol and its count, already multiplied by
      the current group multiplier but not yet by the side. */
  datatype Count = Count(symbol: string, amount: int)

  datatype Status = Completed | Raised(error: Failure)

  /** The calls made, in order, and how the parse ends. */
  datatype Emission = Emission(counts: seq<Count>, status: Status)

  function Prepend(c: Count, e: Emission): Emission
  {
    Emission([c] + e.counts, e.status)
  }

  /** The loop of findSymbols over the split `parts`, entered with loop
      variable `i` (Code.py.PY:44-52). Index 0, the text before the first
      symbol, is never looked at; a non-empty part that is not consumed as a
      count is itself recorded as a symbol, and reading the part after the
      last one raises. */
  function Walk(parts: seq<string>, i: nat, multiplier: int): Emission
    decreases |parts| - i
  {
    if i + 1 >= |parts| then Emission([], Completed)
    else
      var j := i + 1;
      if |parts[j]| == 0 then Walk(parts, j, multiplier)
      else if j + 1 >= |parts| then Emission([], Raised(TrailingText))
      else if IsDigits(parts[j + 1]) then
        Prepend(Count(parts[j], DecimalValue(parts[j + 1]) * multiplier), Walk(parts, j + 1, multiplier))
      else
        Prepend(Count(parts[j], multiplier), Walk(parts, j, multiplier))
  }

  /** findSymbols(segment, _, multiplier, _). */
  function SymbolCounts(segment: string, multiplier: int): Emission
  {
    Walk(Split(ElementSymbol, segment), 0, multiplier)
  }

  /** What a symbol contributes, read off the split pairwise: `rest` is
      [symbol, text, symbol, text, ...]. A symbol followed by digits counts
      that many times the multiplier, otherwise the multiplier; non-empty text
      that is not a count is itself recorded with the multiplier, and raises
      when it is the last part. */
  function Contributions(rest: seq<string>, multiplier: int): Emission
    requires |rest| % 2 == 0
    decreases |rest|
  {
    if rest == [] then Emission([], Completed)
    else
      var symbol, text, tail := rest[0], rest[1], rest[2..];
      if IsDigits(text) then
        Prepend(Count(symbol, DecimalValue(text) * multiplier), Contributions(tail, multiplier))
      else if text == [] then
        Prepend(Count(symbol, multiplier), Contributions(tail, multiplier))
      else if tail == [] then
        Emission([Count(symbol, multiplier)], Raised(TrailingText))
      else
        Prepend(Count(symbol, multiplier), Prepend(Count(text, multiplier), Contributions(tail, multiplier)))
  }

  /** Odd parts are non-empty and are not counts, as symbols are. */
  predicate SymbolsAtOdd(parts: seq<string>)
  {
    forall k :: 0 <= k < |parts| && k % 2 == 1 ==> parts[k] != [] && !IsDigits(parts[k])
  }

  lemma ParityStep(len: nat, i: nat)
    requires len % 2 == 1 && i % 2 == 0 && i + 1 < len
    ensures i + 2 < len && (i + 2) % 2 == 0 && (len - (i + 1)) % 2 == 0
  {
  }

  lemma {:induction false} WalkFromText(parts: seq<string>, i: nat, multiplier: int)
    requires |parts| % 2 == 1 && i % 2 == 0 && i < |parts|
    requires SymbolsAtOdd(parts)
    ensures Walk(parts, i, multiplier) == Contributions(parts[i + 1..], multiplier)
    decreases |parts| - i
  {
    if i + 1 < |parts| {
      ParityStep(|parts|, i);
      var rest := parts[i + 1..];
      assert rest[0] == parts[i + 1] && rest[1] == parts[i + 2] && rest[2..] == parts[i + 3..];
      var text := parts[i + 2];
      WalkFromText(parts, i + 2, multiplier);
      if !IsDigits(text) {
        if text == [] {
          assert Walk(parts, i + 1, multiplier) == Walk(parts, i + 2, multiplier);
        } else if i + 3 < |parts| {
          assert !IsDigits(parts[i + 3]);
          assert Walk(parts, i + 1, multiplier) ==
            Prepend(Count(text, multiplier), Walk(parts, i + 2, multiplier));
        }
      }
    }
  }

  /** The loop of findSymbols emits exactly the pairwise contributions. */
  lemma SymbolCountsAreContributions(segment: string, multiplier: int)
    ensures |Split(ElementSymbol, segment)| % 2 == 1
    ensures SymbolCounts(segment, multiplier) == Contributions(Split(ElementSymbol, segment)[1..], multiplier)
  {
    var parts := Split(ElementSymbol, segment);
    ElementSplit(segment);
    forall k | 0 <= k < |parts| && k % 2 == 1
      ensures parts[k] != [] && !IsDigits(parts[k])
    {
      assert IsSymbol(parts[k]) && !IsDigit(parts[k][0]);
    }
    WalkFromText(parts, 0, multiplier);
  }

  /** The counts of an emission, each multiplied by `m`. */
  function Scaled(e: Emission, m: int): (r: Emission)
    ensures |r.counts| == |e.counts| && r.status == e.status
  {
    Emission(seq(|e.counts|, j requires 0 <= j < |e.counts| =>
      Count(e.counts[j].symbol, e.counts[j].amount * m)), e.status)
  }

  /** A multiplier scales every count and changes nothing else. */
  lemma {:induction false} WalkScales(parts: seq<string>, i: nat, m: int)
    ensures Walk(parts, i, m) == Scaled(Walk(parts, i, 1), m)
    decreases |parts| - i
  {
    if i + 1 < |parts| {
      var j := i + 1;
      if |parts[j]| == 0 {
        WalkScales(parts, j, m);
      } else if j + 1 < |parts| {
        if IsDigits(parts[j + 1]) {
          WalkScales(parts, j + 1, m);
          assert DecimalValue(parts[j + 1]) * m == (DecimalValue(parts[j + 1]) * 1) * m;
        } else {
          WalkScales(parts, j, m);
        }
      }
    }
  }

  /** The text before the first symbol is never visited. */
  lemma {:induction false} WalkSkipsLeadingText(parts: seq<string>, text: string, i: nat, m: int)
    requires |parts| > 0
    ensures Walk(parts[0 := text], i, m) == Walk(parts, i, m)
    decreases |parts| - i
  {
    var q := parts[0 := text];
    if i + 1 < |parts| {
      var j := i + 1;
      assert q[j] == parts[j];
      if j + 1 < |parts| { assert q[j + 1] == parts[j + 1]; }
      WalkSkipsLeadingText(parts, text, j, m);
      if j + 1 < |parts| { WalkSkipsLeadingText(parts, text, j + 1, m); }
    }
  }

  /** What compoundDecipher makes of one segment (Code.py.PY:57-62). */
  datatype Plan = Plan(text: string, multiplier: int)

  /** A segment starting with '(' is split at its first ')': the digits after
      it are the multiplier (there is no default) and the text between the
      parentheses is parsed; whatever follows the digits is dropped. Any other
      segment is parsed whole with multiplier 1. */
  function SegmentPlan(segment: string): Result<Plan>
  {
    if segment != [] && segment[0] == '(' then
      var close := IndexOf(segment, ')');
      if close == |segment| then Err(UnclosedGroup)
      else
        var after := segment[close + 1..];
        SpanMaximal(after, Digits);
        var digits := after[..Span(after, Digits)];
        if digits == [] then Err(MissingMultiplier)
        else Ok(Plan(segment[1..close], DecimalValue(digits)))
    else Ok(Plan(segment, 1))
  }

  /** A group `(inner)digits` parses its inner text with the digits as
      multiplier, and fails when there are no digits. */
  lemma GroupPlan(g: string)
    requires IsGroup(g)
    ensures var close := 1 + Span(g[1..], Alphanumerics);
      SegmentPlan(g) ==
        if close + 1 == |g| then Err(MissingMultiplier)
        else Ok(Plan(g[1..close], DecimalValue(g[close + 1..])))
  {
    var close := 1 + Span(g[1..], Alphanumerics);
    forall i | 0 <= i < close ensures g[i] != ')' {
      assert i == 0 || InClass(g[i], Alphanumerics);
    }
    IndexOfAt(g, ')', close);
    var after := g[close + 1..];
    SpanOfAll(after, Digits);
    assert Span(after, Digits) == |after|;
    assert after[..|after|] == after;
  }

  /** The loop of compoundDecipher over the segments (Code.py.PY:56-63). */
  function SegmentsEmission(segments: seq<string>): Emission
  {
    if segments == [] then Emission([], Completed)
    else match SegmentPlan(segments[0])
      case Err(e) => Emission([], Raised(e))
      case Ok(plan) =>
        var first := SymbolCounts(plan.text, plan.multiplier);
        if first.status.Raised? then first
        else
          var rest := SegmentsEmission(segments[1..]);
          Emission(first.counts + rest.counts, rest.status)
  }

  /** compoundDecipher(compound, _, _): leading digits dropped, then split
      into bare segments and groups (Code.py.PY:55). */
  function CompoundCounts(compound: string): Emission
  {
    SegmentsEmission(Split(ParenGroup, StripLeadingDigits(compound)))
  }

  /** Text that does not start with a digit keeps its leading characters. */
  lemma StripNoDigits(s: string)
    requires s == [] || !IsDigit(s[0])
    ensures StripLeadingDigits(s) == s
  {
    assert Span(s, Digits) == 0;
    assert s[0..] == s;
  }

  /** A compound made of a bare segment and one group splits into exactly
      those two segments and an empty one. */
  lemma BareThenGroupSegments(a: string, g: string)
    requires Avoids(a, '(') && (a == [] || !IsDigit(a[0]))
    requires IsGroup(g)
    ensures CompoundCounts(a + g) == SegmentsEmission([a] + [g, ""])
  {
    var s := a + g;
    assert s[0] == if a == [] then g[0] else a[0];
    StripNoDigits(s);
    SplitBareThen(a, g);
    SplitGroupAlone(g);
    var parts := Split(ParenGroup, s);
    assert a + "" == a;
    assert parts == [parts[0]] + parts[1..];
  }

  /** A bare segment is parsed with multiplier 1, then the rest follow
      unless it failed. */
  lemma BareSegmentFirst(a: string, rest: seq<string>)
    requires a == [] || a[0] != '('
    ensures var first := SymbolCounts(a, 1);
      var later := SegmentsEmission(rest);
      SegmentsEmission([a] + rest) ==
        if first.status.Raised? then first else Emission(first.counts + later.counts, later.status)
  {
    assert ([a] + rest)[0] == a && ([a] + rest)[1..] == rest;
    assert SegmentPlan(a) == Ok(Plan(a, 1));
  }

  /** A group as the last segment: its inner text times its multiplier, or
      MissingMultiplier when no digits follow ')'. */
  lemma GroupLast(g: string)
    requires IsGroup(g)
    ensures var close := 1 + Span(g[1..], Alphanumerics);
      SegmentsEmission([g, ""]) ==
        if close + 1 == |g| then Emission([], Raised(MissingMultiplier))
        else
          var inner := SymbolCounts(g[1..close], DecimalValue(g[close + 1..]));
          Emission(inner.counts, inner.status)
  {
    var close := 1 + Span(g[1..], Alphanumerics);
    GroupPlan(g);
    assert [g, ""][0] == g && [g, ""][1..] == [""];
    assert SegmentsEmission([""]) == Emission([], Completed) by {
      assert SegmentPlan("") == Ok(Plan("", 1));
      assert SymbolCounts("", 1) == Emission([], Completed);
      assert [""][1..] == [];
    }
    if close + 1 < |g| {
      var inner := SymbolCounts(g[1..close], DecimalValue(g[close + 1..]));
      assert inner.counts + [] == inner.counts;
    }
  }

  /** A bare segment followed by one group `(inner)k`: the segment is read
      with multiplier 1, then the inner text with multiplier k; with no
      digits after ')' the group fails. */
  lemma GroupedCounts(a: string, g: string)
    requires Avoids(a, '(') && (a == [] || !IsDigit(a[0]))
    requires IsGroup(g)
    ensures var close := 1 + Span(g[1..], Alphanumerics);
      var first := SymbolCounts(a, 1);
      CompoundCounts(a + g) ==
        if first.status.Raised? then first
        else if close + 1 == |g| then Emission(first.counts, Raised(MissingMultiplier))
        else
          var inner := SymbolCounts(g[1..close], DecimalValue(g[close + 1..]));
          Emission(first.counts + inner.counts, inner.status)
  {
    BareThenGroupSegments(a, g);
    BareSegmentFirst(a, [g, ""]);
    GroupLast(g);
    var first := SymbolCounts(a, 1);
    assert first.counts + [] == first.counts;
  }

  /** The total count recorded for `x`. */
  function Total(counts: seq<Count>, x: string): int
  {
    if counts == [] then 0
    else (if counts[0].symbol == x then counts[0].amount else 0) + Total(counts[1..], x)
  }
}
