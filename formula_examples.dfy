module FormulaExamples {
  import opened Text
  import opened Tokenize
  import opened Failures
  import opened Formula

  /** Text without '(' is a single bare segment. */
  lemma {:induction false} NoGroups(s: string)
    requires Avoids(s, '(')
    ensures Split(ParenGroup, s) == [s]
    decreases |s|
  {
    if s != [] {
      NoGroups(s[1..]);
      assert [s[0]] + s[1..] == s;
    }
  }

  lemma SplitO()
    ensures Split(ElementSymbol, "O") == ["", "O", ""]
  {
    assert "O"[1..] == "" && "O"[..1] == "O";
  }

  lemma Split2O()
    ensures Split(ElementSymbol, "2O") == ["2", "O", ""]
  {
    assert "2O"[1..] == "O";
    SplitO();
    assert ['2'] + "" == "2";
  }

  lemma SplitH2O()
    ensures Split(ElementSymbol, "H2O") == ["", "H", "2", "O", ""]
  {
    assert "H2O"[1..] == "2O" && "H2O"[..1] == "H";
    Split2O();
  }

  /** A compound with no group and no leading count is one bare segment,
      parsed with multiplier 1. */
  lemma SingleSegment(s: string)
    requires Avoids(s, '(')
    requires s == [] || !IsDigit(s[0])
    ensures CompoundCounts(s) == SymbolCounts(s, 1)
  {
    assert Span(s, Digits) == 0;
    assert StripLeadingDigits(s) == s[0..] == s;
    NoGroups(s);
    assert SegmentPlan(s) == Ok(Plan(s, 1));
    var first := SymbolCounts(s, 1);
    assert [s][0] == s && [s][1..] == [];
    assert SegmentsEmission([]) == Emission([], Completed);
    if !first.status.Raised? {
      assert first.status == Completed;
      assert first.counts + [] == first.counts;
      assert SegmentsEmission([s]) == Emission(first.counts, Completed) == first;
    }
  }

  lemma WalkH2O()
    ensures Walk(["", "H", "2", "O", ""], 0, 1) == Emission([Count("H", 2), Count("O", 1)], Completed)
  {
    var parts := ["", "H", "2", "O", ""];
    assert Walk(parts, 3, 1) == Emission([], Completed);
    assert !IsDigits(parts[4]);
    assert Walk(parts, 2, 1) == Emission([Count("O", 1)], Completed);
    assert IsDigits(parts[2]) && DecimalValue(parts[2]) == 2;
    assert Walk(parts, 0, 1) == Prepend(Count("H", 2), Walk(parts, 2, 1));
  }

  /** Water: two hydrogens, one oxygen, in the order they are read. */
  lemma WaterCounts()
    ensures CompoundCounts("H2O") == Emission([Count("H", 2), Count("O", 1)], Completed)
  {
    SingleSegment("H2O");
    SplitH2O();
    WalkH2O();
  }

  /** A segment with no text at all records nothing. */
  lemma EmptySegment(m: int)
    ensures SymbolCounts("", m) == Emission([], Completed)
  {
  }

  lemma SplitOH()
    ensures Split(ElementSymbol, "OH") == ["", "O", "", "H", ""]
  {
    assert "OH"[1..] == "H" && "OH"[..1] == "O";
    assert "H"[1..] == "" && "H"[..1] == "H";
  }

  /** Inside a group, every count is the group's multiplier times the
      element's own. */
  lemma HydroxideCounts(m: int)
    ensures SymbolCounts("OH", m) == Emission([Count("O", m), Count("H", m)], Completed)
  {
    SplitOH();
    var parts := ["", "O", "", "H", ""];
    assert Walk(parts, 3, m) == Emission([], Completed);
    assert Walk(parts, 1, m) == Walk(parts, 2, m) == Emission([Count("H", m)], Completed);
  }

  lemma MagnesiumCounts()
    ensures SymbolCounts("Mg", 1) == Emission([Count("Mg", 1)], Completed)
  {
    assert Split(ElementSymbol, "Mg") == ["", "Mg", ""] by {
      assert "Mg"[..2] == "Mg" && "Mg"[2..] == "";
    }
    var mg := ["", "Mg", ""];
    assert Walk(mg, 1, 1) == Emission([], Completed);
  }

  /** `(OH)2` is a group: its ')' is at position 3, followed by "2". */
  lemma HydroxideGroup()
    ensures IsGroup("(OH)2") && Span("(OH)2"[1..], Alphanumerics) == 2
    ensures "(OH)2"[1..3] == "OH" && DecimalValue("(OH)2"[4..]) == 2
  {
    var g := "(OH)2";
    assert g[1..] == "OH)2" && "OH)2"[1..] == "H)2" && "H)2"[1..] == ")2";
    assert Span(g[1..], Alphanumerics) == 2;
    assert g[4..] == "2";
    assert DecimalValue("2") == 2 by {
      assert "2"[..0] == "";
    }
  }

  /** Magnesium hydroxide, a bare segment followed by a group: the group's
      multiplier doubles both of its elements, and the elements are read in
      order of appearance. */
  lemma MagnesiumHydroxideCounts()
    ensures CompoundCounts("Mg" + "(OH)2") == Emission([Count("Mg", 1), Count("O", 2), Count("H", 2)], Completed)
  {
    var g := "(OH)2";
    HydroxideGroup();
    assert 1 + Span(g[1..], Alphanumerics) == 3 && g[1..3] == "OH" && DecimalValue(g[4..]) == 2;
    assert SymbolCounts("Mg", 1) == Emission([Count("Mg", 1)], Completed) by { MagnesiumCounts(); }
    assert SymbolCounts("OH", 2) == Emission([Count("O", 2), Count("H", 2)], Completed) by { HydroxideCounts(2); }
    assert Avoids("Mg", '(') && !IsDigit("Mg"[0]);
    GroupedCounts("Mg", g);
    assert [Count("Mg", 1)] + [Count("O", 2), Count("H", 2)] == [Count("Mg", 1), Count("O", 2), Count("H", 2)];
  }

  /** A group with no digits after ')' has no multiplier: there is no
      default of 1. */
  lemma HydroxideWithoutMultiplier()
    ensures CompoundCounts("" + "(OH)") == Emission([], Raised(MissingMultiplier))
  {
    var g := "(OH)";
    assert g[1..] == "OH)" && "OH)"[1..] == "H)" && "H)"[1..] == ")";
    assert Span(g[1..], Alphanumerics) == 2;
    assert g[4..] == "";
    GroupedCounts("", g);
    EmptySegment(1);
  }

  lemma SplitH2xO()
    ensures Split(ElementSymbol, "H2xO") == ["", "H", "2x", "O", ""]
  {
    assert "H2xO"[..1] == "H" && "H2xO"[1..] == "2xO" && "2xO"[1..] == "xO" && "xO"[1..] == "O";
    SplitO();
    assert Split(ElementSymbol, "xO") == ["x", "O", ""] by {
      assert "xO"[0] == 'x' && !IsUpper('x') && ['x'] + "" == "x";
    }
    assert ['2'] + "x" == "2x";
  }

  lemma WalkH2xO()
    ensures Walk(["", "H", "2x", "O", ""], 0, 1) == Emission([Count("H", 1), Count("2x", 1), Count("O", 1)], Completed)
  {
    var parts := ["", "H", "2x", "O", ""];
    assert Walk(parts, 3, 1) == Emission([], Completed);
    assert !IsDigits(parts[4]);
    assert Walk(parts, 2, 1) == Emission([Count("O", 1)], Completed);
    assert !IsDigits(parts[3]) by {
      assert !IsDigit(parts[3][0]);
    }
    assert Walk(parts, 1, 1) == Prepend(Count("2x", 1), Walk(parts, 2, 1));
    assert !IsDigits(parts[2]) by {
      assert !IsDigit(parts[2][1]);
    }
    assert Walk(parts, 0, 1) == Prepend(Count("H", 1), Walk(parts, 1, 1));
  }

  /** Text between symbols that is not a count is itself recorded, as if it
      were an element, with the multiplier as its count. */
  lemma StrayTextIsRecorded()
    ensures CompoundCounts("H2xO") == Emission([Count("H", 1), Count("2x", 1), Count("O", 1)], Completed)
  {
    SingleSegment("H2xO");
    SplitH2xO();
    WalkH2xO();
  }

  lemma SplitHxO()
    ensures Split(ElementSymbol, "HxO") == ["", "Hx", "", "O", ""]
  {
    assert "HxO"[..2] == "Hx" && "HxO"[2..] == "O";
    SplitO();
  }

  lemma WalkHxO()
    ensures Walk(["", "Hx", "", "O", ""], 0, 1) == Emission([Count("Hx", 1), Count("O", 1)], Completed)
  {
    var parts := ["", "Hx", "", "O", ""];
    assert Walk(parts, 3, 1) == Emission([], Completed);
    assert !IsDigits(parts[4]);
    assert Walk(parts, 1, 1) == Emission([Count("O", 1)], Completed);
    assert !IsDigits(parts[2]);
    assert Walk(parts, 0, 1) == Prepend(Count("Hx", 1), Walk(parts, 1, 1));
  }

  /** A lower-case letter right after a capital belongs to the symbol, so
      "HxO" records an element "Hx" rather than stray text. */
  lemma LowerCaseJoinsSymbol()
    ensures CompoundCounts("HxO") == Emission([Count("Hx", 1), Count("O", 1)], Completed)
  {
    SingleSegment("HxO");
    SplitHxO();
    WalkHxO();
  }

  lemma SplitH2x()
    ensures Split(ElementSymbol, "H2x") == ["", "H", "2x"]
  {
    assert "H2x"[..1] == "H" && "H2x"[1..] == "2x" && "2x"[1..] == "x" && "x"[1..] == "";
    assert Split(ElementSymbol, "x") == ["x"] by {
      assert "x"[0] == 'x' && !IsUpper('x') && ['x'] + "" == "x";
    }
    assert ['2'] + "x" == "2x";
  }

  /** Text after the last symbol that is not a count makes the loop read
      past the end of the parts: the parse raises after recording H. */
  lemma TrailingTextRaises()
    ensures CompoundCounts("H2x") == Emission([Count("H", 1)], Raised(TrailingText))
  {
    var parts := ["", "H", "2x"];
    assert Walk(parts, 0, 1) == Emission([Count("H", 1)], Raised(TrailingText)) by {
      assert !IsDigits(parts[2]);
      assert Walk(parts, 1, 1) == Emission([], Raised(TrailingText));
    }
    SingleSegment("H2x");
    SplitH2x();
  }

  /** A '(' directly before a group is a segment of its own. */
  lemma OpenBeforeGroupSplit(s: string)
    requires s != [] && s[0] == '(' && MatchLen(ParenGroup, s[1..]) > 0
    ensures Split(ParenGroup, s)[0] == "("
  {
    var t := s[1..];
    assert MatchLen(ParenGroup, s) == 0 by {
      assert t[0] == '(';
      assert Span(t, Alphanumerics) == 0;
    }
    SplitNoMatch(ParenGroup, s);
    SplitMatchFirst(ParenGroup, t);
    assert [s[0]] + "" == "(";
  }

  /** A '(' directly before a group, as in a nested group, has no ')' of its
      own, so the parse fails before recording anything. */
  lemma OpenBeforeGroupFails(s: string)
    requires s != [] && s[0] == '(' && MatchLen(ParenGroup, s[1..]) > 0
    ensures CompoundCounts(s) == Emission([], Raised(UnclosedGroup))
  {
    var segments := Split(ParenGroup, s);
    StripNoDigits(s);
    OpenBeforeGroupSplit(s);
    assert SegmentPlan(segments[0]) == Err(UnclosedGroup) by {
      assert IndexOf("(", ')') == 1;
    }
  }

  /** `((OH)2)`: nested parentheses are not supported. */
  lemma NestedGroupFails()
    ensures CompoundCounts("(" + "(OH)2)") == Emission([], Raised(UnclosedGroup))
  {
    var s := "(" + "(OH)2)";
    var t := "(OH)2)";
    assert s[0] == '(' && s[1..] == t;
    assert MatchLen(ParenGroup, t) > 0 by {
      assert t[1..] == "OH)2)" && "OH)2)"[1..] == "H)2)" && "H)2)"[1..] == ")2)";
      assert Span(t[1..], Alphanumerics) == 2;
    }
    OpenBeforeGroupFails(s);
  }
}
