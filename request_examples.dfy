/** One whole request, `H2 + O2` and `H2O`, followed from the entry fields
    through the table to the printed equation. */
module RequestExamples {
  import opened Text
  import opened Tokenize
  import opened Failures
  import opened Formula
  import opened Stoichiometry
  import opened Rationals
  import opened Equation
  import FormulaExamples

  const HYDROGEN: Emission := Emission([Count("H", 2)], Completed)
  const OXYGEN: Emission := Emission([Count("O", 2)], Completed)
  const WATER: Emission := Emission([Count("H", 2), Count("O", 1)], Completed)

  /** A lone digit is one text part. */
  lemma SplitDigit()
    ensures Split(ElementSymbol, "2") == ["2"]
  {
    assert MatchLen(ElementSymbol, "2") == 0;
    assert "2"[1..] == "";
    assert ['2'] + "" == "2";
  }

  /** A one-letter symbol followed by `2` splits into the symbol and the count. */
  lemma SplitSymbolTwo(c: char)
    requires IsUpper(c)
    ensures Split(ElementSymbol, [c, '2']) == ["", [c], "2"]
  {
    var s := [c, '2'];
    assert !IsLower('2');
    assert MatchLen(ElementSymbol, s) == 1;
    assert s[..1] == [c] && s[1..] == "2";
    SplitDigit();
  }

  /** A symbol followed by its count, alone. */
  lemma WalkPair(symbol: string, m: int)
    requires symbol != []
    ensures Walk(["", symbol, "2"], 0, m) == Emission([Count(symbol, 2 * m)], Completed)
  {
    var parts := ["", symbol, "2"];
    assert IsDigits(parts[2]) && DecimalValue(parts[2]) == 2 by {
      assert "2"[..0] == "";
    }
    assert Walk(parts, 2, m) == Emission([], Completed);
  }

  lemma HydrogenCounts()
    ensures CompoundCounts("H2") == HYDROGEN
  {
    FormulaExamples.SingleSegment("H2");
    assert "H2" == ['H', '2'];
    SplitSymbolTwo('H');
    WalkPair("H", 1);
  }

  lemma OxygenCounts()
    ensures CompoundCounts("O2") == OXYGEN
  {
    FormulaExamples.SingleSegment("O2");
    assert "O2" == ['O', '2'];
    SplitSymbolTwo('O');
    WalkPair("O", 1);
  }

  const T1: Table := Table(["H"], [[2]])
  const T2: Table := Table(["H", "O"], [[2, 0], [0, 2]])
  const T3: Table := Table(["H", "O"], [[2, 0], [0, 2], [-2, 0]])
  const T4: Table := Table(["H", "O"], [[2, 0], [0, 2], [-2, -1]])

  /** Hydrogen opens row 0 and the H column. */
  lemma FirstCall()
    ensures EMPTY.Valid() && Added(EMPTY, "H", 0, 2) == T1
  {
    var rows1: seq<seq<int>> := [[]];
    assert EMPTY.rows + [Zeros(0)] == rows1;
    PaddedAt(rows1, 0);
    assert rows1[0] + [0] == [0];
    var padded: seq<seq<int>> := [[0]];
    assert Padded(rows1) == padded;
    var p := Widened(EMPTY, "H", 0);
    assert p == Table(["H"], padded);
    assert Column(["H"], "H") == 0;
    assert padded[0][0 := 0 + 2] == [2];
    assert padded[0 := [2]] == T1.rows;
  }

  /** Oxygen opens row 1 and the O column; row 0 gets a 0 for O. */
  lemma SecondCall()
    ensures T1.Valid() && Added(T1, "O", 1, 2) == T2
  {
    var rows1 := [[2], [0]];
    assert Zeros(1) == [0] by { assert Zeros(0) == []; }
    assert T1.rows + [Zeros(1)] == rows1;
    PaddedAt(rows1, 0);
    PaddedAt(rows1, 1);
    assert rows1[0] + [0] == [2, 0] && rows1[1] + [0] == [0, 0];
    var padded := [[2, 0], [0, 0]];
    assert Padded(rows1) == padded;
    assert Widened(T1, "O", 1) == Table(["H", "O"], padded);
    assert Column(["H", "O"], "O") == 1 by { assert ["H", "O"][1..] == ["O"]; }
    assert padded[1][1 := 0 + 2] == [0, 2];
    assert padded[1 := [0, 2]] == T2.rows;
  }

  /** Water's hydrogen opens row 2, negated. */
  lemma ThirdCall()
    ensures T2.Valid() && Added(T2, "H", 2, -2) == T3
  {
    assert Zeros(2) == [0, 0] by { assert Zeros(1) == [0] by { assert Zeros(0) == []; } }
    var rows1 := [[2, 0], [0, 2], [0, 0]];
    assert T2.rows + [Zeros(2)] == rows1;
    assert Widened(T2, "H", 2) == Table(["H", "O"], rows1);
    assert Column(["H", "O"], "H") == 0;
    assert rows1[2][0 := 0 + -2] == [-2, 0];
    assert rows1[2 := [-2, 0]] == T3.rows;
  }

  /** Water's oxygen completes row 2. */
  lemma FourthCall()
    ensures T3.Valid() && Added(T3, "O", 2, -1) == T4
  {
    assert Widened(T3, "O", 2) == T3;
    assert Column(["H", "O"], "O") == 1 by { assert ["H", "O"][1..] == ["O"]; }
    assert T3.rows[2][1 := 0 + -1] == [-2, -1];
    assert T3.rows[2 := [-2, -1]] == T4.rows;
  }

  lemma HydrogenRecorded()
    ensures Record(EMPTY, HYDROGEN, 0, 1) == Step(T1, Completed)
  {
    FirstCall();
    assert HYDROGEN.counts[1..] == [];
    assert AddAll(EMPTY, HYDROGEN.counts, 0, 1) == AddAll(T1, [], 0, 1);
  }

  lemma OxygenRecorded()
    ensures Record(T1, OXYGEN, 1, 1) == Step(T2, Completed)
  {
    SecondCall();
    assert OXYGEN.counts[1..] == [];
    assert AddAll(T1, OXYGEN.counts, 1, 1) == AddAll(T2, [], 1, 1);
  }

  /** The reactants record H at row 0 and O at row 1. */
  lemma ReactantsRecorded()
    ensures RecordEach(EMPTY, [HYDROGEN, OXYGEN], 0, 1) == Step(T2, Completed)
  {
    HydrogenRecorded();
    OxygenRecorded();
    var es := [HYDROGEN, OXYGEN];
    assert es[1..] == [OXYGEN] && [OXYGEN][1..] == [];
    assert RecordEach(T1, [OXYGEN], 1, 1) == RecordEach(T2, [], 2, 1);
  }

  /** Water is recorded, negated, at row 2. */
  lemma ProductsRecorded()
    ensures RecordEach(T2, [WATER], 2, -1) == Step(T4, Completed)
  {
    ThirdCall();
    FourthCall();
    var counts := WATER.counts;
    assert counts[1..] == [Count("O", 1)] && counts[1..][1..] == [];
    assert AddAll(T3, counts[1..], 2, -1) == Recorded(T4, true);
    assert AddAll(T2, counts, 2, -1) == Recorded(T4, true);
    assert [WATER][1..] == [];
  }

  lemma ParsedPair(a: string, b: string)
    ensures Parsed([a, b]) == [CompoundCounts(a), CompoundCounts(b)]
  {
    assert [a, b][1..] == [b] && [b][1..] == [];
  }

  lemma ParsedSingle(a: string)
    ensures Parsed([a]) == [CompoundCounts(a)]
  {
    assert [a][1..] == [];
  }

  /** The species parse to hydrogen, oxygen and water. */
  lemma WaterSpeciesParsed()
    ensures Parsed(["H2", "O2"]) == [HYDROGEN, OXYGEN]
    ensures Parsed(["H2O"]) == [WATER]
  {
    ParsedPair("H2", "O2");
    ParsedSingle("H2O");
    HydrogenCounts();
    OxygenCounts();
    FormulaExamples.WaterCounts();
  }

  /** The request `H2 + O2 -> H2O` builds the table with H and O as columns,
      reactant rows [2, 0] and [0, 2], and the product row [-2, -1]. */
  lemma WaterTable()
    ensures Assemble(["H2", "O2"], ["H2O"]) == Step(T4, Completed)
  {
    WaterSpeciesParsed();
    ReactantsRecorded();
    ProductsRecorded();
  }

  /** The reactant field reads as the species typed, spaces dropped. */
  lemma ReactantList()
    ensures SpeciesList("H2 + O2") == ["H2", "O2"]
  {
    var ts := ["H2", "O2"];
    assert ts[1..] == ["O2"];
    assert Join(ts, " + ") == "H2 + O2";
    SpeciesListJoin(ts);
  }

  lemma ProductList()
    ensures SpeciesList("H2O") == ["H2O"]
  {
    assert Join(["H2O"], " + ") == "H2O";
    SpeciesListJoin(["H2O"]);
  }

  lemma DigitStrings()
    ensures IntToString(2) == "2" && IntToString(1) == "1"
  {
    assert DigitChar(2) == '2' && DigitChar(1) == '1';
  }

  /** The coefficients 2, 1, 2 print as `2H2 + 1O2 -> 2H2O`, 1 included. */
  lemma WaterText()
    ensures EquationText([2, 1, 2], ["H2", "O2"], ["H2O"]) == "2H2 + 1O2 -> 2H2O"
  {
    DigitStrings();
    assert Term(2, "H2") == "2H2" && Term(1, "O2") == "1O2" && Term(2, "H2O") == "2H2O";
    var left := Terms([2, 1], ["H2", "O2"]);
    assert left == ["2H2", "1O2"];
    assert SideText([2, 1], ["H2", "O2"]) == "2H2 + 1O2" by { assert left[1..] == ["1O2"]; }
    assert Terms([2], ["H2O"]) == ["2H2O"];
    assert [2, 1, 2][..2] == [2, 1] && [2, 1, 2][2..3] == [2];
  }

  /** The transposed table of the request: one row per element. */
  const WATER_MATRIX: IntMatrix := IntMatrix([[2, 0, -2], [0, 2, -1]], 3)

  /** What sympy's nullspace gives for it: x1 = x3, x2 = x3 / 2 with x3 = 1. */
  const WATER_VECTOR: seq<Rat> := [Rat(1, 1), Rat(1, 2), Rat(1, 1)]

  /** That vector meets the contract of Matrix.nullspace. */
  lemma WaterNullVector()
    ensures WATER_MATRIX.WellShaped() && IsNullVector(WATER_MATRIX, WATER_VECTOR)
    ensures AllReduced(WATER_VECTOR) && NonZero(WATER_VECTOR)
  {
    var v := WATER_VECTOR;
    assert v[0].num != 0;
    assert Value(v[0]) == 1.0 && Value(v[1]) == 0.5 && Value(v[2]) == 1.0;
    assert RatDot([2, 0, -2], v) == 0.0 by {
      assert [2, 0, -2][1..] == [0, -2] && [0, -2][1..] == [-2] && [-2][1..] == [];
      assert v[1..] == [Rat(1, 2), Rat(1, 1)] && v[1..][1..] == [Rat(1, 1)] && v[1..][1..][1..] == [];
    }
    assert RatDot([0, 2, -1], v) == 0.0 by {
      assert [0, 2, -1][1..] == [2, -1] && [2, -1][1..] == [-1] && [-1][1..] == [];
      assert v[1..] == [Rat(1, 2), Rat(1, 1)] && v[1..][1..] == [Rat(1, 1)] && v[1..][1..][1..] == [];
    }
  }

  /** The table turned to one row per element. */
  lemma WaterTranspose()
    ensures Transpose(T4.rows, 2) == WATER_MATRIX
  {
    var m := Transpose(T4.rows, 2);
    assert m.rows[0] == [2, 0, -2] && m.rows[1] == [0, 2, -1];
  }

  /** The denominators 1, 2, 1 have lcm 2, so the coefficients are 2, 1, 2. */
  lemma WaterScale()
    ensures ScaleByLcm(WATER_VECTOR) == [2, 1, 2]
  {
    var v := WATER_VECTOR;
    assert Denominators(v) == [1, 2, 1];
    assert ListLcm([1]) == 1 by { assert Lcm(1, 1) == 1; }
    assert ListLcm([2, 1]) == 2 by { assert [2, 1][1..] == [1]; assert Lcm(2, 1) == 2; }
    assert ListLcm([1, 2, 1]) == 2 by { assert [1, 2, 1][1..] == [2, 1]; assert Lcm(1, 2) == 2; }
  }

  lemma WaterSolution(nullspace: IntMatrix -> seq<seq<Rat>>)
    requires nullspace(WATER_MATRIX) == [WATER_VECTOR]
    ensures Solution(Parsed(["H2", "O2"]), Parsed(["H2O"]), nullspace) == Ok([2, 1, 2])
  {
    WaterTable();
    WaterTranspose();
    WaterScale();
  }

  /** The whole request: with sympy's null vector, `H2 + O2` and `H2O`
      balance to `2H2 + 1O2 -> 2H2O`. */
  lemma WaterBalance(nullspace: IntMatrix -> seq<seq<Rat>>)
    requires nullspace(WATER_MATRIX) == [WATER_VECTOR]
    ensures Balance("H2 + O2", "H2O", nullspace) == Ok("2H2 + 1O2 -> 2H2O")
  {
    ReactantList();
    ProductList();
    WaterSolution(nullspace);
    WaterText();
  }
}
