/** The balancer's working state and the procedures that fill it, in the
    source's own imperative form: the two module-level lists symbolList and
    symbolMatrix (Code.py.PY:20-21) become the fields of a Workspace, and
    addToMatrix, findSymbols and compoundDecipher (Code.py.PY:29-63) and the
    equation-building part of process_equation (Code.py.PY:120-154) become
    its methods, each proved to do what the functions of Stoichiometry and
    Equation say. */
module Balancer {
  import opened Text
  import opened Tokenize
  import opened Failures
  import opened Formula
  import opened Stoichiometry
  import opened Rationals
  import opened Equation

  class Workspace {
    /** symbolList: the element symbols, in the order they were first seen. */
    var symbols: seq<string>
    /** symbolMatrix: one row per species, one column per symbol. */
    var matrix: seq<seq<int>>

    function Snapshot(): Table
      reads this
    {
      Table(symbols, matrix)
    }

    predicate Valid()
      reads this
    {
      Snapshot().Valid()
    }

    /** The state when the program starts. */
    constructor()
      ensures Snapshot() == EMPTY
    {
      symbols := [];
      matrix := [];
    }

    /** Lines 30-37 of addToMatrix: creates row `index` when it is the next
        one, and gives a new symbol a zero column in every row. */
    method Widen(symbol: string, index: nat)
      requires Valid()
      modifies this
      ensures Snapshot() == Widened(old(Snapshot()), symbol, index)
    {
      ghost var t := Snapshot();
      if index == |matrix| {
        var row: seq<int> := [];
        for x := 0 to |symbols|
          invariant row == Zeros(x)
        {
          row := row + [0];
        }
        matrix := matrix + [row];
      }
      ghost var rows1 := matrix;
      assert rows1 == if index == |t.rows| then t.rows + [Zeros(|t.symbols|)] else t.rows;
      if symbol !in symbols {
        symbols := symbols + [symbol];
        for i := 0 to |matrix|
          invariant symbols == t.symbols + [symbol]
          invariant |matrix| == |rows1|
          invariant forall r :: 0 <= r < |matrix| ==> matrix[r] == if r < i then rows1[r] + [0] else rows1[r]
        {
          matrix := matrix[i := matrix[i] + [0]];
        }
        forall r | 0 <= r < |rows1| ensures matrix[r] == Padded(rows1)[r] {
          PaddedAt(rows1, r);
        }
      }
    }

    /** addToMatrix(symbol, index, count, side) (Code.py.PY:29-39). Returns
        false where the source raises IndexError at line 39 (index beyond the
        next row); the new column has been added by then. */
    method AddToMatrix(symbol: string, index: nat, count: int, side: int) returns (ok: bool)
      requires Valid()
      modifies this
      ensures Valid()
      ensures Snapshot() == Added(old(Snapshot()), symbol, index, count * side)
      ensures ok <==> index <= old(|matrix|)
    {
      ghost var t := Snapshot();
      Widen(symbol, index);
      AddedShape(t, symbol, index, count * side);
      AddedValid(t, symbol, index, count * side);
      var column := 0;
      while symbols[column] != symbol
        invariant column <= Column(symbols, symbol)
        decreases Column(symbols, symbol) - column
      {
        column := column + 1;
      }
      assert column == Column(symbols, symbol);
      if index < |matrix| {
        matrix := matrix[index := matrix[index][column := matrix[index][column] + count * side]];
        ok := true;
      } else {
        ok := false;
      }
    }

    /** findSymbols(segment, index, multiplier, side) (Code.py.PY:41-52):
        walks the element split of `segment` and records each count. The
        status says how it ends: Completed, or where the source raises. */
    method FindSymbols(segment: string, index: nat, multiplier: int, side: int) returns (status: Status)
      requires Valid()
      modifies this
      ensures Valid()
      ensures Step(Snapshot(), status) == Record(old(Snapshot()), SymbolCounts(segment, multiplier), index, side)
    {
      var parts := Split(ElementSymbol, segment);
      var i := 0;
      while i < |parts| - 1
        invariant Valid() && i < |parts|
        invariant Record(Snapshot(), Walk(parts, i, multiplier), index, side) ==
                  Record(old(Snapshot()), Walk(parts, 0, multiplier), index, side)
        decreases |parts| - i
      {
        ghost var before := i;
        i := i + 1;
        if |parts[i]| > 0 {
          if i + 1 >= |parts| {
            RecordNothing(Snapshot(), Raised(TrailingText), index, side);
            return Raised(TrailingText);
          }
          var amount := multiplier;
          if IsDigits(parts[i + 1]) {
            amount := DecimalValue(parts[i + 1]) * multiplier;
          }
          ghost var t := Snapshot();
          ghost var rest := if IsDigits(parts[i + 1]) then Walk(parts, i + 1, multiplier) else Walk(parts, i, multiplier);
          assert Walk(parts, before, multiplier) == Prepend(Count(parts[i], amount), rest);
          RecordPrepend(t, Count(parts[i], amount), rest, index, side);
          var ok := AddToMatrix(parts[i], index, amount, side);
          if !ok {
            return Raised(SpeciesGap);
          }
          if IsDigits(parts[i + 1]) {
            i := i + 1;
          }
        }
      }
      RecordNothing(Snapshot(), Completed, index, side);
      return Completed;
    }

    /** compoundDecipher(compound, index, side) (Code.py.PY:54-63): drops
        the leading digits, splits off the groups, and runs findSymbols on
        each segment with its multiplier. */
    method CompoundDecipher(compound: string, index: nat, side: int) returns (status: Status)
      requires Valid()
      modifies this
      ensures Valid()
      ensures Step(Snapshot(), status) == Record(old(Snapshot()), CompoundCounts(compound), index, side)
    {
      var segments := Split(ParenGroup, StripLeadingDigits(compound));
      ghost var goal := Record(Snapshot(), CompoundCounts(compound), index, side);
      assert segments[0..] == segments;
      for k := 0 to |segments|
        invariant Valid()
        invariant Record(Snapshot(), SegmentsEmission(segments[k..]), index, side) == goal
      {
        RecordSegments(Snapshot(), segments, k, index, side);
        var st := DecipherSegment(segments[k], index, side);
        if st.Raised? {
          return st;
        }
      }
      assert segments[|segments|..] == [];
      RecordNothing(Snapshot(), Completed, index, side);
      return Completed;
    }

    /** One round of compoundDecipher's loop (Code.py.PY:57-63): a group
        is unpacked into its inner text and multiplier, a bare segment keeps
        multiplier 1, and findSymbols records it. A '(' without ')' raises
        UnclosedGroup, a ')' without digits MissingMultiplier. */
    method DecipherSegment(segment: string, index: nat, side: int) returns (status: Status)
      requires Valid()
      modifies this
      ensures Valid()
      ensures Step(Snapshot(), status) ==
        match SegmentPlan(segment)
        case Err(e) => Step(old(Snapshot()), Raised(e))
        case Ok(plan) => Record(old(Snapshot()), SymbolCounts(plan.text, plan.multiplier), index, side)
    {
      match SegmentPlan(segment)
      case Err(e) =>
        return Raised(e);
      case Ok(plan) =>
        status := FindSymbols(plan.text, index, plan.multiplier, side);
    }

    /** One round of the loop over a side's species (Code.py.PY:133-136):
        species `i` is deciphered at row `offset + i`. */
    method RecordOne(species: seq<string>, ghost es: seq<Emission>, i: nat, offset: nat, side: int) returns (status: Status)
      requires Valid() && i < |species|
      requires |es| == |species|
      requires forall k {:trigger CompoundCounts(species[k])} :: 0 <= k < |species| ==> es[k] == CompoundCounts(species[k])
      modifies this
      ensures Valid()
      ensures Step(Snapshot(), status) == Record(old(Snapshot()), es[i], offset + i, side)
      ensures status.Raised? ==> Step(Snapshot(), status) == RecordEach(old(Snapshot()), es[i..], offset + i, side)
      ensures !status.Raised? ==>
        RecordEach(Snapshot(), es[i + 1..], offset + i + 1, side) == RecordEach(old(Snapshot()), es[i..], offset + i, side)
    {
      RecordEachStep(Snapshot(), es, i, offset, side);
      status := CompoundDecipher(species[i], offset + i, side);
    }

    /** compoundDecipher for each species in turn, at rows offset,
        offset + 1, ... (Code.py.PY:132-136). `es` is what compoundDecipher
        makes of each species. */
    method RecordAll(species: seq<string>, ghost es: seq<Emission>, offset: nat, side: int) returns (status: Status)
      requires Valid()
      requires |es| == |species|
      requires forall k {:trigger CompoundCounts(species[k])} :: 0 <= k < |species| ==> es[k] == CompoundCounts(species[k])
      modifies this
      ensures Valid()
      ensures Step(Snapshot(), status) == RecordEach(old(Snapshot()), es, offset, side)
    {
      ghost var goal := RecordEach(Snapshot(), es, offset, side);
      assert es[0..] == es;
      for i := 0 to |species|
        invariant Valid()
        invariant RecordEach(Snapshot(), es[i..], offset + i, side) == goal
      {
        status := RecordOne(species, es, i, offset, side);
        if status.Raised? {
          return;
        }
      }
      assert es[|species|..] == [];
      return Completed;
    }

    /** Lines 121-136 of process_equation: the state is reset, then the
        reactants are recorded with side 1 at rows 0..R-1 and the products
        with side -1 at rows R..R+P-1. */
    method RecordRequest(reactants: seq<string>, products: seq<string>) returns (status: Status)
      modifies this
      ensures Valid()
      ensures Step(Snapshot(), status) == Assemble(reactants, products)
    {
      symbols := [];
      matrix := [];
      ParsedAll(reactants);
      ParsedAll(products);
      status := RecordAll(reactants, Parsed(reactants), 0, 1);
      if status.Raised? {
        return;
      }
      status := RecordAll(products, Parsed(products), |reactants|, -1);
    }

    /** process_equation (Code.py.PY:120-154) without its widgets: records
        the request, takes the first vector of the null space of the
        transposed table, scales it by the lcm of its denominators and
        prints the equation. `nullspace` stands for sympy's
        Matrix.nullspace. */
    method ProcessEquation(reactantsText: string, productsText: string, nullspace: IntMatrix -> seq<seq<Rat>>)
      returns (r: Result<string>)
      modifies this
      ensures Valid()
      ensures Snapshot() == Assemble(SpeciesList(reactantsText), SpeciesList(productsText)).table
      ensures r == Balance(reactantsText, productsText, nullspace)
    {
      var reactants := SpeciesList(reactantsText);
      var products := SpeciesList(productsText);
      ghost var solution := Solution(Parsed(reactants), Parsed(products), nullspace);
      assert Balance(reactantsText, productsText, nullspace) ==
        if solution.Err? then Err(solution.error) else Ok(EquationText(solution.value, reactants, products));
      var st := RecordRequest(reactants, products);
      if st.Raised? {
        assert solution == Err(st.error);
        return Err(st.error);
      }
      var vectors := nullspace(Transpose(matrix, |symbols|));
      if |vectors| == 0 {
        assert solution == Err(EmptyNullSpace);
        return Err(EmptyNullSpace);
      }
      var coefficients := ScaleByLcm(vectors[0]);
      assert solution == if |coefficients| < |reactants| + |products| then Err(ShortSolution) else Ok(coefficients);
      r := EquationString(coefficients, reactants, products);
    }
  }

  /** The text after `i` rounds of one side's loop (Code.py.PY:146-149 or
      151-154): the first `i` terms joined with " + ", and a trailing " + "
      while more terms are to come. */
  ghost function Partial(cs: seq<int>, species: seq<string>, i: nat): string
    requires i <= |cs| && i <= |species|
  {
    if i == 0 then "" else SideText(cs[..i], species[..i]) + (if i < |species| then " + " else "")
  }

  lemma PartialStep(cs: seq<int>, species: seq<string>, i: nat)
    requires i < |cs| && i < |species|
    ensures Partial(cs, species, i + 1) ==
      Partial(cs, species, i) + (Term(cs[i], species[i]) + if i + 1 < |species| then " + " else "")
  {
    var ts := Terms(cs[..i + 1], species[..i + 1]);
    assert ts == Terms(cs[..i], species[..i]) + [Term(cs[i], species[i])];
    if i > 0 {
      JoinSnoc(Terms(cs[..i], species[..i]), Term(cs[i], species[i]), " + ");
    }
  }

  /** One side's loop (Code.py.PY:146-149 and 151-154): appends to `text`
      the species' terms joined with " + ", species k taking coefficient
      `offset + k`. Fails where the source raises IndexError: a species
      without a coefficient. */
  method AppendSide(text: string, coeffs: seq<int>, offset: nat, species: seq<string>) returns (r: Result<string>)
    requires offset <= |coeffs|
    ensures r == if |coeffs| < offset + |species| then Err(ShortSolution)
                 else Ok(text + SideText(coeffs[offset..offset + |species|], species))
  {
    ghost var cs := coeffs[offset..];
    var out := text;
    for i := 0 to |species|
      invariant i <= |cs|
      invariant out == text + Partial(cs, species, i)
    {
      if offset + i >= |coeffs| {
        return Err(ShortSolution);
      }
      PartialStep(cs, species, i);
      ghost var before := out;
      ghost var piece := Term(cs[i], species[i]) + if i + 1 < |species| then " + " else "";
      out := out + Term(coeffs[offset + i], species[i]);
      if i < |species| - 1 {
        AppendAssoc(before, Term(coeffs[offset + i], species[i]), " + ");
        out := out + " + ";
      }
      assert out == before + piece;
      AppendAssoc(text, Partial(cs, species, i), piece);
    }
    assert species[..|species|] == species && cs[..|species|] == coeffs[offset..offset + |species|];
    if species == [] {
      assert out == text + [];
    } else {
      assert Partial(cs, species, |species|) == SideText(coeffs[offset..offset + |species|], species);
    }
    return Ok(out);
  }

  /** Lines 145-154: the reactant side, " -> ", then the product side. */
  method EquationString(coeffs: seq<int>, reactants: seq<string>, products: seq<string>) returns (r: Result<string>)
    ensures r == if |coeffs| < |reactants| + |products| then Err(ShortSolution)
                 else Ok(EquationText(coeffs, reactants, products))
  {
    var left := AppendSide("", coeffs, 0, reactants);
    if left.Err? {
      return left;
    }
    assert coeffs[0..|reactants|] == coeffs[..|reactants|];
    assert left.value == SideText(coeffs[..|reactants|], reactants);
    r := AppendSide(left.value + " -> ", coeffs, |reactants|, products);
  }
}
