/** The stoichiometry table as a value: `symbols` is the global symbolList
    (the element columns, in the order they were first seen) and `rows` is the
    global symbolMatrix (one row per species). The functions here say what
    addToMatrix (Code.py.PY:29-39) and a whole request's sequence of calls
    (Code.py.PY:132-136) make of it; Balancer.Workspace does the same in
    place and is proved equal to them. */
module Stoichiometry {
  import opened Failures
  import opened Formula

  datatype Table = Table(symbols: seq<string>, rows: seq<seq<int>>)
  {
    /** Every row has one entry per known symbol. */
    predicate Rectangular()
    {
      forall r :: 0 <= r < |rows| ==> |rows[r]| == |symbols|
    }

    /** No symbol has two columns. */
    predicate Distinct()
    {
      forall i, j :: 0 <= i < j < |symbols| ==> symbols[i] != symbols[j]
    }

    predicate Valid()
    {
      Rectangular() && Distinct()
    }
  }

  /** The state at the start of each request (Code.py.PY:121-123). */
  const EMPTY: Table := Table([], [])

  function Zeros(n: nat): (z: seq<int>)
    ensures |z| == n
  {
    if n == 0 then [] else Zeros(n - 1) + [0]
  }

  lemma {:induction false} ZerosAt(n: nat, i: nat)
    requires i < n
    ensures Zeros(n)[i] == 0
    decreases n
  {
    if i < n - 1 {
      ZerosAt(n - 1, i);
    }
  }

  /** `symbolList.index(symbol)`: the first position holding `symbol`
      (ColumnFirst). */
  function Column(symbols: seq<string>, symbol: string): (c: nat)
    requires symbol in symbols
    ensures c < |symbols| && symbols[c] == symbol
  {
    if symbols[0] == symbol then 0 else 1 + Column(symbols[1..], symbol)
  }

  lemma {:induction false} ColumnFirst(symbols: seq<string>, symbol: string, j: nat)
    requires symbol in symbols && j < Column(symbols, symbol)
    ensures symbols[j] != symbol
  {
    if j > 0 {
      assert symbols[j] == symbols[1..][j - 1];
      ColumnFirst(symbols[1..], symbol, j - 1);
    }
  }

  /** Appending symbols leaves the columns of the old ones where they were. */
  lemma {:induction false} ColumnPrefix(symbols: seq<string>, more: seq<string>, x: string)
    requires x in symbols
    ensures x in symbols + more && Column(symbols + more, x) == Column(symbols, x)
  {
    if symbols[0] != x {
      assert (symbols + more)[1..] == symbols[1..] + more;
      ColumnPrefix(symbols[1..], more, x);
    }
  }

  /** A new symbol appended at the end has the last column. */
  lemma {:induction false} ColumnLast(symbols: seq<string>, x: string)
    requires x !in symbols
    ensures Column(symbols + [x], x) == |symbols|
  {
    if symbols != [] {
      assert (symbols + [x])[1..] == symbols[1..] + [x];
      ColumnLast(symbols[1..], x);
    }
  }

  /** The count recorded for species `r` and element `x`; 0 where the table
      has no such row or column yet. */
  function Cell(t: Table, r: nat, x: string): int
  {
    if r < |t.rows| && x in t.symbols && Column(t.symbols, x) < |t.rows[r]|
    then t.rows[r][Column(t.symbols, x)] else 0
  }

  /** Every row with a zero appended: a new symbol's column. */
  function Padded(rows: seq<seq<int>>): (p: seq<seq<int>>)
    ensures |p| == |rows|
  {
    if rows == [] then [] else Padded(rows[..|rows| - 1]) + [rows[|rows| - 1] + [0]]
  }

  lemma {:induction false} PaddedAt(rows: seq<seq<int>>, r: nat)
    ensures r < |rows| ==> Padded(rows)[r] == rows[r] + [0]
    decreases |rows|
  {
    if r < |rows| - 1 {
      PaddedAt(rows[..|rows| - 1], r);
    }
  }

  /** Lines 30-37 of addToMatrix: row `index` is created when it is the next
      one, and a new symbol gets a zero column in every row. */
  function Widened(t: Table, symbol: string, index: nat): (p: Table)
    requires t.Valid()
    ensures index < |p.rows| ==> |p.rows[index]| == |p.symbols|
  {
    var rows1 := if index == |t.rows| then t.rows + [Zeros(|t.symbols|)] else t.rows;
    assert index < |rows1| ==> |rows1[index]| == |t.symbols|;
    PaddedAt(rows1, index);
    if symbol in t.symbols then Table(t.symbols, rows1)
    else Table(t.symbols + [symbol], Padded(rows1))
  }

  /** The table after `addToMatrix(symbol, index, count, side)` with
      `delta == count * side`: the widened table with one cell grown by
      `delta`. When `index` lies beyond the next row the call raises at line
      39, after the new column (if any) was added: that table is the result
      too. */
  function Added(t: Table, symbol: string, index: nat, delta: int): (u: Table)
    requires t.Valid()
  {
    var p := Widened(t, symbol, index);
    if index < |p.rows| then
      var c := Column(p.symbols, symbol);
      Table(p.symbols, p.rows[index := p.rows[index][c := p.rows[index][c] + delta]])
    else p
  }

  /** The value of a cell of `t`, 0 for a cell `t` does not have yet. */
  function OldCell(t: Table, r: nat, c: nat): int
  {
    if r < |t.rows| && c < |t.rows[r]| then t.rows[r][c] else 0
  }

  /** addToMatrix keeps the table duplicate-free, appends a new symbol at the
      end (so no existing column moves), creates row `index` when it is the
      next one and succeeds exactly when `index <= |rows|`. */
  lemma AddedShape(t: Table, symbol: string, index: nat, delta: int)
    requires t.Valid()
    ensures var u := Added(t, symbol, index, delta);
      && u.symbols == (if symbol in t.symbols then t.symbols else t.symbols + [symbol])
      && |u.rows| == (if index == |t.rows| then |t.rows| + 1 else |t.rows|)
      && (index < |u.rows| <==> index <= |t.rows|)
      && u.Distinct()
  {
    var u := Added(t, symbol, index, delta);
    if symbol !in t.symbols {
      forall i, j | 0 <= i < j < |u.symbols| ensures u.symbols[i] != u.symbols[j] {
        if j == |t.symbols| { assert u.symbols[i] == t.symbols[i]; }
      }
    }
  }

  /** addToMatrix keeps the table rectangular and changes exactly one cell,
      [index][column of symbol], by `delta`: every other existing cell keeps
      its value and every new cell is 0. */
  lemma AddedEntry(t: Table, symbol: string, index: nat, delta: int, r: nat, c: nat)
    requires t.Valid()
    requires r < |Added(t, symbol, index, delta).rows|
    ensures var u := Added(t, symbol, index, delta);
      && |u.rows[r]| == |u.symbols|
      && (c < |u.symbols| ==>
            u.rows[r][c] == OldCell(t, r, c) +
              (if r == index && c == Column(u.symbols, symbol) then delta else 0))
  {
    AddedShape(t, symbol, index, delta);
    WidenedEntry(t, symbol, index, r);
  }

  /** Widening keeps every existing cell and fills every new one with 0. */
  lemma WidenedEntry(t: Table, symbol: string, index: nat, r: nat)
    requires t.Valid()
    requires r < |Widened(t, symbol, index).rows|
    ensures var p := Widened(t, symbol, index);
      && |p.rows[r]| == |p.symbols|
      && forall c :: 0 <= c < |p.symbols| ==> p.rows[r][c] == OldCell(t, r, c)
  {
    var rows1 := if index == |t.rows| then t.rows + [Zeros(|t.symbols|)] else t.rows;
    assert |rows1[r]| == |t.symbols|;
    if r == |t.rows| {
      forall c | 0 <= c < |t.symbols| ensures rows1[r][c] == 0 {
        ZerosAt(|t.symbols|, c);
      }
    }
    if symbol !in t.symbols {
      PaddedAt(rows1, r);
    }
  }

  /** Added keeps the table rectangular as well as duplicate-free. */
  lemma AddedValid(t: Table, symbol: string, index: nat, delta: int)
    requires t.Valid()
    ensures Added(t, symbol, index, delta).Valid()
  {
    var u := Added(t, symbol, index, delta);
    AddedShape(t, symbol, index, delta);
    forall r | 0 <= r < |u.rows| ensures |u.rows[r]| == |u.symbols| {
      AddedEntry(t, symbol, index, delta, r, 0);
    }
  }

  /** The same effect read by element symbol rather than by column. */
  lemma AddedCell(t: Table, symbol: string, index: nat, delta: int, r: nat, x: string)
    requires t.Valid()
    ensures Cell(Added(t, symbol, index, delta), r, x) ==
      Cell(t, r, x) + (if index <= |t.rows| && r == index && x == symbol then delta else 0)
  {
    var u := Added(t, symbol, index, delta);
    AddedShape(t, symbol, index, delta);
    if x in t.symbols {
      ColumnPrefix(t.symbols, if symbol in t.symbols then [] else [symbol], x);
      assert t.symbols + [] == t.symbols;
      if symbol in t.symbols {
        ColumnPrefix(t.symbols, [], symbol);
      } else {
        ColumnLast(t.symbols, symbol);
      }
    } else if x == symbol {
      ColumnLast(t.symbols, symbol);
    }
    if r < |u.rows| && x in u.symbols {
      AddedEntry(t, symbol, index, delta, r, Column(u.symbols, x));
    }
  }

  datatype Recorded = Recorded(table: Table, ok: bool)

  /** addToMatrix for each count in turn, at species `index` with `side`,
      stopping at the first call that raises. */
  function AddAll(t: Table, counts: seq<Count>, index: nat, side: int): (r: Recorded)
    requires t.Valid()
    ensures r.table.Valid()
    decreases |counts|
  {
    if counts == [] then Recorded(t, true)
    else
      AddedValid(t, counts[0].symbol, index, counts[0].amount * side);
      var u := Added(t, counts[0].symbol, index, counts[0].amount * side);
      if index <= |t.rows| then AddAll(u, counts[1..], index, side) else Recorded(u, false)
  }

  /** Recording a species' counts fails only when its row would leave a gap;
      the row exists afterwards if anything was recorded, no column moves, and
      every recorded symbol has a column. */
  lemma {:induction false} AddAllShape(t: Table, counts: seq<Count>, index: nat, side: int)
    requires t.Valid()
    ensures var r := AddAll(t, counts, index, side);
      && r.ok == (counts == [] || index <= |t.rows|)
      && |r.table.rows| == (if r.ok && counts != [] && index == |t.rows| then |t.rows| + 1 else |t.rows|)
      && t.symbols <= r.table.symbols
      && (r.ok ==> forall k :: 0 <= k < |counts| ==> counts[k].symbol in r.table.symbols)
    decreases |counts|
  {
    if counts != [] {
      var c := counts[0];
      var u := Added(t, c.symbol, index, c.amount * side);
      AddedShape(t, c.symbol, index, c.amount * side);
      AddedValid(t, c.symbol, index, c.amount * side);
      if index <= |t.rows| {
        AddAllShape(u, counts[1..], index, side);
        var r := AddAll(u, counts[1..], index, side);
        forall k | 0 <= k < |counts| ensures counts[k].symbol in r.table.symbols {
          if k == 0 {
            assert c.symbol in u.symbols;
          } else {
            assert counts[k] == counts[1..][k - 1];
          }
        }
      }
    }
  }

  /** On success each element's cell in row `index` grows by `side` times the
      element's total over the counts; no other cell changes, and on failure
      none does. */
  lemma {:induction false} AddAllCell(t: Table, counts: seq<Count>, index: nat, side: int, row: nat, x: string)
    requires t.Valid()
    ensures var r := AddAll(t, counts, index, side);
      Cell(r.table, row, x) == Cell(t, row, x) + (if r.ok && row == index then side * Total(counts, x) else 0)
    decreases |counts|, 1
  {
    if counts == [] {
      assert Total(counts, x) == 0;
    } else if index <= |t.rows| {
      AddAllCellFirst(t, counts, index, side, row, x);
    } else {
      var c := counts[0];
      var u := Added(t, c.symbol, index, c.amount * side);
      AddedCell(t, c.symbol, index, c.amount * side, row, x);
      assert AddAll(t, counts, index, side) == Recorded(u, false);
    }
  }

  /** AddAllCell when the first count goes through: its cell grows, then
      the rest of the counts are recorded on top. */
  lemma {:induction false} AddAllCellFirst(t: Table, counts: seq<Count>, index: nat, side: int, row: nat, x: string)
    requires t.Valid() && counts != [] && index <= |t.rows|
    ensures var r := AddAll(t, counts, index, side);
      Cell(r.table, row, x) == Cell(t, row, x) + (if r.ok && row == index then side * Total(counts, x) else 0)
    decreases |counts|, 0
  {
    var c := counts[0];
    var u := Added(t, c.symbol, index, c.amount * side);
    AddedValid(t, c.symbol, index, c.amount * side);
    AddedCell(t, c.symbol, index, c.amount * side, row, x);
    var here := if c.symbol == x then c.amount else 0;
    assert Total(counts, x) == here + Total(counts[1..], x);
    var r := AddAll(u, counts[1..], index, side);
    assert AddAll(t, counts, index, side) == r;
    AddAllCell(u, counts[1..], index, side, row, x);
    assert r.ok by {
      AddedShape(t, c.symbol, index, c.amount * side);
      AddAllShape(u, counts[1..], index, side);
    }
    if row == index {
      assert Cell(u, row, x) == Cell(t, row, x) + here * side;
      CellSum(Cell(t, row, x), Cell(u, row, x), Cell(r.table, row, x), here, Total(counts[1..], x), side);
    }
  }

  /** Two additions to a cell: `here` copies of `side`, then `side` times
      the rest. */
  lemma CellSum(a: int, b: int, c: int, here: int, rest: int, side: int)
    requires b == a + here * side && c == b + side * rest
    ensures c == a + side * (here + rest)
  {
  }

  /** Where a species' parse leaves the table, and how it ends. */
  datatype Step = Step(table: Table, status: Status)

  /** The species' counts recorded at row `index`: a row gap raises before
      any later failure of the parse could. */
  function Record(t: Table, e: Emission, index: nat, side: int): (s: Step)
    requires t.Valid()
    ensures s.table.Valid()
  {
    var r := AddAll(t, e.counts, index, side);
    Step(r.table, if r.ok then e.status else Raised(SpeciesGap))
  }

  /** Recording nothing changes nothing and ends as the emission ends. */
  lemma RecordNothing(t: Table, status: Status, index: nat, side: int)
    requires t.Valid()
    ensures Record(t, Emission([], status), index, side) == Step(t, status)
  {
  }

  /** Recording one more count first: it is added to the table, and a row
      gap stops everything at once. */
  lemma RecordPrepend(t: Table, c: Count, e: Emission, index: nat, side: int)
    requires t.Valid()
    ensures var u := Added(t, c.symbol, index, c.amount * side);
      && u.Valid()
      && Record(t, Prepend(c, e), index, side) ==
           if index <= |t.rows| then Record(u, e, index, side) else Step(u, Raised(SpeciesGap))
  {
    AddedValid(t, c.symbol, index, c.amount * side);
    var counts := Prepend(c, e).counts;
    assert counts[0] == c && counts[1..] == e.counts;
  }

  /** AddAll over two lists of counts is AddAll over the first, then, if
      that went through, over the second. */
  lemma {:induction false} AddAllAppend(t: Table, xs: seq<Count>, ys: seq<Count>, index: nat, side: int)
    requires t.Valid()
    ensures var a := AddAll(t, xs, index, side);
      AddAll(t, xs + ys, index, side) == if a.ok then AddAll(a.table, ys, index, side) else a
    decreases |xs|
  {
    if xs == [] {
      assert xs + ys == ys;
    } else {
      var c := xs[0];
      AddedValid(t, c.symbol, index, c.amount * side);
      assert (xs + ys)[0] == c && (xs + ys)[1..] == xs[1..] + ys;
      if index <= |t.rows| {
        AddAllAppend(Added(t, c.symbol, index, c.amount * side), xs[1..], ys, index, side);
      }
    }
  }

  /** Recording a completed emission and then another is recording their
      concatenation, unless the first already stopped at a row gap. */
  lemma RecordAppend(t: Table, a: Emission, b: Emission, index: nat, side: int)
    requires t.Valid() && a.status == Completed
    ensures var s := Record(t, a, index, side);
      Record(t, Emission(a.counts + b.counts, b.status), index, side) ==
        if s.status == Completed then Record(s.table, b, index, side) else s
  {
    AddAllAppend(t, a.counts, b.counts, index, side);
  }

  /** Recording a compound is recording its segments one by one: each is
      parsed with its multiplier and recorded, and the first failure ends the
      compound (Code.py.PY:56-63). */
  lemma RecordSegments(t: Table, segments: seq<string>, k: nat, index: nat, side: int)
    requires t.Valid() && k < |segments|
    ensures Record(t, SegmentsEmission(segments[k..]), index, side) ==
      match SegmentPlan(segments[k])
      case Err(e) => Step(t, Raised(e))
      case Ok(plan) =>
        var s := Record(t, SymbolCounts(plan.text, plan.multiplier), index, side);
        if s.status.Raised? then s else Record(s.table, SegmentsEmission(segments[k + 1..]), index, side)
  {
    var rest := segments[k..];
    assert rest[0] == segments[k] && rest[1..] == segments[k + 1..];
    match SegmentPlan(segments[k])
    case Err(e) =>
    case Ok(plan) =>
      var first := SymbolCounts(plan.text, plan.multiplier);
      if first.status == Completed {
        RecordAppend(t, first, SegmentsEmission(segments[k + 1..]), index, side);
      }
  }

  /** What compoundDecipher emits for each species, in order. */
  function Parsed(species: seq<string>): (es: seq<Emission>)
    ensures |es| == |species|
  {
    if species == [] then [] else [CompoundCounts(species[0])] + Parsed(species[1..])
  }

  lemma {:induction false} ParsedAt(species: seq<string>, k: nat)
    requires k < |species|
    ensures Parsed(species)[k] == CompoundCounts(species[k])
    decreases k
  {
    if k > 0 {
      ParsedAt(species[1..], k - 1);
    }
  }

  lemma ParsedAll(species: seq<string>)
    ensures forall k :: 0 <= k < |species| ==> Parsed(species)[k] == CompoundCounts(species[k])
  {
    forall k | 0 <= k < |species| ensures Parsed(species)[k] == CompoundCounts(species[k]) {
      ParsedAt(species, k);
    }
  }

  /** Emission k recorded at row `offset + k`, for each k in turn, stopping at
      the first failure. */
  function RecordEach(t: Table, es: seq<Emission>, offset: nat, side: int): (s: Step)
    requires t.Valid()
    ensures s.table.Valid()
    decreases |es|
  {
    if es == [] then Step(t, Completed)
    else
      var first := Record(t, es[0], offset, side);
      if first.status.Raised? then first
      else RecordEach(first.table, es[1..], offset + 1, side)
  }

  /** One step of RecordEach from position `i` on: emission `i` is recorded
      at row `offset + i`, then, unless that raised, the rest. */
  lemma RecordEachStep(t: Table, es: seq<Emission>, i: nat, offset: nat, side: int)
    requires t.Valid() && i < |es|
    ensures RecordEach(t, es[i..], offset + i, side) ==
      var first := Record(t, es[i], offset + i, side);
      if first.status.Raised? then first
      else RecordEach(first.table, es[i + 1..], offset + i + 1, side)
  {
    var rest := es[i..];
    assert rest[0] == es[i] && rest[1..] == es[i + 1..];
  }

  /** The table a request builds: reactants at rows 0..R-1 with side +1, then
      products at rows R..R+P-1 with side -1, from an empty table. */
  function Assemble(reactants: seq<string>, products: seq<string>): (s: Step)
    ensures s.table.Valid()
  {
    Combine(Parsed(reactants), Parsed(products))
  }

  /** Assemble on what the species parse to. */
  function Combine(left: seq<Emission>, right: seq<Emission>): (s: Step)
    ensures s.table.Valid()
  {
    var l := RecordEach(EMPTY, left, 0, 1);
    if l.status.Raised? then l
    else RecordEach(l.table, right, |left|, -1)
  }

  lemma {:induction false} RecordEachShape(t: Table, es: seq<Emission>, offset: nat, side: int)
    requires t.Valid() && |t.rows| <= offset
    requires RecordEach(t, es, offset, side).status == Completed
    ensures |RecordEach(t, es, offset, side).table.rows| <= offset + |es|
    decreases |es|
  {
    if es != [] {
      AddAllShape(t, es[0].counts, offset, side);
      RecordEachShape(Record(t, es[0], offset, side).table, es[1..], offset + 1, side);
    }
  }

  /** Rows before `offset` are untouched; emission k fills row `offset + k`. */
  lemma {:induction false} RecordEachCell(t: Table, es: seq<Emission>, offset: nat, side: int, r: nat, x: string)
    requires t.Valid() && |t.rows| <= offset
    requires RecordEach(t, es, offset, side).status == Completed
    ensures var u := RecordEach(t, es, offset, side).table;
      && (r < offset ==> Cell(u, r, x) == Cell(t, r, x))
      && (offset <= r < offset + |es| ==> Cell(u, r, x) == side * Total(es[r - offset].counts, x))
    decreases |es|
  {
    if es != [] {
      var first := Record(t, es[0], offset, side);
      AddAllShape(t, es[0].counts, offset, side);
      AddAllCell(t, es[0].counts, offset, side, r, x);
      RecordEachCell(first.table, es[1..], offset + 1, side, r, x);
      if r == offset {
        assert Cell(t, r, x) == 0;
      } else if offset < r < offset + |es| {
        assert es[r - offset] == es[1..][r - (offset + 1)];
      }
    }
  }

  /** Left emission k lands in row k, positive. */
  lemma CombineLeftRow(left: seq<Emission>, right: seq<Emission>, k: nat, x: string)
    requires Combine(left, right).status == Completed
    requires k < |left|
    ensures Cell(Combine(left, right).table, k, x) == Total(left[k].counts, x)
  {
    var l := RecordEach(EMPTY, left, 0, 1);
    RecordEachShape(EMPTY, left, 0, 1);
    RecordEachCell(EMPTY, left, 0, 1, k, x);
    RecordEachCell(l.table, right, |left|, -1, k, x);
  }

  /** Right emission j lands in row |left| + j, negated. */
  lemma CombineRightRow(left: seq<Emission>, right: seq<Emission>, j: nat, x: string)
    requires Combine(left, right).status == Completed
    requires j < |right|
    ensures Cell(Combine(left, right).table, |left| + j, x) == -Total(right[j].counts, x)
  {
    var l := RecordEach(EMPTY, left, 0, 1);
    RecordEachShape(EMPTY, left, 0, 1);
    RecordEachCell(l.table, right, |left|, -1, |left| + j, x);
  }

  lemma CombineShape(left: seq<Emission>, right: seq<Emission>)
    requires Combine(left, right).status == Completed
    ensures |Combine(left, right).table.rows| <= |left| + |right|
  {
    var l := RecordEach(EMPTY, left, 0, 1);
    RecordEachShape(EMPTY, left, 0, 1);
    RecordEachShape(l.table, right, |left|, -1);
  }

  /** Reactant k's counts end up in row k, positive; product j's in row
      R + j, negated; there is no row beyond the species. Stated on what the
      species parse to: Assemble(reactants, products) is
      Combine(Parsed(reactants), Parsed(products)). */
  lemma CombineRows(left: seq<Emission>, right: seq<Emission>)
    requires Combine(left, right).status == Completed
    ensures var u := Combine(left, right).table;
      && |u.rows| <= |left| + |right|
      && (forall k: nat, x :: k < |left| ==> Cell(u, k, x) == Total(left[k].counts, x))
      && (forall j: nat, x :: j < |right| ==> Cell(u, |left| + j, x) == -Total(right[j].counts, x))
  {
    CombineShape(left, right);
    forall k: nat, x | k < |left|
      ensures Cell(Combine(left, right).table, k, x) == Total(left[k].counts, x)
    {
      CombineLeftRow(left, right, k, x);
    }
    forall j: nat, x | j < |right|
      ensures Cell(Combine(left, right).table, |left| + j, x) == -Total(right[j].counts, x)
    {
      CombineRightRow(left, right, j, x);
    }
  }
}
