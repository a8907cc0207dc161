/** What one press of Submit computes (ChemicalApp.process_equation,
    Code.py.PY:120-154), as functions: the species lists read from the two
    entry fields, the coefficients taken from the null space, and the
    equation text. Balancer.Workspace.ProcessEquation is proved to return
    exactly Balance(...). */
module Equation {
  import opened Text
  import opened Failures
  import opened Formula
  import opened Stoichiometry
  import opened Rationals

  /** One entry field read as species (Code.py.PY:129-130): spaces removed,
      split on '+', and the leading coefficient digits of each part
      dropped. */
  function SpeciesList(text: string): (species: seq<string>)
    ensures |species| >= 1
  {
    var parts := SplitOn(RemoveSpaces(text), '+');
    seq(|parts|, k requires 0 <= k < |parts| => StripLeadingDigits(parts[k]))
  }

  /** A formula as SpeciesList produces it: no space, no '+', and no leading
      digit. */
  predicate IsSpecies(f: string)
  {
    Avoids(f, ' ') && Avoids(f, '+') && (f == [] || !IsDigit(f[0]))
  }

  /** A dropped prefix leaves a suffix: a character the text avoids is
      avoided by the suffix too. */
  lemma StripAvoids(s: string, c: char)
    requires Avoids(s, c)
    ensures Avoids(StripLeadingDigits(s), c)
  {
    var r := StripLeadingDigits(s);
    var d := |s| - |r|;
    forall i | 0 <= i < |r| ensures r[i] != c {
      assert r[i] == (s[..d] + r)[d + i];
    }
  }

  /** Every species read from an entry field is a formula as above. */
  lemma SpeciesListShape(text: string)
    ensures forall k :: 0 <= k < |SpeciesList(text)| ==> IsSpecies(SpeciesList(text)[k])
  {
    var s := RemoveSpaces(text);
    var parts := SplitOn(s, '+');
    SplitOnJoin(s, '+');
    SplitOnAvoids(s, '+', ' ');
    forall k | 0 <= k < |parts| ensures IsSpecies(StripLeadingDigits(parts[k])) {
      StripAvoids(parts[k], ' ');
      StripAvoids(parts[k], '+');
    }
  }

  /** Every part of a split avoids what the whole text avoids. */
  lemma {:induction false} SplitOnAvoids(s: string, sep: char, c: char)
    requires Avoids(s, c)
    ensures forall k :: 0 <= k < |SplitOn(s, sep)| ==> Avoids(SplitOn(s, sep)[k], c)
    decreases |s|
  {
    if s != [] {
      var rest := SplitOn(s[1..], sep);
      SplitOnAvoids(s[1..], sep, c);
      var parts := SplitOn(s, sep);
      if s[0] == sep {
        assert parts == [""] + rest;
        forall k | 0 < k < |parts| ensures Avoids(parts[k], c) {
          assert parts[k] == rest[k - 1];
        }
      } else {
        assert parts == [[s[0]] + rest[0]] + rest[1..];
        forall k | 0 <= k < |parts| ensures Avoids(parts[k], c) {
          if k > 0 {
            assert parts[k] == rest[k];
          } else {
            forall i | 0 <= i < |parts[0]| ensures parts[0][i] != c {
              if i > 0 { assert parts[0][i] == rest[0][i - 1]; }
            }
          }
        }
      }
    }
  }

  /** `str(c) + formula`: a coefficient printed directly before its
      formula, 1 included (Code.py.PY:147, 152). */
  function Term(c: int, f: string): string
  {
    IntToString(c) + f
  }

  function Terms(cs: seq<int>, species: seq<string>): (ts: seq<string>)
    requires |cs| == |species|
    ensures |ts| == |species|
  {
    seq(|species|, k requires 0 <= k < |species| => Term(cs[k], species[k]))
  }

  /** One side of the equation: its terms joined with " + ". */
  function SideText(cs: seq<int>, species: seq<string>): string
    requires |cs| == |species|
  {
    Join(Terms(cs, species), " + ")
  }

  /** The equation text (Code.py.PY:145-154): the reactant terms with the
      first R coefficients, " -> ", and the product terms with the next P. */
  function EquationText(coeffs: seq<int>, reactants: seq<string>, products: seq<string>): string
    requires |coeffs| >= |reactants| + |products|
  {
    var r := |reactants|;
    SideText(coeffs[..r], reactants) + " -> " + SideText(coeffs[r..r + |products|], products)
  }

  /** The coefficients of a request whose species parse to `left` and
      `right` (Code.py.PY:132-143): the table is built, the first vector of
      the null space of its transpose is scaled by the lcm of its
      denominators, and there must be a coefficient for every species. */
  function Solution(left: seq<Emission>, right: seq<Emission>, nullspace: IntMatrix -> seq<seq<Rat>>): (r: Result<seq<int>>)
    ensures r.Ok? ==> |r.value| >= |left| + |right|
  {
    var s := Combine(left, right);
    if s.status.Raised? then Err(s.status.error)
    else
      var vectors := nullspace(Transpose(s.table.rows, |s.table.symbols|));
      if vectors == [] then Err(EmptyNullSpace)
      else
        var c := ScaleByLcm(vectors[0]);
        if |c| < |left| + |right| then Err(ShortSolution) else Ok(c)
  }

  /** The text the equation label shows, or the failure that stops the
      request. */
  function Balance(reactantsText: string, productsText: string, nullspace: IntMatrix -> seq<seq<Rat>>): Result<string>
  {
    var reactants, products := SpeciesList(reactantsText), SpeciesList(productsText);
    match Solution(Parsed(reactants), Parsed(products), nullspace)
    case Err(e) => Err(e)
    case Ok(c) => Ok(EquationText(c, reactants, products))
  }

  /** How much of `x` each parsed species holds. */
  function Totals(es: seq<Emission>, x: string): (ns: seq<int>)
    ensures |ns| == |es|
  {
    seq(|es|, k requires 0 <= k < |es| => Total(es[k].counts, x))
  }

  function Negated(ns: seq<int>): (ms: seq<int>)
    ensures |ms| == |ns|
  {
    seq(|ns|, k requires 0 <= k < |ns| => -ns[k])
  }

  lemma {:induction false} IntDotAppend(a: seq<int>, b: seq<int>, c: seq<int>, d: seq<int>)
    requires |a| == |c| && |b| == |d|
    ensures IntDot(a + b, c + d) == IntDot(a, c) + IntDot(b, d)
    decreases |a|
  {
    if a == [] {
      assert a + b == b && c + d == d;
    } else {
      assert (a + b)[1..] == a[1..] + b && (c + d)[1..] == c[1..] + d;
      IntDotAppend(a[1..], b, c[1..], d);
    }
  }

  lemma {:induction false} IntDotNegated(a: seq<int>, c: seq<int>)
    requires |a| == |c|
    ensures IntDot(Negated(a), c) == -IntDot(a, c)
    decreases |a|
  {
    if a != [] {
      assert Negated(a)[1..] == Negated(a[1..]);
      IntDotNegated(a[1..], c[1..]);
    }
  }

  /** Column `x` of the transposed table is reactant totals followed by
      negated product totals. */
  lemma ElementRow(left: seq<Emission>, right: seq<Emission>, x: string)
    requires Combine(left, right).status == Completed
    requires |Combine(left, right).table.rows| == |left| + |right|
    requires x in Combine(left, right).table.symbols
    ensures var t := Combine(left, right).table;
      Transpose(t.rows, |t.symbols|).rows[Column(t.symbols, x)] == Totals(left, x) + Negated(Totals(right, x))
  {
    var t := Combine(left, right).table;
    var row := Transpose(t.rows, |t.symbols|).rows[Column(t.symbols, x)];
    var want := Totals(left, x) + Negated(Totals(right, x));
    assert |row| == |want|;
    forall k | 0 <= k < |row| ensures row[k] == want[k] {
      ElementRowEntry(left, right, x, k);
    }
  }

  /** Entry k of the transposed row of `x` is row k's cell for `x`. */
  lemma TransposedCell(t: Table, x: string, k: nat)
    requires t.Valid() && x in t.symbols && k < |t.rows|
    ensures Transpose(t.rows, |t.symbols|).rows[Column(t.symbols, x)][k] == Cell(t, k, x)
  {
    var e := Column(t.symbols, x);
    assert Transpose(t.rows, |t.symbols|).rows[e][k] == t.rows[k][e];
  }

  /** One entry of that row: species k's count of `x`, negated for a product. */
  lemma ElementRowEntry(left: seq<Emission>, right: seq<Emission>, x: string, k: nat)
    requires Combine(left, right).status == Completed
    requires |Combine(left, right).table.rows| == |left| + |right|
    requires x in Combine(left, right).table.symbols
    requires k < |left| + |right|
    ensures var t := Combine(left, right).table;
      Transpose(t.rows, |t.symbols|).rows[Column(t.symbols, x)][k] == (Totals(left, x) + Negated(Totals(right, x)))[k]
  {
    TransposedCell(Combine(left, right).table, x, k);
    if k < |left| {
      CombineLeftRow(left, right, k, x);
    } else {
      CombineRightRow(left, right, k - |left|, x);
      assert Negated(Totals(right, x))[k - |left|] == -Total(right[k - |left|].counts, x);
    }
  }

  /** The balanced equation conserves every element: for each symbol `x`,
      the coefficients weight the reactants' counts of `x` to the same total
      as the products'. This is what the null space of the transposed table
      gives, and the lcm scaling keeps (Code.py.PY:132-143). */
  lemma SolutionBalances(left: seq<Emission>, right: seq<Emission>, nullspace: IntMatrix -> seq<seq<Rat>>, x: string)
    requires NullSpaceSound(nullspace)
    requires Solution(left, right, nullspace).Ok?
    ensures var c := Solution(left, right, nullspace).value;
      && |c| == |left| + |right|
      && IntDot(Totals(left, x), c[..|left|]) == IntDot(Totals(right, x), c[|left|..])
  {
    var s := Combine(left, right);
    var t := s.table;
    var m := Transpose(t.rows, |t.symbols|);
    var v := nullspace(m)[0];
    assert IsNullVector(m, v);
    var c := ScaleByLcm(v);
    assert Solution(left, right, nullspace).value == c;
    CombineShape(left, right);
    assert |c| == |t.rows| == |left| + |right|;
    var lt, rt := Totals(left, x), Totals(right, x);
    if x in t.symbols {
      ScaledNullVector(m, v);
      var e := Column(t.symbols, x);
      assert IntDot(m.rows[e], c) == 0;
      ElementRow(left, right, x);
      assert c == c[..|left|] + c[|left|..];
      IntDotAppend(lt, Negated(rt), c[..|left|], c[|left|..]);
      IntDotNegated(rt, c[|left|..]);
    } else {
      forall k | 0 <= k < |left| ensures lt[k] == 0 {
        CombineLeftRow(left, right, k, x);
      }
      forall j | 0 <= j < |right| ensures rt[j] == 0 {
        CombineRightRow(left, right, j, x);
      }
      IntDotZero(lt, c[..|left|]);
      IntDotZero(rt, c[|left|..]);
    }
  }

  /** The coefficients are never all zero: `0Fe -> 0O2` is not a solution. */
  lemma SolutionNonZero(left: seq<Emission>, right: seq<Emission>, nullspace: IntMatrix -> seq<seq<Rat>>)
    requires NullSpaceSound(nullspace)
    requires Solution(left, right, nullspace).Ok?
    ensures var c := Solution(left, right, nullspace).value;
      exists j :: 0 <= j < |c| && c[j] != 0
  {
    var t := Combine(left, right).table;
    var m := Transpose(t.rows, |t.symbols|);
    var v := nullspace(m)[0];
    assert NonZero(v);
    ScaledNonZero(v);
    assert Solution(left, right, nullspace).value == ScaleByLcm(v);
  }

  /** When the transposed table has no null vector but zero, the request
      stops with the IndexError of `nullspace()[0]` (Code.py.PY:140). */
  lemma TrivialNullSpaceFails(left: seq<Emission>, right: seq<Emission>, nullspace: IntMatrix -> seq<seq<Rat>>)
    requires NullSpaceSound(nullspace)
    requires !Combine(left, right).status.Raised?
    requires var t := Combine(left, right).table;
      forall v :: IsNullVector(Transpose(t.rows, |t.symbols|), v) ==> !NonZero(v)
    ensures Solution(left, right, nullspace) == Err(EmptyNullSpace)
  {
  }

  lemma {:induction false} IntDotZero(a: seq<int>, c: seq<int>)
    requires |a| == |c| && forall k :: 0 <= k < |a| ==> a[k] == 0
    ensures IntDot(a, c) == 0
    decreases |a|
  {
    if a != [] {
      assert forall k :: 0 <= k < |a| - 1 ==> a[1..][k] == a[k + 1];
      IntDotZero(a[1..], c[1..]);
    }
  }

  /** A text without spaces loses nothing to RemoveSpaces, and
      RemoveSpaces distributes over concatenation. */
  lemma {:induction false} RemoveSpacesAppend(a: string, b: string)
    ensures RemoveSpaces(a + b) == RemoveSpaces(a) + RemoveSpaces(b)
    decreases |a|
  {
    if a == [] {
      assert a + b == b;
    } else {
      assert (a + b)[1..] == a[1..] + b;
      RemoveSpacesAppend(a[1..], b);
    }
  }

  /** Joining space-free terms with " + " and removing the spaces is joining
      them with "+". */
  lemma {:induction false} RemoveSpacesJoin(ts: seq<string>)
    requires forall k :: 0 <= k < |ts| ==> Avoids(ts[k], ' ')
    ensures RemoveSpaces(Join(ts, " + ")) == Join(ts, "+")
    decreases |ts|
  {
    if |ts| == 1 {
      assert RemoveSpaces(ts[0]) == ts[0];
    } else if |ts| > 1 {
      RemoveSpacesJoin(ts[1..]);
      var tail := Join(ts[1..], " + ");
      assert Join(ts, " + ") == ts[0] + (" + " + tail);
      RemoveSpacesAppend(ts[0], " + " + tail);
      RemoveSpacesAppend(" + ", tail);
      assert RemoveSpaces(ts[0]) == ts[0];
      assert RemoveSpaces(" + ") == "+" by {
        assert " + "[1..] == "+ " && "+ "[1..] == " " && " "[1..] == "";
      }
      assert Join(ts, "+") == ts[0] + "+" + Join(ts[1..], "+");
    }
  }

  /** Dropping the leading digits of `digits + f` leaves `f`. */
  lemma StripDigitsPrefix(digits: string, f: string)
    requires AllDigits(digits)
    requires f == [] || !IsDigit(f[0])
    ensures StripLeadingDigits(digits + f) == f
  {
    var s := digits + f;
    var r := StripLeadingDigits(s);
    var d := |s| - |r|;
    assert s[..d] + r == s;
    SpanMaximal(s, Digits);
    forall i | 0 <= i < |digits| ensures InClass(s[i], Digits) {
      assert s[i] == digits[i];
    }
    SpanPrefixLength(s, |digits|);
    assert r == s[d..];
  }

  lemma SpanPrefixLength(s: string, n: nat)
    requires n <= |s|
    requires forall i :: 0 <= i < n ==> InClass(s[i], Digits)
    requires n == |s| || !IsDigit(s[n])
    ensures Span(s, Digits) == n
  {
    SpanMaximal(s, Digits);
  }

  /** The printed side of an equation reads back, through the same parsing
      as the entry field, as the species it was printed from, provided no
      coefficient is negative (a '-' would stay in front of the formula). */
  lemma ReparseSide(cs: seq<int>, species: seq<string>)
    requires |cs| == |species| >= 1
    requires forall k :: 0 <= k < |cs| ==> cs[k] >= 0
    requires forall k :: 0 <= k < |species| ==> IsSpecies(species[k])
    ensures SpeciesList(SideText(cs, species)) == species
  {
    var ts := Terms(cs, species);
    forall k | 0 <= k < |ts| ensures Avoids(ts[k], ' ') && Avoids(ts[k], '+') && AllDigits(IntToString(cs[k])) {
      NatToStringDigits(cs[k]);
      var n := IntToString(cs[k]);
      forall i | 0 <= i < |ts[k]| ensures ts[k][i] != ' ' && ts[k][i] != '+' {
        if i >= |n| {
          assert ts[k][i] == species[k][i - |n|];
        }
      }
    }
    RemoveSpacesJoin(ts);
    JoinSplitOn(ts, '+');
    var parts := SplitOn(RemoveSpaces(SideText(cs, species)), '+');
    assert parts == ts;
    forall k | 0 <= k < |species| ensures StripLeadingDigits(ts[k]) == species[k] {
      StripDigitsPrefix(IntToString(cs[k]), species[k]);
    }
  }

  /** Species typed into an entry field with " + " between them read back
      as those species. */
  lemma {:induction false} SpeciesListJoin(species: seq<string>)
    requires |species| >= 1
    requires forall k :: 0 <= k < |species| ==> IsSpecies(species[k])
    ensures SpeciesList(Join(species, " + ")) == species
  {
    var parts := SplitOn(RemoveSpaces(Join(species, " + ")), '+');
    assert parts == species by {
      assert forall k :: 0 <= k < |species| ==> Avoids(species[k], ' ') && Avoids(species[k], '+');
      RemoveSpacesJoin(species);
      JoinSplitOn(species, '+');
    }
    var result := SpeciesList(Join(species, " + "));
    assert |result| == |species|;
    forall k | 0 <= k < |species| ensures result[k] == species[k] {
      assert result[k] == StripLeadingDigits(parts[k]);
      assert "" + species[k] == species[k];
      StripDigitsPrefix("", species[k]);
    }
  }
}
