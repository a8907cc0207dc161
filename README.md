# Chemical equation balancer: the equation-building core

`Code.py.PY` is a small Tk application. The user types the reactants and the
products of a reaction in skeletal form (`H2 + O2` and `H2O`). When they press
Submit, the program does four things:

1. It parses every species into element counts.
2. It records those counts in a stoichiometry table. There is one row per
   species and one column per element symbol, in the order the symbols were
   first seen. Reactant counts are positive and product counts negative.
3. It takes the first vector of the null space of the transposed table and
   scales it by the lcm of its denominators.
4. It prints the balanced equation, `2H2 + 1O2 -> 2H2O`. The lemma
   `RequestExamples.WaterBalance` follows this request from the entry
   fields to that text.

This project models that core in Dafny and proves what it computes.

Modules:

- `Failures`: the points where the Python code raises, as values.
- `Text`: ASCII character classes, `int`/`str`, `re.sub(r'^\d+', '', s)`,
  `replace(' ', '')`, `split('+')` and `join`.
- `Tokenize`: the two `re.split` calls with a capturing group.
  - `([A-Z][a-z]?)` for element symbols.
  - `(\([A-Za-z0-9]*\)[0-9]*)` for groups.
- `Formula`: what `findSymbols` and `compoundDecipher` emit, as pure
  functions. This is the sequence of `(symbol, count)` calls to
  `addToMatrix`, and whether the parse then finishes or raises.
- `Stoichiometry`: the table `(symbolList, symbolMatrix)` as a value.
  - `Added` is one `addToMatrix` call.
  - `AddAll`, `Record` and `RecordEach` are sequences of calls.
  - `Assemble` is a whole request.
- `Rationals`: sympy rationals, `lcm`, and the lcm scaling of a null vector.
  `Matrix.nullspace` is a function parameter. Its contract is
  `NullSpaceSound`: every vector it returns is a non-zero null vector, and
  its entries are in lowest terms, as sympy keeps every `Rational`.
- `Equation`: the species lists read from the entry fields, the
  coefficients (`Solution`), the equation text (`EquationText`) and the
  whole request (`Balance`).
- `Balancer`: the imperative part.
  - The two module-level lists are the fields of the class `Workspace`.
  - `addToMatrix`, `findSymbols`, `compoundDecipher` and `process_equation`
    are its methods, with the source's loops.
  - Each method is proved equal to the function that specifies it.
- `FormulaExamples`: the parser on concrete formulas. These are water,
  magnesium hydroxide, and the cases where the code raises or reads stray
  text.
- `RequestExamples`: the request `H2 + O2` / `H2O`, step by step. It covers
  the species lists, the four `addToMatrix` calls, the table, the scaling
  and the printed equation.

The model follows the code's quirks:

- A non-empty text part between two symbols that is not a count is itself
  recorded as a symbol, with the multiplier as its count (`"H2xO"` records
  `H`, `2x`, `O`).
- A lower-case letter directly after a capital is part of the symbol, so
  `"HxO"` records the symbol `Hx`. There is no stray text in it.
- Such text after the last symbol raises (`"H2x"`).
- A group without digits after `)` raises, because `int('')` fails.
- Nested groups raise, because the lone `(` before the inner group has no
  `)`.
- A species index beyond the next row raises in `addToMatrix`. By then the
  new column has already been added.
- An empty null space raises.
- A vector shorter than the species list raises when the equation text is
  built.
- Coefficients are neither reduced by their gcd nor normalised in sign.

## Model

| member | source | states |
|---|---|---|
| Balancer.Workspace.constructor | Code.py.PY:20-21 | the program starts with no symbols and no rows |
| Balancer.Workspace.Widen | Code.py.PY:30-37 | the state becomes `Widened(old state)`: row `index` is appended with one 0 per symbol when it is the next row, and a new symbol is appended with a 0 in every row |
| Balancer.Workspace.AddToMatrix | Code.py.PY:29-39 | keeps the table rectangular and duplicate-free; the new table is `Added(old, symbol, index, count*side)`; returns true exactly when `index <= len(symbolMatrix)`, the IndexError case otherwise |
| Balancer.Workspace.FindSymbols | Code.py.PY:41-52 | the while loop leaves the table, and ends with the status, that recording `SymbolCounts(segment, multiplier)` gives |
| Balancer.Workspace.DecipherSegment | Code.py.PY:57-63 | one segment: a group is parsed with its multiplier, a bare segment with 1, and a group without `)` or without digits raises before anything is recorded |
| Balancer.Workspace.CompoundDecipher | Code.py.PY:54-63 | the loop over the segments records exactly `CompoundCounts(compound)` at row `index`, stopping at the first failure |
| Balancer.Workspace.RecordOne | Code.py.PY:132-136 | one round of a side's loop: the new table and status are `Record(old table, species i, offset+i, side)`, and what remains is recording the later species |
| Balancer.Workspace.RecordAll | Code.py.PY:132-136 | a side's loop records species k at row `offset+k` in order, stopping at the first failure: `RecordEach` |
| Balancer.Workspace.RecordRequest | Code.py.PY:121-136 | the lists are cleared, then reactants are recorded with side 1 from row 0 and products with side -1 from row R; the result is `Assemble(reactants, products)` |
| Balancer.Workspace.ProcessEquation | Code.py.PY:120-154 | the table as built, before the transposition of lines 138-139, is `Assemble` of the two species lists, and the result is `Balance(...)`: the equation text, or the failure that stops the request |
| Balancer.PartialStep | Code.py.PY:146-149 | one more round of a side's loop appends the next term and, unless it is the last, `" + "` |
| Balancer.AppendSide | Code.py.PY:146-154 | a side's loop appends its terms joined by `" + "`, species k taking coefficient `offset+k`, and fails when a coefficient is missing |
| Balancer.EquationString | Code.py.PY:145-154 | the text is the reactant side, `" -> "`, then the product side, or ShortSolution when there are fewer coefficients than species |
| Stoichiometry.Widened | Code.py.PY:30-37 | the table after the two `if`s of addToMatrix: a zero row when `index` is the next row, and a new zero column when the symbol is new; the row it touches then has one entry per symbol |
| Stoichiometry.Added | Code.py.PY:29-39 | one addToMatrix call: `Widened`, then `count*side` added to the cell `[index][column]` when row `index` exists; otherwise the widened table, where the call raises at line 39 (properties: AddedShape, AddedEntry, AddedCell) |
| Stoichiometry.AddAll | Code.py.PY:44-52 | a run of addToMatrix calls at one row, in order, stopping at the first that raises; keeps the table valid |
| Stoichiometry.Record | Code.py.PY:54-63 | an emission recorded at one row: its calls, then its own status, or SpeciesGap when a call raised; keeps the table valid |
| Stoichiometry.RecordEach | Code.py.PY:132-136 | one side's loop: species k at row `offset+k`, stopping at the first failure; keeps the table valid |
| Stoichiometry.Combine | Code.py.PY:132-136 | reactants with side 1 from row 0, then, unless that raised, products with side -1 from row R; keeps the table valid |
| Stoichiometry.Assemble | Code.py.PY:121-136 | a whole request from the empty table on the parsed species (properties: CombineRows, CombineShape) |
| Stoichiometry.ZerosAt | Code.py.PY:32-33 | a new row holds only zeros |
| Stoichiometry.PaddedAt | Code.py.PY:36-37 | a new symbol adds one 0 at the end of every row |
| Stoichiometry.Column | Code.py.PY:38 | `symbolList.index(symbol)` is a position holding the symbol |
| Stoichiometry.ColumnFirst | Code.py.PY:38 | no earlier position holds the symbol |
| Stoichiometry.ColumnPrefix | Code.py.PY:34-35 | appending symbols never moves the column of a symbol already seen |
| Stoichiometry.ColumnLast | Code.py.PY:34-35 | a new symbol gets the last column |
| Stoichiometry.WidenedEntry | Code.py.PY:30-37 | widening keeps every existing cell and fills every new cell with 0 |
| Stoichiometry.AddedShape | Code.py.PY:29-39 | symbolList gains the symbol at the end only when it is new and stays duplicate-free; a row is added only when `index` is the next one; row `index` exists afterwards exactly when `index <= len(symbolMatrix)` |
| Stoichiometry.AddedEntry | Code.py.PY:30-39 | every row has one entry per symbol; exactly one cell, `[index][column of symbol]`, changes by `count*side`; every other old cell keeps its value and every new cell is 0 |
| Stoichiometry.AddedValid | Code.py.PY:29-39 | addToMatrix keeps the table rectangular and duplicate-free |
| Stoichiometry.AddedCell | Code.py.PY:29-39 | read by element: only the count of `symbol` in row `index` changes, by `count*side`, and only when the call does not raise |
| Stoichiometry.AddAllShape | Code.py.PY:44-52 | a run of addToMatrix calls fails only on a row gap, adds row `index` only when it is the next one, never drops a symbol, and gives every recorded symbol a column |
| Stoichiometry.AddAllCell | Code.py.PY:44-52 | after a run of calls, each element's cell in row `index` has grown by `side` times its total over the run, and nothing else has changed |
| Stoichiometry.AddAllAppend | Code.py.PY:56-63 | two runs of calls in sequence are the run of their concatenation, stopping at a row gap |
| Stoichiometry.RecordNothing | Code.py.PY:44-52 | recording no counts leaves the table unchanged and ends as the parse ends |
| Stoichiometry.RecordPrepend | Code.py.PY:47-52 | recording one count first adds it to the table, and a row gap stops the parse at once |
| Stoichiometry.RecordAppend | Code.py.PY:56-63 | recording a completed segment and then the rest is recording their concatenation |
| Stoichiometry.RecordSegments | Code.py.PY:56-63 | recording the segments from k onwards: segment k's plan fails, or it is recorded, and then the rest are recorded unless that raised |
| Stoichiometry.ParsedAt | Code.py.PY:132-136 | the k-th parse result is what compoundDecipher makes of species k |
| Stoichiometry.ParsedAll | Code.py.PY:132-136 | the same, for all species at once |
| Stoichiometry.RecordEachStep | Code.py.PY:132-136 | recording the species from i onwards records species i at row `offset+i`, then the rest unless that raised |
| Stoichiometry.RecordEachShape | Code.py.PY:132-136 | a side recorded from row `offset` adds no row beyond its species |
| Stoichiometry.RecordEachCell | Code.py.PY:132-136 | a side leaves the rows before `offset` alone and puts `side` times species k's count of each element in row `offset+k` |
| Stoichiometry.CombineLeftRow | Code.py.PY:132-133 | reactant k's counts end up, positive, in row k |
| Stoichiometry.CombineRightRow | Code.py.PY:135-136 | product j's counts end up, negated, in row R+j |
| Stoichiometry.CombineShape | Code.py.PY:132-136 | a completed request has no row beyond its species |
| Stoichiometry.CombineRows | Code.py.PY:121-136 | a completed request from an empty table: reactant k in row k positive, product j in row R+j negated, no other rows |
| Text.SplitOn | Code.py.PY:129 | `split('+')`: at least one part; SplitOnJoin and JoinSplitOn give its meaning |
| Text.Join | Code.py.PY:146-149 | parts with the separator between each two, as the loop adds `" + "` before every term but the first |
| Text.DecimalValue | Code.py.PY:48 | Python's `int` on ASCII digits, leading zeros allowed; inverse of `str` by IntToStringRoundTrip |
| Text.IntToString | Code.py.PY:147 | Python's `str` on an integer, with `-` for a negative one; read back by IntToStringRoundTrip |
| Text.Span | Code.py.PY:55 | a greedy class run is no longer than the text |
| Text.SpanMaximal | Code.py.PY:55 | the run is in the class and cannot be extended |
| Text.SpanOfAll | Code.py.PY:59 | text entirely in the class is spanned whole |
| Text.IndexOfFirst | Code.py.PY:58 | the split at `)` happens at the first `)` |
| Text.IndexOfAt | Code.py.PY:58 | the first `)` is where the text has it, when nothing before it is a `)` |
| Text.NatToStringDigits | Code.py.PY:147 | `str(n)` is non-empty digits reading back as `n`, without a leading zero |
| Text.IntToStringRoundTrip | Code.py.PY:147 | `int(str(i)) == i` for every integer, sign included |
| Text.StripLeadingDigits | Code.py.PY:55 | the result is a suffix, what was dropped is all digits, and the result does not start with a digit |
| Text.RemoveSpaces | Code.py.PY:129 | the result has no spaces and is no longer than the input; space-free text is unchanged |
| Text.SplitOnJoin | Code.py.PY:129 | no part of `split('+')` holds a `+`, and joining the parts with `+` gives the text back |
| Text.JoinSplitOn | Code.py.PY:129 | splitting separator-free parts joined with the separator gives the parts back |
| Text.SplitOnPrefix | Code.py.PY:129 | text before the first separator stays in the first part |
| Text.JoinSnoc | Code.py.PY:148-149 | joining one more part appends the separator and the part |
| Tokenize.MatchLen | Code.py.PY:42-55 | the length of the match at the start of the text, 0 if none, never more than the text: `[A-Z][a-z]?` for line 42, `\([A-Za-z0-9]*\)[0-9]*` for line 55 |
| Tokenize.Split | Code.py.PY:42-55 | `re.split` with one capturing group, scanning left to right; always at least one part (properties: SplitAlternates, SplitRoundTrip, TextHasNoMatch) |
| Tokenize.MatchOfMatch | Code.py.PY:55 | a match matched again is the same match |
| Tokenize.SplitRoundTrip | Code.py.PY:42 | `re.split` loses nothing: the parts concatenate to the input, for both patterns |
| Tokenize.SplitOddLength | Code.py.PY:42 | `re.split` with one capturing group returns an odd number of parts |
| Tokenize.SplitOddIsMatch | Code.py.PY:42 | every odd part is a whole match of the pattern |
| Tokenize.SplitMatchAt | Code.py.PY:42 | part `2*half+1` of a split is a whole match, by induction over the text |
| Tokenize.SplitAlternates | Code.py.PY:42 | the parts alternate text and match, text first and last |
| Tokenize.ElementSplit | Code.py.PY:42 | element split: odd parts are `[A-Z][a-z]?`, even parts hold no capital, and the parts concatenate to the segment |
| Tokenize.TextHasNoUpper | Code.py.PY:42 | no text part of the element split holds a capital |
| Tokenize.MatchIsGroup | Code.py.PY:55 | a group match is `(alphanumerics)digits` |
| Tokenize.GroupSplit | Code.py.PY:55 | group split: odd parts are groups, no group starts anywhere inside a text part, a text part after a group does not start with a digit, and the parts concatenate to the compound |
| Tokenize.GroupDigitsMaximal | Code.py.PY:55 | `[0-9]*` after `)` is greedy: the character after a group match is not a digit |
| Tokenize.TextAfterGroup | Code.py.PY:55 | every text part after the first starts with something other than a digit |
| Tokenize.TextHasNoMatch | Code.py.PY:55 | no match of the pattern starts at any position of a text part |
| Tokenize.MatchExtends | Code.py.PY:55 | a text the pattern matches still matches once more text follows it |
| Tokenize.SplitFirstIsPrefix | Code.py.PY:55 | the first text part is a prefix of the input |
| Tokenize.FirstTextNoMatch | Code.py.PY:55 | where no match starts, none starts in the first text part either |
| Tokenize.TextPartAfterMatch | Code.py.PY:55 | after a leading match, the later parts are those of the rest of the text, two places on |
| Tokenize.TextPartAfterText | Code.py.PY:55 | after a leading text character, the later parts are those of the rest of the text |
| Tokenize.FirstTextTail | Code.py.PY:55 | the tail of the first text part is the tail of the first text part of the rest |
| Tokenize.SplitNoMatch | Code.py.PY:55 | where no match starts, the first character stays in the text part |
| Tokenize.SplitMatchFirst | Code.py.PY:55 | where a match starts, the text part before it is empty |
| Tokenize.SplitTextStep | Code.py.PY:55 | a first character other than `(` stays in the text part |
| Tokenize.SplitBareThen | Code.py.PY:55 | text without `(` is kept whole in front of the rest |
| Tokenize.SplitGroupAlone | Code.py.PY:55 | a group on its own splits as `["", group, ""]` |
| Formula.Walk | Code.py.PY:44-52 | the while loop of findSymbols from part `i`: a non-empty part followed by digits emits `int(digits)*multiplier` and skips them, any other non-empty part emits `multiplier`, and reading past the last part raises (reference: WalkFromText) |
| Formula.SymbolCounts | Code.py.PY:41-52 | findSymbols: the walk over the element split of the segment (reference: SymbolCountsAreContributions) |
| Formula.SegmentPlan | Code.py.PY:57-62 | a segment starting with `(` is the text up to the first `)` with multiplier `int` of the digits after it, failing without `)` or without digits; any other segment is itself with multiplier 1 (GroupPlan) |
| Formula.SegmentsEmission | Code.py.PY:56-63 | the for loop: each segment's plan, then its counts, stopping at the first failure (RecordSegments, BareSegmentFirst, GroupLast) |
| Formula.CompoundCounts | Code.py.PY:54-63 | compoundDecipher: leading digits stripped, the group split, then the segments in order (GroupedCounts, SingleSegment) |
| Formula.WalkFromText | Code.py.PY:44-52 | from a text position the while loop emits exactly the pairwise contributions of the parts after it |
| Formula.SymbolCountsAreContributions | Code.py.PY:42-52 | findSymbols: a symbol followed by digits counts `int(digits)*multiplier`, otherwise `multiplier`; other non-empty text is itself recorded and raises when it comes last |
| Formula.Scaled | Code.py.PY:48 | scaling keeps the number of counts and the status |
| Formula.WalkScales | Code.py.PY:48 | the multiplier scales every count and changes nothing else |
| Formula.WalkSkipsLeadingText | Code.py.PY:43-45 | the text before the first symbol is never visited |
| Formula.GroupPlan | Code.py.PY:57-60 | a group `(inner)k` is parsed as `inner` with multiplier `int(k)`, and fails when there are no digits |
| Formula.StripNoDigits | Code.py.PY:55 | text not starting with a digit is not stripped |
| Formula.BareThenGroupSegments | Code.py.PY:55 | a bare segment followed by one group splits into those two and an empty segment |
| Formula.BareSegmentFirst | Code.py.PY:61-63 | a bare segment is parsed with multiplier 1, then the rest unless it raised |
| Formula.GroupLast | Code.py.PY:57-63 | a final group contributes its inner counts times its multiplier, or fails without digits |
| Formula.GroupedCounts | Code.py.PY:54-63 | `a(inner)k`: the counts of `a`, then those of `inner` times k, or the failure of either |
| Rationals.ListLcm | Code.py.PY:141 | `lcm` of a list of positive denominators, 1 for none (ListLcmIsLeast) |
| Rationals.ScaleByLcm | Code.py.PY:141-143 | every entry times the lcm of the denominators; one coefficient per entry (ScaledValue, ScaledNullVector) |
| Rationals.LcmIsLeast | Code.py.PY:141 | `lcm(a, b)` is a common multiple and divides every common multiple |
| Rationals.LcmMinimal | Code.py.PY:141 | no common multiple lies strictly between 0 and the lcm |
| Rationals.ListLcmIsLeast | Code.py.PY:141 | every denominator divides the list's lcm, and the lcm divides every common multiple |
| Rationals.ScaleByValue | Code.py.PY:142 | scaling by a multiple of a denominator is exact |
| Rationals.ScaledValue | Code.py.PY:141-142 | each integer coefficient equals the lcm times its rational, so signs and zeros are kept |
| Rationals.TransposeTwice | Code.py.PY:139 | transposing the table twice gives it back: no cell is lost, moved or changed |
| Rationals.DotScales | Code.py.PY:140-142 | scaling a vector scales each dot product with it |
| Rationals.HalvesScale | Code.py.PY:140-142 | `2/4` is not in lowest terms; the reduced vector `[1/2, 1/2]` scales to `[1, 1]` |
| Rationals.ScaledNonZero | Code.py.PY:141-142 | scaling keeps a non-zero entry non-zero |
| Rationals.ScaledNullVector | Code.py.PY:140-143 | the lcm-scaled null vector has integer entries and is still a null vector of the transposed table |
| Equation.Term | Code.py.PY:147 | `str(c) + formula`, with the 1 written out |
| Equation.EquationText | Code.py.PY:145-154 | the reactant terms joined by `" + "`, `" -> "`, then the product terms, with coefficients taken in order (ReparseSide, WaterText) |
| Equation.Balance | Code.py.PY:120-154 | the whole request: species lists, `Solution`, then `EquationText`, or the failure that stops the request (SolutionBalances, SolutionNonZero, WaterBalance) |
| Equation.SpeciesList | Code.py.PY:129-130 | an entry field always gives at least one species |
| Equation.StripAvoids | Code.py.PY:129 | stripping the leading digits keeps a text free of spaces and `+` |
| Equation.SpeciesListShape | Code.py.PY:129-130 | every species has no space, no `+` and no leading digit |
| Equation.SplitOnAvoids | Code.py.PY:129 | every part of a split avoids what the whole text avoids |
| Equation.Solution | Code.py.PY:138-143 | a successful solution has a coefficient for every species |
| Equation.ElementRow | Code.py.PY:132-139 | row x of the transposed table is the reactants' counts of x followed by the products' counts of x, negated |
| Equation.SolutionNonZero | Code.py.PY:140-143 | the coefficients are never all zero |
| Equation.TrivialNullSpaceFails | Code.py.PY:140 | when the transposed table has no null vector but zero, the request fails with EmptyNullSpace, the IndexError of `nullspace()[0]` |
| Equation.SolutionBalances | Code.py.PY:132-143 | the coefficients conserve every element: reactant and product totals of each element agree |
| Equation.RemoveSpacesJoin | Code.py.PY:149 | removing the spaces of a `" + "` join of space-free terms gives their `+` join |
| Equation.StripDigitsPrefix | Code.py.PY:129 | stripping the printed coefficient in front of a formula gives the formula back |
| Equation.SpeciesListJoin | Code.py.PY:129-130 | species typed with `" + "` between them are read back as those species |
| Equation.ReparseSide | Code.py.PY:145-154 | a printed side with non-negative coefficients reads back, through the entry-field parsing, as its species |
| FormulaExamples.NoGroups | Code.py.PY:55 | text without `(` is one bare segment |
| FormulaExamples.SingleSegment | Code.py.PY:55-63 | a formula without groups or leading digits is parsed as one segment with multiplier 1 |
| FormulaExamples.WaterCounts | Code.py.PY:41-63 | `H2O` records H:2 then O:1 |
| FormulaExamples.EmptySegment | Code.py.PY:44 | an empty segment records nothing |
| FormulaExamples.HydroxideCounts | Code.py.PY:48-52 | inside a group every count is the multiplier times the element's own |
| FormulaExamples.MagnesiumHydroxideCounts | Code.py.PY:54-63 | `Mg(OH)2` records Mg:1, O:2, H:2 |
| FormulaExamples.HydroxideWithoutMultiplier | Code.py.PY:59 | `(OH)` fails: there is no default multiplier |
| FormulaExamples.StrayTextIsRecorded | Code.py.PY:52 | `H2xO` records `2x` as if it were an element |
| FormulaExamples.LowerCaseJoinsSymbol | Code.py.PY:42 | `HxO` records the symbol `Hx`, then O |
| FormulaExamples.TrailingTextRaises | Code.py.PY:47 | `H2x` records H, then raises reading past the last part |
| FormulaExamples.OpenBeforeGroupSplit | Code.py.PY:55 | a `(` directly before a group is a segment of its own |
| FormulaExamples.OpenBeforeGroupFails | Code.py.PY:57-59 | such a segment has no `)`, so the parse raises before recording anything |
| FormulaExamples.NestedGroupFails | Code.py.PY:55-59 | `((OH)2)` raises: nested groups are not supported |
| RequestExamples.SplitDigit | Code.py.PY:42 | a lone count is one text part |
| RequestExamples.SplitSymbolTwo | Code.py.PY:42 | a one-letter symbol followed by `2` splits as `["", symbol, "2"]` |
| RequestExamples.WalkPair | Code.py.PY:44-52 | a symbol followed by `2` records that symbol with twice the multiplier |
| RequestExamples.HydrogenCounts | Code.py.PY:41-63 | `H2` records H:2 |
| RequestExamples.OxygenCounts | Code.py.PY:41-63 | `O2` records O:2 |
| RequestExamples.FirstCall | Code.py.PY:29-39 | the first call opens row 0 and column H and stores 2 |
| RequestExamples.SecondCall | Code.py.PY:29-39 | the second call opens row 1 and column O, pads row 0 with 0, and stores 2 |
| RequestExamples.ThirdCall | Code.py.PY:29-39 | water's H opens row 2 and stores -2 |
| RequestExamples.FourthCall | Code.py.PY:29-39 | water's O stores -1 in the existing row 2 |
| RequestExamples.HydrogenRecorded | Code.py.PY:132-133 | reactant 0 fills row 0 |
| RequestExamples.OxygenRecorded | Code.py.PY:132-133 | reactant 1 fills row 1 |
| RequestExamples.ReactantsRecorded | Code.py.PY:132-133 | the reactant loop gives rows `[2, 0]` and `[0, 2]` |
| RequestExamples.ProductsRecorded | Code.py.PY:135-136 | the product loop adds row `[-2, -1]` |
| RequestExamples.ParsedPair | Code.py.PY:132-133 | two species parse one after the other |
| RequestExamples.ParsedSingle | Code.py.PY:135-136 | one species parses on its own |
| RequestExamples.WaterSpeciesParsed | Code.py.PY:132-136 | `H2`, `O2` and `H2O` parse to H:2, O:2 and H:2 O:1 |
| RequestExamples.WaterTable | Code.py.PY:121-136 | the request builds symbols `[H, O]` and rows `[2, 0]`, `[0, 2]`, `[-2, -1]`, and completes |
| RequestExamples.ReactantList | Code.py.PY:129 | the field `H2 + O2` gives the species `H2` and `O2` |
| RequestExamples.ProductList | Code.py.PY:130 | the field `H2O` gives the species `H2O` |
| RequestExamples.DigitStrings | Code.py.PY:147 | `str(2)` is `2` and `str(1)` is `1` |
| RequestExamples.WaterText | Code.py.PY:145-154 | the coefficients 2, 1, 2 print as `2H2 + 1O2 -> 2H2O`, with the 1 written out |
| RequestExamples.WaterTranspose | Code.py.PY:138-139 | the transposed table is `[[2, 0, -2], [0, 2, -1]]` |
| RequestExamples.WaterScale | Code.py.PY:141-142 | the null vector `[1, 1/2, 1]` has lcm 2 and scales to `[2, 1, 2]` |
| RequestExamples.WaterNullVector | Code.py.PY:140 | `[1, 1/2, 1]` is a non-zero null vector of that matrix in lowest terms, so it meets the null-space contract |
| RequestExamples.WaterSolution | Code.py.PY:132-143 | the request's coefficients are `[2, 1, 2]` |
| RequestExamples.WaterBalance | Code.py.PY:120-154 | with sympy's null vector, `H2 + O2` and `H2O` balance to `2H2 + 1O2 -> 2H2O` |

## Left out

- The Tk window, theming, background image, entry widgets and table widgets
  (Code.py.PY:23-27, 65-118, 125-127) are not modelled. They are user
  interface.
- Balancer.Workspace.ProcessEquation returns the equation text instead of
  setting `equation_label` (line 156). A failure is returned as a `Failure`
  value rather than as a Python exception that ends the callback.
- Balancer.Workspace.ProcessEquation: the final state is the table as
  built, before transposition. The Python code rebinds `symbolMatrix` to
  the sympy `Matrix` and then to its transpose (lines 138-139). Nothing
  reads it after that, and the next request resets it (lines 121-123).
- Loading `PubChemElements_all.csv` with pandas and its `exit()` paths
  (lines 11-18) are not modelled. This is file I/O.
- The element property table (lines 158-169) is not modelled. It is pandas
  and Tk.
- `plot_graphs` (lines 173-227) is not modelled. It is matplotlib plotting
  of floating-point data.
- sympy's `Matrix`, `transpose` and `nullspace` (lines 138-140):
  - The transpose is modelled as `Transpose`.
  - The null space is a parameter. Only its contract, `NullSpaceSound`, is
    assumed.
  - Which basis vector sympy returns first is not modelled.
- `isdigit`, `\d` and `int` are modelled on ASCII digits only. Python also
  accepts other Unicode digits.
- Balancer.Workspace.RecordOne and Balancer.Workspace.RecordAll take the
  parse results of the species as a ghost argument. The caller passes
  `Parsed(species)`. This keeps the parser's definition out of the loop's
  proof.
- Equation.ReparseSide: the round trip is stated only for non-negative
  coefficients. A negative coefficient prints a `-` that the entry-field
  parsing does not strip.
