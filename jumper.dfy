/**
 * The multi-cell resolver `_findLastDefinition`, shared by the code jumper,
 * the notebook jumper and the notebook handler of the extension's entry
 * point: it scans the cells `0..stopIndex` in order and lets the last kept
 * definition of the latest cell with one win. In the origin cell (index
 * `stopIndex`) definitions in the same assignment expression as the clicked
 * token are dropped; when that leaves nothing and no earlier cell gave a
 * candidate, the clicked token itself is returned.
 *
 * Every copy of the source computes an offset filter ("definitions before
 * the origin") and then discards it by filtering `definitions` a second
 * time. `corrected == false` models that as written; `corrected == true`
 * applies the second filter to the offset-filtered list, as the comment
 * above it intends.
 */
module Jumper {
  import opened Tokens
  import opened Analyzer
  import Python
  import Chooser

  /** What `_findLastDefinition` returns: the token to jump to and its cell's index, or neither. */
  datatype Definition = Definition(token: Option<Token>, cellIndex: Option<int>)

  /** The definitions of `name` in one cell, by the analyzer the chooser hands out for `language`. */
  function CellDefinitions(cell: seq<Token>, language: string, name: string): (r: seq<Token>)
    ensures forall t :: t in r ==> t in cell && t.value == name
  {
    match Chooser.ChooseLanguageAnalyzer(language).analyzer
    case PythonAnalyzer =>
      var r := Python.GetDefinitions(LanguageAnalyzer(cell, name));
      assert forall k :: 0 <= k < |r| ==> r[k] in cell && r[k].value == name;
      r
  }

  /** The offset filter's test: any definition of an earlier cell, or one before the origin. */
  function BeforeOriginTest(origin: Token, i: int, stopIndex: int): Token -> bool
  {
    (t: Token) => i < stopIndex || t.offset < origin.offset
  }

  /** The second filter's test: any definition of an earlier cell, or one outside the origin's assignment. */
  function OutsideAssignmentTest(cell: seq<Token>, origin: Token, i: int, stopIndex: int): Token -> bool
  {
    (t: Token) => i < stopIndex || !Python.SameAssignment(Python.Span(cell, t, origin))
  }

  /**
   * The definitions of cell `i` that the resolver may jump to. As written
   * the second filter is applied to all definitions; corrected, to those the
   * offset filter kept.
   */
  function Kept(cells: seq<seq<Token>>, language: string, origin: Token, stopIndex: int, corrected: bool, i: nat): (r: seq<Token>)
    requires i < |cells|
    ensures forall t :: t in r ==> t in CellDefinitions(cells[i], language, origin.value)
    ensures corrected && i == stopIndex ==> forall t :: t in r ==> t.offset < origin.offset
  {
    var definitions := CellDefinitions(cells[i], language, origin.value);
    var filtered := Filter(definitions, BeforeOriginTest(origin, i, stopIndex));
    Filter(if corrected then filtered else definitions, OutsideAssignmentTest(cells[i], origin, i, stopIndex))
  }

  /** The kept definitions of every cell. */
  function KeptLists(cells: seq<seq<Token>>, language: string, origin: Token, stopIndex: int, corrected: bool): (r: seq<seq<Token>>)
    ensures |r| == |cells|
    ensures forall i :: 0 <= i < |cells| ==> r[i] == Kept(cells, language, origin, stopIndex, corrected, i)
  {
    seq(|cells|, i requires 0 <= i < |cells| => Kept(cells, language, origin, stopIndex, corrected, i))
  }

  /** The latest index below `n` whose list is not empty, if any. */
  function LatestNonEmpty(lists: seq<seq<Token>>, n: nat): (r: Option<nat>)
    requires n <= |lists|
    ensures r.Some? ==> r.value < n && |lists[r.value]| > 0
    ensures r.Some? ==> forall m :: r.value < m < n ==> |lists[m]| == 0
    ensures r.None? <==> forall m :: 0 <= m < n ==> |lists[m]| == 0
  {
    if n == 0 then None
    else if |lists[n - 1]| > 0 then Some(n - 1)
    else LatestNonEmpty(lists, n - 1)
  }

  /**
   * The outcome after the cells below `n` have been scanned, given each
   * cell's kept definitions and whether the origin cell has any definition:
   * the last kept definition of the latest cell that kept one; failing that,
   * once the origin cell has been scanned and had definitions, the origin
   * itself; otherwise nothing.
   */
  function Outcome(kept: seq<seq<Token>>, originHasDefinitions: bool, origin: Token, stopIndex: int, n: nat): (r: Definition)
    requires n <= |kept|
    ensures r.token.None? <==> r.cellIndex.None?
    ensures r.cellIndex.Some? ==> 0 <= r.cellIndex.value < n
  {
    match LatestNonEmpty(kept, n)
    case Some(m) => Definition(Some(Last(kept[m])), Some(m))
    case None =>
      if 0 <= stopIndex < n && originHasDefinitions then Definition(Some(origin), Some(stopIndex))
      else Definition(None, None)
  }

  /** Whether the origin cell `stopIndex` has at least one definition of the origin's name. */
  predicate OriginHasDefinitions(cells: seq<seq<Token>>, language: string, origin: Token, stopIndex: int)
    requires stopIndex < |cells|
  {
    0 <= stopIndex && |CellDefinitions(cells[stopIndex], language, origin.value)| > 0
  }

  /** The outcome of the whole scan of cells `0..stopIndex`. */
  function Resolve(cells: seq<seq<Token>>, language: string, origin: Token, stopIndex: int, corrected: bool): (r: Definition)
    requires stopIndex < |cells|
    ensures r.token.None? <==> r.cellIndex.None?
    ensures r.cellIndex.Some? ==> 0 <= r.cellIndex.value <= stopIndex
  {
    Outcome(KeptLists(cells, language, origin, stopIndex, corrected), OriginHasDefinitions(cells, language, origin, stopIndex),
            origin, stopIndex, if stopIndex < 0 then 0 else stopIndex + 1)
  }

  /** The loop of `_findLastDefinition` over the cells, with both readings of its second filter. */
  method FindLastDefinitionIn(cells: seq<seq<Token>>, language: string, token: Token, stopIndex: int, corrected: bool)
    returns (r: Definition)
    requires stopIndex < |cells|
    ensures r == Resolve(cells, language, token, stopIndex, corrected)
  {
    ghost var kept := KeptLists(cells, language, token, stopIndex, corrected);
    ghost var originHasDefinitions := OriginHasDefinitions(cells, language, token, stopIndex);
    var definitionToken: Option<Token> := None;
    var definitionIndex: Option<int> := None;
    var i := 0;
    while i <= stopIndex
      invariant 0 <= i <= (if stopIndex < 0 then 0 else stopIndex + 1)
      invariant Definition(definitionToken, definitionIndex) == Outcome(kept, originHasDefinitions, token, stopIndex, i)
    {
      var definitions, filtered := ScanCell(cells, language, token, stopIndex, corrected, i);
      definitionToken, definitionIndex :=
        Choose(kept, originHasDefinitions, token, stopIndex, i, definitions, filtered, definitionToken, definitionIndex);
      i := i + 1;
    }
    assert i == if stopIndex < 0 then 0 else stopIndex + 1;
    r := Definition(definitionToken, definitionIndex);
  }

  /** The body of the loop for cell `i`: its definitions and, when there are any, the two filters. */
  method ScanCell(cells: seq<seq<Token>>, language: string, originToken: Token, stopIndex: int, corrected: bool, i: nat)
    returns (definitions: seq<Token>, filtered: seq<Token>)
    requires i < |cells|
    ensures definitions == CellDefinitions(cells[i], language, originToken.value)
    ensures filtered == Kept(cells, language, originToken, stopIndex, corrected, i)
    ensures i == stopIndex ==> (|definitions| > 0 <==> OriginHasDefinitions(cells, language, originToken, stopIndex))
    ensures |definitions| == 0 ==> filtered == []
  {
    definitions := CellDefinitions(cells[i], language, originToken.value);
    filtered := [];
    if |definitions| > 0 {
      filtered := KeepBeforeOrigin(definitions, originToken, i, stopIndex);
      filtered := KeepOutsideAssignment(cells[i], if corrected then filtered else definitions, originToken, i, stopIndex);
    }
  }

  /**
   * The choice at the end of the loop body for cell `i`: its last kept
   * definition if it kept one; else the origin, when the cell is the origin
   * cell, had definitions and nothing was found before; else what was found
   * before.
   */
  method Choose(ghost kept: seq<seq<Token>>, ghost originHasDefinitions: bool, token: Token, stopIndex: int, i: nat,
                definitions: seq<Token>, filtered: seq<Token>, definitionToken: Option<Token>, definitionIndex: Option<int>)
    returns (newToken: Option<Token>, newIndex: Option<int>)
    requires i <= stopIndex < |kept| && filtered == kept[i]
    requires |definitions| == 0 ==> filtered == []
    requires i == stopIndex ==> (|definitions| > 0 <==> originHasDefinitions)
    requires Definition(definitionToken, definitionIndex) == Outcome(kept, originHasDefinitions, token, stopIndex, i)
    ensures Definition(newToken, newIndex) == Outcome(kept, originHasDefinitions, token, stopIndex, i + 1)
  {
    OutcomeStep(kept, originHasDefinitions, token, stopIndex, i);
    newToken, newIndex := definitionToken, definitionIndex;
    if |definitions| > 0 {
      if |filtered| > 0 {
        newToken, newIndex := Some(filtered[|filtered| - 1]), Some(i);
      } else if definitionToken.None? && i == stopIndex {
        newToken, newIndex := Some(token), Some(i);
      }
    }
  }

  /** Line 43's `definitions.filter(...)`. */
  method KeepBeforeOrigin(definitions: seq<Token>, originToken: Token, i: int, stopIndex: int) returns (filtered: seq<Token>)
    ensures filtered == Filter(definitions, BeforeOriginTest(originToken, i, stopIndex))
  {
    filtered := [];
    for k := 0 to |definitions|
      invariant filtered == Filter(definitions[..k], BeforeOriginTest(originToken, i, stopIndex))
    {
      FilterExtend(definitions, BeforeOriginTest(originToken, i, stopIndex), k);
      if i < stopIndex || definitions[k].offset < originToken.offset {
        filtered := filtered + [definitions[k]];
      }
    }
    assert definitions[..|definitions|] == definitions;
  }

  /** Line 53's filter, which asks `isTokenInSameAssignmentExpression` only in the origin cell. */
  method KeepOutsideAssignment(cell: seq<Token>, candidates: seq<Token>, token: Token, i: int, stopIndex: int)
    returns (filtered: seq<Token>)
    ensures filtered == Filter(candidates, OutsideAssignmentTest(cell, token, i, stopIndex))
  {
    filtered := [];
    for k := 0 to |candidates|
      invariant filtered == Filter(candidates[..k], OutsideAssignmentTest(cell, token, i, stopIndex))
    {
      FilterExtend(candidates, OutsideAssignmentTest(cell, token, i, stopIndex), k);
      var keep := true;
      if !(i < stopIndex) {
        var same := Python.IsTokenInSameAssignmentExpression(cell, candidates[k], token);
        keep := !same;
      }
      if keep {
        filtered := filtered + [candidates[k]];
      }
    }
    assert candidates[..|candidates|] == candidates;
  }

  /** `_findLastDefinition` as written: the offset filter is discarded. */
  method FindLastDefinition(cells: seq<seq<Token>>, language: string, token: Token, stopIndex: int) returns (r: Definition)
    requires stopIndex < |cells|
    ensures r == Resolve(cells, language, token, stopIndex, false)
  {
    r := FindLastDefinitionIn(cells, language, token, stopIndex, false);
  }

  /** `_findLastDefinition` with the offset filter kept, as its comment intends. */
  method FindLastDefinitionCorrected(cells: seq<seq<Token>>, language: string, token: Token, stopIndex: int) returns (r: Definition)
    requires stopIndex < |cells|
    ensures r == Resolve(cells, language, token, stopIndex, true)
  {
    r := FindLastDefinitionIn(cells, language, token, stopIndex, true);
  }

  /** One more cell scanned: its last kept definition wins; else the origin, once, as the fallback. */
  lemma OutcomeStep(kept: seq<seq<Token>>, originHasDefinitions: bool, origin: Token, stopIndex: int, i: nat)
    requires i <= stopIndex < |kept|
    ensures var previous := Outcome(kept, originHasDefinitions, origin, stopIndex, i);
            Outcome(kept, originHasDefinitions, origin, stopIndex, i + 1)
            == if |kept[i]| > 0 then Definition(Some(Last(kept[i])), Some(i))
               else if previous.token.None? && i == stopIndex && originHasDefinitions then Definition(Some(origin), Some(i))
               else previous
  {
  }

  /** A cell without definitions keeps none. */
  lemma NoDefinitionsNothingKept(cells: seq<seq<Token>>, language: string, origin: Token, stopIndex: int, corrected: bool, i: nat)
    requires i < |cells|
    requires |CellDefinitions(cells[i], language, origin.value)| == 0
    ensures Kept(cells, language, origin, stopIndex, corrected, i) == []
  {
  }

  /** No cell up to `stopIndex` has a definition: nothing is found. */
  lemma NoDefinitionsNoResult(cells: seq<seq<Token>>, language: string, origin: Token, stopIndex: int, corrected: bool)
    requires stopIndex < |cells|
    requires forall i :: 0 <= i <= stopIndex ==> |CellDefinitions(cells[i], language, origin.value)| == 0
    ensures Resolve(cells, language, origin, stopIndex, corrected) == Definition(None, None)
  {
    var kept := KeptLists(cells, language, origin, stopIndex, corrected);
    forall m | 0 <= m < (if stopIndex < 0 then 0 else stopIndex + 1)
      ensures |kept[m]| == 0
    {
      NoDefinitionsNothingKept(cells, language, origin, stopIndex, corrected, m);
    }
  }

  /** A cell before the origin cell keeps all its definitions, under either reading. */
  lemma EarlierCellKeepsAll(cells: seq<seq<Token>>, language: string, origin: Token, stopIndex: int, corrected: bool, i: nat)
    requires i < |cells| && i < stopIndex
    ensures Kept(cells, language, origin, stopIndex, corrected, i) == CellDefinitions(cells[i], language, origin.value)
  {
    var definitions := CellDefinitions(cells[i], language, origin.value);
    FilterKeepingAll(definitions, BeforeOriginTest(origin, i, stopIndex));
    FilterKeepingAll(definitions, OutsideAssignmentTest(cells[i], origin, i, stopIndex));
  }

  /**
   * In the origin cell, as written, a definition is kept exactly when it is
   * not in the origin's assignment expression, wherever it lies in the cell.
   */
  lemma OriginCellKeptAsWritten(cells: seq<seq<Token>>, language: string, origin: Token, stopIndex: nat, t: Token)
    requires stopIndex < |cells|
    ensures t in Kept(cells, language, origin, stopIndex, false, stopIndex)
            <==> t in CellDefinitions(cells[stopIndex], language, origin.value)
                 && !Python.SameAssignment(Python.Span(cells[stopIndex], t, origin))
  {
  }

  /**
   * In the origin cell, corrected, a definition is kept exactly when it lies
   * before the origin and is not in the origin's assignment expression.
   */
  lemma OriginCellKeptCorrected(cells: seq<seq<Token>>, language: string, origin: Token, stopIndex: nat, t: Token)
    requires stopIndex < |cells|
    ensures t in Kept(cells, language, origin, stopIndex, true, stopIndex)
            <==> t in CellDefinitions(cells[stopIndex], language, origin.value) && t.offset < origin.offset
                 && !Python.SameAssignment(Python.Span(cells[stopIndex], t, origin))
  {
  }

  /** The latest cell that keeps a definition wins, with its last kept definition. */
  lemma LatestKeptWins(cells: seq<seq<Token>>, language: string, origin: Token, stopIndex: int, corrected: bool, m: nat)
    requires m <= stopIndex < |cells|
    requires |Kept(cells, language, origin, stopIndex, corrected, m)| > 0
    requires forall l :: m < l <= stopIndex ==> |Kept(cells, language, origin, stopIndex, corrected, l)| == 0
    ensures Resolve(cells, language, origin, stopIndex, corrected)
            == Definition(Some(Last(Kept(cells, language, origin, stopIndex, corrected, m))), Some(m))
  {
    var kept := KeptLists(cells, language, origin, stopIndex, corrected);
    OutcomeOfLatest(kept, OriginHasDefinitions(cells, language, origin, stopIndex), origin, stopIndex, stopIndex + 1, m);
  }

  /** The outcome is the last token of a non-empty list that only empty lists follow. */
  lemma OutcomeOfLatest(kept: seq<seq<Token>>, originHasDefinitions: bool, origin: Token, stopIndex: int, n: nat, m: nat)
    requires m < n <= |kept| && |kept[m]| > 0
    requires forall l :: m < l < n ==> |kept[l]| == 0
    ensures Outcome(kept, originHasDefinitions, origin, stopIndex, n) == Definition(Some(Last(kept[m])), Some(m))
  {
    LatestNonEmptyIs(kept, n, m);
  }

  /** The latest non-empty list below `n` is the one at `m` when `m`'s list is non-empty and all later ones are empty. */
  lemma LatestNonEmptyIs(lists: seq<seq<Token>>, n: nat, m: nat)
    requires m < n <= |lists| && |lists[m]| > 0
    requires forall l :: m < l < n ==> |lists[l]| == 0
    ensures LatestNonEmpty(lists, n) == Some(m)
  {
  }

  /**
   * The fallback: the origin cell has definitions but keeps none, and no
   * earlier cell has any. The clicked token itself is returned.
   */
  lemma FallbackToOrigin(cells: seq<seq<Token>>, language: string, origin: Token, stopIndex: nat, corrected: bool)
    requires stopIndex < |cells|
    requires |CellDefinitions(cells[stopIndex], language, origin.value)| > 0
    requires Kept(cells, language, origin, stopIndex, corrected, stopIndex) == []
    requires forall i :: 0 <= i < stopIndex ==> |CellDefinitions(cells[i], language, origin.value)| == 0
    ensures Resolve(cells, language, origin, stopIndex, corrected) == Definition(Some(origin), Some(stopIndex))
  {
    var kept := KeptLists(cells, language, origin, stopIndex, corrected);
    forall m | 0 <= m < stopIndex
      ensures |kept[m]| == 0
    {
      NoDefinitionsNothingKept(cells, language, origin, stopIndex, corrected, m);
    }
  }

  /**
   * When the origin cell has no definition, there is no fallback: whatever
   * is found is a real definition from an earlier cell.
   */
  lemma NoFallbackWithoutOriginDefinitions(cells: seq<seq<Token>>, language: string, origin: Token, stopIndex: nat, corrected: bool)
    requires stopIndex < |cells|
    requires |CellDefinitions(cells[stopIndex], language, origin.value)| == 0
    ensures var r := Resolve(cells, language, origin, stopIndex, corrected);
            r.token.Some? ==> r.cellIndex.value < stopIndex
                              && r.token.value in CellDefinitions(cells[r.cellIndex.value], language, origin.value)
  {
    NoDefinitionsNothingKept(cells, language, origin, stopIndex, corrected, stopIndex);
    var kept := KeptLists(cells, language, origin, stopIndex, corrected);
    var r := Resolve(cells, language, origin, stopIndex, corrected);
    if r.token.Some? {
      var m := LatestNonEmpty(kept, stopIndex + 1).value;
      assert Last(kept[m]) in kept[m];
    }
  }

  /**
   * Whatever is found carries the origin's name, and it is either the
   * origin itself or one of its cell's definitions.
   */
  lemma FoundIsDefinitionOrOrigin(cells: seq<seq<Token>>, language: string, origin: Token, stopIndex: int, corrected: bool)
    requires stopIndex < |cells|
    ensures var r := Resolve(cells, language, origin, stopIndex, corrected);
            r.token.Some? ==> r.token.value.value == origin.value
                              && (r.token.value == origin
                                  || r.token.value in CellDefinitions(cells[r.cellIndex.value], language, origin.value))
  {
    var kept := KeptLists(cells, language, origin, stopIndex, corrected);
    var r := Resolve(cells, language, origin, stopIndex, corrected);
    var n := if stopIndex < 0 then 0 else stopIndex + 1;
    if LatestNonEmpty(kept, n).Some? {
      var m := LatestNonEmpty(kept, n).value;
      assert Last(kept[m]) in kept[m];
    }
  }

  /**
   * Corrected, a definition found in the origin cell lies before the
   * origin: the resolver never jumps forward within the clicked cell.
   */
  lemma CorrectedNeverJumpsForward(cells: seq<seq<Token>>, language: string, origin: Token, stopIndex: nat)
    requires stopIndex < |cells|
    ensures var r := Resolve(cells, language, origin, stopIndex, true);
            r.cellIndex == Some(stopIndex) && r.token != Some(origin) ==> r.token.value.offset < origin.offset
  {
    var kept := KeptLists(cells, language, origin, stopIndex, true);
    if LatestNonEmpty(kept, stopIndex + 1) == Some(stopIndex) {
      assert Last(kept[stopIndex]) in kept[stopIndex];
    }
  }

  /**
   * One cell whose only definition lies before the origin and outside the
   * origin's assignment: both readings jump to it.
   */
  lemma OnlyDefinitionBeforeOrigin(cell: seq<Token>, language: string, origin: Token, d: Token, corrected: bool)
    requires CellDefinitions(cell, language, origin.value) == [d]
    requires d.offset < origin.offset && !Python.SameAssignment(Python.Span(cell, d, origin))
    ensures Resolve([cell], language, origin, 0, corrected) == Definition(Some(d), Some(0))
  {
    FilterOfTwo(d, d, BeforeOriginTest(origin, 0, 0));
    FilterOfTwo(d, d, OutsideAssignmentTest(cell, origin, 0, 0));
    assert Kept([cell], language, origin, 0, corrected, 0) == [d];
    LatestKeptWins([cell], language, origin, 0, corrected, 0);
  }

  /**
   * One cell with two definitions before the origin, of which only the first
   * lies outside the origin's assignment: both readings jump to the first.
   */
  lemma EarlierDefinitionOutsideAssignment(cell: seq<Token>, language: string, origin: Token, d: Token, e: Token, corrected: bool)
    requires CellDefinitions(cell, language, origin.value) == [d, e]
    requires d.offset < origin.offset && !Python.SameAssignment(Python.Span(cell, d, origin))
    requires e.offset < origin.offset && Python.SameAssignment(Python.Span(cell, e, origin))
    ensures Resolve([cell], language, origin, 0, corrected) == Definition(Some(d), Some(0))
  {
    KeptEarlierOutsideAssignment(cell, language, origin, d, e, corrected);
    LatestKeptWins([cell], language, origin, 0, corrected, 0);
  }

  /** What `EarlierDefinitionOutsideAssignment` keeps: the first definition alone. */
  lemma KeptEarlierOutsideAssignment(cell: seq<Token>, language: string, origin: Token, d: Token, e: Token, corrected: bool)
    requires CellDefinitions(cell, language, origin.value) == [d, e]
    requires d.offset < origin.offset && !Python.SameAssignment(Python.Span(cell, d, origin))
    requires e.offset < origin.offset && Python.SameAssignment(Python.Span(cell, e, origin))
    ensures Kept([cell], language, origin, 0, corrected, 0) == [d]
  {
    var before := BeforeOriginTest(origin, 0, 0);
    var outside := OutsideAssignmentTest(cell, origin, 0, 0);
    assert before(d) && before(e) && outside(d) && !outside(e);
    FilterOfTwoFirstKept(d, e, before, outside);
    KeptIsFilterOf([cell], language, origin, 0, corrected, 0, [d, e]);
  }

  /** Two tokens that both pass `before`, of which only the first passes `after`: either order of filtering keeps the first alone. */
  lemma FilterOfTwoFirstKept(d: Token, e: Token, before: Token -> bool, after: Token -> bool)
    requires before(d) && before(e) && after(d) && !after(e)
    ensures Filter(Filter([d, e], before), after) == [d]
    ensures Filter([d, e], after) == [d]
  {
    FilterOfTwo(d, e, before);
    FilterOfTwo(d, e, after);
  }

  /** `Kept` spelled out for a cell whose definitions are `definitions`. */
  lemma KeptIsFilterOf(cells: seq<seq<Token>>, language: string, origin: Token, stopIndex: int, corrected: bool, i: nat,
                       definitions: seq<Token>)
    requires i < |cells| && CellDefinitions(cells[i], language, origin.value) == definitions
    ensures var outside := OutsideAssignmentTest(cells[i], origin, i, stopIndex);
      Kept(cells, language, origin, stopIndex, corrected, i)
      == if corrected then Filter(Filter(definitions, BeforeOriginTest(origin, i, stopIndex)), outside)
         else Filter(definitions, outside)
  {
  }
}
