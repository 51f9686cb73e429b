# Go to definition for JupyterLab, modelled in Dafny

This project models the engine behind the JupyterLab "go to definition"
extension. A click on a variable in a notebook cell or a file editor
becomes a token. The engine looks that token's name up as a definition in
the cells up to the clicked one, and moves the cursor there. Every editor is
reduced to the flat list of tokens CodeMirror produces, `Token(value, kind,
offset)`. A value of `""` is a line break. A kind of `""` marks a token that
is not meaningful, and `kind` stands for the source's `type` field.

The modules follow the source files.

- `Tokens` holds the token, `Option` and JavaScript's `String.prototype.includes`
  and `Array.prototype.filter`.
- `Analyzer` is `src/languages/analyzer.ts`. The analyzer constructor stores the
  editor's tokens and the sought name. It is the datatype constructor
  `LanguageAnalyzer(tokens, name)`, which keeps exactly those two values.
- `Python` is `src/languages/python.ts`, together with its copies `findDefinitions`,
  `_closestMeaningfulToken` and `_isTokenInSameAssignmentExpression` in
  `src/index.ts`. `PythonExamples` proves the source's test snippets about it.
- `RAnalyzer` is `src/languages/r.ts`, and `Chooser` is `src/languages/chooser.ts`.
- `Jumper` is `_findLastDefinition`. It is shared by `src/jumpers/jumper.ts`,
  `src/jumpers/notebook.ts` and `src/index.ts`, which compute it the same way.
  `JumperExamples` proves the jump tests and the finding below on single cells.
- `Notebook` is the notebook jumper's `jump`, which is also the `jump` function of
  `src/index.ts`.
- `CodeMirror` is `selectToken` of `src/editors/codemirror.ts`, which is also the
  token selection in the mousedown handler of `src/index.ts`.
- `History` is `src/history.ts`.

The loops of the source are methods with `while` or `for` loops. Each is
proved equal to a specification function, and the properties are lemmas
about those functions. `JumpHistory` and the notebook jumper are classes
whose methods update their fields.

## Model

| member | source | states |
|---|---|---|
| Tokens.Filter | src/jumpers/jumper.ts:43-61 | the filtered list is no longer than the input and holds exactly the input's elements that pass the test |
| Tokens.FilterKeepingAll | src/jumpers/jumper.ts:53-57 | a filter whose test accepts every element returns the list unchanged |
| Analyzer.GetDefinitions | src/languages/analyzer.ts:22-27 | the result is, one for one and in order, the tokens at the ascending indices `i` where `isDefinition(tokens[i], i)` holds |
| Analyzer.FilterFromSelectsPositions | src/languages/analyzer.ts:22-27 | the filter picks exactly the tokens at the accepted indices, in order |
| Analyzer.DefinitionIffAccepted | src/languages/analyzer.ts:24-26 | index `i` is among the accepted positions iff `isDefinition(tokens[i], i)` holds |
| Analyzer.DefinitionsAtMostTokens | src/languages/analyzer.ts:22-27 | there are never more definitions than tokens |
| Analyzer.AcceptAllIsIdentity | src/languages/analyzer.ts:22-27 | when `isDefinition` accepts every token, the definitions are the tokens themselves |
| Analyzer.OnlyOneAccepted | src/languages/analyzer.ts:22-27 | when exactly one index is accepted, the definitions are that one token |
| Analyzer.NoneAccepted | src/languages/analyzer.ts:22-27 | when no index is accepted, there are no definitions |
| Analyzer.TwoAccepted | src/languages/analyzer.ts:22-27 | when exactly the indices `i < j` are accepted, the definitions are those two tokens in that order |
| Python.NearestMeaningful | src/languages/python.ts:210-227 | the nearest index strictly beyond `i` in the direction whose kind is not `""`; every token skipped has kind `""`; none exactly when all tokens on that side have kind `""` |
| Python.ClosestMeaningfulToken | src/languages/python.ts:210-227 | the loop returns the token at `NearestMeaningful`, or null at the bounds (the copy in src/index.ts:532-549 behaves the same) |
| Python.TupleBracketsAreIncludes | src/languages/python.ts:74-75 | the scan's bracket tests are `'(['.includes(value)` and `')]'.includes(value)`, so `"(["` is an opening bracket too |
| Python.Defines | src/languages/python.ts:12-118 | a definition carries the sought name; a matching `def` token always defines; any kind other than `variable` and `def` never does |
| Python.IsDefinition | src/languages/python.ts:12-118 | the method, with its tuple-scan loop over `indexShift`, `openedBrackets` and `commaExpected`, equals `Defines` (the filter body of `findDefinitions`, src/index.ts:423-529, is the same test) |
| Python.GetDefinitions | src/index.ts:418-530 | every definition found carries the sought name, is a variable or a def, and is a token of the cell |
| Python.TupleScanTrueReachesAssignment | src/languages/python.ts:82-104 | the tuple scan answers true only by reaching an operator `=` with no token before it that stops the scan: no line break at bracket depth 0 or below, and no counted token other than `,` where a comma is expected |
| Python.TupleScanReachingAssignmentIsTrue | src/languages/python.ts:82-104 | conversely, a scan that passes every token before an operator `=` answers true |
| Python.AssignedVariableDefines | src/languages/python.ts:19-26 | a variable whose next meaningful token is the operator `=` is a definition |
| Python.KeywordIntroducedVariableDefines | src/languages/python.ts:28-46 | a variable whose previous meaningful token is the keyword `import` or `as` is a definition |
| Python.LoopVariableDefines | src/languages/python.ts:48-58 | a variable between the keywords `for` and `in` is a definition |
| Python.VariableWithoutAssignmentIsNoDefinition | src/languages/python.ts:17-107 | a variable with no later operator `=`, whose previous meaningful token is no `import`, `as` or `for`, is not a definition |
| Python.UniqueDefinition | src/languages/analyzer.ts:22-27 | a definition whose name has no other defining token is the whole result |
| Python.NoDefinition | src/languages/analyzer.ts:22-27 | without a defining token the result is empty |
| Python.TwoDefinitions | src/languages/analyzer.ts:22-27 | two defining tokens, and no others, are the result in order |
| Python.Span | src/languages/python.ts:141-156 | the examined tokens are exactly those with an offset above the tested token's and at most the origin's |
| Python.SpanIsSlice | src/languages/python.ts:141-156 | when those tokens are a contiguous run of the cell, the span is that slice |
| Python.ScopeBracketsAreIncludes | src/languages/python.ts:174-187 | the bracket tests of the terminator scan are `'([{'.includes(value)` and `')]}'.includes(value)` on a non-empty value |
| Python.IsTokenInSameAssignmentExpression | src/languages/python.ts:136-206 | the method equals `SameAssignment` of the span; it is false when the tested token is at or after the origin, and false when no `=`-operator lies between them (the copy in src/index.ts:345-416 behaves the same) |
| Python.FirstAssignment | src/languages/python.ts:159-168 | it finds an `=`-operator iff the span has one, and then its offset is the lowest such offset |
| Python.TerminatingTokens | src/languages/python.ts:170-195 | the collected tokens are the `;` and line-break tokens met at bracket depth at most 0, in order |
| Python.TokensAfter | src/languages/python.ts:197-199 | the kept tokens are exactly those whose offset exceeds the given one |
| Python.TerminatorsMembers | src/languages/python.ts:170-195 | a token is collected iff it is a terminator of the span |
| Python.SameAssignmentAgainstFirst | src/languages/python.ts:166-205 | comparing every terminator with the first `=`-operator decides the same-assignment test |
| Python.BracketsNeverTerminate | src/languages/python.ts:179-187 | a bracket token is never a terminator, even at depth 0 |
| Python.TestedNotBeforeOriginIsUnrelated | src/languages/python.ts:144-164 | when the tested token is not before the origin, the span is empty and the test is false |
| Python.TerminatorSeparates | src/languages/python.ts:197-205 | a terminator after an `=`-operator makes the test false |
| Python.NoBracketsNoDepth | src/languages/python.ts:173-187 | with no brackets among the first `k` tokens, the depth there is 0 |
| Python.LineBreakEndsAssignment | src/languages/python.ts:188-205 | a line break after an `=`-operator, with no bracket before it, makes the test false |
| PythonExamples.NameMatchingIsCaseSensitive | src/languages/analyzer.spec.ts:60-70 | `test_token` matches the name `test_token` and `Test_token` does not |
| PythonExamples.AssignmentX | src/languages/python.spec.ts:65-68 | in `x = 1`, the `x` is the only definition of `x` |
| PythonExamples.IncrementX | src/languages/python.spec.ts:70-73 | in `x += 1`, `x` has no definition |
| PythonExamples.PairA | src/languages/python.spec.ts:100-104 | in `a, b = 1, 2`, the `a` is the only definition of `a` |
| PythonExamples.PairB | src/languages/python.spec.ts:100-104 | in `a, b = 1, 2`, the `b` is the only definition of `b` |
| PythonExamples.NestedRightX | src/languages/python.spec.ts:106-125 | in `x,(y,z)=a,[b,c]`, the `x` is the only definition of `x` |
| PythonExamples.NestedRightY | src/languages/python.spec.ts:106-125 | the same for `y` |
| PythonExamples.NestedRightZ | src/languages/python.spec.ts:106-125 | the same for `z` |
| PythonExamples.NestedRightA | src/languages/python.spec.ts:106-125 | in that snippet `a` has no definition |
| PythonExamples.NestedRightB | src/languages/python.spec.ts:106-125 | nor has `b` |
| PythonExamples.NestedRightC | src/languages/python.spec.ts:106-125 | nor has `c` |
| PythonExamples.NestedLeftX | src/languages/python.spec.ts:106-125 | in `(x,y),z=[a,b],c`, the `x` is the only definition of `x` |
| PythonExamples.NestedLeftY | src/languages/python.spec.ts:106-125 | the same for `y` |
| PythonExamples.NestedLeftZ | src/languages/python.spec.ts:106-125 | the same for `z` |
| PythonExamples.NestedLeftA | src/languages/python.spec.ts:106-125 | in that snippet `a` has no definition |
| PythonExamples.NestedLeftB | src/languages/python.spec.ts:106-125 | nor has `b` |
| PythonExamples.NestedLeftC | src/languages/python.spec.ts:106-125 | nor has `c` |
| PythonExamples.ComprehensionX | src/languages/python.spec.ts:158-161 | in `[x for x in range(10)]`, the second `x` is the only definition of `x` |
| PythonExamples.FunctionCallArgumentA | src/languages/python.ts:82-104 | in the call `x = y(a, b, c=1)`, the argument `a` is taken for a definition: the tuple scan reaches the `=` of `c=1` |
| RAnalyzer.IsAssignment | src/languages/r.ts:13-21 | only `=`, `<-` and `<<-` of kind `operator` or `operator arrow` can be assignments; the operator `=` and the arrows `<-` and `<<-` are; no other operator is, and `->` and `->>` never are |
| RAnalyzer.IsStandaloneAssignment | src/languages/r.ts:24-35 | it holds iff the next token assigns leftwards or the previous token is a rightward arrow `->` or `->>` |
| RAnalyzer.IsImport | src/languages/r.ts:38-45 | it holds exactly when the previous token is the variable `library` or `require` |
| RAnalyzer.IsForLoop | src/languages/r.ts:48-58 | it holds exactly between the keywords `for` and `in` |
| RAnalyzer.SomeRuleHolds | src/languages/r.ts:7-11 | some declared rule accepts iff one of the three predicates holds |
| RAnalyzer.EachRuleDeclaredOnce | src/languages/r.ts:7-11 | each rule occurs in `definitionRules`, and no rule twice |
| RAnalyzer.NoSiblingsNoRule | src/languages/r.ts:24-58 | with no neighbours, no rule accepts |
| RAnalyzer.RulesNeedTheirSiblings | src/languages/r.ts:38-58 | the import rule needs a previous token; the loop rule needs both |
| RAnalyzer.ImportIgnoresNext | src/languages/r.ts:38-45 | the import rule does not look at the next token |
| RAnalyzer.ImportAndForLoopExclusive | src/languages/r.ts:38-58 | no token is both an import and a loop variable |
| RAnalyzer.RightwardArrowDoesNotDefineItsSource | src/languages/r.ts:24-35 | in `x -> y`, `x` is not assigned |
| RAnalyzer.RightwardArrowDefinesItsTarget | src/languages/r.ts:29-33 | in `x -> y`, `y` is assigned |
| RAnalyzer.LeftwardAssignmentsDefine | src/languages/r.ts:13-28 | in `x = 1`, `x <- 1` and `x <<- 1`, `x` is assigned |
| RAnalyzer.OtherOperatorsDoNotAssign | src/languages/r.ts:13-21 | `<-` typed as a plain operator, and `==`, assign nothing |
| RAnalyzer.LibraryAndRequireImport | src/languages/r.ts:38-45 | the name in `library(x)` and `require(x)` is imported, whatever follows; a keyword `library` imports nothing |
| RAnalyzer.LoopVariableDefines | src/languages/r.ts:48-58 | in `for (i in s)`, `i` is a definition; an `in` that is no keyword does not make one |
| Chooser.ChooseLanguageAnalyzer | src/languages/chooser.ts:11-16 | it always returns the Python analyzer, and it warns iff the language is not `python` |
| Chooser.AnalyzerIndependentOfLanguage | src/languages/chooser.ts:15 | the analyzer returned does not depend on the language |
| Chooser.PythonIsSilentAndRWarns | src/languages/chooser.ts:11-16 | `python` gives no warning; `R` gives the Python analyzer with a warning |
| Jumper.CellDefinitions | src/jumpers/jumper.ts:29-37 | every definition of a cell is one of its tokens and carries the sought name |
| Jumper.Kept | src/jumpers/jumper.ts:43-61 | the kept tokens are definitions of the cell; corrected, in the origin cell they all lie before the origin |
| Jumper.LatestNonEmpty | src/jumpers/jumper.ts:63-65 | the latest cell with a non-empty list, with every later list empty; none iff all are empty |
| Jumper.Resolve | src/jumpers/jumper.ts:20-80 | the token and the index are null together, and the index lies in `[0, stopIndex]` |
| Jumper.FindLastDefinitionIn | src/jumpers/jumper.ts:20-80 | the loop over the cells computes `Resolve`, under either reading of the second filter |
| Jumper.FindLastDefinition | src/jumpers/jumper.ts:20-80 | as written, the result is `Resolve` with the offset filter discarded (the copies in src/jumpers/notebook.ts:66-125 and src/index.ts:274-327 run the same loop; the latter calls `findDefinitions` where the others ask the chooser, with the same result) |
| Jumper.FindLastDefinitionCorrected | src/jumpers/jumper.ts:41-61 | with the offset filter kept, the result is the corrected `Resolve` |
| Jumper.ScanCell | src/jumpers/jumper.ts:37-61 | the loop body finds the cell's definitions and, when there are any, what the two filters keep |
| Jumper.Choose | src/jumpers/jumper.ts:63-73 | the choice at the end of the loop body moves the outcome on by one cell |
| Jumper.KeepBeforeOrigin | src/jumpers/jumper.ts:43-45 | the offset filter keeps every token of an earlier cell, and in the origin cell those before the origin |
| Jumper.KeepOutsideAssignment | src/jumpers/jumper.ts:53-61 | the second filter keeps every token of an earlier cell, and in the origin cell those outside the origin's assignment |
| Jumper.OutcomeStep | src/jumpers/jumper.ts:63-73 | one cell more: its last kept token wins; else the origin, when this is the origin cell, it had definitions and nothing was found before; else the previous result |
| Jumper.NoDefinitionsNothingKept | src/jumpers/jumper.ts:40 | a cell without definitions keeps nothing |
| Jumper.NoDefinitionsNoResult | src/jumpers/jumper.ts:21-22 | when no cell up to `stopIndex` has definitions, the result is (null, null) (likewise in src/jumpers/notebook.ts:67-85) |
| Jumper.EarlierCellKeepsAll | src/jumpers/jumper.ts:53-57 | a cell before the origin cell keeps all its definitions |
| Jumper.OriginCellKeptAsWritten | src/jumpers/jumper.ts:43-61 | as written, the origin cell keeps a definition iff it is outside the origin's assignment, wherever it lies in the cell (the copy in src/jumpers/notebook.ts:88-106 keeps the same tokens) |
| Jumper.OriginCellKeptCorrected | src/jumpers/jumper.ts:41-61 | corrected, the origin cell keeps a definition iff it lies before the origin and outside its assignment |
| Jumper.LatestKeptWins | src/jumpers/jumper.ts:63-65 | the latest cell that keeps a definition gives the result, with its last kept definition (likewise in src/jumpers/notebook.ts:108-110) |
| Jumper.LatestNonEmptyIs | src/jumpers/jumper.ts:63-65 | a non-empty list with only empty lists after it is the latest non-empty one |
| Jumper.FallbackToOrigin | src/jumpers/jumper.ts:66-73 | when the origin cell has definitions, keeps none, and no earlier cell has any, the result is (origin, stopIndex) (the notebook jumper, src/jumpers/notebook.ts:111-118, does the same) |
| Jumper.NoFallbackWithoutOriginDefinitions | src/jumpers/jumper.ts:40-66 | when the origin cell has no definitions, any result is a definition from an earlier cell |
| Jumper.FoundIsDefinitionOrOrigin | src/jumpers/jumper.ts:63-73 | a result carries the origin's name and is the origin or a definition of its cell |
| Jumper.CorrectedNeverJumpsForward | src/jumpers/jumper.ts:41-45 | corrected, a result in the origin cell other than the origin lies before it |
| Jumper.OnlyDefinitionBeforeOrigin | src/jumpers/jumper.ts:40-65 | in one cell, a sole definition before the origin and outside its assignment is the result under either reading |
| Jumper.EarlierDefinitionOutsideAssignment | src/jumpers/jumper.ts:47-65 | in one cell with two definitions before the origin, of which the later is in its assignment, the earlier is the result |
| Jumper.KeptEarlierOutsideAssignment | src/jumpers/jumper.ts:43-61 | in that case the kept list is the earlier definition alone |
| JumperExamples.ReadAfterAssignmentDefinitions | src/languages/python.spec.ts:257-273 | in `a = 1\nx = a`, the first `a` is the only definition of `a` |
| JumperExamples.ReadAfterAssignmentSeparated | src/languages/python.spec.ts:257-273 | the line break separates that `a` from the clicked one |
| JumperExamples.AssignmentOfOneThenLineBreak | src/languages/python.ts:170-205 | a span starting ` = 1` and a line break is no same-assignment span |
| JumperExamples.ReadAfterAssignment | src/languages/python.spec.ts:257-273 | clicking the second `a` jumps to the first, under either reading |
| JumperExamples.SelfReferenceDefinitions | src/languages/python.spec.ts:275-292 | in `a = 1\na = a + 1`, the `a`s starting each line are the definitions |
| JumperExamples.SelfReferenceFirstLineSeparated | src/languages/python.spec.ts:275-292 | the first line's `a` is separated from the clicked `a` |
| JumperExamples.SelfReferenceSecondLineSame | src/languages/python.spec.ts:275-292 | the second line's first `a` is in the clicked `a`'s own assignment |
| JumperExamples.SelfReference | src/languages/python.spec.ts:275-292 | clicking the third `a` jumps to the first line, not to the start of the second |
| JumperExamples.ReadBeforeAssignmentDefinitions | src/jumpers/jumper.ts:37 | in `x = a\na = 1`, the second line's `a` is the only definition of `a` |
| JumperExamples.ReadBeforeAssignmentAsWritten | src/jumpers/jumper.ts:43-61 | as written, clicking the first line's `a` jumps forward to the later `a = 1` |
| JumperExamples.ReadBeforeAssignmentCorrected | src/jumpers/jumper.ts:41-73 | corrected, the later definition is dropped and the jump falls back to the clicked token |
| Notebook.OriginCellIndex | src/jumpers/notebook.ts:33-37 | the cell under the mouse when a mouse event is present, else the origin's cell |
| Notebook.NotebookJumper.Jump | src/jumpers/notebook.ts:27-61 | the resolver as written (see Findings) runs up to the cell `OriginCellIndex` picks; when it finds nothing, the notebook is left as it was; otherwise the found cell is active, in edit mode, with the cursor at the found token (the entry point's `jump`, src/index.ts:60-95, does the same) |
| Notebook.NotebookJumper.Show | src/jumpers/notebook.ts:47-59 | the deferred step activates the cell, enters edit mode and places the cursor at the token's offset |
| Notebook.NotebookJumper.constructor | src/jumpers/notebook.ts:17-19 | the jumper holds the notebook's cells and language |
| Notebook.JumpStaysBehindOrigin | src/jumpers/notebook.ts:33-44 | a jump never activates a cell after the origin's, and what it lands on carries the clicked name: the clicked token or a definition in the activated cell |
| Notebook.CorrectedJumpNeverLandsAfterClick | src/jumpers/notebook.ts:33-44 | with the corrected resolver, a jump would also never land after the clicked token in the origin cell, which the jump as written can (see Findings) |
| Notebook.NothingToJumpTo | src/jumpers/notebook.ts:41-44 | with no definitions up to the origin's cell the resolver as written finds nothing, so the jump does nothing |
| CodeMirror.Occurrences | src/editors/codemirror.ts:91-102 | the number of tokens carrying the name is at most the number of tokens |
| CodeMirror.SelectToken | src/editors/codemirror.ts:73-121 | a token is selected iff `0 <= usagesBefore < occurrences`, and then it is the cell token carrying the name with exactly `usagesBefore` such tokens before it; otherwise the null token (the handler in src/index.ts:170-199 selects inline in the same way) |
| CodeMirror.FallbackToken | src/editors/codemirror.ts:105-118 | the fallback carries the looked-up name at offset 0, of type `variable` iff the class contains `cm-variable`, else `property` (the handler in src/index.ts:184-199 builds the same token) |
| CodeMirror.VerifiedToken | src/editors/codemirror.ts:105-118 | after the check the token carries the looked-up name; a token that already did is kept |
| CodeMirror.OccurrenceIsUnique | src/editors/codemirror.ts:91-102 | at most one token carries the name with a given count before it, so the selection is determined |
| CodeMirror.EarlierOccurrencesCountLess | src/editors/codemirror.ts:91-102 | every earlier token carrying the name has fewer such tokens before it: the selected one is the first to match |
| CodeMirror.OccurrenceExists | src/editors/codemirror.ts:91-102 | for every count below the number of occurrences there is a matching token |
| CodeMirror.OccurrencesGrow | src/editors/codemirror.ts:91-102 | a prefix has no more occurrences than the whole |
| CodeMirror.OccurrencesPastMatch | src/editors/codemirror.ts:91-102 | past a matching token the count has grown by at least one |
| CodeMirror.HandlerFallbackKinds | src/index.ts:132-134 | for the handler's classes `cm-variable` and `cm-property`, the fallback's type is `variable` and `property` |
| History.Stored | src/history.ts:13-23 | after `store`, the stack of the id is the old one, or the empty one, plus the position; the other ids keep their stacks |
| History.Top | src/history.ts:25-31 | `recollect` gives nothing iff the id has no stack or an empty one, else the stack's top |
| History.Popped | src/history.ts:25-31 | `recollect` keeps the ids, pops a non-empty stack and leaves the other stacks as they were |
| History.JumpHistory.constructor | src/history.ts:9-11 | a new history holds no stacks |
| History.JumpHistory.Store | src/history.ts:13-23 | the map becomes `Stored` of the old map |
| History.JumpHistory.Recollect | src/history.ts:25-31 | the result is `Top` of the old map and the map becomes `Popped` of it |
| History.StoreThenRecollect | src/history.ts:13-31 | `store(p)` followed by `recollect` gives `p` back and restores the stack |
| History.LastInFirstOut | src/history.ts:22-30 | after storing `p1` and then `p2`, recollecting gives `p2` and then `p1` |
| History.RecollectUnknown | src/history.ts:26-28 | recollecting for an id never stored gives nothing and creates no entry |
| History.RecollectEmpty | src/history.ts:29-30 | recollecting from an empty stack gives nothing and leaves the map unchanged |
| History.OtherIdsUnchanged | src/history.ts:15-30 | storing or recollecting for one id leaves every other id's stack as it was |
| History.StackSizes | src/history.ts:22-30 | `store` grows the stack by one; `recollect` shrinks it by at most one |
| History.StoresKeepOrder | src/history.ts:13-23 | a stack built only by `store`s holds the positions in the order stored |

## Left out

- The DOM, event and plugin plumbing is not modelled. This covers plugin
  activation, handler registration, the modifier key check, and the DOM walk
  that counts the clicked name's earlier occurrences. `CodeMirror.SelectToken`
  takes that count as its `usagesBefore` input. The handler itself runs only for
  the classes `cm-variable` and `cm-property`, and that guard is not modelled.
- `Notebook.NotebookJumper.Jump`: the steps in `setTimeout` are modelled as
  running at once, and deselecting the cells and focusing the notebook are not
  modelled. The cursor is placed by offset; the editor's position conversion is
  not modelled.
- The notebook jumper's `language` getter reads the notebook metadata, which is
  not modelled. The language is a field of the jumper.
- `Python.Span`: the editor lookups by position (`getPositionAt`,
  `getTokenForPosition`) are replaced by the tokens whose offset lies above the
  tested token's and at most the origin's, in cell order. The `Set` of token
  objects the source builds is taken to hold each of those tokens once.
- The mouse cell and the origin cell come from notebook helpers that are not
  part of this model. They are the inputs `mouseCell` and `originCell` of
  `Notebook.JumpRequest`.
- `Jumper.Resolve` requires `stopIndex` below the number of cells. The source
  assumes the clicked cell exists and reads `widgets[i]` for every `i` up to it.
- The source's `jumper.ts` builds its analyzer without a name and calls
  `getDefinitions(token.value)`. The other files pass the name to the
  constructor. The model has one analyzer that is given the tokens and the name.
- The R analyzer's base class, which finds the meaningful neighbours and
  combines the rules, is not part of this model. The neighbours are the input
  `RAnalyzer.Siblings`.
- `src/jumpers/fileeditor.ts` only calls the resolver with `stopIndex` 0 and
  places the cursor. It is not modelled separately.
- The store-magic, cross-file and path-guessing tests, and the separate
  `isTupleUnpacking` and `isStandaloneAssignment` methods they test, have no
  implementation in the source shown, so they are not modelled.
- The function-call tests of `src/languages/python.spec.ts:127-146` are not
  proved. They test a separate `isTupleUnpacking` that is not in the source
  shown, and they contradict the tuple scan of `isDefinition`: in
  `x = y(a, b, c=1)` the scan from `a` reaches the `=` after `c` and answers
  true (`PythonExamples.FunctionCallArgumentA`).
- PythonExamples: the nested-tuple snippets are written without spaces. The
  `(b, c)` variants of lines 109-110 of the tests are not proved. Nor are the
  `for` loop, multi-line and set comprehension snippets of lines 153-170.
- History: the positions are a type parameter, because their type comes from a
  file that is not part of this model. `recollect`'s `null` (no stack) and
  `undefined` (popping an empty stack) are both `None`.
- Console output is not modelled. The chooser's warning is the `warned` flag of
  `Chooser.Choice`. The message for a mismatched token is dropped.

## Findings

| source | as written | input that shows it | evidently intended | confidence | as-written member | corrected member |
|---|---|---|---|---|---|---|
| src/jumpers/jumper.ts:43-61 (also src/jumpers/notebook.ts:88-106, src/index.ts:287-308) | the second filter starts again from `definitions`, which discards the offset filter, so a definition later in the clicked cell can be the result | one cell `x = a\na = 1`, clicking the `a` on the first line: the result is the `a` of `a = 1`, after the click | the second filter applies to the offset-filtered list, so only definitions before the clicked token count, and here the jump falls back to the clicked token | not executed | Jumper.FindLastDefinition, JumperExamples.ReadBeforeAssignmentAsWritten | Jumper.FindLastDefinitionCorrected, Jumper.CorrectedNeverJumpsForward, JumperExamples.ReadBeforeAssignmentCorrected, Notebook.CorrectedJumpNeverLandsAfterClick |
