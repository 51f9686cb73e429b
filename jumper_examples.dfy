/**
 * Worked examples of the resolver on a single notebook cell (so `stopIndex`
 * is 0 and the cell is the origin cell), with tokens in the shape
 * CodeMirror's Python mode produces: a line break is the token ("", "").
 */
module JumperExamples {
  import opened Tokens
  import opened Analyzer
  import opened Python
  import opened Jumper

  /** A span starting ` = 1` and a line break: the line break ends that assignment. */
  lemma AssignmentOfOneThenLineBreak(span: seq<Token>)
    requires |span| >= 5
    requires span[0].value == " " && span[2].value == " " && span[3].value == "1"
    requires IsAssignmentOperator(span[1]) && span[4].value == "" && span[4].offset > span[1].offset
    ensures !SameAssignment(span)
  {
    forall l | 0 <= l < 4 ensures !OpensScope(span[l].value) && !ClosesScope(span[l].value) {
      assert l in {0, 1, 2, 3};
    }
    LineBreakEndsAssignment(span, 1, 4);
  }

  // `a = 1\nx = a`, clicking the `a` of the second line.

  lemma ReadAfterAssignmentDefinitions(cell: seq<Token>)
    requires |cell| == 11
    requires cell[0] == Token("a", "variable", 0) && cell[1] == Token(" ", "", 1) && cell[2] == Token("=", "operator", 2)
    requires cell[3] == Token(" ", "", 3) && cell[4] == Token("1", "number", 4) && cell[5] == Token("", "", 5)
    requires cell[6] == Token("x", "variable", 6) && cell[7] == Token(" ", "", 7) && cell[8] == Token("=", "operator", 8)
    requires cell[9] == Token(" ", "", 9) && cell[10] == Token("a", "variable", 10)
    ensures CellDefinitions(cell, "python", "a") == [cell[0]]
  {
    var a := LanguageAnalyzer(cell, "a");
    assert Defines(a, 0);
    assert !TupleScan(cell, 11, 0, true);
    assert !Defines(a, 10);
    forall j | 0 <= j < |cell| && j != 0 && j != 10 ensures cell[j].value != "a" {
      assert j in {1, 2, 3, 4, 5, 6, 7, 8, 9};
    }
    UniqueDefinition(a, 0);
  }

  /** The line break after `a = 1` ends that assignment before the clicked `a`. */
  lemma ReadAfterAssignmentSeparated(cell: seq<Token>)
    requires |cell| == 11
    requires cell[0] == Token("a", "variable", 0) && cell[1] == Token(" ", "", 1) && cell[2] == Token("=", "operator", 2)
    requires cell[3] == Token(" ", "", 3) && cell[4] == Token("1", "number", 4) && cell[5] == Token("", "", 5)
    requires cell[6] == Token("x", "variable", 6) && cell[7] == Token(" ", "", 7) && cell[8] == Token("=", "operator", 8)
    requires cell[9] == Token(" ", "", 9) && cell[10] == Token("a", "variable", 10)
    ensures !SameAssignment(Span(cell, cell[0], cell[10]))
  {
    forall l | 0 <= l < |cell| ensures 0 < cell[l].offset <= 10 <==> 1 <= l < 11 {
      assert l in {0, 1, 2, 3, 4, 5, 6, 7, 8, 9, 10};
    }
    SpanIsSlice(cell, cell[0], cell[10], 1, 11);
    var span := cell[1..11];
    assert span[0] == cell[1] && span[1] == cell[2] && span[2] == cell[3] && span[3] == cell[4] && span[4] == cell[5];
    AssignmentOfOneThenLineBreak(span);
  }

  /** Clicking the second `a` jumps to the first, under either reading of the second filter. */
  lemma ReadAfterAssignment(cell: seq<Token>)
    requires |cell| == 11
    requires cell[0] == Token("a", "variable", 0) && cell[1] == Token(" ", "", 1) && cell[2] == Token("=", "operator", 2)
    requires cell[3] == Token(" ", "", 3) && cell[4] == Token("1", "number", 4) && cell[5] == Token("", "", 5)
    requires cell[6] == Token("x", "variable", 6) && cell[7] == Token(" ", "", 7) && cell[8] == Token("=", "operator", 8)
    requires cell[9] == Token(" ", "", 9) && cell[10] == Token("a", "variable", 10)
    ensures Resolve([cell], "python", cell[10], 0, false) == Definition(Some(cell[0]), Some(0))
    ensures Resolve([cell], "python", cell[10], 0, true) == Definition(Some(cell[0]), Some(0))
  {
    ReadAfterAssignmentDefinitions(cell);
    ReadAfterAssignmentSeparated(cell);
    OnlyDefinitionBeforeOrigin(cell, "python", cell[10], cell[0], false);
    OnlyDefinitionBeforeOrigin(cell, "python", cell[10], cell[0], true);
  }

  // `a = 1\na = a + 1`, clicking the third `a`.

  lemma SelfReferenceDefinitions(cell: seq<Token>)
    requires |cell| == 15
    requires cell[0] == Token("a", "variable", 0) && cell[1] == Token(" ", "", 1) && cell[2] == Token("=", "operator", 2)
    requires cell[3] == Token(" ", "", 3) && cell[4] == Token("1", "number", 4) && cell[5] == Token("", "", 5)
    requires cell[6] == Token("a", "variable", 6) && cell[7] == Token(" ", "", 7) && cell[8] == Token("=", "operator", 8)
    requires cell[9] == Token(" ", "", 9) && cell[10] == Token("a", "variable", 10) && cell[11] == Token(" ", "", 11)
    requires cell[12] == Token("+", "operator", 12) && cell[13] == Token(" ", "", 13) && cell[14] == Token("1", "number", 14)
    ensures CellDefinitions(cell, "python", "a") == [cell[0], cell[6]]
  {
    var a := LanguageAnalyzer(cell, "a");
    assert Defines(a, 0);
    assert Defines(a, 6);
    assert !TupleScan(cell, 12, 0, true);
    assert !TupleScan(cell, 11, 0, true);
    assert !Defines(a, 10);
    forall j | 0 <= j < |cell| && j != 0 && j != 6 && j != 10 ensures cell[j].value != "a" {
      assert j in {1, 2, 3, 4, 5, 7, 8, 9, 11, 12, 13, 14};
    }
    TwoDefinitions(a, 0, 6);
  }

  /** The first line's `a` is separated from the clicked `a` by the line break. */
  lemma SelfReferenceFirstLineSeparated(cell: seq<Token>)
    requires |cell| == 15
    requires cell[0] == Token("a", "variable", 0) && cell[1] == Token(" ", "", 1) && cell[2] == Token("=", "operator", 2)
    requires cell[3] == Token(" ", "", 3) && cell[4] == Token("1", "number", 4) && cell[5] == Token("", "", 5)
    requires cell[6] == Token("a", "variable", 6) && cell[7] == Token(" ", "", 7) && cell[8] == Token("=", "operator", 8)
    requires cell[9] == Token(" ", "", 9) && cell[10] == Token("a", "variable", 10) && cell[11] == Token(" ", "", 11)
    requires cell[12] == Token("+", "operator", 12) && cell[13] == Token(" ", "", 13) && cell[14] == Token("1", "number", 14)
    ensures !SameAssignment(Span(cell, cell[0], cell[10]))
  {
    forall l | 0 <= l < |cell| ensures 0 < cell[l].offset <= 10 <==> 1 <= l < 11 {
      assert l in {0, 1, 2, 3, 4, 5, 6, 7, 8, 9, 10, 11, 12, 13, 14};
    }
    SpanIsSlice(cell, cell[0], cell[10], 1, 11);
    var span := cell[1..11];
    assert span[0] == cell[1] && span[1] == cell[2] && span[2] == cell[3] && span[3] == cell[4] && span[4] == cell[5];
    AssignmentOfOneThenLineBreak(span);
  }

  /** The second line's `a` is in the clicked `a`'s own assignment `a = a`. */
  lemma SelfReferenceSecondLineSame(cell: seq<Token>)
    requires |cell| == 15
    requires cell[0] == Token("a", "variable", 0) && cell[1] == Token(" ", "", 1) && cell[2] == Token("=", "operator", 2)
    requires cell[3] == Token(" ", "", 3) && cell[4] == Token("1", "number", 4) && cell[5] == Token("", "", 5)
    requires cell[6] == Token("a", "variable", 6) && cell[7] == Token(" ", "", 7) && cell[8] == Token("=", "operator", 8)
    requires cell[9] == Token(" ", "", 9) && cell[10] == Token("a", "variable", 10) && cell[11] == Token(" ", "", 11)
    requires cell[12] == Token("+", "operator", 12) && cell[13] == Token(" ", "", 13) && cell[14] == Token("1", "number", 14)
    ensures SameAssignment(Span(cell, cell[6], cell[10]))
  {
    forall l | 0 <= l < |cell| ensures 6 < cell[l].offset <= 10 <==> 7 <= l < 11 {
      assert l in {0, 1, 2, 3, 4, 5, 6, 7, 8, 9, 10, 11, 12, 13, 14};
    }
    SpanIsSlice(cell, cell[6], cell[10], 7, 11);
    var span := cell[7..11];
    assert IsAssignmentOperator(span[1]);
    forall k | 0 <= k < |span| ensures !IsTerminator(span, k) {
      assert k in {0, 1, 2, 3};
    }
  }

  /** Clicking the third `a` jumps to the first line, not to the start of the second. */
  lemma SelfReference(cell: seq<Token>)
    requires |cell| == 15
    requires cell[0] == Token("a", "variable", 0) && cell[1] == Token(" ", "", 1) && cell[2] == Token("=", "operator", 2)
    requires cell[3] == Token(" ", "", 3) && cell[4] == Token("1", "number", 4) && cell[5] == Token("", "", 5)
    requires cell[6] == Token("a", "variable", 6) && cell[7] == Token(" ", "", 7) && cell[8] == Token("=", "operator", 8)
    requires cell[9] == Token(" ", "", 9) && cell[10] == Token("a", "variable", 10) && cell[11] == Token(" ", "", 11)
    requires cell[12] == Token("+", "operator", 12) && cell[13] == Token(" ", "", 13) && cell[14] == Token("1", "number", 14)
    ensures Resolve([cell], "python", cell[10], 0, false) == Definition(Some(cell[0]), Some(0))
    ensures Resolve([cell], "python", cell[10], 0, true) == Definition(Some(cell[0]), Some(0))
  {
    SelfReferenceDefinitions(cell);
    SelfReferenceFirstLineSeparated(cell);
    SelfReferenceSecondLineSame(cell);
    EarlierDefinitionOutsideAssignment(cell, "python", cell[10], cell[0], cell[6], false);
    EarlierDefinitionOutsideAssignment(cell, "python", cell[10], cell[0], cell[6], true);
  }

  // `x = a\na = 1`, clicking the `a` read on the first line: its only
  // definition comes later in the cell.

  lemma ReadBeforeAssignmentDefinitions(cell: seq<Token>)
    requires |cell| == 11
    requires cell[0] == Token("x", "variable", 0) && cell[1] == Token(" ", "", 1) && cell[2] == Token("=", "operator", 2)
    requires cell[3] == Token(" ", "", 3) && cell[4] == Token("a", "variable", 4) && cell[5] == Token("", "", 5)
    requires cell[6] == Token("a", "variable", 6) && cell[7] == Token(" ", "", 7) && cell[8] == Token("=", "operator", 8)
    requires cell[9] == Token(" ", "", 9) && cell[10] == Token("1", "number", 10)
    ensures CellDefinitions(cell, "python", "a") == [cell[6]]
  {
    var a := LanguageAnalyzer(cell, "a");
    assert !TupleScan(cell, 5, 0, true);
    assert !Defines(a, 4);
    assert Defines(a, 6);
    forall j | 0 <= j < |cell| && j != 4 && j != 6 ensures cell[j].value != "a" {
      assert j in {0, 1, 2, 3, 5, 7, 8, 9, 10};
    }
    UniqueDefinition(a, 6);
  }

  /** As written, the resolver jumps forward to the later `a = 1`, past the clicked token. */
  lemma ReadBeforeAssignmentAsWritten(cell: seq<Token>)
    requires |cell| == 11
    requires cell[0] == Token("x", "variable", 0) && cell[1] == Token(" ", "", 1) && cell[2] == Token("=", "operator", 2)
    requires cell[3] == Token(" ", "", 3) && cell[4] == Token("a", "variable", 4) && cell[5] == Token("", "", 5)
    requires cell[6] == Token("a", "variable", 6) && cell[7] == Token(" ", "", 7) && cell[8] == Token("=", "operator", 8)
    requires cell[9] == Token(" ", "", 9) && cell[10] == Token("1", "number", 10)
    ensures Resolve([cell], "python", cell[4], 0, false) == Definition(Some(cell[6]), Some(0))
    ensures cell[6].offset > cell[4].offset
  {
    ReadBeforeAssignmentDefinitions(cell);
    TestedNotBeforeOriginIsUnrelated(cell, cell[6], cell[4]);
    assert Kept([cell], "python", cell[4], 0, false, 0) == [cell[6]];
    LatestKeptWins([cell], "python", cell[4], 0, false, 0);
  }

  /** Corrected, the later definition is dropped and the resolver falls back to the clicked token. */
  lemma ReadBeforeAssignmentCorrected(cell: seq<Token>)
    requires |cell| == 11
    requires cell[0] == Token("x", "variable", 0) && cell[1] == Token(" ", "", 1) && cell[2] == Token("=", "operator", 2)
    requires cell[3] == Token(" ", "", 3) && cell[4] == Token("a", "variable", 4) && cell[5] == Token("", "", 5)
    requires cell[6] == Token("a", "variable", 6) && cell[7] == Token(" ", "", 7) && cell[8] == Token("=", "operator", 8)
    requires cell[9] == Token(" ", "", 9) && cell[10] == Token("1", "number", 10)
    ensures Resolve([cell], "python", cell[4], 0, true) == Definition(Some(cell[4]), Some(0))
  {
    ReadBeforeAssignmentDefinitions(cell);
    assert Kept([cell], "python", cell[4], 0, true, 0) == [];
    FallbackToOrigin([cell], "python", cell[4], 0, true);
  }
}
