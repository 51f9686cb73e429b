/**
 * Worked examples of the Python classifier on hand-written token lists in
 * the shape CodeMirror's Python mode produces: whitespace has kind "",
 * punctuation and brackets kind "punctuation", `=` and `+=` kind "operator".
 * Each lemma fixes the tokens of one snippet and states, for one name, the
 * whole list that `getDefinitions` returns.
 */
module PythonExamples {
  import opened Tokens
  import opened Analyzer
  import opened Python

  /** `nameMatches` is exact and case-sensitive. */
  lemma NameMatchingIsCaseSensitive()
    ensures NameMatches(LanguageAnalyzer([], "test_token"), Token("test_token", "variable", 0))
    ensures !NameMatches(LanguageAnalyzer([], "test_token"), Token("Test_token", "variable", 0))
  {
  }

  /** In `x = 1`, the `x` at offset 0 is the only definition of `x`. */
  lemma AssignmentX(t: seq<Token>)
    requires |t| == 5
    requires t[0] == Token("x", "variable", 0) && t[1] == Token(" ", "", 1) && t[2] == Token("=", "operator", 2)
    requires t[3] == Token(" ", "", 3) && t[4] == Token("1", "number", 4)
    ensures Python.GetDefinitions(LanguageAnalyzer(t, "x")) == [t[0]]
  {
    var a := LanguageAnalyzer(t, "x");
    assert Defines(a, 0);
    forall j | 0 <= j < |t| && j != 0 ensures t[j].value != "x" {
      assert j in {1, 2, 3, 4};
    }
    UniqueDefinition(a, 0);
  }

  /** In `x += 1`, `x` is not defined. */
  lemma IncrementX(t: seq<Token>)
    requires |t| == 5
    requires t[0] == Token("x", "variable", 0) && t[1] == Token(" ", "", 1) && t[2] == Token("+=", "operator", 2)
    requires t[3] == Token(" ", "", 4) && t[4] == Token("1", "number", 5)
    ensures Python.GetDefinitions(LanguageAnalyzer(t, "x")) == []
  {
    var a := LanguageAnalyzer(t, "x");
    assert !TupleScan(t, 2, 0, true);
    assert !Defines(a, 0);
    forall j | 0 <= j < |t| && j != 0 ensures t[j].value != "x" {
      assert j in {1, 2, 3, 4};
    }
    NoDefinition(a);
  }

  /** In `a, b = 1, 2`, the `a` at offset 0 is the only definition of `a`. */
  lemma PairA(t: seq<Token>)
    requires |t| == 11
    requires t[0] == Token("a", "variable", 0) && t[1] == Token(",", "punctuation", 1) && t[2] == Token(" ", "", 2)
    requires t[3] == Token("b", "variable", 3) && t[4] == Token(" ", "", 4) && t[5] == Token("=", "operator", 5)
    requires t[6] == Token(" ", "", 6) && t[7] == Token("1", "number", 7) && t[8] == Token(",", "punctuation", 8)
    requires t[9] == Token(" ", "", 9) && t[10] == Token("2", "number", 10)
    ensures Python.GetDefinitions(LanguageAnalyzer(t, "a")) == [t[0]]
  {
    var a := LanguageAnalyzer(t, "a");
    assert TupleScan(t, 5, 0, true);
    assert TupleScan(t, 4, 0, true);
    assert TupleScan(t, 3, 0, false);
    assert TupleScan(t, 2, 0, false);
    assert Defines(a, 0);
    forall j | 0 <= j < |t| && j != 0 ensures t[j].value != "a" {
      assert j in {1, 2, 3, 4, 5, 6, 7, 8, 9, 10};
    }
    UniqueDefinition(a, 0);
  }

  /** In `a, b = 1, 2`, the `b` at offset 3 is the only definition of `b`. */
  lemma PairB(t: seq<Token>)
    requires |t| == 11
    requires t[0] == Token("a", "variable", 0) && t[1] == Token(",", "punctuation", 1) && t[2] == Token(" ", "", 2)
    requires t[3] == Token("b", "variable", 3) && t[4] == Token(" ", "", 4) && t[5] == Token("=", "operator", 5)
    requires t[6] == Token(" ", "", 6) && t[7] == Token("1", "number", 7) && t[8] == Token(",", "punctuation", 8)
    requires t[9] == Token(" ", "", 9) && t[10] == Token("2", "number", 10)
    ensures Python.GetDefinitions(LanguageAnalyzer(t, "b")) == [t[3]]
  {
    var a := LanguageAnalyzer(t, "b");
    assert Defines(a, 3);
    forall j | 0 <= j < |t| && j != 3 ensures t[j].value != "b" {
      assert j in {0, 1, 2, 4, 5, 6, 7, 8, 9, 10};
    }
    UniqueDefinition(a, 3);
  }

  /** In `x,(y,z)=a,[b,c]`, the `x` at offset 0 is the only definition of `x`. */
  lemma NestedRightX(t: seq<Token>)
    requires |t| == 15
    requires t[0] == Token("x", "variable", 0) && t[1] == Token(",", "punctuation", 1) && t[2] == Token("(", "punctuation", 2)
    requires t[3] == Token("y", "variable", 3) && t[4] == Token(",", "punctuation", 4) && t[5] == Token("z", "variable", 5)
    requires t[6] == Token(")", "punctuation", 6) && t[7] == Token("=", "operator", 7) && t[8] == Token("a", "variable", 8)
    requires t[9] == Token(",", "punctuation", 9) && t[10] == Token("[", "punctuation", 10) && t[11] == Token("b", "variable", 11)
    requires t[12] == Token(",", "punctuation", 12) && t[13] == Token("c", "variable", 13) && t[14] == Token("]", "punctuation", 14)
    ensures Python.GetDefinitions(LanguageAnalyzer(t, "x")) == [t[0]]
  {
    var a := LanguageAnalyzer(t, "x");
    assert TupleScan(t, 7, 0, true);
    assert TupleScan(t, 6, 1, true);
    assert TupleScan(t, 5, 1, false);
    assert TupleScan(t, 4, 1, true);
    assert TupleScan(t, 3, 1, false);
    assert TupleScan(t, 2, 0, false);
    assert Defines(a, 0);
    forall j | 0 <= j < |t| && j != 0 ensures t[j].value != "x" {
      assert j in {1, 2, 3, 4, 5, 6, 7, 8, 9, 10, 11, 12, 13, 14};
    }
    UniqueDefinition(a, 0);
  }

  /** In `x,(y,z)=a,[b,c]`, the `y` at offset 3 is the only definition of `y`. */
  lemma NestedRightY(t: seq<Token>)
    requires |t| == 15
    requires t[0] == Token("x", "variable", 0) && t[1] == Token(",", "punctuation", 1) && t[2] == Token("(", "punctuation", 2)
    requires t[3] == Token("y", "variable", 3) && t[4] == Token(",", "punctuation", 4) && t[5] == Token("z", "variable", 5)
    requires t[6] == Token(")", "punctuation", 6) && t[7] == Token("=", "operator", 7) && t[8] == Token("a", "variable", 8)
    requires t[9] == Token(",", "punctuation", 9) && t[10] == Token("[", "punctuation", 10) && t[11] == Token("b", "variable", 11)
    requires t[12] == Token(",", "punctuation", 12) && t[13] == Token("c", "variable", 13) && t[14] == Token("]", "punctuation", 14)
    ensures Python.GetDefinitions(LanguageAnalyzer(t, "y")) == [t[3]]
  {
    var a := LanguageAnalyzer(t, "y");
    assert TupleScan(t, 7, -1, true);
    assert TupleScan(t, 6, 0, true);
    assert TupleScan(t, 5, 0, false);
    assert Defines(a, 3);
    forall j | 0 <= j < |t| && j != 3 ensures t[j].value != "y" {
      assert j in {0, 1, 2, 4, 5, 6, 7, 8, 9, 10, 11, 12, 13, 14};
    }
    UniqueDefinition(a, 3);
  }

  /** In `x,(y,z)=a,[b,c]`, the `z` at offset 5 is the only definition of `z`. */
  lemma NestedRightZ(t: seq<Token>)
    requires |t| == 15
    requires t[0] == Token("x", "variable", 0) && t[1] == Token(",", "punctuation", 1) && t[2] == Token("(", "punctuation", 2)
    requires t[3] == Token("y", "variable", 3) && t[4] == Token(",", "punctuation", 4) && t[5] == Token("z", "variable", 5)
    requires t[6] == Token(")", "punctuation", 6) && t[7] == Token("=", "operator", 7) && t[8] == Token("a", "variable", 8)
    requires t[9] == Token(",", "punctuation", 9) && t[10] == Token("[", "punctuation", 10) && t[11] == Token("b", "variable", 11)
    requires t[12] == Token(",", "punctuation", 12) && t[13] == Token("c", "variable", 13) && t[14] == Token("]", "punctuation", 14)
    ensures Python.GetDefinitions(LanguageAnalyzer(t, "z")) == [t[5]]
  {
    var a := LanguageAnalyzer(t, "z");
    assert TupleScan(t, 7, -1, true);
    assert Defines(a, 5);
    forall j | 0 <= j < |t| && j != 5 ensures t[j].value != "z" {
      assert j in {0, 1, 2, 3, 4, 6, 7, 8, 9, 10, 11, 12, 13, 14};
    }
    UniqueDefinition(a, 5);
  }

  /** In `x,(y,z)=a,[b,c]`, `a` is not defined. */
  lemma NestedRightA(t: seq<Token>)
    requires |t| == 15
    requires t[0] == Token("x", "variable", 0) && t[1] == Token(",", "punctuation", 1) && t[2] == Token("(", "punctuation", 2)
    requires t[3] == Token("y", "variable", 3) && t[4] == Token(",", "punctuation", 4) && t[5] == Token("z", "variable", 5)
    requires t[6] == Token(")", "punctuation", 6) && t[7] == Token("=", "operator", 7) && t[8] == Token("a", "variable", 8)
    requires t[9] == Token(",", "punctuation", 9) && t[10] == Token("[", "punctuation", 10) && t[11] == Token("b", "variable", 11)
    requires t[12] == Token(",", "punctuation", 12) && t[13] == Token("c", "variable", 13) && t[14] == Token("]", "punctuation", 14)
    ensures Python.GetDefinitions(LanguageAnalyzer(t, "a")) == []
  {
    var a := LanguageAnalyzer(t, "a");
    assert !TupleScan(t, 15, 0, true);
    assert !TupleScan(t, 14, 1, true);
    assert !TupleScan(t, 13, 1, false);
    assert !TupleScan(t, 12, 1, true);
    assert !TupleScan(t, 11, 1, false);
    assert !TupleScan(t, 10, 0, false);
    assert !Defines(a, 8);
    forall j | 0 <= j < |t| && j != 8 ensures t[j].value != "a" {
      assert j in {0, 1, 2, 3, 4, 5, 6, 7, 9, 10, 11, 12, 13, 14};
    }
    NoDefinition(a);
  }

  /** In `x,(y,z)=a,[b,c]`, `b` is not defined. */
  lemma NestedRightB(t: seq<Token>)
    requires |t| == 15
    requires t[0] == Token("x", "variable", 0) && t[1] == Token(",", "punctuation", 1) && t[2] == Token("(", "punctuation", 2)
    requires t[3] == Token("y", "variable", 3) && t[4] == Token(",", "punctuation", 4) && t[5] == Token("z", "variable", 5)
    requires t[6] == Token(")", "punctuation", 6) && t[7] == Token("=", "operator", 7) && t[8] == Token("a", "variable", 8)
    requires t[9] == Token(",", "punctuation", 9) && t[10] == Token("[", "punctuation", 10) && t[11] == Token("b", "variable", 11)
    requires t[12] == Token(",", "punctuation", 12) && t[13] == Token("c", "variable", 13) && t[14] == Token("]", "punctuation", 14)
    ensures Python.GetDefinitions(LanguageAnalyzer(t, "b")) == []
  {
    var a := LanguageAnalyzer(t, "b");
    assert !TupleScan(t, 15, -1, true);
    assert !TupleScan(t, 14, 0, true);
    assert !TupleScan(t, 13, 0, false);
    assert !Defines(a, 11);
    forall j | 0 <= j < |t| && j != 11 ensures t[j].value != "b" {
      assert j in {0, 1, 2, 3, 4, 5, 6, 7, 8, 9, 10, 12, 13, 14};
    }
    NoDefinition(a);
  }

  /** In `x,(y,z)=a,[b,c]`, `c` is not defined. */
  lemma NestedRightC(t: seq<Token>)
    requires |t| == 15
    requires t[0] == Token("x", "variable", 0) && t[1] == Token(",", "punctuation", 1) && t[2] == Token("(", "punctuation", 2)
    requires t[3] == Token("y", "variable", 3) && t[4] == Token(",", "punctuation", 4) && t[5] == Token("z", "variable", 5)
    requires t[6] == Token(")", "punctuation", 6) && t[7] == Token("=", "operator", 7) && t[8] == Token("a", "variable", 8)
    requires t[9] == Token(",", "punctuation", 9) && t[10] == Token("[", "punctuation", 10) && t[11] == Token("b", "variable", 11)
    requires t[12] == Token(",", "punctuation", 12) && t[13] == Token("c", "variable", 13) && t[14] == Token("]", "punctuation", 14)
    ensures Python.GetDefinitions(LanguageAnalyzer(t, "c")) == []
  {
    var a := LanguageAnalyzer(t, "c");
    assert !TupleScan(t, 15, -1, true);
    assert !Defines(a, 13);
    forall j | 0 <= j < |t| && j != 13 ensures t[j].value != "c" {
      assert j in {0, 1, 2, 3, 4, 5, 6, 7, 8, 9, 10, 11, 12, 14};
    }
    NoDefinition(a);
  }

  /** In `(x,y),z=[a,b],c`, the `x` at offset 1 is the only definition of `x`. */
  lemma NestedLeftX(t: seq<Token>)
    requires |t| == 15
    requires t[0] == Token("(", "punctuation", 0) && t[1] == Token("x", "variable", 1) && t[2] == Token(",", "punctuation", 2)
    requires t[3] == Token("y", "variable", 3) && t[4] == Token(")", "punctuation", 4) && t[5] == Token(",", "punctuation", 5)
    requires t[6] == Token("z", "variable", 6) && t[7] == Token("=", "operator", 7) && t[8] == Token("[", "punctuation", 8)
    requires t[9] == Token("a", "variable", 9) && t[10] == Token(",", "punctuation", 10) && t[11] == Token("b", "variable", 11)
    requires t[12] == Token("]", "punctuation", 12) && t[13] == Token(",", "punctuation", 13) && t[14] == Token("c", "variable", 14)
    ensures Python.GetDefinitions(LanguageAnalyzer(t, "x")) == [t[1]]
  {
    var a := LanguageAnalyzer(t, "x");
    assert TupleScan(t, 7, -1, true);
    assert TupleScan(t, 6, -1, false);
    assert TupleScan(t, 5, -1, true);
    assert TupleScan(t, 4, 0, true);
    assert TupleScan(t, 3, 0, false);
    assert Defines(a, 1);
    forall j | 0 <= j < |t| && j != 1 ensures t[j].value != "x" {
      assert j in {0, 2, 3, 4, 5, 6, 7, 8, 9, 10, 11, 12, 13, 14};
    }
    UniqueDefinition(a, 1);
  }

  /** In `(x,y),z=[a,b],c`, the `y` at offset 3 is the only definition of `y`. */
  lemma NestedLeftY(t: seq<Token>)
    requires |t| == 15
    requires t[0] == Token("(", "punctuation", 0) && t[1] == Token("x", "variable", 1) && t[2] == Token(",", "punctuation", 2)
    requires t[3] == Token("y", "variable", 3) && t[4] == Token(")", "punctuation", 4) && t[5] == Token(",", "punctuation", 5)
    requires t[6] == Token("z", "variable", 6) && t[7] == Token("=", "operator", 7) && t[8] == Token("[", "punctuation", 8)
    requires t[9] == Token("a", "variable", 9) && t[10] == Token(",", "punctuation", 10) && t[11] == Token("b", "variable", 11)
    requires t[12] == Token("]", "punctuation", 12) && t[13] == Token(",", "punctuation", 13) && t[14] == Token("c", "variable", 14)
    ensures Python.GetDefinitions(LanguageAnalyzer(t, "y")) == [t[3]]
  {
    var a := LanguageAnalyzer(t, "y");
    assert TupleScan(t, 7, -1, true);
    assert TupleScan(t, 6, -1, false);
    assert TupleScan(t, 5, -1, true);
    assert Defines(a, 3);
    forall j | 0 <= j < |t| && j != 3 ensures t[j].value != "y" {
      assert j in {0, 1, 2, 4, 5, 6, 7, 8, 9, 10, 11, 12, 13, 14};
    }
    UniqueDefinition(a, 3);
  }

  /** In `(x,y),z=[a,b],c`, the `z` at offset 6 is the only definition of `z`. */
  lemma NestedLeftZ(t: seq<Token>)
    requires |t| == 15
    requires t[0] == Token("(", "punctuation", 0) && t[1] == Token("x", "variable", 1) && t[2] == Token(",", "punctuation", 2)
    requires t[3] == Token("y", "variable", 3) && t[4] == Token(")", "punctuation", 4) && t[5] == Token(",", "punctuation", 5)
    requires t[6] == Token("z", "variable", 6) && t[7] == Token("=", "operator", 7) && t[8] == Token("[", "punctuation", 8)
    requires t[9] == Token("a", "variable", 9) && t[10] == Token(",", "punctuation", 10) && t[11] == Token("b", "variable", 11)
    requires t[12] == Token("]", "punctuation", 12) && t[13] == Token(",", "punctuation", 13) && t[14] == Token("c", "variable", 14)
    ensures Python.GetDefinitions(LanguageAnalyzer(t, "z")) == [t[6]]
  {
    var a := LanguageAnalyzer(t, "z");
    assert Defines(a, 6);
    forall j | 0 <= j < |t| && j != 6 ensures t[j].value != "z" {
      assert j in {0, 1, 2, 3, 4, 5, 7, 8, 9, 10, 11, 12, 13, 14};
    }
    UniqueDefinition(a, 6);
  }

  /** In `(x,y),z=[a,b],c`, `a` is not defined. */
  lemma NestedLeftA(t: seq<Token>)
    requires |t| == 15
    requires t[0] == Token("(", "punctuation", 0) && t[1] == Token("x", "variable", 1) && t[2] == Token(",", "punctuation", 2)
    requires t[3] == Token("y", "variable", 3) && t[4] == Token(")", "punctuation", 4) && t[5] == Token(",", "punctuation", 5)
    requires t[6] == Token("z", "variable", 6) && t[7] == Token("=", "operator", 7) && t[8] == Token("[", "punctuation", 8)
    requires t[9] == Token("a", "variable", 9) && t[10] == Token(",", "punctuation", 10) && t[11] == Token("b", "variable", 11)
    requires t[12] == Token("]", "punctuation", 12) && t[13] == Token(",", "punctuation", 13) && t[14] == Token("c", "variable", 14)
    ensures Python.GetDefinitions(LanguageAnalyzer(t, "a")) == []
  {
    var a := LanguageAnalyzer(t, "a");
    assert !TupleScan(t, 15, -1, true);
    assert !TupleScan(t, 14, -1, false);
    assert !TupleScan(t, 13, -1, true);
    assert !TupleScan(t, 12, 0, true);
    assert !TupleScan(t, 11, 0, false);
    assert !Defines(a, 9);
    forall j | 0 <= j < |t| && j != 9 ensures t[j].value != "a" {
      assert j in {0, 1, 2, 3, 4, 5, 6, 7, 8, 10, 11, 12, 13, 14};
    }
    NoDefinition(a);
  }

  /** In `(x,y),z=[a,b],c`, `b` is not defined. */
  lemma NestedLeftB(t: seq<Token>)
    requires |t| == 15
    requires t[0] == Token("(", "punctuation", 0) && t[1] == Token("x", "variable", 1) && t[2] == Token(",", "punctuation", 2)
    requires t[3] == Token("y", "variable", 3) && t[4] == Token(")", "punctuation", 4) && t[5] == Token(",", "punctuation", 5)
    requires t[6] == Token("z", "variable", 6) && t[7] == Token("=", "operator", 7) && t[8] == Token("[", "punctuation", 8)
    requires t[9] == Token("a", "variable", 9) && t[10] == Token(",", "punctuation", 10) && t[11] == Token("b", "variable", 11)
    requires t[12] == Token("]", "punctuation", 12) && t[13] == Token(",", "punctuation", 13) && t[14] == Token("c", "variable", 14)
    ensures Python.GetDefinitions(LanguageAnalyzer(t, "b")) == []
  {
    var a := LanguageAnalyzer(t, "b");
    assert !TupleScan(t, 15, -1, true);
    assert !TupleScan(t, 14, -1, false);
    assert !TupleScan(t, 13, -1, true);
    assert !Defines(a, 11);
    forall j | 0 <= j < |t| && j != 11 ensures t[j].value != "b" {
      assert j in {0, 1, 2, 3, 4, 5, 6, 7, 8, 9, 10, 12, 13, 14};
    }
    NoDefinition(a);
  }

  /** In `(x,y),z=[a,b],c`, `c` is not defined. */
  lemma NestedLeftC(t: seq<Token>)
    requires |t| == 15
    requires t[0] == Token("(", "punctuation", 0) && t[1] == Token("x", "variable", 1) && t[2] == Token(",", "punctuation", 2)
    requires t[3] == Token("y", "variable", 3) && t[4] == Token(")", "punctuation", 4) && t[5] == Token(",", "punctuation", 5)
    requires t[6] == Token("z", "variable", 6) && t[7] == Token("=", "operator", 7) && t[8] == Token("[", "punctuation", 8)
    requires t[9] == Token("a", "variable", 9) && t[10] == Token(",", "punctuation", 10) && t[11] == Token("b", "variable", 11)
    requires t[12] == Token("]", "punctuation", 12) && t[13] == Token(",", "punctuation", 13) && t[14] == Token("c", "variable", 14)
    ensures Python.GetDefinitions(LanguageAnalyzer(t, "c")) == []
  {
    var a := LanguageAnalyzer(t, "c");
    assert !Defines(a, 14);
    forall j | 0 <= j < |t| && j != 14 ensures t[j].value != "c" {
      assert j in {0, 1, 2, 3, 4, 5, 6, 7, 8, 9, 10, 11, 12, 13};
    }
    NoDefinition(a);
  }

  /** In `[x for x in range(10)]`, the `x` at offset 7 is the only definition of `x`. */
  lemma ComprehensionX(t: seq<Token>)
    requires |t| == 14
    requires t[0] == Token("[", "punctuation", 0) && t[1] == Token("x", "variable", 1) && t[2] == Token(" ", "", 2)
    requires t[3] == Token("for", "keyword", 3) && t[4] == Token(" ", "", 6) && t[5] == Token("x", "variable", 7)
    requires t[6] == Token(" ", "", 8) && t[7] == Token("in", "keyword", 9) && t[8] == Token(" ", "", 11)
    requires t[9] == Token("range", "builtin", 12) && t[10] == Token("(", "punctuation", 17) && t[11] == Token("10", "number", 18)
    requires t[12] == Token(")", "punctuation", 20) && t[13] == Token("]", "punctuation", 21)
    ensures Python.GetDefinitions(LanguageAnalyzer(t, "x")) == [t[5]]
  {
    var a := LanguageAnalyzer(t, "x");
    assert !TupleScan(t, 3, 0, true);
    assert !Defines(a, 1);
    assert Defines(a, 5);
    forall j | 0 <= j < |t| && j != 1 && j != 5 ensures t[j].value != "x" {
      assert j in {0, 2, 3, 4, 6, 7, 8, 9, 10, 11, 12, 13};
    }
    UniqueDefinition(a, 5);
  }

  /**
   * In the call `x = y(a, b, c=1)`, the tuple scan from the argument `a`
   * reads `, b , c` as a tuple and reaches the `=` of the keyword argument,
   * so `a` at offset 6 counts as the only definition of `a`.
   */
  lemma FunctionCallArgumentA(t: seq<Token>)
    requires |t| == 16
    requires t[0] == Token("x", "variable", 0) && t[1] == Token(" ", "", 1) && t[2] == Token("=", "operator", 2)
    requires t[3] == Token(" ", "", 3) && t[4] == Token("y", "variable", 4) && t[5] == Token("(", "punctuation", 5)
    requires t[6] == Token("a", "variable", 6) && t[7] == Token(",", "punctuation", 7) && t[8] == Token(" ", "", 8)
    requires t[9] == Token("b", "variable", 9) && t[10] == Token(",", "punctuation", 10) && t[11] == Token(" ", "", 11)
    requires t[12] == Token("c", "variable", 12) && t[13] == Token("=", "operator", 13) && t[14] == Token("1", "number", 14)
    requires t[15] == Token(")", "punctuation", 15)
    ensures Python.GetDefinitions(LanguageAnalyzer(t, "a")) == [t[6]]
  {
    var a := LanguageAnalyzer(t, "a");
    assert TupleScan(t, 13, 0, true);
    assert TupleScan(t, 12, 0, false);
    assert TupleScan(t, 11, 0, false);
    assert TupleScan(t, 10, 0, true);
    assert TupleScan(t, 9, 0, false);
    assert TupleScan(t, 8, 0, false);
    assert TupleScan(t, 7, 0, true);
    assert Defines(a, 6);
    forall j | 0 <= j < |t| && j != 6 ensures t[j].value != "a" {
      assert j in {0, 1, 2, 3, 4, 5, 7, 8, 9, 10, 11, 12, 13, 14, 15};
    }
    UniqueDefinition(a, 6);
  }
}
