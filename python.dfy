/**
 * The Python analyzer: when a token introduces the sought name
 * (`isDefinition`), the neighbour search it relies on
 * (`_closestMeaningfulToken`), and the test that keeps a reference from
 * resolving to the left-hand side of its own assignment
 * (`isTokenInSameAssignmentExpression`).
 */
module Python {
  import opened Tokens
  import opened Analyzer

  /** `nameMatches`: exact, case-sensitive comparison with the sought name. */
  predicate NameMatches(a: LanguageAnalyzer, token: Token)
  {
    token.value == a.name
  }

  /**
   * The index of the nearest token strictly beyond `i` in `direction`
   * (+1 or -1) whose kind is not "", or None when every token on that side
   * has kind "".
   */
  function NearestMeaningful(tokens: seq<Token>, i: nat, direction: int): (r: Option<nat>)
    requires i < |tokens|
    requires direction == 1 || direction == -1
    ensures r.Some? ==> r.value < |tokens| && tokens[r.value].kind != ""
    ensures r.Some? && direction == 1 ==> i < r.value && forall j :: i < j < r.value ==> tokens[j].kind == ""
    ensures r.Some? && direction == -1 ==> r.value < i && forall j :: r.value < j < i ==> tokens[j].kind == ""
    ensures direction == 1 ==> (r.None? <==> forall j :: i < j < |tokens| ==> tokens[j].kind == "")
    ensures direction == -1 ==> (r.None? <==> forall j :: 0 <= j < i ==> tokens[j].kind == "")
    decreases if direction == 1 then |tokens| - i else i
  {
    var j := i + direction;
    if j < 0 || j >= |tokens| then None
    else if tokens[j].kind != "" then Some(j)
    else NearestMeaningful(tokens, j, direction)
  }

  /** The token at `NearestMeaningful`, as `_closestMeaningfulToken` returns it. */
  function Closest(tokens: seq<Token>, i: nat, direction: int): Option<Token>
    requires i < |tokens|
    requires direction == 1 || direction == -1
  {
    match NearestMeaningful(tokens, i, direction)
    case Some(j) => Some(tokens[j])
    case None => None
  }

  /** `_closestMeaningfulToken`: step from `tokenIndex` in `direction` until a token of non-empty kind is met. */
  method ClosestMeaningfulToken(tokenIndex: nat, tokens: seq<Token>, direction: int) returns (r: Option<Token>)
    requires tokenIndex < |tokens|
    requires direction == 1 || direction == -1
    ensures r == Closest(tokens, tokenIndex, direction)
  {
    var index: int := tokenIndex;
    var nextMeaningfulToken: Option<Token> := None;
    while nextMeaningfulToken.None?
      invariant 0 <= index < |tokens|
      invariant nextMeaningfulToken.None? ==> NearestMeaningful(tokens, index, direction) == NearestMeaningful(tokens, tokenIndex, direction)
      invariant nextMeaningfulToken.Some? ==> NearestMeaningful(tokens, tokenIndex, direction) == Some(index) && nextMeaningfulToken == Some(tokens[index])
      decreases if nextMeaningfulToken.None? then 1 else 0, if direction == 1 then |tokens| - index else index
    {
      index := index + direction;
      if index < 0 || index >= |tokens| {
        return None;
      }
      var nextToken := tokens[index];
      if nextToken.kind != "" {
        nextMeaningfulToken := Some(nextToken);
      }
    }
    return nextMeaningfulToken;
  }

  /**
   * `'(['.includes(value)` and `')]'.includes(value)` of the tuple scan,
   * written as the pieces each bracket string includes (see
   * `TupleBracketsAreIncludes`): the two-character value "([" also opens.
   */
  predicate TupleOpening(value: string) { value in ["", "(", "[", "(["] }
  predicate TupleClosing(value: string) { value in ["", ")", "]", ")]"] }

  lemma TupleBracketsAreIncludes(value: string)
    ensures TupleOpening(value) <==> Includes("([", value)
    ensures TupleClosing(value) <==> Includes(")]", value)
  {
    IncludesOfTwo('(', '[', value);
    IncludesOfTwo(')', ']', value);
  }

  /** A token value that the tuple scan neither skips nor counts as a bracket. */
  predicate CountsInScan(value: string)
  {
    value != "" && !TupleOpening(value) && !TupleClosing(value) && value != " " && value != "\t"
  }

  /** How a token value moves the tuple scan's bracket depth. */
  function ScanDepthChange(value: string): int
  {
    if value == "" then 0
    else if TupleOpening(value) then 1
    else if TupleClosing(value) then -1
    else 0
  }

  /**
   * The left-hand tuple scan of `isDefinition`, from token `j` on, with
   * `depth` brackets open and a comma expected or not. It runs until a line
   * break outside brackets or the end of the tokens (false), an operator "="
   * (true), or a token other than "," where a comma is expected (false);
   * every other counted token flips `commaExpected`.
   */
  function TupleScan(tokens: seq<Token>, j: nat, depth: int, commaExpected: bool): bool
    decreases |tokens| - j
  {
    if j >= |tokens| then false
    else
      var t := tokens[j];
      if t.value == "" && depth <= 0 then false
      else if CountsInScan(t.value) && t.kind == "operator" && t.value == "=" then true
      else if CountsInScan(t.value) && commaExpected && t.value != "," then false
      else TupleScan(tokens, j + 1, depth + ScanDepthChange(t.value), if CountsInScan(t.value) then !commaExpected else commaExpected)
  }

  predicate IsKeyword(t: Option<Token>, word: string)
  {
    t.Some? && t.value.kind == "keyword" && t.value.value == word
  }

  /**
   * Whether token `i` of the analyzer's tokens introduces the sought name:
   * a `def` token, or a variable followed by `=`, preceded by `import` or
   * `as`, standing between `for` and `in`, or found by the tuple scan.
   */
  function Defines(a: LanguageAnalyzer, i: nat): (r: bool)
    requires i < |a.tokens|
    ensures r ==> a.tokens[i].value == a.name
    ensures a.tokens[i].value == a.name && a.tokens[i].kind == "def" ==> r
    ensures a.tokens[i].kind != "variable" && a.tokens[i].kind != "def" ==> !r
  {
    var token := a.tokens[i];
    if !NameMatches(a, token) then false
    else if token.kind == "variable" then
      var next := Closest(a.tokens, i, 1);
      var previous := Closest(a.tokens, i, -1);
      || (next.Some? && next.value.kind == "operator" && next.value.value == "=")
      || IsKeyword(previous, "import")
      || IsKeyword(previous, "as")
      || (IsKeyword(previous, "for") && IsKeyword(next, "in"))
      || TupleScan(a.tokens, i + 1, 0, true)
    else token.kind == "def"
  }

  /** `isDefinition(token, i)` as the filter of `getDefinitions` calls it: `token` is `tokens[i]`. */
  function DefinitionTest(a: LanguageAnalyzer): (Token, nat) -> bool
  {
    (t: Token, i: nat) => i < |a.tokens| && Defines(a, i)
  }

  /**
   * `getDefinitions` of the Python analyzer: in order, the tokens that
   * `Defines` accepts; each carries the sought name and is a variable or a def.
   */
  function GetDefinitions(a: LanguageAnalyzer): (r: seq<Token>)
    ensures forall k :: 0 <= k < |r| ==> r[k].value == a.name && (r[k].kind == "variable" || r[k].kind == "def")
    ensures forall k :: 0 <= k < |r| ==> r[k] in a.tokens
  {
    var r := Analyzer.GetDefinitions(a.tokens, DefinitionTest(a));
    assert forall k :: 0 <= k < |r| ==> Defines(a, Positions(a.tokens, DefinitionTest(a), 0)[k]);
    r
  }

  /** `isDefinition`, with the tuple scan's loop over `indexShift`, `openedBrackets` and `commaExpected`. */
  method IsDefinition(a: LanguageAnalyzer, i: nat) returns (b: bool)
    requires i < |a.tokens|
    ensures b == Defines(a, i)
  {
    var token := a.tokens[i];
    if !NameMatches(a, token) {
      return false;
    }
    if token.kind == "variable" {
      // standalone assignment
      var nextToken := ClosestMeaningfulToken(i, a.tokens, 1);
      if nextToken.Some? && nextToken.value.kind == "operator" && nextToken.value.value == "=" {
        return true;
      }
      // imports
      var previousToken := ClosestMeaningfulToken(i, a.tokens, -1);
      if IsKeyword(previousToken, "import") {
        return true;
      }
      // `with ... as f`, `except ... as e`
      if IsKeyword(previousToken, "as") {
        return true;
      }
      // loops and comprehensions
      if IsKeyword(previousToken, "for") && IsKeyword(nextToken, "in") {
        return true;
      }
      // tuple unpacking
      var commaExpected := true;
      var indexShift := 1;
      var openedBrackets := 0;
      while i + indexShift < |a.tokens| && (a.tokens[i + indexShift].value != "" || openedBrackets > 0)
        invariant 1 <= indexShift <= |a.tokens| - i
        invariant TupleScan(a.tokens, i + indexShift, openedBrackets, commaExpected) == TupleScan(a.tokens, i + 1, 0, true)
        decreases |a.tokens| - (i + indexShift)
      {
        var next := a.tokens[i + indexShift];
        if next.value == "" {
          // a line break inside brackets
        } else if TupleOpening(next.value) {
          openedBrackets := openedBrackets + 1;
        } else if TupleClosing(next.value) {
          openedBrackets := openedBrackets - 1;
        } else if next.value == " " || next.value == "\t" {
          // whitespace
        } else {
          if next.kind == "operator" && next.value == "=" {
            return true;
          }
          if commaExpected && next.value != "," {
            break;
          }
          commaExpected := !commaExpected;
        }
        indexShift := indexShift + 1;
      }
      return false;
    } else if token.kind == "def" {
      return true;
    } else {
      return false;
    }
  }

  /**
   * The tokens that `isTokenInSameAssignmentExpression` examines: those
   * after the tested token up to and including the origin's offset,
   * `tested.offset < t.offset <= origin.offset`, in the order of `tokens`.
   */
  function Span(tokens: seq<Token>, tested: Token, origin: Token): (r: seq<Token>)
    ensures forall t :: t in r <==> t in tokens && tested.offset < t.offset <= origin.offset
    ensures |r| <= |tokens|
  {
    if tokens == [] then []
    else
      var rest := Span(tokens[1..], tested, origin);
      assert forall t :: t in tokens <==> t == tokens[0] || t in tokens[1..];
      if tested.offset < tokens[0].offset <= origin.offset then [tokens[0]] + rest else rest
  }

  /** An operator whose value contains "=": `=`, `+=`, `==`, `<=`, ... */
  predicate IsAssignmentOperator(t: Token)
  {
    t.kind == "operator" && '=' in t.value
  }

  /**
   * `'([{'.includes(value)` and `')]}'.includes(value)` for a value that is
   * not a line break, as the non-empty pieces of each bracket string (see
   * `ScopeBracketsAreIncludes`).
   */
  predicate OpensScope(value: string) { value in ["(", "[", "{", "([", "[{", "([{"] }
  predicate ClosesScope(value: string) { !OpensScope(value) && value in [")", "]", "}", ")]", "]}", ")]}"] }

  lemma ScopeBracketsAreIncludes(value: string)
    ensures OpensScope(value) <==> value != "" && Includes("([{", value)
    ensures ClosesScope(value) <==> value != "" && !Includes("([{", value) && Includes(")]}", value)
  {
    IncludesOfThree('(', '[', '{', value);
    IncludesOfThree(')', ']', '}', value);
  }

  /** The bracket depth after the first `k` tokens of the span, counted from 0 and allowed to go negative. */
  function BracketDepth(span: seq<Token>, k: nat): int
    requires k <= |span|
  {
    if k == 0 then 0
    else
      var v := span[k - 1].value;
      BracketDepth(span, k - 1) + (if OpensScope(v) then 1 else if ClosesScope(v) then -1 else 0)
  }

  /** Token `k` of the span ends a statement: a ";" or a line break met while no bracket is open. */
  predicate IsTerminator(span: seq<Token>, k: nat)
    requires k < |span|
  {
    (span[k].value == ";" || span[k].value == "") && BracketDepth(span, k) <= 0
  }

  /**
   * The tested token and the origin belong to one assignment expression:
   * the span holds an assignment operator, and no terminator of the span has
   * a higher offset than any (equivalently, the first) assignment operator.
   */
  predicate SameAssignment(span: seq<Token>)
  {
    && (exists j :: 0 <= j < |span| && IsAssignmentOperator(span[j]))
    && forall k, j :: 0 <= k < |span| && 0 <= j < |span| && IsTerminator(span, k) && IsAssignmentOperator(span[j]) ==>
         span[k].offset <= span[j].offset
  }

  /**
   * `isTokenInSameAssignmentExpression(testedToken, originToken)`, with the
   * editor's position and token lookups replaced by `Span`.
   */
  method IsTokenInSameAssignmentExpression(tokens: seq<Token>, testedToken: Token, originToken: Token) returns (b: bool)
    ensures b == SameAssignment(Span(tokens, testedToken, originToken))
    ensures testedToken.offset >= originToken.offset ==> !b
    ensures (forall t :: t in tokens && testedToken.offset < t.offset <= originToken.offset ==> !IsAssignmentOperator(t)) ==> !b
  {
    var tokensBetween := Span(tokens, testedToken, originToken);
    var found, firstAssignment := FirstAssignment(tokensBetween);
    if !found {
      return false;
    }
    var terminatingTokens := TerminatingTokens(tokensBetween);
    var terminatorsAfterAssignment := TokensAfter(terminatingTokens, firstAssignment);
    b := |terminatorsAfterAssignment| == 0;
    assert b <==> forall t :: t in terminatingTokens ==> t.offset <= firstAssignment by {
      if !b {
        assert terminatorsAfterAssignment[0] in terminatorsAfterAssignment;
      }
    }
    TerminatorsMembers(tokensBetween, |tokensBetween|);
    SameAssignmentAgainstFirst(tokensBetween, firstAssignment);
  }

  /** The lowest offset of an assignment operator in the span, when there is one. */
  method FirstAssignment(span: seq<Token>) returns (found: bool, first: int)
    ensures found <==> exists j :: 0 <= j < |span| && IsAssignmentOperator(span[j])
    ensures found ==> exists j :: 0 <= j < |span| && IsAssignmentOperator(span[j]) && span[j].offset == first
    ensures found ==> forall j :: 0 <= j < |span| && IsAssignmentOperator(span[j]) ==> first <= span[j].offset
  {
    found, first := false, 0;
    for k := 0 to |span|
      invariant found <==> exists j :: 0 <= j < k && IsAssignmentOperator(span[j])
      invariant found ==> exists j :: 0 <= j < k && IsAssignmentOperator(span[j]) && span[j].offset == first
      invariant found ==> forall j :: 0 <= j < k && IsAssignmentOperator(span[j]) ==> first <= span[j].offset
    {
      var t := span[k];
      if IsAssignmentOperator(t) && (!found || t.offset < first) {
        found := true;
        first := t.offset;
      }
    }
  }

  /** The semicolons and line breaks of the span met while no bracket is open, in order. */
  method TerminatingTokens(span: seq<Token>) returns (terminatingTokens: seq<Token>)
    ensures terminatingTokens == Terminators(span, |span|)
  {
    terminatingTokens := [];
    var openedBrackets := 0;
    for k := 0 to |span|
      invariant openedBrackets == BracketDepth(span, k)
      invariant terminatingTokens == Terminators(span, k)
    {
      var token := span[k];
      if OpensScope(token.value) {
        openedBrackets := openedBrackets + 1;
      } else if ClosesScope(token.value) {
        openedBrackets := openedBrackets - 1;
      } else {
        var terminator := token.value == ";" || token.value == "";
        if openedBrackets <= 0 && terminator {
          terminatingTokens := terminatingTokens + [token];
        }
      }
    }
  }

  /** The tokens whose offset exceeds `offset`. */
  method TokensAfter(ts: seq<Token>, offset: int) returns (r: seq<Token>)
    ensures forall t :: t in r <==> t in ts && t.offset > offset
  {
    r := [];
    for k := 0 to |ts|
      invariant forall t :: t in r <==> t in ts[..k] && t.offset > offset
    {
      if ts[k].offset > offset {
        r := r + [ts[k]];
      }
      assert ts[..k + 1] == ts[..k] + [ts[k]];
    }
    assert ts[..|ts|] == ts;
  }

  /** The terminators among the first `k` tokens of the span, in order. */
  function Terminators(span: seq<Token>, k: nat): seq<Token>
    requires k <= |span|
  {
    if k == 0 then []
    else Terminators(span, k - 1) + (if IsTerminator(span, k - 1) then [span[k - 1]] else [])
  }

  lemma {:induction false} TerminatorsMembers(span: seq<Token>, k: nat)
    requires k <= |span|
    ensures forall t :: t in Terminators(span, k) <==> exists m :: 0 <= m < k && IsTerminator(span, m) && span[m] == t
  {
    if k > 0 {
      TerminatorsMembers(span, k - 1);
    }
  }

  /** Comparing each terminator with one lowest-offset assignment operator decides `SameAssignment`. */
  lemma SameAssignmentAgainstFirst(span: seq<Token>, first: int)
    requires exists j :: 0 <= j < |span| && IsAssignmentOperator(span[j]) && span[j].offset == first
    requires forall j :: 0 <= j < |span| && IsAssignmentOperator(span[j]) ==> first <= span[j].offset
    ensures SameAssignment(span) <==> forall k :: 0 <= k < |span| && IsTerminator(span, k) ==> span[k].offset <= first
  {
  }

  /** A bracket is never a terminator, even at depth zero. */
  lemma BracketsNeverTerminate(span: seq<Token>, k: nat)
    requires k < |span|
    requires OpensScope(span[k].value) || ClosesScope(span[k].value)
    ensures !IsTerminator(span, k)
  {
  }

  /** The bracket depth the tuple scan started at `j` with `depth` has when it comes to token `l`. */
  function DepthAt(tokens: seq<Token>, j: nat, depth: int, l: nat): int
    requires j <= l <= |tokens|
    decreases l - j
  {
    if l == j then depth else DepthAt(tokens, j + 1, depth + ScanDepthChange(tokens[j].value), l)
  }

  /** Whether the tuple scan started at `j` expects a comma when it comes to token `l`. */
  function CommaExpectedAt(tokens: seq<Token>, j: nat, commaExpected: bool, l: nat): bool
    requires j <= l <= |tokens|
    decreases l - j
  {
    if l == j then commaExpected
    else CommaExpectedAt(tokens, j + 1, if CountsInScan(tokens[j].value) then !commaExpected else commaExpected, l)
  }

  /**
   * Token `l` does not stop the scan: it is no line break at depth 0 or below,
   * no operator "=", and no counted token other than "," where a comma is expected.
   */
  predicate ScanPasses(tokens: seq<Token>, j: nat, depth: int, commaExpected: bool, l: nat)
    requires j <= l < |tokens|
  {
    var t := tokens[l];
    && !(t.value == "" && DepthAt(tokens, j, depth, l) <= 0)
    && !(t.kind == "operator" && t.value == "=")
    && !(CountsInScan(t.value) && CommaExpectedAt(tokens, j, commaExpected, l) && t.value != ",")
  }

  /**
   * The tuple scan answers true only by reaching an operator "=" at or after
   * its start, with no token before it that stops the scan.
   */
  lemma {:induction false} TupleScanTrueReachesAssignment(tokens: seq<Token>, j: nat, depth: int, commaExpected: bool)
    requires TupleScan(tokens, j, depth, commaExpected)
    ensures exists k :: j <= k < |tokens| && tokens[k].kind == "operator" && tokens[k].value == "="
                        && forall l :: j <= l < k ==> ScanPasses(tokens, j, depth, commaExpected, l)
    decreases |tokens| - j
  {
    var t := tokens[j];
    if !(t.kind == "operator" && t.value == "=") {
      var depth' := depth + ScanDepthChange(t.value);
      var commaExpected' := if CountsInScan(t.value) then !commaExpected else commaExpected;
      var next := j + 1;
      TupleScanTrueReachesAssignment(tokens, next, depth', commaExpected');
      var k :| next <= k < |tokens| && tokens[k].kind == "operator" && tokens[k].value == "="
               && forall l :: next <= l < k ==> ScanPasses(tokens, next, depth', commaExpected', l);
      forall l | j <= l < k ensures ScanPasses(tokens, j, depth, commaExpected, l) {
        if l > j {
          assert ScanPasses(tokens, next, depth', commaExpected', l);
        }
      }
    } else {
      assert j <= j < |tokens| && tokens[j].kind == "operator" && tokens[j].value == "=";
    }
  }

  /** Conversely, a scan that passes every token before an operator "=" answers true. */
  lemma {:induction false} TupleScanReachingAssignmentIsTrue(tokens: seq<Token>, j: nat, depth: int, commaExpected: bool, k: nat)
    requires j <= k < |tokens| && tokens[k].kind == "operator" && tokens[k].value == "="
    requires forall l :: j <= l < k ==> ScanPasses(tokens, j, depth, commaExpected, l)
    ensures TupleScan(tokens, j, depth, commaExpected)
    decreases k - j
  {
    if j < k {
      var t := tokens[j];
      var depth' := depth + ScanDepthChange(t.value);
      var commaExpected' := if CountsInScan(t.value) then !commaExpected else commaExpected;
      var next := j + 1;
      assert ScanPasses(tokens, j, depth, commaExpected, j);
      forall l | next <= l < k ensures ScanPasses(tokens, next, depth', commaExpected', l) {
        assert ScanPasses(tokens, j, depth, commaExpected, l);
      }
      TupleScanReachingAssignmentIsTrue(tokens, next, depth', commaExpected', k);
    }
  }

  /** Helper: the nearest meaningful token after `i` is the first token of non-empty kind after it. */
  lemma NextMeaningfulIs(tokens: seq<Token>, i: nat, j: nat)
    requires i < j < |tokens|
    requires tokens[j].kind != ""
    requires forall l :: i < l < j ==> tokens[l].kind == ""
    ensures NearestMeaningful(tokens, i, 1) == Some(j)
  {
    assert NearestMeaningful(tokens, i, 1).Some? by {
      assert i < j < |tokens| && tokens[j].kind != "";
    }
  }

  /** Helper: the nearest meaningful token before `i` is the last token of non-empty kind before it. */
  lemma PreviousMeaningfulIs(tokens: seq<Token>, i: nat, j: nat)
    requires j < i < |tokens|
    requires tokens[j].kind != ""
    requires forall l :: j < l < i ==> tokens[l].kind == ""
    ensures NearestMeaningful(tokens, i, -1) == Some(j)
  {
    assert NearestMeaningful(tokens, i, -1).Some? by {
      assert 0 <= j < i && tokens[j].kind != "";
    }
  }

  /** `name =`: a variable whose next meaningful token is the operator "=" is a definition. */
  lemma AssignedVariableDefines(a: LanguageAnalyzer, i: nat, j: nat)
    requires i < j < |a.tokens|
    requires a.tokens[i].value == a.name && a.tokens[i].kind == "variable"
    requires a.tokens[j].kind == "operator" && a.tokens[j].value == "="
    requires forall l :: i < l < j ==> a.tokens[l].kind == ""
    ensures Defines(a, i)
  {
    NextMeaningfulIs(a.tokens, i, j);
  }

  /** `import name` and `as name`: a variable right after the keyword `import` or `as` is a definition. */
  lemma KeywordIntroducedVariableDefines(a: LanguageAnalyzer, i: nat, j: nat)
    requires j < i < |a.tokens|
    requires a.tokens[i].value == a.name && a.tokens[i].kind == "variable"
    requires a.tokens[j].kind == "keyword" && (a.tokens[j].value == "import" || a.tokens[j].value == "as")
    requires forall l :: j < l < i ==> a.tokens[l].kind == ""
    ensures Defines(a, i)
  {
    PreviousMeaningfulIs(a.tokens, i, j);
  }

  /** `for name in`: a variable between the keywords `for` and `in` is a definition. */
  lemma LoopVariableDefines(a: LanguageAnalyzer, i: nat, p: nat, n: nat)
    requires p < i < n < |a.tokens|
    requires a.tokens[i].value == a.name && a.tokens[i].kind == "variable"
    requires a.tokens[p].kind == "keyword" && a.tokens[p].value == "for"
    requires a.tokens[n].kind == "keyword" && a.tokens[n].value == "in"
    requires forall l :: p < l < i ==> a.tokens[l].kind == ""
    requires forall l :: i < l < n ==> a.tokens[l].kind == ""
    ensures Defines(a, i)
  {
    PreviousMeaningfulIs(a.tokens, i, p);
    NextMeaningfulIs(a.tokens, i, n);
  }

  /**
   * A variable after which no operator "=" follows, and whose previous
   * meaningful token is no `import`, `as` or `for` (or missing), is not a
   * definition: neither the next-token test nor the tuple scan can find an
   * "=", and no keyword rule applies.
   */
  lemma VariableWithoutAssignmentIsNoDefinition(a: LanguageAnalyzer, i: nat)
    requires i < |a.tokens| && a.tokens[i].kind == "variable"
    requires forall k :: i < k < |a.tokens| ==> !(a.tokens[k].kind == "operator" && a.tokens[k].value == "=")
    requires var previous := Closest(a.tokens, i, -1);
      !IsKeyword(previous, "import") && !IsKeyword(previous, "as") && !IsKeyword(previous, "for")
    ensures !Defines(a, i)
  {
    if TupleScan(a.tokens, i + 1, 0, true) {
      TupleScanTrueReachesAssignment(a.tokens, i + 1, 0, true);
    }
  }

  /** A tested token at or after the origin has an empty span, so it is never in the origin's assignment. */
  lemma TestedNotBeforeOriginIsUnrelated(tokens: seq<Token>, tested: Token, origin: Token)
    requires tested.offset >= origin.offset
    ensures Span(tokens, tested, origin) == []
    ensures !SameAssignment(Span(tokens, tested, origin))
  {
  }

  /** A terminator after an assignment operator separates the tested token from the origin. */
  lemma TerminatorSeparates(span: seq<Token>, j: nat, k: nat)
    requires j < |span| && k < |span|
    requires IsAssignmentOperator(span[j]) && IsTerminator(span, k) && span[k].offset > span[j].offset
    ensures !SameAssignment(span)
  {
  }

  /** A definition whose name occurs nowhere else as a definition is the only one: `[tokens[i]]`. */
  lemma UniqueDefinition(a: LanguageAnalyzer, i: nat)
    requires i < |a.tokens| && Defines(a, i)
    requires forall j :: 0 <= j < |a.tokens| && j != i && a.tokens[j].value == a.name ==> !Defines(a, j)
    ensures GetDefinitions(a) == [a.tokens[i]]
  {
    OnlyOneAccepted(a.tokens, DefinitionTest(a), i);
  }

  /** When no occurrence of the name is a definition, there are none. */
  lemma NoDefinition(a: LanguageAnalyzer)
    requires forall j :: 0 <= j < |a.tokens| && a.tokens[j].value == a.name ==> !Defines(a, j)
    ensures GetDefinitions(a) == []
  {
    NoneAccepted(a.tokens, DefinitionTest(a));
  }

  /** Two definitions `i < j` and no other: the definitions are `[tokens[i], tokens[j]]`. */
  lemma TwoDefinitions(a: LanguageAnalyzer, i: nat, j: nat)
    requires i < j < |a.tokens| && Defines(a, i) && Defines(a, j)
    requires forall l :: 0 <= l < |a.tokens| && l != i && l != j && a.tokens[l].value == a.name ==> !Defines(a, l)
    ensures GetDefinitions(a) == [a.tokens[i], a.tokens[j]]
  {
    TwoAccepted(a.tokens, DefinitionTest(a), i, j);
  }

  /**
   * When the tokens whose offsets lie after the tested token and up to the
   * origin are exactly those at indices `lo..hi`, the span is that slice.
   */
  lemma {:induction false} SpanIsSlice(tokens: seq<Token>, tested: Token, origin: Token, lo: nat, hi: nat)
    requires lo <= hi <= |tokens|
    requires forall l :: 0 <= l < |tokens| ==> (tested.offset < tokens[l].offset <= origin.offset <==> lo <= l < hi)
    ensures Span(tokens, tested, origin) == tokens[lo..hi]
    decreases |tokens|
  {
    if tokens != [] {
      var rest := tokens[1..];
      var lo', hi' := if lo == 0 then 0 else lo - 1, if hi == 0 then 0 else hi - 1;
      forall l | 0 <= l < |rest|
        ensures tested.offset < rest[l].offset <= origin.offset <==> lo' <= l < hi'
      {
        assert rest[l] == tokens[l + 1];
      }
      SpanIsSlice(rest, tested, origin, lo', hi');
      SliceOfTail(tokens, lo, hi);
    }
  }

  /** A slice of a non-empty sequence, in terms of the same slice of its tail. */
  lemma SliceOfTail(tokens: seq<Token>, lo: nat, hi: nat)
    requires lo <= hi <= |tokens| && tokens != []
    ensures lo == 0 && hi > 0 ==> tokens[lo..hi] == [tokens[0]] + tokens[1..][0..hi - 1]
    ensures lo == 0 && hi == 0 ==> tokens[lo..hi] == []
    ensures lo > 0 ==> tokens[lo..hi] == tokens[1..][lo - 1..hi - 1]
  {
    if lo == 0 && hi > 0 {
      assert tokens[lo..hi] == [tokens[0]] + tokens[1..][0..hi - 1];
    } else if lo > 0 {
      assert tokens[lo..hi] == tokens[1..][lo - 1..hi - 1];
    }
  }

  /** Without brackets among the first `k` tokens of the span, the depth there is 0. */
  lemma {:induction false} NoBracketsNoDepth(span: seq<Token>, k: nat)
    requires k <= |span|
    requires forall l :: 0 <= l < k ==> !OpensScope(span[l].value) && !ClosesScope(span[l].value)
    ensures BracketDepth(span, k) == 0
  {
    if k > 0 {
      NoBracketsNoDepth(span, k - 1);
    }
  }

  /** A line break after an assignment operator, with no bracket before it, ends the assignment. */
  lemma LineBreakEndsAssignment(span: seq<Token>, j: nat, k: nat)
    requires j < k < |span|
    requires IsAssignmentOperator(span[j]) && span[k].value == "" && span[k].offset > span[j].offset
    requires forall l :: 0 <= l < k ==> !OpensScope(span[l].value) && !ClosesScope(span[l].value)
    ensures !SameAssignment(span)
  {
    NoBracketsNoDepth(span, k);
    TerminatorSeparates(span, j, k);
  }
}
