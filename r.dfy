/**
 * The definition rules of the R analyzer. Each rule looks only at the
 * meaningful neighbours of the tested token, which the (not modelled) base
 * class of the analyzer supplies as an optional previous and next token.
 */
module RAnalyzer {
  import opened Tokens

  /** The nearest meaningful token before and after the tested one, when there is one. */
  datatype Siblings = Siblings(previous: Option<Token>, next: Option<Token>)

  /** `isAssignment`: the leftward assignment operators `=`, `<-` and `<<-`. */
  function IsAssignment(t: Token): (r: bool)
    ensures r ==> t.value == "=" || t.value == "<-" || t.value == "<<-"
    ensures r ==> t.kind == "operator" || t.kind == "operator arrow"
    ensures t.kind == "operator" && t.value == "=" ==> r
    ensures t.kind == "operator arrow" && (t.value == "<-" || t.value == "<<-") ==> r
    ensures t.kind == "operator" && t.value != "=" ==> !r
    ensures t.value == "->" || t.value == "->>" ==> !r
  {
    (t.kind == "operator" && t.value == "=")
    || (t.kind == "operator arrow" && (t.value == "<-" || t.value == "<<-"))
  }

  /** A rightward arrow `->` or `->>`, which assigns to the token after it. */
  predicate IsRightwardArrow(t: Token)
  {
    t.kind == "operator arrow" && (t.value == "->" || t.value == "->>")
  }

  /**
   * `isStandaloneAssignment`: the next token assigns leftwards into the
   * tested one, or the previous token assigns rightwards into it.
   */
  function IsStandaloneAssignment(s: Siblings): (r: bool)
    ensures s.next.Some? && IsAssignment(s.next.value) ==> r
    ensures s.previous.Some? && IsRightwardArrow(s.previous.value) ==> r
    ensures r ==> (s.next.Some? && IsAssignment(s.next.value)) || (s.previous.Some? && IsRightwardArrow(s.previous.value))
  {
    (s.next.Some? && IsAssignment(s.next.value))
    || (s.previous.Some? && s.previous.value.kind == "operator arrow"
        && (s.previous.value.value == "->" || s.previous.value.value == "->>"))
  }

  /** `isImport`: the previous token is the variable `library` or `require`. */
  function IsImport(s: Siblings): (r: bool)
    ensures r ==> s.previous.Some? && s.previous.value.kind == "variable"
    ensures r ==> s.previous.value.value == "library" || s.previous.value.value == "require"
    ensures (s.previous.Some? && s.previous.value.kind == "variable"
             && (s.previous.value.value == "library" || s.previous.value.value == "require")) ==> r
  {
    s.previous.Some? && s.previous.value.kind == "variable"
    && (s.previous.value.value == "library" || s.previous.value.value == "require")
  }

  /** `isForLoop`: the tested token sits between the keywords `for` and `in`. */
  function IsForLoop(s: Siblings): (r: bool)
    ensures r ==> s.previous.Some? && s.next.Some?
    ensures r ==> s.previous.value.kind == "keyword" && s.previous.value.value == "for"
    ensures r ==> s.next.value.kind == "keyword" && s.next.value.value == "in"
    ensures IsKeyword(s.previous, "for") && IsKeyword(s.next, "in") ==> r
  {
    s.previous.Some? && s.previous.value.kind == "keyword" && s.previous.value.value == "for"
    && s.next.Some? && s.next.value.kind == "keyword" && s.next.value.value == "in"
  }

  /** Whether `t` is the keyword `word`. */
  predicate IsKeyword(t: Option<Token>, word: string)
  {
    t.Some? && t.value.kind == "keyword" && t.value.value == word
  }

  /** The three rules, by name. */
  datatype Rule = StandaloneAssignment | Import | ForLoop

  /** `definitionRules`, in the order the analyzer declares them. */
  const DefinitionRules: seq<Rule> := [StandaloneAssignment, Import, ForLoop]

  /** Whether `rule` accepts the tested token with neighbours `s`. */
  function Holds(rule: Rule, s: Siblings): bool
  {
    match rule
    case StandaloneAssignment => IsStandaloneAssignment(s)
    case Import => IsImport(s)
    case ForLoop => IsForLoop(s)
  }

  /** Some declared rule accepts exactly when one of the three predicates holds. */
  lemma SomeRuleHolds(s: Siblings)
    ensures (exists k :: 0 <= k < |DefinitionRules| && Holds(DefinitionRules[k], s))
            <==> IsStandaloneAssignment(s) || IsImport(s) || IsForLoop(s)
  {
    if IsStandaloneAssignment(s) {
      assert Holds(DefinitionRules[0], s);
    } else if IsImport(s) {
      assert Holds(DefinitionRules[1], s);
    } else if IsForLoop(s) {
      assert Holds(DefinitionRules[2], s);
    }
  }

  /** Every rule is a value of `DefinitionRules`, each exactly once. */
  lemma EachRuleDeclaredOnce(rule: Rule)
    ensures exists k :: 0 <= k < |DefinitionRules| && DefinitionRules[k] == rule
    ensures forall k, l :: 0 <= k < l < |DefinitionRules| ==> DefinitionRules[k] != DefinitionRules[l]
  {
    match rule
    case StandaloneAssignment => assert DefinitionRules[0] == rule;
    case Import => assert DefinitionRules[1] == rule;
    case ForLoop => assert DefinitionRules[2] == rule;
  }

  /** Without neighbours no rule accepts. */
  lemma NoSiblingsNoRule(rule: Rule)
    ensures !Holds(rule, Siblings(None, None))
  {
  }

  /** `isImport` needs a previous token; `isForLoop` needs both. */
  lemma RulesNeedTheirSiblings(s: Siblings)
    ensures s.previous.None? ==> !IsImport(s) && !IsForLoop(s)
    ensures s.next.None? ==> !IsForLoop(s)
    ensures s.next.None? && s.previous.None? ==> !IsStandaloneAssignment(s)
  {
  }

  /** `isImport` does not look at the next token. */
  lemma ImportIgnoresNext(previous: Option<Token>, next1: Option<Token>, next2: Option<Token>)
    ensures IsImport(Siblings(previous, next1)) == IsImport(Siblings(previous, next2))
  {
  }

  /** An import and a loop variable cannot be recognised at once: the previous token's kind differs. */
  lemma ImportAndForLoopExclusive(s: Siblings)
    ensures !(IsImport(s) && IsForLoop(s))
  {
  }

  /** `x -> y`: seen from `x`, whose next token is the rightward arrow, this is no assignment. */
  lemma RightwardArrowDoesNotDefineItsSource(previous: Option<Token>, arrow: Token)
    requires IsRightwardArrow(arrow)
    requires previous.None? || !IsRightwardArrow(previous.value)
    ensures !IsStandaloneAssignment(Siblings(previous, Some(arrow)))
  {
  }

  /** `x -> y`: seen from `y`, whose previous token is the arrow, this is an assignment. */
  lemma RightwardArrowDefinesItsTarget(arrow: Token, next: Option<Token>)
    requires IsRightwardArrow(arrow)
    ensures IsStandaloneAssignment(Siblings(Some(arrow), next))
  {
  }

  /** `x = 1` and `x <<- 1`: seen from `x`, whose next token is `=` or `<<-`, this is an assignment. */
  lemma LeftwardAssignmentsDefine(previous: Option<Token>, offset: int)
    ensures IsStandaloneAssignment(Siblings(previous, Some(Token("=", "operator", offset))))
    ensures IsStandaloneAssignment(Siblings(previous, Some(Token("<-", "operator arrow", offset))))
    ensures IsStandaloneAssignment(Siblings(previous, Some(Token("<<-", "operator arrow", offset))))
  {
  }

  /** An arrow value typed as a plain operator is no assignment, and neither is `==`. */
  lemma OtherOperatorsDoNotAssign(offset: int)
    ensures !IsStandaloneAssignment(Siblings(None, Some(Token("<-", "operator", offset))))
    ensures !IsStandaloneAssignment(Siblings(None, Some(Token("==", "operator", offset))))
  {
  }

  /** `library(x)` and `require(x)`: the name after either call is imported, whatever follows it. */
  lemma LibraryAndRequireImport(offset: int, next: Option<Token>)
    ensures IsImport(Siblings(Some(Token("library", "variable", offset)), next))
    ensures IsImport(Siblings(Some(Token("require", "variable", offset)), next))
    ensures !IsImport(Siblings(Some(Token("library", "keyword", offset)), next))
  {
  }

  /** `for (i in s)`: the loop variable, between the keywords `for` and `in`, is a definition. */
  lemma LoopVariableDefines(forOffset: int, inOffset: int)
    ensures IsForLoop(Siblings(Some(Token("for", "keyword", forOffset)), Some(Token("in", "keyword", inOffset))))
    ensures !IsForLoop(Siblings(Some(Token("for", "keyword", forOffset)), Some(Token("in", "variable", inOffset))))
  {
  }
}
