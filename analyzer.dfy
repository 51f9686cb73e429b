/**
 * The language-independent part of an analyzer: it holds the tokens of one
 * editor and the name whose definition is sought, and keeps, in their
 * original order, the tokens its language's `isDefinition` accepts.
 */
module Analyzer {
  import opened Tokens

  /** What the constructor stores: the editor's tokens and the sought name. */
  datatype LanguageAnalyzer = LanguageAnalyzer(tokens: seq<Token>, name: string)

  /**
   * The indices from `from` on at which `isDefinition` holds, in ascending
   * order: the reference that `GetDefinitions` is proved against.
   */
  ghost function Positions(tokens: seq<Token>, isDefinition: (Token, nat) -> bool, from: nat): (r: seq<nat>)
    requires from <= |tokens|
    ensures forall k :: 0 <= k < |r| ==> from <= r[k] < |tokens| && isDefinition(tokens[r[k]], r[k])
    ensures forall k, l :: 0 <= k < l < |r| ==> r[k] < r[l]
    ensures forall i :: from <= i < |tokens| && isDefinition(tokens[i], i) ==> i in r
    decreases |tokens| - from
  {
    if from == |tokens| then []
    else if isDefinition(tokens[from], from) then [from] + Positions(tokens, isDefinition, from + 1)
    else Positions(tokens, isDefinition, from + 1)
  }

  /** `Array.from(tokens).filter((token, i) => isDefinition(token, i))`, from index `from` on. */
  function FilterFrom(tokens: seq<Token>, isDefinition: (Token, nat) -> bool, from: nat): seq<Token>
    requires from <= |tokens|
    decreases |tokens| - from
  {
    if from == |tokens| then []
    else
      var rest := FilterFrom(tokens, isDefinition, from + 1);
      if isDefinition(tokens[from], from) then [tokens[from]] + rest else rest
  }

  /** The filter picks exactly the tokens at `Positions`, one for one and in order. */
  lemma {:induction false} FilterFromSelectsPositions(tokens: seq<Token>, isDefinition: (Token, nat) -> bool, from: nat)
    requires from <= |tokens|
    ensures |FilterFrom(tokens, isDefinition, from)| == |Positions(tokens, isDefinition, from)|
    ensures forall k :: 0 <= k < |FilterFrom(tokens, isDefinition, from)| ==>
              FilterFrom(tokens, isDefinition, from)[k] == tokens[Positions(tokens, isDefinition, from)[k]]
    decreases |tokens| - from
  {
    if from < |tokens| {
      FilterFromSelectsPositions(tokens, isDefinition, from + 1);
    }
  }

  /**
   * `LanguageAnalyzer.getDefinitions`: the tokens accepted by
   * `isDefinition(token, i)`, where `i` is the token's own index, in the
   * order of `tokens`. The tokens are a value, so they are left as they were.
   */
  function GetDefinitions(tokens: seq<Token>, isDefinition: (Token, nat) -> bool): (r: seq<Token>)
    ensures |r| == |Positions(tokens, isDefinition, 0)|
    ensures forall k :: 0 <= k < |r| ==> r[k] == tokens[Positions(tokens, isDefinition, 0)[k]]
  {
    FilterFromSelectsPositions(tokens, isDefinition, 0);
    FilterFrom(tokens, isDefinition, 0)
  }

  /** A strictly ascending list of indices below `n` has at most `n` elements. */
  lemma {:induction false} AscendingIndicesBounded(p: seq<nat>, n: nat)
    requires forall k :: 0 <= k < |p| ==> p[k] < n
    requires forall k, l :: 0 <= k < l < |p| ==> p[k] < p[l]
    ensures |p| <= n
  {
    if |p| > 0 {
      var q := p[..|p| - 1];
      assert forall k :: 0 <= k < |q| ==> q[k] < p[|p| - 1];
      AscendingIndicesBounded(q, p[|p| - 1]);
    }
  }

  /** The definitions are never more than the tokens. */
  lemma DefinitionsAtMostTokens(tokens: seq<Token>, isDefinition: (Token, nat) -> bool)
    ensures |GetDefinitions(tokens, isDefinition)| <= |tokens|
  {
    AscendingIndicesBounded(Positions(tokens, isDefinition, 0), |tokens|);
  }

  /** Token `i` is among the definitions exactly when `isDefinition(tokens[i], i)` holds. */
  lemma DefinitionIffAccepted(tokens: seq<Token>, isDefinition: (Token, nat) -> bool, i: nat)
    requires i < |tokens|
    ensures isDefinition(tokens[i], i) <==> i in Positions(tokens, isDefinition, 0)
  {
  }

  /** With an `isDefinition` that accepts every token, the definitions are the tokens themselves. */
  lemma {:induction false} AcceptAllKeepsEverything(tokens: seq<Token>, isDefinition: (Token, nat) -> bool, from: nat)
    requires from <= |tokens|
    requires forall i :: from <= i < |tokens| ==> isDefinition(tokens[i], i)
    ensures FilterFrom(tokens, isDefinition, from) == tokens[from..]
    decreases |tokens| - from
  {
    if from < |tokens| {
      AcceptAllKeepsEverything(tokens, isDefinition, from + 1);
      assert isDefinition(tokens[from], from);
      calc {
        FilterFrom(tokens, isDefinition, from);
        [tokens[from]] + FilterFrom(tokens, isDefinition, from + 1);
        [tokens[from]] + tokens[from + 1..];
        tokens[from..];
      }
    }
  }

  lemma AcceptAllIsIdentity(tokens: seq<Token>, isDefinition: (Token, nat) -> bool)
    requires forall i :: 0 <= i < |tokens| ==> isDefinition(tokens[i], i)
    ensures GetDefinitions(tokens, isDefinition) == tokens
  {
    AcceptAllKeepsEverything(tokens, isDefinition, 0);
  }

  /** From `from` on, only index `i` is accepted: the positions are `[i]`. */
  lemma {:induction false} PositionsOfOnlyOne(tokens: seq<Token>, isDefinition: (Token, nat) -> bool, from: nat, i: nat)
    requires from <= i < |tokens| && isDefinition(tokens[i], i)
    requires forall j :: from <= j < |tokens| && j != i ==> !isDefinition(tokens[j], j)
    ensures Positions(tokens, isDefinition, from) == [i]
    decreases |tokens| - from
  {
    if from < i {
      PositionsOfOnlyOne(tokens, isDefinition, from + 1, i);
    } else {
      PositionsOfNone(tokens, isDefinition, from + 1);
    }
  }

  /** From `from` on, no index is accepted: there are no positions. */
  lemma {:induction false} PositionsOfNone(tokens: seq<Token>, isDefinition: (Token, nat) -> bool, from: nat)
    requires from <= |tokens|
    requires forall j :: from <= j < |tokens| ==> !isDefinition(tokens[j], j)
    ensures Positions(tokens, isDefinition, from) == []
    decreases |tokens| - from
  {
    if from < |tokens| {
      PositionsOfNone(tokens, isDefinition, from + 1);
    }
  }

  /** When exactly one index is accepted, the definitions are that one token. */
  lemma OnlyOneAccepted(tokens: seq<Token>, isDefinition: (Token, nat) -> bool, i: nat)
    requires i < |tokens| && isDefinition(tokens[i], i)
    requires forall j :: 0 <= j < |tokens| && j != i ==> !isDefinition(tokens[j], j)
    ensures GetDefinitions(tokens, isDefinition) == [tokens[i]]
  {
    PositionsOfOnlyOne(tokens, isDefinition, 0, i);
  }

  /** When no index is accepted, there are no definitions. */
  lemma NoneAccepted(tokens: seq<Token>, isDefinition: (Token, nat) -> bool)
    requires forall j :: 0 <= j < |tokens| ==> !isDefinition(tokens[j], j)
    ensures GetDefinitions(tokens, isDefinition) == []
  {
    PositionsOfNone(tokens, isDefinition, 0);
  }

  /** From `from` on, exactly the indices `i < j` are accepted: the positions are `[i, j]`. */
  lemma {:induction false} PositionsOfTwo(tokens: seq<Token>, isDefinition: (Token, nat) -> bool, from: nat, i: nat, j: nat)
    requires from <= i < j < |tokens| && isDefinition(tokens[i], i) && isDefinition(tokens[j], j)
    requires forall l :: from <= l < |tokens| && l != i && l != j ==> !isDefinition(tokens[l], l)
    ensures Positions(tokens, isDefinition, from) == [i, j]
    decreases |tokens| - from
  {
    if from < i {
      PositionsOfTwo(tokens, isDefinition, from + 1, i, j);
    } else {
      PositionsOfOnlyOne(tokens, isDefinition, from + 1, j);
    }
  }

  /** When exactly the indices `i < j` are accepted, the definitions are those two tokens, in order. */
  lemma TwoAccepted(tokens: seq<Token>, isDefinition: (Token, nat) -> bool, i: nat, j: nat)
    requires i < j < |tokens| && isDefinition(tokens[i], i) && isDefinition(tokens[j], j)
    requires forall l :: 0 <= l < |tokens| && l != i && l != j ==> !isDefinition(tokens[l], l)
    ensures GetDefinitions(tokens, isDefinition) == [tokens[i], tokens[j]]
  {
    PositionsOfTwo(tokens, isDefinition, 0, i, j);
  }
}
