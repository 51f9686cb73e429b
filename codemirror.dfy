/**
 * Mapping a clicked DOM element back to a CodeMirror token: the element's
 * text is the name looked up, and the number of elements with the same text
 * before it (counted on the DOM, here an input) says which occurrence of
 * the name among the cell's tokens was clicked. The plugin's mousedown
 * handler performs the same selection inline.
 */
module CodeMirror {
  import opened Tokens

  /** The number of tokens of `s` whose value is `name`. */
  function Occurrences(s: seq<Token>, name: string): (n: nat)
    ensures n <= |s|
  {
    if |s| == 0 then 0
    else Occurrences(s[..|s| - 1], name) + (if s[|s| - 1].value == name then 1 else 0)
  }

  /** Counting one token more adds one exactly when that token's value is `name`. */
  lemma OccurrencesExtend(s: seq<Token>, name: string, j: nat)
    requires j < |s|
    ensures Occurrences(s[..j + 1], name) == Occurrences(s[..j], name) + (if s[j].value == name then 1 else 0)
  {
    assert s[..j + 1][..j] == s[..j];
  }

  /** Token `j` is the occurrence of `name` with exactly `n` occurrences before it. */
  predicate IsOccurrence(s: seq<Token>, name: string, n: int, j: int)
  {
    0 <= j < |s| && s[j].value == name && Occurrences(s[..j], name) == n
  }

  /** What the selection yields: a token, or the null `token` that the mismatch check then dereferences. */
  datatype Selection = Selected(token: Token) | NullToken

  /**
   * The token that replaces a selected token whose value is not the looked-up
   * name: that name at the dummy offset 0, of type `variable` when the
   * element's class contains "cm-variable" and `property` otherwise.
   */
  function FallbackToken(lookupName: string, className: string): (t: Token)
    ensures t.value == lookupName && t.offset == 0
    ensures t.kind == "variable" <==> Includes(className, "cm-variable")
    ensures t.kind != "variable" ==> t.kind == "property"
  {
    Token(lookupName, if Includes(className, "cm-variable") then "variable" else "property", 0)
  }

  /** The mismatch check after the scan: a token with another value is replaced by the fallback. */
  function VerifiedToken(token: Token, lookupName: string, className: string): (t: Token)
    ensures t.value == lookupName
    ensures token.value == lookupName ==> t == token
    ensures token.value != lookupName ==> t.offset == 0
  {
    if token.value != lookupName then FallbackToken(lookupName, className) else token
  }

  /**
   * `selectToken`: the occurrence of `lookupName` that has `usagesBefore`
   * occurrences before it, checked against the name. With fewer occurrences
   * (or a negative count) there is none, and the source's dereference of a
   * null token becomes `NullToken`.
   */
  method SelectToken(cellTokens: seq<Token>, lookupName: string, usagesBefore: int, className: string)
    returns (r: Selection)
    ensures r.Selected? <==> 0 <= usagesBefore < Occurrences(cellTokens, lookupName)
    ensures r.Selected? ==> exists j :: IsOccurrence(cellTokens, lookupName, usagesBefore, j) && r.token == cellTokens[j]
  {
    var token: Option<Token> := None;
    var matchedTokensCount := 0;
    var j := 0;
    while j < |cellTokens|
      invariant 0 <= j <= |cellTokens|
      invariant matchedTokensCount == Occurrences(cellTokens[..j], lookupName)
      invariant usagesBefore >= 0 ==> matchedTokensCount <= usagesBefore
      invariant token.None?
    {
      var testedToken := cellTokens[j];
      OccurrencesExtend(cellTokens, lookupName, j);
      if testedToken.value == lookupName {
        matchedTokensCount := matchedTokensCount + 1;
        if matchedTokensCount - 1 == usagesBefore {
          token := Some(testedToken);
          assert IsOccurrence(cellTokens, lookupName, usagesBefore, j);
          OccurrencesGrow(cellTokens, lookupName, j + 1);
          break;
        }
      }
      j := j + 1;
    }
    if token.None? {
      assert cellTokens[..j] == cellTokens;
      return NullToken;
    }
    r := Selected(VerifiedToken(token.value, lookupName, className));
  }

  /** More tokens never mean fewer occurrences. */
  lemma {:induction false} OccurrencesGrow(s: seq<Token>, name: string, k: nat)
    requires k <= |s|
    ensures Occurrences(s[..k], name) <= Occurrences(s, name)
    decreases |s| - k
  {
    if k < |s| {
      OccurrencesExtend(s, name, k);
      OccurrencesGrow(s, name, k + 1);
    } else {
      assert s[..k] == s;
    }
  }

  /** Occurrences before `j` count at least those before an earlier matching token, plus that token. */
  lemma {:induction false} OccurrencesPastMatch(s: seq<Token>, name: string, i: nat, j: nat)
    requires i < j <= |s| && s[i].value == name
    ensures Occurrences(s[..j], name) >= Occurrences(s[..i], name) + 1
    decreases j - i
  {
    OccurrencesExtend(s, name, j - 1);
    if i < j - 1 {
      OccurrencesPastMatch(s, name, i, j - 1);
    }
  }

  /** At most one token is the occurrence with `n` occurrences before it. */
  lemma OccurrenceIsUnique(s: seq<Token>, name: string, n: int, i: int, j: int)
    requires IsOccurrence(s, name, n, i) && IsOccurrence(s, name, n, j)
    ensures i == j
  {
    if i < j {
      OccurrencesPastMatch(s, name, i, j);
    } else if j < i {
      OccurrencesPastMatch(s, name, j, i);
    }
  }

  /**
   * The selected occurrence is the first token with value `lookupName`
   * after `usagesBefore` of them, so every earlier token with that value has
   * fewer occurrences before it.
   */
  lemma {:induction false} EarlierOccurrencesCountLess(s: seq<Token>, name: string, n: int, j: int, i: nat)
    requires IsOccurrence(s, name, n, j) && i < j && s[i].value == name
    ensures Occurrences(s[..i], name) < n
  {
    OccurrencesPastMatch(s, name, i, j);
  }

  /** Each occurrence `n` below the total exists: there is a token with exactly `n` occurrences before it. */
  lemma {:induction false} OccurrenceExists(s: seq<Token>, name: string, n: nat)
    requires n < Occurrences(s, name)
    ensures exists j :: IsOccurrence(s, name, n, j)
    decreases |s|
  {
    var init := s[..|s| - 1];
    assert init[..|init|] == init;
    if n < Occurrences(init, name) {
      OccurrenceExists(init, name, n);
      var j :| IsOccurrence(init, name, n, j);
      assert s[..j] == init[..j];
      assert IsOccurrence(s, name, n, j);
    } else {
      assert IsOccurrence(s, name, n, |s| - 1);
    }
  }

  /** In the plugin's handler the class is "cm-variable" or "cm-property": the fallback's type names it. */
  lemma HandlerFallbackKinds(lookupName: string)
    ensures FallbackToken(lookupName, "cm-variable").kind == "variable"
    ensures FallbackToken(lookupName, "cm-property").kind == "property"
  {
    assert "cm-variable" <= "cm-variable";
    IncludesIsSubstring("cm-property", "cm-variable");
    forall k | 0 <= k <= |"cm-property"| ensures !("cm-variable" <= "cm-property"[k..]) {
      if k == 0 {
        assert "cm-property"[k..][3] != "cm-variable"[3];
      } else if k < |"cm-property"| {
        assert |"cm-property"[k..]| < |"cm-variable"|;
      }
    }
  }
}
