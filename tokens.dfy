/**
 * Tokens as the editor hands them to the go-to-definition engine: a flat,
 * ordered list in which a value of "" marks a line break and a kind of ""
 * marks a token that carries no meaning of its own (whitespace, line breaks).
 */
module Tokens {

  datatype Option<T> = None | Some(value: T)

  /** One lexical unit: its text, its kind tag (CodeMirror's token type) and its character offset. */
  datatype Token = Token(value: string, kind: string, offset: int)

  function Last<T>(s: seq<T>): T
    requires |s| > 0
  {
    s[|s| - 1]
  }

  /**
   * JavaScript's `String.prototype.includes`: whether `needle` occurs in
   * `haystack` as a contiguous piece. The empty string occurs everywhere.
   */
  predicate Includes(haystack: string, needle: string)
    decreases |haystack|
  {
    needle <= haystack || (|haystack| > 0 && Includes(haystack[1..], needle))
  }

  /** `Includes` is the substring test: some suffix of the haystack starts with the needle. */
  lemma {:induction false} IncludesIsSubstring(haystack: string, needle: string)
    ensures Includes(haystack, needle) <==> exists k :: 0 <= k <= |haystack| && needle <= haystack[k..]
    decreases |haystack|
  {
    if needle <= haystack {
      assert haystack[0..] == haystack;
    } else if |haystack| > 0 {
      IncludesIsSubstring(haystack[1..], needle);
      if Includes(haystack[1..], needle) {
        var k :| 0 <= k <= |haystack[1..]| && needle <= haystack[1..][k..];
        assert haystack[1..][k..] == haystack[k + 1..];
      } else {
        forall k | 1 <= k <= |haystack|
          ensures haystack[1..][k - 1..] == haystack[k..]
        {
        }
      }
    }
  }

  /** A prefix is the leading slice of its length. */
  lemma PrefixIsLeadingSlice(v: string, h: string)
    ensures v <= h <==> |v| <= |h| && v == h[..|v|]
  {
  }

  /** The strings a two-character string includes: "", each character, and itself. */
  lemma IncludesOfTwo(a: char, b: char, v: string)
    ensures Includes([a, b], v) <==> v in ["", [a], [b], [a, b]]
  {
    var h := [a, b];
    assert h[1..] == [b] && [b][1..] == [];
    assert Includes(h, v) == (v <= h || Includes([b], v));
    assert Includes([b], v) == (v <= [b] || Includes([], v));
    assert Includes([], v) <==> v == [];
    PrefixIsLeadingSlice(v, [b]);
    PrefixIsLeadingSlice(v, h);
    assert h[..0] == [] && h[..1] == [a] && h[..2] == h;
    assert [b][..0] == [] && [b][..1] == [b];
  }

  /** The strings a three-character string includes: its contiguous pieces. */
  lemma IncludesOfThree(a: char, b: char, c: char, v: string)
    ensures Includes([a, b, c], v) <==> v in ["", [a], [b], [c], [a, b], [b, c], [a, b, c]]
  {
    var h := [a, b, c];
    assert h[1..] == [b, c];
    assert Includes(h, v) == (v <= h || Includes([b, c], v));
    IncludesOfTwo(b, c, v);
    PrefixIsLeadingSlice(v, h);
    assert h[..0] == [] && h[..1] == [a] && h[..2] == [a, b] && h[..3] == h;
  }

  /** JavaScript's `Array.prototype.filter` on tokens: the elements of `s` that satisfy `p`, in their order. */
  function Filter(s: seq<Token>, p: Token -> bool): (r: seq<Token>)
    ensures |r| <= |s|
    ensures forall x :: x in r <==> x in s && p(x)
  {
    if |s| == 0 then []
    else
      var init := s[..|s| - 1];
      assert forall x :: x in s <==> x in init || x == s[|s| - 1];
      Filter(init, p) + (if p(s[|s| - 1]) then [s[|s| - 1]] else [])
  }

  /** Filtering one element more appends that element when it satisfies `p`. */
  lemma FilterExtend(s: seq<Token>, p: Token -> bool, k: nat)
    requires k < |s|
    ensures Filter(s[..k + 1], p) == Filter(s[..k], p) + (if p(s[k]) then [s[k]] else [])
  {
    assert s[..k + 1][..k] == s[..k];
  }

  /** A filter that keeps every element is the identity. */
  lemma {:induction false} FilterKeepingAll(s: seq<Token>, p: Token -> bool)
    requires forall x :: x in s ==> p(x)
    ensures Filter(s, p) == s
  {
    if |s| > 0 {
      FilterKeepingAll(s[..|s| - 1], p);
      assert s == s[..|s| - 1] + [s[|s| - 1]];
    }
  }

  /** Filtering one or two tokens keeps each one that satisfies `p`, in order. */
  lemma FilterOfTwo(x: Token, y: Token, p: Token -> bool)
    ensures Filter([x], p) == (if p(x) then [x] else [])
    ensures Filter([x, y], p) == (if p(x) then [x] else []) + (if p(y) then [y] else [])
  {
    assert [x, y][..1] == [x];
  }
}
