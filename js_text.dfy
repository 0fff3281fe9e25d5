/**
 * JavaScript strings as the engine sees them: sequences of UTF-16 code units.
 * `length` is the number of code units, and `String.prototype.trim` removes the
 * ECMAScript WhiteSpace and LineTerminator code units from both ends.
 */
module JsText {

  newtype CodeUnit = x: int | 0 <= x < 0x1_0000

  type JsString = seq<CodeUnit>

  /** The code units `trim` strips: WhiteSpace (TAB, VT, FF, SP, NBSP, ZWNBSP and the
      Unicode "Zs" space separators) and LineTerminator (LF, CR, LS, PS). */
  predicate IsWhitespace(c: CodeUnit) {
    || c == 0x09 || c == 0x0A || c == 0x0B || c == 0x0C || c == 0x0D
    || c == 0x20 || c == 0xA0 || c == 0x1680
    || (0x2000 <= c <= 0x200A)
    || c == 0x2028 || c == 0x2029 || c == 0x202F || c == 0x205F
    || c == 0x3000 || c == 0xFEFF
  }

  predicate AllWhitespace(s: JsString) {
    forall i :: 0 <= i < |s| ==> IsWhitespace(s[i])
  }

  /** The first position at or after `k` that does not hold whitespace (or `|s|`). */
  function SkipSpaceForward(s: JsString, k: nat): (n: nat)
    requires k <= |s|
    ensures k <= n <= |s|
    ensures forall i :: k <= i < n ==> IsWhitespace(s[i])
    ensures n == |s| || !IsWhitespace(s[n])
    decreases |s| - k
  {
    if k < |s| && IsWhitespace(s[k]) then SkipSpaceForward(s, k + 1) else k
  }

  /** Going back from `k` but not below `lo`, the end of the last stretch that does not
      finish in whitespace. */
  function SkipSpaceBackward(s: JsString, lo: nat, k: nat): (n: nat)
    requires lo <= k <= |s|
    ensures lo <= n <= k
    ensures forall i :: n <= i < k ==> IsWhitespace(s[i])
    ensures n == lo || !IsWhitespace(s[n - 1])
  {
    if k > lo && IsWhitespace(s[k - 1]) then SkipSpaceBackward(s, lo, k - 1) else k
  }

  /** Drops the leading whitespace (also the first step of `parseInt`). */
  function TrimStart(s: JsString): JsString {
    s[SkipSpaceForward(s, 0)..]
  }

  /** `String.prototype.trim`: drop the leading whitespace, then the trailing
      whitespace of what is left. */
  function Trim(s: JsString): JsString {
    var start := SkipSpaceForward(s, 0);
    s[start..SkipSpaceBackward(s, start, |s|)]
  }

  /** A string with no whitespace at either end. */
  predicate IsTrimmed(s: JsString) {
    s == [] || (!IsWhitespace(s[0]) && !IsWhitespace(s[|s| - 1]))
  }

  /** Trim keeps a contiguous middle part of its input with no whitespace at either of
      its ends, and what it removes on either side is whitespace only. */
  lemma TrimKeepsMiddle(s: JsString)
    ensures |Trim(s)| <= |s|
    ensures IsTrimmed(Trim(s))
    ensures exists i :: 0 <= i <= |s| - |Trim(s)|
              && Trim(s) == s[i..i + |Trim(s)|]
              && AllWhitespace(s[..i]) && AllWhitespace(s[i + |Trim(s)|..])
  {
    var a := SkipSpaceForward(s, 0);
    var b := SkipSpaceBackward(s, a, |s|);
    var t := Trim(s);
    assert t == s[a..b];
    if t != [] {
      assert t[0] == s[a] && t[|t| - 1] == s[b - 1];
    }
    assert AllWhitespace(s[..a]) by {
      forall k | 0 <= k < a ensures IsWhitespace(s[..a][k]) { assert s[..a][k] == s[k]; }
    }
    assert AllWhitespace(s[b..]) by {
      forall k | 0 <= k < |s| - b ensures IsWhitespace(s[b..][k]) { assert s[b..][k] == s[b + k]; }
    }
    assert a + |t| == b;
  }

  /** The other direction: any split of `s` into whitespace, a middle without
      whitespace at its ends, and whitespace has that middle as `Trim(s)`. */
  lemma TrimUnique(s: JsString, i: nat, j: nat)
    requires i <= j <= |s|
    requires AllWhitespace(s[..i]) && AllWhitespace(s[j..])
    requires IsTrimmed(s[i..j])
    ensures Trim(s) == s[i..j]
  {
    forall k | 0 <= k < i ensures IsWhitespace(s[k]) { assert s[k] == s[..i][k]; }
    forall k | j <= k < |s| ensures IsWhitespace(s[k]) { assert s[k] == s[j..][k - j]; }
    var a := SkipSpaceForward(s, 0);
    if i < j {
      assert s[i] == s[i..j][0] && s[j - 1] == s[i..j][j - i - 1];
      assert a == i;
      var b := SkipSpaceBackward(s, a, |s|);
      assert b == j;
    } else {
      assert a == |s|;
    }
  }

  /** Where the leading whitespace ends is determined by the whitespace before it and
      the first code unit after it. */
  lemma TrimStartAt(s: JsString, i: nat)
    requires i <= |s|
    requires forall k :: 0 <= k < i ==> IsWhitespace(s[k])
    requires i == |s| || !IsWhitespace(s[i])
    ensures TrimStart(s) == s[i..]
  {
    var a := SkipSpaceForward(s, 0);
    assert a == i;
  }

  /** Trimming a second time changes nothing. */
  lemma TrimIdempotent(s: JsString)
    ensures Trim(Trim(s)) == Trim(s)
  {
    TrimKeepsMiddle(s);
    TrimmedIsFixed(Trim(s));
  }

  /** A string without surrounding whitespace is its own trim. */
  lemma TrimmedIsFixed(s: JsString)
    requires IsTrimmed(s)
    ensures Trim(s) == s
  {
    assert s[..0] == [] && s[|s|..] == [];
    assert s[0..|s|] == s;
    TrimUnique(s, 0, |s|);
  }
}
