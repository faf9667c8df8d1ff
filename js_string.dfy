/**
 * The part of JavaScript's string semantics the core relies on:
 * the white-space class shared by `String.prototype.trim` and the regular
 * expression escape `\s`, and `trim` itself.
 */
module JsString {

  /**
   * White space as ECMAScript defines it for `trim` and `\s`: the
   * WhiteSpace code points (TAB, VT, FF, SP, NBSP, ZWNBSP and the Zs
   * category) and the LineTerminator code points (LF, CR, LS, PS).
   */
  predicate IsWS(c: char) {
    var n := c as int;
    || (9 <= n <= 13)                 // TAB, LF, VT, FF, CR
    || n == 0x20 || n == 0xA0 || n == 0x1680
    || (0x2000 <= n <= 0x200A)
    || n == 0x2028 || n == 0x2029 || n == 0x202F || n == 0x205F
    || n == 0x3000 || n == 0xFEFF
  }

  /** No white space at either end: what `trim` guarantees of its result. */
  predicate Trimmed(s: string) {
    s == [] || (!IsWS(s[0]) && !IsWS(s[|s| - 1]))
  }

  /** The number of white-space characters `s` starts with. */
  function LeadingWS(s: string): (n: nat)
    ensures n <= |s|
    ensures forall i :: 0 <= i < n ==> IsWS(s[i])
    ensures n < |s| ==> !IsWS(s[n])
  {
    if s != [] && IsWS(s[0]) then 1 + LeadingWS(s[1..]) else 0
  }

  /** Drops the longest white-space prefix. */
  function TrimStart(s: string): (r: string)
    ensures r == s[LeadingWS(s)..]
    ensures r != [] ==> !IsWS(r[0])
  {
    if s != [] && IsWS(s[0]) then TrimStart(s[1..]) else s
  }

  /** Drops the longest white-space suffix. */
  function TrimEnd(s: string): (r: string)
    ensures |r| <= |s| && r == s[..|r|]
    ensures forall i :: |r| <= i < |s| ==> IsWS(s[i])
    ensures r != [] ==> !IsWS(r[|r| - 1])
  {
    if s != [] && IsWS(s[|s| - 1]) then TrimEnd(s[..|s| - 1]) else s
  }

  /**
   * `String.prototype.trim`: the result is the slice of `s` that is left
   * after removing white space from both ends, and everything removed is
   * white space.
   */
  function Trim(s: string): (r: string)
    ensures Trimmed(r)
    ensures var k := LeadingWS(s);
      && k + |r| <= |s| && r == s[k..k + |r|]
      && (forall i :: k + |r| <= i < |s| ==> IsWS(s[i]))
  {
    var t := TrimStart(s);
    var r := TrimEnd(t);
    var k := LeadingWS(s);
    assert t == s[k..];
    assert r == t[..|r|] == s[k..][..|r|];
    assert forall i :: k + |r| <= i < |s| ==> s[i] == t[i - k] by {
      forall i | k + |r| <= i < |s| ensures s[i] == t[i - k] { }
    }
    r
  }

  /** Trimming a string that has no white space at its ends changes nothing. */
  lemma TrimOfTrimmed(s: string)
    requires Trimmed(s)
    ensures Trim(s) == s
  {
  }

  /** `trim` is idempotent. */
  lemma TrimIdempotent(s: string)
    ensures Trim(Trim(s)) == Trim(s)
  {
    TrimOfTrimmed(Trim(s));
  }

  /** A string of white space only trims to the empty string, and conversely. */
  lemma TrimEmptyIff(s: string)
    ensures Trim(s) == [] <==> forall i :: 0 <= i < |s| ==> IsWS(s[i])
  {
  }
}
