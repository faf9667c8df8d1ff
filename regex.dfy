/**
 * Whole-string matching for the few regular-expression forms the core uses:
 * a character class repeated `+` times or `{lo,hi}` times. Each function
 * follows the construct it stands for one character at a time; the lemmas
 * give the plain reading "length in range, every character in the class".
 */
module Regex {

  /** `cls*` matches all of `s`. */
  predicate Star(s: string, cls: char -> bool) {
    s == [] || (cls(s[0]) && Star(s[1..], cls))
  }

  /** `cls+` matches all of `s`. */
  predicate Plus(s: string, cls: char -> bool) {
    s != [] && cls(s[0]) && Star(s[1..], cls)
  }

  /** `cls{lo,hi}` matches all of `s`. */
  predicate Repeat(s: string, cls: char -> bool, lo: nat, hi: nat) {
    if s == [] then lo == 0
    else hi > 0 && cls(s[0]) && Repeat(s[1..], cls, if lo > 0 then lo - 1 else 0, hi - 1)
  }

  /** Every character of `s` is in the class. */
  ghost predicate AllIn(s: string, cls: char -> bool) {
    forall i :: 0 <= i < |s| ==> cls(s[i])
  }

  lemma {:induction false} StarIff(s: string, cls: char -> bool)
    ensures Star(s, cls) <==> AllIn(s, cls)
  {
    if s != [] {
      StarIff(s[1..], cls);
      assert forall i :: 1 <= i < |s| ==> s[i] == s[1..][i - 1];
    }
  }

  lemma PlusIff(s: string, cls: char -> bool)
    ensures Plus(s, cls) <==> |s| >= 1 && AllIn(s, cls)
  {
    if s != [] {
      StarIff(s[1..], cls);
      assert forall i :: 1 <= i < |s| ==> s[i] == s[1..][i - 1];
    }
  }

  lemma {:induction false} RepeatIff(s: string, cls: char -> bool, lo: nat, hi: nat)
    ensures Repeat(s, cls, lo, hi) <==> lo <= |s| <= hi && AllIn(s, cls)
  {
    if s != [] && hi > 0 {
      RepeatIff(s[1..], cls, if lo > 0 then lo - 1 else 0, hi - 1);
      assert forall i :: 1 <= i < |s| ==> s[i] == s[1..][i - 1];
    }
  }
}
