/** The Instagram handle helpers of lib/utils.ts. */
module Utils {
  import opened JsString
  import opened Regex

  /** `s` with one leading `@` removed, when it has one. */
  function DropAt(s: string): string {
    if |s| > 0 && s[0] == '@' then s[1..] else s
  }

  /**
   * `formatInstagramHandle`: trim the input and make sure it starts with
   * `@`. The result is always `@` followed by the trimmed input less the
   * `@` it may already have had, and it has no white space at either end.
   */
  function FormatInstagramHandle(handle: string): (r: string)
    ensures |r| >= 1 && r[0] == '@'
    ensures Trimmed(r)
    ensures r == "@" + DropAt(Trim(handle))
  {
    var formatted := Trim(handle);
    if |formatted| > 0 && formatted[0] == '@' then formatted else "@" + formatted
  }

  /** Formatting keeps the trimmed input when it already starts with `@`, and otherwise adds exactly one character. */
  lemma FormatKeepsOrPrefixes(handle: string)
    ensures var t := Trim(handle);
      if |t| > 0 && t[0] == '@' then FormatInstagramHandle(handle) == t
      else FormatInstagramHandle(handle) == "@" + t && |FormatInstagramHandle(handle)| == |t| + 1
  {
  }

  /** Formatting an already formatted handle changes nothing. */
  lemma FormatIdempotent(handle: string)
    ensures FormatInstagramHandle(FormatInstagramHandle(handle)) == FormatInstagramHandle(handle)
  {
    var f := FormatInstagramHandle(handle);
    TrimOfTrimmed(f);
  }

  /** The characters the handle pattern `[a-zA-Z0-9_.]` allows. */
  predicate IsHandleChar(c: char) {
    ('a' <= c <= 'z') || ('A' <= c <= 'Z') || ('0' <= c <= '9') || c == '_' || c == '.'
  }

  /**
   * `validateInstagramHandle`: the test `^@[a-zA-Z0-9_.]{1,30}$`. A valid
   * handle has 2 to 31 characters, and its `@` is its only one.
   */
  predicate ValidateInstagramHandle(handle: string)
    ensures ValidateInstagramHandle(handle) ==>
      2 <= |handle| <= 31 && handle[0] == '@' && forall i :: 1 <= i < |handle| ==> handle[i] != '@'
  {
    if |handle| > 0 && handle[0] == '@' then
      RepeatIff(handle[1..], IsHandleChar, 1, 30);
      assert forall i :: 1 <= i < |handle| ==> handle[i] == handle[1..][i - 1];
      Repeat(handle[1..], IsHandleChar, 1, 30)
    else
      false
  }

  /** A handle is valid exactly when it is `@` followed by 1 to 30 allowed characters. */
  lemma ValidateIff(handle: string)
    ensures ValidateInstagramHandle(handle) <==>
      && |handle| > 0 && handle[0] == '@'
      && 1 <= |handle| - 1 <= 30
      && forall i :: 1 <= i < |handle| ==> IsHandleChar(handle[i])
  {
    if |handle| > 0 {
      RepeatIff(handle[1..], IsHandleChar, 1, 30);
      assert forall i :: 1 <= i < |handle| ==> handle[i] == handle[1..][i - 1];
    }
  }

  /**
   * What validation rejects: a bare `@`, anything longer than 31
   * characters, a missing leading `@` (validation does not format), and any
   * later character outside the class, which covers a second `@` and white
   * space.
   */
  lemma ValidateRejects(handle: string)
    ensures !ValidateInstagramHandle("@")
    ensures |handle| > 31 ==> !ValidateInstagramHandle(handle)
    ensures (|handle| == 0 || handle[0] != '@') ==> !ValidateInstagramHandle(handle)
    ensures forall i :: 1 <= i < |handle| && !IsHandleChar(handle[i]) ==> !ValidateInstagramHandle(handle)
    ensures forall i :: 1 <= i < |handle| && (handle[i] == '@' || IsWS(handle[i])) ==> !ValidateInstagramHandle(handle)
  {
    ValidateIff("@");
    ValidateIff(handle);
  }

  /**
   * A formatted input is valid exactly when the trimmed input, less at most
   * one leading `@`, is 1 to 30 allowed characters.
   */
  lemma ValidateFormatIff(handle: string)
    ensures var tail := DropAt(Trim(handle));
      ValidateInstagramHandle(FormatInstagramHandle(handle)) <==>
        1 <= |tail| <= 30 && forall i :: 0 <= i < |tail| ==> IsHandleChar(tail[i])
  {
    var f := FormatInstagramHandle(handle);
    ValidateIff(f);
    assert f[1..] == DropAt(Trim(handle));
    assert forall i :: 1 <= i < |f| ==> f[i] == f[1..][i - 1];
  }
}
