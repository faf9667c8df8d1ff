/**
 * The credential guards of `signUp` and `signIn` in lib/auth.ts. The call
 * into the hosted auth provider is not modelled: a guard chain that passes
 * ends in `ProviderCalled` with the credentials that would be sent.
 */
module Auth {
  import opened JsString
  import opened Regex

  datatype AuthOutcome =
    | ProviderCalled(email: string, password: string)
    | Rejected(message: string)

  const InvalidEmail := "Please provide a valid email address"
  const ShortPassword := "Password must be at least 6 characters"
  const MissingPassword := "Please provide a password"
  const MinPasswordLength := 6

  /** The class `[^\s@]`. */
  predicate NotSpaceOrAt(c: char) {
    !IsWS(c) && c != '@'
  }

  /** The domain half of the pattern: `[^\s@]+\.[^\s@]+` matches all of `d`. */
  predicate DomainMatches(d: string) {
    exists j :: 0 <= j < |d| && d[j] == '.' && Plus(d[..j], NotSpaceOrAt) && Plus(d[j + 1..], NotSpaceOrAt)
  }

  /**
   * The email test `^[^\s@]+@[^\s@]+\.[^\s@]+$`. A match has at least five
   * characters (`a@b.c`) and starts with neither white space nor `@`.
   */
  predicate EmailPatternMatches(s: string)
    ensures EmailPatternMatches(s) ==> |s| >= 5 && NotSpaceOrAt(s[0])
  {
    exists i :: 0 <= i < |s| && s[i] == '@' && Plus(s[..i], NotSpaceOrAt) && DomainMatches(s[i + 1..])
  }

  ghost predicate NoWhiteSpace(s: string) {
    forall k :: 0 <= k < |s| ==> !IsWS(s[k])
  }

  /** `s[i]` is the only `@` in `s`. */
  ghost predicate OnlyAtSignAt(s: string, i: nat) {
    i < |s| && s[i] == '@' && forall k :: 0 <= k < |s| && k != i ==> s[k] != '@'
  }

  /** A `.` lies after position `i + 1` and before the last position. */
  ghost predicate DotInDomain(s: string, i: nat) {
    exists j :: i + 1 < j < |s| - 1 && s[j] == '.'
  }

  /**
   * The same language described by its parts: no white space anywhere,
   * exactly one `@`, a non-empty local part before it, and a `.` after it
   * that is neither the first nor the last character of the domain.
   */
  ghost predicate EmailShape(s: string) {
    NoWhiteSpace(s) && exists i :: 0 < i < |s| && OnlyAtSignAt(s, i) && DotInDomain(s, i)
  }

  lemma DomainMatchesIff(d: string)
    ensures DomainMatches(d) <==>
      (forall k :: 0 <= k < |d| ==> NotSpaceOrAt(d[k])) && exists j :: 0 < j < |d| - 1 && d[j] == '.'
  {
    if DomainMatches(d) {
      var j :| 0 <= j < |d| && d[j] == '.' && Plus(d[..j], NotSpaceOrAt) && Plus(d[j + 1..], NotSpaceOrAt);
      PlusIff(d[..j], NotSpaceOrAt);
      PlusIff(d[j + 1..], NotSpaceOrAt);
      forall k | 0 <= k < |d| ensures NotSpaceOrAt(d[k]) {
        if k < j { assert d[k] == d[..j][k]; }
        else if k > j { assert d[k] == d[j + 1..][k - j - 1]; }
      }
    }
    if (forall k :: 0 <= k < |d| ==> NotSpaceOrAt(d[k])) && exists j :: 0 < j < |d| - 1 && d[j] == '.' {
      var j :| 0 < j < |d| - 1 && d[j] == '.';
      PlusIff(d[..j], NotSpaceOrAt);
      PlusIff(d[j + 1..], NotSpaceOrAt);
      assert forall k :: 0 <= k < j ==> d[..j][k] == d[k];
      assert forall k :: j + 1 <= k < |d| ==> d[j + 1..][k - j - 1] == d[k];
    }
  }

  lemma ShapeOfMatch(s: string)
    requires EmailPatternMatches(s)
    ensures EmailShape(s)
  {
    var i :| 0 <= i < |s| && s[i] == '@' && Plus(s[..i], NotSpaceOrAt) && DomainMatches(s[i + 1..]);
    var d := s[i + 1..];
    PlusIff(s[..i], NotSpaceOrAt);
    DomainMatchesIff(d);
    forall k | 0 <= k < |s| && k != i ensures NotSpaceOrAt(s[k]) {
      if k < i { assert s[k] == s[..i][k]; } else { assert s[k] == d[k - i - 1]; }
    }
    assert NoWhiteSpace(s);
    assert OnlyAtSignAt(s, i);
    var j :| 0 < j < |d| - 1 && d[j] == '.';
    assert s[i + 1 + j] == '.';
    assert DotInDomain(s, i);
  }

  lemma MatchOfShape(s: string)
    requires EmailShape(s)
    ensures EmailPatternMatches(s)
  {
    var i :| 0 < i < |s| && OnlyAtSignAt(s, i) && DotInDomain(s, i);
    var j :| i + 1 < j < |s| - 1 && s[j] == '.';
    var d := s[i + 1..];
    assert forall k :: 0 <= k < |d| ==> d[k] == s[i + 1 + k];
    assert d[j - i - 1] == '.';
    DomainMatchesIff(d);
    PlusIff(s[..i], NotSpaceOrAt);
    assert forall k :: 0 <= k < i ==> s[..i][k] == s[k];
  }

  /** The email pattern accepts exactly the strings of `EmailShape`. */
  lemma EmailPatternIff(s: string)
    ensures EmailPatternMatches(s) <==> EmailShape(s)
  {
    if EmailPatternMatches(s) { ShapeOfMatch(s); }
    if EmailShape(s) { MatchOfShape(s); }
  }

  /** The guard `!email || !pattern.test(email)`, shared by both operations. */
  predicate EmailAccepted(email: string)
    ensures EmailAccepted(email) <==> EmailShape(email)
  {
    EmailPatternIff(email);
    email != "" && EmailPatternMatches(email)
  }

  /**
   * `signUp`: the email guard, then the password-length guard, then the
   * provider. The provider is reached exactly when both guards pass, and a
   * bad email is reported whatever the password is.
   */
  function SignUp(email: string, password: string): (r: AuthOutcome)
    ensures r.ProviderCalled? <==> EmailShape(email) && |password| >= MinPasswordLength
    ensures r.ProviderCalled? ==> r == ProviderCalled(email, password)
    ensures !EmailShape(email) ==> r == Rejected(InvalidEmail)
    ensures EmailShape(email) && |password| < MinPasswordLength ==> r == Rejected(ShortPassword)
  {
    EmailPatternIff(email);
    if !EmailAccepted(email) then Rejected(InvalidEmail)
    else if password == "" || |password| < MinPasswordLength then Rejected(ShortPassword)
    else ProviderCalled(email, password)
  }

  /**
   * `signIn`: the same email guard, but the password is only required to be
   * non-empty.
   */
  function SignIn(email: string, password: string): (r: AuthOutcome)
    ensures r.ProviderCalled? <==> EmailShape(email) && password != ""
    ensures r.ProviderCalled? ==> r == ProviderCalled(email, password)
    ensures !EmailShape(email) ==> r == Rejected(InvalidEmail)
    ensures EmailShape(email) && password == "" ==> r == Rejected(MissingPassword)
  {
    EmailPatternIff(email);
    if !EmailAccepted(email) then Rejected(InvalidEmail)
    else if password == "" then Rejected(MissingPassword)
    else ProviderCalled(email, password)
  }

  /** Every password `signUp` lets through is also accepted by `signIn`, but not conversely. */
  lemma SignUpStricterThanSignIn(email: string, password: string)
    ensures SignUp(email, password).ProviderCalled? ==> SignIn(email, password).ProviderCalled?
    ensures EmailShape(email) ==> SignIn(email, "abc").ProviderCalled? && !SignUp(email, "abc").ProviderCalled?
  {
  }
}
