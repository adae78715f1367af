/** The pure part of the sign-up form validator of `UserViewModel`:
    the username classifier, the password-pair classifier with its
    strength pattern, and the inline message attached to each status.
    Strings are sequences of characters; a Swift `count` (grapheme
    clusters) is modelled as the sequence length. */
module Validation {

  /** `isUsernameValid` in the source. */
  datatype UsernameStatus = IsEmpty | TooShort | Valid

  /** `PasswordStatus` in the source. */
  datatype PasswordStatus = Empty | NotStrongEnough | RepeatedPasswordWrong | Valid

  /** The form's user record; two users are equal when their names are. */
  datatype User = User(name: string)

  // ---------------------------------------------------------------------
  // Username classifier
  // ---------------------------------------------------------------------

  /** The classifier closure of the username publisher. The name is
      taken as typed: no trimming, so blanks count as characters. */
  function ClassifyUsername(u: User): (s: UsernameStatus)
    ensures s == IsEmpty <==> |u.name| == 0
    ensures s == TooShort <==> 1 <= |u.name| <= 3
    ensures s == UsernameStatus.Valid <==> |u.name| > 3
  {
    if u.name == [] then IsEmpty
    else if |u.name| <= 3 then TooShort
    else UsernameStatus.Valid
  }

  lemma UsernameExamples()
    ensures ClassifyUsername(User("")) == IsEmpty
    ensures ClassifyUsername(User("ab")) == TooShort
    ensures ClassifyUsername(User("abcd")) == UsernameStatus.Valid
    ensures ClassifyUsername(User("    ")) == UsernameStatus.Valid
  {
  }

  // ---------------------------------------------------------------------
  // Password strength pattern
  // ---------------------------------------------------------------------

  /** The two character classes the strength pattern looks ahead for:
      `[a-z]` and `[$@$#!%*?&]`. The class lists `$` twice, which
      changes nothing: the set is `$ @ # ! % * ? &`. */
  datatype CharClass = LowerAToZ | Special

  predicate InClass(k: CharClass, c: char)
  {
    match k
    case LowerAToZ => 'a' <= c <= 'z'
    case Special => c in "$@#!%*?&"
  }

  /** A lookahead `(?=.*[class])`: some character of `p` is in class `k`,
      found by scanning `p` from the front. */
  function Contains(p: string, k: CharClass): (r: bool)
    ensures r <==> exists i :: 0 <= i < |p| && InClass(k, p[i])
    decreases |p|
  {
    if p == [] then false
    else if InClass(k, p[0]) then true
    else
      var rest := Contains(p[1..], k);
      assert forall i :: 1 <= i < |p| ==> p[i] == p[1..][i - 1];
      rest
  }

  /** The strength pattern `^(?=.*[a-z])(?=.*[$@$#!%*?&]).{6,}$` on a
      single-line input: a lowercase letter, a special character and
      at least six characters. */
  function IsStrong(p: string): (r: bool)
    ensures r <==> |p| >= 6
                   && (exists i :: 0 <= i < |p| && 'a' <= p[i] <= 'z')
                   && (exists j :: 0 <= j < |p| && p[j] in "$@#!%*?&")
  {
    var lower := Contains(p, LowerAToZ);
    var special := Contains(p, Special);
    assert lower ==> exists i :: 0 <= i < |p| && 'a' <= p[i] <= 'z';
    assert special ==> exists j :: 0 <= j < |p| && p[j] in "$@#!%*?&";
    lower && special && |p| >= 6
  }

  // ---------------------------------------------------------------------
  // Password-pair classifier
  // ---------------------------------------------------------------------

  /** The classifier closure of the password publisher: four checks
      taken in order, the first that fires decides. The strength test
      is written twice in the source joined by `&&`; `!b && !b` is `!b`,
      so it appears once here. */
  function ClassifyPasswords(p: string, p2: string): (s: PasswordStatus)
    ensures s == Empty <==> p == [] && p2 == []
    ensures s == RepeatedPasswordWrong <==> |p| > 6 && p != p2
    ensures s == PasswordStatus.Valid <==>
              p == p2 && |p| >= 7
              && (exists i :: 0 <= i < |p| && 'a' <= p[i] <= 'z')
              && (exists j :: 0 <= j < |p| && p[j] in "$@#!%*?&")
    ensures s == NotStrongEnough <==>
              (p != [] || p2 != [])
              && (|p| <= 6 || (p == p2 && !IsStrong(p)))
  {
    if p == [] && p2 == [] then Empty
    else if |p| <= 6 then NotStrongEnough
    else if p != p2 then RepeatedPasswordWrong
    else if !IsStrong(p) then NotStrongEnough
    else PasswordStatus.Valid
  }

  /** For unequal passwords the strength pattern is never consulted:
      the status depends only on the first password's length. */
  lemma UnequalPasswordsIgnoreStrength(p: string, q: string, p2: string)
    requires p != p2 && q != p2 && |p| == |q|
    ensures ClassifyPasswords(p, p2) == ClassifyPasswords(q, p2)
    ensures ClassifyPasswords(p, p2) in {NotStrongEnough, RepeatedPasswordWrong}
  {
  }

  /** Once the length check has passed, the pattern's own `{6,}` bound
      adds nothing. */
  lemma StrengthLengthBoundRedundant(p: string)
    requires |p| > 6
    ensures IsStrong(p) <==> Contains(p, LowerAToZ) && Contains(p, Special)
  {
  }

  lemma PasswordExamples()
    ensures ClassifyPasswords("", "") == Empty
    ensures ClassifyPasswords("", "x") == NotStrongEnough
    ensures ClassifyPasswords("abc123", "zzz") == NotStrongEnough
    ensures ClassifyPasswords("abc123", "abc123") == NotStrongEnough
    ensures ClassifyPasswords("abc123!", "abc124!") == RepeatedPasswordWrong
    ensures ClassifyPasswords("abcdefg", "abcdefg") == NotStrongEnough
    ensures ClassifyPasswords("abc123!", "abc123!") == PasswordStatus.Valid
  {
    // witnesses for the character-class lookaheads
    assert "abcdefg"[0] == 'a';
    assert "abc123!"[0] == 'a' && "abc123!"[6] == '!';
  }

  // ---------------------------------------------------------------------
  // Inline messages
  // ---------------------------------------------------------------------

  /** The text shown under the username field for a delivered status. */
  function UsernameMessage(s: UsernameStatus): (msg: string)
    ensures msg != ""
  {
    match s
    case IsEmpty => "Username can not be empty"
    case Valid => "username is valid"
    case TooShort => "username is too Short"
  }

  /** The text shown under the password fields for a delivered status. */
  function PasswordMessage(s: PasswordStatus): (msg: string)
    ensures msg != ""
  {
    match s
    case Empty => "Password can not be empty"
    case NotStrongEnough => "Password is not strong enough"
    case RepeatedPasswordWrong => "Passwords are not matched!"
    case Valid => "Password is valid"
  }

  /** Each message names exactly one status, so the text on screen
      determines the status that produced it. */
  lemma MessagesDetermineStatus(s: UsernameStatus, t: UsernameStatus, a: PasswordStatus, b: PasswordStatus)
    ensures UsernameMessage(s) == UsernameMessage(t) ==> s == t
    ensures PasswordMessage(a) == PasswordMessage(b) ==> a == b
  {
  }
}
