/** The signup page's submit handler: two password checks, then `signup`, then navigation by role. */
module SignupForm {
  import Auth

  const MinPasswordLength: nat := 6
  const FallbackError := "An error occurred during signup"

  /** The positions of the characters outside the Basic Multilingual Plane. */
  function AstralPositions(s: string): set<nat> {
    set i: nat | i < |s| && s[i] as int > 0xFFFF
  }

  lemma AstralPositionsStep(s: string)
    requires s != []
    ensures |AstralPositions(s)| == |AstralPositions(s[..|s| - 1])| + (if s[|s| - 1] as int > 0xFFFF then 1 else 0)
  {
    var last := |s| - 1;
    var prefix := AstralPositions(s[..last]);
    if s[last] as int > 0xFFFF {
      assert AstralPositions(s) == prefix + {last};
    } else {
      assert AstralPositions(s) == prefix;
    }
  }

  /**
   * JavaScript's `length`: one UTF-16 code unit per character, plus one more
   * for each character outside the Basic Multilingual Plane (a surrogate pair).
   */
  function Utf16Length(s: string): (n: nat)
    ensures n == |s| + |AstralPositions(s)|
    ensures (forall i :: 0 <= i < |s| ==> s[i] as int <= 0xFFFF) ==> n == |s|
    ensures |s| <= n <= 2 * |s|
  {
    if s == [] then 0
    else
      AstralPositionsStep(s);
      Utf16Length(s[..|s| - 1]) + (if s[|s| - 1] as int > 0xFFFF then 2 else 1)
  }

  datatype Outcome =
    | PasswordsDontMatch
    | PasswordTooShort
    | SignupFailed(error: string)
    | SignedUp(target: string)

  function TargetFor(role: string): string {
    if role == "admin" then "/admin" else "/dashboard"
  }

  /**
   * `handleSubmit`: a mismatch is reported first, then a short password;
   * only when both checks pass is `signup` called.
   */
  function HandleSubmit(st: Auth.AuthState, email: string, password: string, confirm: string, role: string,
                        id: string, now: int): (result: (Auth.AuthState, Outcome))
    ensures password != confirm ==> result == (st, PasswordsDontMatch)
    ensures password == confirm && Utf16Length(password) < MinPasswordLength ==> result == (st, PasswordTooShort)
    ensures result.1.SignupFailed? || result.1.SignedUp? <==>
      password == confirm && Utf16Length(password) >= MinPasswordLength
    ensures result.1.SignupFailed? || result.1.SignedUp? ==>
      result.0 == Auth.Signup(st, email, password, role, id, now).0
    ensures result.1.SignedUp? <==>
      password == confirm && Utf16Length(password) >= MinPasswordLength
      && Auth.Signup(st, email, password, role, id, now).1.Ok?
    ensures result.1.SignedUp? ==> (result.1.target == "/admin" <==> role == "admin")
    ensures result.1.SignedUp? ==> (result.1.target == "/dashboard" <==> role != "admin")
  {
    if password != confirm then (st, PasswordsDontMatch)
    else if Utf16Length(password) < MinPasswordLength then (st, PasswordTooShort)
    else
      var (after, r) := Auth.Signup(st, email, password, role, id, now);
      match r
      case Ok => (after, SignedUp(TargetFor(role)))
      case Err(message) => (after, SignupFailed(if message != "" then message else FallbackError))
  }

  /**
   * For a password made only of Basic Multilingual Plane characters, the
   * length check rejects it exactly when it has fewer than six characters.
   */
  lemma BmpPasswordLengthCheck(st: Auth.AuthState, email: string, password: string, role: string, id: string, now: int)
    requires forall i :: 0 <= i < |password| ==> password[i] as int <= 0xFFFF
    ensures HandleSubmit(st, email, password, password, role, id, now).1 == PasswordTooShort <==> |password| < 6
  {
  }

  /** A password with a character outside the plane counts it twice: five characters can pass. */
  lemma AstralCharacterCountsTwice(st: Auth.AuthState, email: string, role: string, id: string, now: int)
    ensures HandleSubmit(st, email, "abcd\U{1F600}", "abcd\U{1F600}", role, id, now).1 != PasswordTooShort
  {
    var p := "abcd\U{1F600}";
    assert p[..4] == "abcd";
    assert Utf16Length(p[..4]) == 4;
  }
}
