/**
 * The registration form (frontend/app/components/RegisterForm.js): the
 * four-criterion password-strength score, the colour band of the strength
 * bar, and the form's state cells with the handlers that update them.
 */
module RegisterForm {

  // ---------------------------------------------------------------------------
  // Character classes of the four regular expressions
  // ---------------------------------------------------------------------------

  /** `[a-z]` */
  predicate IsLower(c: char) { 'a' <= c <= 'z' }

  /** `[A-Z]` */
  predicate IsUpper(c: char) { 'A' <= c <= 'Z' }

  /** `\d` (without the `u` flag JavaScript's `\d` is the ASCII digits only) */
  predicate IsDigit(c: char) { '0' <= c <= '9' }

  /** `[^a-zA-Z\d]` */
  predicate IsSpecial(c: char) { !IsLower(c) && !IsUpper(c) && !IsDigit(c) }

  /** `s.match(/[class]/)` is truthy: some character of `s` is in the class. */
  predicate Matches(s: string, inClass: char -> bool)
  {
    exists i :: 0 <= i < |s| && inClass(s[i])
  }

  // ---------------------------------------------------------------------------
  // JavaScript string length
  // ---------------------------------------------------------------------------

  /** UTF-16 code units of one character: two for a character beyond U+FFFF. */
  function CodeUnits(c: char): nat
  {
    if c as int >= 0x1_0000 then 2 else 1
  }

  /** `s.length` in JavaScript, which counts UTF-16 code units. */
  function Utf16Length(s: string): (n: nat)
    ensures |s| <= n <= 2 * |s|
  {
    if s == [] then 0 else CodeUnits(s[0]) + Utf16Length(s[1..])
  }

  /** The length of a concatenation is the sum of the lengths. */
  lemma {:induction false} Utf16LengthAppend(p: string, q: string)
    ensures Utf16Length(p + q) == Utf16Length(p) + Utf16Length(q)
  {
    if p != [] {
      assert (p + q)[1..] == p[1..] + q;
      Utf16LengthAppend(p[1..], q);
    } else {
      assert p + q == q;
    }
  }

  // ---------------------------------------------------------------------------
  // The four criteria and the score
  // ---------------------------------------------------------------------------

  datatype Criterion = Length | MixedCase | Digit | Special

  /** Whether password `p` meets criterion `c`. */
  predicate Meets(p: string, c: Criterion)
  {
    match c
    case Length => Utf16Length(p) >= 8
    case MixedCase => Matches(p, IsLower) && Matches(p, IsUpper)
    case Digit => Matches(p, IsDigit)
    case Special => Matches(p, IsSpecial)
  }

  function Points(met: bool): nat { if met then 25 else 0 }

  /**
   * The score `calculatePasswordStrength` returns: 25 points for each
   * criterion met.
   */
  function Strength(p: string): (score: nat)
    ensures score in {0, 25, 50, 75, 100}
  {
    Points(Meets(p, Length)) + Points(Meets(p, MixedCase))
      + Points(Meets(p, Digit)) + Points(Meets(p, Special))
  }

  /** `calculatePasswordStrength`: an accumulator raised by 25 per criterion. */
  method CalculatePasswordStrength(password: string) returns (strength: nat)
    ensures strength == Strength(password)
    ensures 0 <= strength <= 100 && strength % 25 == 0
    ensures strength == 100 <==> forall c :: Meets(password, c)
    ensures strength == 0 <==> forall c :: !Meets(password, c)
  {
    strength := 0;
    if Utf16Length(password) >= 8 {
      strength := strength + 25;
    }
    if Matches(password, IsLower) && Matches(password, IsUpper) {
      strength := strength + 25;
    }
    if Matches(password, IsDigit) {
      strength := strength + 25;
    }
    if Matches(password, IsSpecial) {
      strength := strength + 25;
    }
  }

  /** The empty password scores 0. */
  lemma EmptyScoresZero()
    ensures Strength("") == 0
  {
  }

  /**
   * Each criterion adds exactly 25 points, whatever the others: two passwords
   * that agree on every criterion but `k`, where only `p` meets `k`, are 25
   * points apart.
   */
  lemma CriterionAddsExactly25(p: string, q: string, k: Criterion)
    requires forall c :: c != k ==> (Meets(p, c) <==> Meets(q, c))
    requires Meets(p, k) && !Meets(q, k)
    ensures Strength(p) == Strength(q) + 25
  {
  }

  /** A character found in `p` is still found in `p + q`. */
  lemma MatchesExtends(p: string, q: string, inClass: char -> bool)
    requires Matches(p, inClass)
    ensures Matches(p + q, inClass)
  {
    var i :| 0 <= i < |p| && inClass(p[i]);
    assert (p + q)[i] == p[i];
  }

  /** Every criterion is kept when characters are appended. */
  lemma MeetsExtends(p: string, q: string, c: Criterion)
    requires Meets(p, c)
    ensures Meets(p + q, c)
  {
    match c
    case Length =>
      Utf16LengthAppend(p, q);
    case MixedCase =>
      MatchesExtends(p, q, IsLower);
      MatchesExtends(p, q, IsUpper);
    case Digit =>
      MatchesExtends(p, q, IsDigit);
    case Special =>
      MatchesExtends(p, q, IsSpecial);
  }

  /** Appending characters to a password never lowers its score. */
  lemma AppendNeverLowers(p: string, q: string)
    ensures Strength(p) <= Strength(p + q)
  {
    if Meets(p, Length) { MeetsExtends(p, q, Length); }
    if Meets(p, MixedCase) { MeetsExtends(p, q, MixedCase); }
    if Meets(p, Digit) { MeetsExtends(p, q, Digit); }
    if Meets(p, Special) { MeetsExtends(p, q, Special); }
  }

  // ---------------------------------------------------------------------------
  // Colour band of the strength bar
  // ---------------------------------------------------------------------------

  /** The `backgroundColor` of the bar in `renderPasswordStrength`. */
  function StrengthColour(strength: int): (colour: string)
    ensures colour == "red" <==> strength < 50
    ensures colour == "orange" <==> 50 <= strength < 75
    ensures colour == "green" <==> 75 <= strength
  {
    if strength < 50 then "red"
    else if strength < 75 then "orange"
    else "green"
  }

  /** Position of a colour on the red-orange-green scale. */
  function ColourRank(colour: string): nat
  {
    if colour == "red" then 0 else if colour == "orange" then 1 else 2
  }

  /** A stronger password never shows a worse colour. */
  lemma ColourMonotone(a: int, b: int)
    requires a <= b
    ensures ColourRank(StrengthColour(a)) <= ColourRank(StrengthColour(b))
  {
  }

  /** The colour of each score the password can get. */
  lemma ColourOfEachScore(p: string)
    ensures StrengthColour(Strength(p)) == "green" <==> Strength(p) in {75, 100}
    ensures StrengthColour(Strength(p)) == "orange" <==> Strength(p) == 50
    ensures StrengthColour(Strength(p)) == "red" <==> Strength(p) in {0, 25}
  {
  }

  // ---------------------------------------------------------------------------
  // The form's state cells and handlers
  // ---------------------------------------------------------------------------

  /** The body `handleSubmit` posts to `/register`. */
  datatype RegisterRequest = RegisterRequest(username: string, password: string)

  class FormState {
    var username: string
    var email: string
    var password: string
    var confirmPassword: string
    var passwordStrength: nat

    /** The `useState` initial values. */
    constructor ()
      ensures username == "" && email == "" && password == ""
      ensures confirmPassword == "" && passwordStrength == 0
    {
      username, email, password := "", "", "";
      confirmPassword, passwordStrength := "", 0;
    }

    /** The displayed strength is that of the displayed password. */
    ghost predicate StrengthShown()
      reads this
    {
      passwordStrength == Strength(password)
    }

    /** The username input's `onChange`. */
    method SetUserName(value: string)
      modifies this
      ensures username == value
      ensures password == old(password) && confirmPassword == old(confirmPassword)
      ensures email == old(email) && passwordStrength == old(passwordStrength)
    {
      username := value;
    }

    /** The confirm-password input's `onChange`. */
    method SetConfirmPassword(value: string)
      modifies this
      ensures confirmPassword == value
      ensures username == old(username) && password == old(password)
      ensures email == old(email) && passwordStrength == old(passwordStrength)
    {
      confirmPassword := value;
    }

    /**
     * `handleInputChange` as written: the closure reads `password` from the
     * render that created it, so the strength is computed from the value
     * before this edit while the new value is stored.
     */
    method HandleInputChange(value: string)
      modifies this
      ensures password == value
      ensures passwordStrength == Strength(old(password))
      ensures username == old(username) && confirmPassword == old(confirmPassword)
      ensures email == old(email)
    {
      var previous := password;
      password := value;
      passwordStrength := CalculatePasswordStrength(previous);
    }

    /** `handleInputChange` scoring the value just typed, as evidently intended. */
    method HandleInputChangeFixed(value: string)
      modifies this
      ensures StrengthShown()
      ensures password == value
      ensures username == old(username) && confirmPassword == old(confirmPassword)
      ensures email == old(email)
    {
      password := value;
      passwordStrength := CalculatePasswordStrength(value);
    }

    /**
     * The request `handleSubmit` sends and whether it then navigates to the
     * dashboard, given the HTTP status of the response. Neither the strength
     * nor the confirmation is consulted.
     */
    method HandleSubmit(status: int) returns (body: RegisterRequest, toDashboard: bool)
      ensures body == RegisterRequest(username, password)
      ensures toDashboard <==> status == 200
    {
      body := RegisterRequest(username, password);
      toDashboard := status == 200;
    }
  }

  /**
   * The lag is visible: pasting "Secret1!" into the empty field shows a
   * strength of 0 (that of "") although the field now scores 100.
   */
  lemma StrengthLagsOneEdit()
    ensures Strength("") == 0 && Strength("Secret1!") == 100
  {
    var p := "Secret1!";
    assert Utf16Length(p) == 8;
    assert IsLower(p[1]) && IsUpper(p[0]) && IsDigit(p[6]) && IsSpecial(p[7]);
  }

  /**
   * The lag through the handler itself: a fresh form that receives
   * "Secret1!" in one change shows 0 while the field scores 100.
   */
  method PasteShowsStaleStrength() returns (shown: nat, actual: nat)
    ensures shown == 0 && actual == 100
  {
    var form := new FormState();
    form.HandleInputChange("Secret1!");
    StrengthLagsOneEdit();
    assert !form.StrengthShown();
    shown, actual := form.passwordStrength, Strength(form.password);
  }

  /**
   * Length is counted in UTF-16 code units: four characters beyond U+FFFF
   * are 8 units long, and with no letter or digit they score 50.
   */
  lemma FourAstralCharactersScore50()
    ensures Strength("\U{1F600}\U{1F600}\U{1F600}\U{1F600}") == 50
  {
    var p := "\U{1F600}\U{1F600}\U{1F600}\U{1F600}";
    assert Utf16Length(p) == 8;
    assert IsSpecial(p[0]);
    assert !Matches(p, IsLower) && !Matches(p, IsDigit);
  }
}
