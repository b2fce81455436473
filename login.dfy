/** The sign-in / sign-up screen's validation: the email shape, the
    password rules, the form-completeness rule, the inline error flags, and
    the checks `handleAuth` makes before it calls the authentication
    service. */
module Login {

  // ---------------------------------------------------------------------
  // Characters

  /** The characters the regular-expression class `\s` matches, which are
      also the ones `String.prototype.trim` strips. */
  predicate IsWhitespace(c: char)
  {
    var u := c as int;
    (0x09 <= u <= 0x0D) || u == 0x20 || u == 0xA0 || u == 0x1680 ||
    (0x2000 <= u <= 0x200A) || u == 0x2028 || u == 0x2029 || u == 0x202F ||
    u == 0x205F || u == 0x3000 || u == 0xFEFF
  }

  /** A character of the class `[^\s@]`. */
  predicate Plain(c: char)
  {
    !IsWhitespace(c) && c != '@'
  }

  predicate AllPlain(s: string)
  {
    forall i :: 0 <= i < |s| ==> Plain(s[i])
  }

  // ---------------------------------------------------------------------
  // Email

  /** `^[^\s@]+@[^\s@]+\.[^\s@]+$`: a non-empty local part, an '@', then a
      non-empty run, a '.', and a non-empty run, none of the three holding
      whitespace or '@'. */
  predicate EmailPatternMatches(e: string)
  {
    exists i, j :: 0 < i && i + 1 < j && j + 1 < |e| && e[i] == '@' && e[j] == '.' &&
      AllPlain(e[..i]) && AllPlain(e[i + 1..j]) && AllPlain(e[j + 1..])
  }

  /** The empty string counts as valid (so that no error shows before the
      user types); otherwise the pattern decides. */
  predicate IsValidEmail(e: string)
  {
    |e| == 0 || EmailPatternMatches(e)
  }

  /** The email shape in plain words: no whitespace, exactly one '@' with at
      least one character before it, and after the '@' a '.' with at least
      one character on each side. */
  predicate EmailShape(e: string)
  {
    (forall i :: 0 <= i < |e| ==> !IsWhitespace(e[i])) &&
    exists k :: 0 < k < |e| && e[k] == '@' &&
      (forall i :: 0 <= i < |e| && i != k ==> e[i] != '@') &&
      (exists j :: k + 1 < j < |e| - 1 && e[j] == '.')
  }

  /** A non-empty email is valid exactly when it has the plain-words
      shape. */
  lemma EmailValidIffShape(e: string)
    requires |e| > 0
    ensures IsValidEmail(e) <==> EmailShape(e)
  {
    if EmailPatternMatches(e) {
      PatternGivesShape(e);
    }
    if EmailShape(e) {
      ShapeGivesPattern(e);
    }
  }

  lemma PatternGivesShape(e: string)
    requires EmailPatternMatches(e)
    ensures EmailShape(e)
  {
    var i, j :| 0 < i && i + 1 < j && j + 1 < |e| && e[i] == '@' && e[j] == '.' &&
      AllPlain(e[..i]) && AllPlain(e[i + 1..j]) && AllPlain(e[j + 1..]);
    var local, domain, tld := e[..i], e[i + 1..j], e[j + 1..];
    forall x | 0 <= x < |e| && x != i && x != j
      ensures Plain(e[x])
    {
      if x < i {
        assert e[x] == local[x];
      } else if x < j {
        assert e[x] == domain[x - i - 1];
      } else {
        assert e[x] == tld[x - j - 1];
      }
    }
    assert forall x :: 0 <= x < |e| && x != i ==> e[x] != '@';
    assert forall x :: 0 <= x < |e| ==> !IsWhitespace(e[x]);
    assert i + 1 < j < |e| - 1 && e[j] == '.';
  }

  lemma ShapeGivesPattern(e: string)
    requires EmailShape(e)
    ensures EmailPatternMatches(e)
  {
    var k :| 0 < k < |e| && e[k] == '@' &&
      (forall i :: 0 <= i < |e| && i != k ==> e[i] != '@') &&
      (exists j :: k + 1 < j < |e| - 1 && e[j] == '.');
    var j :| k + 1 < j < |e| - 1 && e[j] == '.';
    var local, domain, tld := e[..k], e[k + 1..j], e[j + 1..];
    assert AllPlain(local) by {
      forall x | 0 <= x < |local| ensures Plain(local[x]) { assert local[x] == e[x]; }
    }
    assert AllPlain(domain) by {
      forall x | 0 <= x < |domain| ensures Plain(domain[x]) { assert domain[x] == e[x + k + 1]; }
    }
    assert AllPlain(tld) by {
      forall x | 0 <= x < |tld| ensures Plain(tld[x]) { assert tld[x] == e[x + j + 1]; }
    }
  }

  // ---------------------------------------------------------------------
  // Password

  predicate IsUpper(c: char) { 'A' <= c <= 'Z' }
  predicate IsLower(c: char) { 'a' <= c <= 'z' }

  /** One of the characters of `[!@#$%^&*(),.?":{}|<>]`. */
  const SymbolChars := "!@#$%^&*(),.?\":{}|<>"

  predicate IsSymbol(c: char)
  {
    c in SymbolChars
  }

  predicate HasUpperCase(p: string) { exists i :: 0 <= i < |p| && IsUpper(p[i]) }
  predicate HasLowerCase(p: string) { exists i :: 0 <= i < |p| && IsLower(p[i]) }
  predicate HasSymbol(p: string) { exists i :: 0 <= i < |p| && IsSymbol(p[i]) }

  /** `s.length`: JavaScript counts UTF-16 code units, so a character
      outside the Basic Multilingual Plane counts twice. Only the password's
      minimum length depends on this; every other length the screen tests
      is compared with 0, where both counts agree. */
  function Utf16Length(s: string): (n: nat)
    ensures |s| <= n <= 2 * |s|
    ensures (forall i :: 0 <= i < |s| ==> s[i] as int < 0x10000) ==> n == |s|
    ensures |s| == 1 ==> n == if s[0] as int < 0x10000 then 1 else 2
  {
    if |s| == 0 then 0
    else Utf16Length(s[..|s| - 1]) + (if s[|s| - 1] as int < 0x10000 then 1 else 2)
  }

  /** The code units of a concatenation are those of its parts; with the
      count of a single character this fixes `Utf16Length` on every string. */
  lemma {:induction false} Utf16LengthAppend(a: string, b: string)
    ensures Utf16Length(a + b) == Utf16Length(a) + Utf16Length(b)
  {
    if |b| == 0 {
      assert a + b == a;
    } else {
      var ab := a + b;
      assert ab[..|ab| - 1] == a + b[..|b| - 1];
      assert ab[|ab| - 1] == b[|b| - 1];
      Utf16LengthAppend(a, b[..|b| - 1]);
    }
  }

  /** The strength rules; they are waived when signing in. */
  predicate IsPasswordValid(isLogin: bool, p: string)
  {
    isLogin || (HasUpperCase(p) && HasLowerCase(p) && HasSymbol(p) && Utf16Length(p) >= 6)
  }

  /** A strong password is at least six code units long, and no digit is
      needed: "Abcde!" passes although the screen's hint asks for numbers. */
  lemma StrongPasswordNeedsNoDigit()
    ensures forall p :: IsPasswordValid(true, p)
    ensures forall p :: IsPasswordValid(false, p) ==> Utf16Length(p) >= 6
    ensures IsPasswordValid(false, "Abcde!")
    ensures forall i :: 0 <= i < |"Abcde!"| ==> !('0' <= "Abcde!"[i] <= '9')
  {
    var p := "Abcde!";
    assert SymbolChars[0] == p[5];
    assert IsUpper(p[0]) && IsLower(p[1]) && IsSymbol(p[5]);
  }

  /** Five characters can make a strong password: the emoji at the end
      counts as two code units, so the length rule sees six. */
  lemma FiveCharacterStrongPassword()
    ensures |"Aa!b\U{1F600}"| == 5 && IsPasswordValid(false, "Aa!b\U{1F600}")
  {
    var p := "Aa!b\U{1F600}";
    assert p[..4] == "Aa!b" && p[..4][..3] == "Aa!";
    assert Utf16Length(p[..4]) == 4;
    assert Utf16Length(p) == 6;
    assert SymbolChars[0] == p[2];
    assert IsUpper(p[0]) && IsLower(p[1]) && IsSymbol(p[2]);
  }

  // ---------------------------------------------------------------------
  // trim

  /** Whitespace removed from the front: what is left is a suffix, the part
      removed is all whitespace, and what is left does not start with
      whitespace. */
  function TrimStart(s: string): (r: string)
    ensures |r| <= |s| && r == s[|s| - |r|..]
    ensures forall i :: 0 <= i < |s| - |r| ==> IsWhitespace(s[i])
    ensures |r| > 0 ==> !IsWhitespace(r[0])
  {
    if |s| > 0 && IsWhitespace(s[0]) then TrimStart(s[1..]) else s
  }

  /** Whitespace removed from the back: what is left is a prefix, the part
      removed is all whitespace, and what is left does not end with
      whitespace. */
  function TrimEnd(s: string): (r: string)
    ensures |r| <= |s| && r == s[..|r|]
    ensures forall i :: |r| <= i < |s| ==> IsWhitespace(s[i])
    ensures |r| > 0 ==> !IsWhitespace(r[|r| - 1])
  {
    if |s| > 0 && IsWhitespace(s[|s| - 1]) then TrimEnd(s[..|s| - 1]) else s
  }

  /** `s.trim()`: whitespace removed from both ends. */
  function Trim(s: string): string
  {
    TrimEnd(TrimStart(s))
  }

  predicate HasNonWhitespace(s: string)
  {
    exists i :: 0 <= i < |s| && !IsWhitespace(s[i])
  }

  /** Trimming the front removes no character that is not whitespace. */
  lemma TrimStartKeepsContent(s: string)
    ensures HasNonWhitespace(TrimStart(s)) <==> HasNonWhitespace(s)
  {
    var r := TrimStart(s);
    var k := |s| - |r|;
    assert r == s[k..];
    if HasNonWhitespace(s) {
      var i :| 0 <= i < |s| && !IsWhitespace(s[i]);
      assert k <= i;
      assert r[i - k] == s[i];
    }
    if HasNonWhitespace(r) {
      var i :| 0 <= i < |r| && !IsWhitespace(r[i]);
      assert s[i + k] == r[i];
    }
  }

  /** Trimming the back removes no character that is not whitespace. */
  lemma TrimEndKeepsContent(s: string)
    ensures HasNonWhitespace(TrimEnd(s)) <==> HasNonWhitespace(s)
  {
    var r := TrimEnd(s);
    assert r == s[..|r|];
    if HasNonWhitespace(s) {
      var i :| 0 <= i < |s| && !IsWhitespace(s[i]);
      assert r[i] == s[i];
    }
    if HasNonWhitespace(r) {
      var i :| 0 <= i < |r| && !IsWhitespace(r[i]);
      assert s[i] == r[i];
    }
  }

  /** A trimmed name is non-empty exactly when the name holds a character
      that is not whitespace. */
  lemma TrimNonEmpty(s: string)
    ensures |Trim(s)| > 0 <==> HasNonWhitespace(s)
  {
    TrimStartKeepsContent(s);
    TrimEndKeepsContent(TrimStart(s));
    var t := Trim(s);
    if |t| > 0 {
      assert !IsWhitespace(t[|t| - 1]);
    }
  }

  // ---------------------------------------------------------------------
  // The form

  /** What the screen holds: the mode and the four text fields. */
  datatype AuthForm = AuthForm(
    isLogin: bool,
    email: string,
    firstName: string,
    password: string,
    confirmPassword: string)

  /** The email error shows for a non-empty invalid address. */
  predicate ShowEmailError(f: AuthForm)
  {
    |f.email| > 0 && !IsValidEmail(f.email)
  }

  /** The password-rules error shows in sign-up for a non-empty weak password. */
  predicate ShowRulesError(f: AuthForm)
  {
    !f.isLogin && |f.password| > 0 && !IsPasswordValid(f.isLogin, f.password)
  }

  /** The mismatch error shows in sign-up for a non-empty confirmation that
      differs from the password. */
  predicate ShowMatchError(f: AuthForm)
  {
    !f.isLogin && |f.confirmPassword| > 0 && f.password != f.confirmPassword
  }

  /** Sign-in needs a valid email and a password; sign-up also needs a name
      that is not blank, a strong password and a matching confirmation. */
  predicate IsFormValid(f: AuthForm)
  {
    if f.isLogin then
      |f.email| > 0 && IsValidEmail(f.email) && |f.password| > 0
    else
      |Trim(f.firstName)| > 0 && |f.email| > 0 && IsValidEmail(f.email) &&
      IsPasswordValid(f.isLogin, f.password) && f.password == f.confirmPassword
  }

  /** The submit button is enabled only for a valid form with no error
      showing and no request in flight. */
  predicate SubmitEnabled(f: AuthForm, isLoading: bool)
  {
    !(!IsFormValid(f) || isLoading || ShowRulesError(f) || ShowMatchError(f) || ShowEmailError(f))
  }

  /** The sign-in form in plain words. */
  lemma SignInFormValid(f: AuthForm)
    requires f.isLogin
    ensures IsFormValid(f) <==> |f.email| > 0 && EmailShape(f.email) && |f.password| > 0
  {
    if |f.email| > 0 {
      EmailValidIffShape(f.email);
    }
  }

  /** The sign-up form in plain words. */
  lemma SignUpFormValid(f: AuthForm)
    requires !f.isLogin
    ensures IsFormValid(f) <==>
      HasNonWhitespace(f.firstName) && |f.email| > 0 && EmailShape(f.email) &&
      HasUpperCase(f.password) && HasLowerCase(f.password) && HasSymbol(f.password) &&
      Utf16Length(f.password) >= 6 && f.password == f.confirmPassword
  {
    TrimNonEmpty(f.firstName);
    if |f.email| > 0 {
      EmailValidIffShape(f.email);
    }
  }

  /** Any error flag that shows makes the form invalid, and in sign-in mode
      only the email error can show. */
  lemma ErrorFlagsInvalidateForm(f: AuthForm)
    ensures ShowEmailError(f) || ShowRulesError(f) || ShowMatchError(f) ==> !IsFormValid(f)
    ensures f.isLogin ==> !ShowRulesError(f) && !ShowMatchError(f)
  {
  }

  // ---------------------------------------------------------------------
  // handleAuth

  datatype Rejection = MissingFields | PasswordsDiffer | WeakPassword

  /** Where `handleAuth` ends: an alert for a failed check, or a call to the
      authentication service (sign-in, or sign-up under the trimmed name). */
  datatype AuthStep =
    | Alert(reason: Rejection)
    | SignIn(email: string, password: string)
    | SignUp(email: string, password: string, displayName: string)

  /** The checks before any call: both fields filled; then, in sign-up, the
      confirmation before the strength rules. */
  function HandleAuth(f: AuthForm): (r: AuthStep)
    ensures r.Alert? <==>
      |f.email| == 0 || |f.password| == 0 ||
      (!f.isLogin && (f.password != f.confirmPassword || !IsPasswordValid(false, f.password)))
    ensures r.SignIn? ==> f.isLogin && r.email == f.email && r.password == f.password
    ensures r.SignUp? ==>
      !f.isLogin && r.email == f.email && r.password == f.password && r.displayName == Trim(f.firstName)
  {
    if |f.email| == 0 || |f.password| == 0 then Alert(MissingFields)
    else if !f.isLogin && f.password != f.confirmPassword then Alert(PasswordsDiffer)
    else if !f.isLogin && !IsPasswordValid(f.isLogin, f.password) then Alert(WeakPassword)
    else if f.isLogin then SignIn(f.email, f.password)
    else SignUp(f.email, f.password, Trim(f.firstName))
  }

  /** Empty fields are reported first; in sign-up a mismatch is reported
      even when the password is also weak, and a matching but weak password
      is reported as weak. */
  lemma HandleAuthOrder(f: AuthForm)
    ensures |f.email| == 0 || |f.password| == 0 ==> HandleAuth(f) == Alert(MissingFields)
    ensures |f.email| > 0 && |f.password| > 0 && !f.isLogin && f.password != f.confirmPassword ==>
      HandleAuth(f) == Alert(PasswordsDiffer)
    ensures (|f.email| > 0 && |f.password| > 0 && !f.isLogin && f.password == f.confirmPassword &&
             !IsPasswordValid(false, f.password)) ==> HandleAuth(f) == Alert(WeakPassword)
  {
  }

  /** Pressing an enabled submit button always reaches the authentication
      service: the button's rule is stricter than the checks in
      `handleAuth`. */
  lemma EnabledSubmitReachesAuth(f: AuthForm, isLoading: bool)
    requires SubmitEnabled(f, isLoading)
    ensures !HandleAuth(f).Alert?
    ensures HandleAuth(f).SignUp? ==> |HandleAuth(f).displayName| > 0
  {
  }
}
