/**
 * The request validators for registration and login. Every rule of a
 * property runs, so one bad value can produce several failures; they come
 * out property by property, rule by rule. The email-format check lives in a
 * library and is a parameter here.
 */
module Validators {
  import opened Text

  datatype ValidationFailure = ValidationFailure(propertyName: string, errorMessage: string)

  const UsernameRequired: string := "使用者名稱為必填"
  const UsernameLength: string := "使用者名稱長度必須在 3 到 50 字元之間"
  const UsernameChars: string := "使用者名稱只能包含字母、數字和底線"
  const EmailRequired: string := "電子郵件為必填"
  const EmailFormat: string := "電子郵件格式不正確"
  const EmailTooLong: string := "電子郵件長度不能超過 256 個字元"
  const PasswordRequired: string := "密碼為必填"
  const PasswordTooShort: string := "密碼長度至少 8 字元"
  const PasswordNeedsLower: string := "密碼必須包含小寫字母"
  const PasswordNeedsUpper: string := "密碼必須包含大寫字母"
  const PasswordNeedsDigit: string := "密碼必須包含數字"
  const LoginPasswordTooShort: string := "密碼長度至少 6 個字元"

  /** `NotEmpty` on a string: not null, not empty and not all whitespace. */
  predicate NotEmpty(s: string) {
    !IsBlank(s)
  }

  predicate IsWordChar(c: char) {
    IsUpperAscii(c) || IsLowerAscii(c) || IsDigitAscii(c) || c == '_'
  }

  /** `^[a-zA-Z0-9_]+$` as evidently intended: one or more word characters and nothing else. */
  predicate UsernamePattern(s: string) {
    |s| > 0 && forall i :: 0 <= i < |s| ==> IsWordChar(s[i])
  }

  /**
   * The same pattern as the .NET engine reads it: without the multiline
   * option `$` also matches just before a line feed that ends the string, so
   * one trailing line feed slips through.
   */
  predicate UsernamePatternAsWritten(s: string) {
    UsernamePattern(s) || (|s| > 0 && s[|s| - 1] == '\n' && UsernamePattern(s[..|s| - 1]))
  }

  predicate HasLower(s: string) { exists i :: 0 <= i < |s| && IsLowerAscii(s[i]) }
  predicate HasUpper(s: string) { exists i :: 0 <= i < |s| && IsUpperAscii(s[i]) }
  predicate HasDigit(s: string) { exists i :: 0 <= i < |s| && IsDigitAscii(s[i]) }

  /** A failure for `prop` with message `msg` when `ok` does not hold. */
  function Check(ok: bool, prop: string, msg: string): (r: seq<ValidationFailure>)
    ensures ok <==> r == []
    ensures !ok ==> r == [ValidationFailure(prop, msg)]
  {
    if ok then [] else [ValidationFailure(prop, msg)]
  }

  // ---- Registration ----

  predicate UsernameLengthOk(u: string) {
    3 <= Utf16Length(u) <= 50
  }

  /** The username rules, with the character-class check given as `pattern`. */
  function UsernameErrorsWith(u: string, pattern: string -> bool): (r: seq<ValidationFailure>)
    ensures r == [] <==> NotEmpty(u) && UsernameLengthOk(u) && pattern(u)
    ensures ValidationFailure("Username", UsernameRequired) in r <==> !NotEmpty(u)
    ensures ValidationFailure("Username", UsernameLength) in r <==> !UsernameLengthOk(u)
    ensures ValidationFailure("Username", UsernameChars) in r <==> !pattern(u)
    ensures forall f :: f in r ==> f.propertyName == "Username"
  {
    Check(NotEmpty(u), "Username", UsernameRequired)
    + Check(UsernameLengthOk(u), "Username", UsernameLength)
    + Check(pattern(u), "Username", UsernameChars)
  }

  function EmailErrors(e: string, isEmail: string -> bool): (r: seq<ValidationFailure>)
    ensures r == [] <==> NotEmpty(e) && isEmail(e)
    ensures ValidationFailure("Email", EmailRequired) in r <==> !NotEmpty(e)
    ensures ValidationFailure("Email", EmailFormat) in r <==> !isEmail(e)
    ensures forall f :: f in r ==> f.propertyName == "Email"
  {
    Check(NotEmpty(e), "Email", EmailRequired) + Check(isEmail(e), "Email", EmailFormat)
  }

  /** The presence and length rules of the password. */
  function PasswordPresenceErrors(p: string): (r: seq<ValidationFailure>)
    ensures r == [] <==> NotEmpty(p) && Utf16Length(p) >= 8
    ensures ValidationFailure("Password", PasswordRequired) in r <==> !NotEmpty(p)
    ensures ValidationFailure("Password", PasswordTooShort) in r <==> Utf16Length(p) < 8
    ensures forall f :: f in r ==> f.propertyName == "Password"
    ensures forall f :: f in r ==> f.errorMessage == PasswordRequired || f.errorMessage == PasswordTooShort
  {
    Check(NotEmpty(p), "Password", PasswordRequired) + Check(Utf16Length(p) >= 8, "Password", PasswordTooShort)
  }

  /** The character-class rules of the password: a lower-case letter, an upper-case letter, a digit. */
  function PasswordClassErrors(p: string): (r: seq<ValidationFailure>)
    ensures r == [] <==> HasLower(p) && HasUpper(p) && HasDigit(p)
    ensures ValidationFailure("Password", PasswordNeedsLower) in r <==> !HasLower(p)
    ensures ValidationFailure("Password", PasswordNeedsUpper) in r <==> !HasUpper(p)
    ensures ValidationFailure("Password", PasswordNeedsDigit) in r <==> !HasDigit(p)
    ensures forall f :: f in r ==> f.propertyName == "Password"
    ensures forall f :: f in r ==> f.errorMessage in {PasswordNeedsLower, PasswordNeedsUpper, PasswordNeedsDigit}
  {
    Check(HasLower(p), "Password", PasswordNeedsLower)
    + Check(HasUpper(p), "Password", PasswordNeedsUpper)
    + Check(HasDigit(p), "Password", PasswordNeedsDigit)
  }

  /** No presence message is a character-class message. */
  lemma PasswordMessageKinds()
    ensures PasswordRequired != PasswordNeedsLower && PasswordRequired != PasswordNeedsUpper
    ensures PasswordRequired != PasswordNeedsDigit && PasswordTooShort != PasswordNeedsLower
    ensures PasswordTooShort != PasswordNeedsUpper && PasswordTooShort != PasswordNeedsDigit
  {
    assert PasswordRequired[2] != PasswordNeedsLower[2] && PasswordTooShort[2] != PasswordNeedsLower[2];
    assert PasswordNeedsLower[2] == PasswordNeedsUpper[2] == PasswordNeedsDigit[2];
  }

  function PasswordErrors(p: string): (r: seq<ValidationFailure>)
    ensures r == [] <==> NotEmpty(p) && Utf16Length(p) >= 8 && HasLower(p) && HasUpper(p) && HasDigit(p)
    ensures ValidationFailure("Password", PasswordRequired) in r <==> !NotEmpty(p)
    ensures ValidationFailure("Password", PasswordTooShort) in r <==> Utf16Length(p) < 8
    ensures ValidationFailure("Password", PasswordNeedsLower) in r <==> !HasLower(p)
    ensures ValidationFailure("Password", PasswordNeedsUpper) in r <==> !HasUpper(p)
    ensures ValidationFailure("Password", PasswordNeedsDigit) in r <==> !HasDigit(p)
    ensures forall f :: f in r ==> f.propertyName == "Password"
  {
    PasswordMessageKinds();
    PasswordPresenceErrors(p) + PasswordClassErrors(p)
  }

  /** The registration rules as one statement of what a valid request is. */
  predicate ValidCreate(username: string, email: string, password: string, isEmail: string -> bool) {
    && NotEmpty(username) && 3 <= Utf16Length(username) <= 50 && UsernamePattern(username)
    && NotEmpty(email) && isEmail(email)
    && NotEmpty(password) && Utf16Length(password) >= 8 && HasLower(password) && HasUpper(password) && HasDigit(password)
  }

  /** `CreateUserDtoValidator`: all failures, username first, then email, then password. */
  function ValidateCreate(username: string, email: string, password: string, isEmail: string -> bool)
    : (r: seq<ValidationFailure>)
    ensures r == [] <==> ValidCreate(username, email, password, isEmail)
  {
    UsernameErrorsWith(username, UsernamePattern) + EmailErrors(email, isEmail) + PasswordErrors(password)
  }

  /** The registration validator with the username pattern as the regex engine reads it. */
  function ValidateCreateAsWritten(username: string, email: string, password: string, isEmail: string -> bool)
    : (r: seq<ValidationFailure>)
    ensures r == [] <==>
      && NotEmpty(username) && UsernameLengthOk(username) && UsernamePatternAsWritten(username)
      && NotEmpty(email) && isEmail(email) && PasswordErrors(password) == []
  {
    UsernameErrorsWith(username, UsernamePatternAsWritten) + EmailErrors(email, isEmail) + PasswordErrors(password)
  }

  /** "abc\n" meets every username rule except the intended pattern. */
  lemma LineFeedUsername()
    ensures var u := "abc\n";
      NotEmpty(u) && UsernameLengthOk(u) && UsernamePatternAsWritten(u) && !UsernamePattern(u)
  {
    var u := "abc\n";
    assert u[..|u| - 1] == "abc";
    assert !IsWhiteSpace(u[0]);
    assert !IsWordChar(u[3]);
    Utf16LengthOfBmp(u);
  }

  /** "Passw0rd" meets every password rule of registration. */
  lemma SamplePasswordAccepted()
    ensures PasswordErrors("Passw0rd") == []
  {
    var p := "Passw0rd";
    assert !IsWhiteSpace(p[0]) && IsLowerAscii(p[1]) && IsUpperAscii(p[0]) && IsDigitAscii(p[5]);
    Utf16LengthOfBmp(p);
  }

  /**
   * A username ending in a line feed passes the pattern as written, and with
   * it the whole registration, while the intended pattern refuses it.
   */
  lemma TrailingLineFeedSlipsThrough(isEmail: string -> bool)
    requires isEmail("a@b.io")
    ensures ValidateCreateAsWritten("abc\n", "a@b.io", "Passw0rd", isEmail) == []
    ensures ValidateCreate("abc\n", "a@b.io", "Passw0rd", isEmail)
         == [ValidationFailure("Username", UsernameChars)]
  {
    LineFeedUsername();
    SamplePasswordAccepted();
    assert EmailErrors("a@b.io", isEmail) == [] by {
      assert !IsWhiteSpace("a@b.io"[0]);
    }
    assert UsernameErrorsWith("abc\n", UsernamePattern) == [ValidationFailure("Username", UsernameChars)];
  }

  /** The intended pattern is the written one minus the trailing line feed. */
  lemma UsernamePatternCorrected(s: string)
    ensures UsernamePattern(s) ==> UsernamePatternAsWritten(s)
    ensures UsernamePatternAsWritten(s) && !UsernamePattern(s) ==> s[|s| - 1] == '\n'
    ensures UsernamePattern(s) ==> forall i :: 0 <= i < |s| ==> s[i] != '\n'
  {
  }

  // ---- Login ----

  function LoginEmailErrors(e: string, isEmail: string -> bool): (r: seq<ValidationFailure>)
    ensures r == [] <==> NotEmpty(e) && isEmail(e) && Utf16Length(e) <= 256
    ensures ValidationFailure("Email", EmailTooLong) in r <==> Utf16Length(e) > 256
    ensures forall f :: f in r ==> f.propertyName == "Email"
  {
    EmailErrors(e, isEmail) + Check(Utf16Length(e) <= 256, "Email", EmailTooLong)
  }

  function LoginPasswordErrors(p: string): (r: seq<ValidationFailure>)
    ensures r == [] <==> NotEmpty(p) && Utf16Length(p) >= 6
    ensures ValidationFailure("Password", PasswordRequired) in r <==> !NotEmpty(p)
    ensures ValidationFailure("Password", LoginPasswordTooShort) in r <==> Utf16Length(p) < 6
    ensures forall f :: f in r ==> f.propertyName == "Password"
  {
    Check(NotEmpty(p), "Password", PasswordRequired) + Check(Utf16Length(p) >= 6, "Password", LoginPasswordTooShort)
  }

  predicate ValidLogin(email: string, password: string, isEmail: string -> bool) {
    && NotEmpty(email) && isEmail(email) && Utf16Length(email) <= 256
    && NotEmpty(password) && Utf16Length(password) >= 6
  }

  /** `LoginRequestDtoValidator`: email failures, then password failures. */
  function ValidateLogin(email: string, password: string, isEmail: string -> bool): (r: seq<ValidationFailure>)
    ensures r == [] <==> ValidLogin(email, password, isEmail)
  {
    LoginEmailErrors(email, isEmail) + LoginPasswordErrors(password)
  }

  /** Any password registration accepts is also accepted at login. */
  lemma CreatePasswordPassesLogin(p: string)
    requires PasswordErrors(p) == []
    ensures LoginPasswordErrors(p) == []
  {
  }

  /** "abcdef": six lower-case letters, no upper-case letter, no digit. */
  lemma SixLowerLetters()
    ensures var p := "abcdef";
      NotEmpty(p) && Utf16Length(p) == 6 && HasLower(p) && !HasUpper(p) && !HasDigit(p)
  {
    var p := "abcdef";
    assert !IsWhiteSpace(p[0]) && IsLowerAscii(p[0]);
    Utf16LengthOfBmp(p);
  }

  /** Login asks for no character classes: six lower-case letters pass login but not registration. */
  lemma LoginNeedsNoCharacterClasses()
    ensures LoginPasswordErrors("abcdef") == []
    ensures PasswordErrors("abcdef") == [ValidationFailure("Password", PasswordTooShort),
                                         ValidationFailure("Password", PasswordNeedsUpper),
                                         ValidationFailure("Password", PasswordNeedsDigit)]
  {
    SixLowerLetters();
    assert PasswordPresenceErrors("abcdef") == [ValidationFailure("Password", PasswordTooShort)];
    assert PasswordClassErrors("abcdef") == [ValidationFailure("Password", PasswordNeedsUpper),
                                             ValidationFailure("Password", PasswordNeedsDigit)];
  }
}
