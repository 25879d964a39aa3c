/**
 * The constraint checks of the signup page: what a password must contain, the
 * shape of an acceptable email, the minimum trimmed lengths of the profile
 * fields, and the submit guard built from them.
 *
 * Regular expressions are modelled by what they accept: a one-character class
 * tested with `.test` holds when some character of the string is in the class,
 * and `\s`/`trim()` use the ECMAScript whitespace and line-terminator set.
 */
module SignupForm {
  import opened Wrappers

  /** The page's controlled inputs. */
  datatype Form = Form(
    fullName: string,
    email: string,
    phone: string,
    country: string,
    password: string,
    confirm: string,
    agree: bool)

  /** What submitting the form does. */
  datatype Submit = Ignored | Navigate(route: string)

  // ---------------------------------------------------------------- characters

  /** ECMAScript WhiteSpace and LineTerminator: what `\s` matches and `trim()` strips. */
  predicate IsWhitespace(c: char)
  {
    var n := c as int;
    || n == 0x09 || n == 0x0A || n == 0x0B || n == 0x0C || n == 0x0D || n == 0x20
    || n == 0xA0 || n == 0x1680 || (0x2000 <= n <= 0x200A) || n == 0x2028 || n == 0x2029
    || n == 0x202F || n == 0x205F || n == 0x3000 || n == 0xFEFF
  }

  predicate IsUpper(c: char) { 'A' <= c <= 'Z' }

  predicate IsDigit(c: char) { '0' <= c <= '9' }

  /** The members of the class `[!@#$%^&*()_\-+={}[\]|\\:;"'<>,.?/~`]`. */
  const SpecialChars: string := "!@#$%^&*()_-+={}[]|\\:;\"'<>,.?/~`"

  predicate IsSpecial(c: char) { c in SpecialChars }

  /** The printable ASCII characters that are neither letters, digits nor space. */
  predicate IsAsciiPunctuation(c: char)
  {
    ('!' <= c <= '/') || (':' <= c <= '@') || ('[' <= c <= '`') || ('{' <= c <= '~')
  }

  // ---------------------------------------------------------------- regex tests

  /** `/[class]/.test(s)`: a left-to-right search for one character of the class. */
  function Test(cls: char -> bool, s: string): (r: bool)
    ensures r <==> exists i :: 0 <= i < |s| && cls(s[i])
  {
    if s == [] then false
    else if cls(s[0]) then true
    else Test(cls, s[1..])
  }

  /** No character of `s` is whitespace: every character matches `\S`. */
  predicate NoWhitespace(s: string)
  {
    forall i :: 0 <= i < |s| ==> !IsWhitespace(s[i])
  }

  /** One or more `\S` characters. */
  predicate Nonblank(s: string)
  {
    s != [] && NoWhitespace(s)
  }

  /** The index of the first `c` in `s` at or after `from`. */
  function IndexOf(s: string, c: char, from: nat): (r: Option<nat>)
    decreases |s| - from
    ensures r.Some? ==> from <= r.value < |s| && s[r.value] == c
    ensures r.Some? ==> forall k :: from <= k < r.value ==> s[k] != c
    ensures r.None? ==> forall k :: from <= k < |s| ==> s[k] != c
  {
    if from >= |s| then None
    else if s[from] == c then Some(from)
    else IndexOf(s, c, from + 1)
  }

  /** The index of the last `c` in `s` strictly before `end`. */
  function LastIndexOf(s: string, c: char, end: nat): (r: Option<nat>)
    requires end <= |s|
    ensures r.Some? ==> r.value < end && s[r.value] == c
    ensures r.Some? ==> forall k :: r.value < k < end ==> s[k] != c
    ensures r.None? ==> forall k :: 0 <= k < end ==> s[k] != c
  {
    if end == 0 then None
    else if s[end - 1] == c then Some(end - 1)
    else LastIndexOf(s, c, end - 1)
  }

  /**
   * `/^\S+@\S+\.\S+$/.test(email)`, decided the way a matcher can: no whitespace,
   * the earliest `@` that has a character before it, the latest `.` that has a
   * character after it, and at least one character between the two.
   */
  predicate EmailTest(s: string)
  {
    && NoWhitespace(s)
    && var at := IndexOf(s, '@', 1);
    && var dot := if |s| == 0 then None else LastIndexOf(s, '.', |s| - 1);
    && at.Some? && dot.Some? && at.value + 2 <= dot.value
  }

  /** The positions the pattern needs: `@` after one character, `.` after one more, one character after. */
  predicate EmailPositions(s: string, i: int, j: int)
  {
    0 < i && i + 1 < j && j + 1 < |s| && s[i] == '@' && s[j] == '.'
  }

  // ---------------------------------------------------------------- trim

  /** Where the text of `s` starts: the first non-whitespace index at or after `i`, or `|s|`. */
  function TextStart(s: string, i: nat): (r: nat)
    requires i <= |s|
    decreases |s| - i
    ensures i <= r <= |s|
    ensures forall k :: i <= k < r ==> IsWhitespace(s[k])
    ensures r < |s| ==> !IsWhitespace(s[r])
  {
    if i == |s| || !IsWhitespace(s[i]) then i else TextStart(s, i + 1)
  }

  /** Where the text of `s[..j]` ends: one past its last non-whitespace index, or 0. */
  function TextEnd(s: string, j: nat): (r: nat)
    requires j <= |s|
    ensures r <= j
    ensures forall k :: r <= k < j ==> IsWhitespace(s[k])
    ensures r > 0 ==> !IsWhitespace(s[r - 1])
  {
    if j == 0 || !IsWhitespace(s[j - 1]) then j else TextEnd(s, j - 1)
  }

  /** `String.prototype.trim`: drops leading and trailing whitespace. */
  function Trim(s: string): string
  {
    var a, b := TextStart(s, 0), TextEnd(s, |s|);
    if b <= a then [] else s[a..b]
  }

  // ---------------------------------------------------------------- the checks

  predicate HasMinLength(password: string) { |password| >= 8 }

  predicate HasUpper(password: string) { Test(IsUpper, password) }

  predicate HasNumber(password: string) { Test(IsDigit, password) }

  predicate HasSpecial(password: string) { Test(IsSpecial, password) }

  predicate PasswordsMatch(password: string, confirm: string)
  {
    |password| > 0 && password == confirm
  }

  /** `formValid`. */
  predicate FormValid(f: Form)
  {
    && |Trim(f.fullName)| > 1
    && EmailTest(f.email)
    && |Trim(f.phone)| >= 7
    && |Trim(f.country)| > 1
    && HasMinLength(f.password)
    && HasUpper(f.password)
    && HasNumber(f.password)
    && HasSpecial(f.password)
    && PasswordsMatch(f.password, f.confirm)
    && f.agree
  }

  /** `handleSubmit`: an invalid form is ignored, a valid one goes to the login page. */
  function HandleSubmit(f: Form): (r: Submit)
    ensures r.Navigate? <==> FormValid(f)
    ensures r.Navigate? ==> r.route == "/login"
  {
    if !FormValid(f) then Ignored else Navigate("/login")
  }

  /** `disabled={!formValid}` on the submit button. */
  predicate SubmitDisabled(f: Form)
  {
    !FormValid(f)
  }

  // ---------------------------------------------------------------- lemmas

  /** The special-character class is exactly the ASCII punctuation characters. */
  lemma SpecialIsAsciiPunctuation(c: char)
    ensures IsSpecial(c) <==> IsAsciiPunctuation(c)
  {
    if IsAsciiPunctuation(c) {
      var n := c as int;
      assert 33 <= n <= 47 || 58 <= n <= 64 || 91 <= n <= 96 || 123 <= n <= 126;
    }
  }

  /** Trimming keeps the stretch from the first to the last non-whitespace character. */
  lemma TrimIsSlice(s: string) returns (a: nat, b: nat)
    ensures a <= b <= |s| && Trim(s) == s[a..b]
    ensures forall k :: 0 <= k < a ==> IsWhitespace(s[k])
    ensures forall k :: b <= k < |s| ==> IsWhitespace(s[k])
    ensures a < b ==> !IsWhitespace(s[a]) && !IsWhitespace(s[b - 1])
  {
    a, b := TextStart(s, 0), TextEnd(s, |s|);
    if b <= a {
      b := a;
    }
  }

  /** Two non-whitespace characters of `s` span at least `n` positions. */
  ghost predicate SpansAtLeast(s: string, n: nat)
  {
    exists i, j :: 0 <= i <= j < |s| && j - i + 1 >= n && !IsWhitespace(s[i]) && !IsWhitespace(s[j])
  }

  /**
   * A trimmed length of at least `n` means two non-whitespace characters spanning
   * `n` positions: `trim().length > 1` asks for two distinct ones, `>= 7` for a span of seven.
   */
  lemma TrimmedLengthAtLeast(s: string, n: nat)
    requires n >= 1
    ensures |Trim(s)| >= n <==> SpansAtLeast(s, n)
  {
    var a, b := TrimIsSlice(s);
    if |Trim(s)| >= n {
      assert 0 <= a <= b - 1 < |s| && !IsWhitespace(s[a]) && !IsWhitespace(s[b - 1]);
    }
    forall i, j | 0 <= i <= j < |s| && j - i + 1 >= n && !IsWhitespace(s[i]) && !IsWhitespace(s[j])
      ensures |Trim(s)| >= n
    {
      assert a <= i && j < b;
    }
  }

  /** The email test accepts exactly the strings with an `@` and a later `.` placed as the pattern needs. */
  lemma EmailTestPositions(s: string)
    ensures EmailTest(s) <==> EmailShaped(s)
  {
    if NoWhitespace(s) && exists i, j :: EmailPositions(s, i, j) {
      var i, j :| EmailPositions(s, i, j);
      var at := IndexOf(s, '@', 1);
      var dot := LastIndexOf(s, '.', |s| - 1);
      assert at.Some? && at.value <= i;
      assert dot.Some? && j <= dot.value;
    }
    if EmailTest(s) {
      var at := IndexOf(s, '@', 1);
      var dot := LastIndexOf(s, '.', |s| - 1);
      assert EmailPositions(s, at.value, dot.value);
    }
  }

  /** Any three nonblank parts joined as `local@domain.tld` pass the email test. */
  lemma EmailFromParts(local: string, domain: string, tld: string)
    requires Nonblank(local) && Nonblank(domain) && Nonblank(tld)
    ensures EmailTest(local + "@" + domain + "." + tld)
  {
    var s := local + "@" + domain + "." + tld;
    var i := |local|;
    var j := |local| + 1 + |domain|;
    assert s[i] == '@' && s[j] == '.';
    assert EmailPositions(s, i, j);
    forall k | 0 <= k < |s| ensures !IsWhitespace(s[k]) {
      if k < i { assert s[k] == local[k]; }
      else if i < k < j { assert s[k] == domain[k - i - 1]; }
      else if j < k { assert s[k] == tld[k - j - 1]; }
    }
    EmailTestPositions(s);
  }

  /** Every email that passes splits into three nonblank parts around an `@` and a `.`. */
  lemma EmailToParts(s: string) returns (local: string, domain: string, tld: string)
    requires EmailTest(s)
    ensures Nonblank(local) && Nonblank(domain) && Nonblank(tld)
    ensures s == local + "@" + domain + "." + tld
  {
    EmailTestPositions(s);
    var i, j :| EmailPositions(s, i, j);
    local, domain, tld := s[..i], s[i + 1..j], s[j + 1..];
    assert s == local + "@" + domain + "." + tld;
  }

  /** The email has the form `local@domain.tld` with three nonblank parts and no whitespace. */
  ghost predicate EmailShaped(s: string)
  {
    NoWhitespace(s) && exists i, j :: EmailPositions(s, i, j)
  }

  ghost predicate ContainsUpper(s: string) { exists i :: 0 <= i < |s| && IsUpper(s[i]) }

  ghost predicate ContainsDigit(s: string) { exists i :: 0 <= i < |s| && IsDigit(s[i]) }

  ghost predicate ContainsPunctuation(s: string) { exists i :: 0 <= i < |s| && IsAsciiPunctuation(s[i]) }

  /**
   * `formValid` spelled out: two non-whitespace characters in the full name and the
   * country, a span of seven in the phone, a well-placed `@` and `.` in a
   * whitespace-free email, a password of eight or more characters with an uppercase
   * letter, a digit and an ASCII punctuation character, equal to its confirmation,
   * and the terms accepted.
   */
  lemma FormValidMeans(f: Form)
    ensures FormValid(f) <==>
      && SpansAtLeast(f.fullName, 2)
      && EmailShaped(f.email)
      && SpansAtLeast(f.phone, 7)
      && SpansAtLeast(f.country, 2)
      && |f.password| >= 8
      && ContainsUpper(f.password)
      && ContainsDigit(f.password)
      && ContainsPunctuation(f.password)
      && f.password == f.confirm
      && f.agree
  {
    TrimmedLengthAtLeast(f.fullName, 2);
    TrimmedLengthAtLeast(f.phone, 7);
    TrimmedLengthAtLeast(f.country, 2);
    EmailTestPositions(f.email);
    PasswordChecksMean(f.password);
  }

  /** The four password checks spelled out over the password's characters. */
  lemma PasswordChecksMean(password: string)
    ensures HasUpper(password) <==> ContainsUpper(password)
    ensures HasNumber(password) <==> ContainsDigit(password)
    ensures HasSpecial(password) <==> ContainsPunctuation(password)
  {
    forall i | 0 <= i < |password| ensures IsSpecial(password[i]) <==> IsAsciiPunctuation(password[i]) {
      SpecialIsAsciiPunctuation(password[i]);
    }
  }

  /** An empty password never makes the form valid, so submitting it does nothing. */
  lemma EmptyPasswordNeverValid(f: Form)
    requires f.password == ""
    ensures !PasswordsMatch(f.password, f.confirm)
    ensures !FormValid(f) && HandleSubmit(f) == Ignored && SubmitDisabled(f)
  {
  }

  /** The submit button is enabled exactly when submitting navigates. */
  lemma SubmitEnabledIffNavigates(f: Form)
    ensures !SubmitDisabled(f) <==> HandleSubmit(f) == Navigate("/login")
  {
  }

  /** `Abcd1234!` meets all four password checks. */
  lemma ExamplePassword()
    ensures HasMinLength("Abcd1234!")
    ensures HasUpper("Abcd1234!") && HasNumber("Abcd1234!") && HasSpecial("Abcd1234!")
  {
    var p := "Abcd1234!";
    assert IsUpper(p[0]) && IsDigit(p[4]) && IsSpecial(p[8]);
  }
}
