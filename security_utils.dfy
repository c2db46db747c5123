/** Security helpers: random tokens and codes, email masking for logs, HTML escaping,
    password scoring and allow-list checks. Random numbers are parameters: each `draw` is the
    value `SecureRandom.nextInt(bound)` returned. */
module SecurityUtils {
  import opened Wrappers
  import opened Text

  /** The alphabet of secure tokens: upper case, lower case, digits. */
  const CHARACTERS: string :=
    seq(26, i requires 0 <= i < 26 => ('A' as int + i) as char)
    + seq(26, i requires 0 <= i < 26 => ('a' as int + i) as char)
    + seq(10, i requires 0 <= i < 10 => ('0' as int + i) as char)

  lemma CharactersAreAlphanumeric()
    ensures |CHARACTERS| == 62
    ensures forall i :: 0 <= i < |CHARACTERS| ==> IsAsciiLetterOrDigit(CHARACTERS[i])
  {
  }

  // ---------------------------------------------------------------- tokens and codes

  /** `generateSecureToken(length)`: one alphabet character per draw; a length of zero or
      below gives the empty string. */
  method GenerateSecureToken(length: int, draws: seq<nat>) returns (token: string)
    requires length <= |draws| && forall i :: 0 <= i < |draws| ==> draws[i] < |CHARACTERS|
    ensures |token| == if length < 0 then 0 else length
    ensures forall i :: 0 <= i < |token| ==> token[i] == CHARACTERS[draws[i]] && IsAsciiLetterOrDigit(token[i])
  {
    CharactersAreAlphanumeric();
    token := "";
    var i := 0;
    while i < length
      invariant 0 <= i <= |draws| && (length >= 0 ==> i <= length) && (length < 0 ==> i == 0)
      invariant |token| == i
      invariant forall j :: 0 <= j < i ==> token[j] == CHARACTERS[draws[j]] && IsAsciiLetterOrDigit(token[j])
    {
      token := token + [CHARACTERS[draws[i]]];
      i := i + 1;
    }
  }

  /** `generateVerificationCode` as written: `nextInt(999999)` draws from 0..999998. */
  function GenerateVerificationCode(draw: nat): (code: string)
    requires draw < 999999
    ensures |code| == 6 && forall i :: 0 <= i < 6 ==> IsAsciiDigit(code[i])
  {
    ZeroPad6(draw)
  }

  /** The highest code is never produced by the code as written. */
  lemma NineNinesUnreachable(draw: nat)
    requires draw < 999999
    ensures GenerateVerificationCode(draw) != "999999"
  {
    assert ParseDigits(GenerateVerificationCode(draw)) == draw;
    assert "999999" == seq(6, _ => '9');
    ParseNines(6);
  }

  lemma {:induction false} ParseNines(k: nat)
    ensures ParseDigits(seq(k, _ => '9')) == Pow10(k) - 1
  {
    if k > 0 {
      assert seq(k, _ => '9')[..k - 1] == seq(k - 1, _ => '9');
      ParseNines(k - 1);
    }
  }

  /** The verification code with the draw taken from all one million values. */
  function VerificationCode(draw: nat): (code: string)
    requires draw < 1000000
    ensures |code| == 6 && forall i :: 0 <= i < 6 ==> IsAsciiDigit(code[i])
    ensures ParseDigits(code) == draw
  {
    ZeroPad6(draw)
  }

  /** Every six-digit string is the code of exactly one draw. */
  lemma VerificationCodeBijective(code: string, draw: nat)
    requires |code| == 6 && forall i :: 0 <= i < 6 ==> IsAsciiDigit(code[i])
    requires draw < 1000000
    ensures ParseDigits(code) < 1000000
    ensures VerificationCode(ParseDigits(code)) == code
    ensures VerificationCode(draw) == code <==> draw == ParseDigits(code)
  {
    ParsePadDigits(ParseDigits(code), 6);
    PadParseDigits(code);
  }

  // ---------------------------------------------------------------- email masking

  const MASK: string := "***"

  /** The text before the first '@'. */
  function LocalPart(email: string): string
    requires '@' in email
  {
    email[..IndexOf(email, '@')]
  }

  /** The text after the first '@', up to the next '@' if there is one. */
  function DomainPart(email: string): string
    requires '@' in email
  {
    var rest := email[IndexOf(email, '@') + 1..];
    if '@' in rest then rest[..IndexOf(rest, '@')] else rest
  }

  function Masked(local: string, domain: string): string {
    if |local| <= 2 then MASK + "@" + domain else local[..2] + MASK + "@" + domain
  }

  /** `maskEmail` as written: `split("@")` drops trailing empty pieces, so an address that ends
      in '@' has no second piece and reading `parts[1]` throws. */
  function MaskEmailAsWritten(email: Option<string>): (r: Result<string, string>)
  {
    if email.None? || '@' !in email.value then Success(MASK)
    else
      var parts := JavaSplit(email.value, '@');
      if |parts| < 2 then Failure("ArrayIndexOutOfBoundsException")
      else Success(Masked(parts[0], parts[1]))
  }

  /** Witness: "ab@" makes the code as written throw. */
  lemma MaskEmailThrowsOnTrailingAt()
    ensures MaskEmailAsWritten(Some("ab@")).Failure?
    ensures MaskEmailAsWritten(Some("@")).Failure?
  {
    assert SplitAll("", '@') == [""];
    assert "@"[1..] == "";
    assert SplitAll("@", '@') == ["", ""];
    assert "b@"[1..] == "@";
    assert ["", ""][1..] == [""];
    assert ['b'] + "" == "b";
    assert SplitAll("b@", '@') == ["b", ""];
    assert "ab@"[1..] == "b@";
    assert ["b", ""][1..] == [""];
    assert ['a'] + "b" == "ab";
    assert SplitAll("ab@", '@') == ["ab", ""];
    assert ["ab", ""][..1] == ["ab"];
    assert ["", ""][..1] == [""];
    assert [""][..0] == [];
  }

  /** Email masking for logs: "***" without an '@'; otherwise the first two characters of the
      local part (none if it has at most two) then "***@" and the domain. Never fails. */
  function MaskEmail(email: Option<string>): (r: string)
    ensures email.None? || '@' !in email.value ==> r == MASK
    ensures email.Some? && '@' in email.value ==> r == Masked(LocalPart(email.value), DomainPart(email.value))
  {
    if email.None? || '@' !in email.value then MASK
    else Masked(LocalPart(email.value), DomainPart(email.value))
  }

  /** Wherever the code as written returns a value, the corrected masking returns the same. */
  lemma MaskEmailAgrees(email: Option<string>)
    requires MaskEmailAsWritten(email).Success?
    ensures MaskEmailAsWritten(email).value == MaskEmail(email)
  {
    if email.Some? && '@' in email.value {
      var s := email.value;
      var i := IndexOf(s, '@');
      var all := SplitAll(s, '@');
      var parts := JavaSplit(s, '@');
      assert parts == all[..|parts|];
      SplitAllFirst(s, '@', i);
      SplitAllAfterFirst(s, '@', i);
      var rest := s[i + 1..];
      assert all[1] == SplitAll(rest, '@')[0];
      if '@' in rest {
        SplitAllFirst(rest, '@', IndexOf(rest, '@'));
      }
    }
  }

  // ---------------------------------------------------------------- HTML escaping

  /** The entity each dangerous character becomes. */
  function Escape(c: char): string {
    if c == '<' then "&lt;"
    else if c == '>' then "&gt;"
    else if c == '"' then "&quot;"
    else if c == '\'' then "&#x27;"
    else if c == '/' then "&#x2F;"
    else [c]
  }

  predicate IsDangerous(c: char) {
    c == '<' || c == '>' || c == '"' || c == '\'' || c == '/'
  }

  /** Character-by-character escaping: the reference for `sanitizeInput`. */
  function EscapeAll(s: string): (r: string)
    ensures forall c :: IsDangerous(c) ==> c !in r
  {
    if |s| == 0 then "" else Escape(s[0]) + EscapeAll(s[1..])
  }

  /** Five `replaceAll` passes, one per character, in the source's order. */
  function Chain(s: string): string {
    ReplaceChar(ReplaceChar(ReplaceChar(ReplaceChar(ReplaceChar(s, '<', "&lt;"), '>', "&gt;"),
                '"', "&quot;"), '\'', "&#x27;"), '/', "&#x2F;")
  }

  /** `sanitizeInput`: null stays null; otherwise the replacement chain. */
  function SanitizeInput(input: Option<string>): (r: Option<string>)
    ensures input.None? <==> r.None?
    ensures r.Some? ==> forall c :: IsDangerous(c) ==> c !in r.value
  {
    if input.None? then None else Some(Chain(input.value))
  }

  lemma {:induction false} ReplaceCharAppend(a: string, b: string, c: char, rep: string)
    ensures ReplaceChar(a + b, c, rep) == ReplaceChar(a, c, rep) + ReplaceChar(b, c, rep)
  {
    if |a| > 0 {
      assert (a + b)[0] == a[0];
      assert (a + b)[1..] == a[1..] + b;
      ReplaceCharAppend(a[1..], b, c, rep);
    } else {
      assert a + b == b;
    }
  }

  lemma ChainAppend(a: string, b: string)
    ensures Chain(a + b) == Chain(a) + Chain(b)
  {
    var s1a := ReplaceChar(a, '<', "&lt;");
    var s1b := ReplaceChar(b, '<', "&lt;");
    ReplaceCharAppend(a, b, '<', "&lt;");
    var s2a := ReplaceChar(s1a, '>', "&gt;");
    var s2b := ReplaceChar(s1b, '>', "&gt;");
    ReplaceCharAppend(s1a, s1b, '>', "&gt;");
    var s3a := ReplaceChar(s2a, '"', "&quot;");
    var s3b := ReplaceChar(s2b, '"', "&quot;");
    ReplaceCharAppend(s2a, s2b, '"', "&quot;");
    var s4a := ReplaceChar(s3a, '\'', "&#x27;");
    var s4b := ReplaceChar(s3b, '\'', "&#x27;");
    ReplaceCharAppend(s3a, s3b, '\'', "&#x27;");
    ReplaceCharAppend(s4a, s4b, '/', "&#x2F;");
  }

  /** The replacement passes never interfere: no entity introduced by one pass contains a
      character a later pass replaces, so the chain escapes each character on its own. */
  lemma {:induction false} SanitizeIsPerCharacter(s: string)
    ensures SanitizeInput(Some(s)) == Some(EscapeAll(s))
  {
    if |s| > 0 {
      assert s == [s[0]] + s[1..];
      ChainAppend([s[0]], s[1..]);
      ChainSingle(s[0]);
      SanitizeIsPerCharacter(s[1..]);
    }
  }

  lemma {:induction false} ReplaceCharAbsent(s: string, c: char, rep: string)
    requires c !in s
    ensures ReplaceChar(s, c, rep) == s
  {
    if |s| > 0 {
      assert s[0] != c;
      ReplaceCharAbsent(s[1..], c, rep);
    }
  }

  lemma ReplaceCharOne(x: char, c: char, rep: string)
    ensures ReplaceChar([x], c, rep) == if x == c then rep else [x]
  {
    assert [x][1..] == [];
  }

  /** Once a pass has put in its entity, the later passes find nothing to replace. */
  lemma LaterPassesKeep(e: string, k: nat)
    requires 1 <= k <= 5
    requires '>' !in e && '"' !in e && '\'' !in e && '/' !in e
    ensures k <= 1 ==> ReplaceChar(e, '>', "&gt;") == e
    ensures k <= 2 ==> ReplaceChar(e, '"', "&quot;") == e
    ensures k <= 3 ==> ReplaceChar(e, '\'', "&#x27;") == e
    ensures k <= 4 ==> ReplaceChar(e, '/', "&#x2F;") == e
  {
    ReplaceCharAbsent(e, '>', "&gt;");
    ReplaceCharAbsent(e, '"', "&quot;");
    ReplaceCharAbsent(e, '\'', "&#x27;");
    ReplaceCharAbsent(e, '/', "&#x2F;");
  }

  lemma ChainLt()
    ensures Chain("<") == "&lt;"
  {
    ReplaceCharOne('<', '<', "&lt;");
    LaterPassesKeep("&lt;", 1);
  }

  lemma ChainGt()
    ensures Chain(">") == "&gt;"
  {
    ReplaceCharOne('>', '<', "&lt;");
    ReplaceCharOne('>', '>', "&gt;");
    LaterPassesKeep("&gt;", 2);
  }

  lemma ChainQuot()
    ensures Chain("\"") == "&quot;"
  {
    ReplaceCharOne('"', '<', "&lt;");
    ReplaceCharOne('"', '>', "&gt;");
    ReplaceCharOne('"', '"', "&quot;");
    LaterPassesKeep("&quot;", 3);
  }

  lemma ChainApos()
    ensures Chain("'") == "&#x27;"
  {
    ReplaceCharOne('\'', '<', "&lt;");
    ReplaceCharOne('\'', '>', "&gt;");
    ReplaceCharOne('\'', '"', "&quot;");
    ReplaceCharOne('\'', '\'', "&#x27;");
    LaterPassesKeep("&#x27;", 4);
  }

  lemma ChainSlash()
    ensures Chain("/") == "&#x2F;"
  {
    ReplaceCharOne('/', '<', "&lt;");
    ReplaceCharOne('/', '>', "&gt;");
    ReplaceCharOne('/', '"', "&quot;");
    ReplaceCharOne('/', '\'', "&#x27;");
    ReplaceCharOne('/', '/', "&#x2F;");
  }

  lemma ChainSingle(c: char)
    ensures Chain([c]) == Escape(c)
  {
    if c == '<' {
      ChainLt();
    } else if c == '>' {
      ChainGt();
    } else if c == '"' {
      ChainQuot();
    } else if c == '\'' {
      ChainApos();
    } else if c == '/' {
      ChainSlash();
    } else {
      ReplaceCharOne(c, '<', "&lt;");
      ReplaceCharOne(c, '>', "&gt;");
      ReplaceCharOne(c, '"', "&quot;");
      ReplaceCharOne(c, '\'', "&#x27;");
      ReplaceCharOne(c, '/', "&#x2F;");
    }
  }


  // ---------------------------------------------------------------- password strength

  predicate IsPasswordSpecial(c: char) {
    c == '@' || c == '$' || c == '!' || c == '%' || c == '*' || c == '?' || c == '&'
  }

  /** `s.matches(".*[class].*")`: some character is in the class, and no character is a line
      terminator, which `.` does not match. */
  predicate DotStarMatches(s: string, inClass: char -> bool) {
    (exists i :: 0 <= i < |s| && inClass(s[i])) && forall i :: 0 <= i < |s| ==> !IsJavaLineTerminator(s[i])
  }

  function Point(b: bool): int {
    if b then 1 else 0
  }

  /** The raw score before it is capped at 4. */
  function RawStrength(s: string): (n: int)
    ensures 0 <= n <= 6
  {
    Point(|s| >= 8) + Point(|s| >= 12)
    + Point(DotStarMatches(s, IsAsciiLower)) + Point(DotStarMatches(s, IsAsciiUpper))
    + Point(DotStarMatches(s, IsAsciiDigit)) + Point(DotStarMatches(s, IsPasswordSpecial))
  }

  /** `getPasswordStrength`: 0 for null or empty, otherwise the raw score capped at 4. */
  function GetPasswordStrength(password: Option<string>): (score: int)
    ensures 0 <= score <= 4
    ensures password.None? || password.value == "" ==> score == 0
  {
    if password.None? || password.value == "" then 0
    else
      var raw := RawStrength(password.value);
      if raw < 4 then raw else 4
  }

  predicate NoLineTerminator(s: string) {
    forall i :: 0 <= i < |s| ==> !IsJavaLineTerminator(s[i])
  }

  /** Appending a character to a password without line terminators never lowers its score. */
  lemma StrengthMonotone(s: string, c: char)
    requires NoLineTerminator(s + [c])
    ensures GetPasswordStrength(Some(s + [c])) >= GetPasswordStrength(Some(s))
  {
    var t := s + [c];
    assert forall i :: 0 <= i < |s| ==> t[i] == s[i];
    assert DotStarMatches(s, IsAsciiLower) ==> DotStarMatches(t, IsAsciiLower);
    assert DotStarMatches(s, IsAsciiUpper) ==> DotStarMatches(t, IsAsciiUpper);
    assert DotStarMatches(s, IsAsciiDigit) ==> DotStarMatches(t, IsAsciiDigit);
    assert DotStarMatches(s, IsPasswordSpecial) ==> DotStarMatches(t, IsPasswordSpecial);
  }

  /** A password holding a line terminator scores for its length only. */
  lemma LineTerminatorScoresLengthOnly(s: string, i: nat)
    requires i < |s| && IsJavaLineTerminator(s[i])
    ensures GetPasswordStrength(Some(s)) == Point(|s| >= 8) + Point(|s| >= 12)
  {
  }

  /** The character class `[A-Za-z\d@$!%*?&]` every character of a strong password is in. */
  predicate IsStrongPasswordChar(c: char) {
    IsAsciiLetterOrDigit(c) || IsPasswordSpecial(c)
  }

  /** `isStrongPassword`: `matches` of `^(?=.*[a-z])(?=.*[A-Z])(?=.*\d)(?=.*[@$!%*?&])[A-Za-z\d@$!%*?&]{8,}$`.
      The whole text must be eight or more characters of the class, so no line terminator can
      stop a look-ahead, and each look-ahead asks for one character of its kind. */
  predicate IsStrongPassword(password: Option<string>) {
    password.Some? && |password.value| >= 8
    && (forall i :: 0 <= i < |password.value| ==> IsStrongPasswordChar(password.value[i]))
    && (exists i :: 0 <= i < |password.value| && IsAsciiLower(password.value[i]))
    && (exists i :: 0 <= i < |password.value| && IsAsciiUpper(password.value[i]))
    && (exists i :: 0 <= i < |password.value| && IsAsciiDigit(password.value[i]))
    && (exists i :: 0 <= i < |password.value| && IsPasswordSpecial(password.value[i]))
  }

  /** Every password `isStrongPassword` accepts gets the top strength score. */
  lemma StrongPasswordScoresFour(password: Option<string>)
    requires IsStrongPassword(password)
    ensures GetPasswordStrength(password) == 4
  {
    var s := password.value;
    assert NoLineTerminator(s) by {
      forall i | 0 <= i < |s| ensures !IsJavaLineTerminator(s[i]) {
        assert IsStrongPasswordChar(s[i]);
      }
    }
  }

  /** The top strength score does not make a password strong: a character outside the
      class, such as '~', fails `isStrongPassword` but not the score. */
  lemma TopScoreNotStrong()
    ensures GetPasswordStrength(Some("Aa1~Aa1~Aa1~")) == 4
    ensures !IsStrongPassword(Some("Aa1~Aa1~Aa1~"))
  {
    var s := "Aa1~Aa1~Aa1~";
    assert !IsStrongPasswordChar(s[3]);
    assert IsAsciiLower(s[1]) && IsAsciiUpper(s[0]) && IsAsciiDigit(s[2]);
  }

  // ---------------------------------------------------------------- allow lists

  /** The domain `isAllowedEmailDomain` compares: everything after the last '@' (the whole
      address if there is none), lower-cased. */
  function EmailDomain(email: string): string {
    Lower(email[LastIndexOf(email, '@') + 1..])
  }

  predicate DomainListed(domain: string, allowed: seq<string>) {
    exists i :: 0 <= i < |allowed| && domain == Lower(allowed[i])
  }

  /** `isAllowedEmailDomain`: no restriction for a null email or a null or empty list;
      otherwise the domain must equal some entry, both lower-cased. */
  method IsAllowedEmailDomain(email: Option<string>, allowedDomains: Option<seq<string>>) returns (ok: bool)
    ensures ok <==> email.None? || allowedDomains.None? || |allowedDomains.value| == 0
                    || DomainListed(EmailDomain(email.value), allowedDomains.value)
  {
    if email.None? || allowedDomains.None? || |allowedDomains.value| == 0 {
      return true;
    }
    var domain := EmailDomain(email.value);
    var list := allowedDomains.value;
    var i := 0;
    while i < |list|
      invariant 0 <= i <= |list|
      invariant forall j :: 0 <= j < i ==> domain != Lower(list[j])
    {
      if domain == Lower(list[i]) {
        return true;
      }
      i := i + 1;
    }
    return false;
  }

  /** The case of the address never changes the domain check. */
  lemma EmailDomainIgnoresCase(email: string)
    ensures EmailDomain(Lower(email)) == EmailDomain(email)
  {
    LastIndexOfLower(email, '@');
    LowerSlice(email, LastIndexOf(email, '@') + 1);
    LowerIdempotent(email[LastIndexOf(email, '@') + 1..]);
  }

  /** `isAllowedIP`: no restriction for a null or empty list; otherwise some entry equals the
      address or is "*". The address is compared first, so a null address with a non-empty
      list throws. */
  method IsAllowedIP(clientIP: Option<string>, allowedIPs: Option<seq<string>>) returns (r: Result<bool, string>)
    ensures allowedIPs.None? || |allowedIPs.value| == 0 ==> r == Success(true)
    ensures allowedIPs.Some? && |allowedIPs.value| > 0 && clientIP.None? ==> r == Failure("NullPointerException")
    ensures allowedIPs.Some? && |allowedIPs.value| > 0 && clientIP.Some? ==>
              r == Success(exists i :: 0 <= i < |allowedIPs.value| && (allowedIPs.value[i] == clientIP.value || allowedIPs.value[i] == "*"))
  {
    if allowedIPs.None? || |allowedIPs.value| == 0 {
      return Success(true);
    }
    var list := allowedIPs.value;
    var i := 0;
    while i < |list|
      invariant 0 <= i <= |list|
      invariant clientIP.Some?  || i == 0
      invariant forall j :: 0 <= j < i ==> list[j] != clientIP.value && list[j] != "*"
    {
      if clientIP.None? {
        return Failure("NullPointerException");
      }
      if clientIP.value == list[i] || list[i] == "*" {
        return Success(true);
      }
      i := i + 1;
    }
    return Success(false);
  }
}
