/** Bean-validation constraints: a configurable password policy, an email-domain allow list
    and a file-extension allow list. Each validator is configured once from its annotation
    and then checks values. */
module Validators {
  import opened Wrappers
  import opened Text
  import SecurityUtils

  // ---------------------------------------------------------------- passwords

  /** The attributes of the password annotation. */
  datatype PasswordPolicy = PasswordPolicy(
    minLength: int,
    requireUppercase: bool,
    requireLowercase: bool,
    requireDigit: bool,
    requireSpecialChar: bool)

  /** The annotation's defaults: at least 8 characters and every class required. */
  const DEFAULT_POLICY: PasswordPolicy := PasswordPolicy(8, true, true, true, true)

  /** The special characters of the policy's character class. */
  predicate IsPolicySpecial(c: char) {
    c in "!@#$%^&*()_+-=[]{};':\"\\|,.<>/?"
  }

  /** `Pattern.compile(cls).matcher(s).find()` for a one-character class. */
  predicate Contains(s: string, cls: char -> bool) {
    exists i :: 0 <= i < |s| && cls(s[i])
  }

  /** Every requirement of `strict` that `loose` enforces, `strict` enforces too, and
      `loose` asks for no more characters. */
  predicate NoStricterThan(loose: PasswordPolicy, strict: PasswordPolicy) {
    loose.minLength <= strict.minLength
    && (loose.requireUppercase ==> strict.requireUppercase)
    && (loose.requireLowercase ==> strict.requireLowercase)
    && (loose.requireDigit ==> strict.requireDigit)
    && (loose.requireSpecialChar ==> strict.requireSpecialChar)
  }

  /** `isValid` under a policy, the checks taken in the source's order. A password is
      accepted exactly when it is present, long enough, and has a character of each
      required class. */
  function PasswordAccepted(policy: PasswordPolicy, password: Option<string>): (ok: bool)
    ensures ok <==>
              password.Some? && |password.value| >= policy.minLength
              && (policy.requireUppercase ==> Contains(password.value, IsAsciiUpper))
              && (policy.requireLowercase ==> Contains(password.value, IsAsciiLower))
              && (policy.requireDigit ==> Contains(password.value, IsAsciiDigit))
              && (policy.requireSpecialChar ==> Contains(password.value, IsPolicySpecial))
  {
    if password.None? || |password.value| < policy.minLength then false
    else if policy.requireUppercase && !Contains(password.value, IsAsciiUpper) then false
    else if policy.requireLowercase && !Contains(password.value, IsAsciiLower) then false
    else if policy.requireDigit && !Contains(password.value, IsAsciiDigit) then false
    else if policy.requireSpecialChar && !Contains(password.value, IsPolicySpecial) then false
    else true
  }

  /** Relaxing the policy (a shorter minimum, a requirement switched off) never rejects a
      password the stricter policy accepted. */
  lemma RelaxingPolicyKeepsValid(loose: PasswordPolicy, strict: PasswordPolicy, password: Option<string>)
    requires NoStricterThan(loose, strict)
    requires PasswordAccepted(strict, password)
    ensures PasswordAccepted(loose, password)
  {
  }

  class PasswordValidator {
    var minLength: int
    var requireUppercase: bool
    var requireLowercase: bool
    var requireDigit: bool
    var requireSpecialChar: bool

    function Policy(): PasswordPolicy
      reads this
    {
      PasswordPolicy(minLength, requireUppercase, requireLowercase, requireDigit, requireSpecialChar)
    }

    constructor ()
      ensures Policy() == PasswordPolicy(0, false, false, false, false)
    {
      minLength, requireUppercase, requireLowercase, requireDigit, requireSpecialChar := 0, false, false, false, false;
    }

    /** `initialize`: copies the annotation's attributes. */
    method Initialize(annotation: PasswordPolicy)
      modifies this
      ensures Policy() == annotation
    {
      minLength := annotation.minLength;
      requireUppercase := annotation.requireUppercase;
      requireLowercase := annotation.requireLowercase;
      requireDigit := annotation.requireDigit;
      requireSpecialChar := annotation.requireSpecialChar;
    }

    /** `isValid`. */
    predicate IsValid(password: Option<string>)
      reads this
    {
      PasswordAccepted(Policy(), password)
    }
  }

  // ---------------------------------------------------------------- email domains

  /** The email-domain constraint: a null email or an empty list passes; an address
      without '@' fails; otherwise the text after the last '@' must equal a listed domain,
      both lower-cased. */
  predicate EmailAccepted(allowedDomains: seq<string>, email: Option<string>) {
    email.None? || |allowedDomains| == 0
    || ('@' in email.value && SecurityUtils.DomainListed(SecurityUtils.EmailDomain(email.value), allowedDomains))
  }

  /** The case of the address never changes the verdict. */
  lemma EmailAcceptedIgnoresCase(allowedDomains: seq<string>, email: string)
    ensures EmailAccepted(allowedDomains, Some(Lower(email))) == EmailAccepted(allowedDomains, Some(email))
  {
    SecurityUtils.EmailDomainIgnoresCase(email);
    LastIndexOfLower(email, '@');
    assert ('@' in Lower(email)) <==> LastIndexOf(Lower(email), '@') != -1;
  }

  /** Unlike the `SecurityUtils` domain check, which compares the whole address when it has
      no '@', the constraint rejects such an address outright. */
  lemma BareDomainRejected()
    ensures !EmailAccepted(["example.com"], Some("example.com"))
    ensures SecurityUtils.DomainListed(SecurityUtils.EmailDomain("example.com"), ["example.com"])
  {
    assert LastIndexOf("example.com", '@') == -1;
    assert SecurityUtils.EmailDomain("example.com") == Lower("example.com");
    assert Lower("example.com") == "example.com";
    var allowed := ["example.com"];
    assert SecurityUtils.EmailDomain("example.com") == Lower(allowed[0]);
  }

  class EmailDomainValidator {
    var allowedDomains: seq<string>

    constructor ()
      ensures allowedDomains == []
    {
      allowedDomains := [];
    }

    /** `initialize`: keeps the annotation's list. */
    method Initialize(domains: seq<string>)
      modifies this
      ensures allowedDomains == domains
    {
      allowedDomains := domains;
    }

    /** `isValid`: the loop over the allowed domains stops at the first match. */
    method IsValid(email: Option<string>) returns (ok: bool)
      ensures ok == EmailAccepted(allowedDomains, email)
    {
      if email.None? || |allowedDomains| == 0 {
        return true;
      }
      if '@' !in email.value {
        return false;
      }
      var domain := SecurityUtils.EmailDomain(email.value);
      for i := 0 to |allowedDomains|
        invariant forall j :: 0 <= j < i ==> domain != Lower(allowedDomains[j])
      {
        if domain == Lower(allowedDomains[i]) {
          return true;
        }
      }
      return false;
    }
  }

  // ---------------------------------------------------------------- file extensions

  /** The annotation's default list. */
  const DEFAULT_EXTENSIONS: seq<string> := ["jpg", "jpeg", "png", "gif", "pdf", "doc", "docx"]

  /** What the validator reads from an uploaded file. */
  datatype UploadedFile = UploadedFile(isEmpty: bool, originalFilename: Option<string>)

  /** `getFileExtension`: the text after the last '.', or "" without a dot. */
  function FileExtension(filename: string): (ext: string)
    ensures '.' !in ext
    ensures '.' !in filename ==> ext == ""
    ensures '.' in filename ==> exists k :: 0 <= k < |filename| && filename == filename[..k] + "." + ext
  {
    var dot := LastIndexOf(filename, '.');
    if dot == -1 then ""
    else
      assert filename == filename[..dot] + "." + filename[dot + 1..];
      filename[dot + 1..]
  }

  /** The extension of a name built as base + "." + ext is ext, when ext has no dot. */
  lemma FileExtensionOfJoin(base: string, ext: string)
    requires '.' !in ext
    ensures FileExtension(base + "." + ext) == ext
  {
    var name := base + "." + ext;
    var dot := LastIndexOf(name, '.');
    assert name[|base|] == '.';
    assert name[|base| + 1..] == ext;
  }

  /** The file constraint: no file or an empty one passes; a nameless file fails; otherwise
      the lower-cased extension must be in the list as written. */
  predicate FileAccepted(allowedExtensions: seq<string>, file: Option<UploadedFile>) {
    file.None? || file.value.isEmpty
    || (file.value.originalFilename.Some? && file.value.originalFilename.value != ""
        && Lower(FileExtension(file.value.originalFilename.value)) in allowedExtensions)
  }

  /** The list is not lower-cased, so an entry with an upper-case letter never matches. */
  lemma UpperCaseEntryNeverMatches(allowedExtensions: seq<string>, entry: string, i: nat, filename: string)
    requires i < |entry| && IsAsciiUpper(entry[i])
    ensures Lower(FileExtension(filename)) != entry
  {
    var ext := Lower(FileExtension(filename));
    if |ext| == |entry| {
      assert !IsAsciiUpper(ext[i]);
    }
  }

  /** The file's extension is lower-cased before the lookup, so under the default list
      "notes.PDF" is accepted while a name without an extension is not. */
  lemma DefaultListIgnoresFileCase()
    ensures FileAccepted(DEFAULT_EXTENSIONS, Some(UploadedFile(false, Some("notes.PDF"))))
    ensures !FileAccepted(DEFAULT_EXTENSIONS, Some(UploadedFile(false, Some("notes"))))
  {
    FileExtensionOfJoin("notes", "PDF");
    assert "notes" + "." + "PDF" == "notes.PDF";
    assert Lower("PDF") == "pdf";
    assert DEFAULT_EXTENSIONS[4] == "pdf";
    assert FileExtension("notes") == "";
    assert Lower("") == "";
  }

  class FileExtensionValidator {
    var allowedExtensions: seq<string>

    constructor ()
      ensures allowedExtensions == []
    {
      allowedExtensions := [];
    }

    /** `initialize`: keeps the annotation's list. */
    method Initialize(extensions: seq<string>)
      modifies this
      ensures allowedExtensions == extensions
    {
      allowedExtensions := extensions;
    }

    /** `isValid`. */
    predicate IsValid(file: Option<UploadedFile>)
      reads this
    {
      FileAccepted(allowedExtensions, file)
    }
  }
}
