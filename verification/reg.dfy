/** The registration check of reg.py. The MD5 hex digest is a parameter
    `md5hex`, standing for the digest of RFC 1321 written as 32 lower-case
    hexadecimal digits; nothing here depends on how it is computed. */
module Reg {
  import opened Results
  import Text

  type Digest = string -> string

  /** A `RegistrableApplication`. `registrationCode` and `registrationEmail`
      are the attributes `set_registration` creates; they do not exist
      (`None`) until a valid code is registered. */
  datatype App = App(
    appid: nat,
    registered: bool,
    registerCode: string,
    registerEmail: string,
    registrationCode: Option<string>,
    registrationEmail: Option<string>)

  /** The salt appended to every candidate digest input. */
  const Salt: string := "aybabtu"

  /** The number of serial numbers a code may encode. */
  const Serials: nat := 100

  /** `RegistrableApplication.__init__`. */
  function NewApp(appid: nat): (a: App)
    ensures a.appid == appid && !a.registered
    ensures a.registerCode == "" && a.registerEmail == ""
    ensures a.registrationCode.None? && a.registrationEmail.None?
  {
    App(appid, false, "", "", None, None)
  }

  /** Both the code and the e-mail are stripped and lower-cased first. */
  function Normalize(s: string): (r: string)
    ensures |r| <= |s|
    ensures |r| > 0 ==> !Text.IsSpace(r[0]) && !Text.IsSpace(r[|r| - 1])
  {
    StripEnds(s);
    LowerEnds(Text.Strip(s));
    Text.Lower(Text.Strip(s))
  }

  /** Lower-casing keeps a string free of whitespace at both ends. */
  lemma LowerEnds(t: string)
    requires |t| > 0 ==> !Text.IsSpace(t[0]) && !Text.IsSpace(t[|t| - 1])
    ensures var r := Text.Lower(t); |r| > 0 ==> !Text.IsSpace(r[0]) && !Text.IsSpace(r[|r| - 1])
  {
    if |t| > 0 {
      LowerCharSpace(t[0]);
      LowerCharSpace(t[|t| - 1]);
    }
  }

  /** Lower-casing neither creates nor removes whitespace. */
  lemma LowerCharSpace(c: char)
    ensures Text.IsSpace(Text.LowerChar(c)) <==> Text.IsSpace(c)
  {
  }

  /** A stripped string neither starts nor ends with whitespace. */
  lemma StripEnds(s: string)
    ensures |Text.Strip(s)| <= |s|
    ensures var t := Text.Strip(s); |t| > 0 ==> !Text.IsSpace(t[0]) && !Text.IsSpace(t[|t| - 1])
  {
    var l := Text.StripLeft(s);
    var t := Text.StripRight(l);
    if |t| > 0 {
      assert t[0] == l[0];
    }
  }

  /** The digest input for serial `i`: application id, e-mail, serial, salt. */
  function DigestInput(appid: nat, email: string, i: nat): string {
    Text.Decimal(appid) + email + Text.Decimal(i) + Salt
  }

  /** A code is valid when, after normalisation, it has 32 characters and
      is the digest of the input for some serial below 100. */
  predicate ValidCode(appid: nat, code: string, email: string, md5hex: Digest) {
    Matches(appid, Normalize(code), Normalize(email), md5hex)
  }

  /** The validity test on an already normalised code `c` and e-mail `e`. */
  predicate Matches(appid: nat, c: string, e: string, md5hex: Digest) {
    |c| == 32 && exists i :: 0 <= i < Serials && md5hex(DigestInput(appid, e, i)) == c
  }

  /** `is_code_valid`. `digests` counts the digests computed: none for a
      code of the wrong length, and the search stops at the first match. */
  method IsCodeValid(app: App, code: string, email: string, md5hex: Digest) returns (valid: bool, digests: nat)
    ensures valid <==> ValidCode(app.appid, code, email, md5hex)
    ensures |Normalize(code)| != 32 ==> !valid && digests == 0
    ensures |Normalize(code)| == 32 && !valid ==> digests == Serials
    ensures valid ==> (
      && 1 <= digests <= Serials
      && md5hex(DigestInput(app.appid, Normalize(email), digests - 1)) == Normalize(code)
      && forall j :: 0 <= j < digests - 1 ==> md5hex(DigestInput(app.appid, Normalize(email), j)) != Normalize(code))
  {
    var c := Normalize(code);
    var e := Normalize(email);
    if |c| != 32 {
      return false, 0;
    }
    valid, digests := SearchSerials(app.appid, c, e, md5hex);
  }

  /** The loop of `is_code_valid`: tries the serials in increasing order
      and stops at the first whose digest is the code. */
  method SearchSerials(appid: nat, c: string, e: string, md5hex: Digest) returns (valid: bool, digests: nat)
    requires |c| == 32
    ensures valid <==> Matches(appid, c, e, md5hex)
    ensures !valid ==> digests == Serials
    ensures valid ==> (
      && 1 <= digests <= Serials
      && md5hex(DigestInput(appid, e, digests - 1)) == c
      && forall j :: 0 <= j < digests - 1 ==> md5hex(DigestInput(appid, e, j)) != c)
  {
    var i := 0;
    while i < Serials
      invariant 0 <= i <= Serials
      invariant forall j :: 0 <= j < i ==> md5hex(DigestInput(appid, e, j)) != c
    {
      if md5hex(DigestInput(appid, e, i)) == c {
        return true, i + 1;
      }
      i := i + 1;
    }
    return false, Serials;
  }

  /** `set_registration`: a valid code registers the application and
      stores the code and e-mail exactly as given, not normalised; an
      invalid one changes nothing. */
  method SetRegistration(app: App, code: string, email: string, md5hex: Digest) returns (r: App)
    ensures ValidCode(app.appid, code, email, md5hex) ==>
      r == app.(registered := true, registrationCode := Some(code), registrationEmail := Some(email))
    ensures !ValidCode(app.appid, code, email, md5hex) ==> r == app
    ensures r.registerCode == app.registerCode && r.registerEmail == app.registerEmail
  {
    var valid, _ := IsCodeValid(app, code, email, md5hex);
    if valid {
      r := app.(registered := true, registrationCode := Some(code), registrationEmail := Some(email));
    } else {
      r := app;
    }
  }

  lemma StripFixed(s: string)
    requires |s| > 0 ==> !Text.IsSpace(s[0]) && !Text.IsSpace(s[|s| - 1])
    ensures Text.Strip(s) == s
  {
  }

  lemma LowerTwice(s: string)
    ensures Text.Lower(Text.Lower(s)) == Text.Lower(s)
  {
  }

  /** Normalising twice is normalising once. */
  lemma NormalizeIdempotent(s: string)
    ensures Normalize(Normalize(s)) == Normalize(s)
  {
    var t := Normalize(s);
    StripFixed(t);
    LowerTwice(Text.Strip(s));
  }

  /** Validity depends only on the normalised code and e-mail: padding
      with whitespace or changing letter case does not matter. */
  lemma ValidCodeNormalized(appid: nat, code: string, email: string, md5hex: Digest)
    ensures ValidCode(appid, code, email, md5hex) <==> ValidCode(appid, Normalize(code), Normalize(email), md5hex)
  {
    NormalizeIdempotent(code);
    NormalizeIdempotent(email);
  }

  /** A code whose digest input matches is valid, and a code of any other
      length than 32 is not, whatever the digest function. */
  lemma ValidCodeExamples(appid: nat, email: string, md5hex: Digest, i: nat)
    requires i < Serials
    requires |md5hex(DigestInput(appid, Normalize(email), i))| == 32
    requires Normalize(md5hex(DigestInput(appid, Normalize(email), i))) == md5hex(DigestInput(appid, Normalize(email), i))
    ensures ValidCode(appid, md5hex(DigestInput(appid, Normalize(email), i)), email, md5hex)
    ensures !ValidCode(appid, "abc", email, md5hex)
  {
  }
}
