/**
 * The user schema: an email that is required, unique, stored trimmed and
 * lower-cased and between 6 and 50 UTF-16 code units long, and a password that
 * queries leave out unless they ask for it. Hashing, comparison and token
 * signing are library calls and appear as function parameters.
 */
module UserModel {
  import opened Wrappers
  import Text
  import opened Persistence
  import opened Jwt

  type UserId = string

  /** A stored user document; `password` holds the hash, `None` when a query left it out. */
  datatype User = User(id: UserId, email: string, password: Option<string>)

  const MinEmailLength: nat := 6
  const MaxEmailLength: nat := 50

  /** The token lifetime `expiresIn: '24h'`, in seconds. */
  const TokenLifetime: nat := 24 * 60 * 60

  /** An email in the form the schema stores and accepts. */
  predicate ValidEmail(email: string) {
    Text.IsNormal(email) && MinEmailLength <= Text.JsLength(email) <= MaxEmailLength
  }

  /**
   * The first validator of the `email` path that fails on the stored value,
   * checked in the order the schema declares them: required, then the two
   * length bounds.
   */
  function EmailFailure(email: string): (r: Option<Validator>)
    ensures r.None? <==> MinEmailLength <= Text.JsLength(email) <= MaxEmailLength
    ensures email == "" ==> r == Some(Required)
    ensures email != "" && Text.JsLength(email) < MinEmailLength ==> r == Some(MinLength(MinEmailLength))
    ensures Text.JsLength(email) > MaxEmailLength ==> r == Some(MaxLength(MaxEmailLength))
  {
    if email == "" then Some(Required)
    else if Text.JsLength(email) < MinEmailLength then Some(MinLength(MinEmailLength))
    else if Text.JsLength(email) > MaxEmailLength then Some(MaxLength(MaxEmailLength))
    else None
  }

  /**
   * The length bounds count UTF-16 code units: a five-character address with
   * one character outside the Basic Multilingual Plane is long enough, while
   * five characters inside it are not.
   */
  lemma LengthCountsCodeUnits()
    ensures EmailFailure("\U{1F600}@a.b").None?
    ensures EmailFailure("x@a.b") == Some(MinLength(MinEmailLength))
  {
    assert ['\U{1F600}'][..0] == [];
    assert "\U{1F600}@a.b" == ['\U{1F600}'] + "@a.b";
    Text.JsLengthAppend(['\U{1F600}'], "@a.b");
    Text.JsLengthOfBmp("@a.b");
    Text.JsLengthOfBmp("x@a.b");
  }

  /** Setting the path stores the normalised value; it passes validation exactly when it is a valid email. */
  lemma StoredEmailPassesIffValid(email: string)
    ensures EmailFailure(Text.Normalized(email)).None? <==> ValidEmail(Text.Normalized(email))
  {
  }

  /** An email made only of white space passes the service's presence check but fails as missing. */
  lemma BlankEmailFailsAsRequired(email: string)
    requires Text.AllWhitespace(email)
    ensures EmailFailure(Text.Normalized(email)) == Some(Required)
  {
    Text.NormalizedOfWhitespace(email);
  }

  /** The document a query returns by default: the password is not selected. */
  function Selected(u: User): (r: User)
    ensures r.id == u.id && r.email == u.email
    ensures r.password.None?
  {
    u.(password := None)
  }

  /** `bcrypt.compare` rejects a missing argument with this message. */
  const MissingArgumentMessage := "data and hash arguments required"

  /**
   * `user.isValidPassword(candidate)`: `bcrypt.compare(candidate, hash)`,
   * which fails when either argument is missing.
   */
  function IsValidPassword(u: User, candidate: Option<string>, compare: (string, string) -> bool): (r: Result<bool, string>)
    ensures candidate.None? || u.password.None? <==> r == Failure(MissingArgumentMessage)
    ensures r.Success? ==> r.value == compare(candidate.value, u.password.value)
  {
    if candidate.None? || u.password.None? then Failure(MissingArgumentMessage)
    else Success(compare(candidate.value, u.password.value))
  }

  /** `bcrypt.compare` accepts a password against the hash `bcrypt.hash` made of it. */
  ghost predicate HashMatches(hash: string -> string, compare: (string, string) -> bool) {
    forall p :: compare(p, hash(p))
  }

  /** A document as a default query returns it cannot check a password: the hash was not selected. */
  lemma SelectedCannotCheckPassword(u: User, candidate: Option<string>, compare: (string, string) -> bool)
    ensures IsValidPassword(Selected(u), candidate, compare) == Failure(MissingArgumentMessage)
  {
  }

  /** `user.generateJWT()`: a token whose payload is the email alone, valid for 24 hours. */
  function GenerateJwt(u: User, sign: SignRequest -> string): string {
    sign(SignRequest(Claims(u.email), TokenLifetime))
  }

  /** A token made by `generateJWT` verifies to the user's email and nothing else. */
  lemma GeneratedTokenVerifies(u: User, sign: SignRequest -> string, verify: string -> Verification)
    requires SignedTokensVerify(sign, verify)
    ensures GenerateJwt(u, sign) != ""
    ensures VerifyToken(verify, Some(GenerateJwt(u, sign))) == Returned(Some(Claims(u.email)))
  {
    var req := SignRequest(Claims(u.email), TokenLifetime);
    assert sign(req) != "" && verify(sign(req)) == Returned(Some(req.payload));
  }
}
