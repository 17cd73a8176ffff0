/**
 * JSON Web Tokens as the backend uses them. Signing and verification are
 * library calls and appear as function parameters; this module fixes what
 * is signed and what verification can answer.
 */
module Jwt {
  import opened Wrappers
  import Text

  /** The payload the backend signs: the user's email and nothing else. */
  datatype Claims = Claims(email: string)

  /** What `jwt.sign` is asked for: a payload and the `expiresIn` option in seconds. */
  datatype SignRequest = SignRequest(payload: Claims, expiresInSeconds: nat)

  /**
   * What `jwt.verify` does with a token: it throws (bad signature, expired,
   * malformed), or it returns the decoded value, which may be falsy (`None`).
   */
  datatype Verification = Threw(message: string) | Returned(decoded: Option<Claims>)

  /**
   * `jwt.sign` and `jwt.verify` agree: a signed token is a non-empty string
   * and, while it has not expired, decodes to its payload.
   */
  ghost predicate SignedTokensVerify(sign: SignRequest -> string, verify: string -> Verification) {
    forall req :: sign(req) != "" && verify(sign(req)) == Returned(Some(req.payload))
  }

  /** The message `jwt.verify` throws for a falsy token, before any signature check. */
  const MissingTokenMessage := "jwt must be provided"

  /** `jwt.verify(token, secret)` for a token that may be missing or empty. */
  function VerifyToken(verify: string -> Verification, token: Option<string>): (v: Verification)
    ensures !Text.Present(token) ==> v == Threw(MissingTokenMessage)
    ensures Text.Present(token) ==> v == verify(token.value)
  {
    if Text.Present(token) then verify(token.value) else Threw(MissingTokenMessage)
  }
}
