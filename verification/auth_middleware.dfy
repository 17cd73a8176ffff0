/**
 * The HTTP authentication gate `userAuthMiddleware` and the token
 * blacklist that logout fills. The gate's run is described by the sequence
 * of effects it attempts, in order: responses sent, the blacklist lookup,
 * the cookie cleared, `req.user` assigned, `next()` called.
 */
module AuthMiddleware {
  import opened Wrappers
  import Text
  import opened Jwt
  import UserModel

  /** The parts of a request the gate reads: the `token` cookie and the `Authorization` header. */
  datatype Request = Request(cookieToken: Option<string>, authorization: Option<string>)

  /** The body of every rejection, `{ error: "Unauthorized User" }`. */
  const UnauthorizedMessage := "Unauthorized User"

  /** What `undefined.split(' ')` throws when neither a cookie nor the header carries a token. */
  const MissingHeaderMessage := "Cannot read properties of undefined (reading 'split')"

  /**
   * `req.cookies.token || req.headers.authorization.split(' ')[1]`: the cookie
   * when it is truthy, else the second space-separated word of the header,
   * which throws when there is no header.
   */
  function RequestToken(req: Request): (r: Result<Option<string>, string>)
    ensures Text.Present(req.cookieToken) ==> r == Success(req.cookieToken)
    ensures r.Failure? <==> !Text.Present(req.cookieToken) && req.authorization.None?
    ensures r.Failure? ==> r.error == MissingHeaderMessage
    ensures !Text.Present(req.cookieToken) && req.authorization.Some? ==>
      r == Success(Text.Piece(req.authorization.value, ' ', 1))
    ensures r.Success? && r.value.Some? ==> Text.Present(req.cookieToken) || ' ' !in r.value.value
  {
    if Text.Present(req.cookieToken) then Success(req.cookieToken)
    else if req.authorization.None? then Failure(MissingHeaderMessage)
    else Success(Text.Piece(req.authorization.value, ' ', 1))
  }

  /** One attempted effect of the gate. Every `Respond401` carries `UnauthorizedMessage`. */
  datatype Effect =
    | Respond401
    | ClearCookie
    | LookUpBlacklist(token: Option<string>)
    | SetUser(decoded: Option<Claims>)
    | CallNext

  /**
   * `userAuthMiddleware(req, res, next)`. A falsy token gets a 401 but the
   * code does not return there, so the blacklist lookup still follows; a
   * blacklisted token clears the cookie and gets a 401; otherwise the token
   * is verified and either `req.user` is set and `next()` called, or the
   * thrown error gets a 401.
   */
  function Gate(req: Request, blacklist: set<string>, verify: string -> Verification): (effects: seq<Effect>)
    ensures RequestToken(req).Failure? ==> effects == [Respond401]
    ensures effects != [] && effects[|effects| - 1] in {Respond401, CallNext}
    ensures RequestToken(req).Success? && !Text.Present(RequestToken(req).value) ==>
      effects[0] == Respond401 && CallNext !in effects
  {
    match RequestToken(req)
    case Failure(_) => [Respond401]
    case Success(t) => FalsyAnswer(t) + Checked(t, blacklist, verify)
  }

  /** The 401 sent for a falsy token, without returning. */
  function FalsyAnswer(t: Option<string>): (effects: seq<Effect>)
    ensures effects == [] <==> Text.Present(t)
    ensures effects != [] ==> effects == [Respond401]
  {
    if Text.Present(t) then [] else [Respond401]
  }

  /** The part of the gate after token extraction: lookup, then blacklist answer or verification. */
  function Checked(t: Option<string>, blacklist: set<string>, verify: string -> Verification): (effects: seq<Effect>)
    ensures |effects| >= 2 && effects[0] == LookUpBlacklist(t)
    ensures LookUpBlacklist(t) !in effects[1..]
    ensures effects[|effects| - 1] in {Respond401, CallNext}
    ensures ClearCookie in effects <==> t.Some? && t.value in blacklist
    ensures CallNext in effects <==> !(t.Some? && t.value in blacklist) && VerifyToken(verify, t).Returned?
  {
    [LookUpBlacklist(t)] +
      if t.Some? && t.value in blacklist then [ClearCookie, Respond401]
      else
        match VerifyToken(verify, t)
        case Threw(_) => [Respond401]
        case Returned(d) => [SetUser(d), CallNext]
  }

  /** `next()` is called exactly when a truthy token is found, is not blacklisted and verifies; the run is then exactly lookup, `req.user`, `next()`. */
  lemma NextIffVerified(req: Request, blacklist: set<string>, verify: string -> Verification)
    ensures CallNext in Gate(req, blacklist, verify) <==>
      && RequestToken(req).Success?
      && Text.Present(RequestToken(req).value)
      && RequestToken(req).value.value !in blacklist
      && verify(RequestToken(req).value.value).Returned?
    ensures CallNext in Gate(req, blacklist, verify) ==>
      var t := RequestToken(req).value;
      Gate(req, blacklist, verify) == [LookUpBlacklist(t), SetUser(verify(t.value).decoded), CallNext]
  {
    if RequestToken(req).Success? {
      var t := RequestToken(req).value;
      if !Text.Present(t) {
        assert VerifyToken(verify, t).Threw?;
        assert Gate(req, blacklist, verify) == [Respond401] + Checked(t, blacklist, verify);
      }
    }
  }

  /** Every run either reaches `next()` or answers 401, never both. */
  lemma AnswersOrContinues(req: Request, blacklist: set<string>, verify: string -> Verification)
    ensures Respond401 in Gate(req, blacklist, verify) <==> CallNext !in Gate(req, blacklist, verify)
  {
    if RequestToken(req).Success? {
      var t := RequestToken(req).value;
      var c := Checked(t, blacklist, verify);
      if !Text.Present(t) {
        assert VerifyToken(verify, t).Threw?;
        assert Gate(req, blacklist, verify) == [Respond401] + c;
      } else {
        assert Gate(req, blacklist, verify) == c;
      }
    }
  }

  /** The cookie is cleared exactly for a blacklisted token, and the run then ends with that and the 401. */
  lemma BlacklistedTokenIsRefused(req: Request, blacklist: set<string>, verify: string -> Verification)
    ensures ClearCookie in Gate(req, blacklist, verify) <==>
      RequestToken(req).Success? && RequestToken(req).value.Some? && RequestToken(req).value.value in blacklist
    ensures ClearCookie in Gate(req, blacklist, verify) ==>
      var effects := Gate(req, blacklist, verify);
      effects[|effects| - 2..] == [ClearCookie, Respond401] && CallNext !in effects
  {
    if RequestToken(req).Success? {
      var t := RequestToken(req).value;
      var c := Checked(t, blacklist, verify);
      if t.Some? && t.value in blacklist {
        BlacklistedRun(FalsyAnswer(t), t, c);
      } else {
        assert ClearCookie !in c;
        assert ClearCookie !in FalsyAnswer(t);
      }
    }
  }

  lemma BlacklistedRun(early: seq<Effect>, t: Option<string>, c: seq<Effect>)
    requires early == [] || early == [Respond401]
    requires c == [LookUpBlacklist(t), ClearCookie, Respond401]
    ensures var e := early + c;
            ClearCookie in e && e[|e| - 2..] == [ClearCookie, Respond401] && CallNext !in e
  {
    var e := early + c;
    assert e[|e| - 2] == ClearCookie && e[|e| - 1] == Respond401;
    assert forall k :: 0 <= k < |e| ==> e[k] != CallNext;
  }

  /** The blacklist is consulted before the token is decoded. */
  lemma LookupPrecedesDecoding(req: Request, blacklist: set<string>, verify: string -> Verification)
    ensures var effects := Gate(req, blacklist, verify);
            forall j :: 0 <= j < |effects| && effects[j].SetUser? ==> 0 < j && effects[j - 1].LookUpBlacklist?
  {
    if RequestToken(req).Success? {
      var t := RequestToken(req).value;
      if !Text.Present(t) {
        assert VerifyToken(verify, t).Threw?;
      }
    }
  }

  /** A falsy token is answered with 401 and is then still looked up in the blacklist. */
  lemma FalsyTokenIsStillLookedUp(req: Request, blacklist: set<string>, verify: string -> Verification)
    requires RequestToken(req).Success? && !Text.Present(RequestToken(req).value)
    ensures var effects := Gate(req, blacklist, verify);
            && effects[..2] == [Respond401, LookUpBlacklist(RequestToken(req).value)]
            && CallNext !in effects
  {
    var t := RequestToken(req).value;
    assert VerifyToken(verify, t).Threw?;
  }

  /**
   * `logoutController`: the request's token is written to the blacklist; a
   * request without a cookie or header fails like the gate does. An
   * `undefined` token is not stored.
   */
  function Logout(blacklist: set<string>, req: Request): (r: Result<set<string>, string>)
    ensures r.Failure? <==> RequestToken(req).Failure?
    ensures r.Success? ==> blacklist <= r.value
    ensures r.Success? ==> forall t :: t in r.value - blacklist ==> RequestToken(req).value == Some(t)
    ensures r.Success? && RequestToken(req).value.Some? ==> RequestToken(req).value.value in r.value
  {
    match RequestToken(req)
    case Failure(m) => Failure(m)
    case Success(t) => Success(if t.Some? then blacklist + {t.value} else blacklist)
  }

  /** After logging out, any request carrying the same token is refused and its cookie cleared, however it verifies. */
  lemma LoggedOutTokenIsRefused(blacklist: set<string>, out: Request, later: Request, verify: string -> Verification)
    requires Logout(blacklist, out).Success? && RequestToken(out).value.Some?
    requires RequestToken(later) == RequestToken(out)
    ensures var effects := Gate(later, Logout(blacklist, out).value, verify);
            CallNext !in effects && ClearCookie in effects && Respond401 in effects
  {
    BlacklistedTokenIsRefused(later, Logout(blacklist, out).value, verify);
    AnswersOrContinues(later, Logout(blacklist, out).value, verify);
  }

  /**
   * The logout route sits behind the gate: a request that reaches
   * `logoutController` carries a truthy token that was not yet blacklisted,
   * and logging out adds exactly that token.
   */
  lemma LogoutBehindGate(req: Request, blacklist: set<string>, verify: string -> Verification)
    requires CallNext in Gate(req, blacklist, verify)
    ensures RequestToken(req).Success? && Text.Present(RequestToken(req).value)
    ensures RequestToken(req).value.value !in blacklist
    ensures Logout(blacklist, req) == Success(blacklist + {RequestToken(req).value.value})
  {
    NextIffVerified(req, blacklist, verify);
  }

  /**
   * A token made by `generateJWT` passes the gate, sent either as the cookie
   * or as the second word of the `Authorization` header, until it is
   * blacklisted; `req.user` is then the email claim.
   */
  lemma IssuedTokenPasses(u: UserModel.User, sign: SignRequest -> string, verify: string -> Verification,
                          blacklist: set<string>, scheme: string, cookie: Option<string>)
    requires SignedTokensVerify(sign, verify)
    requires UserModel.GenerateJwt(u, sign) !in blacklist && ' ' !in UserModel.GenerateJwt(u, sign)
    requires ' ' !in scheme && !Text.Present(cookie)
    ensures var token := UserModel.GenerateJwt(u, sign);
            var expected := [LookUpBlacklist(Some(token)), SetUser(Some(Claims(u.email))), CallNext];
            && Gate(Request(Some(token), None), blacklist, verify) == expected
            && Gate(Request(cookie, Some(scheme + " " + token)), blacklist, verify) == expected
  {
    var token := UserModel.GenerateJwt(u, sign);
    UserModel.GeneratedTokenVerifies(u, sign, verify);
    Text.BearerPiece(scheme, token);
    assert RequestToken(Request(cookie, Some(scheme + " " + token))) == Success(Some(token));
  }

  /** The statuses a run of effects sends, in order. */
  function Responses(effects: seq<Effect>): (statuses: seq<int>)
    ensures |statuses| <= |effects|
    ensures forall k :: 0 <= k < |statuses| ==> statuses[k] == 401
    ensures statuses == [] <==> Respond401 !in effects
  {
    if effects == [] then []
    else (if effects[0] == Respond401 then [401] else []) + Responses(effects[1..])
  }

  lemma {:induction false} ResponsesAppend(a: seq<Effect>, b: seq<Effect>)
    ensures Responses(a + b) == Responses(a) + Responses(b)
  {
    if a != [] {
      ResponsesAppend(a[1..], b);
      assert (a + b)[0] == a[0] && (a + b)[1..] == a[1..] + b;
    } else {
      assert a + b == b;
    }
  }

  /** The value assigned to `req.user` by a run of effects, if any. */
  function AssignedUser(effects: seq<Effect>): (user: Option<Option<Claims>>)
    ensures user.Some? <==> exists k :: 0 <= k < |effects| && effects[k].SetUser?
    ensures user.Some? ==> SetUser(user.value) in effects
  {
    if effects == [] then None
    else if AssignedUser(effects[1..]).Some? then AssignedUser(effects[1..])
    else if effects[0].SetUser? then Some(effects[0].decoded)
    else None
  }

  lemma AssignedUserAppend(early: seq<Effect>, c: seq<Effect>)
    requires early == [] || early == [Respond401]
    ensures AssignedUser(early + c) == AssignedUser(c)
  {
    if early != [] {
      assert (early + c)[0] == Respond401 && (early + c)[1..] == c;
    } else {
      assert early + c == c;
    }
  }

  /** What the whole gate sends, assigns and calls, in terms of the part after token extraction. */
  lemma GateRun(req: Request, blacklist: set<string>, verify: string -> Verification)
    ensures var effects := Gate(req, blacklist, verify);
            RequestToken(req).Failure? ==>
              Responses(effects) == [401] && AssignedUser(effects).None?
              && ClearCookie !in effects && CallNext !in effects
    ensures var effects := Gate(req, blacklist, verify);
            RequestToken(req).Success? ==>
              var t := RequestToken(req).value;
              var c := Checked(t, blacklist, verify);
              && Responses(effects) == (if Text.Present(t) then [] else [401]) + Responses(c)
              && AssignedUser(effects) == AssignedUser(c)
              && (ClearCookie in effects <==> ClearCookie in c)
              && (CallNext in effects <==> CallNext in c)
  {
    assert [Respond401][1..] == [];
    if RequestToken(req).Success? {
      var t := RequestToken(req).value;
      var early, c := FalsyAnswer(t), Checked(t, blacklist, verify);
      ResponsesAppend(early, c);
      AssignedUserAppend(early, c);
    }
  }

  /** What the part of the gate after token extraction sends, assigns and calls. */
  lemma CheckedRun(t: Option<string>, blacklist: set<string>, verify: string -> Verification)
    ensures var c := Checked(t, blacklist, verify);
            var refused := (t.Some? && t.value in blacklist) || VerifyToken(verify, t).Threw?;
            && Responses(c) == (if refused then [401] else [])
            && AssignedUser(c) == (if refused then None else Some(VerifyToken(verify, t).decoded))
            && (ClearCookie in c <==> t.Some? && t.value in blacklist)
            && (CallNext in c <==> !refused)
  {
    var c := Checked(t, blacklist, verify);
    assert c[0] == LookUpBlacklist(t);
    if t.Some? && t.value in blacklist {
      assert c[1..] == [ClearCookie, Respond401] && c[1..][1..] == [Respond401];
    } else if VerifyToken(verify, t).Threw? {
      assert c[1..] == [Respond401];
    } else {
      assert c[1..] == [SetUser(VerifyToken(verify, t).decoded), CallNext] && c[1..][1..] == [CallNext];
    }
  }

  /** One request/response exchange passing through the gate. */
  class Exchange {
    const request: Request
    /** Statuses sent on the response, in order. */
    var statuses: seq<int>
    /** `res.cookie('token', '')` was called. */
    var cookieCleared: bool
    /** `req.user`, once assigned. */
    var user: Option<Option<Claims>>
    /** Keys read from the blacklist, in order. */
    var lookups: seq<Option<string>>
    var nextCalled: bool

    constructor (request: Request)
      ensures this.request == request
      ensures statuses == [] && !cookieCleared && user.None? && lookups == [] && !nextCalled
    {
      this.request := request;
      statuses := [];
      cookieCleared := false;
      user := None;
      lookups := [];
      nextCalled := false;
    }

    /**
     * Runs the gate on this exchange: a throw during token extraction sends
     * one 401; otherwise a falsy token gets a 401 and the rest is `Check`.
     * `GateRun` shows this is the old state with the effects of `Gate` applied.
     */
    method Authenticate(blacklist: set<string>, verify: string -> Verification)
      modifies this
      ensures RequestToken(request).Failure? ==>
                && statuses == old(statuses) + [401]
                && cookieCleared == old(cookieCleared) && user == old(user)
                && nextCalled == old(nextCalled) && lookups == old(lookups)
      ensures RequestToken(request).Success? ==>
                var t := RequestToken(request).value;
                var c := Checked(t, blacklist, verify);
                && statuses == old(statuses) + (if Text.Present(t) then [] else [401]) + Responses(c)
                && cookieCleared == (old(cookieCleared) || ClearCookie in c)
                && user == (if AssignedUser(c).Some? then AssignedUser(c) else old(user))
                && nextCalled == (old(nextCalled) || CallNext in c)
                && lookups == old(lookups) + [t]
    {
      var found := RequestToken(request);
      if found.Failure? {
        statuses := statuses + [401];
        return;
      }
      var token := found.value;
      if !Text.Present(token) {
        statuses := statuses + [401];
      }
      Check(token, blacklist, verify);
    }

    /** The gate after token extraction: the blacklist lookup, then the blacklist answer or verification. */
    method Check(token: Option<string>, blacklist: set<string>, verify: string -> Verification)
      modifies this
      ensures var c := Checked(token, blacklist, verify);
              && statuses == old(statuses) + Responses(c)
              && cookieCleared == (old(cookieCleared) || ClearCookie in c)
              && user == (if AssignedUser(c).Some? then AssignedUser(c) else old(user))
              && nextCalled == (old(nextCalled) || CallNext in c)
              && lookups == old(lookups) + [token]
    {
      CheckedRun(token, blacklist, verify);
      lookups := lookups + [token];
      if token.Some? && token.value in blacklist {
        cookieCleared := true;
        statuses := statuses + [401];
        return;
      }
      var v := VerifyToken(verify, token);
      if v.Threw? {
        statuses := statuses + [401];
        return;
      }
      user := Some(v.decoded);
      nextCalled := true;
    }
  }
}
