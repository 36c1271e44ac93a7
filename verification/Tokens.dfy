/**
 Sliding sessions: `TokenHandler` (backend/src/authentication/token-handler.ts) and `TokenMiddleware`
 (backend/src/middleware/token-middleware.ts). A token is represented by its claims, named as in sections 4.1.4
 to 4.1.6 of RFC 7519, and by whether its signature is genuine.
 */
module Tokens {
  import opened Common

  /** `rest` stands for the claims that nothing here looks at: roles, organs, the terms of service. */
  datatype Token<+P> = Token(userId: int, rest: P, nonce: string, jti: Option<string>,
                             iat: int, exp: int, nbf: int, genuine: bool)

  /** Clock readings are milliseconds; the library that signs and verifies counts whole seconds, rounded down. */
  function Seconds(ms: int): int {
    ms / 1000
  }

  /** `Math.round(ms / 1000)`, as the middleware counts. */
  function RoundedSeconds(ms: int): int {
    (ms + 500) / 1000
  }

  predicate Verifies<P>(t: Token<P>, ms: int) {
    t.genuine && t.nbf <= Seconds(ms) < t.exp
  }

  function Signed<P>(userId: int, rest: P, nonce: string, lifetime: int, ms: int): Token<P> {
    Token(userId, rest, nonce, None, Seconds(ms), Seconds(ms) + lifetime, Seconds(ms), true)
  }

  function Lifetime<P>(t: Token<P>): int {
    t.exp - t.iat
  }

  class TokenHandler {
    /** The expiry of newly signed tokens, in seconds. */
    const expiry: int

    constructor (expiry: int)
      ensures this.expiry == expiry
    {
      this.expiry := expiry;
    }

    /** None is the assertion error for an empty nonce. */
    method SignToken<P>(userId: int, rest: P, nonce: string, customExpiry: Option<int>, ms: int)
      returns (t: Option<Token<P>>)
      ensures t.Some? <==> nonce != ""
      ensures t.Some? ==>
        var lifetime := if customExpiry.Some? then customExpiry.value else expiry;
        && t == Some(Signed(userId, rest, nonce, lifetime, ms)) && Issued(t.value) && Lifetime(t.value) == lifetime
        && forall later :: Verifies(t.value, later) <==> Seconds(ms) <= Seconds(later) < Seconds(ms) + lifetime
    {
      if nonce == "" {
        return None;
      }
      var expiresIn := match customExpiry case Some(e) => e case None => expiry;
      var iat := Seconds(ms);
      t := Some(Token(userId, rest, nonce, None, iat, iat + expiresIn, iat + 0, true));
    }

    /** None is the rejection of the verifier. */
    method VerifyToken<P>(token: Token<P>, ms: int) returns (payload: Option<Token<P>>)
      ensures payload.Some? <==> Verifies(token, ms)
      ensures payload.Some? ==> payload.value == token
    {
      payload := if token.genuine && token.nbf <= Seconds(ms) && Seconds(ms) < token.exp then Some(token) else None;
    }

    /** Drops the time claims and the identifier and signs again with the lifetime of the old token. */
    method RefreshToken<P>(token: Token<P>, nonce: string, ms: int) returns (t: Option<Token<P>>)
      ensures t.Some? <==> Verifies(token, ms) && nonce != ""
      ensures t.Some? ==> t.value == Signed(token.userId, token.rest, nonce, Lifetime(token), ms)
    {
      var payload := VerifyToken(token, ms);
      if payload.None? {
        return None;
      }
      var lifetime := payload.value.exp - payload.value.iat;
      t := SignToken(payload.value.userId, payload.value.rest, nonce, Some(lifetime), ms);
    }
  }

  // ----- the middleware

  datatype Header<+P> = Missing | OtherScheme | Bearer(token: Token<P>)

  /** What the lookup of the user says; it can fail. */
  datatype Lookup = Present | Deleted | LookupFailed

  datatype Answer<+P> = Unauthorized | Forbidden | ServerError | Next(setAuthorization: Option<Token<P>>)

  class Request<P> {
    var token: Option<Token<P>>

    constructor ()
      ensures token == None
    {
      token := None;
    }
  }

  /** The span before the expiry in which a token is refreshed, in seconds. */
  function Span(expiry: int, refreshFactor: real): real {
    expiry as real * (1.0 - refreshFactor)
  }

  predicate RefreshDue<P>(t: Token<P>, ms: int, span: real) {
    RoundedSeconds(ms) as real >= t.exp as real - span
  }

  class TokenMiddleware {
    const tokenHandler: TokenHandler
    const refreshFactor: real

    constructor (tokenHandler: TokenHandler, refreshFactor: real)
      ensures this.tokenHandler == tokenHandler && this.refreshFactor == refreshFactor
    {
      this.tokenHandler, this.refreshFactor := tokenHandler, refreshFactor;
    }

    /** `nonce` is the fresh identifier for a refreshed token; the clock is read once. */
    method Handle<P>(req: Request<P>, authorization: Header<P>, isUserDeleted: int -> Lookup, nonce: string, ms: int)
      returns (answer: Answer<P>)
      requires nonce != ""
      modifies req
      ensures answer == Answered(authorization, isUserDeleted, nonce, ms, Span(tokenHandler.expiry, refreshFactor))
      ensures answer.Unauthorized? <==> !authorization.Bearer?
      ensures authorization.Bearer? ==>
        var t := authorization.token;
        var accepted := t.genuine && t.nbf <= ms / 1000 < t.exp;
        && (answer.Next? <==> accepted && isUserDeleted(t.userId).Present?)
        && (answer.Forbidden? <==> !accepted || isUserDeleted(t.userId).Deleted?)
        && (answer.ServerError? <==> accepted && isUserDeleted(t.userId).LookupFailed?)
      ensures answer.Next? ==>
        var t := authorization.token;
        var refreshAfter := t.exp as real - tokenHandler.expiry as real * (1.0 - refreshFactor);
        && (answer.setAuthorization.Some? <==> ((ms + 500) / 1000) as real >= refreshAfter)
        && (answer.setAuthorization.Some? ==>
             var now, lifetime := ms / 1000, t.exp - t.iat;
             answer.setAuthorization.value == Token(t.userId, t.rest, nonce, None, now, now + lifetime, now, true))
      ensures req.token == if authorization.Bearer? && Verifies(authorization.token, ms) then Some(authorization.token)
                           else old(req.token)
    {
      if !authorization.Bearer? {
        return Unauthorized;
      }
      var verified := tokenHandler.VerifyToken(authorization.token, ms);
      if verified.None? {
        return Forbidden;
      }
      req.token := verified;
      var deleted := isUserDeleted(verified.value.userId);
      if deleted.LookupFailed? {
        return ServerError;
      }
      if deleted.Deleted? {
        return Forbidden;
      }
      var now := RoundedSeconds(ms);
      var refreshAfter := verified.value.exp as real - Span(tokenHandler.expiry, refreshFactor);
      if now as real >= refreshAfter {
        var newToken := tokenHandler.RefreshToken(authorization.token, nonce, ms);
        return Next(newToken);
      }
      answer := Next(None);
    }
  }

  function Answered<P>(authorization: Header<P>, isUserDeleted: int -> Lookup, nonce: string, ms: int, span: real)
    : Answer<P>
  {
    match authorization
    case Missing => Unauthorized
    case OtherScheme => Unauthorized
    case Bearer(t) =>
      if !Verifies(t, ms) then Forbidden
      else
        match isUserDeleted(t.userId)
        case LookupFailed => ServerError
        case Deleted => Forbidden
        case Present =>
          Next(if RefreshDue(t, ms, span) then Some(Signed(t.userId, t.rest, nonce, Lifetime(t), ms)) else None)
  }

  // ----- a client that adopts every refreshed token

  /** The token the client holds after a request; None when the request was refused. */
  function Visit<P>(t: Token<P>, users: int -> Lookup, nonce: string, ms: int, span: real): Option<Token<P>> {
    match Answered(Bearer(t), users, nonce, ms, span)
    case Next(Some(newToken)) => Some(newToken)
    case Next(None) => Some(t)
    case _ => None
  }

  /** A request: the clock, the state of the user table and the nonce at hand. */
  datatype Call = Call(ms: int, users: int -> Lookup, nonce: string)

  function Session<P>(t: Token<P>, calls: seq<Call>, span: real): Option<Token<P>>
    decreases |calls|
  {
    if calls == [] then Some(t)
    else
      match Visit(t, calls[0].users, calls[0].nonce, calls[0].ms, span)
      case None => None
      case Some(next) => Session(next, calls[1..], span)
  }

  /** A visit succeeds exactly when the token verifies and its user is present. */
  lemma VisitSucceedsIff<P>(t: Token<P>, users: int -> Lookup, nonce: string, ms: int, span: real)
    ensures Visit(t, users, nonce, ms, span).Some? <==> Verifies(t, ms) && users(t.userId).Present?
  {
  }

  /** A session ends at the first call at which its user is not present: no chain of refreshes outlives the user. */
  lemma {:induction false} SessionNeedsUser<P>(t: Token<P>, calls: seq<Call>, span: real, k: nat)
    requires k < |calls| && !calls[k].users(t.userId).Present?
    ensures Session(t, calls, span) == None
    decreases |calls|
  {
    var c := calls[0];
    VisitSucceedsIff(t, c.users, c.nonce, c.ms, span);
    var v := Visit(t, c.users, c.nonce, c.ms, span);
    if v.Some? {
      assert v.value.userId == t.userId;
      SessionNeedsUser(v.value, calls[1..], span, k - 1);
    }
  }

  /** The token the client holds before call number `n`; None when the session has ended by then. */
  function HeldBefore<P>(t: Token<P>, calls: seq<Call>, span: real, n: nat): Option<Token<P>>
    requires n <= |calls|
  {
    Session(t, calls[..n], span)
  }

  lemma {:induction false} SessionOneMore<P>(t: Token<P>, calls: seq<Call>, span: real, n: nat)
    requires n < |calls|
    ensures HeldBefore(t, calls, span, n + 1) ==
      match HeldBefore(t, calls, span, n)
      case None => None
      case Some(held) => Visit(held, calls[n].users, calls[n].nonce, calls[n].ms, span)
    decreases n
  {
    var v := Visit(t, calls[0].users, calls[0].nonce, calls[0].ms, span);
    if n == 0 {
      assert calls[..1][1..] == [] && calls[..0] == [];
      if v.Some? { assert Session(v.value, [], span) == v; }
    } else {
      assert calls[..n + 1][1..] == calls[1..][..n] && calls[..n][1..] == calls[1..][..n - 1];
      if v.Some? { SessionOneMore(v.value, calls[1..], span, n - 1); }
    }
  }

  /** Exactly when a session survives: at every call the token held verifies and its user is present. */
  lemma {:induction false} SessionSurvivesIff<P>(t: Token<P>, calls: seq<Call>, span: real, n: nat)
    requires n <= |calls|
    ensures HeldBefore(t, calls, span, n).Some? <==>
      forall k :: 0 <= k < n ==>
        var held := HeldBefore(t, calls, span, k);
        held.Some? && Verifies(held.value, calls[k].ms) && calls[k].users(t.userId).Present?
    ensures HeldBefore(t, calls, span, n).Some? ==> HeldBefore(t, calls, span, n).value.userId == t.userId
  {
    if n == 0 {
      assert calls[..0] == [];
    } else {
      SessionSurvivesIff(t, calls, span, n - 1);
      SessionOneMore(t, calls, span, n - 1);
      var held := HeldBefore(t, calls, span, n - 1);
      if held.Some? {
        VisitSucceedsIff(held.value, calls[n - 1].users, calls[n - 1].nonce, calls[n - 1].ms, span);
      }
    }
  }

  ghost predicate ClockAscends(calls: seq<Call>) {
    forall i, j :: 0 <= i <= j < |calls| ==> calls[i].ms <= calls[j].ms
  }

  /** The user of the session is present throughout. */
  ghost predicate AlwaysPresent(calls: seq<Call>, userId: int) {
    forall i :: 0 <= i < |calls| ==> calls[i].users(userId) == Present
  }

  /** A token as the handler signs it: valid from the moment of issue. */
  predicate Issued<P>(t: Token<P>) {
    t.genuine && t.iat == t.nbf
  }

  lemma SecondsAscend(a: int, b: int)
    requires a <= b
    ensures Seconds(a) <= Seconds(b)
    ensures Seconds(a) <= RoundedSeconds(a) <= Seconds(a) + 1
  {
  }

  /**
   Signing and verifying together: a token is accepted for its lifetime, less at most the second that rounding the
   clock down costs, and never longer.
   */
  lemma SignedLasts<P>(userId: int, rest: P, nonce: string, lifetime: int, ms: int, later: int)
    requires ms <= later
    ensures later - ms <= (lifetime - 1) * 1000 ==> Verifies(Signed(userId, rest, nonce, lifetime, ms), later)
    ensures later - ms >= lifetime * 1000 ==> !Verifies(Signed(userId, rest, nonce, lifetime, ms), later)
  {
  }

  /** One visit keeps the user, the other claims and the lifetime, and never moves the expiry back. */
  lemma VisitKeeps<P>(t: Token<P>, users: int -> Lookup, nonce: string, ms: int, span: real)
    requires Issued(t) && Visit(t, users, nonce, ms, span).Some?
    ensures var next := Visit(t, users, nonce, ms, span).value;
            Issued(next) && next.userId == t.userId && next.rest == t.rest
            && Lifetime(next) == Lifetime(t) && next.exp >= t.exp
  {
  }

  /** Along every chain of refreshes the lifetime is constant, the claims are kept and the expiry never decreases. */
  lemma {:induction false} SessionKeeps<P>(t: Token<P>, calls: seq<Call>, span: real)
    requires Issued(t) && Session(t, calls, span).Some?
    ensures var last := Session(t, calls, span).value;
            Issued(last) && last.userId == t.userId && last.rest == t.rest
            && Lifetime(last) == Lifetime(t) && last.exp >= t.exp
    decreases |calls|
  {
    if calls != [] {
      VisitKeeps(t, calls[0].users, calls[0].nonce, calls[0].ms, span);
      SessionKeeps(Visit(t, calls[0].users, calls[0].nonce, calls[0].ms, span).value, calls[1..], span);
    }
  }

  /** After an accepted visit the token is good for its whole lifetime, or for longer than the refresh span. */
  lemma VisitGrants<P>(t: Token<P>, users: int -> Lookup, nonce: string, ms: int, span: real)
    requires Visit(t, users, nonce, ms, span).Some?
    ensures var next := Visit(t, users, nonce, ms, span).value;
            (next.exp == Seconds(ms) + Lifetime(t) || next.exp as real > Seconds(ms) as real + span)
            && next.genuine && next.nbf <= Seconds(ms)
  {
    SecondsAscend(ms, ms);
  }

  /** A pause of so many seconds is shorter than the lifetime and no longer than the refresh span. */
  predicate ShortPause(pause: int, lifetime: int, span: real) {
    pause < lifetime && pause as real <= span
  }

  ghost predicate ShortPauses(calls: seq<Call>, lifetime: int, span: real) {
    forall i :: 0 <= i < |calls| - 1 ==> ShortPause(Seconds(calls[i + 1].ms) - Seconds(calls[i].ms), lifetime, span)
  }

  /** A client with short pauses is never refused: its session lives as long as it likes. */
  lemma {:induction false} ActiveClientStaysLoggedIn<P>(t: Token<P>, calls: seq<Call>, span: real)
    requires calls != [] ==> Verifies(t, calls[0].ms)
    requires ClockAscends(calls) && AlwaysPresent(calls, t.userId)
    requires ShortPauses(calls, Lifetime(t), span)
    ensures Session(t, calls, span).Some?
    decreases |calls|
  {
    if calls != [] {
      var c := calls[0];
      var next := Visit(t, c.users, c.nonce, c.ms, span).value;
      VisitGrants(t, c.users, c.nonce, c.ms, span);
      var rest := calls[1..];
      if rest != [] {
        assert rest[0] == calls[1];
        SecondsAscend(c.ms, rest[0].ms);
        assert ShortPause(Seconds(rest[0].ms) - Seconds(c.ms), Lifetime(t), span);
        assert Verifies(next, rest[0].ms);
      }
      ActiveClientStaysLoggedIn(next, rest, span);
    }
  }

  lemma OneCall<P>(t: Token<P>, call: Call, span: real)
    ensures Session(t, [call], span) == Visit(t, call.users, call.nonce, call.ms, span)
  {
    var v := Visit(t, call.users, call.nonce, call.ms, span);
    assert [call][1..] == [];
    if v.Some? { assert Session(v.value, [], span) == Some(v.value); }
  }

  /** For tokens that live no longer than the span the bound is exact: the next call is accepted just below it. */
  lemma PauseBoundIsExact<P>(t: Token<P>, first: Call, second: Call, span: real)
    requires Issued(t) && Verifies(t, first.ms) && first.ms <= second.ms
    requires AlwaysPresent([first, second], t.userId) && Lifetime(t) as real <= span
    ensures Session(t, [first, second], span).Some? <==> Seconds(second.ms) - Seconds(first.ms) < Lifetime(t)
  {
    var calls := [first, second];
    assert calls[0].users(t.userId) == Present && calls[1].users(t.userId) == Present;
    SecondsAscend(first.ms, second.ms);
    assert RefreshDue(t, first.ms, span);
    TwoVisits(t, first, second, span);
  }

  /** The two calls are so many seconds apart, the first one in time, and the user is present at both. */
  ghost predicate PausedCalls<P>(t: Token<P>, first: Call, second: Call, pause: nat) {
    && Verifies(t, first.ms) && Seconds(second.ms) == Seconds(first.ms) + pause
    && AlwaysPresent([first, second], t.userId)
  }

  /** However the first call falls, the second one is accepted. */
  ghost predicate PauseIsSafe<P>(t: Token<P>, span: real, pause: nat) {
    forall first: Call, second: Call :: PausedCalls(t, first, second, pause) ==> Session(t, [first, second], span).Some?
  }

  /** A pause is always survived exactly when it is shorter than the lifetime and no longer than the span. */
  lemma PauseIsSafeIff<P>(t: Token<P>, span: real, pause: nat)
    requires Issued(t) && Lifetime(t) > 0 && span >= 0.0
    ensures PauseIsSafe(t, span, pause) <==> ShortPause(pause, Lifetime(t), span)
  {
    if ShortPause(pause, Lifetime(t), span) {
      forall first: Call, second: Call | PausedCalls(t, first, second, pause)
        ensures Session(t, [first, second], span).Some?
      {
        var calls := [first, second];
        assert calls[0].users(t.userId) == Present && calls[1].users(t.userId) == Present;
        TwoVisits(t, first, second, span);
        VisitGrants(t, first.users, first.nonce, first.ms, span);
      }
    } else if Lifetime(t) as real <= span {
      var first, second := CallAt(t.nbf), CallAt(t.nbf + pause);
      TwoVisits(t, first, second, span);
      SecondsAscend(first.ms, first.ms);
      assert PausedCalls(t, first, second, pause);
    } else {
      var start := if pause <= Lifetime(t) then t.exp - pause else t.nbf;
      var first, second := CallAt(start), CallAt(start + pause);
      TwoVisits(t, first, second, span);
      assert PausedCalls(t, first, second, pause);
    }
  }

  function CallAt(second: int): (c: Call)
    ensures Seconds(c.ms) == RoundedSeconds(c.ms) == second
    ensures forall id :: c.users(id) == Present
  {
    Call(second * 1000, id => Present, "nonce")
  }

  lemma TwoVisits<P>(t: Token<P>, first: Call, second: Call, span: real)
    requires Verifies(t, first.ms) && first.users(t.userId) == Present && second.users(t.userId) == Present
    ensures Visit(t, first.users, first.nonce, first.ms, span).Some?
    ensures var next := Visit(t, first.users, first.nonce, first.ms, span).value;
            Session(t, [first, second], span).Some? <==> Verifies(next, second.ms)
  {
    var calls := [first, second];
    var next := Visit(t, first.users, first.nonce, first.ms, span).value;
    assert calls[1..] == [second];
    assert Session(t, calls, span) == Session(next, [second], span);
    OneCall(next, second, span);
  }

  // ----- which tokens are refreshed

  /**
   The middleware promises that a refresh factor of 1.0 or higher prevents refreshing. For every token that can be
   used at all that holds exactly above 1.0: at 1.0 it is refreshed in the last half second before it expires,
   because the middleware rounds the clock up where the verifier rounds it down.
   */
  lemma NeverRefreshedIff<P>(t: Token<P>, expiry: int, refreshFactor: real)
    requires t.genuine && t.nbf < t.exp && expiry > 0
    ensures (forall ms: int :: Verifies(t, ms) ==> !RefreshDue(t, ms, Span(expiry, refreshFactor)))
      <==> refreshFactor > 1.0
  {
    var span := Span(expiry, refreshFactor);
    SpanSign(expiry, refreshFactor);
    if refreshFactor > 1.0 {
      forall ms: int | Verifies(t, ms) ensures !RefreshDue(t, ms, span) {
        SecondsAscend(ms, ms);
      }
    } else {
      var ms := t.exp * 1000 - 500;
      assert Seconds(ms) == t.exp - 1 && RoundedSeconds(ms) == t.exp;
      assert Verifies(t, ms) && RefreshDue(t, ms, span);
    }
  }

  lemma SpanSign(expiry: int, refreshFactor: real)
    requires expiry > 0
    ensures refreshFactor > 1.0 <==> Span(expiry, refreshFactor) < 0.0
  {
    var e, f := expiry as real, 1.0 - refreshFactor;
    if f >= 0.0 { assert e * f >= 0.0; } else { assert e * f < 0.0; }
  }

  /** A token is refreshed on every request exactly when it lives no longer than the span. */
  lemma AlwaysRefreshedIff<P>(t: Token<P>, span: real)
    requires Issued(t) && t.nbf < t.exp
    ensures (forall ms: int :: Verifies(t, ms) ==> RefreshDue(t, ms, span)) <==> Lifetime(t) as real <= span
  {
    if Lifetime(t) as real <= span {
      forall ms: int | Verifies(t, ms) ensures RefreshDue(t, ms, span) {
        SecondsAscend(ms, ms);
      }
    } else {
      var ms := t.nbf * 1000;
      assert Seconds(ms) == t.nbf && RoundedSeconds(ms) == t.nbf;
      assert Verifies(t, ms);
    }
  }
}
