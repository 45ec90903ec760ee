/** The demonstration authorization server: codes are recorded at the authorize endpoint, redeemed once
    at the token endpoint, and tokens are stored (sections 4.1.2 and 4.1.3 of RFC 6749). */
module AuthServer {
  import opened Options
  import opened Sequences

  const DEMO_CLIENT := "mcp_6950e6b7db0e6115a5af3a790340ad87"
  const CODE_LIFETIME := 600.0
  const ACCESS_LIFETIME := 3600
  const REFRESH_LIFETIME := 30 * 24 * 3600
  const DEFAULT_RESOURCE := "http://localhost:3000/mcp"

  datatype CodeData = CodeData(clientId: string, redirectUri: string, resource: string, scope: string,
                               challenge: string, challengeMethod: string, expiresAt: real)

  datatype Kind = Access | Refresh

  datatype Payload = Payload(kind: Kind, aud: string, clientId: string, exp: int, iat: int, jti: string, scope: string)

  datatype Token = Token(jwt: string, payload: Payload)

  datatype State = State(clients: set<string>, codes: map<string, CodeData>, tokens: map<string, Token>)

  /** Requests with the values drawn while handling them: fresh ids, and the signatures, `None` where
      signing raises. */
  datatype Request =
    | Register(clientId: string)
    | Authorize(responseType: string, client: string, redirect: string, resource: string, scope: string,
                challenge: string, challengeMethod: string, newCode: string, now: real)
    | Redeem(code: Option<string>, redirectUri: Option<string>, presenter: Option<string>,
             accessId: string, refreshId: string, accessJwt: Option<string>, refreshJwt: Option<string>, now: real)
    | Renew(renewer: string, renewedId: string, renewedJwt: Option<string>, now: real)
    | Unsupported

  datatype Reply =
    | Registered
    | CodeIssued(code: string)
    | Pair(access: string, refresh: string)
    | Renewed(access: string)
    | InvalidGrant
    | InvalidClient
    | UnsupportedResponseType
    | UnsupportedGrantType
    | ServerError

  // ----- the rules -----------------------------------------------------------------------------

  predicate KnownClient(s: State, client: string) {
    client in s.clients || client == DEMO_CLIENT
  }

  predicate IssuesCode(s: State, r: Request) {
    r.Authorize? && r.responseType == "code" && KnownClient(s, r.client)
  }

  function CodeOf(r: Request): CodeData
    requires r.Authorize?
  {
    CodeData(r.client, r.redirect, r.resource, r.scope, r.challenge, r.challengeMethod, r.now + CODE_LIFETIME)
  }

  /** The request passes every check of the token endpoint, so its code is used up. */
  predicate Consumes(s: State, r: Request) {
    && r.Redeem? && r.code.Some? && r.code.value in s.codes
    && var data := s.codes[r.code.value];
       r.now <= data.expiresAt && r.presenter == Some(data.clientId) && r.redirectUri == Some(data.redirectUri)
  }

  /** ... and both signatures succeed. */
  predicate Redeems(s: State, r: Request) {
    Consumes(s, r) && r.accessJwt.Some? && r.refreshJwt.Some?
  }

  predicate Renews(r: Request) {
    r.Renew? && r.renewedJwt.Some?
  }

  function GrantPayload(kind: Kind, id: string, data: CodeData, now: int): Payload {
    Payload(kind, data.resource, data.clientId,
            now + if kind == Access then ACCESS_LIFETIME else REFRESH_LIFETIME, now, id, data.scope)
  }

  function RenewPayload(r: Request): Payload
    requires r.Renew?
  {
    Payload(Access, DEFAULT_RESOURCE, r.renewer, r.now.Floor + ACCESS_LIFETIME, r.now.Floor, r.renewedId, "")
  }

  /** The state after a request. */
  function Apply(s: State, r: Request): State {
    match r
    case Register(id) => s.(clients := s.clients + {id})
    case Authorize(_, _, _, _, _, _, _, _, _) =>
      if r.responseType != "code" then s
      else if !KnownClient(s, r.client) then s
      else s.(clients := s.clients + {r.client}, codes := s.codes[r.newCode := CodeOf(r)])
    case Redeem(_, _, _, _, _, _, _, _) =>
      if !Consumes(s, r) then s
      else
        var data := s.codes[r.code.value];
        var used := s.(codes := s.codes - {r.code.value});
        if !Redeems(s, r) then used
        else
          var access := Token(r.accessJwt.value, GrantPayload(Access, r.accessId, data, r.now.Floor));
          var refresh := Token(r.refreshJwt.value, GrantPayload(Refresh, r.refreshId, data, r.now.Floor));
          used.(tokens := s.tokens[r.accessId := access][r.refreshId := refresh])
    case Renew(_, _, _, _) =>
      if !Renews(r) then s else s.(tokens := s.tokens[r.renewedId := Token(r.renewedJwt.value, RenewPayload(r))])
    case Unsupported => s
  }

  function Answer(s: State, r: Request): Reply {
    match r
    case Register(_) => Registered
    case Authorize(_, _, _, _, _, _, _, _, _) =>
      if r.responseType != "code" then UnsupportedResponseType
      else if KnownClient(s, r.client) then CodeIssued(r.newCode) else InvalidClient
    case Redeem(_, _, _, _, _, _, _, _) =>
      if !Consumes(s, r) then InvalidGrant
      else if Redeems(s, r) then Pair(r.accessJwt.value, r.refreshJwt.value) else ServerError
    case Renew(_, _, _, _) => if Renews(r) then Renewed(r.renewedJwt.value) else ServerError
    case Unsupported => UnsupportedGrantType
  }

  // ----- the handlers --------------------------------------------------------------------------

  class AuthServer {
    var registeredClients: set<string>
    var authorizationCodes: map<string, CodeData>
    var tokens: map<string, Token>

    ghost function Now(): State
      reads this
    {
      State(registeredClients, authorizationCodes, tokens)
    }

    constructor ()
      ensures Now() == State({}, map[], map[])
    {
      registeredClients, authorizationCodes, tokens := {}, map[], map[];
    }

    method HandleRegister(r: Request) returns (reply: Reply)
      requires r.Register?
      modifies this
      ensures Now() == Apply(old(Now()), r) && reply == Answer(old(Now()), r)
    {
      registeredClients := registeredClients + {r.clientId};
      reply := Registered;
    }

    method HandleAuthorize(r: Request) returns (reply: Reply)
      requires r.Authorize?
      modifies this
      ensures Now() == Apply(old(Now()), r) && reply == Answer(old(Now()), r)
    {
      if r.responseType != "code" { return UnsupportedResponseType; }
      if r.client !in registeredClients && r.client == DEMO_CLIENT {
        registeredClients := registeredClients + {r.client};
      }
      if r.client !in registeredClients { return InvalidClient; }
      authorizationCodes := authorizationCodes[r.newCode := CodeOf(r)];
      assert registeredClients == old(registeredClients) + {r.client};
      reply := CodeIssued(r.newCode);
    }

    /** The token endpoint.  The code is deleted before anything is signed, and the tokens are stored only
        after both signatures are there. */
    method HandleToken(r: Request) returns (reply: Reply)
      requires r.Redeem? || r.Renew? || r.Unsupported?
      modifies this
      ensures Now() == Apply(old(Now()), r) && reply == Answer(old(Now()), r)
    {
      if r.Redeem? {
        if r.code.None? || r.code.value !in authorizationCodes { return InvalidGrant; }
        var data := authorizationCodes[r.code.value];
        if r.now > data.expiresAt || Some(data.clientId) != r.presenter || Some(data.redirectUri) != r.redirectUri {
          return InvalidGrant;
        }
        authorizationCodes := authorizationCodes - {r.code.value};
        var now := r.now.Floor;
        var accessPayload := GrantPayload(Access, r.accessId, data, now);
        var refreshPayload := GrantPayload(Refresh, r.refreshId, data, now);
        if r.accessJwt.None? { return ServerError; }
        if r.refreshJwt.None? { return ServerError; }
        tokens := tokens[r.accessId := Token(r.accessJwt.value, accessPayload)];
        tokens := tokens[r.refreshId := Token(r.refreshJwt.value, refreshPayload)];
        reply := Pair(r.accessJwt.value, r.refreshJwt.value);
      } else if r.Renew? {
        if r.renewedJwt.None? { return ServerError; }
        tokens := tokens[r.renewedId := Token(r.renewedJwt.value, RenewPayload(r))];
        reply := Renewed(r.renewedJwt.value);
      } else {
        reply := UnsupportedGrantType;
      }
    }
  }

  // ----- runs ----------------------------------------------------------------------------------

  function Run(rs: seq<Request>): State {
    if rs == [] then State({}, map[], map[]) else Apply(Run(rs[..|rs| - 1]), rs[|rs| - 1])
  }

  /** No authorization code is drawn twice. */
  ghost predicate FreshCodes(rs: seq<Request>) {
    forall i, j :: 0 <= i < j < |rs| && rs[i].Authorize? && rs[j].Authorize? ==> rs[i].newCode != rs[j].newCode
  }

  function IdsDrawn(r: Request): seq<string> {
    if r.Redeem? then [r.accessId, r.refreshId] else if r.Renew? then [r.renewedId] else []
  }

  function AllIds(rs: seq<Request>): seq<string> {
    if rs == [] then [] else AllIds(rs[..|rs| - 1]) + IdsDrawn(rs[|rs| - 1])
  }

  ghost predicate UsesUp(rs: seq<Request>, j: nat, c: string)
    requires j < |rs|
  {
    Consumes(Run(rs[..j]), rs[j]) && rs[j].code == Some(c)
  }

  /** `i` recorded the code `c`, and nobody has used it up since. */
  ghost predicate Outstanding(rs: seq<Request>, i: nat, c: string) {
    && i < |rs| && IssuesCode(Run(rs[..i]), rs[i]) && rs[i].newCode == c
    && forall j :: i < j < |rs| ==> !UsesUp(rs, j, c)
  }

  /** A stored code is what some authorize request recorded, and it is unused. */
  lemma {:induction false} StoredCodeIsOutstanding(rs: seq<Request>, c: string) returns (i: nat)
    requires c in Run(rs).codes
    ensures Outstanding(rs, i, c) && Run(rs).codes[c] == CodeOf(rs[i])
  {
    var init, r := rs[..|rs| - 1], rs[|rs| - 1];
    var before := Run(init);
    if IssuesCode(before, r) && r.newCode == c {
      i := |init|;
    } else {
      i := StoredCodeIsOutstanding(init, c);
      assert rs[..i] == init[..i];
      forall j | i < j < |rs| ensures !UsesUp(rs, j, c) {
        if j < |init| {
          assert !UsesUp(init, j, c);
          assert rs[..j] == init[..j];
        } else {
          assert rs[..j] == init;
        }
      }
    }
  }

  /** Whoever obtains a token pair presents an unexpired code, as the client and with the redirect URI that
      were recorded when that code was issued. */
  lemma PairIsLegitimate(rs: seq<Request>, j: nat) returns (i: nat)
    requires j < |rs| && Redeems(Run(rs[..j]), rs[j])
    ensures i < j && IssuesCode(Run(rs[..i]), rs[i]) && Some(rs[i].newCode) == rs[j].code
    ensures rs[j].presenter == Some(rs[i].client) && rs[j].redirectUri == Some(rs[i].redirect)
    ensures rs[j].now <= rs[i].now + CODE_LIFETIME
  {
    i := StoredCodeIsOutstanding(rs[..j], rs[j].code.value);
    assert rs[..j][..i] == rs[..i];
  }

  lemma RunStep(rs: seq<Request>, k: nat)
    requires k < |rs|
    ensures Run(rs[..k + 1]) == Apply(Run(rs[..k]), rs[k])
  {
    assert rs[..k + 1][..k] == rs[..k];
  }

  /** A code that is gone stays gone unless it is drawn again. */
  lemma GoneStays(s: State, r: Request, c: string)
    requires c !in s.codes && (r.Authorize? ==> r.newCode != c)
    ensures c !in Apply(s, r).codes
  {
  }

  lemma CodeNotDrawnAgain(rs: seq<Request>, j: nat, m: nat, c: string)
    requires FreshCodes(rs) && j < m < |rs| && UsesUp(rs, j, c)
    ensures rs[m].Authorize? ==> rs[m].newCode != c
  {
    var i := StoredCodeIsOutstanding(rs[..j], c);
    assert rs[i].Authorize? && rs[i].newCode == c;
  }

  /** A used-up code never comes back. */
  lemma {:induction false} UsedCodeStaysGone(rs: seq<Request>, j: nat, k: nat, c: string)
    requires FreshCodes(rs) && j < k <= |rs| && UsesUp(rs, j, c)
    ensures c !in Run(rs[..k]).codes
  {
    RunStep(rs, k - 1);
    if k > j + 1 {
      UsedCodeStaysGone(rs, j, k - 1, c);
      CodeNotDrawnAgain(rs, j, k - 1, c);
      GoneStays(Run(rs[..k - 1]), rs[k - 1], c);
    }
  }

  /** A code is used up at most once, whether or not the signatures then succeed; in particular it yields
      at most one token pair. */
  lemma CodeUsedOnce(rs: seq<Request>, j: nat, k: nat, c: string)
    requires FreshCodes(rs) && j < k < |rs|
    requires UsesUp(rs, j, c)
    ensures !UsesUp(rs, k, c)
  {
    UsedCodeStaysGone(rs, j, k, c);
  }

  // ----- counting tokens -----------------------------------------------------------------------

  function Redemptions(rs: seq<Request>): nat {
    if rs == [] then 0
    else Redemptions(rs[..|rs| - 1]) + if Redeems(Run(rs[..|rs| - 1]), rs[|rs| - 1]) then 1 else 0
  }

  function Renewals(rs: seq<Request>): nat {
    if rs == [] then 0 else Renewals(rs[..|rs| - 1]) + if Renews(rs[|rs| - 1]) then 1 else 0
  }

  /** One request adds two tokens, one or none. */
  lemma TokensAdded(s: State, r: Request)
    requires r.Redeem? ==> r.accessId != r.refreshId
    requires forall id :: id in IdsDrawn(r) ==> id !in s.tokens
    ensures |Apply(s, r).tokens| == |s.tokens| + if Redeems(s, r) then 2 else if Renews(r) then 1 else 0
    ensures Apply(s, r).tokens.Keys <= s.tokens.Keys + Elements(IdsDrawn(r))
  {
    if r.Redeem? {
      assert r.accessId == IdsDrawn(r)[0] && r.refreshId == IdsDrawn(r)[1];
    } else if r.Renew? {
      assert r.renewedId == IdsDrawn(r)[0];
    }
  }

  /** Tokens come in pairs per redemption and singly per renewal, also when signing fails midway. */
  lemma {:induction false} TokenCount(rs: seq<Request>)
    requires Distinct(AllIds(rs))
    ensures |Run(rs).tokens| == 2 * Redemptions(rs) + Renewals(rs)
    ensures forall id :: id in Run(rs).tokens ==> id in AllIds(rs)
  {
    if rs != [] {
      var init, r := rs[..|rs| - 1], rs[|rs| - 1];
      DistinctSplit(AllIds(init), IdsDrawn(r));
      TokenCount(init);
      assert r.Redeem? ==> IdsDrawn(r)[0] != IdsDrawn(r)[1];
      TokensAdded(Run(init), r);
    }
  }

  /** Every stored token names the client it was issued for: a pair the client of its code, a renewal the
      client that asked. */
  ghost predicate IssuedFor(rs: seq<Request>, j: nat, id: string, client: string)
    requires j < |rs|
  {
    || (Redeems(Run(rs[..j]), rs[j]) && id in IdsDrawn(rs[j]) && rs[j].presenter == Some(client))
    || (Renews(rs[j]) && id in IdsDrawn(rs[j]) && rs[j].renewer == client)
  }

  lemma {:induction false} TokenNamesItsClient(rs: seq<Request>, id: string) returns (j: nat)
    requires id in Run(rs).tokens
    ensures j < |rs| && IssuedFor(rs, j, id, Run(rs).tokens[id].payload.clientId)
  {
    var init, r := rs[..|rs| - 1], rs[|rs| - 1];
    assert rs[..|init|] == init;
    if (Redeems(Run(init), r) || Renews(r)) && id in IdsDrawn(r) {
      j := |init|;
    } else {
      j := TokenNamesItsClient(init, id);
      assert rs[..j] == init[..j];
    }
  }

  // ----- answers over a run --------------------------------------------------------------------

  /** The clients on record registered, or are the one that is built in. */
  lemma {:induction false} ClientsRegistered(rs: seq<Request>, client: string)
    ensures client in Run(rs).clients ==>
              client == DEMO_CLIENT || exists i :: 0 <= i < |rs| && rs[i] == Register(client)
    ensures (exists i :: 0 <= i < |rs| && rs[i] == Register(client)) ==> client in Run(rs).clients
  {
    if rs != [] {
      var init, r := rs[..|rs| - 1], rs[|rs| - 1];
      ClientsRegistered(init, client);
      if i :| 0 <= i < |init| && init[i] == Register(client) { assert rs[i] == Register(client); }
      if i :| 0 <= i < |rs| && rs[i] == Register(client) && i < |init| { assert init[i] == Register(client); }
    }
  }

  /** A code is issued exactly to a client that asks for one and has registered before, or is the built-in
      one. */
  lemma CodeIssuedIff(rs: seq<Request>, j: nat)
    requires j < |rs| && rs[j].Authorize?
    ensures Answer(Run(rs[..j]), rs[j]).CodeIssued?
            <==> && rs[j].responseType == "code"
                 && (rs[j].client == "mcp_6950e6b7db0e6115a5af3a790340ad87"
                     || exists i :: 0 <= i < j && rs[i] == Register(rs[j].client))
    ensures Answer(Run(rs[..j]), rs[j]).CodeIssued? ==> Answer(Run(rs[..j]), rs[j]).code == rs[j].newCode
  {
    ClientsRegistered(rs[..j], rs[j].client);
    if i :| 0 <= i < j && rs[i] == Register(rs[j].client) { assert rs[..j][i] == rs[i]; }
  }

  /** A code that was issued and not used up is on record as issued. */
  lemma {:induction false} OutstandingIsStored(rs: seq<Request>, i: nat, c: string)
    requires FreshCodes(rs) && Outstanding(rs, i, c)
    ensures c in Run(rs).codes
    ensures Run(rs).codes[c] == CodeData(rs[i].client, rs[i].redirect, rs[i].resource, rs[i].scope, rs[i].challenge,
                                         rs[i].challengeMethod, rs[i].now + 600.0)
  {
    var init, r := rs[..|rs| - 1], rs[|rs| - 1];
    if i < |init| {
      assert rs[..i] == init[..i] && rs[..|init|] == init;
      forall j | i < j < |init| ensures !UsesUp(init, j, c) {
        assert rs[..j] == init[..j] && !UsesUp(rs, j, c);
      }
      OutstandingIsStored(init, i, c);
      assert !UsesUp(rs, |init|, c);
      assert r.Authorize? ==> r.newCode != c;
    }
  }

  /** The request `i` issued the code that `j` presents, nobody has used it up, it is at most ten minutes old,
      and client and redirect URI are those of the issuing request. */
  ghost predicate Matches(rs: seq<Request>, i: nat, j: nat)
    requires j < |rs| && rs[j].Redeem?
  {
    && rs[j].code.Some? && Outstanding(rs[..j], i, rs[j].code.value)
    && rs[j].now <= rs[i].now + 600.0
    && rs[j].presenter == Some(rs[i].client) && rs[j].redirectUri == Some(rs[i].redirect)
  }

  /** A code request is refused as an invalid grant if and only if no issued code matches it. */
  lemma InvalidGrantIff(rs: seq<Request>, j: nat)
    requires FreshCodes(rs) && j < |rs| && rs[j].Redeem?
    ensures Answer(Run(rs[..j]), rs[j]) == InvalidGrant <==> !exists i: nat :: Matches(rs, i, j)
  {
    if Consumes(Run(rs[..j]), rs[j]) {
      var i := StoredCodeIsOutstanding(rs[..j], rs[j].code.value);
      assert Matches(rs, i, j);
    }
    if i: nat :| Matches(rs, i, j) {
      OutstandingIsStored(rs[..j], i, rs[j].code.value);
    }
  }

  /** What a pair is: two signatures under two fresh ids, in that order the access token for one hour and the
      refresh token for thirty days, both for the client, resource and scope of the request that issued the
      code. */
  lemma PairHolds(rs: seq<Request>, j: nat) returns (i: nat)
    requires j < |rs| && rs[j].Redeem? && rs[j].accessId != rs[j].refreshId
    requires Answer(Run(rs[..j]), rs[j]).Pair?
    ensures Matches(rs, i, j)
    ensures var reply, after, iat := Answer(Run(rs[..j]), rs[j]), Apply(Run(rs[..j]), rs[j]).tokens, rs[j].now.Floor;
            var aud, client, scope := rs[i].resource, rs[i].client, rs[i].scope;
            && rs[j].accessJwt == Some(reply.access) && rs[j].refreshJwt == Some(reply.refresh)
            && rs[j].accessId in after && rs[j].refreshId in after
            && after[rs[j].accessId]
               == Token(reply.access, Payload(Access, aud, client, iat + 3600, iat, rs[j].accessId, scope))
            && after[rs[j].refreshId]
               == Token(reply.refresh, Payload(Refresh, aud, client, iat + 2592000, iat, rs[j].refreshId, scope))
  {
    i := StoredCodeIsOutstanding(rs[..j], rs[j].code.value);
    assert Matches(rs, i, j);
  }

  /** What a renewal is: one access token for one hour, for the client that asks and the fixed resource. */
  lemma RenewalHolds(rs: seq<Request>, j: nat)
    requires j < |rs| && rs[j].Renew? && Answer(Run(rs[..j]), rs[j]).Renewed?
    ensures var reply, after, iat := Answer(Run(rs[..j]), rs[j]), Apply(Run(rs[..j]), rs[j]).tokens, rs[j].now.Floor;
            && rs[j].renewedJwt == Some(reply.access) && rs[j].renewedId in after
            && after[rs[j].renewedId] == Token(reply.access, Payload(Access, "http://localhost:3000/mcp", rs[j].renewer,
                                                                     iat + 3600, iat, rs[j].renewedId, ""))
  {
  }
}
