/**
 Where a challenge leads and what it grants (`negotiateBearerToken` and the 401 branch of `fetchTags`
 in `internal/resolver/oci_resolver.go`).
 */
module OciTokens {
  import opened Text
  import opened Model
  import opened RegistryHeaders
  import opened OciTags

  /** The query of a token request: the scope, by default that of pulling the repository, and the service if there is one. */
  predicate IsTokenURL(url: string, realm: string, service: string, scope: string, repository: string) {
    url == realm + "?scope=" + (if scope == "" then "repository:" + repository + ":pull" else scope) +
           (if service == "" then "" else "&service=" + service)
  }

  /** A challenge is known by its parameters. */
  lemma ReadsIsUnique(c: Challenge, d: Challenge, params: seq<(string, string)>)
    requires Reads(c, params) && Reads(d, params)
    ensures c == d
  {
    hide ToLower;
    forall name | name in ["realm", "service", "scope"] ensures c.Get(name) == d.Get(name) {
      if i :| 0 <= i < |params| && ToLower(params[i].0) == name {
        assert c.Get(ToLower(params[i].0)) == d.Get(ToLower(params[i].0));
      }
    }
    var names := ["realm", "service", "scope"];
    assert names[0] in names && names[1] in names && names[2] in names;
    assert c.Get("realm") == d.Get("realm") && c.Get("service") == d.Get("service") && c.Get("scope") == d.Get("scope");
  }

  /** A Bearer challenge with a realm, its parameters in any order, names exactly one token endpoint. */
  lemma ChallengeNamesEndpoint(scheme: string, params: seq<(string, string)>, pad: string, host: string, repository: string,
                               realm: string, service: string, scope: string)
    requires IsBearer(scheme) && params != [] && DistinctParams(params)
    requires forall k :: 0 <= k < |pad| ==> IsSpace(pad[k])
    requires forall i :: 0 <= i < |params| ==> CleanValue(params[i].1)
    requires Reads(Challenge(realm, service, scope), params) && realm != ""
    ensures
      var endpoint := TokenEndpoint(PrintChallenge(scheme, params, pad), host, repository);
      endpoint.Some? && IsTokenURL(endpoint.value, realm, service, scope, repository)
  {
    hide AuthChallenge, PrintChallenge, CleanValue, Reads, IsBearer, DistinctParams;
    ChallengeRoundTrip(scheme, params, pad);
    ReadsIsUnique(AuthChallenge(PrintChallenge(scheme, params, pad)), Challenge(realm, service, scope), params);
    EndpointOf(PrintChallenge(scheme, params, pad), host, repository);
  }

  /** What is asked for a challenge: its own realm, or the one known for the host. */
  lemma EndpointOf(challenge: string, host: string, repository: string)
    ensures
      var c, endpoint := AuthChallenge(challenge), TokenEndpoint(challenge, host, repository);
      if c.realm != "" then endpoint.Some? && IsTokenURL(endpoint.value, c.realm, c.service, c.scope, repository)
      else if host == "ghcr.io" then endpoint.Some? && IsTokenURL(endpoint.value, "https://ghcr.io/token", c.service, c.scope, repository)
      else if host == "registry-1.docker.io" then
        endpoint.Some? && IsTokenURL(endpoint.value, "https://auth.docker.io/token", "registry.docker.io", c.scope, repository)
      else endpoint.None?
  {
    hide AuthChallenge;
    var c, endpoint := AuthChallenge(challenge), TokenEndpoint(challenge, host, repository);
    if endpoint.Some? { PartsConcatenate(c, repository); }
  }

  lemma PartsConcatenate(c: Challenge, repository: string)
    ensures forall realm: string, scope: string :: realm + "?scope=" + scope + "" == realm + "?scope=" + scope
    ensures forall realm: string, scope: string, service: string ::
              realm + "?scope=" + scope + ("&service=" + service) == realm + "?scope=" + scope + "&service=" + service
  {
  }

  /** What a challenge grants: the token its endpoint sends, `token` before `access_token`; else the credentials of the
      host; else nothing but the reason why there is no token. At most the endpoint is asked. */
  lemma GrantOrder(reg: Registry, challenge: string, host: string, repository: string)
    ensures
      var a := Authenticate(reg, challenge, host, repository);
      var endpoint := if challenge == "" then None else TokenEndpoint(challenge, host, repository);
      var asked := endpoint.Some? && reg.buildable(endpoint.value);
      var reply := if asked then reg.tokenAnswer(host, endpoint.value) else NoToken("");
      && a.calls == (if asked then [TokenCall(endpoint.value, if reg.hasBasic(host) then Basic(host) else Anonymous)] else [])
      && (if asked && reply.TokenPayload? && reply.token != "" then a.auth == Ok(Bearer(reply.token))
          else if asked && reply.TokenPayload? && reply.accessToken != "" then a.auth == Ok(Bearer(reply.accessToken))
          else if reg.hasBasic(host) then a.auth == Ok(Basic(host))
          else if asked then a.auth == Err(Failure(match reply case NoToken(reason) => External(reason) case _ => EmptyToken))
          else if endpoint.Some? then a.auth == Err(Failure(BuildRequest))
          else a.auth == Err(Failure(if challenge == "" then Status(401) else NoRealm)))
  {
    hide TokenEndpoint;
  }
}
