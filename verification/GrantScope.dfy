/** What a grant covers and what the host answers, in the grant's and the request's own terms: ports with
    their defaults, path patterns by how they are written, and the first covering grant's verdict. */
module GrantScope {
  import opened Strings
  import opened Unicode
  import opened Decimal
  import opened InjectSpecs
  import opened InjectParsing
  import opened InjectRoundTrip
  import opened CredentialGrants

  // ----- ports

  /** The URL leads to a port: the one it writes, or its scheme's own where it writes none. */
  predicate LeadsTo(cases: Cases, url: Url, port: int) {
    if url.port != "" then Atoi(url.port).Some? && Atoi(url.port).value == port
    else
      || (port == 80 && ToLower(cases, url.scheme) == "http")
      || (port == 443 && ToLower(cases, url.scheme) == "https")
  }

  /** A path is one a pattern names: itself, itself behind an equals sign, a continuation of what stands before
      a star, or of a directory. */
  ghost predicate NamesPath(pattern: string, path: string) {
    || (pattern == path && path != "")
    || pattern == "=" + path
    || (exists start :: pattern == start + "*" && start <= path)
    || (exists start :: pattern == start + "/" && pattern <= path)
  }

  lemma PatternMatchesIff(pattern: string, path: string)
    ensures PatternMatches(pattern, path) <==> NamesPath(pattern, path)
  {
    if pattern != "" {
      var start := pattern[..|pattern| - 1];
      assert pattern == start + [pattern[|pattern| - 1]];
      if PatternMatches(pattern, path) && pattern[0] == '=' && pattern[1..] == path {
        assert pattern == "=" + path;
      }
    }
  }

  /** The text is one of the list's, in any case and with outer spaces aside. */
  ghost predicate Listed(cases: Cases, list: seq<string>, text: string) {
    exists entry <- list :: EqualFold(cases, TrimSpace(entry), text)
  }

  lemma ListedIff(cases: Cases, list: seq<string>, text: string)
    ensures ListContains(cases, list, text) <==> Listed(cases, list, text)
  {
    if Listed(cases, list, text) {
      var entry :| entry in list && EqualFold(cases, TrimSpace(entry), text);
      var i :| 0 <= i < |list| && list[i] == entry;
    }
  }

  ghost predicate PathListed(patterns: seq<string>, url: Url) {
    exists pattern <- patterns :: NamesPath(TrimSpace(pattern), if url.path == "" then "/" else url.path)
  }

  lemma PathListedIff(patterns: seq<string>, url: Url)
    ensures PathAllowed(patterns, EscapedPath(url)) <==> PathListed(patterns, url)
  {
    var path := EscapedPath(url);
    forall pattern ensures PatternMatches(TrimSpace(pattern), path) <==> NamesPath(TrimSpace(pattern), path) {
      PatternMatchesIff(TrimSpace(pattern), path);
    }
    if PathListed(patterns, url) {
      var pattern :| pattern in patterns && NamesPath(TrimSpace(pattern), path);
      var i :| 0 <= i < |patterns| && patterns[i] == pattern;
    }
  }

  /** A request is permitted exactly when its host is listed, and every other list that is not empty has its
      scheme, its method, a pattern for its path, and a port other than 0 that its URL leads to. */
  lemma PermitsIff(cases: Cases, allow: Allow, verb: string, url: Url)
    ensures Permits(cases, allow, verb, url) <==>
      && (Listed(cases, allow.hosts, url.hostname) || Listed(cases, allow.hosts, url.host))
      && (allow.schemes != [] ==> Listed(cases, allow.schemes, url.scheme))
      && (allow.verbs != [] ==> Listed(cases, allow.verbs, verb))
      && (allow.paths != [] ==> PathListed(allow.paths, url))
      && (allow.ports != [] ==> exists port <- allow.ports :: port != 0 && LeadsTo(cases, url, port))
  {
    ListedIff(cases, allow.hosts, url.hostname);
    ListedIff(cases, allow.hosts, url.host);
    ListedIff(cases, allow.schemes, url.scheme);
    ListedIff(cases, allow.verbs, verb);
    PathListedIff(allow.paths, url);
    PortListedIff(cases, allow.ports, url);
  }

  lemma PortListedIff(cases: Cases, ports: seq<int>, url: Url)
    ensures PortOf(cases, url) != 0 && PortOf(cases, url) in ports
       <==> exists port <- ports :: port != 0 && LeadsTo(cases, url, port)
  {
    SchemesDiffer(cases, url.scheme);
    assert PortOf(cases, url) != 0 ==> LeadsTo(cases, url, PortOf(cases, url));
  }

  lemma SchemesDiffer(cases: Cases, scheme: string)
    ensures !(ToLower(cases, scheme) == "http" && ToLower(cases, scheme) == "https")
  {
    assert |"http"| != |"https"|;
  }

  /** The default port may be written or left out. */
  lemma DefaultPortOmitted(cases: Cases, allow: Allow, verb: string, url: Url)
    requires url.port == ""
    ensures ToLower(cases, url.scheme) == "https" ==>
      (Permits(cases, allow, verb, url) <==> Permits(cases, allow, verb, url.(port := "443")))
    ensures ToLower(cases, url.scheme) == "http" ==>
      (Permits(cases, allow, verb, url) <==> Permits(cases, allow, verb, url.(port := "80")))
  {
    PortTexts();
    SchemesDiffer(cases, url.scheme);
  }

  lemma PortTexts()
    ensures Atoi("443").Some? && Atoi("443").value == 443 && Atoi("80").Some? && Atoi("80").value == 80
  {
    SchemePorts();
    AtoiInvertsItoa(443);
    AtoiInvertsItoa(80);
  }

  lemma SchemePorts()
    ensures Itoa(443) == "443" && Itoa(80) == "80"
  {
    assert Digits(443) == [4, 4, 3] && Digits(80) == [8, 0];
  }

  /** With another scheme and no port, a list of ports admits nothing. */
  lemma NoPortNoPermit(cases: Cases, allow: Allow, verb: string, url: Url)
    requires url.port == "" && ToLower(cases, url.scheme) != "http" && ToLower(cases, url.scheme) != "https"
    requires allow.ports != []
    ensures !Permits(cases, allow, verb, url)
  {
  }

  /** A written port is permitted exactly when it is listed and not 0. */
  lemma WrittenPortIff(cases: Cases, allow: Allow, verb: string, url: Url, n: int)
    requires url.port == Itoa(n) && MIN_INT64 <= n <= MAX_INT64 && allow.ports != []
    ensures Permits(cases, allow, verb, url)
       <==> n in allow.ports && n != 0 && Permits(cases, allow.(ports := []), verb, url)
  {
    AtoiInvertsItoa(n);
    assert Itoa(n) != "";
  }

  /** An empty path is the root. */
  lemma EmptyPathIsRoot(cases: Cases, allow: Allow, spec: Spec, verb: string, url: Url)
    requires url.path == ""
    ensures Permits(cases, allow, verb, url) <==> Permits(cases, allow, verb, url.(path := "/"))
    ensures Targets(cases, spec, verb, url) <==> Targets(cases, spec, verb, url.(path := "/"))
  {
  }

  // ----- covering

  /** A grant covers a request exactly when it is of the client-credentials type, has not expired and permits it;
      one without an expiry time never expires, one without a scope never covers. */
  lemma CoversIff(env: Env, grant: Grant, verb: string, url: Url)
    ensures Covers(env, grant, verb, url) <==>
      && ToLower(env.cases, TrimSpace(Get(Normalized(grant.inject), "type"))) == "oauth2_client_credentials"
      && (TrimSpace(grant.expiresAt) == "" || !env.past(TrimSpace(grant.expiresAt)))
      && grant.allow.Some? && Permits(env.cases, grant.allow.value, verb, url)
  {
  }

  /** Upper-casing ASCII letters. */
  ghost predicate UppersAscii(cases: Cases) {
    forall c | c < '\U{80}' :: cases.upper(c) == if 'a' <= c <= 'z' then c - 32 as char else c
  }

  /** A request without a method is a GET, and methods count in any case. */
  lemma MethodDefaults(env: Env, ok: bool, grants: seq<Grant>, verb: string, other: string, url: string, insecure: bool)
    requires UppersAscii(env.cases)
    requires (TrimSpace(verb) == "" && other == "GET") || (verb == "post" && other == "POST")
    ensures Decide(env, ok, grants, verb, url, insecure) == Decide(env, ok, grants, other, url, insecure)
  {
    SameVerb(env.cases, verb, other);
  }

  lemma SameVerb(cases: Cases, verb: string, other: string)
    requires UppersAscii(cases)
    requires (TrimSpace(verb) == "" && other == "GET") || (verb == "post" && other == "POST")
    ensures RequestVerb(cases, verb) == RequestVerb(cases, other)
  {
    UpperMethods(cases);
  }

  lemma UpperMethods(cases: Cases)
    requires UppersAscii(cases)
    ensures RequestVerb(cases, "GET") == "GET" && RequestVerb(cases, "post") == RequestVerb(cases, "POST") == "POST"
  {
    TrimmedIsFixed("GET");
    TrimmedIsFixed("post");
    TrimmedIsFixed("POST");
    assert ToUpper(cases, "GET") == "GET" && ToUpper(cases, "post") == "POST" && ToUpper(cases, "POST") == "POST";
  }

  // ----- the verdict

  /** A setting admits a text: it is not set, or is it in any case. */
  predicate Admits(cases: Cases, spec: Spec, key: string, text: string) {
    TrimSpace(Get(spec, key)) == "" || EqualFold(cases, TrimSpace(Get(spec, key)), text)
  }

  /** A request is inside a spec's target. */
  predicate Inside(cases: Cases, spec: Spec, verb: string, url: Url) {
    && Admits(cases, spec, "method", verb)
    && (Admits(cases, spec, "host", url.hostname) || Admits(cases, spec, "host", url.host))
    && (TrimSpace(Get(spec, "path")) in {"", if url.path == "" then "/" else url.path})
  }

  lemma {:induction false} KeptFirst(keep: Grant -> bool, grants: seq<Grant>, k: nat)
    requires k < |grants| && keep(grants[k]) && forall j | 0 <= j < k :: !keep(grants[j])
    ensures Kept(keep, grants) != [] && Kept(keep, grants)[0] == grants[k]
  {
    if k > 0 { KeptFirst(keep, grants[1..], k - 1); }
  }

  lemma InsideIff(cases: Cases, spec: Spec, verb: string, url: Url)
    ensures Targets(cases, spec, verb, url) <==> Inside(cases, spec, verb, url)
  {
  }

  /** The spec allows requests that skip TLS verification. */
  predicate LooseTls(cases: Cases, spec: Spec) {
    EqualFold(cases, TrimSpace(Get(spec, "allow_insecure_tls")), "true")
  }

  lemma LooseTlsIff(cases: Cases, spec: Spec)
    ensures AllowsInsecure(cases, spec) <==> LooseTls(cases, spec)
  {
  }

  /** What the host answers for a grant that covers the request: outside the grant's target, over unverified TLS,
      with a spec that does not parse or without the credentials, in this order, a refusal, and otherwise the
      token. */
  function Answer(env: Env, ok: bool, grant: Grant, verb: string, url: Url, insecure: bool): Verdict {
    var spec := Normalized(grant.inject);
    if !Inside(env.cases, spec, verb, url) then Deny(OutsideTarget)
    else if insecure && !LooseTls(env.cases, spec) then Deny(InsecureTls)
    else if !Accepted(env.cases, spec) then Deny(BadSpec)
    else if !ok then Deny(NoCredential)
    else Send("Bearer " + env.bearer(grant.id, grant.secretRef))
  }

  lemma JudgeAnswers(env: Env, ok: bool, grant: Grant, verb: string, url: Url, insecure: bool)
    ensures Judge(env, ok, grant, verb, url, insecure) == Answer(env, ok, grant, verb, url, insecure)
  {
    InsideIff(env.cases, Normalized(grant.inject), verb, url);
    LooseTlsIff(env.cases, Normalized(grant.inject));
  }

  /** The first covering grant decides. */
  lemma FirstCoveringDecides(env: Env, ok: bool, grants: seq<Grant>, k: nat, verb: string, url: string, insecure: bool)
    requires k < |grants| && Destination(env, url).Some?
    requires Covers(env, grants[k], RequestVerb(env.cases, verb), Destination(env, url).value)
    requires forall j | 0 <= j < k :: !Covers(env, grants[j], RequestVerb(env.cases, verb), Destination(env, url).value)
    ensures Decide(env, ok, grants, verb, url, insecure)
         == Answer(env, ok, grants[k], RequestVerb(env.cases, verb), Destination(env, url).value, insecure)
  {
    KeptFirst(CoversRequest(env, RequestVerb(env.cases, verb), Destination(env, url).value), grants, k);
    JudgeAnswers(env, ok, grants[k], RequestVerb(env.cases, verb), Destination(env, url).value, insecure);
  }

  lemma {:induction false} NoneKept(keep: Grant -> bool, grants: seq<Grant>)
    requires forall j | 0 <= j < |grants| :: !keep(grants[j])
    ensures Kept(keep, grants) == []
  {
    if grants != [] { NoneKept(keep, grants[1..]); }
  }

  /** A URL is usable exactly when it parses, outer spaces aside, and names a host; a host that holds any grant
      refuses a request for another. */
  lemma UsableIff(env: Env, ok: bool, grants: seq<Grant>, verb: string, url: string, insecure: bool)
    ensures var parsed := env.parse(TrimSpace(url));
      && (Destination(env, url).Some? <==> parsed.Some? && parsed.value.host != "")
      && (Destination(env, url).Some? ==> Destination(env, url) == parsed)
      && (grants != [] && (parsed.None? || parsed.value.host == "") ==>
            Decide(env, ok, grants, verb, url, insecure) == Deny(OutsideTarget))
      && Decide(env, ok, [], verb, url, insecure) == Pass
  {
  }

  /** A request that no grant covers passes. */
  lemma UncoveredPasses(env: Env, ok: bool, grants: seq<Grant>, verb: string, url: string, insecure: bool)
    requires Destination(env, url).Some?
    requires forall j | 0 <= j < |grants| ::
      !Covers(env, grants[j], RequestVerb(env.cases, verb), Destination(env, url).value)
    ensures Decide(env, ok, grants, verb, url, insecure) == Pass
  {
    NoneKept(CoversRequest(env, RequestVerb(env.cases, verb), Destination(env, url).value), grants);
  }

  /** The header that carries the token. */
  lemma AuthorizationSet(cases: Cases, headers: map<string, string>, value: string)
    ensures "Authorization" in WithAuthorization(cases, headers, value)
      && WithAuthorization(cases, headers, value)["Authorization"] == value
  {
  }
}
