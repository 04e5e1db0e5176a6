/** The local host's application of credential grants to an outgoing request. */
module CredentialGrants {
  import opened Results
  import opened Strings
  import opened Unicode
  import opened InjectSpecs
  import opened InjectParsing
  import opened InjectRoundTrip

  datatype Allow = Allow(schemes: seq<string>, verbs: seq<string>, paths: seq<string>, hosts: seq<string>,
      ports: seq<int>)

  datatype Grant = Grant(id: string, secretRef: string, inject: map<string, Loose>, allow: Option<Allow>,
      expiresAt: string)

  /** A parsed URL: `host` may carry a port, `hostname` does not, and `path` is escaped. */
  datatype Url = Url(scheme: string, hostname: string, host: string, path: string, port: string)

  /** The library's URL parser, the clock's verdict on an expiry time, and the derived token. */
  datatype Env = Env(cases: Cases, parse: string -> Option<Url>, past: string -> bool,
      bearer: (string, string) -> string)

  datatype Reason = OutsideTarget | InsecureTls | BadSpec | NoCredential
  datatype Verdict = Pass | Deny(reason: Reason) | Send(authorization: string)

  const AUTHORIZATION := "Authorization"

  // ----- scope of a grant

  predicate ListContains(cases: Cases, values: seq<string>, value: string) {
    exists i | 0 <= i < |values| :: EqualFold(cases, TrimSpace(values[i]), value)
  }

  predicate PatternMatches(pattern: string, path: string) {
    && pattern != ""
    && (|| (pattern[0] == '=' && pattern[1..] == path)
        || pattern == path
        || (pattern[|pattern| - 1] == '*' && HasPrefix(path, pattern[..|pattern| - 1]))
        || (pattern[|pattern| - 1] == '/' && HasPrefix(path, pattern)))
  }

  predicate PathAllowed(patterns: seq<string>, path: string) {
    exists i | 0 <= i < |patterns| :: PatternMatches(TrimSpace(patterns[i]), path)
  }

  function EscapedPath(url: Url): string {
    if url.path == "" then "/" else url.path
  }

  function PortOf(cases: Cases, url: Url): int {
    if url.port != "" then (if Atoi(url.port).Some? then Atoi(url.port).value else 0)
    else if ToLower(cases, url.scheme) == "http" then 80
    else if ToLower(cases, url.scheme) == "https" then 443
    else 0
  }

  predicate Permits(cases: Cases, allow: Allow, verb: string, url: Url) {
    && allow.hosts != []
    && (allow.schemes == [] || ListContains(cases, allow.schemes, url.scheme))
    && (allow.verbs == [] || ListContains(cases, allow.verbs, verb))
    && (allow.paths == [] || PathAllowed(allow.paths, EscapedPath(url)))
    && (ListContains(cases, allow.hosts, url.hostname) || ListContains(cases, allow.hosts, url.host))
    && (allow.ports == [] || (PortOf(cases, url) != 0 && PortOf(cases, url) in allow.ports))
  }

  predicate Expired(env: Env, grant: Grant) {
    TrimSpace(grant.expiresAt) != "" && env.past(TrimSpace(grant.expiresAt))
  }

  predicate Covers(env: Env, grant: Grant, verb: string, url: Url) {
    && ToLower(env.cases, SettingOf(Normalized(grant.inject), Type)) == OAUTH2
    && !Expired(env, grant)
    && grant.allow.Some? && Permits(env.cases, grant.allow.value, verb, url)
  }

  // ----- the verdict of a covering grant

  /** Whether a request is inside an inject target; an empty part of the target admits anything. */
  predicate InsideTarget(cases: Cases, targetVerb: string, targetHost: string, targetPath: string, verb: string,
      url: Url) {
    && (targetVerb == "" || EqualFold(cases, targetVerb, verb))
    && (targetHost == "" || EqualFold(cases, targetHost, url.hostname) || EqualFold(cases, targetHost, url.host))
    && (targetPath == "" || targetPath == EscapedPath(url))
  }

  predicate Targets(cases: Cases, spec: Spec, verb: string, url: Url) {
    InsideTarget(cases, SettingOf(spec, Verb), SettingOf(spec, Host), SettingOf(spec, Path), verb, url)
  }

  predicate AllowsInsecure(cases: Cases, spec: Spec) {
    EqualFold(cases, SettingOf(spec, AllowInsecureTLS), "true")
  }

  /** Some spelling of the field holds a credential that is not blank. */
  predicate HasCredential(cases: Cases, credentials: map<string, string>, field: string) {
    exists name <- credentials :: EqualFold(cases, name, field) && TrimSpace(credentials[name]) != ""
  }

  predicate HasAllCredentials(cases: Cases, credentials: map<string, string>, sources: set<string>) {
    forall source <- sources :: HasCredential(cases, credentials, source)
  }

  /** What looking a field up may answer: the lookup takes whichever spelling it meets first. */
  predicate LookupMay(cases: Cases, credentials: map<string, string>, field: string, found: bool) {
    if found then HasCredential(cases, credentials, field)
    else
      || (forall name <- credentials :: !EqualFold(cases, name, field))
      || (exists name <- credentials :: EqualFold(cases, name, field) && TrimSpace(credentials[name]) == "")
  }

  /** What looking all of them up may come to. */
  predicate CredentialsMay(cases: Cases, credentials: map<string, string>, sources: set<string>, ok: bool) {
    if ok then forall source <- sources :: LookupMay(cases, credentials, source, true)
    else exists source <- sources :: LookupMay(cases, credentials, source, false)
  }

  /** The spellings of a field are all blank or all not. */
  predicate AgreeOnBlank(cases: Cases, credentials: map<string, string>, field: string) {
    forall one <- credentials, other <- credentials | EqualFold(cases, one, field) && EqualFold(cases, other, field) ::
      TrimSpace(credentials[one]) == "" <==> TrimSpace(credentials[other]) == ""
  }

  /** The checks in the order the host makes them. */
  function Ruling(inside: bool, tlsOk: bool, specOk: bool, credentialsOk: bool, token: string): Verdict {
    if !inside then Deny(OutsideTarget)
    else if !tlsOk then Deny(InsecureTls)
    else if !specOk then Deny(BadSpec)
    else if !credentialsOk then Deny(NoCredential)
    else Send("Bearer " + token)
  }

  /** The verdict of a grant, given how its credential lookups come out. */
  function Judge(env: Env, ok: bool, grant: Grant, verb: string, url: Url, insecure: bool): Verdict {
    var spec := Normalized(grant.inject);
    Ruling(Targets(env.cases, spec, verb, url),
           !insecure || AllowsInsecure(env.cases, spec),
           Accepted(env.cases, spec),
           ok,
           env.bearer(grant.id, grant.secretRef))
  }

  // ----- the decision over a list of grants

  function RequestVerb(cases: Cases, verb: string): string {
    var upper := ToUpper(cases, TrimSpace(verb));
    if upper == "" then "GET" else upper
  }

  /** The request's URL, if it parses and names a host. */
  function Destination(env: Env, url: string): Option<Url> {
    var parsed := env.parse(TrimSpace(url));
    if parsed.Some? && parsed.value.host != "" then parsed else None
  }

  function CoversRequest(env: Env, verb: string, url: Url): Grant -> bool {
    (grant: Grant) => Covers(env, grant, verb, url)
  }

  function Kept(keep: Grant -> bool, grants: seq<Grant>): seq<Grant> {
    if grants == [] then []
    else if keep(grants[0]) then [grants[0]] + Kept(keep, grants[1..])
    else Kept(keep, grants[1..])
  }

  /** The covering grants, in order. */
  function Covering(env: Env, grants: seq<Grant>, verb: string, url: Url): seq<Grant> {
    Kept(CoversRequest(env, verb, url), grants)
  }

  /** The first covering grant decides; without grants the URL is not even looked at. */
  function Decide(env: Env, ok: bool, grants: seq<Grant>, verb: string, url: string, insecure: bool): Verdict {
    if grants == [] then Pass
    else if Destination(env, url).None? then Deny(OutsideTarget)
    else
      var covering := Covering(env, grants, RequestVerb(env.cases, verb), Destination(env, url).value);
      if covering == [] then Pass
      else Judge(env, ok, covering[0], RequestVerb(env.cases, verb), Destination(env, url).value, insecure)
  }

  /** The credential fields of the grant that decides, if one does. */
  function DecidingSources(env: Env, grants: seq<Grant>, verb: string, url: string): set<string> {
    if grants == [] || Destination(env, url).None? then {}
    else
      var covering := Covering(env, grants, RequestVerb(env.cases, verb), Destination(env, url).value);
      if covering == [] then {} else Names(FIELD, Normalized(covering[0].inject))
  }

  /** Every header that is not some spelling of Authorization, and the new Authorization. */
  function WithAuthorization(cases: Cases, headers: map<string, string>, value: string): map<string, string> {
    (map key | key in headers && !EqualFold(cases, key, AUTHORIZATION) :: headers[key])[AUTHORIZATION := value]
  }

  // ----- the code

  class OutgoingRequest {
    const verb: string
    const url: string
    const insecure: bool
    var headers: map<string, string>

    constructor (verb: string, url: string, insecure: bool, headers: map<string, string>)
      ensures this.verb == verb && this.url == url && this.insecure == insecure && this.headers == headers
    {
      this.verb, this.url, this.insecure, this.headers := verb, url, insecure, headers;
    }
  }

  method LocalCredential(cases: Cases, credentials: map<string, string>, field: string) returns (value: string)
    ensures LookupMay(cases, credentials, field, TrimSpace(value) != "")
  {
    var remaining := credentials.Keys;
    while remaining != {}
      invariant remaining <= credentials.Keys
      invariant forall name <- credentials.Keys - remaining :: !EqualFold(cases, name, field)
    {
      var name :| name in remaining;
      if EqualFold(cases, name, field) { return credentials[name]; }
      remaining := remaining - {name};
    }
    return "";
  }

  method CheckCredentials(cases: Cases, credentials: map<string, string>, fields: map<string, string>)
      returns (ok: bool)
    ensures CredentialsMay(cases, credentials, fields.Values, ok)
  {
    var remaining := fields.Keys;
    while remaining != {}
      invariant remaining <= fields.Keys
      invariant forall target <- fields.Keys - remaining :: LookupMay(cases, credentials, fields[target], true)
    {
      var target :| target in remaining;
      var value := LocalCredential(cases, credentials, fields[target]);
      if TrimSpace(value) == "" { return false; }
      remaining := remaining - {target};
    }
    return true;
  }

  method ReplaceAuthorization(cases: Cases, headers: map<string, string>, value: string)
      returns (r: map<string, string>)
    ensures r == WithAuthorization(cases, headers, value)
  {
    r := map[];
    var remaining := headers.Keys;
    while remaining != {}
      invariant remaining <= headers.Keys
      invariant forall key :: key in r <==> key in headers && key !in remaining && !EqualFold(cases, key, AUTHORIZATION)
      invariant forall key <- r :: r[key] == headers[key]
    {
      var key :| key in remaining;
      if !EqualFold(cases, key, AUTHORIZATION) { r := r[key := headers[key]]; }
      remaining := remaining - {key};
    }
    r := r[AUTHORIZATION := value];
  }

  method FoldedListContains(cases: Cases, values: seq<string>, value: string) returns (found: bool)
    ensures found == ListContains(cases, values, value)
  {
    for i := 0 to |values|
      invariant forall j | 0 <= j < i :: !EqualFold(cases, TrimSpace(values[j]), value)
    {
      if EqualFold(cases, TrimSpace(values[i]), value) { return true; }
    }
    return false;
  }

  /** The loop over path patterns: exact, marked exact, by prefix with a star, or below a directory. */
  method GrantPathAllowed(patterns: seq<string>, requested: string) returns (allowed: bool)
    ensures allowed == PathAllowed(patterns, requested)
  {
    for i := 0 to |patterns|
      invariant forall j | 0 <= j < i :: !PatternMatches(TrimSpace(patterns[j]), requested)
    {
      var pattern := TrimSpace(patterns[i]);
      if pattern == "" { continue; }
      if pattern[0] == '=' && pattern[1..] == requested { return true; }
      if pattern == requested { return true; }
      if pattern[|pattern| - 1] == '*' && HasPrefix(requested, pattern[..|pattern| - 1]) { return true; }
      if pattern[|pattern| - 1] == '/' && HasPrefix(requested, pattern) { return true; }
    }
    return false;
  }

  /** The allow scope, list by list with early exits: hosts are required, the others restrict only when set. */
  method GrantAllows(cases: Cases, allow: Option<Allow>, verb: string, url: Url) returns (allowed: bool)
    ensures allowed <==> allow.Some? && Permits(cases, allow.value, verb, url)
  {
    if allow.None? || allow.value.hosts == [] { return false; }
    var lists := allow.value;
    var found := FoldedListContains(cases, lists.schemes, url.scheme);
    if lists.schemes != [] && !found { return false; }
    found := FoldedListContains(cases, lists.verbs, verb);
    if lists.verbs != [] && !found { return false; }
    found := GrantPathAllowed(lists.paths, EscapedPath(url));
    if lists.paths != [] && !found { return false; }
    found := FoldedListContains(cases, lists.hosts, url.hostname);
    var foundHost := FoldedListContains(cases, lists.hosts, url.host);
    if !found && !foundHost { return false; }
    if lists.ports == [] { return true; }
    var port := PortOf(cases, url);
    for i := 0 to |lists.ports|
      invariant port == 0 || port !in lists.ports[..i]
    {
      if port != 0 && lists.ports[i] == port { return true; }
    }
    return false;
  }

  lemma InvertedValues(spec: Spec, fields: map<string, string>)
    requires Inverts(spec, fields)
    ensures fields.Values == Names(FIELD, spec)
  {
  }

  /** A selected grant's checks, in the order the host makes them. */
  method Try(env: Env, credentials: map<string, string>, grant: Grant, verb: string, url: Url, insecure: bool)
      returns (v: Verdict, ghost ok: bool)
    ensures v == Judge(env, ok, grant, verb, url, insecure)
    ensures CredentialsMay(env.cases, credentials, Names(FIELD, Normalized(grant.inject)), ok)
  {
    ok := HasAllCredentials(env.cases, credentials, Names(FIELD, Normalized(grant.inject)));
    var spec := InjectSpec(grant.inject);
    if !Targets(env.cases, spec, verb, url) { return Deny(OutsideTarget), ok; }
    if insecure && !AllowsInsecure(env.cases, spec) { return Deny(InsecureTls), ok; }
    var parsed := FormFields(env.cases, spec);
    if parsed.None? { return Deny(BadSpec), ok; }
    var (fields, _) := parsed.value;
    var answered := CheckCredentials(env.cases, credentials, fields);
    InvertedValues(spec, fields);
    if !answered { return Deny(NoCredential), false; }
    return Send("Bearer " + env.bearer(grant.id, grant.secretRef)), true;
  }

  /** Applies the grants: only a grant that sends touches the request, and only its headers. */
  method ApplyGrants(env: Env, credentials: map<string, string>, grants: seq<Grant>, request: OutgoingRequest)
      returns (v: Verdict, ghost ok: bool)
    modifies request
    ensures v == Decide(env, ok, grants, request.verb, request.url, request.insecure)
    ensures CredentialsMay(env.cases, credentials, DecidingSources(env, grants, request.verb, request.url), ok)
    ensures request.headers
        == if v.Send? then WithAuthorization(env.cases, old(request.headers), v.authorization) else old(request.headers)
  {
    if grants == [] { return Pass, true; }
    var destination := Destination(env, request.url);
    if destination.None? { return Deny(OutsideTarget), true; }
    var verb, url := RequestVerb(env.cases, request.verb), destination.value;
    for i := 0 to |grants|
      invariant request.headers == old(request.headers)
      invariant Covering(env, grants, verb, url) == Covering(env, grants[i..], verb, url)
    {
      assert grants[i..][1..] == grants[i + 1..];
      var allowed := GrantAllows(env.cases, grants[i].allow, verb, url);
      if ToLower(env.cases, SettingOf(Normalized(grants[i].inject), Type)) != OAUTH2 || Expired(env, grants[i])
          || !allowed { continue; }
      v, ok := Try(env, credentials, grants[i], verb, url, request.insecure);
      if v.Send? {
        var headers := ReplaceAuthorization(env.cases, request.headers, v.authorization);
        request.headers := headers;
      }
      return;
    }
    return Pass, true;
  }

  // ----- what the decision depends on, and what it changes

  /** A lookup can come out both ways exactly when the field's spellings disagree on being blank. */
  lemma LookupDeterminedIff(cases: Cases, credentials: map<string, string>, field: string)
    ensures LookupMay(cases, credentials, field, true) && LookupMay(cases, credentials, field, false)
       <==> !AgreeOnBlank(cases, credentials, field)
  {
  }

  /** The outcome over a grant's fields depends on the order the credentials are visited in exactly when
      every field has a credential and the spellings of some field disagree on being blank. */
  lemma CredentialsDeterminedIff(cases: Cases, credentials: map<string, string>, sources: set<string>)
    ensures CredentialsMay(cases, credentials, sources, true) && CredentialsMay(cases, credentials, sources, false)
       <==> (HasAllCredentials(cases, credentials, sources)
             && exists source <- sources :: !AgreeOnBlank(cases, credentials, source))
  {
    forall source ensures LookupMay(cases, credentials, source, true) && LookupMay(cases, credentials, source, false)
                     <==> !AgreeOnBlank(cases, credentials, source) {
      LookupDeterminedIff(cases, credentials, source);
    }
  }

  /** Where the spellings agree, the outcome is whether every field has a credential. */
  lemma CredentialsAgreed(cases: Cases, credentials: map<string, string>, sources: set<string>, ok: bool)
    requires CredentialsMay(cases, credentials, sources, ok)
    requires forall source <- sources :: AgreeOnBlank(cases, credentials, source)
    ensures ok <==> HasAllCredentials(cases, credentials, sources)
  {
    if !ok {
      var source :| source in sources && LookupMay(cases, credentials, source, false);
      LookupDeterminedIff(cases, credentials, source);
    }
  }

  /** Grants that do not cover the request can be added, removed or moved with no effect, provided the URL
      is usable or the lists are both empty or both not: an unusable URL is refused only by a host that
      holds some grant. */
  lemma OnlyCoveringGrantsMatter(env: Env, ok: bool, one: seq<Grant>, other: seq<Grant>, verb: string, url: string,
      insecure: bool)
    requires Destination(env, url).Some? ==>
      Covering(env, one, RequestVerb(env.cases, verb), Destination(env, url).value)
          == Covering(env, other, RequestVerb(env.cases, verb), Destination(env, url).value)
    ensures Decide(env, ok, one, verb, url, insecure) == Decide(env, ok, other, verb, url, insecure)
       <==> Destination(env, url).Some? || (one == [] <==> other == [])
  {
  }

  lemma {:induction false} KeptAppend(keep: Grant -> bool, one: seq<Grant>, other: seq<Grant>)
    ensures Kept(keep, one + other) == Kept(keep, one) + Kept(keep, other)
  {
    if one == [] {
      assert one + other == other;
    } else {
      KeptAppend(keep, one[1..], other);
      assert (one + other)[1..] == one[1..] + other;
    }
  }

  lemma KeptWithout(keep: Grant -> bool, before: seq<Grant>, grant: Grant, after: seq<Grant>)
    requires !keep(grant)
    ensures Kept(keep, before + [grant] + after) == Kept(keep, before + after)
  {
    KeptAppend(keep, before + [grant], after);
    KeptAppend(keep, before, [grant]);
    KeptAppend(keep, before, after);
    assert [grant][1..] == [];
  }

  /** A non-covering grant may stand anywhere. */
  lemma NonCoveringIsInert(env: Env, ok: bool, before: seq<Grant>, grant: Grant, after: seq<Grant>, verb: string,
      url: string, insecure: bool)
    requires Destination(env, url).Some?
        && !Covers(env, grant, RequestVerb(env.cases, verb), Destination(env, url).value)
    ensures Decide(env, ok, before + [grant] + after, verb, url, insecure)
        == Decide(env, ok, before + after, verb, url, insecure)
  {
    KeptWithout(CoversRequest(env, RequestVerb(env.cases, verb), Destination(env, url).value), before, grant, after);
    OnlyCoveringGrantsMatter(env, ok, before + [grant] + after, before + after, verb, url, insecure);
  }

  /** The only header of the result that spells Authorization is the new one; the rest are as they were. */
  lemma OneAuthorization(cases: Cases, headers: map<string, string>, value: string)
    ensures var r := WithAuthorization(cases, headers, value);
      && (forall key <- r :: EqualFold(cases, key, AUTHORIZATION) ==> key == AUTHORIZATION && r[key] == value)
      && AUTHORIZATION in r
      && (forall key | !EqualFold(cases, key, AUTHORIZATION) ::
          (key in r <==> key in headers) && (key in r ==> r[key] == headers[key]))
    ensures WithAuthorization(cases, WithAuthorization(cases, headers, value), value)
        == WithAuthorization(cases, headers, value)
  {
  }

  /** The verdict of an accepted spec, from its settings and field names alone. */
  lemma AcceptedJudged(env: Env, ok: bool, grant: Grant, spec: Spec, inside: bool, insecureOk: bool, verb: string,
      url: Url, insecure: bool)
    requires Normalized(grant.inject) == spec && Accepted(env.cases, spec)
    requires Targets(env.cases, spec, verb, url) == inside && AllowsInsecure(env.cases, spec) == insecureOk
    ensures Judge(env, ok, grant, verb, url, insecure).Send? <==>
      inside && (insecure ==> insecureOk) && ok
  {
  }

  lemma BuilderTargets(cases: Cases, b: Builder, verb: string, url: Url)
    requires KeepsSpaces(cases)
    ensures Targets(cases, SpecOf(cases, b), verb, url)
         == InsideTarget(cases, Value(cases, b, Verb), Value(cases, b, Host), Value(cases, b, Path), verb, url)
  {
    SettingIs(cases, b, Verb);
    SettingIs(cases, b, Host);
    SettingIs(cases, b, Path);
  }

  lemma InsecureIsWritten(cases: Cases, b: Builder)
    ensures EqualFold(cases, Value(cases, b, AllowInsecureTLS), "true") == b.insecure
  {
    if !b.insecure { assert |Folded(cases, "")| != |Folded(cases, "true")|; }
  }

  lemma BuilderInsecure(cases: Cases, b: Builder)
    requires KeepsSpaces(cases)
    ensures AllowsInsecure(cases, SpecOf(cases, b)) == EqualFold(cases, Value(cases, b, AllowInsecureTLS), "true")
  {
    SettingIs(cases, b, AllowInsecureTLS);
  }

  /** A grant carrying an accepted builder's inject map sends exactly to the builder's target, over verified
      TLS unless the builder allows otherwise, and when the lookups of the fields the builder maps come out:
      they do not where some field has no credential, and do where all have one and no spellings disagree. */
  lemma BuilderGrantJudged(
      env: Env, credentials: map<string, string>, ok: bool, b: Builder, grant: Grant, verb: string, url: Url,
      insecure: bool)
    requires KeepsSpaces(env.cases) && BuilderOk(env.cases, b) && grant.inject == Loosened(SpecOf(env.cases, b))
    requires CredentialsMay(env.cases, credentials, Names(FIELD, Normalized(grant.inject)), ok)
    ensures Judge(env, ok, grant, verb, url, insecure).Send? <==>
      && InsideTarget(env.cases, Value(env.cases, b, Verb), Value(env.cases, b, Host), Value(env.cases, b, Path), verb,
          url)
      && (insecure ==> b.insecure)
      && ok
    ensures ok ==> HasAllCredentials(env.cases, credentials, b.fields.Keys)
    ensures HasAllCredentials(env.cases, credentials, b.fields.Keys) ==>
      (forall source <- b.fields.Keys :: AgreeOnBlank(env.cases, credentials, source)) ==> ok
  {
    InjectKeepsSpec(SpecOf(env.cases, b));
    AcceptedIffBuilderOk(env.cases, b);
    BuilderTargets(env.cases, b, verb, url);
    BuilderInsecure(env.cases, b);
    InsecureIsWritten(env.cases, b);
    FieldNamesAre(env.cases, b);
    if forall source <- b.fields.Keys :: AgreeOnBlank(env.cases, credentials, source) {
      CredentialsAgreed(env.cases, credentials, b.fields.Keys, ok);
    }
    AcceptedJudged(env, ok, grant, SpecOf(env.cases, b), Targets(env.cases, SpecOf(env.cases, b), verb, url),
        b.insecure,
                   verb, url, insecure);
  }

  // ----- a grant that covers nothing, and an unusable URL

  /** Without grants a request with an unusable URL passes; with any one grant it is refused. */
  lemma UnusableUrlExample(env: Env, ok: bool, grant: Grant, verb: string, url: string, insecure: bool)
    requires Destination(env, url).None?
    ensures Decide(env, ok, [], verb, url, insecure) == Pass
    ensures Decide(env, ok, [grant], verb, url, insecure) == Deny(OutsideTarget)
  {
  }

  /** Two spellings of one field, one of them blank: either outcome is possible. */
  lemma DisagreeingSpellingsExample(cases: Cases)
    requires cases.fold('A') == cases.fold('a')
    ensures var credentials := map["a" := "x", "A" := ""];
      CredentialsMay(cases, credentials, {"a"}, true) && CredentialsMay(cases, credentials, {"a"}, false)
  {
    var credentials := map["a" := "x", "A" := ""];
    assert Folded(cases, "A") == Folded(cases, "a");
    assert "a" in credentials && "A" in credentials && credentials["A"] == "" && credentials["a"] == "x";
    assert LookupMay(cases, credentials, "a", true) && LookupMay(cases, credentials, "a", false);
  }
}
