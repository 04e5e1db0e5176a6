/** Whether a server accepts what the client answers: the check of section 3.2.2.1 of RFC 2617 over the
    parameters the server reads back, and the way from its challenge to that check. */
module RtspDigest {
  import opened Bytes
  import opened Results
  import opened Strings
  import opened Unicode
  import opened RtspChallenge
  import opened RtspRequests

  // ----- the server

  /** The algorithm hashes the client's nonces into the first secret. */
  predicate IsSession(cases: Cases, algorithm: string) {
    ToLower(cases, algorithm) == "md5-sess"
  }

  /** The protection covers the body. */
  predicate CoversBody(cases: Cases, qop: string) {
    ToLower(cases, qop) == "auth-int"
  }

  /** A1 of the parameters read, for an account the server knows. */
  function SecretText(env: Env, account: Endpoint, p: map<string, string>): string {
    var secret := account.username + ":" + Get(p, "realm") + ":" + account.password;
    if IsSession(env.cases, Get(p, "algorithm")) then env.md5(secret) + ":" + Get(p, "nonce") + ":" + Get(p, "cnonce")
    else secret
  }

  /** A2 of the parameters read. */
  function RequestText(env: Env, verb: string, body: string, p: map<string, string>): string {
    var request := verb + ":" + Get(p, "uri");
    if CoversBody(env.cases, Get(p, "qop")) then request + ":" + env.md5(body) else request
  }

  /** What the response is a digest of. */
  function ResponseInput(env: Env, account: Endpoint, verb: string, body: string, p: map<string, string>): string {
    var secret, request := env.md5(SecretText(env, account, p)), env.md5(RequestText(env, verb, body, p));
    if "qop" in p then
      secret + ":" + Get(p, "nonce") + ":" + Get(p, "nc") + ":" + Get(p, "cnonce") + ":" + Get(p, "qop") + ":" + request
    else secret + ":" + Get(p, "nonce") + ":" + request
  }

  /** The server's decision on an Authorization header it gets with a request. */
  predicate Accepts(env: Env, account: Endpoint, realm: string, nonce: string, verb: string, uri: string, body: string,
      header: string) {
    && HasPrefix(header, "Digest ")
    && var p := ParseParams(env.cases, header[7..]);
       && Get(p, "username") == account.username && Get(p, "realm") == realm && Get(p, "nonce") == nonce
       && Get(p, "uri") == uri && Get(p, "response") == env.md5(ResponseInput(env, account, verb, body, p))
  }

  // ----- reading the client's parameters back

  /** The values a digest header carries. */
  datatype Answer = Answer(username: string, realm: string, nonce: string, uri: string, response: string,
      algorithm: string, opacity: string, qop: string, nc: string, cnonce: string)

  function CountPart(a: Answer): seq<Param> {
    if a.qop == "" then []
    else [Param("qop", a.qop, false), Param("nc", a.nc, false), Param("cnonce", a.cnonce, true)]
  }

  function IdentityPart(a: Answer): seq<Param> {
    [Param("username", a.username, true), Param("realm", a.realm, true), Param("nonce", a.nonce, true),
     Param("uri", a.uri, true), Param("response", a.response, true)]
  }

  function AnswerParams(a: Answer): (params: seq<Param>)
    ensures params != []
  {
    IdentityPart(a) + Optional("algorithm", a.algorithm, false) + Optional("opaque", a.opacity, true) + CountPart(a)
  }

  /** The place of a parameter in the header, told by the length of its name and the first letter. */
  function Rank(name: string): int {
    if name == [] then 0
    else if |name| == 8 then (if name[0] == 'u' then 0 else 4)
    else if |name| == 5 then (if name[0] == 'r' then 1 else 2)
    else if |name| == 3 then (if name[0] == 'u' then 3 else 7)
    else if |name| == 9 then 5
    else if |name| == 6 then (if name[0] == 'o' then 6 else 9)
    else 8
  }

  /** Each parameter's place is after the one before it, all of them within bounds. */
  predicate Ranked(params: seq<Param>, low: int, high: int) {
    && (forall i | 0 <= i < |params| :: low <= Rank(params[i].name) < high)
    && (forall i, j | 0 <= i < j < |params| :: Rank(params[i].name) < Rank(params[j].name))
  }

  lemma RankedAppend(a: seq<Param>, b: seq<Param>, low: int, middle: int, high: int)
    requires low <= middle <= high && Ranked(a, low, middle) && Ranked(b, middle, high)
    ensures Ranked(a + b, low, high)
  {
  }

  lemma Ranks()
    ensures Rank("username") == 0 && Rank("realm") == 1 && Rank("nonce") == 2 && Rank("uri") == 3
    ensures Rank("response") == 4 && Rank("algorithm") == 5 && Rank("opaque") == 6 && Rank("qop") == 7
    ensures Rank("nc") == 8 && Rank("cnonce") == 9
  {
  }

  lemma OptionalRanked(name: string, value: string, quoted: bool)
    ensures Ranked(Optional(name, value, quoted), Rank(name), Rank(name) + 1)
  {
  }

  lemma AnswerRanked(a: Answer)
    ensures Ranked(AnswerParams(a), 0, 10)
  {
    var algorithm, opacity := Optional("algorithm", a.algorithm, false), Optional("opaque", a.opacity, true);
    Ranks();
    OptionalRanked("algorithm", a.algorithm, false);
    OptionalRanked("opaque", a.opacity, true);
    RankedAppend(IdentityPart(a), algorithm, 0, 5, 6);
    RankedAppend(IdentityPart(a) + algorithm, opacity, 0, 6, 7);
    RankedAppend(IdentityPart(a) + algorithm + opacity, CountPart(a), 0, 7, 10);
  }

  lemma {:induction false} ToMapNames(params: seq<Param>, name: string)
    requires name in ToMap(params)
    ensures exists k | 0 <= k < |params| :: params[k].name == name
  {
    var n := |params| - 1;
    if params[n].name != name {
      ToMapNames(params[..n], name);
      var k :| 0 <= k < n && params[..n][k].name == name;
      assert params[k].name == name;
    }
  }

  lemma {:induction false} ToMapAt(params: seq<Param>, k: nat, low: int, high: int)
    requires k < |params| && Ranked(params, low, high)
    ensures params[k].name in ToMap(params) && ToMap(params)[params[k].name] == params[k].value
  {
    if k < |params| - 1 {
      assert Rank(params[k].name) < Rank(params[|params| - 1].name);
      ToMapAt(params[..|params| - 1], k, low, high);
    }
  }

  /** A parameter is found where it is, and one of an empty place is not. */
  lemma Found(params: seq<Param>, name: string, value: string, k: nat)
    requires Ranked(params, 0, 10) && k < |params| && params[k].name == name && params[k].value == value
    ensures name in ToMap(params) && Get(ToMap(params), name) == value
  {
    ToMapAt(params, k, 0, 10);
  }

  lemma NotFound(params: seq<Param>, name: string)
    requires forall i | 0 <= i < |params| :: Rank(params[i].name) != Rank(name)
    ensures name !in ToMap(params) && Get(ToMap(params), name) == ""
  {
    if name in ToMap(params) { ToMapNames(params, name); }
  }

  lemma OptionalFound(before: seq<Param>, after: seq<Param>, name: string, value: string, quoted: bool)
    requires var r := Rank(name);
      Ranked(before, 0, r) && Ranked(after, r + 1, 10) && 0 <= r < 10
    ensures Get(ToMap(before + Optional(name, value, quoted) + after), name) == value
  {
    var params := before + Optional(name, value, quoted) + after;
    OptionalRanked(name, value, quoted);
    RankedAppend(before, Optional(name, value, quoted), 0, Rank(name), Rank(name) + 1);
    RankedAppend(before + Optional(name, value, quoted), after, 0, Rank(name) + 1, 10);
    if value == "" {
      NotFound(params, name);
    } else {
      assert params[|before|] == Param(name, value, quoted);
      Found(params, name, value, |before|);
    }
  }

  lemma IdentityFound(a: Answer)
    ensures var p := ToMap(AnswerParams(a));
      && Get(p, "username") == a.username && Get(p, "realm") == a.realm && Get(p, "nonce") == a.nonce
      && Get(p, "uri") == a.uri && Get(p, "response") == a.response
  {
    var params := AnswerParams(a);
    AnswerRanked(a);
    assert forall k | 0 <= k < 5 :: params[k] == IdentityPart(a)[k];
    Found(params, "username", a.username, 0);
    Found(params, "realm", a.realm, 1);
    Found(params, "nonce", a.nonce, 2);
    Found(params, "uri", a.uri, 3);
    Found(params, "response", a.response, 4);
  }

  lemma AlgorithmFound(a: Answer)
    ensures Get(ToMap(AnswerParams(a)), "algorithm") == a.algorithm
  {
    var algorithm, opacity := Optional("algorithm", a.algorithm, false), Optional("opaque", a.opacity, true);
    Ranks();
    OptionalRanked("opaque", a.opacity, true);
    RankedAppend(opacity, CountPart(a), 6, 7, 10);
    OptionalFound(IdentityPart(a), opacity + CountPart(a), "algorithm", a.algorithm, false);
    ConcatIsAssociative(IdentityPart(a) + algorithm, opacity, CountPart(a));
  }

  lemma OpaqueFound(a: Answer)
    ensures Get(ToMap(AnswerParams(a)), "opaque") == a.opacity
  {
    Ranks();
    OptionalRanked("algorithm", a.algorithm, false);
    RankedAppend(IdentityPart(a), Optional("algorithm", a.algorithm, false), 0, 5, 6);
    OptionalFound(IdentityPart(a) + Optional("algorithm", a.algorithm, false), CountPart(a), "opaque", a.opacity, true);
  }

  lemma CountFound(a: Answer)
    ensures var p := ToMap(AnswerParams(a));
      && ("qop" in p <==> a.qop != "") && Get(p, "qop") == a.qop
      && (a.qop != "" ==> Get(p, "nc") == a.nc && Get(p, "cnonce") == a.cnonce)
      && (a.qop == "" ==> Get(p, "nc") == "" && Get(p, "cnonce") == "")
  {
    var params := AnswerParams(a);
    var n := |params| - |CountPart(a)|;
    AnswerRanked(a);
    Ranks();
    if a.qop == "" {
      NoneCounted(a);
      NotFound(params, "qop");
      NotFound(params, "nc");
      NotFound(params, "cnonce");
    } else {
      assert forall k | 0 <= k < 3 :: params[n + k] == CountPart(a)[k];
      Found(params, "qop", a.qop, n);
      Found(params, "nc", a.nc, n + 1);
      Found(params, "cnonce", a.cnonce, n + 2);
    }
  }

  lemma NoneCounted(a: Answer)
    requires a.qop == ""
    ensures Ranked(AnswerParams(a), 0, 7)
  {
    var algorithm, opacity := Optional("algorithm", a.algorithm, false), Optional("opaque", a.opacity, true);
    Ranks();
    OptionalRanked("algorithm", a.algorithm, false);
    OptionalRanked("opaque", a.opacity, true);
    RankedAppend(IdentityPart(a), algorithm, 0, 5, 6);
    RankedAppend(IdentityPart(a) + algorithm, opacity, 0, 6, 7);
  }

  // ----- what is well-formed

  /** May stand in quotes. */
  predicate Quotable(text: string) {
    '"' !in text
  }

  /** May stand without quotes. */
  predicate Plain(text: string) {
    '"' !in text && ',' !in text && Trimmed(text)
  }

  predicate WellFormedAnswer(a: Answer) {
    && Quotable(a.username) && Quotable(a.realm) && Quotable(a.nonce) && Quotable(a.uri) && Quotable(a.response)
    && Plain(a.algorithm) && Quotable(a.opacity)
    && (a.qop != "" ==> Plain(a.qop) && Plain(a.nc) && Quotable(a.cnonce))
  }

  predicate LowerLetters(name: string) {
    name != [] && forall i | 0 <= i < |name| :: 'a' <= name[i] <= 'z'
  }

  lemma NamesAreLower()
    ensures LowerLetters("username") && LowerLetters("realm") && LowerLetters("nonce") && LowerLetters("uri")
    ensures LowerLetters("response") && LowerLetters("algorithm") && LowerLetters("opaque") && LowerLetters("qop")
    ensures LowerLetters("nc") && LowerLetters("cnonce")
  {
  }

  predicate AllWellFormed(cases: Cases, params: seq<Param>) {
    forall i | 0 <= i < |params| :: WellFormedParam(cases, params[i])
  }

  lemma OneWellFormed(cases: Cases, name: string, value: string, quoted: bool)
    requires LowersAscii(cases) && LowerLetters(name) && (if quoted then Quotable(value) else Plain(value))
    ensures WellFormedParam(cases, Param(name, value, quoted))
  {
    forall i | 0 <= i < |name| ensures NameChar(cases, name[i]) {
      assert 'a' <= name[i] <= 'z';
    }
  }

  lemma AllAppend(cases: Cases, a: seq<Param>, b: seq<Param>)
    requires AllWellFormed(cases, a) && AllWellFormed(cases, b)
    ensures AllWellFormed(cases, a + b)
  {
  }

  lemma IdentityWellFormed(cases: Cases, a: Answer)
    requires LowersAscii(cases) && WellFormedAnswer(a)
    ensures AllWellFormed(cases, IdentityPart(a))
  {
    NamesAreLower();
    OneWellFormed(cases, "username", a.username, true);
    OneWellFormed(cases, "realm", a.realm, true);
    OneWellFormed(cases, "nonce", a.nonce, true);
    OneWellFormed(cases, "uri", a.uri, true);
    OneWellFormed(cases, "response", a.response, true);
  }

  lemma CountWellFormed(cases: Cases, a: Answer)
    requires LowersAscii(cases) && WellFormedAnswer(a)
    ensures AllWellFormed(cases, CountPart(a))
  {
    NamesAreLower();
    if a.qop != "" {
      OneWellFormed(cases, "qop", a.qop, false);
      OneWellFormed(cases, "nc", a.nc, false);
      OneWellFormed(cases, "cnonce", a.cnonce, true);
    }
  }

  lemma AnswerWellFormed(cases: Cases, a: Answer)
    requires LowersAscii(cases) && WellFormedAnswer(a)
    ensures AllWellFormed(cases, AnswerParams(a))
  {
    var algorithm, opacity := Optional("algorithm", a.algorithm, false), Optional("opaque", a.opacity, true);
    IdentityWellFormed(cases, a);
    CountWellFormed(cases, a);
    NamesAreLower();
    OneWellFormed(cases, "algorithm", a.algorithm, false);
    OneWellFormed(cases, "opaque", a.opacity, true);
    AllAppend(cases, IdentityPart(a), algorithm);
    AllAppend(cases, IdentityPart(a) + algorithm, opacity);
    AllAppend(cases, IdentityPart(a) + algorithm + opacity, CountPart(a));
  }

  /** What the client sends in answer to a challenge, response aside. */
  function Sent(endpoint: Endpoint, uri: string, c: Challenge, nc: Count, response: string): Answer {
    Answer(endpoint.username, c.realm, c.nonce, uri, response, c.algorithm, c.opacity, c.qop, Nc(nc),
        if c.cnonce == "" then "serviceradar" else c.cnonce)
  }

  lemma SentParams(env: Env, endpoint: Endpoint, verb: string, uri: string, c: Challenge, nc: Count)
    ensures DigestParams(env, endpoint, verb, uri, c, nc)
      == AnswerParams(Sent(endpoint, uri, c, nc, DigestResponse(env, endpoint, verb, uri, c, nc)))
  {
  }

  /** The challenge's values may be written as the client writes them. */
  predicate Writable(c: Challenge) {
    && Quotable(c.realm) && Quotable(c.nonce) && Quotable(c.opacity) && Plain(c.algorithm) && Plain(c.qop)
    && Quotable(c.cnonce)
  }

  /** Digests are 32 characters, none of them a quote. */
  ghost predicate FixedDigests(env: Env) {
    forall text: string :: |env.md5(text)| == 32 && Quotable(env.md5(text))
  }

  predicate IsHexChar(c: char) {
    '0' <= c <= '9' || 'a' <= c <= 'f'
  }

  lemma {:induction false} HexChars(n: nat, width: nat)
    ensures forall i | 0 <= i < width :: IsHexChar(Hex(n, width)[i])
  {
    if width > 0 { HexChars(n / 16, width - 1); }
  }

  lemma NcPlain(nc: Count)
    ensures Plain(Nc(nc))
  {
    var text := Nc(nc);
    HexChars(nc, 8);
    forall i | 0 <= i < |text| ensures text[i] != '"' && text[i] != ',' && !IsSpace(text[i]) {
      assert IsHexChar(text[i]);
    }
  }

  lemma AnswerFound(cases: Cases, a: Answer, text: string)
    requires LowersAscii(cases) && WellFormedAnswer(a) && text == Rendered(AnswerParams(a))
    ensures ParseParams(cases, text) == ToMap(AnswerParams(a))
  {
    AnswerWellFormed(cases, a);
    ParamsReadBack(cases, AnswerParams(a));
  }

  /** The parameters read are those the client sent. */
  ghost predicate Carries(p: map<string, string>, endpoint: Endpoint, uri: string, c: Challenge, nc: Count) {
    && Get(p, "username") == endpoint.username && Get(p, "realm") == c.realm && Get(p, "nonce") == c.nonce
    && Get(p, "uri") == uri && Get(p, "algorithm") == c.algorithm && Get(p, "opaque") == c.opacity
    && ("qop" in p <==> c.qop != "") && Get(p, "qop") == c.qop
    && (c.qop != "" ==> Get(p, "nc") == Nc(nc) && Get(p, "cnonce") == CNonce(c))
    && (c.qop == "" ==> Get(p, "cnonce") == "")
  }

  /** The client's header, read by a server: every value is the challenge's, the client's or the request's own. */
  lemma AnswerReadsBack(env: Env, endpoint: Endpoint, verb: string, uri: string, c: Challenge, nc: Count)
    requires LowersAscii(env.cases) && FixedDigests(env) && Writable(c)
    requires Quotable(endpoint.username) && Quotable(uri)
    ensures var header := Authorization(env, endpoint, verb, uri, Digest(c, nc));
      && HasPrefix(header, "Digest ")
      && var p := ParseParams(env.cases, header[7..]);
         Carries(p, endpoint, uri, c, nc) && Get(p, "response") == env.md5(ClientInput(env, endpoint, verb, uri, c, nc))
  {
    var response := DigestResponse(env, endpoint, verb, uri, c, nc);
    var a := Sent(endpoint, uri, c, nc, response);
    var header, text := Authorization(env, endpoint, verb, uri, Digest(c, nc)), Rendered(AnswerParams(a));
    SentParams(env, endpoint, verb, uri, c, nc);
    ResponseIs(env, endpoint, verb, uri, c, nc);
    NcPlain(nc);
    assert header == "Digest " + text && header[7..] == text;
    AnswerFound(env.cases, a, text);
    IdentityFound(a);
    AlgorithmFound(a);
    OpaqueFound(a);
    CountFound(a);
  }

  // ----- acceptance

  /** What the client's response is a digest of: its secret and request line always hashed the plain way. */
  function ClientInput(env: Env, endpoint: Endpoint, verb: string, uri: string, c: Challenge, nc: Count): string {
    var secret := env.md5(endpoint.username + ":" + c.realm + ":" + endpoint.password);
    var request := env.md5(verb + ":" + uri);
    secret + ":" + c.nonce + ":"
      + (if c.qop == "" then request else Nc(nc) + ":" + CNonce(c) + ":" + c.qop + ":" + request)
  }

  lemma ResponseIs(env: Env, endpoint: Endpoint, verb: string, uri: string, c: Challenge, nc: Count)
    ensures DigestResponse(env, endpoint, verb, uri, c, nc) == env.md5(ClientInput(env, endpoint, verb, uri, c, nc))
  {
    var secret := env.md5(endpoint.username + ":" + c.realm + ":" + endpoint.password);
    var request := env.md5(verb + ":" + uri);
    if c.qop != "" {
      assert secret + ":" + c.nonce + ":" + Nc(nc) + ":" + CNonce(c) + ":" + c.qop + ":" + request
        == secret + ":" + c.nonce + ":" + (Nc(nc) + ":" + CNonce(c) + ":" + c.qop + ":" + request);
    }
  }

  lemma InputsEqualIff(secret: string, request: string, secret': string, request': string, middle: string)
    requires |secret| == |secret'|
    ensures secret + middle + request == secret' + middle + request' <==> secret == secret' && request == request'
  {
    if secret + middle + request == secret' + middle + request' {
      ConcatIsAssociative(secret, middle, request);
      ConcatIsAssociative(secret', middle, request');
      SameLengths(secret, middle + request, secret', middle + request');
      SameLengths(middle, request, middle, request');
    }
  }

  lemma SameLengths(a: string, b: string, c: string, d: string)
    requires |a| == |c| && a + b == c + d
    ensures a == c && b == d
  {
    assert (a + b)[..|a|] == a && (c + d)[..|c|] == c;
    assert (a + b)[|a|..] == b && (c + d)[|c|..] == d;
  }

  /** What stands between the two digests in what is hashed. */
  function Middle(c: Challenge, nc: Count): string {
    if c.qop == "" then ":" + c.nonce + ":"
    else ":" + c.nonce + ":" + Nc(nc) + ":" + CNonce(c) + ":" + c.qop + ":"
  }

  lemma ClientInputParts(env: Env, endpoint: Endpoint, verb: string, uri: string, c: Challenge, nc: Count)
    ensures ClientInput(env, endpoint, verb, uri, c, nc)
      == env.md5(endpoint.username + ":" + c.realm + ":" + endpoint.password) + Middle(c, nc)
         + env.md5(verb + ":" + uri)
  {
  }

  lemma ServerInputParts(env: Env, endpoint: Endpoint, verb: string, uri: string, body: string, c: Challenge, nc: Count,
      p: map<string, string>)
    requires Carries(p, endpoint, uri, c, nc)
    ensures ResponseInput(env, endpoint, verb, body, p)
      == env.md5(SecretText(env, endpoint, p)) + Middle(c, nc) + env.md5(RequestText(env, verb, body, p))
  {
  }

  /** Two texts that have one digest only if they are one text. */
  ghost predicate Apart(env: Env, a: string, b: string) {
    env.md5(a) == env.md5(b) ==> a == b
  }

  /** The secret and the nonces, as a session algorithm hashes them. */
  function SessionSecret(env: Env, endpoint: Endpoint, c: Challenge): string {
    env.md5(endpoint.username + ":" + c.realm + ":" + endpoint.password) + ":" + c.nonce + ":"
      + (if c.qop == "" then "" else CNonce(c))
  }

  lemma SecretTextIs(env: Env, endpoint: Endpoint, uri: string, c: Challenge, nc: Count, p: map<string, string>)
    requires Carries(p, endpoint, uri, c, nc)
    ensures SecretText(env, endpoint, p) == if IsSession(env.cases, c.algorithm) then SessionSecret(env, endpoint, c)
      else endpoint.username + ":" + c.realm + ":" + endpoint.password
  {
  }

  lemma RequestTextIs(env: Env, endpoint: Endpoint, verb: string, uri: string, body: string, c: Challenge, nc: Count,
      p: map<string, string>)
    requires Carries(p, endpoint, uri, c, nc)
    ensures RequestText(env, verb, body, p)
        == if CoversBody(env.cases, c.qop) then verb + ":" + uri + ":" + env.md5(body)
      else verb + ":" + uri
  {
  }

  lemma InputsCompared(env: Env, endpoint: Endpoint, verb: string, uri: string, body: string, c: Challenge, nc: Count,
      p: map<string, string>)
    requires FixedDigests(env) && Carries(p, endpoint, uri, c, nc)
    ensures ResponseInput(env, endpoint, verb, body, p) == ClientInput(env, endpoint, verb, uri, c, nc)
      <==> env.md5(SecretText(env, endpoint, p)) == env.md5(endpoint.username + ":" + c.realm + ":" + endpoint.password)
           && env.md5(RequestText(env, verb, body, p)) == env.md5(verb + ":" + uri)
  {
    ServerInputParts(env, endpoint, verb, uri, body, c, nc, p);
    ClientInputParts(env, endpoint, verb, uri, c, nc);
    InputsEqualIff(env.md5(SecretText(env, endpoint, p)), env.md5(RequestText(env, verb, body, p)),
      env.md5(endpoint.username + ":" + c.realm + ":" + endpoint.password), env.md5(verb + ":" + uri), Middle(c, nc));
  }

  /** A server that asked for neither a session algorithm nor protection of the body accepts the answer. */
  lemma ServerAccepts(env: Env, endpoint: Endpoint, verb: string, uri: string, body: string, c: Challenge, nc: Count)
    requires LowersAscii(env.cases) && FixedDigests(env) && Writable(c)
    requires Quotable(endpoint.username) && Quotable(uri)
    requires !IsSession(env.cases, c.algorithm) && !CoversBody(env.cases, c.qop)
    ensures Accepts(env, endpoint, c.realm, c.nonce, verb, uri, body,
      Authorization(env, endpoint, verb, uri, Digest(c, nc)))
  {
    var header := Authorization(env, endpoint, verb, uri, Digest(c, nc));
    var p := ParseParams(env.cases, header[7..]);
    AnswerReadsBack(env, endpoint, verb, uri, c, nc);
    SecretTextIs(env, endpoint, uri, c, nc, p);
    RequestTextIs(env, endpoint, verb, uri, body, c, nc, p);
    InputsCompared(env, endpoint, verb, uri, body, c, nc, p);
  }

  /** Exactly when a server accepts, short of a collision of digests: the client answers a session algorithm as
      if it were the plain one and never covers the body, so a server that asked for either refuses, but for a
      secret that is the very text the session algorithm hashes. */
  lemma ServerAcceptsIff(env: Env, endpoint: Endpoint, verb: string, uri: string, body: string, c: Challenge, nc: Count)
    requires LowersAscii(env.cases) && FixedDigests(env) && Writable(c)
    requires Quotable(endpoint.username) && Quotable(uri)
    requires var header := Authorization(env, endpoint, verb, uri, Digest(c, nc));
      && Apart(env, SessionSecret(env, endpoint, c), endpoint.username + ":" + c.realm + ":" + endpoint.password)
      && Apart(env, verb + ":" + uri + ":" + env.md5(body), verb + ":" + uri)
      && Apart(env, ResponseInput(env, endpoint, verb, body, ParseParams(env.cases, header[7..])),
           ClientInput(env, endpoint, verb, uri, c, nc))
    ensures Accepts(env, endpoint, c.realm, c.nonce, verb, uri, body,
        Authorization(env, endpoint, verb, uri, Digest(c, nc)))
      <==> !CoversBody(env.cases, c.qop)
           && (IsSession(env.cases, c.algorithm) ==>
                 SessionSecret(env, endpoint, c) == endpoint.username + ":" + c.realm + ":" + endpoint.password)
  {
    var header := Authorization(env, endpoint, verb, uri, Digest(c, nc));
    var p := ParseParams(env.cases, header[7..]);
    AnswerReadsBack(env, endpoint, verb, uri, c, nc);
    SecretTextIs(env, endpoint, uri, c, nc, p);
    RequestTextIs(env, endpoint, verb, uri, body, c, nc, p);
    InputsCompared(env, endpoint, verb, uri, body, c, nc, p);
    assert |verb + ":" + uri + ":" + env.md5(body)| > |verb + ":" + uri|;
  }

  /** With a user name shorter than a digest, the exception never applies. */
  lemma SessionSecretDiffers(env: Env, endpoint: Endpoint, c: Challenge)
    requires FixedDigests(env) && |endpoint.username| < 32
    requires ':' !in env.md5(endpoint.username + ":" + c.realm + ":" + endpoint.password)
    ensures SessionSecret(env, endpoint, c) != endpoint.username + ":" + c.realm + ":" + endpoint.password
  {
    var secret := endpoint.username + ":" + c.realm + ":" + endpoint.password;
    var n := |endpoint.username|;
    assert secret[n] == ':';
    assert SessionSecret(env, endpoint, c)[n] == env.md5(secret)[n];
  }

  /** A value that starts or ends with a quote is never read back, whatever header it stands in. */
  lemma NoOuterQuotes(cases: Cases, raw: string, name: string)
    requires name in ParseParams(cases, raw)
    ensures var value := ParseParams(cases, raw)[name];
      value == "" || (value[0] != '"' && value[|value| - 1] != '"')
  {
    NoOuterQuotesIn(cases, SplitFrom(raw, [], false), name);
  }

  lemma {:induction false} NoOuterQuotesIn(cases: Cases, parts: seq<string>, name: string)
    requires name in ParamsOf(cases, parts)
    ensures var value := ParamsOf(cases, parts)[name];
      value == "" || (value[0] != '"' && value[|value| - 1] != '"')
  {
    var init, last := parts[..|parts| - 1], parts[|parts| - 1];
    var read := ReadParam(cases, last);
    if read.Some? && read.value.0 == name {
      TrimQuotesTrims(TrimSpace(last[IndexOf(last, '=') + 1..]));
    } else {
      NoOuterQuotesIn(cases, init, name);
    }
  }

  lemma {:induction false} TrimLeftQuotesTrims(s: string)
    ensures TrimLeftQuotes(s) == "" || TrimLeftQuotes(s)[0] != '"'
  {
    if s != [] && s[0] == '"' { TrimLeftQuotesTrims(s[1..]); }
  }

  lemma {:induction false} TrimRightQuotesTrims(s: string)
    ensures TrimRightQuotes(s) <= s
    ensures TrimRightQuotes(s) == "" || TrimRightQuotes(s)[|TrimRightQuotes(s)| - 1] != '"'
  {
    if s != [] && s[|s| - 1] == '"' { TrimRightQuotesTrims(s[..|s| - 1]); }
  }

  lemma TrimQuotesTrims(s: string)
    ensures var value := TrimQuotes(s); value == "" || (value[0] != '"' && value[|value| - 1] != '"')
  {
    TrimLeftQuotesTrims(s);
    TrimRightQuotesTrims(TrimLeftQuotes(s));
  }

  /** Values are written as they are, so no server accepts a user name that starts or ends with a quote. */
  lemma QuotedNameRefused(env: Env, endpoint: Endpoint, realm: string, nonce: string, verb: string, uri: string,
      body: string, header: string)
    requires endpoint.username != ""
      && (endpoint.username[0] == '"' || endpoint.username[|endpoint.username| - 1] == '"')
    ensures !Accepts(env, endpoint, realm, nonce, verb, uri, body, header)
  {
    if HasPrefix(header, "Digest ") && "username" in ParseParams(env.cases, header[7..]) {
      NoOuterQuotes(env.cases, header[7..], "username");
    }
  }
}
