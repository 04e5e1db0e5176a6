/** The text of RTSP requests: the request line, CSeq, session, authorization and extra headers. */
module RtspRequests {
  import opened Strings
  import opened Unicode
  import opened RtspChallenge

  const UINT32_LIMIT := 0x1_0000_0000

  type Count = n: int | 0 <= n < UINT32_LIMIT witness 0

  datatype Endpoint = Endpoint(username: string, password: string)

  /** Library calls: case mappings, the hexadecimal MD5 digest, base64. */
  datatype Env = Env(cases: Cases, md5: string -> string, base64: string -> string)

  /** How a request identifies its sender. */
  datatype Credentials = Nobody | Basic | Digest(challenge: Challenge, nc: Count)

  datatype Request = Request(verb: string, uri: string, cseq: int, session: string, credentials: Credentials,
      extra: map<string, string>)

  // ----- hexadecimal counters

  function HexDigit(d: int): char
    requires 0 <= d < 16
  {
    if d < 10 then '0' + d as char else 'a' + (d - 10) as char
  }

  function Hex(n: nat, width: nat): (s: string)
    ensures |s| == width
  {
    if width == 0 then "" else Hex(n / 16, width - 1) + [HexDigit(n % 16)]
  }

  function Power16(width: nat): nat {
    if width == 0 then 1 else 16 * Power16(width - 1)
  }

  /** Different counters are written differently. */
  lemma {:induction false} HexInjective(n: nat, m: nat, width: nat)
    requires n < Power16(width) && m < Power16(width) && Hex(n, width) == Hex(m, width)
    ensures n == m
  {
    if width > 0 {
      assert Hex(n, width)[..width - 1] == Hex(n / 16, width - 1)
          && Hex(m, width)[..width - 1] == Hex(m / 16, width - 1);
      assert Hex(n, width)[width - 1] == HexDigit(n % 16) && Hex(m, width)[width - 1] == HexDigit(m % 16);
      HexInjective(n / 16, m / 16, width - 1);
    }
  }

  function Nc(n: Count): string {
    Hex(n, 8)
  }

  lemma NcInjective(n: Count, m: Count)
    requires Nc(n) == Nc(m)
    ensures n == m
  {
    assert Power16(4) == 0x1_0000;
    assert Power16(8) == 0x1_0000_0000;
    HexInjective(n, m, 8);
  }

  // ----- authorization

  function DigestResponse(env: Env, endpoint: Endpoint, verb: string, uri: string, c: Challenge, nc: Count): string {
    var ha1 := env.md5(endpoint.username + ":" + c.realm + ":" + endpoint.password);
    var ha2 := env.md5(verb + ":" + uri);
    if c.qop != "" then env.md5(ha1 + ":" + c.nonce + ":" + Nc(nc) + ":" + CNonce(c) + ":" + c.qop + ":" + ha2)
    else env.md5(ha1 + ":" + c.nonce + ":" + ha2)
  }

  function CNonce(c: Challenge): string {
    if c.cnonce == "" then "serviceradar" else c.cnonce
  }

  function Optional(name: string, value: string, quoted: bool): seq<Param> {
    if value == "" then [] else [Param(name, value, quoted)]
  }

  function IdentityParams(env: Env, endpoint: Endpoint, verb: string, uri: string, c: Challenge,
      nc: Count): seq<Param> {
    [Param("username", endpoint.username, true), Param("realm", c.realm, true), Param("nonce", c.nonce, true),
     Param("uri", uri, true), Param("response", DigestResponse(env, endpoint, verb, uri, c, nc), true)]
  }

  function CountParams(c: Challenge, nc: Count): seq<Param> {
    if c.qop == "" then []
    else [Param("qop", c.qop, false), Param("nc", Nc(nc), false), Param("cnonce", CNonce(c), true)]
  }

  function DigestParams(env: Env, endpoint: Endpoint, verb: string, uri: string, c: Challenge,
      nc: Count): (params: seq<Param>)
    ensures params != []
  {
    IdentityParams(env, endpoint, verb, uri, c, nc)
    + Optional("algorithm", c.algorithm, false) + Optional("opaque", c.opacity, true) + CountParams(c, nc)
  }

  /** The value of the Authorization header, empty for none. */
  function Authorization(env: Env, endpoint: Endpoint, verb: string, uri: string, credentials: Credentials): string {
    match credentials
    case Nobody => ""
    case Basic => "Basic " + env.base64(endpoint.username + ":" + endpoint.password)
    case Digest(challenge, nc) => "Digest " + Rendered(DigestParams(env, endpoint, verb, uri, challenge, nc))
  }

  predicate Anonymous(endpoint: Endpoint) {
    TrimSpace(endpoint.username) == "" && TrimSpace(endpoint.password) == ""
  }

  predicate IsDigest(env: Env, challenge: Challenge) {
    EqualFold(env.cases, challenge.scheme, DIGEST)
  }

  /** The client's challenge and how many requests it has answered it with. */
  class AuthState {
    const challenge: Challenge
    var nc: Count

    constructor (challenge: Challenge)
      ensures this.challenge == challenge && nc == 0
    {
      this.challenge, nc := challenge, 0;
    }
  }

  /** The next value of a 32-bit counter. */
  function Bump(n: Count): Count {
    if n + 1 == UINT32_LIMIT then 0 else n + 1
  }

  /** A 32-bit counter moved `n` times from zero. */
  function Counted(n: nat): Count {
    if n == 0 then 0 else Bump(Counted(n - 1))
  }

  lemma {:induction false} CountedWraps(n: nat)
    ensures Counted(n) == n % UINT32_LIMIT
  {
    if n > 0 {
      CountedWraps(n - 1);
      var q, r := (n - 1) / UINT32_LIMIT, (n - 1) % UINT32_LIMIT;
      assert if r + 1 == UINT32_LIMIT then n == (q + 1) * UINT32_LIMIT else n == q * UINT32_LIMIT + (r + 1);
    }
  }

  /** After 2^32 requests the counter of the first is sent again. */
  lemma CounterRepeatsExample()
    ensures Counted(UINT32_LIMIT + 1) == Counted(1)
  {
    CountedWraps(UINT32_LIMIT + 1);
    CountedWraps(1);
  }

  /** The authorization for one request; a digest challenge's counter moves first, wrapping at 32 bits. */
  method BuildAuthorization(env: Env, endpoint: Endpoint, verb: string, uri: string, auth: AuthState?)
      returns (header: string, ghost credentials: Credentials)
    modifies auth
    ensures header == Authorization(env, endpoint, verb, uri, credentials)
    ensures credentials ==
      if Anonymous(endpoint) then Nobody
      else if auth != null && IsDigest(env, auth.challenge) then Digest(auth.challenge, Bump(old(auth.nc)))
      else Basic
    ensures auth != null ==> auth.nc == if credentials.Digest? then Bump(old(auth.nc)) else old(auth.nc)
  {
    if Anonymous(endpoint) { return "", Nobody; }
    if auth != null && IsDigest(env, auth.challenge) {
      auth.nc := Bump(auth.nc);
      header := BuildDigest(env, endpoint, verb, uri, auth.challenge, auth.nc);
      return header, Digest(auth.challenge, auth.nc);
    }
    return "Basic " + env.base64(endpoint.username + ":" + endpoint.password), Basic;
  }

  method BuildDigest(env: Env, endpoint: Endpoint, verb: string, uri: string, c: Challenge, nc: Count)
      returns (header: string)
    ensures header == "Digest " + Rendered(DigestParams(env, endpoint, verb, uri, c, nc))
  {
    var response := DigestResponse(env, endpoint, verb, uri, c, nc);
    var parts := [Param("username", endpoint.username, true), Param("realm", c.realm, true),
        Param("nonce", c.nonce, true),
                  Param("uri", uri, true), Param("response", response, true)];
    parts := AddAlgorithm(parts, c);
    parts := AddCount(parts, c, nc);
    header := "Digest " + Rendered(parts);
  }

  method AddCount(parts: seq<Param>, c: Challenge, nc: Count) returns (r: seq<Param>)
    ensures r == parts + CountParams(c, nc)
  {
    r := parts;
    if c.qop != "" {
      r := r + [Param("qop", c.qop, false)];
      r := r + [Param("nc", Nc(nc), false)];
      r := r + [Param("cnonce", CNonce(c), true)];
    }
  }

  method AddAlgorithm(parts: seq<Param>, c: Challenge) returns (r: seq<Param>)
    ensures r == parts + Optional("algorithm", c.algorithm, false) + Optional("opaque", c.opacity, true)
  {
    r := parts;
    if c.algorithm != "" { r := r + [Param("algorithm", c.algorithm, false)]; }
    if c.opacity != "" { r := r + [Param("opaque", c.opacity, true)]; }
  }

  // ----- the request text

  type Header = (string, string)

  predicate Blank(h: Header) {
    TrimSpace(h.0) == "" || TrimSpace(h.1) == ""
  }

  function HeaderLine(name: string, value: string): string {
    name + ": " + value + "\r\n"
  }

  /** The extra headers in the order they are written, the blank ones left out. */
  function HeaderLines(order: seq<Header>): string {
    if order == [] then ""
    else
      var last := order[|order| - 1];
      HeaderLines(order[..|order| - 1]) + if Blank(last) then "" else HeaderLine(last.0, last.1)
  }

  function Entries(order: seq<Header>): map<string, string> {
    if order == [] then map[] else Entries(order[..|order| - 1])[order[|order| - 1].0 := order[|order| - 1].1]
  }

  /** The list holds every entry of the map once, in some order. */
  predicate Lists(order: seq<Header>, extra: map<string, string>) {
    Entries(order) == extra && |order| == |extra|
  }

  /** Everything up to the extra headers. */
  function Opening(env: Env, endpoint: Endpoint, r: Request): string {
    var authorization := Authorization(env, endpoint, r.verb, r.uri, r.credentials);
    r.verb + " " + r.uri + " RTSP/1.0\r\n" + HeaderLine("CSeq", Itoa(r.cseq))
        + HeaderLine("User-Agent", "ServiceRadar-Camera-WASM/0.1")
    + (if r.session == "" then "" else HeaderLine("Session", r.session))
    + (if authorization == "" then "" else HeaderLine("Authorization", authorization))
  }

  /** The text is the request's, with its extra headers in some order. */
  ghost predicate Writes(env: Env, endpoint: Endpoint, r: Request, text: string) {
    exists order {:trigger Lists(order, r.extra)} ::
      Lists(order, r.extra) && text == Opening(env, endpoint, r) + HeaderLines(order) + "\r\n"
  }

  lemma EntriesSnoc(order: seq<Header>, h: Header)
    ensures Entries(order + [h]) == Entries(order)[h.0 := h.1]
    ensures HeaderLines(order + [h]) == HeaderLines(order) + if Blank(h) then "" else HeaderLine(h.0, h.1)
  {
    assert (order + [h])[..|order|] == order;
  }

  lemma NextEntry(extra: map<string, string>, order: seq<Header>, remaining: set<string>, key: string)
    requires key in remaining && key in extra && Entries(order) == extra - remaining
    ensures Entries(order + [(key, extra[key])]) == extra - (remaining - {key})
  {
    EntriesSnoc(order, (key, extra[key]));
  }

  method WriteHeaders(extra: map<string, string>) returns (text: string, ghost order: seq<Header>)
    ensures Lists(order, extra) && text == HeaderLines(order)
  {
    text, order := "", [];
    var remaining := extra.Keys;
    while remaining != {}
      invariant remaining <= extra.Keys && |order| == |extra| - |remaining|
      invariant Entries(order) == extra - remaining
      invariant text == HeaderLines(order)
    {
      var key :| key in remaining;
      NextEntry(extra, order, remaining, key);
      text := WriteHeader(text, key, extra[key], order);
      order := order + [(key, extra[key])];
      remaining := remaining - {key};
    }
  }

  method WriteHeader(text: string, key: string, value: string, ghost order: seq<Header>) returns (r: string)
    requires text == HeaderLines(order)
    ensures r == HeaderLines(order + [(key, value)])
  {
    EntriesSnoc(order, (key, value));
    if TrimSpace(key) == "" || TrimSpace(value) == "" { return text; }
    return text + HeaderLine(key, value);
  }

  method BuildRequest(env: Env, endpoint: Endpoint, verb: string, uri: string, cseq: int, session: string,
      auth: AuthState?, extra: map<string, string>)
    returns (text: string, ghost request: Request)
    modifies auth
    ensures request == Request(verb, uri, cseq, session, request.credentials, extra)
    ensures Writes(env, endpoint, request, text)
    ensures request.credentials ==
      if Anonymous(endpoint) then Nobody
      else if auth != null && IsDigest(env, auth.challenge) then Digest(auth.challenge, Bump(old(auth.nc)))
      else Basic
    ensures auth != null ==> auth.nc == if request.credentials.Digest? then Bump(old(auth.nc)) else old(auth.nc)
  {
    text := verb + " " + uri + " RTSP/1.0\r\n" + HeaderLine("CSeq", Itoa(cseq))
        + HeaderLine("User-Agent", "ServiceRadar-Camera-WASM/0.1");
    text := text + if session == "" then "" else HeaderLine("Session", session);
    var authorization, credentials := BuildAuthorization(env, endpoint, verb, uri, auth);
    text := text + if authorization == "" then "" else HeaderLine("Authorization", authorization);
    request := Request(verb, uri, cseq, session, credentials, extra);
    assert text == Opening(env, endpoint, request);
    var headers, order := WriteHeaders(extra);
    text := text + headers + "\r\n";
  }
}
