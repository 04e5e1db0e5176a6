/** The RTSP client's request loop: sequence numbers, challenge adoption and digest counters over any run. */
module RtspClient {
  import opened Results
  import Bytes
  import opened Strings
  import opened Unicode
  import opened RtspChallenge
  import opened RtspRequests

  datatype Response = Response(status: int, headers: map<string, string>)

  datatype Failure = WriteFailed | ReadFailed | Unauthorized | BadResponse(status: int)

  /** A connection to an arbitrary peer; what the client wrote and what it read, in order. */
  class Connection {
    ghost var written: seq<string>
    ghost var received: seq<Option<Response>>

    constructor ()
      ensures written == [] && received == []
    {
      written, received := [], [];
    }

    method Write(text: string) returns (ok: bool)
      modifies this
      ensures written == old(written) + [text] && received == old(received)
    {
      written := written + [text];
      ok := *;
    }

    method Read() returns (response: Option<Response>)
      modifies this
      ensures received == old(received) + [response] && written == old(written)
    {
      response := *;
      received := received + [response];
    }
  }

  /** The challenge in a response, if the client will answer it. */
  function Answerable(reading: string -> Option<Challenge>, endpoint: Endpoint,
      response: Option<Response>): Option<Challenge> {
    if response.Some? && response.value.status == 401 && endpoint.username != ""
    then reading(Get(response.value.headers, "www-authenticate"))
    else None
  }

  /** A challenge taken on just before request number `at` (from 0) was built. */
  datatype Adoption = Adoption(at: nat, challenge: Challenge)

  /** The last challenge adopted by request k. */
  function Current(adoptions: seq<Adoption>, k: nat): Option<Adoption> {
    if adoptions == [] then None
    else if Last(adoptions).at <= k then Some(Last(adoptions))
    else Current(adoptions[..|adoptions| - 1], k)
  }

  /** How request k must identify its sender: under a digest challenge its counter is the number of
      requests built since that challenge was adopted, itself included. */
  function Expected(env: Env, endpoint: Endpoint, adoptions: seq<Adoption>, k: nat): Credentials {
    if Anonymous(endpoint) then Nobody
    else
      match Current(adoptions, k)
      case None => Basic
      case Some(a) => if IsDigest(env, a.challenge) && a.at <= k then Digest(a.challenge, Counted(k - a.at + 1))
          else Basic
  }

  /** Every request so far carried its own number and the credentials its position calls for. */
  ghost predicate Numbered(env: Env, endpoint: Endpoint, adoptions: seq<Adoption>, built: seq<Request>) {
    forall k | 0 <= k < |built| ::
        built[k].cseq == k + 1 && built[k].credentials == Expected(env, endpoint, adoptions, k)
  }

  /** Each request went out in its own text. */
  ghost predicate WrittenOut(env: Env, endpoint: Endpoint, built: seq<Request>, written: seq<string>) {
    |written| == |built| && forall k | 0 <= k < |built| :: Writes(env, endpoint, built[k], written[k])
  }

  lemma WrittenSnoc(env: Env, endpoint: Endpoint, built: seq<Request>, written: seq<string>, r: Request, text: string)
    requires WrittenOut(env, endpoint, built, written) && Writes(env, endpoint, r, text)
    ensures WrittenOut(env, endpoint, built + [r], written + [text])
  {
  }

  lemma NumberedSnoc(env: Env, endpoint: Endpoint, adoptions: seq<Adoption>, built: seq<Request>, r: Request)
    requires Numbered(env, endpoint, adoptions, built) && r.cseq == |built| + 1
        && r.credentials == Expected(env, endpoint, adoptions, |built|)
    ensures Numbered(env, endpoint, adoptions, built + [r])
  {
  }

  lemma NumberedAdopting(env: Env, endpoint: Endpoint, adoptions: seq<Adoption>, built: seq<Request>,
      challenge: Challenge)
    requires Numbered(env, endpoint, adoptions, built)
    ensures Numbered(env, endpoint, adoptions + [Adoption(|built|, challenge)], built)
  {
    var next := Adoption(|built|, challenge);
    forall k | 0 <= k < |built|
        ensures Expected(env, endpoint, adoptions + [next], k) == Expected(env, endpoint, adoptions, k) {
      LaterAdoption(adoptions, next, k);
    }
  }

  function Last(adoptions: seq<Adoption>): Adoption
    requires adoptions != []
  {
    adoptions[|adoptions| - 1]
  }

  /** The counter once `n` requests have been built. */
  function CountAfter(env: Env, endpoint: Endpoint, a: Adoption, n: nat): Count {
    if !Anonymous(endpoint) && IsDigest(env, a.challenge) && a.at <= n then Counted(n - a.at) else 0
  }

  /** What a client holds of the current challenge: the challenge and its counter. */
  type Held = Option<(Challenge, Count)>

  /** A run so far: what was built, what was written, and what the client holds. */
  datatype Record = Record(seqNo: int, held: Held, built: seq<Request>, adoptions: seq<Adoption>, written: seq<string>)

  /** The state of the current challenge, if one was adopted. */
  ghost predicate HeldMatches(env: Env, endpoint: Endpoint, r: Record) {
    if r.adoptions == [] then r.held == None
    else
      && r.held.Some? && r.held.value.0 == Last(r.adoptions).challenge && Last(r.adoptions).at <= |r.built|
      && r.held.value.1 == CountAfter(env, endpoint, Last(r.adoptions), |r.built|)
  }

  ghost predicate Sound(env: Env, endpoint: Endpoint, r: Record) {
    && r.seqNo == |r.built| + 1 && Numbered(env, endpoint, r.adoptions, r.built)
    && WrittenOut(env, endpoint, r.built, r.written) && HeldMatches(env, endpoint, r)
  }

  /** The credentials of the next request, and what is held after it. */
  function NextCredentials(env: Env, endpoint: Endpoint, held: Held): Credentials {
    if Anonymous(endpoint) then Nobody
    else if held.Some? && IsDigest(env, held.value.0) then Digest(held.value.0, Bump(held.value.1))
    else Basic
  }

  function HeldAfter(env: Env, endpoint: Endpoint, held: Held): Held {
    if NextCredentials(env, endpoint, held).Digest? then Some((held.value.0, Bump(held.value.1))) else held
  }

  lemma SendKeepsSound(env: Env, endpoint: Endpoint, r: Record, request: Request, text: string)
    requires Sound(env, endpoint, r) && request.cseq == r.seqNo
    requires request.credentials == NextCredentials(env, endpoint, r.held) && Writes(env, endpoint, request, text)
    ensures Sound(env, endpoint,
        Record(r.seqNo + 1, HeldAfter(env, endpoint, r.held), r.built + [request], r.adoptions, r.written + [text]))
  {
    NextExpected(env, endpoint, r.adoptions, |r.built|);
    NumberedSnoc(env, endpoint, r.adoptions, r.built, request);
    WrittenSnoc(env, endpoint, r.built, r.written, request, text);
  }

  lemma AdoptKeepsSound(env: Env, endpoint: Endpoint, r: Record, challenge: Challenge)
    requires Sound(env, endpoint, r)
    ensures Sound(env, endpoint,
        r.(held := Some((challenge, 0)), adoptions := r.adoptions + [Adoption(|r.built|, challenge)]))
  {
    NumberedAdopting(env, endpoint, r.adoptions, r.built, challenge);
  }

  class Client {
    const env: Env
    const endpoint: Endpoint
    const conn: Connection
    /** How this client reads a challenge header, under a name of its own. */
    ghost const reading: string -> Option<Challenge>
    var seqNo: int
    var session: string
    var auth: AuthState?
    ghost var built: seq<Request>
    ghost var adoptions: seq<Adoption>

    ghost function Recorded(): Record
      reads this, conn, auth
    {
      Record(seqNo, if auth == null then None else Some((auth.challenge, auth.nc)), built, adoptions, conn.written)
    }

    ghost predicate Valid()
      reads this, conn, auth
    {
      && Sound(env, endpoint, Recorded())
      && forall header {:trigger ReadChallenge(env.cases, header)} ::
          reading(header) == ReadChallenge(env.cases, header)
    }

    constructor (env: Env, endpoint: Endpoint, conn: Connection)
      requires conn.written == []
      ensures Valid() && built == [] && adoptions == [] && session == ""
      ensures this.env == env && this.endpoint == endpoint && this.conn == conn && auth == null
    {
      this.env, this.endpoint, this.conn := env, endpoint, conn;
      seqNo, session, auth := 1, "", null;
      reading := (header: string) => ReadChallenge(env.cases, header);
      built, adoptions := [], [];
    }

    /** Builds the next request and writes it. */
    method Send(verb: string, uri: string, extra: map<string, string>) returns (ok: bool, ghost request: Request)
      requires Valid()
      modifies this`seqNo, this`built, conn, auth
      ensures Valid()
      ensures conn.received == old(conn.received)
      ensures built == old(built) + [request] && IsFor(endpoint, request, verb, uri, session, extra)
    {
      ghost var before := Recorded();
      var text;
      text, request := BuildRequest(env, endpoint, verb, uri, seqNo, session, auth, extra);
      SendKeepsSound(env, endpoint, before, request, text);
      seqNo := seqNo + 1;
      built := built + [request];
      ok := conn.Write(text);
      assert Recorded().held == HeldAfter(env, endpoint, before.held);
    }

    /** Sends a request and reads the answer. */
    method Exchange(verb: string, uri: string, extra: map<string, string>)
        returns (result: Result<Response, Failure>, ghost request: Request)
      requires Valid()
      modifies this`seqNo, this`built, conn, auth
      ensures Valid()
      ensures built == old(built) + [request] && IsFor(endpoint, request, verb, uri, session, extra)
      ensures conn.received == old(conn.received) + Answer(result)
      ensures result.Ok? || result.error == WriteFailed || result.error == ReadFailed
    {
      var ok;
      ok, request := Send(verb, uri, extra);
      if !ok { return Err(WriteFailed), request; }
      var response := conn.Read();
      if response.None? { return Err(ReadFailed), request; }
      return Ok(response.value), request;
    }

    /** Takes on a new challenge for the requests from here on. */
    method Adopt(challenge: Challenge)
      requires Valid()
      modifies this`auth, this`adoptions
      ensures Valid() && adoptions == old(adoptions) + [Adoption(|built|, challenge)]
      ensures fresh(auth)
    {
      AdoptKeepsSound(env, endpoint, Recorded(), challenge);
      adoptions := adoptions + [Adoption(|built|, challenge)];
      auth := new AuthState(challenge);
    }

    /** Answers a challenge: the same request again, under the new challenge. */
    method Retry(challenge: Challenge, verb: string, uri: string, extra: map<string, string>)
        returns (result: Result<Response, Failure>, ghost request: Request)
      requires Valid()
      modifies this`seqNo, this`built, this`auth, this`adoptions, conn
      ensures Valid()
      ensures built == old(built) + [request] && IsFor(endpoint, request, verb, uri, session, extra)
      ensures adoptions == old(adoptions) + [Adoption(|old(built)|, challenge)]
      ensures conn.received == old(conn.received) + Answer(result)
      ensures result.Ok? || result.error == WriteFailed || result.error == ReadFailed
    {
      Adopt(challenge);
      result, request := Exchange(verb, uri, extra);
    }

    /** The first exchange of a call, and the challenge in its answer. */
    method Open(verb: string, uri: string, extra: map<string, string>)
      returns (result: Result<Response, Failure>, challenge: Option<Challenge>, ghost request: Request,
      ghost read: seq<Option<Response>>)
      requires Valid()
      modifies this`seqNo, this`built, conn, auth
      ensures Valid()
      ensures built == old(built) + [request] && IsFor(endpoint, request, verb, uri, session, extra)
      ensures conn.received == old(conn.received) + read
      ensures challenge == ChallengeIn(reading, endpoint, read)
      ensures |read| <= 1 && result == Unless401(endpoint, challenge, Received(read))
    {
      result, request := Exchange(verb, uri, extra);
      read, challenge := Answer(result), None;
      if result.Ok? && result.value.status == 401 && endpoint.username != "" {
        challenge := ParseAuthenticateHeader(env.cases, Get(result.value.headers, "www-authenticate"));
        if challenge.None? { result := Err(Unauthorized); }
      }
    }

    /** The exchanges of a call; what is left of it is to refuse an answer of 400 or more. */
    method Converse(verb: string, uri: string, extra: map<string, string>)
      returns (result: Result<Response, Failure>, ghost sent: seq<Request>, ghost read: seq<Option<Response>>)
      requires Valid()
      modifies this`seqNo, this`built, this`auth, this`adoptions, conn, auth
      ensures Valid()
      ensures built == old(built) + sent && conn.received == old(conn.received) + read
      ensures forall i | 0 <= i < |sent| :: IsFor(endpoint, sent[i], verb, uri, session, extra)
      ensures Concluded(endpoint, ChallengeIn(reading, endpoint, read), |old(built)|, sent,
                        old(adoptions), adoptions, read, Unless400(result))
    {
      var challenge;
      ghost var request;
      ghost var before, adopted, start := built, adoptions, conn.received;
      result, challenge, request, read := Open(verb, uri, extra);
      sent := [request];
      if challenge.Some? {
        ghost var first := read;
        result, request := Retry(challenge.value, verb, uri, extra);
        ConcludedTwice(reading, endpoint, challenge.value, |before|, sent, request, adopted, first, result);
        Bytes.ConcatIsAssociative(before, sent, [request]);
        Bytes.ConcatIsAssociative(start, first, Answer(result));
        sent, read := sent + [request], first + Answer(result);
      } else {
        ConcludedOnce(endpoint, |before|, sent, adopted, read, result);
      }
    }

    /** One request, and one more if the server challenges a client that has a user name: the requests sent
        and the answers read go on the ends of the logs. */
    method DoRequest(verb: string, uri: string, extra: map<string, string>)
      returns (result: Result<Response, Failure>, ghost sent: seq<Request>, ghost read: seq<Option<Response>>)
      requires Valid()
      modifies this`seqNo, this`built, this`auth, this`adoptions, conn, auth
      ensures Valid()
      ensures built == old(built) + sent && conn.received == old(conn.received) + read
      ensures forall i | 0 <= i < |sent| :: IsFor(endpoint, sent[i], verb, uri, session, extra)
      ensures Concluded(endpoint, ChallengeIn(reading, endpoint, read), |old(built)|, sent,
                        old(adoptions), adoptions, read, result)
    {
      result, sent, read := Converse(verb, uri, extra);
      if result.Ok? && result.value.status >= 400 { result := Err(BadResponse(result.value.status)); }
    }
  }

  /** The challenge in the first answer read, if the client will answer it. */
  function ChallengeIn(reading: string -> Option<Challenge>, endpoint: Endpoint,
      read: seq<Option<Response>>): Option<Challenge> {
    if read == [] then None else Answerable(reading, endpoint, read[0])
  }

  /** What an exchange comes to, from what was read: nothing at all if the request could not be written. */
  function Received(read: seq<Option<Response>>): Result<Response, Failure> {
    if read == [] then Err(WriteFailed)
    else if read[|read| - 1].None? then Err(ReadFailed)
    else Ok(read[|read| - 1].value)
  }

  /** A 401 with no challenge to answer is refused, unless the client has no user name to answer with. */
  function Unless401(endpoint: Endpoint, challenge: Option<Challenge>,
      result: Result<Response, Failure>): Result<Response, Failure> {
    if result.Ok? && result.value.status == 401 && endpoint.username != "" && challenge.None? then Err(Unauthorized)
    else result
  }

  function Unless400(result: Result<Response, Failure>): Result<Response, Failure> {
    if result.Ok? && result.value.status >= 400 then Err(BadResponse(result.value.status)) else result
  }

  /** The result of a call, from the challenge in its first answer and what was read: without a challenge
      from the first answer, with one from the second. */
  function ResultOf(
      endpoint: Endpoint, challenge: Option<Challenge>, read: seq<Option<Response>>): Result<Response, Failure> {
    if challenge.Some? && read != [] then Unless400(Received(read[1..]))
    else Unless400(Unless401(endpoint, challenge, Received(read)))
  }

  /** A call sends twice, and adopts a challenge in between, exactly when its first answer challenges it; its
      result is the one the last answer gives. */
  ghost predicate Concluded(
      endpoint: Endpoint, challenge: Option<Challenge>, before: nat, sent: seq<Request>, adopted: seq<Adoption>,
      adoptions: seq<Adoption>, read: seq<Option<Response>>, result: Result<Response, Failure>) {
    && |sent| == (if challenge.Some? then 2 else 1)
    && adoptions == adopted + (if challenge.Some? then [Adoption(before + 1, challenge.value)] else [])
    && |read| <= |sent| && result == ResultOf(endpoint, challenge, read)
  }

  lemma ConcludedOnce(
      endpoint: Endpoint, before: nat, sent: seq<Request>, adopted: seq<Adoption>, read: seq<Option<Response>>,
      result: Result<Response, Failure>)
    requires |sent| == 1 && |read| <= 1 && result == Unless401(endpoint, None, Received(read))
    ensures Concluded(endpoint, None, before, sent, adopted, adopted, read, Unless400(result))
  {
  }

  lemma ConcludedTwice(
      reading: string -> Option<Challenge>, endpoint: Endpoint, challenge: Challenge, before: nat, sent: seq<Request>,
      again: Request,
      adopted: seq<Adoption>, read: seq<Option<Response>>, result: Result<Response, Failure>)
    requires |sent| == 1 && |read| == 1 && ChallengeIn(reading, endpoint, read) == Some(challenge)
    requires result.Ok? || result.error == WriteFailed || result.error == ReadFailed
    ensures ChallengeIn(reading, endpoint, read + Answer(result)) == Some(challenge)
    ensures Concluded(endpoint, Some(challenge), before, sent + [again], adopted,
                      adopted + [Adoption(before + 1, challenge)], read + Answer(result), Unless400(result))
  {
    assert (read + Answer(result))[1..] == Answer(result);
  }

  /** What reading an exchange's answer adds to the log. */
  function Answer(result: Result<Response, Failure>): seq<Option<Response>> {
    match result
    case Ok(response) => [Some(response)]
    case Err(ReadFailed) => [None]
    case Err(_) => []
  }

  /** The request asks for this, and says nothing of its sender exactly when name and password are blank. */
  ghost predicate IsFor(endpoint: Endpoint, r: Request, verb: string, uri: string, session: string,
      extra: map<string, string>) {
    && r.verb == verb && r.uri == uri && r.session == session && r.extra == extra
    && (r.credentials == Nobody <==> Anonymous(endpoint))
  }

  /** The counter the client is about to send is the one its position calls for. */
  lemma NextExpected(env: Env, endpoint: Endpoint, adoptions: seq<Adoption>, k: nat)
    requires adoptions != [] ==> Last(adoptions).at <= k
    ensures Expected(env, endpoint, adoptions, k) ==
      if Anonymous(endpoint) then Nobody
      else if adoptions != [] && IsDigest(env, Last(adoptions).challenge)
      then Digest(Last(adoptions).challenge, Bump(CountAfter(env, endpoint, Last(adoptions), k)))
      else Basic
    ensures adoptions != [] ==>
      CountAfter(env, endpoint, Last(adoptions), k + 1)
      == if Expected(env, endpoint, adoptions, k).Digest? then Bump(CountAfter(env, endpoint, Last(adoptions), k))
          else CountAfter(env, endpoint, Last(adoptions), k)
  {
  }

  lemma LaterAdoption(adoptions: seq<Adoption>, next: Adoption, k: nat)
    requires k < next.at
    ensures Current(adoptions + [next], k) == Current(adoptions, k)
  {
    assert (adoptions + [next])[..|adoptions|] == adoptions;
  }

  /** Over every run, request k names its sender exactly when the user name or the password is not blank. */
  lemma NobodyIffAnonymous(env: Env, endpoint: Endpoint, adoptions: seq<Adoption>, k: nat)
    ensures Expected(env, endpoint, adoptions, k) == Nobody <==> Anonymous(endpoint)
  {
  }

  /** A blank user name that is not empty has the client answer a challenge without saying who it is. */
  lemma BlankNameExample(env: Env)
    requires LowersAscii(env.cases)
    ensures Anonymous(Endpoint(" ", ""))
    ensures Answerable((header: string) => ReadChallenge(env.cases, header), Endpoint(" ", ""),
        Some(Response(401, map["www-authenticate" := "basic"]))).Some?
  {
    var header := "basic";
    TrimmedIsFixed(header);
    assert ToLower(env.cases, header) == header;
    assert IsSpace(' ') && TrimLeft(" ") == TrimLeft("");
  }

  // ----- what the counters mean to the server

  /** The counter of a request is its place, from 1, among those built since its challenge was adopted, modulo 2^32. */
  lemma CounterIsPosition(env: Env, endpoint: Endpoint, adoptions: seq<Adoption>, k: nat)
    requires Expected(env, endpoint, adoptions, k).Digest?
    ensures Expected(env, endpoint, adoptions, k).nc == (k - Current(adoptions, k).value.at + 1) % UINT32_LIMIT
  {
    CountedWraps(k - Current(adoptions, k).value.at + 1);
  }

  /** Two answers to one challenge carry the same counter exactly when their distance is a multiple of 2^32. */
  lemma CountersRepeatIff(env: Env, endpoint: Endpoint, adoptions: seq<Adoption>, j: nat, k: nat)
    requires j <= k && Current(adoptions, j) == Current(adoptions, k)
    requires Expected(env, endpoint, adoptions, j).Digest? && Expected(env, endpoint, adoptions, k).Digest?
    ensures Expected(env, endpoint, adoptions, j).nc == Expected(env, endpoint, adoptions, k).nc <==>
        (k - j) % UINT32_LIMIT == 0
  {
    var at := Current(adoptions, j).value.at;
    CountedWraps(j - at + 1);
    CountedWraps(k - at + 1);
    SameRemainder(j - at + 1, k - j);
    assert k - at + 1 == (j - at + 1) + (k - j);
  }

  lemma SameRemainder(a: nat, d: nat)
    ensures a % UINT32_LIMIT == (a + d) % UINT32_LIMIT <==> d % UINT32_LIMIT == 0
  {
    var q, r := a / UINT32_LIMIT, a % UINT32_LIMIT;
    var p, s := d / UINT32_LIMIT, d % UINT32_LIMIT;
    assert a + d == (q + p) * UINT32_LIMIT + (r + s);
  }

  lemma {:induction false} ToMapAt(params: seq<Param>, k: nat)
    requires k < |params| && forall j | k < j < |params| :: params[j].name != params[k].name
    ensures params[k].name in ToMap(params) && ToMap(params)[params[k].name] == params[k].value
  {
    if k < |params| - 1 { ToMapAt(params[..|params| - 1], k); }
  }

  /** A server that parses the header finds the counter in it, as eight hexadecimal digits. */
  lemma CounterReadsBack(env: Env, endpoint: Endpoint, verb: string, uri: string, c: Challenge, nc: Count)
    requires c.qop != "" && WellFormedParams(env.cases, DigestParams(env, endpoint, verb, uri, c, nc))
    ensures Get(ParseParams(env.cases, Rendered(DigestParams(env, endpoint, verb, uri, c, nc))), "nc") == Nc(nc)
  {
    var params := DigestParams(env, endpoint, verb, uri, c, nc);
    var k := |params| - 2;
    assert params[k] == Param("nc", Nc(nc), false) && params[k + 1] == Param("cnonce", CNonce(c), true);
    assert |params[k].name| != |params[k + 1].name|;
    ToMapAt(params, k);
    ParamsReadBack(env.cases, params);
  }
}
