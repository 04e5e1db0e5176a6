/** The two response formats, told apart by content, and a whole exchange with the local host. */
module HttpResponses {
  import opened Bytes
  import opened Results
  import opened Decimal
  import opened JsonObjects
  import opened HttpRequests
  import opened HttpRoundTrip
  import Utf8

  const LF: byte := 0x0A
  /** Half the range of the client's integers: 2^31 in a 32-bit build, as for WebAssembly, else 2^63. */
  type Half = n: int | n == 0x8000_0000 || n == 0x8000_0000_0000_0000 witness 0x8000_0000

  datatype Response = Response(status: int, headers: map<Text, Text>, body: Text)

  /** The library's JSON codec of the response envelope, its case-insensitive comparison, and the width of
      the client's integers. */
  datatype Codec = Codec(
    marshal: Response -> Text, unmarshal: Text -> Option<Response>, equalFold: (Text, Text) -> bool, half: Half)

  /** An envelope is a JSON object that reads back; text starting with a minus sign is no object. */
  ghost predicate Envelope(codec: Codec) {
    && (forall r: Response | ValidHeaders(r.headers) :: codec.unmarshal(codec.marshal(r)) == Some(r))
    && (forall r: Response :: codec.marshal(r) != [] && codec.marshal(r)[0] == OPEN)
    && (forall text: Text | text != [] && text[0] == 0x2D :: codec.unmarshal(text).None?)
    && (forall text: Text :: codec.equalFold(text, text))
  }

  // ----- numbers

  /** Two's-complement wrap-around. */
  function Wrap(half: Half, n: int): (w: int)
    ensures -(half as int) <= w < half
    ensures w == n <==> -(half as int) <= n < half
  {
    (n + half) % (2 * half) - half
  }

  lemma Shifted32(n: int, k: int)
    ensures (n - k * UINT32_LIMIT) % UINT32_LIMIT == n % UINT32_LIMIT
  {
    var q, r := n / UINT32_LIMIT, n % UINT32_LIMIT;
    assert n - k * UINT32_LIMIT == (q - k) * UINT32_LIMIT + r;
  }

  lemma Shifted64(n: int, k: int)
    ensures (n - k * UINT64_LIMIT) % UINT64_LIMIT == n % UINT64_LIMIT
  {
    var q, r := n / UINT64_LIMIT, n % UINT64_LIMIT;
    assert n - k * UINT64_LIMIT == (q - k) * UINT64_LIMIT + r;
  }

  lemma WrapAbsorbs(half: Half, n: int, d: int)
    ensures Wrap(half, 10 * Wrap(half, n) + d) == Wrap(half, 10 * n + d)
  {
    if half == 0x8000_0000 {
      Shifted32(10 * n + d + half, 10 * ((n + half) / UINT32_LIMIT));
    } else {
      Shifted64(10 * n + d + half, 10 * ((n + half) / UINT64_LIMIT));
    }
  }

  lemma StatusNext(half: Half, digits: seq<digit>, d: digit)
    ensures Wrap(half, Wrap(half, Number(digits)) * 10 + d) == Wrap(half, Number(digits + [d]))
  {
    WrapAbsorbs(half, Number(digits), d);
    NumberSnoc(digits, d);
  }

  function Itoa(n: int): Text {
    if n < 0 then [0x2D] + AsciiDigits(Digits(-n)) else AsciiDigits(Digits(n))
  }

  method ParseHttpStatus(half: Half, value: Text) returns (status: Option<int>)
    ensures status == if ReadDigits(value).1 == [] then Some(Wrap(half, Number(ReadDigits(value).0))) else None
  {
    var n := 0;
    ghost var digits: seq<digit> := [];
    for i := 0 to |value|
      invariant |digits| == i && value[..i] == AsciiDigits(digits)
      invariant n == Wrap(half, Number(digits))
    {
      if value[i] < 0x30 || value[i] > 0x39 {
        assert value == AsciiDigits(digits) + value[i..];
        DigitsReadBack(digits, value[i..]);
        return None;
      }
      var d: digit := value[i] - 0x30;
      StatusNext(half, digits, d);
      AsciiSnoc(digits, d);
      assert value[..i + 1] == value[..i] + [value[i]];
      n := Wrap(half, n * 10 + d);
      digits := digits + [d];
    }
    DigitsReadBack(digits, []);
    assert value == AsciiDigits(digits) + [];
    return Some(n);
  }

  // ----- the two formats

  /** Digits, a line feed and the body; None when the payload does not start with such a line. */
  function ReadStatusBody(half: Half, payload: Text): Option<Response> {
    var (digits, rest) := ReadDigits(payload);
    if digits == [] || rest == [] || rest[0] != LF then None
    else Some(Response(Wrap(half, Number(digits)), map[], rest[1..]))
  }

  lemma DigitsUpTo(payload: Text, n: nat) returns (digits: seq<digit>)
    requires n <= |payload| && (forall i | 0 <= i < n :: IsDigit(payload[i]))
        && (n < |payload| ==> !IsDigit(payload[n]))
    ensures |digits| == n && payload[..n] == AsciiDigits(digits) && ReadDigits(payload) == (digits, payload[n..])
  {
    digits := seq(n, i requires 0 <= i < n => payload[i] - 0x30);
    assert payload[..n] == AsciiDigits(digits);
    assert payload == AsciiDigits(digits) + payload[n..];
    DigitsReadBack(digits, payload[n..]);
  }

  /** The client's first decoder: a scan for the line feed, then the status. */
  method DecodeStatusBody(half: Half, payload: Text) returns (r: Option<Response>)
    ensures r == ReadStatusBody(half, payload)
  {
    var lineEnd := -1;
    for i := 0 to |payload|
      invariant lineEnd == -1
      invariant forall j | 0 <= j < i :: IsDigit(payload[j])
    {
      if payload[i] == LF {
        lineEnd := i;
        break;
      }
      if payload[i] < 0x30 || payload[i] > 0x39 {
        ghost var digits := DigitsUpTo(payload, i);
        return None;
      }
    }
    ghost var n := if lineEnd == -1 then |payload| else lineEnd;
    ghost var digits := DigitsUpTo(payload, n);
    if lineEnd <= 0 { return None; }
    DigitsReadBack(digits, []);
    assert payload[..lineEnd] == AsciiDigits(digits) + [];
    var status := ParseHttpStatus(half, payload[..lineEnd]);
    assert payload[lineEnd..][1..] == payload[lineEnd + 1..];
    return Some(Response(status.value, map[], payload[lineEnd + 1..]));
  }

  predicate UsesStatusBody(env: Env, codec: Codec, mode: Text) {
    codec.equalFold(env.trim(mode), StatusBody()) || env.trim(mode) == []
  }

  /** The host's encoding of a response. */
  function EncodeResponse(env: Env, codec: Codec, mode: Text, r: Response): Text {
    if UsesStatusBody(env, codec, mode) then Itoa(r.status) + [LF] + r.body else codec.marshal(r)
  }

  /** The client's decoding: the envelope is tried only on what the first decoder does not accept. */
  function DecodeResponse(codec: Codec, payload: Text): Option<Response> {
    if ReadStatusBody(codec.half, payload).Some? then ReadStatusBody(codec.half, payload) else codec.unmarshal(payload)
  }

  /** The status-and-body format keeps any body, whatever digits or line feeds it holds. It is accepted
      exactly when the status is not negative, and then keeps the status exactly when the client's integers
      hold it. */
  lemma StatusBodyReadsBack(half: Half, status: int, body: Text)
    ensures ReadStatusBody(half, Itoa(status) + [LF] + body)
         == if status >= 0 then Some(Response(Wrap(half, status), map[], body)) else None
    ensures ReadStatusBody(half, Itoa(status) + [LF] + body) == Some(Response(status, map[], body)) <==>
        0 <= status < half
  {
    if status >= 0 {
      ConcatIsAssociative(Itoa(status), [LF], body);
      DigitsReadBack(Digits(status), [LF] + body);
      NumberInvertsDigits(status);
      assert ([LF] + body)[1..] == body;
    }
  }

  lemma EnvelopeNotStatusBody(half: Half, payload: Text)
    requires payload != [] && payload[0] == OPEN
    ensures ReadStatusBody(half, payload).None?
  {
  }

  /** The client reads the response the host encoded, always in the format the host chose. */
  lemma ResponseReadsBack(env: Env, codec: Codec, mode: Text, r: Response)
    requires Envelope(codec)
    ensures UsesStatusBody(env, codec, mode) ==>
      DecodeResponse(codec, EncodeResponse(env, codec, mode, r))
      == if r.status >= 0 then Some(Response(Wrap(codec.half, r.status), map[], r.body)) else None
    ensures !UsesStatusBody(env, codec, mode) && ValidHeaders(r.headers) ==>
      DecodeResponse(codec, EncodeResponse(env, codec, mode, r)) == Some(r)
  {
    StatusBodyReadsBack(codec.half, r.status, r.body);
    EnvelopeNotStatusBody(codec.half, codec.marshal(r));
  }

  /** A negative status is never read back. */
  lemma NegativeStatusExample(codec: Codec, body: Text)
    requires Envelope(codec)
    ensures DecodeResponse(codec, Itoa(-1) + [LF] + body).None?
  {
    StatusBodyReadsBack(codec.half, -1, body);
    StartsWithMinus(Itoa(-1) + [LF] + body, codec);
  }

  lemma StartsWithMinus(text: Text, codec: Codec)
    requires Envelope(codec) && text != [] && text[0] == 0x2D
    ensures codec.unmarshal(text).None?
  {
  }

  /** A status too large for the client's integers is read as another. */
  lemma WideStatusExample(half: Half, body: Text)
    ensures ReadStatusBody(half, Itoa(2 * half) + [LF] + body) == Some(Response(0, map[], body))
  {
    StatusBodyReadsBack(half, 2 * half, body);
    WrapsToZero(half);
  }

  lemma WrapsToZero(half: Half)
    ensures Wrap(half, 2 * half) == 0
  {
    assert half == 0x8000_0000 ==> Wrap(half, 0x1_0000_0000) == 0;
  }

  // ----- one exchange

  datatype Failure = Host(code: int) | Undecodable

  const HOST_INVALID := -1
  const HOST_DENIED := -2
  const HOST_TOO_LARGE := -3
  const HOST_INTERNAL := -5
  const HOST_TIMEOUT := -6

  /** What a handler comes to. */
  datatype Handled = Answered(response: Response) | Failed | TimedOut

  /** The host's part: credential grants may rewrite or deny a request before the handler sees it. */
  datatype LocalHost = LocalHost(authorize: Request -> Option<Request>, handler: Request -> Handled)

  /** What the host answers to a request it has decoded. */
  function Serve(env: Env, codec: Codec, host: LocalHost, request: Request, limit: nat): Result<Text, int> {
    match host.authorize(request)
    case None => Err(HOST_DENIED)
    case Some(authorized) =>
      match host.handler(authorized)
      case TimedOut => Err(HOST_TIMEOUT)
      case Failed => Err(HOST_INTERNAL)
      case Answered(response) =>
        var reply := EncodeResponse(env, codec, request.mode, response);
        if |reply| > limit then Err(HOST_TOO_LARGE) else Ok(reply)
  }

  function HostReply(env: Env, codec: Codec, host: LocalHost, encoded: Text, limit: nat): Result<Text, int> {
    match DecodeRequest(env, encoded)
    case Err(_) => Err(HOST_INVALID)
    case Ok(request) => Serve(env, codec, host, request, limit)
  }

  /** What the client makes of the host's reply. */
  function Received(codec: Codec, reply: Result<Text, int>): Result<Response, Failure> {
    match reply
    case Err(code) => Err(Host(code))
    case Ok(text) => if DecodeResponse(codec, text).Some? then Ok(DecodeResponse(codec, text).value)
        else Err(Undecodable)
  }

  /** The outcome of a call, were its headers written in this order. */
  function OutcomeFor(env: Env, codec: Codec, r: Request, host: LocalHost, limit: nat,
      order: seq<Pair>): Result<Response, Failure> {
    if env.trim(Utf8.Repair(r.url)) == [] then Err(Host(HOST_INVALID))
    else Received(codec, Serve(env, codec, host, Seen(env, r, order), limit))
  }

  ghost predicate IsOutcome(env: Env, codec: Codec, r: Request, host: LocalHost, limit: nat,
      response: Result<Response, Failure>) {
    exists order {:trigger Orders(order, r.headers)} ::
      Orders(order, r.headers) && response == OutcomeFor(env, codec, r, host, limit, order)
  }

  /** The client's call. Its outcome is what the host answers to the request as it arrives; for a deliverable
      request that is its canonical form, whatever order the headers were written in. */
  method Do(env: Env, codec: Codec, r: Request, host: LocalHost, limit: nat)
      returns (response: Result<Response, Failure>)
    requires Base64(env)
    ensures IsOutcome(env, codec, r, host, limit, response)
    ensures Deliverable(env, r) ==> response == Received(codec, Serve(env, codec, host, Canonical(env, r), limit))
  {
    var encoded := MarshalRequest(Outgoing(env, r));
    ghost var order :| Orders(order, r.headers) && encoded == Encoding(Outgoing(env, r), order);
    HandlerSees(env, r, order);
    if Deliverable(env, r) { DeliverableIsKept(env, r, order); }
    var result := HostReply(env, codec, host, encoded, limit);
    assert Received(codec, result) == OutcomeFor(env, codec, r, host, limit, order);
    if result.Err? { return Err(Host(result.error)); }
    var answer := DecodeStatusBody(codec.half, result.value);
    if answer.Some? { return Ok(answer.value); }
    answer := codec.unmarshal(result.value);
    if answer.None? { return Err(Undecodable); }
    return Ok(answer.value);
  }

  /** A response that fits the client's buffer and integers comes back: its status and body in the default
      mode, all of it in any other. */
  lemma ClientSeesHandlerResponse(env: Env, codec: Codec, host: LocalHost, request: Request, limit: nat)
    requires Envelope(codec) && Serve(env, codec, host, request, limit).Ok?
    requires ValidHeaders(host.handler(host.authorize(request).value).response.headers)
    ensures var answer, seen := host.handler(host.authorize(request).value).response,
                Received(codec, Serve(env, codec, host, request, limit));
      if UsesStatusBody(env, codec, request.mode) then seen == Ok(answer.(headers := map[])) <==>
          0 <= answer.status < codec.half
      else seen == Ok(answer)
  {
    ResponseReadsBack(env, codec, request.mode, host.handler(host.authorize(request).value).response);
  }
}
