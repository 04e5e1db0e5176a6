/** What the local host decodes from an encoded request. */
module HttpRoundTrip {
  import opened Bytes
  import opened Results
  import opened JsonObjects
  import opened HttpRequests
  import Utf8

  const NOTHING := Payload([], [], map[], [], [], [], 0, false)

  function FieldNamed(name: Text): Option<Field> {
    if name == Ascii(NameOf(Method)) then Some(Method)
    else if name == Ascii(NameOf(Url)) then Some(Url)
    else if name == Ascii(NameOf(Headers)) then Some(Headers)
    else if name == Ascii(NameOf(Body)) then Some(Body)
    else if name == Ascii(NameOf(BodyBase64)) then Some(BodyBase64)
    else if name == Ascii(NameOf(ResponseMode)) then Some(ResponseMode)
    else if name == Ascii(NameOf(TimeoutMs)) then Some(TimeoutMs)
    else if name == Ascii(NameOf(InsecureSkipVerify)) then Some(InsecureSkipVerify)
    else None
  }

  /** A value stored into a field; one of the wrong type fails. */
  function Stored(p: Payload, field: Field, v: Value): Option<Payload> {
    match (field, v)
    case (Method, Str(text)) => Some(p.(verb := text))
    case (Url, Str(text)) => Some(p.(url := text))
    case (Headers, Pairs(pairs)) => Some(p.(headers := p.headers + ToMap(pairs)))
    case (Body, Str(text)) => Some(p.(body := text))
    case (BodyBase64, Str(text)) => Some(p.(body64 := text))
    case (ResponseMode, Str(text)) => Some(p.(mode := text))
    case (TimeoutMs, Num(n)) => Some(p.(timeout := n))
    case (InsecureSkipVerify, True) => Some(p.(insecure := true))
    case _ => None
  }

  /** One member stored into the payload; unknown names are ignored. */
  function WithMember(p: Payload, m: Member): Option<Payload> {
    match FieldNamed(m.0)
    case None => Some(p)
    case Some(field) => Stored(p, field, m.1)
  }

  function PayloadOf(members: seq<Member>): Option<Payload> {
    if members == [] then Some(NOTHING)
    else
      match PayloadOf(members[..|members| - 1])
      case None => None
      case Some(p) => WithMember(p, members[|members| - 1])
  }

  function ReadPayload(encoded: Text): Option<Payload> {
    match ReadObject(encoded)
    case None => None
    case Some(members) => PayloadOf(members)
  }

  /** The host's decoder of a request. */
  function DecodeRequest(env: Env, encoded: Text): Result<Request, RequestError> {
    match ReadPayload(encoded)
    case None => Err(Malformed)
    case Some(p) =>
      if env.trim(p.url) == [] || (p.body != [] && p.body64 != []) then Err(Refused)
      else if p.body64 == [] then Ok(Request(p.verb, p.url, p.headers, p.body, false, p.mode, p.timeout, p.insecure))
      else
        match env.decode(p.body64)
        case None => Err(BadBase64)
        case Some(body) => Ok(Request(p.verb, p.url, p.headers, body, true, p.mode, p.timeout, p.insecure))
  }

  // ----- the payload read back

  /** All that decoding changes: a timeout that is not positive reads as none. */
  function Normal(p: Payload): Payload {
    p.(timeout := Timeout(p))
  }

  predicate ValidHeaders(headers: map<Text, Text>) {
    forall key <- headers :: Utf8.Valid(key) && Utf8.Valid(headers[key])
  }

  predicate ValidPayload(p: Payload) {
    Utf8.Valid(p.verb) && Utf8.Valid(p.url) && ValidHeaders(p.headers) && Utf8.Valid(p.body) && Utf8.Valid(p.body64)
        && Utf8.Valid(p.mode)
  }

  lemma NamesDiffer(a: Field, b: Field)
    requires a != b
    ensures Ascii(NameOf(a)) != Ascii(NameOf(b))
  {
    assert |NameOf(a)| != |NameOf(b)|;
  }

  lemma NamesAreUtf8(field: Field)
    ensures Utf8.Valid(Ascii(NameOf(field)))
  {
    Utf8.AsciiIsValid(Ascii(NameOf(field)));
  }

  lemma FieldsAreNamed(field: Field)
    ensures FieldNamed(Ascii(NameOf(field))) == Some(field)
  {
    forall other | other != field ensures Ascii(NameOf(field)) != Ascii(NameOf(other)) { NamesDiffer(field, other); }
  }

  /** The entries stored one after the other. */
  function StoreAll(entries: seq<Entry>): Option<Payload> {
    if entries == [] then Some(NOTHING)
    else
      var last := entries[|entries| - 1];
      match StoreAll(entries[..|entries| - 1])
      case None => None
      case Some(p) => if last.present then Stored(p, last.field, last.value) else Some(p)
  }

  lemma {:induction false} CollectedIsStored(entries: seq<Entry>)
    ensures PayloadOf(Collect(entries)) == StoreAll(entries)
  {
    if entries != [] {
      var init, last := entries[..|entries| - 1], entries[|entries| - 1];
      CollectedIsStored(init);
      if last.present {
        FieldsAreNamed(last.field);
        var m := Named(last.field, last.value);
        assert (Collect(init) + [m])[..|Collect(init)|] == Collect(init);
      } else {
        assert Collect(init) + [] == Collect(init);
      }
    }
  }

  lemma StoreNext(entries: seq<Entry>, k: nat, p: Payload, q: Payload)
    requires k < |entries| && StoreAll(entries[..k]) == Some(p)
    requires if entries[k].present then Stored(p, entries[k].field, entries[k].value) == Some(q) else q == p
    ensures StoreAll(entries[..k + 1]) == Some(q)
  {
    assert entries[..k + 1][..k] == entries[..k];
  }

  lemma HeadIsStored(entries: seq<Entry>, p: Payload, order: seq<Pair>)
    requires entries == Entries(p, order) && ToMap(order) == p.headers
    ensures StoreAll(entries[..3]) == Some(NOTHING.(verb := p.verb, url := p.url, headers := p.headers))
  {
    var p1 := NOTHING.(verb := p.verb);
    var p2 := p1.(url := p.url);
    assert map[] + p.headers == p.headers;
    StoreNext(entries, 0, NOTHING, p1);
    StoreNext(entries, 1, p1, p2);
    StoreNext(entries, 2, p2, p2.(headers := p.headers));
  }

  lemma TextsAreStored(entries: seq<Entry>, start: Payload, p: Payload, order: seq<Pair>)
    requires entries == Entries(p, order) && StoreAll(entries[..3]) == Some(start)
    requires start.body == start.body64 == start.mode == []
    ensures StoreAll(entries[..6]) == Some(start.(body := p.body, body64 := p.body64, mode := p.mode))
  {
    var p1 := start.(body := p.body);
    var p2 := p1.(body64 := p.body64);
    StoreNext(entries, 3, start, p1);
    StoreNext(entries, 4, p1, p2);
    StoreNext(entries, 5, p2, p2.(mode := p.mode));
  }

  lemma PlainIsStored(entries: seq<Entry>, start: Payload, p: Payload, order: seq<Pair>)
    requires entries == Entries(p, order) && StoreAll(entries[..6]) == Some(start)
    requires start.timeout == 0 && !start.insecure
    ensures StoreAll(entries[..8]) == Some(start.(timeout := Timeout(p), insecure := p.insecure))
  {
    var p1 := start.(timeout := Timeout(p));
    StoreNext(entries, 6, start, p1);
    StoreNext(entries, 7, p1, p1.(insecure := p.insecure));
  }

  lemma MembersMeanPayload(p: Payload, order: seq<Pair>)
    requires ToMap(order) == p.headers
    ensures PayloadOf(Members(p, order)) == Some(Normal(p))
  {
    var entries, head := Entries(p, order), NOTHING.(verb := p.verb, url := p.url, headers := p.headers);
    HeadIsStored(entries, p, order);
    TextsAreStored(entries, head, p, order);
    PlainIsStored(entries, head.(body := p.body, body64 := p.body64, mode := p.mode), p, order);
    assert entries[..8] == entries;
    CollectedIsStored(entries);
  }

  // ----- UTF-8 on both sides

  lemma {:induction false} OrderedPairs(order: seq<Pair>)
    ensures |ToMap(order)| <= |order|
    ensures |ToMap(order)| == |order| ==>
        forall i | 0 <= i < |order| :: order[i].0 in ToMap(order) && ToMap(order)[order[i].0] == order[i].1
  {
    if order != [] {
      var init, last := order[..|order| - 1], order[|order| - 1];
      OrderedPairs(init);
      if last.0 in ToMap(init) {
        assert ToMap(order).Keys == ToMap(init).Keys;
        assert |ToMap(order)| == |ToMap(init)|;
      } else {
        assert ToMap(order).Keys == ToMap(init).Keys + {last.0};
        assert |ToMap(order)| == |ToMap(init)| + 1;
        forall i | 0 <= i < |init| && |ToMap(init)| == |init|
            ensures order[i].0 in ToMap(order) && ToMap(order)[order[i].0] == order[i].1 {
          assert init[i] == order[i];
        }
      }
    }
  }

  predicate ValidMembers(members: seq<Member>) {
    forall i | 0 <= i < |members| :: ValidMember(members[i])
  }

  lemma {:induction false} ToMapIsUtf8(pairs: seq<Pair>)
    requires ValidValue(Pairs(pairs))
    ensures ValidHeaders(ToMap(pairs))
  {
    if pairs != [] { ToMapIsUtf8(pairs[..|pairs| - 1]); }
  }

  lemma HeadersStoredAreUtf8(p: Payload, pairs: seq<Pair>)
    requires ValidPayload(p) && ValidValue(Pairs(pairs))
    ensures ValidPayload(p.(headers := p.headers + ToMap(pairs)))
  {
    ToMapIsUtf8(pairs);
  }

  lemma StoredIsUtf8(p: Payload, field: Field, v: Value)
    requires ValidPayload(p) && ValidValue(v) && Stored(p, field, v).Some?
    ensures ValidPayload(Stored(p, field, v).value)
  {
    match field
    case Headers => HeadersStoredAreUtf8(p, v.pairs);
    case _ =>
  }

  lemma {:induction false} PayloadIsUtf8(members: seq<Member>)
    requires ValidMembers(members) && PayloadOf(members).Some?
    ensures ValidPayload(PayloadOf(members).value)
  {
    if members != [] {
      var init := members[..|members| - 1];
      PayloadIsUtf8(init);
      var last := members[|members| - 1];
      if FieldNamed(last.0).Some? { StoredIsUtf8(PayloadOf(init).value, FieldNamed(last.0).value, last.1); }
    }
  }

  lemma ReadPayloadIsUtf8(encoded: Text)
    requires ReadPayload(encoded).Some?
    ensures ValidPayload(ReadPayload(encoded).value)
  {
    ObjectIsUtf8(encoded);
    PayloadIsUtf8(ReadObject(encoded).value);
  }

  // ----- what arrives of any payload

  /** The payload with every text repaired; headers whose names become equal are merged in the given order. */
  function RepairedPayload(p: Payload, order: seq<Pair>): Payload {
    Payload(Utf8.Repair(p.verb), Utf8.Repair(p.url), ToMap(RepairedPairs(order)),
            Utf8.Repair(p.body), Utf8.Repair(p.body64), Utf8.Repair(p.mode), p.timeout, p.insecure)
  }

  lemma RepairedIsEmpty(text: Text)
    ensures Utf8.Repair(text) == [] <==> text == []
  {
  }

  lemma NameIsKept(field: Field)
    ensures Utf8.Repair(Ascii(NameOf(field))) == Ascii(NameOf(field))
  {
    NamesAreUtf8(field);
    Utf8.RepairKeepsIffValid(Ascii(NameOf(field)));
  }

  lemma RepairedOptional(members: seq<Member>, present: bool, field: Field, v: Value)
    ensures RepairedMembers(members + Optional(present, Named(field, v)))
         == RepairedMembers(members) + Optional(present, Named(field, RepairedValue(v)))
  {
    NameIsKept(field);
    var whole := RepairedMembers(members + Optional(present, Named(field, v)));
    var parts := RepairedMembers(members) + Optional(present, Named(field, RepairedValue(v)));
    assert |whole| == |parts|;
    forall i | 0 <= i < |whole| ensures whole[i] == parts[i] {
      if i < |members| { assert (members + Optional(present, Named(field, v)))[i] == members[i]; }
    }
  }

  predicate AreRepaired(entries: seq<Entry>, images: seq<Entry>) {
    && |images| == |entries|
    && forall i | 0 <= i < |entries| :: images[i] == RepairedEntry(entries[i])
  }

  lemma {:induction false} RepairedCollect(entries: seq<Entry>, images: seq<Entry>)
    requires AreRepaired(entries, images)
    ensures RepairedMembers(Collect(entries)) == Collect(images)
    decreases |entries|
  {
    if entries != [] {
      var n := |entries| - 1;
      RepairedCollect(entries[..n], images[..n]);
      RepairedOptional(Collect(entries[..n]), entries[n].present, entries[n].field, entries[n].value);
    }
  }

  lemma EmptyMap(order: seq<Pair>)
    ensures |ToMap(order)| > 0 <==> order != []
  {
    if order != [] { assert order[|order| - 1].0 in ToMap(order); }
  }

  function RepairedEntry(e: Entry): Entry {
    e.(value := RepairedValue(e.value))
  }

  lemma EightRepaired(a: seq<Entry>, b: seq<Entry>)
    requires |a| == |b| == 8
    requires b[0] == RepairedEntry(a[0]) && b[1] == RepairedEntry(a[1]) && b[2] == RepairedEntry(a[2])
    requires b[3] == RepairedEntry(a[3]) && b[4] == RepairedEntry(a[4]) && b[5] == RepairedEntry(a[5])
    requires b[6] == RepairedEntry(a[6]) && b[7] == RepairedEntry(a[7])
    ensures AreRepaired(a, b)
  {
  }

  lemma TextRepaired(field: Field, text: Text)
    ensures Entry(Utf8.Repair(text) != [], field, Str(Utf8.Repair(text)))
         == RepairedEntry(Entry(text != [], field, Str(text)))
  {
    RepairedIsEmpty(text);
  }

  lemma RepairedEntries(p: Payload, order: seq<Pair>)
    requires ToMap(order) == p.headers
    ensures AreRepaired(Entries(p, order), Entries(RepairedPayload(p, order), RepairedPairs(order)))
  {
    EmptyMap(order);
    EmptyMap(RepairedPairs(order));
    TextRepaired(Body, p.body);
    TextRepaired(BodyBase64, p.body64);
    TextRepaired(ResponseMode, p.mode);
    EightRepaired(Entries(p, order), Entries(RepairedPayload(p, order), RepairedPairs(order)));
  }

  /** Every payload, whatever bytes it holds, arrives repaired. */
  lemma PayloadReadsBack(p: Payload, order: seq<Pair>)
    requires Orders(order, p.headers)
    ensures ReadPayload(Encoding(p, order)) == Some(Normal(RepairedPayload(p, order)))
  {
    var q, order' := RepairedPayload(p, order), RepairedPairs(order);
    ObjectReadsBack(Members(p, order));
    RepairedEntries(p, order);
    RepairedCollect(Entries(p, order), Entries(q, order'));
    MembersMeanPayload(q, order');
  }

  lemma ValidPayloadIsKept(p: Payload, order: seq<Pair>)
    requires Orders(order, p.headers) && ValidPayload(p)
    ensures RepairedPayload(p, order) == p
  {
    OrderedPairs(order);
    forall i | 0 <= i < |order| ensures RepairedPairs(order)[i] == order[i] {
      Utf8.RepairKeepsIffValid(order[i].0);
      Utf8.RepairKeepsIffValid(order[i].1);
    }
    assert RepairedPairs(order) == order;
    Utf8.RepairKeepsIffValid(p.verb);
    Utf8.RepairKeepsIffValid(p.url);
    Utf8.RepairKeepsIffValid(p.body);
    Utf8.RepairKeepsIffValid(p.body64);
    Utf8.RepairKeepsIffValid(p.mode);
  }

  /** Whatever order the headers are written in, the payload reads back exactly when its texts are UTF-8. */
  lemma PayloadReadsBackIffUtf8(p: Payload, order: seq<Pair>)
    requires Orders(order, p.headers)
    ensures ReadPayload(Encoding(p, order)) == Some(Normal(p)) <==> ValidPayload(p)
  {
    PayloadReadsBack(p, order);
    if ValidPayload(p) { ValidPayloadIsKept(p, order); }
    ReadPayloadIsUtf8(Encoding(p, order));
  }

  /** Of any payload, what arrives is accepted exactly when it has a URL, at most one body, and a body that is
      base64 where it should be, and then it is the request the repaired payload describes. */
  lemma DecodedIffAcceptable(env: Env, p: Payload, order: seq<Pair>)
    requires Orders(order, p.headers)
    ensures var q, decoded := RepairedPayload(p, order), DecodeRequest(env, Encoding(p, order));
      && (decoded.Ok? <==>
            env.trim(q.url) != [] && (p.body == [] || p.body64 == [])
                && (p.body64 != [] ==> env.decode(q.body64).Some?))
      && (decoded.Ok? ==>
            decoded.value == Request(q.verb, q.url, q.headers, if p.body64 == [] then q.body
                else env.decode(q.body64).value,
                                     p.body64 != [], q.mode, Timeout(p), p.insecure))
  {
    PayloadReadsBack(p, order);
    RepairedIsEmpty(p.body);
    RepairedIsEmpty(p.body64);
  }

  // ----- the client's request

  function Get(): Text {
    [0x47, 0x45, 0x54]
  }

  function StatusBody(): Text {
    Ascii("status_body")
  }

  function OrElse(text: Text, fallback: Text): Text {
    if text == [] then fallback else text
  }

  /** The payload the client builds from a request. */
  function Outgoing(env: Env, r: Request): Payload {
    Payload(OrElse(env.upper(env.trim(r.verb)), Get()), r.url, r.headers,
            if r.base64 then [] else r.body, if r.base64 && r.body != [] then env.encode(r.body) else [],
            OrElse(env.trim(r.mode), StatusBody()), r.timeout, r.insecure)
  }

  /** The request as the host's handler should see it. */
  function Canonical(env: Env, r: Request): Request {
    Request(OrElse(env.upper(env.trim(r.verb)), Get()), r.url, r.headers, r.body, r.base64 && r.body != [],
            OrElse(env.trim(r.mode), StatusBody()), if r.timeout > 0 then r.timeout else 0, r.insecure)
  }

  /** A URL is present and every text of the request is UTF-8; base64 bodies may hold any bytes. */
  predicate Deliverable(env: Env, r: Request) {
    && env.trim(r.url) != []
    && Utf8.Valid(Canonical(env, r).verb) && Utf8.Valid(r.url) && ValidHeaders(r.headers)
    && Utf8.Valid(Canonical(env, r).mode)
    && (r.base64 || Utf8.Valid(r.body))
  }

  /** The request as it arrives: canonical, with its texts repaired. */
  function Seen(env: Env, r: Request, order: seq<Pair>): Request {
    var c := Canonical(env, r);
    Request(Utf8.Repair(c.verb), Utf8.Repair(c.url), ToMap(RepairedPairs(order)),
            if r.base64 then c.body else Utf8.Repair(c.body), c.base64, Utf8.Repair(c.mode), c.timeout, c.insecure)
  }

  /** What the host makes of any request: it is refused if no URL is left, and otherwise arrives repaired. */
  lemma HandlerSees(env: Env, r: Request, order: seq<Pair>)
    requires Base64(env) && Orders(order, r.headers)
    ensures DecodeRequest(env, Encoding(Outgoing(env, r), order))
         == if env.trim(Utf8.Repair(r.url)) == [] then Err(Refused) else Ok(Seen(env, r, order))
  {
    var p := Outgoing(env, r);
    PayloadReadsBack(p, order);
    RepairedIsEmpty(p.body);
    RepairedIsEmpty(p.body64);
    EncodedIsKept(env, r.body);
  }

  lemma EncodedIsKept(env: Env, body: Text)
    requires Base64(env)
    ensures Utf8.Repair(env.encode(body)) == env.encode(body) && env.decode(env.encode(body)) == Some(body)
    ensures Utf8.Repair([]) == []
  {
    Utf8.AsciiIsValid(env.encode(body));
    Utf8.RepairKeepsIffValid(env.encode(body));
  }

  /** The handler sees exactly the client's request, in canonical form, if and only if it is deliverable. */
  lemma HandlerSeesRequestIffDeliverable(env: Env, r: Request, order: seq<Pair>)
    requires Base64(env) && Orders(order, r.headers)
    ensures DecodeRequest(env, Encoding(Outgoing(env, r), order)) == Ok(Canonical(env, r)) <==> Deliverable(env, r)
  {
    HandlerSees(env, r, order);
    if Deliverable(env, r) {
      DeliverableIsKept(env, r, order);
    } else if Seen(env, r, order) == Canonical(env, r) {
      SeenIsUtf8(env, r, order);
    }
  }

  lemma DeliverableIsKept(env: Env, r: Request, order: seq<Pair>)
    requires Orders(order, r.headers) && Deliverable(env, r)
    ensures Seen(env, r, order) == Canonical(env, r) && Utf8.Repair(r.url) == r.url
  {
    var c := Canonical(env, r);
    ValidPayloadIsKept(Payload(c.verb, c.url, r.headers, if r.base64 then [] else r.body, [], c.mode, 0, false), order);
  }

  lemma SeenIsUtf8(env: Env, r: Request, order: seq<Pair>)
    ensures var seen := Seen(env, r, order);
      && Utf8.Valid(seen.verb) && Utf8.Valid(seen.url) && ValidHeaders(seen.headers) && Utf8.Valid(seen.mode)
      && (r.base64 || Utf8.Valid(seen.body))
  {
    var c := Canonical(env, r);
    Utf8.RepairIsValid(c.verb);
    Utf8.RepairIsValid(c.url);
    Utf8.RepairIsValid(c.mode);
    Utf8.RepairIsValid(c.body);
    forall i | 0 <= i < |order| ensures ValidPair(RepairedPairs(order)[i]) {
      Utf8.RepairIsValid(order[i].0);
      Utf8.RepairIsValid(order[i].1);
    }
    ToMapIsUtf8(RepairedPairs(order));
  }

  /** The one-byte text body FF arrives as the three bytes of U+FFFD. */
  lemma ByteBodyExample(env: Env, r: Request, order: seq<Pair>)
    requires Base64(env) && Orders(order, r.headers) && env.trim(Utf8.Repair(r.url)) != [] && !r.base64
        && r.body == [0xFF]
    ensures DecodeRequest(env, Encoding(Outgoing(env, r), order)).Ok?
    ensures DecodeRequest(env, Encoding(Outgoing(env, r), order)).value.body == [0xEF, 0xBF, 0xBD]
  {
    HandlerSees(env, r, order);
    assert Utf8.Repair([0xFF]) == Utf8.Replacement() + Utf8.Repair([]);
  }
}
