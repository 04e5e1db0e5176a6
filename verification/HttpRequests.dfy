/** The HTTP request payload: the client's hand-written JSON encoder and the local host's decoder. */
module HttpRequests {
  import opened Bytes
  import opened Results
  import opened Decimal
  import opened JsonText
  import opened JsonObjects

  datatype Payload = Payload(verb: Text, url: Text, headers: map<Text, Text>, body: Text, body64: Text, mode: Text,
      timeout: int, insecure: bool)

  datatype Request = Request(verb: Text, url: Text, headers: map<Text, Text>, body: Text, base64: bool, mode: Text,
      timeout: int, insecure: bool)

  /** Library calls the codec makes. */
  datatype Env = Env(trim: Text -> Text, upper: Text -> Text, encode: Text -> Text, decode: Text -> Option<Text>)

  datatype RequestError = Malformed | Refused | BadBase64

  /** Base64 is ASCII, inverted by its decoder, and empty only for the empty body. */
  ghost predicate Base64(env: Env) {
    forall body: Text ::
      env.decode(env.encode(body)) == Some(body) && (env.encode(body) == [] <==> body == [])
          && IsAscii(env.encode(body))
  }

  predicate IsAscii(text: Text) {
    forall i | 0 <= i < |text| :: text[i] < 0x80
  }

  datatype Field = Method | Url | Headers | Body | BodyBase64 | ResponseMode | TimeoutMs | InsecureSkipVerify

  /** The member names, the same for the encoder and the decoder. */
  function NameOf(field: Field): (name: string)
    ensures PlainName(name)
  {
    match field
    case Method => "method"
    case Url => "url"
    case Headers => "headers"
    case Body => "body"
    case _ => LongNameOf(field)
  }

  function LongNameOf(field: Field): (name: string)
    requires field.BodyBase64? || field.ResponseMode? || field.TimeoutMs? || field.InsecureSkipVerify?
    ensures PlainName(name)
  {
    match field
    case BodyBase64 => "body_base64"
    case ResponseMode => "response_mode"
    case TimeoutMs => "timeout_ms"
    case InsecureSkipVerify => "insecure_skip_verify"
  }

  predicate PlainName(name: string) {
    forall i | 0 <= i < |name| :: 'a' <= name[i] <= 'z' || name[i] == '_' || '0' <= name[i] <= '9'
  }

  // ----- what the encoder writes

  function ToMap(pairs: seq<Pair>): map<Text, Text> {
    if pairs == [] then map[] else ToMap(pairs[..|pairs| - 1])[pairs[|pairs| - 1].0 := pairs[|pairs| - 1].1]
  }

  /** The pairs list every entry of the map once, in some order. */
  predicate Orders(order: seq<Pair>, headers: map<Text, Text>) {
    ToMap(order) == headers && |order| == |headers|
  }

  function Optional(present: bool, m: Member): seq<Member> {
    if present then [m] else []
  }

  function Named(field: Field, value: Value): Member {
    (Ascii(NameOf(field)), value)
  }

  function Timeout(p: Payload): nat {
    if p.timeout > 0 then p.timeout else 0
  }

  /** One member of the payload, present or left out. */
  datatype Entry = Entry(present: bool, field: Field, value: Value)

  /** The payload's members in the order they are written. */
  function Entries(p: Payload, order: seq<Pair>): seq<Entry> {
    [Entry(true, Method, Str(p.verb)),
     Entry(true, Url, Str(p.url)),
     Entry(|p.headers| > 0, Headers, Pairs(order)),
     Entry(p.body != [], Body, Str(p.body)),
     Entry(p.body64 != [], BodyBase64, Str(p.body64)),
     Entry(p.mode != [], ResponseMode, Str(p.mode)),
     Entry(p.timeout > 0, TimeoutMs, Num(Timeout(p))),
     Entry(p.insecure, InsecureSkipVerify, True)]
  }

  /** The members that are present. */
  function Collect(entries: seq<Entry>): seq<Member> {
    if entries == [] then []
    else
      var last := entries[|entries| - 1];
      Collect(entries[..|entries| - 1]) + Optional(last.present, Named(last.field, last.value))
  }

  function Members(p: Payload, order: seq<Pair>): seq<Member> {
    Collect(Entries(p, order))
  }

  function Encoding(p: Payload, order: seq<Pair>): Text {
    RenderObject(Members(p, order))
  }

  /** A member's name in quotes and its colon. */
  function Label(field: Field): Text {
    [QUOTE] + Ascii(NameOf(field)) + [QUOTE, COLON]
  }

  lemma {:induction false} PlainEscaped(text: Text)
    requires forall i | 0 <= i < |text| :: 0x20 <= text[i] < 0x80 && text[i] != QUOTE && text[i] != BACKSLASH
    ensures Escaped(text) == text
  {
    if text != [] {
      PlainEscaped(text[1..]);
      assert text == [text[0]] + text[1..];
    }
  }

  lemma LabelIsQuoted(field: Field)
    ensures Label(field) == Quoted(Ascii(NameOf(field))) + [COLON]
  {
    PlainEscaped(Ascii(NameOf(field)));
    assert [QUOTE, COLON] == [QUOTE] + [COLON];
  }

  function Opened(members: seq<Member>): Text {
    [OPEN] + Listed(RenderMember, members)
  }

  lemma OpenedSnoc(members: seq<Member>, m: Member)
    requires members != []
    ensures Opened(members + [m]) == Opened(members) + [COMMA] + RenderMember(m)
  {
    ListedSnoc(RenderMember, members, m);
    ConcatIsAssociative([OPEN], Listed(RenderMember, members), [COMMA]);
    ConcatIsAssociative([OPEN], Listed(RenderMember, members) + [COMMA], RenderMember(m));
  }

  /** One string member after the first. */
  method WriteText(out: Text, field: Field, value: Text, ghost members: seq<Member>) returns (r: Text)
    requires members != [] && out == Opened(members)
    ensures r == Opened(members + [Named(field, Str(value))])
  {
    r := out + [COMMA] + Label(field);
    r := WriteString(r, value);
    LabelIsQuoted(field);
    ConcatIsAssociative(out + [COMMA], Label(field), Quoted(value));
    OpenedSnoc(members, Named(field, Str(value)));
  }

  /** What is written so far: the first `k` members, at least one of them present. */
  ghost predicate Written(out: Text, entries: seq<Entry>, k: nat) {
    k <= |entries| && Collect(entries[..k]) != [] && out == Opened(Collect(entries[..k]))
  }

  lemma CollectNext(entries: seq<Entry>, k: nat)
    requires k < |entries|
    ensures Collect(entries[..k + 1])
         == Collect(entries[..k]) + Optional(entries[k].present, Named(entries[k].field, entries[k].value))
  {
    assert entries[..k + 1][..k] == entries[..k];
  }

  lemma CollectAbsent(entries: seq<Entry>, k: nat)
    requires k < |entries| && !entries[k].present
    ensures Collect(entries[..k + 1]) == Collect(entries[..k])
  {
    CollectNext(entries, k);
    assert Collect(entries[..k]) + [] == Collect(entries[..k]);
  }

  method WriteOptionalText(out: Text, field: Field, value: Text, ghost entries: seq<Entry>, ghost k: nat)
      returns (r: Text)
    requires Written(out, entries, k) && k < |entries| && entries[k] == Entry(value != [], field, Str(value))
    ensures Written(r, entries, k + 1)
  {
    r := out;
    if value != [] {
      CollectNext(entries, k);
      r := WriteText(r, field, value, Collect(entries[..k]));
    } else {
      CollectAbsent(entries, k);
    }
  }

  lemma ToMapSnoc(pairs: seq<Pair>, pair: Pair)
    ensures ToMap(pairs + [pair]) == ToMap(pairs)[pair.0 := pair.1]
  {
    assert (pairs + [pair])[..|pairs|] == pairs;
  }

  /** The loop over the header map: each round takes an arbitrary remaining key. */
  method WriteHeaders(out: Text, headers: map<Text, Text>) returns (r: Text, ghost order: seq<Pair>)
    ensures Orders(order, headers)
    ensures r == out + Listed(RenderPair, order)
  {
    r, order := out, [];
    var remaining := headers.Keys;
    var i := 0;
    assert out + [] == out;
    while remaining != {}
      invariant remaining <= headers.Keys
      invariant i == |order| == |headers| - |remaining|
      invariant ToMap(order) == headers - remaining
      invariant r == out + Listed(RenderPair, order)
    {
      var key :| key in remaining;
      r := WriteHeader(r, i, key, headers[key], out, order);
      NextHeader(headers, order, remaining, key);
      order := order + [(key, headers[key])];
      remaining := remaining - {key};
      i := i + 1;
    }
  }

  lemma NextHeader(headers: map<Text, Text>, order: seq<Pair>, remaining: set<Text>, key: Text)
    requires key in remaining && remaining <= headers.Keys && ToMap(order) == headers - remaining
    ensures ToMap(order + [(key, headers[key])]) == headers - (remaining - {key})
  {
    ToMapSnoc(order, (key, headers[key]));
  }

  method WriteHeader(out: Text, i: nat, key: Text, value: Text, ghost start: Text, ghost order: seq<Pair>)
      returns (r: Text)
    requires i == |order| && out == start + Listed(RenderPair, order)
    ensures r == start + Listed(RenderPair, order + [(key, value)])
  {
    r := out;
    if i > 0 { r := r + [COMMA]; }
    r := WriteString(r, key);
    r := r + [COLON];
    r := WriteString(r, value);
    ghost var comma := if i > 0 then [COMMA] else [];
    HeaderWritten(out, comma, key, value);
    ListedSnoc(RenderPair, order, (key, value));
    ConcatIsAssociative(start, Listed(RenderPair, order), comma);
    ConcatIsAssociative(start, Listed(RenderPair, order) + comma, RenderPair((key, value)));
  }

  lemma HeaderWritten(out: Text, comma: Text, key: Text, value: Text)
    ensures out + comma + Quoted(key) + [COLON] + Quoted(value) == out + comma + RenderPair((key, value))
  {
    ConcatIsAssociative(out + comma, Quoted(key), [COLON]);
    ConcatIsAssociative(out + comma, Quoted(key) + [COLON], Quoted(value));
  }

  method WriteHeadersMember(out: Text, headers: map<Text, Text>, ghost members: seq<Member>)
      returns (r: Text, ghost order: seq<Pair>)
    requires members != [] && out == Opened(members)
    ensures Orders(order, headers)
    ensures r == Opened(members + [Named(Headers, Pairs(order))])
  {
    r := out + [COMMA] + Label(Headers) + [OPEN];
    ghost var start := r;
    r, order := WriteHeaders(r, headers);
    r := r + [CLOSE];
    LabelIsQuoted(Headers);
    ghost var m := Named(Headers, Pairs(order));
    OpenedSnoc(members, m);
    MemberWritten(out + [COMMA], Label(Headers), Listed(RenderPair, order));
    assert RenderMember(m) == Label(Headers) + Braced(RenderPair, order);
  }

  lemma MemberWritten(out: Text, name: Text, pairs: Text)
    ensures out + name + [OPEN] + pairs + [CLOSE] == out + (name + ([OPEN] + pairs + [CLOSE]))
  {
  }

  /** The flag and timeout members, which need no escaping. */
  method WriteOptionalPlain(
      out: Text, present: bool, field: Field, value: Text, ghost v: Value, ghost entries: seq<Entry>, ghost k: nat)
      returns (r: Text)
    requires Written(out, entries, k) && k < |entries| && entries[k] == Entry(present, field, v)
    requires value == RenderValue(v)
    ensures Written(r, entries, k + 1)
  {
    r := out;
    if present {
      CollectNext(entries, k);
      r := r + [COMMA] + Label(field) + value;
      LabelIsQuoted(field);
      ConcatIsAssociative(out + [COMMA], Label(field), value);
      OpenedSnoc(Collect(entries[..k]), Named(field, v));
    } else {
      CollectAbsent(entries, k);
    }
  }

  lemma OpenedOne(m: Member)
    ensures Opened([m]) == [OPEN] + RenderMember(m)
  {
    assert [m][..0] == [] && Listed(RenderMember, [m]) == [] + [] + RenderMember(m);
  }

  /** The first two members, always present. */
  function FirstMembers(verb: Text, url: Text): seq<Member> {
    [Named(Method, Str(verb))] + [Named(Url, Str(url))]
  }

  method WriteFirst(verb: Text, url: Text) returns (out: Text)
    ensures out == Opened(FirstMembers(verb, url))
  {
    out := [OPEN] + Label(Method);
    out := WriteString(out, verb);
    ghost var first := Named(Method, Str(verb));
    LabelIsQuoted(Method);
    ConcatIsAssociative([OPEN], Label(Method), Quoted(verb));
    OpenedOne(first);
    out := WriteText(out, Url, url, [first]);
  }

  lemma HeadCollected(entries: seq<Entry>, verb: Text, url: Text, third: Entry)
    requires |entries| >= 3 && entries[0] == Entry(true, Method, Str(verb)) && entries[1] == Entry(true, Url, Str(url))
    requires entries[2] == third
    ensures Collect(entries[..3]) == FirstMembers(verb, url) + Optional(third.present, Named(third.field, third.value))
  {
    CollectNext(entries, 0);
    CollectNext(entries, 1);
    CollectNext(entries, 2);
    assert entries[..0] == [];
  }

  method WriteHead(verb: Text, url: Text, headers: map<Text, Text>) returns (out: Text, ghost order: seq<Pair>)
    ensures Orders(order, headers)
    ensures out == Opened(FirstMembers(verb, url) + Optional(|headers| > 0, Named(Headers, Pairs(order))))
  {
    out := WriteFirst(verb, url);
    if |headers| > 0 {
      out, order := WriteHeadersMember(out, headers, FirstMembers(verb, url));
    } else {
      order := [];
      assert FirstMembers(verb, url) + [] == FirstMembers(verb, url);
    }
  }

  method MarshalHead(p: Payload) returns (out: Text, ghost order: seq<Pair>)
    ensures Orders(order, p.headers)
    ensures Written(out, Entries(p, order), 3)
  {
    out, order := WriteHead(p.verb, p.url, p.headers);
    HeadCollected(Entries(p, order), p.verb, p.url, Entry(|p.headers| > 0, Headers, Pairs(order)));
  }

  /** The entries after the headers. */
  ghost predicate Rest(entries: seq<Entry>, p: Payload) {
    && |entries| == 8
    && entries[3] == Entry(p.body != [], Body, Str(p.body))
    && entries[4] == Entry(p.body64 != [], BodyBase64, Str(p.body64))
    && entries[5] == Entry(p.mode != [], ResponseMode, Str(p.mode))
    && entries[6] == Entry(p.timeout > 0, TimeoutMs, Num(Timeout(p)))
    && entries[7] == Entry(p.insecure, InsecureSkipVerify, True)
  }

  method MarshalTexts(out: Text, p: Payload, ghost entries: seq<Entry>) returns (r: Text)
    requires |entries| == 8 && Written(out, entries, 3)
    requires entries[3] == Entry(p.body != [], Body, Str(p.body))
    requires entries[4] == Entry(p.body64 != [], BodyBase64, Str(p.body64))
    requires entries[5] == Entry(p.mode != [], ResponseMode, Str(p.mode))
    ensures Written(r, entries, 6)
  {
    r := WriteOptionalText(out, Body, p.body, entries, 3);
    r := WriteOptionalText(r, BodyBase64, p.body64, entries, 4);
    r := WriteOptionalText(r, ResponseMode, p.mode, entries, 5);
  }

  method MarshalPlain(out: Text, p: Payload, ghost entries: seq<Entry>) returns (r: Text)
    requires |entries| == 8 && Written(out, entries, 6)
    requires entries[6] == Entry(p.timeout > 0, TimeoutMs, Num(Timeout(p)))
    requires entries[7] == Entry(p.insecure, InsecureSkipVerify, True)
    ensures Written(r, entries, 8)
  {
    var timeout := AsciiDigits(Digits(Timeout(p)));
    r := WriteOptionalPlain(out, p.timeout > 0, TimeoutMs, timeout, Num(Timeout(p)), entries, 6);
    r := WriteOptionalPlain(r, p.insecure, InsecureSkipVerify, [0x74, 0x72, 0x75, 0x65], True, entries, 7);
  }

  method MarshalRest(out: Text, p: Payload, ghost entries: seq<Entry>) returns (r: Text)
    requires Rest(entries, p) && Written(out, entries, 3)
    ensures Written(r, entries, 8)
  {
    r := MarshalTexts(out, p, entries);
    r := MarshalPlain(r, p, entries);
  }

  lemma RestFollows(p: Payload, order: seq<Pair>)
    ensures Rest(Entries(p, order), p)
  {
  }

  lemma ClosedIsEncoding(out: Text, p: Payload, order: seq<Pair>)
    requires Written(out, Entries(p, order), 8)
    ensures out + [CLOSE] == Encoding(p, order)
  {
    assert Entries(p, order)[..8] == Entries(p, order);
  }

  /** The text encodes the payload, with its headers in some order. */
  ghost predicate Encodes(out: Text, p: Payload) {
    exists order {:trigger Orders(order, p.headers)} :: Orders(order, p.headers) && out == Encoding(p, order)
  }

  /** The encoder. */
  method MarshalRequest(p: Payload) returns (out: Text)
    ensures Encodes(out, p)
  {
    ghost var order;
    out, order := MarshalHead(p);
    RestFollows(p, order);
    out := MarshalRest(out, p, Entries(p, order));
    ClosedIsEncoding(out, p, order);
    out := out + [CLOSE];
  }
}
