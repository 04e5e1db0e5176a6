/** The HTTP request payload as literal text, the escapes one by one, and the host's answers by their codes. */
module HttpTexts {
  import opened Bytes
  import opened Results
  import opened Decimal
  import opened JsonText
  import opened JsonObjects
  import opened HttpRequests
  import opened HttpRoundTrip
  import opened HttpResponses
  import Utf8

  // ----- strings

  /** How each byte is written in a string. */
  lemma EscapeTable(b: byte)
    ensures b == '"' as int ==> Escape(b) == Ascii("\\\"")
    ensures b == '\\' as int ==> Escape(b) == Ascii("\\\\")
    ensures b == '\n' as int ==> Escape(b) == Ascii("\\n")
    ensures b == '\r' as int ==> Escape(b) == Ascii("\\r")
    ensures b == '\t' as int ==> Escape(b) == Ascii("\\t")
    ensures b >= 0x20 && b != '"' as int && b != '\\' as int ==> Escape(b) == [b]
  {
  }

  /** Any other control byte is written in hexadecimal. */
  lemma ControlEscapes(b: byte)
    requires b < 0x20 && b != '\n' as int && b != '\r' as int && b != '\t' as int
    ensures b / 16 in {0, 1}
        && Escape(b) == Ascii("\\u00") + Ascii(["0123456789abcdef"[b / 16], "0123456789abcdef"[b % 16]])
  {
    HexDigitIs(b / 16);
    HexDigitIs(b % 16);
    assert Ascii("\\u00") == [0x5C, 0x75, 0x30, 0x30];
  }

  lemma HexDigitIs(n: nat)
    requires n < 16
    ensures HexDigit(n) == "0123456789abcdef"[n] as int
  {
  }

  /** Hexadecimal digits are read in either case, and nothing else is one. */
  lemma HexValues(n: nat, b: byte)
    requires n < 16
    ensures HexValue(HexDigit(n)) == n && HexDigit(n) == "0123456789abcdef"[n] as int
    ensures n >= 10 ==> HexValue(HexDigit(n) - 0x20) == n
    ensures HexValue(b) == n ==> b == HexDigit(n) || (n >= 10 && b == HexDigit(n) - 0x20)
  {
    HexDigitIs(n);
  }

  /** A value is a string, a number, an object or the word true. */
  lemma OtherValuesRefused(s: Text)
    requires s != [] && s[0] != '"' as int && s[0] != '{' as int && !('0' as int <= s[0] <= '9' as int)
    ensures ReadValue(s).Some? <==> Ascii("true") <= s
  {
    assert Ascii("true") == [0x74, 0x72, 0x75, 0x65];
  }

  /** Four hexadecimal digits are read as the number they make, the first the most significant. */
  lemma Hex4Reads(a: nat, b: nat, c: nat, d: nat, rest: Text)
    requires a < 16 && b < 16 && c < 16 && d < 16
    ensures ReadHex4([HexDigit(a), HexDigit(b), HexDigit(c), HexDigit(d)] + rest)
         == Some(a * 4096 + b * 256 + c * 16 + d)
  {
    DigitReads(a);
    DigitReads(b);
    DigitReads(c);
    DigitReads(d);
  }

  lemma DigitReads(n: nat)
    requires n < 16
    ensures HexValue(HexDigit(n)) == n
  {
  }

  /** Two escaped surrogates are read as the one character they stand for. */
  lemma SurrogatePairReads(s: Text, high: nat, low: nat)
    requires |s| >= 12 && high < 1024 && low < 1024
    requires s[0] == s[6] == '\\' as int && s[1] == s[7] == 'u' as int
    requires ReadHex4(s[2..]) == Some(0xD800 + high) && ReadHex4(s[8..]) == Some(0xDC00 + low)
    ensures ReadEscape(s) == Some((Utf8.Encode(0x1_0000 + high * 1024 + low), 12))
  {
  }

  // ----- the payload's text

  /** The names of the members. */
  lemma NamesAre()
    ensures NameOf(Method) == "method" && NameOf(Url) == "url" && NameOf(Headers) == "headers"
    ensures NameOf(Body) == "body" && NameOf(BodyBase64) == "body_base64" && NameOf(ResponseMode) == "response_mode"
    ensures NameOf(TimeoutMs) == "timeout_ms" && NameOf(InsecureSkipVerify) == "insecure_skip_verify"
  {
  }

  /** A member: its name in quotes, a colon, and its value. */
  function Piece(field: Field, value: Text): Text {
    Ascii("\"") + Ascii(NameOf(field)) + Ascii("\":") + value
  }

  /** A member after the first, if it is there. */
  datatype Shown = Shown(present: bool, field: Field, value: Text) {
    function Written(): Text {
      if present then Ascii(",") + Piece(field, value) else []
    }
  }

  function Writings(shown: seq<Shown>): (texts: seq<Text>)
    ensures |texts| == |shown| && forall i | 0 <= i < |shown| :: texts[i] == shown[i].Written()
  {
    seq(|shown|, i requires 0 <= i < |shown| => shown[i].Written())
  }

  /** The pairs of an object, with commas between them. */
  function PairTexts(pairs: seq<Pair>): Text {
    if pairs == [] then []
    else
      var (name, value) := pairs[|pairs| - 1];
      PairTexts(pairs[..|pairs| - 1]) + (if |pairs| > 1 then Ascii(",") else [])
        + (Quoted(name) + Ascii(":") + Quoted(value))
  }

  lemma {:induction false} PairTextsAre(pairs: seq<Pair>)
    ensures PairTexts(pairs) == Listed(RenderPair, pairs)
  {
    if pairs != [] {
      PairTextsAre(pairs[..|pairs| - 1]);
      assert Ascii(",") == [COMMA] && Ascii(":") == [COLON];
    }
  }

  predicate DistinctNames(order: seq<Pair>) {
    forall i, j | 0 <= i < j < |order| :: order[i].0 != order[j].0
  }

  predicate IsListed(order: seq<Pair>, name: Text) {
    exists i | 0 <= i < |order| :: order[i].0 == name
  }

  lemma NotListed(order: seq<Pair>, name: Text)
    requires name !in ToMap(order)
    ensures !IsListed(order, name)
  {
    forall i | 0 <= i < |order| ensures order[i].0 != name { PairStays(order, i); }
  }

  lemma {:induction false} PairStays(order: seq<Pair>, i: nat)
    requires i < |order|
    ensures order[i].0 in ToMap(order)
  {
    if i < |order| - 1 { PairStays(order[..|order| - 1], i); }
  }

  lemma {:induction false} NamesListed(order: seq<Pair>, name: Text)
    requires name in ToMap(order)
    ensures IsListed(order, name)
  {
    var n := |order| - 1;
    if name == order[n].0 {
      assert order[n].0 == name;
    } else {
      NamesListed(order[..n], name);
      var i :| 0 <= i < n && order[..n][i].0 == name;
      assert order[i].0 == name;
    }
  }

  lemma {:induction false} NamesOnce(order: seq<Pair>)
    requires |ToMap(order)| == |order|
    ensures DistinctNames(order)
  {
    if order != [] {
      var n := |order| - 1;
      SizeAfter(ToMap(order[..n]), order[n]);
      OrderedPairs(order[..n]);
      NamesOnce(order[..n]);
      NotListed(order[..n], order[n].0);
      OneMoreName(order[..n], order[n], order);
    }
  }

  lemma OneMoreName(init: seq<Pair>, last: Pair, order: seq<Pair>)
    requires order == init + [last] && DistinctNames(init) && !IsListed(init, last.0)
    ensures DistinctNames(order)
  {
  }

  lemma SizeAfter(m: map<Text, Text>, pair: Pair)
    ensures |m[pair.0 := pair.1]| == if pair.0 in m then |m| else |m| + 1
  {
    assert m[pair.0 := pair.1].Keys == m.Keys + {pair.0};
  }

  /** An order of the headers has each of them at one place, and nothing else. */
  lemma OrderedOnce(order: seq<Pair>, headers: map<Text, Text>)
    requires Orders(order, headers)
    ensures forall i | 0 <= i < |order| :: order[i].0 in headers && headers[order[i].0] == order[i].1
    ensures DistinctNames(order) && forall name <- headers :: IsListed(order, name)
  {
    OrderedPairs(order);
    NamesOnce(order);
    forall name <- headers ensures IsListed(order, name) { NamesListed(order, name); }
  }

  /** The members after the first. */
  function Further(p: Payload, order: seq<Pair>): (shown: seq<Shown>)
    ensures |shown| == 7
  {
    [Shown(true, Url, Quoted(p.url)),
     Shown(p.headers != map[], Headers, Ascii("{") + PairTexts(order) + Ascii("}")),
     Shown(p.body != [], Body, Quoted(p.body)),
     Shown(p.body64 != [], BodyBase64, Quoted(p.body64)),
     Shown(p.mode != [], ResponseMode, Quoted(p.mode)),
     Shown(p.timeout > 0, TimeoutMs, AsciiDigits(Digits(Timeout(p)))),
     Shown(p.insecure, InsecureSkipVerify, Ascii("true"))]
  }

  /** The payload's text, its headers in the given order. */
  function PayloadText(p: Payload, order: seq<Pair>): Text {
    Ascii("{") + Piece(Method, Quoted(p.verb)) + Flatten(Writings(Further(p, order))) + Ascii("}")
  }

  lemma Punctuation()
    ensures Ascii("{") == [OPEN] && Ascii("}") == [CLOSE] && Ascii(",") == [COMMA] && Ascii("\"") == [QUOTE]
    ensures Ascii("\":") == [QUOTE, COLON] && Ascii("true") == [0x74, 0x72, 0x75, 0x65]
  {
  }

  lemma PieceIs(field: Field, value: Value)
    ensures Piece(field, RenderValue(value)) == RenderMember(Named(field, value))
  {
    Punctuation();
    LabelIsQuoted(field);
  }

  /** One more entry adds its piece. */
  lemma EntryAdds(entries: seq<Entry>, k: nat, shown: Shown)
    requires k < |entries| && Collect(entries[..k]) != [] && ShownAs(entries[k], shown)
    ensures Collect(entries[..k + 1]) != []
    ensures Opened(Collect(entries[..k + 1])) == Opened(Collect(entries[..k])) + shown.Written()
  {
    var before, e := Collect(entries[..k]), entries[k];
    CollectNext(entries, k);
    if e.present {
      Punctuation();
      OpenedSnoc(before, Named(e.field, e.value));
      PieceIs(e.field, e.value);
      ConcatIsAssociative(Opened(before), [COMMA], RenderMember(Named(e.field, e.value)));
    } else {
      assert before + [] == before && Opened(before) + [] == Opened(before);
    }
  }

  ghost predicate ShownAs(e: Entry, shown: Shown) {
    shown == Shown(e.present, e.field, RenderValue(e.value))
  }

  lemma FirstAdds(entries: seq<Entry>, verb: Text)
    requires entries != [] && entries[0] == Entry(true, Method, Str(verb))
    ensures Collect(entries[..1]) != []
    ensures Opened(Collect(entries[..1])) == Ascii("{") + Piece(Method, Quoted(verb))
  {
    var first := Named(Method, Str(verb));
    assert entries[..0] == [] && [] + [first] == [first];
    CollectNext(entries, 0);
    OpenedOne(first);
    Punctuation();
    PieceIs(Method, Str(verb));
  }

  lemma ValuesAre(p: Payload, order: seq<Pair>)
    ensures RenderValue(Pairs(order)) == Ascii("{") + PairTexts(order) + Ascii("}")
    ensures RenderValue(True) == Ascii("true") && |p.headers| > 0 <==> p.headers != map[]
  {
    Punctuation();
    PairTextsAre(order);
  }

  /** A text that grows by one piece after the other grows by all of them. */
  lemma {:induction false} GrowsByAll(grown: seq<Text>, pieces: seq<Text>)
    requires |grown| == |pieces| + 1 && forall i | 0 <= i < |pieces| :: grown[i + 1] == grown[i] + pieces[i]
    ensures grown[|pieces|] == grown[0] + Flatten(pieces)
    decreases |pieces|
  {
    var n := |pieces|;
    if n == 0 {
      assert grown[0] + [] == grown[0];
    } else {
      GrowsByAll(grown[..n], pieces[..n - 1]);
      ConcatIsAssociative(grown[0], Flatten(pieces[..n - 1]), pieces[n - 1]);
    }
  }

  lemma {:induction false} StaysOpened(entries: seq<Entry>, k: nat)
    requires 0 < k <= |entries| && Collect(entries[..1]) != []
    ensures Collect(entries[..k]) != []
  {
    if k > 1 {
      StaysOpened(entries, k - 1);
      CollectNext(entries, k - 1);
    }
  }

  lemma AllShown(entries: seq<Entry>, shown: seq<Shown>)
    requires |entries| == 8 && |shown| == 7
    requires ShownAs(entries[1], shown[0]) && ShownAs(entries[2], shown[1]) && ShownAs(entries[3], shown[2])
    requires ShownAs(entries[4], shown[3]) && ShownAs(entries[5], shown[4]) && ShownAs(entries[6], shown[5])
    requires ShownAs(entries[7], shown[6])
    ensures forall k | 0 <= k < 7 :: ShownAs(entries[k + 1], shown[k])
  {
  }

  lemma FurtherShown(p: Payload, order: seq<Pair>)
    ensures |Entries(p, order)| == 8 && Entries(p, order)[0] == Entry(true, Method, Str(p.verb))
    ensures forall k | 0 <= k < 7 :: ShownAs(Entries(p, order)[k + 1], Further(p, order)[k])
  {
    ValuesAre(p, order);
    AllShown(Entries(p, order), Further(p, order));
  }

  /** What the encoder writes, as text. */
  lemma EncodingIsText(p: Payload, order: seq<Pair>)
    ensures Encoding(p, order) == PayloadText(p, order)
  {
    FurtherShown(p, order);
    FirstAdds(Entries(p, order), p.verb);
    AllAdd(p, order, Entries(p, order), Further(p, order));
  }

  lemma AllAdd(p: Payload, order: seq<Pair>, entries: seq<Entry>, shown: seq<Shown>)
    requires entries == Entries(p, order) && |entries| == 8 && |shown| == 7
    requires forall i | 0 <= i < 7 :: ShownAs(entries[i + 1], shown[i])
    requires Collect(entries[..1]) != []
    requires Opened(Collect(entries[..1])) == Ascii("{") + Piece(Method, Quoted(p.verb))
    ensures Encoding(p, order) == Ascii("{") + Piece(Method, Quoted(p.verb)) + Flatten(Writings(shown)) + Ascii("}")
  {
    EntriesAdd(entries, shown, Writings(shown), Stages(entries));
    StaysOpened(entries, 8);
    ClosedIsEncoding(Opened(Collect(entries[..8])), p, order);
    Punctuation();
  }

  /** What is written once the first `k + 1` entries are. */
  function Stages(entries: seq<Entry>): (grown: seq<Text>)
    ensures |grown| == |entries| && forall i | 0 <= i < |entries| :: grown[i] == Opened(Collect(entries[..i + 1]))
  {
    seq(|entries|, i requires 0 <= i < |entries| => Opened(Collect(entries[..i + 1])))
  }

  lemma StageAdds(entries: seq<Entry>, shown: seq<Shown>, i: nat, before: Text, after: Text, piece: Text)
    requires i < |shown| && |entries| == |shown| + 1 && ShownAs(entries[i + 1], shown[i]) && Collect(entries[..1]) != []
    requires before == Opened(Collect(entries[..i + 1])) && after == Opened(Collect(entries[..i + 2]))
    requires piece == shown[i].Written()
    ensures after == before + piece
  {
    StaysOpened(entries, i + 1);
    EntryAdds(entries, i + 1, shown[i]);
  }

  lemma EntriesAdd(entries: seq<Entry>, shown: seq<Shown>, pieces: seq<Text>, grown: seq<Text>)
    requires |entries| == |shown| + 1 && pieces == Writings(shown) && Collect(entries[..1]) != []
    requires grown == Stages(entries) && forall i | 0 <= i < |shown| :: ShownAs(entries[i + 1], shown[i])
    ensures grown[|pieces|] == grown[0] + Flatten(pieces)
  {
    forall i | 0 <= i < |pieces| ensures grown[i + 1] == grown[i] + pieces[i] {
      StageAdds(entries, shown, i, grown[i], grown[i + 1], pieces[i]);
    }
    GrowsByAll(grown, pieces);
  }

  // ----- defaults, and the host's answers

  /** The canonical form of a request: GET where the method is blank and the status-and-body mode where the mode
      is, a timeout that is not positive as none, and base64 only of a body. */
  lemma CanonicalIs(env: Env, r: Request)
    ensures var (c, verb, mode) := (Canonical(env, r), env.upper(env.trim(r.verb)), env.trim(r.mode));
      && c.verb == (if verb == [] then Ascii("GET") else verb)
      && c.mode == (if mode == [] then Ascii("status_body") else mode)
      && c.url == r.url && c.headers == r.headers && c.body == r.body && c.insecure == r.insecure
      && (c.base64 <==> r.base64 && r.body != []) && c.timeout == (if r.timeout > 0 then r.timeout else 0)
  {
    assert Ascii("GET") == [0x47, 0x45, 0x54];
  }

  /** The host answers with an error exactly in these cases: the request does not decode, the grants refuse it, the
      handler fails or is too late, or its response does not fit the client's buffer. */
  lemma HostAnswers(env: Env, codec: Codec, host: LocalHost, encoded: Text, limit: nat)
    ensures var (request, reply) := (DecodeRequest(env, encoded), HostReply(env, codec, host, encoded, limit));
      && (reply == Err(-1) <==> request.Err?)
      && (reply == Err(-2) <==> request.Ok? && host.authorize(request.value).None?)
      && (reply.Err? ==> reply.error in {-1, -2, -3, -5, -6})
      && (request.Ok? && host.authorize(request.value).Some? ==>
            var handled := host.handler(host.authorize(request.value).value);
            && (reply == Err(-5) <==> handled.Failed?) && (reply == Err(-6) <==> handled.TimedOut?)
            && (handled.Answered? ==>
                  var text := EncodeResponse(env, codec, request.value.mode, handled.response);
                  reply == if |text| > limit then Err(-3) else Ok(text)))
  {
  }

  /** A response is written as status and body in the mode of that name and in a blank one. */
  lemma StatusBodyWritten(env: Env, codec: Codec, mode: Text, r: Response)
    requires env.trim(mode) == [] || codec.equalFold(env.trim(mode), Ascii("status_body"))
    ensures r.status == 200 ==> EncodeResponse(env, codec, mode, r) == Ascii("200\n") + r.body
    ensures r.status >= 0 ==>
        EncodeResponse(env, codec, mode, r) == AsciiDigits(Digits(r.status)) + Ascii("\n") + r.body
  {
    assert Ascii("\n") == [LF];
    assert Digits(200) == [2, 0, 0] && AsciiDigits([2, 0, 0]) + Ascii("\n") == Ascii("200\n");
  }

  /** A negative status is written with a minus sign. */
  lemma NegativeStatusWritten(n: int)
    requires n > 0
    ensures Itoa(-n) == Ascii("-") + AsciiDigits(Digits(n)) && Itoa(n) == AsciiDigits(Digits(n))
  {
    assert Ascii("-") == [0x2D];
  }

  /** In any other mode it is written as an envelope. */
  lemma EnvelopeWritten(env: Env, codec: Codec, mode: Text, r: Response)
    requires env.trim(mode) != [] && !codec.equalFold(env.trim(mode), Ascii("status_body"))
    ensures EncodeResponse(env, codec, mode, r) == codec.marshal(r)
  {
  }
}
