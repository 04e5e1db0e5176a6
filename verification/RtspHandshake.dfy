/** From the server's challenge to its acceptance of the answer: what a challenge is read as, in the terms of
    the parameters the server wrote. */
module RtspHandshake {
  import opened Results
  import opened Strings
  import opened Unicode
  import opened RtspChallenge
  import opened RtspRequests
  import opened RtspDigest

  // ----- the protections offered

  /** The protections a server offers, as it lists them. */
  function Offers(raw: string): (offers: seq<string>)
    ensures |offers| == |Split(raw, ',')|
    ensures forall i | 0 <= i < |offers| :: offers[i] == TrimSpace(Split(raw, ',')[i])
  {
    var pieces := Split(raw, ',');
    seq(|pieces|, i requires 0 <= i < |pieces| => TrimSpace(pieces[i]))
  }

  /** The client's pick: "auth" if it is offered, else the first offer that is not blank, none if all are. */
  ghost predicate Picked(offers: seq<string>, qop: string) {
    if "auth" in offers then qop == "auth"
    else if qop == "" then forall i | 0 <= i < |offers| :: offers[i] == ""
    else exists i | 0 <= i < |offers| :: offers[i] == qop && forall j | 0 <= j < i :: offers[j] == ""
  }

  lemma {:induction false} FirstIsPicked(offers: seq<string>)
    requires "auth" !in offers
    ensures Picked(offers, FirstCandidate(offers))
  {
    if offers != [] && offers[0] == "" {
      FirstIsPicked(offers[1..]);
      var qop := FirstCandidate(offers);
      if qop != "" {
        var i :| 0 <= i < |offers[1..]| && offers[1..][i] == qop && forall j | 0 <= j < i :: offers[1..][j] == "";
        assert offers[i + 1] == qop && forall j | 0 <= j < i + 1 :: j > 0 ==> offers[j] == offers[1..][j - 1];
      } else {
        assert forall i | 0 <= i < |offers| :: i > 0 ==> offers[i] == offers[1..][i - 1];
      }
    }
  }

  lemma ChoiceIsPicked(offers: seq<string>)
    ensures Picked(offers, Choice("auth", offers))
  {
    if "auth" !in offers { FirstIsPicked(offers); }
  }

  lemma {:induction false} TrimKeepsOut(s: string, c: char)
    requires c !in s
    ensures c !in TrimLeft(s) && c !in TrimRight(s)
    decreases |s|
  {
    if s != [] {
      assert c !in s[1..] && c !in s[..|s| - 1];
      TrimKeepsOut(s[1..], c);
      TrimKeepsOut(s[..|s| - 1], c);
    }
  }

  lemma {:induction false} SplitKeepsOut(s: string, separator: char, c: char)
    requires c !in s
    ensures forall i | 0 <= i < |Split(s, separator)| :: c !in Split(s, separator)[i]
  {
    if s != [] { SplitKeepsOut(s[1..], separator, c); }
  }

  /** Without quotes in the list, the candidates are the offers. */
  lemma CandidatesAreOffers(raw: string)
    requires '"' !in raw
    ensures Candidates(raw) == Offers(raw)
    ensures forall i | 0 <= i < |Offers(raw)| :: Plain(Offers(raw)[i])
  {
    var pieces := Split(raw, ',');
    SplitKeepsOut(raw, ',', '"');
    forall i | 0 <= i < |pieces| ensures Candidate(pieces[i]) == TrimSpace(pieces[i]) && Plain(TrimSpace(pieces[i])) {
      TrimKeepsOut(pieces[i], '"');
      TrimKeepsOut(TrimLeft(pieces[i]), '"');
      TrimKeepsOut(pieces[i], ',');
      TrimKeepsOut(TrimLeft(pieces[i]), ',');
      NoQuotesTrimmed(TrimSpace(pieces[i]));
      TrimSpaceTrims(pieces[i]);
    }
  }

  /** A list of tokens, written with a comma and a space between them, offers these tokens. */
  lemma OffersOfTokens(tokens: seq<string>)
    requires tokens != [] && forall i | 0 <= i < |tokens| :: Plain(tokens[i])
    ensures Offers(Join([tokens[0]] + Spaced(tokens[1..]), ',')) == tokens
  {
    var pieces := [tokens[0]] + Spaced(tokens[1..]);
    forall i | 0 <= i < |pieces| ensures ',' !in pieces[i] && TrimSpace(pieces[i]) == tokens[i] {
      TrimmedIsFixed(tokens[i]);
      if i > 0 {
        assert pieces[i] == [' '] + tokens[i] && pieces[i][1..] == tokens[i];
        assert TrimLeft(tokens[i]) == tokens[i];
      }
    }
    SplitInvertsJoin(pieces, ',');
  }

  function Spaced(tokens: seq<string>): (pieces: seq<string>)
    ensures |pieces| == |tokens| && forall i | 0 <= i < |tokens| :: pieces[i] == [' '] + tokens[i]
  {
    seq(|tokens|, i requires 0 <= i < |tokens| => [' '] + tokens[i])
  }

  // ----- what a challenge is read as

  /** What the client makes of the parameters of a digest challenge. */
  ghost predicate ReadsAs(m: map<string, string>, c: Challenge) {
    && c.scheme == "digest" && c.realm == Get(m, "realm") && c.nonce == Get(m, "nonce")
    && c.opacity == Get(m, "opaque") && c.cnonce == "serviceradar"
    && c.algorithm == (if TrimSpace(Get(m, "algorithm")) == "" then "MD5" else TrimSpace(Get(m, "algorithm")))
    && Picked(Offers(Get(m, "qop")), c.qop)
  }

  lemma {:induction false} ValuesQuotable(cases: Cases, params: seq<Param>, name: string)
    requires forall i | 0 <= i < |params| :: WellFormedParam(cases, params[i])
    ensures Quotable(Get(ToMap(params), name))
  {
    if params != [] { ValuesQuotable(cases, params[..|params| - 1], name); }
  }

  lemma NoOffers()
    ensures Offers("") == [""]
  {
  }

  lemma DigestChallengeIs(m: map<string, string>)
    requires Quotable(Get(m, "qop"))
    ensures DigestChallenge(m).Some? <==> Get(m, "realm") != "" && Get(m, "nonce") != ""
    ensures DigestChallenge(m).Some? ==> ReadsAs(m, DigestChallenge(m).value) && Plain(DigestChallenge(m).value.qop)
  {
    var raw := Get(m, "qop");
    NoOffers();
    CandidatesAreOffers(raw);
    ChoiceIsPicked(Offers(raw));
    assert TrimSpace("MD5") == "MD5";
  }

  /** A digest challenge is taken exactly when it gives a realm and a nonce, and is read with exactly its
      parameters, MD5 where it names no algorithm. */
  lemma ChallengeRead(cases: Cases, params: seq<Param>)
    requires LowersAscii(cases) && WellFormedParams(cases, params)
    ensures var (read, m) := (ReadChallenge(cases, "Digest " + Rendered(params)), ToMap(params));
      && (read.Some? <==> Get(m, "realm") != "" && Get(m, "nonce") != "")
      && (read.Some? ==> ReadsAs(m, read.value) && Plain(read.value.qop))
  {
    ChallengeReadsBack(cases, params);
    ValuesQuotable(cases, params, "qop");
    DigestChallengeIs(ToMap(params));
  }

  lemma ReadIsWritable(cases: Cases, params: seq<Param>, c: Challenge)
    requires LowersAscii(cases) && WellFormedParams(cases, params) && ReadsAs(ToMap(params), c) && Plain(c.qop)
    requires ',' !in Get(ToMap(params), "algorithm")
    ensures Writable(c)
  {
    var algorithm := Get(ToMap(params), "algorithm");
    ValuesQuotable(cases, params, "realm");
    ValuesQuotable(cases, params, "nonce");
    ValuesQuotable(cases, params, "opaque");
    ValuesQuotable(cases, params, "algorithm");
    TrimKeepsOut(algorithm, '"');
    TrimKeepsOut(TrimLeft(algorithm), '"');
    TrimKeepsOut(algorithm, ',');
    TrimKeepsOut(TrimLeft(algorithm), ',');
    TrimSpaceTrims(algorithm);
  }

  /** The server asks for nothing the client does not do: no session algorithm, and if it would have the body
      covered, it also offers to leave that out. */
  ghost predicate Undemanding(cases: Cases, m: map<string, string>) {
    && !IsSession(cases, TrimSpace(Get(m, "algorithm"))) && ',' !in Get(m, "algorithm")
    && ("auth" in Offers(Get(m, "qop")) || forall offer <- Offers(Get(m, "qop")) :: !CoversBody(cases, offer))
  }

  lemma PickIsPlain(cases: Cases, m: map<string, string>, c: Challenge)
    requires LowersAscii(cases) && ReadsAs(m, c) && Undemanding(cases, m)
    ensures !IsSession(cases, c.algorithm) && !CoversBody(cases, c.qop)
  {
    if "auth" !in Offers(Get(m, "qop")) && c.qop != "" {
      assert c.qop in Offers(Get(m, "qop"));
    }
  }

  /** From challenge to acceptance: the server writes a challenge, the client reads it and answers, and the
      server accepts the answer. */
  lemma ChallengeIsMet(env: Env, endpoint: Endpoint, params: seq<Param>, verb: string, uri: string, body: string,
      nc: Count)
    requires LowersAscii(env.cases) && FixedDigests(env) && WellFormedParams(env.cases, params)
    requires Get(ToMap(params), "realm") != "" && Get(ToMap(params), "nonce") != ""
    requires Undemanding(env.cases, ToMap(params)) && Quotable(endpoint.username) && Quotable(uri)
    ensures var read := ReadChallenge(env.cases, "Digest " + Rendered(params));
      && read.Some?
      && Accepts(env, endpoint, Get(ToMap(params), "realm"), Get(ToMap(params), "nonce"), verb, uri, body,
           Authorization(env, endpoint, verb, uri, Digest(read.value, nc)))
  {
    ChallengeRead(env.cases, params);
    var c := ReadChallenge(env.cases, "Digest " + Rendered(params)).value;
    ReadIsWritable(env.cases, params, c);
    PickIsPlain(env.cases, ToMap(params), c);
    ServerAccepts(env, endpoint, verb, uri, body, c, nc);
  }

  // ----- the other schemes, and names in any case

  /** Schemes are told by how the trimmed header starts, in any case: "digest" and a space, or "basic"; a basic
      challenge carries no parameters, and any other is refused. */
  lemma SchemesRead(cases: Cases, header: string)
    ensures var h := TrimSpace(header);
      var lower, read := ToLower(cases, h), ReadChallenge(cases, header);
      && (HasPrefix(lower, "digest ") ==> read == DigestChallenge(ParseParams(cases, TrimSpace(h[7..]))))
      && (HasPrefix(lower, "basic") ==> read == Some(Challenge("basic", "", "", "", "", "", "")))
      && (!HasPrefix(lower, "digest ") && !HasPrefix(lower, "basic") ==> read == None)
  {
    assert "digest "[0] != "basic"[0];
  }

  /** A parameter's name counts in lower case, its value as it stands, quotes and outer spaces aside. */
  lemma NamesInAnyCase(cases: Cases, name: string, value: string, quoted: bool)
    requires '=' !in name && Trimmed(name) && '"' !in value && (quoted || Trimmed(value))
    ensures ReadParam(cases, Item(Param(name, value, quoted))) == Some((ToLower(cases, name), value))
  {
    var item, n := Item(Param(name, value, quoted)), |name|;
    var written := if quoted then ['"'] + value + ['"'] else value;
    assert forall i | 0 <= i < n :: item[i] == name[i];
    assert item[n] == '=' && IndexOf(item, '=') == n && item[..n] == name && item[n + 1..] == written;
    TrimmedIsFixed(name);
    TrimmedIsFixed(written);
    if quoted { QuotesTrimmed(value); } else { NoQuotesTrimmed(value); }
  }

  /** The text of two parameters. */
  lemma RenderedExample()
    ensures Rendered([Param("realm", "r", true), Param("nc", "1", false)]) == "realm=\"r\", nc=1"
  {
    var params := [Param("realm", "r", true), Param("nc", "1", false)];
    assert params[1..] == [Param("nc", "1", false)];
    assert Item(params[0]) == "realm=\"r\"" && Item(params[1]) == "nc=1";
  }

  // ----- counters and basic credentials, as a server reads them

  /** The value of a hexadecimal digit. */
  function HexValue(c: char): int {
    if '0' <= c <= '9' then c as int - '0' as int
    else if 'a' <= c <= 'f' then c as int - 'a' as int + 10
    else if 'A' <= c <= 'F' then c as int - 'A' as int + 10
    else -1
  }

  function HexNumber(s: string): int {
    if s == [] then 0 else 16 * HexNumber(s[..|s| - 1]) + HexValue(s[|s| - 1])
  }

  lemma {:induction false} HexReadsBack(n: nat, width: nat)
    requires n < Power16(width)
    ensures HexNumber(Hex(n, width)) == n
  {
    if width > 0 {
      HexReadsBack(n / 16, width - 1);
      assert Hex(n, width)[..width - 1] == Hex(n / 16, width - 1);
    }
  }

  /** The counter is eight hexadecimal digits of its value. */
  lemma NcReadsBack(n: Count)
    ensures |Nc(n)| == 8 && HexNumber(Nc(n)) == n
  {
    assert Power16(4) == 0x1_0000;
    assert Power16(8) == 0x1_0000_0000;
    HexReadsBack(n, 8);
  }

  /** Basic credentials are the scheme and the encoded name and password. */
  lemma BasicReadsBack(env: Env, endpoint: Endpoint, verb: string, uri: string, decode: string -> Option<string>)
    requires forall text: string :: decode(env.base64(text)) == Some(text)
    ensures var header := Authorization(env, endpoint, verb, uri, Basic);
      HasPrefix(header, "Basic ") && decode(header[6..]) == Some(endpoint.username + ":" + endpoint.password)
  {
    var header, text := Authorization(env, endpoint, verb, uri, Basic), endpoint.username + ":" + endpoint.password;
    assert header == "Basic " + env.base64(text) && header[6..] == env.base64(text);
  }
}
