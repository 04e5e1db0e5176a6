/** RTSP exchanges as the two ends see them: a request read line by line, the result of a call told from the
    answers, and a session description from its text. */
module RtspExchanges {
  import opened Results
  import opened Strings
  import opened Unicode
  import opened RtspChallenge
  import opened RtspRequests
  import opened RtspClient
  import Bytes

  // ----- a request's text, line by line

  /** A text split at carriage return and line feed. */
  function LinesOf(text: string): (lines: seq<string>)
    ensures lines != []
  {
    if text == "" then [""]
    else if "\r\n" <= text then [""] + LinesOf(text[2..])
    else
      var rest := LinesOf(text[1..]);
      [[text[0]] + rest[0]] + rest[1..]
  }

  lemma CharReads(c: char, rest: string)
    requires c != '\r'
    ensures LinesOf([c] + rest) == [[c] + LinesOf(rest)[0]] + LinesOf(rest)[1..]
  {
    assert ([c] + rest)[0] == c && ([c] + rest)[1..] == rest;
  }

  lemma EndReads(rest: string)
    ensures LinesOf("\r\n" + rest) == [""] + LinesOf(rest)
  {
    assert ("\r\n" + rest)[2..] == rest;
  }

  lemma {:induction false} LineReads(line: string, rest: string)
    requires '\r' !in line
    ensures LinesOf(line + ("\r\n" + rest)) == [line] + LinesOf(rest)
  {
    if line == "" {
      assert line + ("\r\n" + rest) == "\r\n" + rest;
      EndReads(rest);
    } else {
      var c, more := line[0], line[1..];
      LineReads(more, rest);
      assert line == [c] + more;
      Bytes.ConcatIsAssociative([c], more, "\r\n" + rest);
      CharReads(c, more + ("\r\n" + rest));
    }
  }

  /** Each line followed by carriage return and line feed. */
  function Terminated(lines: seq<string>): string {
    if lines == [] then "" else Terminated(lines[..|lines| - 1]) + (lines[|lines| - 1] + "\r\n")
  }

  predicate NoReturns(lines: seq<string>) {
    forall i | 0 <= i < |lines| :: '\r' !in lines[i]
  }

  lemma {:induction false} TerminatedReads(lines: seq<string>, rest: string)
    requires NoReturns(lines)
    ensures LinesOf(Terminated(lines) + rest) == lines + LinesOf(rest)
  {
    if lines == [] {
      assert Terminated(lines) + rest == rest;
      assert lines + LinesOf(rest) == LinesOf(rest);
    } else {
      var init, last := lines[..|lines| - 1], lines[|lines| - 1];
      TerminatedReads(init, last + ("\r\n" + rest));
      LineReads(last, rest);
      assert Terminated(lines) + rest == Terminated(init) + (last + ("\r\n" + rest));
      assert lines == init + [last];
      Bytes.ConcatIsAssociative(init, [last], LinesOf(rest));
    }
  }

  lemma TerminatedSnoc(lines: seq<string>, last: string)
    ensures Terminated(lines + [last]) == Terminated(lines) + (last + "\r\n")
  {
    assert (lines + [last])[..|lines|] == lines;
  }

  lemma {:induction false} TerminatedAppend(a: seq<string>, b: seq<string>)
    ensures Terminated(a + b) == Terminated(a) + Terminated(b)
  {
    if b == [] {
      assert a + b == a && Terminated(a) + "" == Terminated(a);
    } else {
      var init, last := b[..|b| - 1], b[|b| - 1];
      assert b == init + [last];
      TerminatedAppend(a, init);
      Bytes.ConcatIsAssociative(a, init, [last]);
      TerminatedSnoc(a + init, last);
      Bytes.ConcatIsAssociative(Terminated(a), Terminated(init), last + "\r\n");
    }
  }

  /** The lines of the extra headers, those with a blank name or value left out. */
  function ExtraLines(order: seq<(string, string)>): seq<string> {
    if order == [] then []
    else
      var (name, value) := order[|order| - 1];
      var blank := TrimSpace(name) == "" || TrimSpace(value) == "";
      ExtraLines(order[..|order| - 1]) + (if blank then [] else [name + ": " + value])
  }

  lemma {:induction false} ExtraLinesWritten(order: seq<(string, string)>)
    ensures HeaderLines(order) == Terminated(ExtraLines(order))
  {
    if order != [] {
      var init, last := order[..|order| - 1], order[|order| - 1];
      ExtraLinesWritten(init);
      if !Blank(last) {
        TerminatedSnoc(ExtraLines(init), last.0 + ": " + last.1);
        assert HeaderLine(last.0, last.1) == last.0 + ": " + last.1 + "\r\n";
      } else {
        assert ExtraLines(init) + [] == ExtraLines(init);
      }
    }
  }

  /** The lines of a request before its extra headers. */
  function OpeningLines(r: Request, authorization: string): seq<string> {
    [r.verb + " " + r.uri + " RTSP/1.0", "CSeq: " + Itoa(r.cseq), "User-Agent: " + "ServiceRadar-Camera-WASM/0.1"]
    + (if r.session == "" then [] else ["Session: " + r.session])
    + (if authorization == "" then [] else ["Authorization: " + authorization])
  }

  lemma OneLine(line: string)
    ensures Terminated([line]) == line + "\r\n"
  {
    TerminatedSnoc([], line);
    assert [] + [line] == [line] && "" + (line + "\r\n") == line + "\r\n";
  }

  lemma ThreeLines(a: string, b: string, c: string)
    ensures Terminated([a, b, c]) == a + "\r\n" + (b + "\r\n") + (c + "\r\n")
  {
    OneLine(a);
    TerminatedSnoc([a], b);
    TerminatedSnoc([a, b], c);
    assert [a] + [b] == [a, b] && [a, b] + [c] == [a, b, c];
  }

  lemma OptionalLine(lines: seq<string>, present: bool, line: string)
    ensures Terminated(lines + (if present then [line] else []))
         == Terminated(lines) + (if present then line + "\r\n" else "")
  {
    if present { TerminatedSnoc(lines, line); } else { assert lines + [] == lines; }
  }

  lemma OpeningWritten(env: Env, endpoint: Endpoint, r: Request)
    ensures Opening(env, endpoint, r)
         == Terminated(OpeningLines(r, Authorization(env, endpoint, r.verb, r.uri, r.credentials)))
  {
    var authorization := Authorization(env, endpoint, r.verb, r.uri, r.credentials);
    var head := [r.verb + " " + r.uri + " RTSP/1.0", "CSeq: " + Itoa(r.cseq),
      "User-Agent: " + "ServiceRadar-Camera-WASM/0.1"];
    ThreeLines(head[0], head[1], head[2]);
    OptionalLine(head, r.session != "", "Session: " + r.session);
    OptionalLine(head + (if r.session == "" then [] else ["Session: " + r.session]), authorization != "",
      "Authorization: " + authorization);
    HeadersAre(r, authorization);
  }

  lemma HeaderIs(name: string, opening: string, value: string)
    requires name + ": " == opening
    ensures HeaderLine(name, value) == opening + value + "\r\n"
  {
  }

  lemma HeaderNames()
    ensures "CSeq" + ": " == "CSeq: " && "User-Agent" + ": " == "User-Agent: "
    ensures "Session" + ": " == "Session: " && "Authorization" + ": " == "Authorization: "
    ensures " RTSP/1.0\r\n" == " RTSP/1.0" + "\r\n"
  {
  }

  lemma HeadersAre(r: Request, authorization: string)
    ensures r.verb + " " + r.uri + " RTSP/1.0\r\n" == r.verb + " " + r.uri + " RTSP/1.0" + "\r\n"
    ensures HeaderLine("CSeq", Itoa(r.cseq)) == "CSeq: " + Itoa(r.cseq) + "\r\n"
    ensures HeaderLine("User-Agent", "ServiceRadar-Camera-WASM/0.1")
         == "User-Agent: " + "ServiceRadar-Camera-WASM/0.1" + "\r\n"
    ensures HeaderLine("Session", r.session) == "Session: " + r.session + "\r\n"
    ensures HeaderLine("Authorization", authorization) == "Authorization: " + authorization + "\r\n"
  {
    HeaderNames();
    HeaderIs("CSeq", "CSeq: ", Itoa(r.cseq));
    HeaderIs("User-Agent", "User-Agent: ", "ServiceRadar-Camera-WASM/0.1");
    HeaderIs("Session", "Session: ", r.session);
    HeaderIs("Authorization", "Authorization: ", authorization);
    Bytes.ConcatIsAssociative(r.verb + " " + r.uri, " RTSP/1.0", "\r\n");
  }

  /** Unless there is a carriage return in one, these are the text's lines, and an empty one ends them. */
  ghost predicate ReadAs(text: string, lines: seq<string>) {
    NoReturns(lines) ==> LinesOf(text) == lines + ["", ""]
  }

  /** A server that reads a request line by line finds the request line, the headers of exactly this request, the
      extra headers in some order, and the empty line that ends it. */
  lemma RequestReadsBack(env: Env, endpoint: Endpoint, r: Request, text: string)
    requires Writes(env, endpoint, r, text)
    ensures exists order ::
      && Lists(order, r.extra)
      && ReadAs(text, OpeningLines(r, Authorization(env, endpoint, r.verb, r.uri, r.credentials)) + ExtraLines(order))
  {
    var order :| Lists(order, r.extra) && text == Opening(env, endpoint, r) + HeaderLines(order) + "\r\n";
    var opening := OpeningLines(r, Authorization(env, endpoint, r.verb, r.uri, r.credentials));
    OpeningWritten(env, endpoint, r);
    ExtraLinesWritten(order);
    TerminatedAppend(opening, ExtraLines(order));
    assert text == Terminated(opening + ExtraLines(order)) + "\r\n";
    if NoReturns(opening + ExtraLines(order)) {
      TerminatedReads(opening + ExtraLines(order), "\r\n");
      LineReads("", "");
      assert "" + ("\r\n" + "") == "\r\n" && [""] + LinesOf("") == ["", ""];
    }
  }

  predicate DistinctNames(order: seq<(string, string)>) {
    forall i, j | 0 <= i < j < |order| :: order[i].0 != order[j].0
  }

  predicate AllIn(order: seq<(string, string)>, extra: map<string, string>) {
    forall i | 0 <= i < |order| :: order[i].0 in extra && extra[order[i].0] == order[i].1
  }

  predicate IsListed(order: seq<(string, string)>, name: string) {
    exists i | 0 <= i < |order| :: order[i].0 == name
  }

  lemma ListedSnoc(init: seq<(string, string)>, last: (string, string), name: string)
    ensures IsListed(init + [last], name) <==> IsListed(init, name) || last.0 == name
  {
    var order := init + [last];
    assert order[|init|] == last;
    if IsListed(init, name) {
      var i :| 0 <= i < |init| && init[i].0 == name;
      assert order[i].0 == name;
    }
    if IsListed(order, name) && last.0 != name {
      var i :| 0 <= i < |order| && order[i].0 == name;
      assert init[i].0 == name;
    }
  }

  lemma SizeAfter(m: map<string, string>, name: string, value: string)
    ensures |m[name := value]| == if name in m then |m| else |m| + 1
  {
    assert m[name := value].Keys == m.Keys + {name};
  }

  lemma {:induction false} NamesListed(order: seq<(string, string)>, name: string)
    ensures name in Entries(order) <==> IsListed(order, name)
  {
    if order != [] {
      var init, last := order[..|order| - 1], order[|order| - 1];
      NamesListed(init, name);
      assert order == init + [last];
      ListedSnoc(init, last, name);
    }
  }

  lemma {:induction false} EntriesOnce(order: seq<(string, string)>)
    ensures |Entries(order)| <= |order|
    ensures |Entries(order)| == |order| ==> DistinctNames(order) && AllIn(order, Entries(order))
  {
    if order != [] {
      var init, last := order[..|order| - 1], order[|order| - 1];
      EntriesOnce(init);
      NamesListed(init, last.0);
      SizeAfter(Entries(init), last.0, last.1);
      if |Entries(order)| == |order| { OneMore(init, last, Entries(init)); }
    }
  }

  lemma OneMore(init: seq<(string, string)>, last: (string, string), extra: map<string, string>)
    requires DistinctNames(init) && AllIn(init, extra) && !IsListed(init, last.0) && last.0 !in extra
    ensures DistinctNames(init + [last]) && AllIn(init + [last], extra[last.0 := last.1])
  {
  }

  /** An order of the extra headers has each of them at one place, and nothing else. */
  lemma ListedOnce(order: seq<(string, string)>, extra: map<string, string>)
    requires Lists(order, extra)
    ensures DistinctNames(order) && AllIn(order, extra) && forall name <- extra :: IsListed(order, name)
  {
    EntriesOnce(order);
    forall name <- extra ensures IsListed(order, name) { NamesListed(order, name); }
  }

  // ----- the result of a call

  /** The answers a call can read: one, or two where the first challenges it; none where writing failed. */
  predicate Readable(challenged: bool, read: seq<Option<Response>>) {
    && |read| <= (if challenged then 2 else 1) && (challenged ==> read != [])
    && forall i | 0 <= i < |read| - 1 :: read[i].Some?
  }

  /** A call is answered once more exactly when its first answer is a 401 with a challenge that can be read, and
      the client has a user name. It succeeds with the last answer exactly when that is below 400; it is
      unauthorized exactly when a client with a user name got a 401 it could not answer. */
  lemma ResultIs(reading: string -> Option<Challenge>, endpoint: Endpoint, read: seq<Option<Response>>)
    requires Readable(ChallengeIn(reading, endpoint, read).Some?, read)
    ensures var challenge := ChallengeIn(reading, endpoint, read);
      challenge.Some? <==>
        && read != [] && read[0].Some? && read[0].value.status == 401 && endpoint.username != ""
        && reading(Get(read[0].value.headers, "www-authenticate")).Some?
    ensures var (challenge, n) := (ChallengeIn(reading, endpoint, read), |read|);
      var (result, due) := (ResultOf(endpoint, challenge, read), if challenge.Some? then 2 else 1);
      && (result == Err(WriteFailed) <==> n < due)
      && (result == Err(ReadFailed) <==> n == due && read[n - 1] == None)
      && (result == Err(Unauthorized) <==>
            n == due == 1 && read[0].Some? && read[0].value.status == 401 && endpoint.username != "")
      && (result.Ok? <==> n == due && read[n - 1].Some? && read[n - 1].value.status < 400)
      && (result.Ok? ==> result.value == read[n - 1].value)
      && (forall status :: result == Err(BadResponse(status)) <==>
            && n == due && read[n - 1].Some? && read[n - 1].value.status == status >= 400
            && (due == 1 ==> status != 401 || endpoint.username == ""))
  {
  }

  /** A request leaves its sender out exactly when user name and password are nothing but spaces. */
  lemma NobodyIffBlank(env: Env, endpoint: Endpoint, adoptions: seq<Adoption>, k: nat)
    ensures Expected(env, endpoint, adoptions, k) == Nobody
       <==> AllSpaces(endpoint.username) && AllSpaces(endpoint.password)
  {
    BlankIff(endpoint.username);
    BlankIff(endpoint.password);
  }

  /** The challenge a request answers is the last one adopted before it was built. */
  lemma {:induction false} CurrentIs(adoptions: seq<Adoption>, k: nat, i: nat)
    requires i < |adoptions| && adoptions[i].at <= k && forall j | i < j < |adoptions| :: adoptions[j].at > k
    ensures Current(adoptions, k) == Some(adoptions[i])
  {
    if i < |adoptions| - 1 { CurrentIs(adoptions[..|adoptions| - 1], k, i); }
  }

  lemma {:induction false} CurrentIsNone(adoptions: seq<Adoption>, k: nat)
    requires forall j | 0 <= j < |adoptions| :: adoptions[j].at > k
    ensures Current(adoptions, k) == None
  {
    if adoptions != [] { CurrentIsNone(adoptions[..|adoptions| - 1], k); }
  }
}
