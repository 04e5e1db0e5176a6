/** Parsing an RTSP authentication challenge: a quote-aware splitter, its parameters, and the challenge. */
module RtspChallenge {
  import opened Results
  import opened Strings
  import opened Unicode

  // ----- splitting at the commas outside quotes

  /** The parts of what is left to read, given the part being collected and whether a quote is open. */
  function SplitFrom(s: string, current: string, quoted: bool): seq<string> {
    if s == [] then (if current != [] then [TrimSpace(current)] else [])
    else if s[0] == '"' then SplitFrom(s[1..], current + [s[0]], !quoted)
    else if s[0] == ',' && !quoted then [TrimSpace(current)] + SplitFrom(s[1..], [], false)
    else SplitFrom(s[1..], current + [s[0]], quoted)
  }

  method SplitCommaSeparated(raw: string) returns (parts: seq<string>)
    ensures parts == SplitFrom(raw, [], false)
  {
    parts := [];
    var current: string, inQuotes := [], false;
    for i := 0 to |raw|
      invariant parts + SplitFrom(raw[i..], current, inQuotes) == SplitFrom(raw, [], false)
    {
      assert raw[i..][0] == raw[i] && raw[i..][1..] == raw[i + 1..];
      if raw[i] == '"' {
        inQuotes := !inQuotes;
        current := current + [raw[i]];
      } else if raw[i] == ',' && !inQuotes {
        parts := parts + [TrimSpace(current)];
        current := [];
      } else {
        current := current + [raw[i]];
      }
    }
    assert raw[|raw|..] == [];
    if current != [] { parts := parts + [TrimSpace(current)]; }
  }

  // ----- parameters

  datatype Param = Param(name: string, value: string, quoted: bool)

  /** The index of the first occurrence of a character, the length if there is none. */
  function IndexOf(s: string, c: char): (i: nat)
    ensures i <= |s| && (i < |s| ==> s[i] == c) && forall j | 0 <= j < i :: s[j] != c
  {
    if s == [] || s[0] == c then 0 else 1 + IndexOf(s[1..], c)
  }

  function TrimLeftQuotes(s: string): string {
    if s != [] && s[0] == '"' then TrimLeftQuotes(s[1..]) else s
  }

  function TrimRightQuotes(s: string): string {
    if s != [] && s[|s| - 1] == '"' then TrimRightQuotes(s[..|s| - 1]) else s
  }

  function TrimQuotes(s: string): string {
    TrimRightQuotes(TrimLeftQuotes(s))
  }

  /** One part read as name=value. */
  function ReadParam(cases: Cases, part: string): Option<(string, string)> {
    var i := IndexOf(part, '=');
    if i == |part| then None
    else Some((ToLower(cases, TrimSpace(part[..i])), TrimQuotes(TrimSpace(part[i + 1..]))))
  }

  /** The parameters of the parts: a later one replaces an earlier one of the same name. */
  function ParamsOf(cases: Cases, parts: seq<string>): map<string, string> {
    if parts == [] then map[]
    else
      var before, read := ParamsOf(cases, parts[..|parts| - 1]), ReadParam(cases, parts[|parts| - 1]);
      if read.None? then before else before[read.value.0 := read.value.1]
  }

  function ParseParams(cases: Cases, raw: string): map<string, string> {
    ParamsOf(cases, SplitFrom(raw, [], false))
  }

  method ParseAuthParams(cases: Cases, raw: string) returns (params: map<string, string>)
    ensures params == ParseParams(cases, raw)
  {
    var parts := SplitCommaSeparated(raw);
    params := map[];
    for i := 0 to |parts|
      invariant params == ParamsOf(cases, parts[..i])
    {
      assert parts[..i + 1][..i] == parts[..i];
      var read := ReadParam(cases, parts[i]);
      if read.None? { continue; }
      params := params[read.value.0 := read.value.1];
    }
    assert parts[..|parts|] == parts;
  }

  // ----- rendering parameters, and reading them back

  /** A parameter as it is written, its value in quotes or plain. */
  function Item(p: Param): (item: string) {
    p.name + ['='] + (if p.quoted then ['"'] + p.value + ['"'] else p.value)
  }

  /** The parameters separated by a comma and a space. */
  function Rendered(params: seq<Param>): string
    requires params != []
  {
    if |params| == 1 then Item(params[0]) else Item(params[0]) + ([',', ' '] + Rendered(params[1..]))
  }

  predicate NameChar(cases: Cases, c: char) {
    !IsSpace(c) && c != '"' && c != ',' && c != '=' && cases.lower(c) == c
  }

  /** Names are lower-case tokens. Quoted values hold anything but quotes: commas, equals signs, spaces;
      plain ones hold no quote or comma and no space at either end. */
  predicate WellFormedParam(cases: Cases, p: Param) {
    && p.name != [] && (forall i | 0 <= i < |p.name| :: NameChar(cases, p.name[i]))
    && '"' !in p.value && (p.quoted || (',' !in p.value && Trimmed(p.value)))
  }

  lemma {:induction false} PlainCollected(text: string, rest: string, current: string)
    requires '"' !in text && ',' !in text
    ensures SplitFrom(text + rest, current, false) == SplitFrom(rest, current + text, false)
  {
    if text == [] {
      assert text + rest == rest && current + text == current;
    } else {
      PlainCollected(text[1..], rest, current + [text[0]]);
      assert (text + rest)[1..] == text[1..] + rest;
      assert current + [text[0]] + text[1..] == current + text;
    }
  }

  lemma {:induction false} QuotedCollected(text: string, rest: string, current: string)
    requires '"' !in text
    ensures SplitFrom(text + rest, current, true) == SplitFrom(rest, current + text, true)
  {
    if text == [] {
      assert text + rest == rest && current + text == current;
    } else {
      QuotedCollected(text[1..], rest, current + [text[0]]);
      assert (text + rest)[1..] == text[1..] + rest;
      assert current + [text[0]] + text[1..] == current + text;
    }
  }

  lemma QuoteCollected(rest: string, current: string, quoted: bool)
    ensures SplitFrom(['"'] + rest, current, quoted) == SplitFrom(rest, current + ['"'], !quoted)
  {
    assert (['"'] + rest)[1..] == rest;
  }

  /** A whole item is collected as it stands, whatever its value holds. */
  lemma ItemCollected(cases: Cases, p: Param, rest: string, current: string)
    requires WellFormedParam(cases, p)
    ensures SplitFrom(Item(p) + rest, current, false) == SplitFrom(rest, current + Item(p), false)
  {
    var name, value := p.name + ['='], p.value;
    assert '"' !in name && ',' !in name;
    if p.quoted {
      assert Item(p) + rest == name + (['"'] + (value + (['"'] + rest)));
      PlainCollected(name, ['"'] + (value + (['"'] + rest)), current);
      QuoteCollected(value + (['"'] + rest), current + name, false);
      QuotedCollected(value, ['"'] + rest, current + name + ['"']);
      QuoteCollected(rest, current + name + ['"'] + value, true);
      assert current + name + ['"'] + value + ['"'] == current + Item(p);
    } else {
      PlainCollected(name + value, rest, current);
    }
  }

  lemma ItemEnds(cases: Cases, p: Param)
    requires WellFormedParam(cases, p)
    ensures Item(p) != [] && !IsSpace(Item(p)[0]) && !IsSpace(Item(p)[|Item(p)| - 1])
  {
    assert Item(p)[0] == p.name[0] && NameChar(cases, p.name[0]);
    if p.quoted {
      assert Item(p)[|Item(p)| - 1] == '"';
    } else if p.value == [] {
      assert Item(p)[|Item(p)| - 1] == '=';
    } else {
      assert Item(p)[|Item(p)| - 1] == p.value[|p.value| - 1];
    }
  }

  lemma ItemIsTrimmed(cases: Cases, p: Param)
    requires WellFormedParam(cases, p)
    ensures TrimSpace(Item(p)) == Item(p) && TrimSpace([' '] + Item(p)) == Item(p)
  {
    var spaced := [' '] + Item(p);
    ItemEnds(cases, p);
    TrimmedIsFixed(Item(p));
    assert spaced[1..] == Item(p);
    assert TrimLeft(Item(p)) == Item(p);
  }

  function Items(params: seq<Param>): seq<string> {
    seq(|params|, i requires 0 <= i < |params| => Item(params[i]))
  }

  lemma CommaSplits(rest: string, current: string)
    ensures SplitFrom([',', ' '] + rest, current, false) == [TrimSpace(current)] + SplitFrom(rest, [' '], false)
  {
    var all, tail := [',', ' '] + rest, [' '] + rest;
    assert all[1..] == tail && tail[1..] == rest;
    assert [] + [tail[0]] == [' '];
  }

  lemma FirstItemSplits(cases: Cases, p: Param, rest: string, current: string)
    requires WellFormedParam(cases, p) && (current == [] || current == [' '])
    ensures SplitFrom(Item(p) + ([',', ' '] + rest), current, false) == [Item(p)] + SplitFrom(rest, [' '], false)
    ensures SplitFrom(Item(p), current, false) == [Item(p)]
  {
    ItemIsTrimmed(cases, p);
    assert [] + Item(p) == Item(p);
    ItemCollected(cases, p, [',', ' '] + rest, current);
    CommaSplits(rest, current + Item(p));
    ItemCollected(cases, p, [], current);
    assert Item(p) + [] == Item(p);
  }

  lemma RenderedStep(cases: Cases, params: seq<Param>, current: string)
    requires |params| > 1 && WellFormedParam(cases, params[0]) && (current == [] || current == [' '])
    ensures SplitFrom(Rendered(params), current, false)
        == [Item(params[0])] + SplitFrom(Rendered(params[1..]), [' '], false)
  {
    FirstItemSplits(cases, params[0], Rendered(params[1..]), current);
  }

  lemma ItemsCons(params: seq<Param>)
    requires params != []
    ensures Items(params) == [Item(params[0])] + Items(params[1..])
  {
  }

  /** Rendered parameters split into their items. */
  lemma {:induction false} RenderedSplits(cases: Cases, params: seq<Param>, current: string)
    requires WellFormedParams(cases, params) && (current == [] || current == [' '])
    ensures SplitFrom(Rendered(params), current, false) == Items(params)
  {
    assert WellFormedParam(cases, params[0]);
    ItemsCons(params);
    if |params| == 1 {
      FirstItemSplits(cases, params[0], [], current);
    } else {
      RenderedStep(cases, params, current);
      RenderedSplits(cases, params[1..], [' ']);
    }
  }

  lemma QuotesTrimmed(value: string)
    requires '"' !in value
    ensures TrimQuotes(['"'] + value + ['"']) == value
  {
    var tail, quoted := value + ['"'], ['"'] + value + ['"'];
    assert quoted[0] == '"' && quoted[1..] == tail;
    assert TrimLeftQuotes(quoted) == TrimLeftQuotes(tail);
    assert tail[|tail| - 1] == '"' && tail[..|tail| - 1] == value;
    assert TrimRightQuotes(tail) == TrimRightQuotes(value);
    if value == [] {
      assert tail[1..] == [];
      assert TrimLeftQuotes(tail) == [];
    } else {
      assert value[0] in value && value[|value| - 1] in value;
      assert TrimLeftQuotes(tail) == tail;
      assert TrimRightQuotes(value) == value;
    }
  }

  lemma NoQuotesTrimmed(value: string)
    requires '"' !in value
    ensures TrimQuotes(value) == value
  {
    if value != [] { assert value[0] in value && value[|value| - 1] in value; }
  }

  lemma NameReadsBack(cases: Cases, name: string)
    requires name != [] && forall i | 0 <= i < |name| :: NameChar(cases, name[i])
    ensures ToLower(cases, TrimSpace(name)) == name
  {
    assert NameChar(cases, name[0]) && NameChar(cases, name[|name| - 1]);
    TrimmedIsFixed(name);
    forall i | 0 <= i < |name| ensures ToLower(cases, name)[i] == name[i] { assert NameChar(cases, name[i]); }
    assert ToLower(cases, name) == name;
  }

  lemma ItemReadsBack(cases: Cases, p: Param)
    requires WellFormedParam(cases, p)
    ensures ReadParam(cases, Item(p)) == Some((p.name, p.value))
  {
    var item, n := Item(p), |p.name|;
    var written := if p.quoted then ['"'] + p.value + ['"'] else p.value;
    forall i | 0 <= i < n ensures item[i] != '=' { assert item[i] == p.name[i] && NameChar(cases, p.name[i]); }
    assert item[n] == '=';
    assert IndexOf(item, '=') == n;
    assert item[..n] == p.name && item[n + 1..] == written;
    NameReadsBack(cases, p.name);
    TrimmedIsFixed(written);
    if p.quoted { QuotesTrimmed(p.value); } else { NoQuotesTrimmed(p.value); }
  }

  function ToMap(params: seq<Param>): map<string, string> {
    if params == [] then map[]
    else ToMap(params[..|params| - 1])[params[|params| - 1].name := params[|params| - 1].value]
  }

  lemma ItemsSnoc(params: seq<Param>)
    requires params != []
    ensures Items(params) != [] && Items(params)[..|params| - 1] == Items(params[..|params| - 1])
    ensures Items(params)[|params| - 1] == Item(params[|params| - 1])
  {
  }

  lemma {:induction false} ItemsReadBack(cases: Cases, params: seq<Param>)
    requires forall i | 0 <= i < |params| :: WellFormedParam(cases, params[i])
    ensures ParamsOf(cases, Items(params)) == ToMap(params)
  {
    if params != [] {
      var init, last := params[..|params| - 1], params[|params| - 1];
      ItemsReadBack(cases, init);
      ItemsSnoc(params);
      ItemReadsBack(cases, last);
    }
  }

  /** Rendered parameters parse back to the same map, even when values hold commas, equals signs or spaces
      at their ends. */
  lemma ParamsReadBack(cases: Cases, params: seq<Param>)
    requires params != [] && forall i | 0 <= i < |params| :: WellFormedParam(cases, params[i])
    ensures ParseParams(cases, Rendered(params)) == ToMap(params)
  {
    RenderedSplits(cases, params, []);
    ItemsReadBack(cases, params);
  }

  // ----- challenges

  datatype Challenge = Challenge(scheme: string, realm: string, nonce: string, opacity: string, algorithm: string,
      qop: string, cnonce: string)

  function Get(params: map<string, string>, name: string): string {
    if name in params then params[name] else ""
  }

  function FirstNonBlank(one: string, other: string): string {
    if TrimSpace(one) != "" then TrimSpace(one) else TrimSpace(other)
  }

  function Candidate(piece: string): string {
    TrimQuotes(TrimSpace(piece))
  }

  const DIGEST := "digest"
  const BASIC := "basic"

  function Candidates(raw: string): seq<string> {
    var pieces := Split(raw, ',');
    seq(|pieces|, i requires 0 <= i < |pieces| => Candidate(pieces[i]))
  }

  /** The protection the client will use: its favourite wherever it is offered, else the first not blank. */
  function Choice(favourite: string, candidates: seq<string>): string {
    if favourite in candidates then favourite else FirstCandidate(candidates)
  }

  function FirstCandidate(candidates: seq<string>): string {
    if candidates == [] then "" else if candidates[0] != "" then candidates[0] else FirstCandidate(candidates[1..])
  }

  lemma {:induction false} FirstCandidateFound(candidates: seq<string>, k: nat)
    requires k <= |candidates| && (forall j | 0 <= j < k :: candidates[j] == "")
    ensures k == |candidates| ==> FirstCandidate(candidates) == ""
    ensures k < |candidates| && candidates[k] != "" ==> FirstCandidate(candidates) == candidates[k]
  {
    if k > 0 { FirstCandidateFound(candidates[1..], k - 1); }
  }

  method Choose(favourite: string, pieces: seq<string>, ghost candidates: seq<string>) returns (choice: string)
    requires favourite != ""
    requires |candidates| == |pieces| && forall i | 0 <= i < |pieces| :: candidates[i] == Candidate(pieces[i])
    ensures choice == Choice(favourite, candidates)
  {
    choice := "";
    for i := 0 to |pieces|
      invariant forall j | 0 <= j < i :: candidates[j] != favourite
      invariant choice == "" ==> forall j | 0 <= j < i :: candidates[j] == ""
      invariant choice != "" ==> choice == FirstCandidate(candidates)
    {
      var candidate := Candidate(pieces[i]);
      if candidate == favourite { return favourite; }
      if choice == "" && candidate != "" {
        choice := candidate;
        FirstCandidateFound(candidates, i);
      }
    }
    if choice == "" { FirstCandidateFound(candidates, |candidates|); }
  }

  method ChooseQop(raw: string) returns (qop: string)
    ensures qop == if raw == "" then "" else Choice("auth", Candidates(raw))
  {
    if raw == "" { return ""; }
    qop := Choose("auth", Split(raw, ','), Candidates(raw));
  }

  /** What the parameters of a digest challenge amount to. */
  function DigestChallenge(params: map<string, string>): Option<Challenge> {
    if Get(params, "realm") == "" || Get(params, "nonce") == "" then None
    else
      var qop := if Get(params, "qop") == "" then "" else Choice("auth", Candidates(params["qop"]));
      Some(Challenge(DIGEST, params["realm"], params["nonce"], Get(params, "opaque"),
          FirstNonBlank(Get(params, "algorithm"), "MD5"), qop, "serviceradar"))
  }

  function ReadChallenge(cases: Cases, header: string): Option<Challenge> {
    var h := TrimSpace(header);
    if h == "" then None
    else if HasPrefix(ToLower(cases, h), DIGEST + " ") then DigestChallenge(ParseParams(cases, TrimSpace(h[7..])))
    else if HasPrefix(ToLower(cases, h), BASIC) then Some(Challenge(BASIC, "", "", "", "", "", ""))
    else None
  }

  method ParseAuthenticateHeader(cases: Cases, header: string) returns (challenge: Option<Challenge>)
    ensures challenge == ReadChallenge(cases, header)
  {
    var h := TrimSpace(header);
    if h == "" { return None; }
    if HasPrefix(ToLower(cases, h), DIGEST + " ") {
      var params := ParseAuthParams(cases, TrimSpace(h[7..]));
      if Get(params, "realm") == "" || Get(params, "nonce") == "" { return None; }
      var qop := ChooseQop(Get(params, "qop"));
      return Some(Challenge(DIGEST, params["realm"], params["nonce"], Get(params, "opaque"),
          FirstNonBlank(Get(params, "algorithm"), "MD5"), qop, "serviceradar"));
    }
    if HasPrefix(ToLower(cases, h), BASIC) { return Some(Challenge(BASIC, "", "", "", "", "", "")); }
    return None;
  }

  /** Lower-casing ASCII letters. */
  ghost predicate LowersAscii(cases: Cases) {
    forall c | c < '\U{80}' :: cases.lower(c) == if 'A' <= c <= 'Z' then c + 32 as char else c
  }

  lemma DigestHeaderRead(cases: Cases, rest: string, params: map<string, string>)
    requires LowersAscii(cases) && ParseParams(cases, rest) == params && rest != [] && !IsSpace(rest[0])
        && !IsSpace(rest[|rest| - 1])
    ensures ReadChallenge(cases, "Digest " + rest) == DigestChallenge(params)
  {
    var header := "Digest " + rest;
    assert header[0] == 'D' && header[|header| - 1] == rest[|rest| - 1];
    TrimmedIsFixed(header);
    assert header[7..] == rest;
    TrimmedIsFixed(rest);
    DigestLowered(cases, rest);
  }

  lemma DigestLowered(cases: Cases, rest: string)
    requires LowersAscii(cases)
    ensures HasPrefix(ToLower(cases, "Digest " + rest), DIGEST + " ")
  {
    var header, lower, want := "Digest " + rest, ToLower(cases, "Digest " + rest), DIGEST + " ";
    forall i | 0 <= i < 7 ensures lower[i] == want[i] {
      assert header[i] == "Digest "[i];
      assert lower[i] == cases.lower(header[i]);
    }
  }

  predicate WellFormedParams(cases: Cases, params: seq<Param>) {
    params != [] && forall i | 0 <= i < |params| :: WellFormedParam(cases, params[i])
  }

  lemma RenderedFacts(cases: Cases, params: seq<Param>, rest: string, meaning: map<string, string>)
    requires WellFormedParams(cases, params) && rest == Rendered(params) && meaning == ToMap(params)
    ensures rest != [] && !IsSpace(rest[0]) && !IsSpace(rest[|rest| - 1]) && ParseParams(cases, rest) == meaning
  {
    RenderedIsTrimmed(cases, params);
    ParamsReadBack(cases, params);
  }

  /** A digest challenge written with well-formed parameters is read with exactly those parameters. */
  lemma ChallengeReadsBack(cases: Cases, params: seq<Param>)
    requires LowersAscii(cases) && WellFormedParams(cases, params)
    ensures ReadChallenge(cases, "Digest " + Rendered(params)) == DigestChallenge(ToMap(params))
  {
    RenderedFacts(cases, params, Rendered(params), ToMap(params));
    DigestHeaderRead(cases, Rendered(params), ToMap(params));
  }

  lemma {:induction false} RenderedIsTrimmed(cases: Cases, params: seq<Param>)
    requires WellFormedParams(cases, params)
    ensures Rendered(params) != [] && !IsSpace(Rendered(params)[0])
        && !IsSpace(Rendered(params)[|Rendered(params)| - 1])
  {
    ItemEnds(cases, params[0]);
    if |params| > 1 {
      RenderedIsTrimmed(cases, params[1..]);
      var tail := [',', ' '] + Rendered(params[1..]);
      assert Rendered(params)[|Rendered(params)| - 1] == tail[|tail| - 1];
    }
  }
}
