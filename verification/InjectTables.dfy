/** The inject spec by its literal keys, and the characters its parser admits. */
module InjectTables {
  import opened Strings
  import opened Unicode
  import opened InjectSpecs
  import opened InjectParsing
  import opened InjectRoundTrip

  // ----- the keys the host reads

  lemma KeyTexts()
    ensures Key(Type) == "type" && Key(TokenMethod) == "token_method" && Key(TokenHost) == "token_host"
    ensures Key(TokenPort) == "token_port" && Key(TokenPath) == "token_path" && Key(Verb) == "method"
    ensures Key(Host) == "host" && Key(Path) == "path" && Key(AllowInsecureTLS) == "allow_insecure_tls"
  {
  }

  /** A key and its value are in the spec, or no such key where the value is optional and empty. */
  predicate Holds(spec: Spec, key: string, value: string, optional: bool) {
    if optional && value == "" then key !in spec else key in spec && spec[key] == value
  }

  lemma SettingHolds(cases: Cases, b: Builder, s: Setting)
    ensures Holds(SpecOf(cases, b), Key(s), Value(cases, b, s), !Always(s))
  {
    PrefixesDiffer(s, "", "");
    NotPrefixed(FIELD, b.fields, Key(s));
    NotPrefixed(FIXED, b.fixed, Key(s));
    assert Key(s) in Keys(AllSettings());
    if Key(s) in Chosen(cases, b, AllSettings()) { assert SettingFor(Key(s)) == s; }
  }

  lemma EndpointWritten(cases: Cases, b: Builder)
    ensures var spec := SpecOf(cases, b);
      && Holds(spec, "token_method", ToUpper(cases, TrimSpace(b.tokenMethod)), false)
      && Holds(spec, "token_host", TrimSpace(b.tokenHost), false)
      && Holds(spec, "token_port", Itoa(b.tokenPort), false)
      && Holds(spec, "token_path", TrimSpace(b.tokenPath), false)
  {
    SettingHolds(cases, b, TokenMethod);
    SettingHolds(cases, b, TokenHost);
    SettingHolds(cases, b, TokenPort);
    SettingHolds(cases, b, TokenPath);
  }

  lemma TargetWritten(cases: Cases, b: Builder)
    ensures var spec := SpecOf(cases, b);
      && Holds(spec, "method", ToUpper(cases, TrimSpace(b.verb)), true)
      && Holds(spec, "host", TrimSpace(b.host), true)
      && Holds(spec, "path", TrimSpace(b.path), true)
  {
    SettingHolds(cases, b, Verb);
    SettingHolds(cases, b, Host);
    SettingHolds(cases, b, Path);
  }

  lemma KindWritten(cases: Cases, b: Builder)
    ensures var spec := SpecOf(cases, b);
      && Holds(spec, "type", "oauth2_client_credentials", false)
      && Holds(spec, "allow_insecure_tls", if b.insecure then "true" else "", true)
  {
    SettingHolds(cases, b, Type);
    SettingHolds(cases, b, AllowInsecureTLS);
  }

  /** What the builder writes under the keys of its settings. */
  lemma SettingsWritten(cases: Cases, b: Builder)
    ensures var spec := SpecOf(cases, b);
      && Holds(spec, "type", "oauth2_client_credentials", false)
      && Holds(spec, "token_method", ToUpper(cases, TrimSpace(b.tokenMethod)), false)
      && Holds(spec, "token_host", TrimSpace(b.tokenHost), false)
      && Holds(spec, "token_port", Itoa(b.tokenPort), false)
      && Holds(spec, "token_path", TrimSpace(b.tokenPath), false)
      && Holds(spec, "method", ToUpper(cases, TrimSpace(b.verb)), true)
      && Holds(spec, "host", TrimSpace(b.host), true)
      && Holds(spec, "path", TrimSpace(b.path), true)
      && Holds(spec, "allow_insecure_tls", if b.insecure then "true" else "", true)
  {
    EndpointWritten(cases, b);
    TargetWritten(cases, b);
    KindWritten(cases, b);
  }

  /** What the builder writes under the keys of its fields and fixed values, and that it writes nothing else. */
  lemma EntriesWritten(cases: Cases, b: Builder, name: string)
    ensures var spec := SpecOf(cases, b);
      && ("field_" + name in spec <==> name in b.fields)
      && (name in b.fields ==> spec["field_" + name] == b.fields[name])
      && ("fixed_" + name in spec <==> name in b.fixed)
      && (name in b.fixed ==> spec["fixed_" + name] == b.fixed[name])
  {
    FieldEntry(cases, b, name);
    FixedEntry(cases, b, name);
  }

  lemma NothingElseWritten(cases: Cases, b: Builder, key: string)
    requires key in SpecOf(cases, b)
    ensures HasPrefix(key, "field_") || HasPrefix(key, "fixed_") || exists s :: key == Key(s)
  {
  }

  /** A grant's map as the host reads it: texts as they are, nulls dropped, and anything else as it is printed. */
  lemma NormalizedIs(inject: map<string, Loose>, key: string)
    ensures key in Normalized(inject) <==> key in inject && inject[key] != Null
    ensures key in Normalized(inject) ==>
      match inject[key]
      case Text(text) => Normalized(inject)[key] == text
      case Other(printed) => Normalized(inject)[key] == printed
      case Null => false
  {
  }

  // ----- what the parser admits

  /** The characters of field and fixed names. */
  lemma SuffixCharacters(c: char)
    ensures SuffixChar(c) <==>
      || c in {'a', 'b', 'c', 'd', 'e', 'f', 'g', 'h', 'i', 'j', 'k', 'l', 'm'}
      || c in {'n', 'o', 'p', 'q', 'r', 's', 't', 'u', 'v', 'w', 'x', 'y', 'z'}
      || c in {'0', '1', '2', '3', '4', '5', '6', '7', '8', '9', '_', '.', '-'}
  {
  }

  /** A name is one or more of them. */
  lemma SuffixOf(c: char, rest: string)
    ensures !ValidSuffix("")
    ensures ValidSuffix([c] + rest) <==> SuffixChar(c) && (rest == "" || ValidSuffix(rest))
  {
    var all := [c] + rest;
    assert all[0] == c && all[1..] == rest && forall i | 0 <= i < |rest| :: rest[i] == all[i + 1];
  }

  /** The length of what a URL has before its path, query or fragment. */
  function AuthorityEnd(rest: string): nat {
    if rest == "" || rest[0] in {'/', '?', '#'} then 0 else 1 + AuthorityEnd(rest[1..])
  }

  lemma {:induction false} AuthorityEnds(host: string, path: string)
    requires path != "" && path[0] == '/'
    ensures AuthorityEnd(host + path) == |host| <==> '/' !in host && '?' !in host && '#' !in host
    ensures AuthorityEnd(host + path) <= |host|
  {
    if host == "" {
      assert host + path == path;
    } else {
      AuthorityEnds(host[1..], path);
      assert (host + path)[1..] == host[1..] + path;
      assert host == [host[0]] + host[1..];
    }
  }

  /** A token endpoint is accepted exactly when the URL of its host and path has this host, without a user
      name, and this path, without a query or a fragment. */
  lemma EndpointIsUrl(host: string, path: string)
    requires path != ""
    ensures BareHost(host) && AbsolutePath(path) <==>
      && path[0] == '/' && AuthorityEnd(host + path) == |host| && host != "" && '@' !in host
      && '?' !in path && '#' !in path
  {
    if path[0] == '/' { AuthorityEnds(host, path); }
  }

  /** The parser accepts exactly the specs with a usable token endpoint, fields with valid names and distinct
      form fields, fixed values no field fills as well, the grant type, and both client credentials. */
  lemma AcceptedIs(cases: Cases, spec: Spec)
    ensures Accepted(cases, spec) <==>
      && EqualFold(cases, TrimSpace(Get(spec, "type")), "oauth2_client_credentials")
      && EqualFold(cases, TrimSpace(Get(spec, "token_method")), "POST")
      && BareHost(TrimSpace(Get(spec, "token_host"))) && AbsolutePath(TrimSpace(Get(spec, "token_path")))
      && IsPort(TrimSpace(Get(spec, "token_port"))) && FieldsOk(spec) && FixedOk(spec)
      && Get(spec, "fixed_" + "grant_type") == "client_credentials"
      && Supplied(spec, "client_id") && Supplied(spec, "client_secret")
  {
    KeyTexts();
  }
}
