/** The OAuth2 client-credentials inject spec: a string map built from a typed builder, and its parser. */
module InjectSpecs {
  import opened Strings
  import opened Unicode

  type Spec = map<string, string>

  datatype Builder = Builder(
    tokenMethod: string, tokenHost: string, tokenPort: int, tokenPath: string,
    fields: map<string, string>, fixed: map<string, string>,
    verb: string, host: string, path: string, insecure: bool)

  // ----- keys

  datatype Setting = Type | TokenMethod | TokenHost | TokenPort | TokenPath | Verb | Host | Path | AllowInsecureTLS

  /** The spec key of a setting; no key shares the first letter of the field_ and fixed_ prefixes. */
  function Key(s: Setting): (key: string)
    ensures |key| >= 4 && key[0] != 'f' && SettingFor(key) == s
  {
    match s
    case Type => "type"
    case TokenMethod => "token_method"
    case TokenHost => "token_host"
    case TokenPort => "token_port"
    case TokenPath => "token_path"
    case Verb => "method"
    case Host => "host"
    case Path => "path"
    case AllowInsecureTLS => "allow_insecure_tls"
  }

  /** The keys differ in length or in their last letter but one. */
  function SettingFor(key: string): Setting
    requires |key| >= 4
  {
    var mark := key[|key| - 2];
    if |key| == 4 then (if mark == 's' then Host else if mark == 't' then Path else Type)
    else if |key| == 10 then (if mark == 's' then TokenHost else if mark == 'r' then TokenPort else TokenPath)
    else if |key| == 12 then TokenMethod
    else if |key| == 6 then Verb
    else AllowInsecureTLS
  }

  const FIELD := "field_"
  const FIXED := "fixed_"
  const OAUTH2 := "oauth2_client_credentials"

  lemma PrefixesDiffer(s: Setting, name: string, other: string)
    ensures FIELD + name != FIXED + other && FIELD + name != Key(s) && FIXED + name != Key(s)
    ensures !HasPrefix(Key(s), FIELD) && !HasPrefix(Key(s), FIXED)
    ensures !HasPrefix(FIELD + name, FIXED) && !HasPrefix(FIXED + name, FIELD)
  {
    assert (FIELD + name)[0] == 'f' && (FIXED + name)[0] == 'f';
    assert (FIELD + name)[2] == 'e' && (FIXED + other)[2] == 'x' && (FIXED + name)[2] == 'x';
  }

  // ----- building

  predicate Always(s: Setting) {
    s in {Type, TokenMethod, TokenHost, TokenPort, TokenPath}
  }

  /** The value the builder gives a setting, empty for none. */
  function Value(cases: Cases, b: Builder, s: Setting): string {
    match s
    case Type => OAUTH2
    case TokenMethod => ToUpper(cases, TrimSpace(b.tokenMethod))
    case TokenHost => TrimSpace(b.tokenHost)
    case TokenPort => Itoa(b.tokenPort)
    case TokenPath => TrimSpace(b.tokenPath)
    case Verb => ToUpper(cases, TrimSpace(b.verb))
    case Host => TrimSpace(b.host)
    case Path => TrimSpace(b.path)
    case AllowInsecureTLS => if b.insecure then "true" else ""
  }

  function Keys(settings: set<Setting>): set<string> {
    set s | s in settings :: Key(s)
  }

  /** The spec entries of the chosen settings: some always written, the others unless empty. */
  function Chosen(cases: Cases, b: Builder, settings: set<Setting>): Spec {
    map key | key in Keys(settings) && (Always(SettingFor(key)) || Value(cases, b, SettingFor(key)) != "")
      :: Value(cases, b, SettingFor(key))
  }

  function PrefixedKeys(prefix: string, names: set<string>): set<string> {
    set name | name in names :: prefix + name
  }

  /** The entries of a map under prefixed keys. */
  function Prefixed(prefix: string, entries: map<string, string>): Spec {
    map key | key in PrefixedKeys(prefix, entries.Keys) :: entries[key[|prefix|..]]
  }

  function AllSettings(): set<Setting> {
    {Type, TokenMethod, TokenHost, TokenPort, TokenPath, Verb, Host, Path, AllowInsecureTLS}
  }

  function SpecOf(cases: Cases, b: Builder): Spec {
    Chosen(cases, b, AllSettings()) + Prefixed(FIELD, b.fields) + Prefixed(FIXED, b.fixed)
  }

  lemma ChooseOne(cases: Cases, b: Builder, settings: set<Setting>, s: Setting)
    ensures Chosen(cases, b, settings + {s})
         == if Always(s) || Value(cases, b, s) != "" then Chosen(cases, b, settings)[Key(s) := Value(cases, b, s)]
             else Chosen(cases, b, settings)
  {
    assert Keys(settings + {s}) == Keys(settings) + {Key(s)};
  }

  lemma PrefixedInsert(prefix: string, entries: map<string, string>, name: string, value: string)
    ensures Prefixed(prefix, entries[name := value]) == Prefixed(prefix, entries)[prefix + name := value]
  {
    assert (prefix + name)[|prefix|..] == name;
    assert PrefixedKeys(prefix, entries.Keys + {name}) == PrefixedKeys(prefix, entries.Keys) + {prefix + name};
    assert entries[name := value].Keys == entries.Keys + {name};
  }

  lemma UpdateSum(a: Spec, b: Spec, key: string, value: string)
    ensures (a + b)[key := value] == a + b[key := value]
  {
  }

  lemma RestShrinks(entries: map<string, string>, rest: set<string>, name: string)
    requires name in rest && name in entries
    ensures entries - (rest - {name}) == (entries - rest)[name := entries[name]]
  {
  }

  /** A loop over a builder map, in an arbitrary order. */
  method AddPrefixed(spec: Spec, prefix: string, entries: map<string, string>) returns (r: Spec)
    ensures r == spec + Prefixed(prefix, entries)
  {
    r := spec;
    var remaining := entries.Keys;
    assert entries - remaining == map[] && Prefixed(prefix, map[]) == map[];
    while remaining != {}
      invariant remaining <= entries.Keys
      invariant r == spec + Prefixed(prefix, entries - remaining)
    {
      var name :| name in remaining;
      ghost var before := entries - remaining;
      RestShrinks(entries, remaining, name);
      PrefixedInsert(prefix, before, name, entries[name]);
      UpdateSum(spec, Prefixed(prefix, before), prefix + name, entries[name]);
      r := r[prefix + name := entries[name]];
      remaining := remaining - {name};
    }
    assert entries - remaining == entries;
  }

  function AlwaysSpec(cases: Cases, b: Builder): Spec {
    map[Key(Type) := OAUTH2, Key(TokenMethod) := ToUpper(cases, TrimSpace(b.tokenMethod)),
        Key(TokenHost) := TrimSpace(b.tokenHost),
        Key(TokenPort) := Itoa(b.tokenPort), Key(TokenPath) := TrimSpace(b.tokenPath)]
  }

  function AlwaysSettings(): set<Setting> {
    {Type, TokenMethod, TokenHost, TokenPort, TokenPath}
  }

  lemma AlwaysChosen(cases: Cases, b: Builder)
    ensures Chosen(cases, b, AlwaysSettings()) == AlwaysSpec(cases, b)
  {
    var s1, s2, s3, s4 := {Type}, {Type, TokenMethod}, {Type, TokenMethod, TokenHost},
        {Type, TokenMethod, TokenHost, TokenPort};
    assert s1 == {} + {Type} && s2 == s1 + {TokenMethod} && s3 == s2 + {TokenHost};
    assert s4 == s3 + {TokenPort} && AlwaysSettings() == s4 + {TokenPath};
    assert Chosen(cases, b, {}) == map[];
    ChooseOne(cases, b, {}, Type);
    ChooseOne(cases, b, s1, TokenMethod);
    ChooseOne(cases, b, s2, TokenHost);
    ChooseOne(cases, b, s3, TokenPort);
    ChooseOne(cases, b, s4, TokenPath);
  }

  /** The loop over the optional settings, in an arbitrary order. */
  method AddOptional(cases: Cases, b: Builder, spec: Spec, optional: map<Setting, string>, ghost before: set<Setting>)
      returns (r: Spec)
    requires spec == Chosen(cases, b, before)
    requires forall s <- optional :: !Always(s) && optional[s] == Value(cases, b, s)
    ensures r == Chosen(cases, b, before + optional.Keys)
  {
    r := spec;
    var remaining := optional.Keys;
    assert before + (optional.Keys - remaining) == before;
    while remaining != {}
      invariant remaining <= optional.Keys
      invariant r == Chosen(cases, b, before + (optional.Keys - remaining))
    {
      var s :| s in remaining;
      ghost var chosen := before + (optional.Keys - remaining);
      ChooseOne(cases, b, chosen, s);
      if optional[s] != "" { r := r[Key(s) := optional[s]]; }
      remaining := remaining - {s};
      assert before + (optional.Keys - remaining) == chosen + {s};
    }
    assert before + optional.Keys == before + (optional.Keys - remaining);
  }

  function OptionalSettings(cases: Cases, b: Builder): (optional: map<Setting, string>)
    ensures forall s <- optional :: !Always(s) && optional[s] == Value(cases, b, s)
    ensures AlwaysSettings() + optional.Keys + {AllowInsecureTLS} == AllSettings()
  {
    map[Verb := ToUpper(cases, TrimSpace(b.verb)), Host := TrimSpace(b.host), Path := TrimSpace(b.path)]
  }

  lemma ChooseLast(cases: Cases, b: Builder, spec: Spec, chosen: set<Setting>, all: set<Setting>)
    requires spec == Chosen(cases, b, chosen) && all == chosen + {AllowInsecureTLS}
    ensures Chosen(cases, b, all) == if b.insecure then spec[Key(AllowInsecureTLS) := "true"] else spec
  {
    ChooseOne(cases, b, chosen, AllowInsecureTLS);
    assert !Always(AllowInsecureTLS);
  }

  method BuildSettings(cases: Cases, b: Builder) returns (spec: Spec)
    ensures spec == Chosen(cases, b, AllSettings())
  {
    spec := AlwaysSpec(cases, b);
    AlwaysChosen(cases, b);
    spec := AddOptional(cases, b, spec, OptionalSettings(cases, b), AlwaysSettings());
    ChooseLast(cases, b, spec, AlwaysSettings() + OptionalSettings(cases, b).Keys, AllSettings());
    if b.insecure { spec := spec[Key(AllowInsecureTLS) := "true"]; }
  }

  /** The map the builder fills, before it is validated. */
  method BuildSpec(cases: Cases, b: Builder) returns (spec: Spec)
    ensures spec == SpecOf(cases, b)
  {
    spec := BuildSettings(cases, b);
    spec := AddPrefixed(spec, FIELD, b.fields);
    spec := AddPrefixed(spec, FIXED, b.fixed);
  }
}
