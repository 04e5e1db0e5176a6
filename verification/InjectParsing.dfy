/** Parsing an inject spec into token form fields, and what a builder's own spec parses to. */
module InjectParsing {
  import opened Results
  import opened Strings
  import opened Unicode
  import opened InjectSpecs

  function Get(spec: Spec, key: string): string {
    if key in spec then spec[key] else ""
  }

  predicate SuffixChar(c: char) {
    'a' <= c <= 'z' || '0' <= c <= '9' || c == '_' || c == '.' || c == '-'
  }

  predicate ValidSuffix(s: string) {
    s != "" && forall i | 0 <= i < |s| :: SuffixChar(s[i])
  }

  predicate BareHost(host: string) {
    host != "" && forall i | 0 <= i < |host| :: host[i] != '/' && host[i] != '@' && host[i] != '?' && host[i] != '#'
  }

  predicate AbsolutePath(path: string) {
    path != "" && path[0] == '/' && forall i | 0 <= i < |path| :: path[i] != '?' && path[i] != '#'
  }

  predicate IsPort(text: string) {
    Atoi(text).Some? && 1 <= Atoi(text).value <= 65535
  }

  /** Trimmed settings that name an OAuth2 exchange with a usable token endpoint. */
  predicate Usable(cases: Cases, kind: string, verb: string, host: string, port: string, path: string) {
    EqualFold(cases, kind, OAUTH2) && EqualFold(cases, verb, "POST") && BareHost(host) && IsPort(port)
        && AbsolutePath(path)
  }

  function SettingOf(spec: Spec, s: Setting): string {
    TrimSpace(Get(spec, Key(s)))
  }

  predicate EndpointOk(cases: Cases, spec: Spec) {
    Usable(cases, SettingOf(spec, Type), SettingOf(spec, TokenMethod), SettingOf(spec, TokenHost),
        SettingOf(spec, TokenPort), SettingOf(spec, TokenPath))
  }

  /** The names a spec uses after a prefix. */
  function Names(prefix: string, spec: Spec): (names: set<string>)
    ensures forall name :: name in names <==> prefix + name in spec
  {
    var names := set key | key in spec && HasPrefix(key, prefix) :: key[|prefix|..];
    assert forall name | prefix + name in spec ::
        HasPrefix(prefix + name, prefix) && (prefix + name)[|prefix|..] == name;
    assert forall key | key in spec && HasPrefix(key, prefix) :: prefix + key[|prefix|..] == key;
    names
  }

  /** The form field a credential field fills. */
  function Target(spec: Spec, source: string): string {
    TrimSpace(Get(spec, FIELD + source))
  }

  predicate FieldsOk(spec: Spec) {
    && (forall source <- Names(FIELD, spec) :: ValidSuffix(source) && Target(spec, source) != "")
    && (forall a <- Names(FIELD, spec), b <- Names(FIELD, spec) | a != b :: Target(spec, a) != Target(spec, b))
  }

  predicate FixedOk(spec: Spec) {
    forall name <- Names(FIXED, spec) ::
        ValidSuffix(name) && forall source <- Names(FIELD, spec) :: Target(spec, source) != name
  }

  predicate Supplied(spec: Spec, required: string) {
    Get(spec, FIXED + required) != "" || exists source <- Names(FIELD, spec) :: Target(spec, source) == required
  }

  /** The parser's verdict, with no reference to any order of the entries. */
  predicate Accepted(cases: Cases, spec: Spec) {
    && EndpointOk(cases, spec) && FieldsOk(spec) && FixedOk(spec)
    && Get(spec, FIXED + "grant_type") == "client_credentials"
    && Supplied(spec, "client_id") && Supplied(spec, "client_secret")
  }

  /** The map from form fields to credential fields is exactly the field_ entries turned around. */
  predicate Inverts(spec: Spec, fields: map<string, string>) {
    && (forall source <- Names(FIELD, spec) :: Target(spec, source) in fields && fields[Target(spec, source)] == source)
    && (forall target <- fields :: fields[target] in Names(FIELD, spec) && Target(spec, fields[target]) == target)
  }

  /** The entries under a prefix, without it. */
  function Stripped(prefix: string, spec: Spec): map<string, string> {
    map name | name in Names(prefix, spec) :: spec[prefix + name]
  }

  function Fixed(spec: Spec): map<string, string> {
    Stripped(FIXED, spec)
  }

  /** A spec has one inversion, so the parser's maps do not depend on the order it visits entries in. */
  lemma InversionIsUnique(spec: Spec, one: map<string, string>, other: map<string, string>)
    requires Inverts(spec, one) && Inverts(spec, other)
    ensures one == other
  {
  }

  // ----- the parser's two loops

  lemma KeyOfName(prefix: string, key: string)
    requires HasPrefix(key, prefix)
    ensures prefix + key[|prefix|..] == key
  {
  }

  lemma PrefixInjective(prefix: string, a: string, b: string)
    ensures prefix + a == prefix + b <==> a == b
  {
    assert (prefix + a)[|prefix|..] == a && (prefix + b)[|prefix|..] == b;
  }

  /** What the new entry adds to the names and targets of the visited part. */
  lemma FieldAdded(part: Spec, after: Spec, source: string, value: string)
    requires FIELD + source !in part && after == part[FIELD + source := value]
    ensures Names(FIELD, after) == Names(FIELD, part) + {source} && source !in Names(FIELD, part)
    ensures Target(after, source) == TrimSpace(value)
    ensures forall s <- Names(FIELD, part) :: Target(after, s) == Target(part, s)
  {
    forall s ensures FIELD + s == FIELD + source <==> s == source { PrefixInjective(FIELD, s, source); }
  }

  /** Whether the visited part stays acceptable is decided by the new entry alone. */
  lemma VisitField(part: Spec, source: string, value: string, fields: map<string, string>)
    requires FIELD + source !in part && Inverts(part, fields) && FieldsOk(part)
    ensures var after, target := part[FIELD + source := value], TrimSpace(value);
      && (FieldsOk(after) <==> ValidSuffix(source) && target != "" && target !in fields)
      && (FieldsOk(after) ==> Inverts(after, fields[target := source]))
  {
    var after, target := part[FIELD + source := value], TrimSpace(value);
    FieldAdded(part, after, source, value);
    if target in fields {
      assert Target(after, fields[target]) == Target(after, source);
    }
  }

  lemma SkipField(part: Spec, key: string, value: string, fields: map<string, string>)
    requires key !in part && !HasPrefix(key, FIELD) && Inverts(part, fields) && FieldsOk(part)
    ensures FieldsOk(part[key := value]) && Inverts(part[key := value], fields)
  {
    forall s ensures FIELD + s != key { assert HasPrefix(FIELD + s, FIELD); }
    assert Names(FIELD, part[key := value]) == Names(FIELD, part);
    assert forall s <- Names(FIELD, part) :: Target(part[key := value], s) == Target(part, s);
  }

  lemma FieldsOkOnPart(spec: Spec, part: Spec)
    requires FieldsOk(spec) && part.Keys <= spec.Keys && forall key <- part :: part[key] == spec[key]
    ensures FieldsOk(part)
  {
    assert forall s <- Names(FIELD, part) :: s in Names(FIELD, spec) && Target(part, s) == Target(spec, s);
  }

  lemma OneMoreVisited(spec: Spec, rest: set<string>, key: string)
    requires key in rest && key in spec
    ensures spec - (rest - {key}) == (spec - rest)[key := spec[key]] && key !in spec - rest
  {
  }

  method CollectFields(spec: Spec) returns (r: Option<map<string, string>>)
    ensures r.Some? <==> FieldsOk(spec)
    ensures r.Some? ==> Inverts(spec, r.value)
  {
    var fields := map[];
    var remaining := spec.Keys;
    assert spec - remaining == map[];
    while remaining != {}
      invariant remaining <= spec.Keys
      invariant FieldsOk(spec - remaining) && Inverts(spec - remaining, fields)
    {
      var key :| key in remaining;
      ghost var part := spec - remaining;
      OneMoreVisited(spec, remaining, key);
      remaining := remaining - {key};
      if !HasPrefix(key, FIELD) {
        SkipField(part, key, spec[key], fields);
        continue;
      }
      var source, target := key[|FIELD|..], TrimSpace(spec[key]);
      KeyOfName(FIELD, key);
      VisitField(part, source, spec[key], fields);
      if !ValidSuffix(source) || target == "" || target in fields {
        if FieldsOk(spec) { FieldsOkOnPart(spec, spec - remaining); }
        return None;
      }
      fields := fields[target := source];
    }
    assert spec - remaining == spec;
    return Some(fields);
  }

  /** The second loop on the entries it has visited. */
  predicate FixedSoFar(part: Spec, fields: map<string, string>, fixed: map<string, string>) {
    fixed == Fixed(part) && forall name <- fixed :: ValidSuffix(name) && name !in fields
  }

  lemma StripPrefixed(part: Spec, prefix: string, name: string, value: string)
    requires prefix + name !in part
    ensures Stripped(prefix, part[prefix + name := value]) == Stripped(prefix, part)[name := value]
  {
    var after := part[prefix + name := value];
    forall other ensures prefix + other == prefix + name <==> other == name { PrefixInjective(prefix, other, name); }
    assert Names(prefix, after) == Names(prefix, part) + {name};
  }

  lemma StripOther(part: Spec, key: string, value: string, prefix: string)
    requires key !in part && !HasPrefix(key, prefix)
    ensures Stripped(prefix, part[key := value]) == Stripped(prefix, part)
  {
    forall other ensures prefix + other != key { assert HasPrefix(prefix + other, prefix); }
  }

  lemma FixedRefused(spec: Spec, key: string, fields: map<string, string>)
    requires key in spec && HasPrefix(key, FIXED) && Inverts(spec, fields)
    requires !ValidSuffix(key[6..]) || key[6..] in fields
    ensures !FixedOk(spec)
  {
    assert FIXED + key[6..] == key;
    assert key[6..] in Names(FIXED, spec);
    if key[6..] in fields { assert Target(spec, fields[key[6..]]) == key[6..]; }
  }

  method CollectFixed(spec: Spec, fields: map<string, string>) returns (r: Option<map<string, string>>)
    requires Inverts(spec, fields)
    ensures r.Some? <==> FixedOk(spec)
    ensures r.Some? ==> r.value == Fixed(spec)
  {
    var fixed := map[];
    var remaining := spec.Keys;
    assert spec - remaining == map[];
    while remaining != {}
      invariant remaining <= spec.Keys
      invariant FixedSoFar(spec - remaining, fields, fixed)
    {
      var key :| key in remaining;
      ghost var part := spec - remaining;
      OneMoreVisited(spec, remaining, key);
      remaining := remaining - {key};
      if !HasPrefix(key, FIXED) {
        StripOther(part, key, spec[key], FIXED);
        continue;
      }
      var name := key[|FIXED|..];
      if !ValidSuffix(name) || name in fields {
        FixedRefused(spec, key, fields);
        return None;
      }
      KeyOfName(FIXED, key);
      StripPrefixed(part, FIXED, name, spec[key]);
      fixed := fixed[name := spec[key]];
    }
    assert spec - remaining == spec;
    return Some(fixed);
  }

  lemma FixedValue(spec: Spec, name: string)
    ensures Get(Fixed(spec), name) == Get(spec, FIXED + name)
  {
  }

  lemma SuppliedIff(spec: Spec, fields: map<string, string>, required: string)
    requires Inverts(spec, fields)
    ensures Supplied(spec, required) <==> required in fields || Get(Fixed(spec), required) != ""
  {
    FixedValue(spec, required);
    if required in fields { assert Target(spec, fields[required]) == required; }
  }

  /** The parser: the verdict and both maps are those of the order-free description. */
  method FormFields(cases: Cases, spec: Spec) returns (r: Option<(map<string, string>, map<string, string>)>)
    ensures r.Some? <==> Accepted(cases, spec)
    ensures r.Some? ==> Inverts(spec, r.value.0) && r.value.1 == Fixed(spec)
  {
    if !EndpointOk(cases, spec) { return None; }
    var fields := CollectFields(spec);
    if fields.None? { return None; }
    var fixed := CollectFixed(spec, fields.value);
    if fixed.None? { return None; }
    FixedValue(spec, "grant_type");
    SuppliedIff(spec, fields.value, "client_id");
    SuppliedIff(spec, fields.value, "client_secret");
    if Get(fixed.value, "grant_type") != "client_credentials" { return None; }
    if "client_id" !in fields.value && Get(fixed.value, "client_id") == "" { return None; }
    if "client_secret" !in fields.value && Get(fixed.value, "client_secret") == "" { return None; }
    return Some((fields.value, fixed.value));
  }
}
