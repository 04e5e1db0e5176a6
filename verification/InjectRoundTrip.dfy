/** What a builder's spec parses to, and its passage through a grant's loosely typed map. */
module InjectRoundTrip {
  import opened Results
  import opened Strings
  import opened Unicode
  import opened InjectSpecs
  import opened InjectParsing

  // ----- the builder's spec, key by key

  lemma PrefixedEntry(prefix: string, entries: map<string, string>, name: string)
    ensures prefix + name in Prefixed(prefix, entries) <==> name in entries
    ensures name in entries ==> Prefixed(prefix, entries)[prefix + name] == entries[name]
  {
    assert (prefix + name)[|prefix|..] == name;
    if prefix + name in PrefixedKeys(prefix, entries.Keys) {
      var other :| other in entries && prefix + name == prefix + other;
      PrefixInjective(prefix, name, other);
    }
  }

  lemma NotPrefixed(prefix: string, entries: map<string, string>, key: string)
    requires !HasPrefix(key, prefix)
    ensures key !in Prefixed(prefix, entries)
  {
    assert forall name :: HasPrefix(prefix + name, prefix);
  }

  lemma ChosenEntry(cases: Cases, b: Builder, s: Setting)
    ensures Get(Chosen(cases, b, AllSettings()), Key(s)) == Value(cases, b, s)
  {
    assert Key(s) in Keys(AllSettings());
  }

  lemma SettingEntry(cases: Cases, b: Builder, s: Setting)
    ensures Get(SpecOf(cases, b), Key(s)) == Value(cases, b, s)
  {
    PrefixesDiffer(s, "", "");
    NotPrefixed(FIELD, b.fields, Key(s));
    NotPrefixed(FIXED, b.fixed, Key(s));
    ChosenEntry(cases, b, s);
  }

  lemma ChosenNotPrefixed(cases: Cases, b: Builder, name: string)
    ensures FIELD + name !in Chosen(cases, b, AllSettings()) && FIXED + name !in Chosen(cases, b, AllSettings())
  {
    forall s ensures FIELD + name != Key(s) && FIXED + name != Key(s) { PrefixesDiffer(s, name, ""); }
  }

  lemma FieldEntry(cases: Cases, b: Builder, name: string)
    ensures FIELD + name in SpecOf(cases, b) <==> name in b.fields
    ensures name in b.fields ==> SpecOf(cases, b)[FIELD + name] == b.fields[name]
  {
    ChosenNotPrefixed(cases, b, name);
    PrefixesDiffer(Type, name, "");
    NotPrefixed(FIXED, b.fixed, FIELD + name);
    PrefixedEntry(FIELD, b.fields, name);
  }

  lemma FixedEntry(cases: Cases, b: Builder, name: string)
    ensures FIXED + name in SpecOf(cases, b) <==> name in b.fixed
    ensures name in b.fixed ==> SpecOf(cases, b)[FIXED + name] == b.fixed[name]
  {
    ChosenNotPrefixed(cases, b, name);
    PrefixesDiffer(Type, name, "");
    NotPrefixed(FIELD, b.fields, FIXED + name);
    PrefixedEntry(FIXED, b.fixed, name);
  }

  // ----- acceptance of a builder

  /** Upper-casing neither makes nor removes spaces. */
  ghost predicate KeepsSpaces(cases: Cases) {
    forall c :: IsSpace(cases.upper(c)) <==> IsSpace(c)
  }

  predicate BuilderEndpointOk(cases: Cases, b: Builder) {
    && EqualFold(cases, Value(cases, b, TokenMethod), "POST")
    && BareHost(Value(cases, b, TokenHost)) && 1 <= b.tokenPort <= 65535 && AbsolutePath(Value(cases, b, TokenPath))
  }

  predicate BuilderFieldsOk(b: Builder) {
    && (forall source <- b.fields :: ValidSuffix(source) && TrimSpace(b.fields[source]) != "")
    && (forall one <- b.fields, other <- b.fields | one != other ::
        TrimSpace(b.fields[one]) != TrimSpace(b.fields[other]))
  }

  predicate BuilderFixedOk(b: Builder) {
    forall name <- b.fixed :: ValidSuffix(name) && forall source <- b.fields :: TrimSpace(b.fields[source]) != name
  }

  predicate BuilderSupplies(b: Builder, required: string) {
    Get(b.fixed, required) != "" || exists source <- b.fields :: TrimSpace(b.fields[source]) == required
  }

  /** The checks on a builder, in terms of what the caller filled in. */
  predicate BuilderOk(cases: Cases, b: Builder) {
    && BuilderEndpointOk(cases, b) && BuilderFieldsOk(b) && BuilderFixedOk(b)
    && Get(b.fixed, "grant_type") == "client_credentials"
    && BuilderSupplies(b, "client_id") && BuilderSupplies(b, "client_secret")
  }

  lemma ValueIsTrimmed(cases: Cases, b: Builder, s: Setting)
    requires KeepsSpaces(cases)
    ensures Trimmed(Value(cases, b, s))
  {
    match s
    case Type => assert OAUTH2[0] == 'o' && OAUTH2[|OAUTH2| - 1] == 's';
    case TokenMethod => TrimSpaceTrims(b.tokenMethod);
    case TokenHost => TrimSpaceTrims(b.tokenHost);
    case TokenPort => AtoiInvertsItoa(b.tokenPort);
    case TokenPath => TrimSpaceTrims(b.tokenPath);
    case Verb => TrimSpaceTrims(b.verb);
    case Host => TrimSpaceTrims(b.host);
    case Path => TrimSpaceTrims(b.path);
    case AllowInsecureTLS =>
  }

  lemma SettingIs(cases: Cases, b: Builder, s: Setting)
    requires KeepsSpaces(cases)
    ensures SettingOf(SpecOf(cases, b), s) == Value(cases, b, s)
  {
    SettingEntry(cases, b, s);
    ValueIsTrimmed(cases, b, s);
    TrimmedIsFixed(Value(cases, b, s));
  }

  lemma EndpointIff(cases: Cases, b: Builder)
    requires KeepsSpaces(cases)
    ensures EndpointOk(cases, SpecOf(cases, b)) <==> BuilderEndpointOk(cases, b)
  {
    SettingIs(cases, b, Type);
    SettingIs(cases, b, TokenMethod);
    SettingIs(cases, b, TokenHost);
    SettingIs(cases, b, TokenPort);
    SettingIs(cases, b, TokenPath);
    PortIff(cases, b);
  }

  lemma PortIff(cases: Cases, b: Builder)
    ensures IsPort(Value(cases, b, TokenPort)) <==> 1 <= b.tokenPort <= 65535
  {
    AtoiInvertsItoa(b.tokenPort);
  }

  lemma FieldNamesAre(cases: Cases, b: Builder)
    ensures Names(FIELD, SpecOf(cases, b)) == b.fields.Keys
    ensures forall source <- b.fields :: Target(SpecOf(cases, b), source) == TrimSpace(b.fields[source])
  {
    forall name ensures (FIELD + name in SpecOf(cases, b) <==> name in b.fields)
        && (name in b.fields ==> SpecOf(cases, b)[FIELD + name] == b.fields[name]) {
      FieldEntry(cases, b, name);
    }
  }

  /** The fixed values survive exactly. */
  lemma FixedIsKept(cases: Cases, b: Builder)
    ensures Fixed(SpecOf(cases, b)) == b.fixed
  {
    var spec := SpecOf(cases, b);
    forall name ensures (FIXED + name in spec <==> name in b.fixed)
        && (name in b.fixed ==> spec[FIXED + name] == b.fixed[name]) {
      FixedEntry(cases, b, name);
    }
    StrippedIs(FIXED, spec, b.fixed);
  }

  lemma StrippedIs(prefix: string, spec: Spec, entries: map<string, string>)
    requires forall name :: prefix + name in spec <==> name in entries
    requires forall name <- entries :: spec[prefix + name] == entries[name]
    ensures Stripped(prefix, spec) == entries
  {
  }

  /** A builder is accepted exactly when what the caller filled in passes the checks. */
  lemma AcceptedIffBuilderOk(cases: Cases, b: Builder)
    requires KeepsSpaces(cases)
    ensures Accepted(cases, SpecOf(cases, b)) <==> BuilderOk(cases, b)
  {
    var spec := SpecOf(cases, b);
    EndpointIff(cases, b);
    FixedIsKept(cases, b);
    FieldsOkIff(cases, b);
    FixedOkIff(cases, b);
    FixedValue(spec, "grant_type");
    SuppliesIff(cases, b, "client_id");
    SuppliesIff(cases, b, "client_secret");
  }

  lemma FieldsOkIff(cases: Cases, b: Builder)
    ensures FieldsOk(SpecOf(cases, b)) <==> BuilderFieldsOk(b)
  {
    FieldNamesAre(cases, b);
  }

  lemma FixedOkIff(cases: Cases, b: Builder)
    ensures FixedOk(SpecOf(cases, b)) <==> BuilderFixedOk(b)
  {
    FieldNamesAre(cases, b);
    FixedIsKept(cases, b);
    assert Names(FIXED, SpecOf(cases, b)) == Fixed(SpecOf(cases, b)).Keys;
  }

  lemma SuppliesIff(cases: Cases, b: Builder, required: string)
    ensures Supplied(SpecOf(cases, b), required) <==> BuilderSupplies(b, required)
  {
    FieldNamesAre(cases, b);
    FixedIsKept(cases, b);
    FixedValue(SpecOf(cases, b), required);
  }

  /** The fields map turned around, with its targets trimmed. */
  predicate TurnedAround(fields: map<string, string>, inverse: map<string, string>) {
    && (forall source <- fields :: TrimSpace(fields[source]) in inverse && inverse[TrimSpace(fields[source])] == source)
    && (forall target <- inverse :: inverse[target] in fields && TrimSpace(fields[inverse[target]]) == target)
  }

  /** The builder's validated spec. */
  method BuildValidated(cases: Cases, b: Builder) returns (r: Option<Spec>)
    requires KeepsSpaces(cases)
    ensures r == if BuilderOk(cases, b) then Some(SpecOf(cases, b)) else None
  {
    var spec := BuildSpec(cases, b);
    var parsed := FormFields(cases, spec);
    AcceptedIffBuilderOk(cases, b);
    return if parsed.Some? then Some(spec) else None;
  }

  /** Parsing an accepted builder's spec gives back what was built: the fixed values as they were, the
      fields turned around, no form field twice, and both client credentials. */
  lemma SpecParsesBack(cases: Cases, b: Builder, fields: map<string, string>)
    requires BuilderOk(cases, b) && Inverts(SpecOf(cases, b), fields)
    ensures Fixed(SpecOf(cases, b)) == b.fixed
    ensures TurnedAround(b.fields, fields)
    ensures fields.Keys !! b.fixed.Keys && |fields| == |b.fields|
    ensures forall required | required in {"client_id", "client_secret"} ::
        required in fields || Get(b.fixed, required) != ""
  {
    FixedIsKept(cases, b);
    FieldNamesAre(cases, b);
    assert forall source <- b.fields :: TrimSpace(b.fields[source]) in fields.Keys;
    SameSize(b.fields, fields);
  }

  lemma {:induction false} SameSize(fields: map<string, string>, inverse: map<string, string>)
    requires TurnedAround(fields, inverse)
    ensures |inverse| == |fields|
    decreases |fields|
  {
    if fields == map[] {
      assert forall target :: target !in inverse;
    } else {
      var source :| source in fields;
      var target := TrimSpace(fields[source]);
      SameSize(fields - {source}, inverse - {target});
    }
  }

  // ----- through the grant's map

  /** A decoded JSON value of a grant's inject map; anything but a string is printed. */
  datatype Loose = Text(text: string) | Null | Other(printed: string)

  function Normalized(inject: map<string, Loose>): Spec {
    map key | key in inject && !inject[key].Null? :: if inject[key].Text? then inject[key].text else inject[key].printed
  }

  function Loosened(spec: Spec): map<string, Loose> {
    map key | key in spec :: Text(spec[key])
  }

  method InjectSpec(inject: map<string, Loose>) returns (spec: Spec)
    ensures spec == Normalized(inject)
  {
    spec := map[];
    var remaining := inject.Keys;
    while remaining != {}
      invariant remaining <= inject.Keys
      invariant forall key :: key in spec <==> key in inject && key !in remaining && !inject[key].Null?
      invariant forall key <- spec :: spec[key] == if inject[key].Text? then inject[key].text else inject[key].printed
    {
      var key :| key in remaining;
      match inject[key] {
        case Text(text) => spec := spec[key := text];
        case Null =>
        case Other(printed) => spec := spec[key := printed];
      }
      remaining := remaining - {key};
    }
  }

  method Loosen(spec: Spec) returns (inject: map<string, Loose>)
    ensures inject == Loosened(spec)
  {
    inject := map[];
    var remaining := spec.Keys;
    while remaining != {}
      invariant remaining <= spec.Keys
      invariant inject.Keys == spec.Keys - remaining
      invariant forall key <- inject :: inject[key] == Text(spec[key])
    {
      var key :| key in remaining;
      inject := inject[key := Text(spec[key])];
      remaining := remaining - {key};
    }
  }

  method Inject(cases: Cases, b: Builder) returns (r: Option<map<string, Loose>>)
    requires KeepsSpaces(cases)
    ensures r == if BuilderOk(cases, b) then Some(Loosened(SpecOf(cases, b))) else None
  {
    var spec := BuildValidated(cases, b);
    if spec.None? { return None; }
    var inject := Loosen(spec.value);
    return Some(inject);
  }

  /** A grant carrying an accepted builder's inject map hands the host the builder's spec. */
  lemma InjectKeepsSpec(spec: Spec)
    ensures Normalized(Loosened(spec)) == spec
  {
  }
}
