/** Restrictions of a proof request: parsing their attribute keys, compiling them to storage queries, and what the
    queries match among the tags of credential records. */
module RestrictionQuery {
  import opened Wrappers

  // ---- Attribute keys: attr::name::value and attr::name::marker ----

  /** A restriction as it stands in the request. */
  type Json = map<string, string>

  datatype Key = ValueOf(name: string) | MarkerOf(name: string) | OtherKey

  const PREFIX: string := "attr::"
  const VALUE: string := "::value"
  const MARKER: string := "::marker"

  predicate ColonFree(s: string) {
    forall i :: 0 <= i < |s| ==> s[i] != ':'
  }

  predicate Ends(s: string, suffix: string) {
    |s| >= |suffix| && s[|s| - |suffix|..] == suffix
  }

  /** The match of the expression ^attr::([^:]+)::(value|marker)$. */
  function ParseKey(k: string): Key {
    if |k| <= |PREFIX| || k[..|PREFIX|] != PREFIX then OtherKey
    else
      var rest := k[|PREFIX|..];
      if |rest| > |VALUE| && Ends(rest, VALUE) && ColonFree(rest[..|rest| - |VALUE|])
      then ValueOf(rest[..|rest| - |VALUE|])
      else if |rest| > |MARKER| && Ends(rest, MARKER) && ColonFree(rest[..|rest| - |MARKER|])
      then MarkerOf(rest[..|rest| - |MARKER|])
      else OtherKey
  }

  function ValueKey(name: string): string {
    PREFIX + name + VALUE
  }

  function MarkerKey(name: string): string {
    PREFIX + name + MARKER
  }

  lemma ValueKeyParses(name: string)
    requires name != "" && ColonFree(name)
    ensures ParseKey(ValueKey(name)) == ValueOf(name)
  {
    var k := ValueKey(name);
    assert k[..|PREFIX|] == PREFIX && k[|PREFIX|..] == name + VALUE;
    var rest := k[|PREFIX|..];
    assert rest[..|rest| - |VALUE|] == name && rest[|rest| - |VALUE|..] == VALUE;
  }

  lemma MarkerKeyParses(name: string)
    requires name != "" && ColonFree(name)
    ensures ParseKey(MarkerKey(name)) == MarkerOf(name)
  {
    var k := MarkerKey(name);
    assert k[..|PREFIX|] == PREFIX && k[|PREFIX|..] == name + MARKER;
    var rest := k[|PREFIX|..];
    assert rest[..|rest| - |MARKER|] == name && rest[|rest| - |MARKER|..] == MARKER;
    assert rest[|rest| - 1] == 'r' && VALUE[6] == 'e';
  }

  lemma SplitAtEnds(k: string, prefix: string, suffix: string)
    requires |k| >= |prefix| && k[..|prefix|] == prefix && Ends(k[|prefix|..], suffix)
    ensures var rest := k[|prefix|..]; k == prefix + rest[..|rest| - |suffix|] + suffix
  {
    var rest := k[|prefix|..];
    assert rest == rest[..|rest| - |suffix|] + suffix && k == prefix + rest;
  }

  lemma ParsedValueIsPrinted(k: string)
    requires ParseKey(k).ValueOf?
    ensures var n := ParseKey(k).name; k == ValueKey(n) && n != "" && ColonFree(n)
  {
    SplitAtEnds(k, PREFIX, VALUE);
  }

  lemma ParsedMarkerIsPrinted(k: string)
    requires ParseKey(k).MarkerOf?
    ensures var n := ParseKey(k).name; k == MarkerKey(n) && n != "" && ColonFree(n)
  {
    SplitAtEnds(k, PREFIX, MARKER);
  }

  lemma ParsedKeyIsPrinted(k: string)
    ensures var p := ParseKey(k); p.ValueOf? ==> k == ValueKey(p.name) && p.name != "" && ColonFree(p.name)
    ensures var p := ParseKey(k); p.MarkerOf? ==> k == MarkerKey(p.name) && p.name != "" && ColonFree(p.name)
  {
    if ParseKey(k).ValueOf? { ParsedValueIsPrinted(k); }
    if ParseKey(k).MarkerOf? { ParsedMarkerIsPrinted(k); }
  }

  /** Exactly the keys of non-empty colon-free names are recognised, each as what it is. */
  lemma KeysAreRecognised(k: string, name: string)
    ensures ParseKey(k) == ValueOf(name) <==> k == "attr::" + name + "::value" && name != "" && ':' !in name
    ensures ParseKey(k) == MarkerOf(name) <==> k == "attr::" + name + "::marker" && name != "" && ':' !in name
  {
    ParsedKeyIsPrinted(k);
    if name != "" && ColonFree(name) {
      ValueKeyParses(name);
      MarkerKeyParses(name);
    }
  }

  // ---- The parsed restriction ----

  datatype Restriction = Restriction(
    credDefId: Option<string>,
    issuerId: Option<string>, issuerDid: Option<string>,
    schemaId: Option<string>,
    schemaIssuerId: Option<string>, schemaIssuerDid: Option<string>,
    schemaName: Option<string>, schemaVersion: Option<string>,
    values: map<string, string>,
    markers: set<string>)

  function Field(j: Json, name: string): Option<string> {
    if name in j then Some(j[name]) else None
  }

  function AttributeNames(j: Json): set<string> {
    set k | k in j && (ParseKey(k).ValueOf? || ParseKey(k).MarkerOf?) :: ParseKey(k).name
  }

  function Values(j: Json): map<string, string> {
    map n | n in AttributeNames(j) && ValueKey(n) in j :: j[ValueKey(n)]
  }

  function Markers(j: Json): set<string> {
    set n | n in AttributeNames(j) && MarkerKey(n) in j && j[MarkerKey(n)] == "1"
  }

  function Parsed(j: Json): Restriction {
    Restriction(
      Field(j, "cred_def_id"), Field(j, "issuer_id"), Field(j, "issuer_did"), Field(j, "schema_id"),
      Field(j, "schema_issuer_id"), Field(j, "schema_issuer_did"), Field(j, "schema_name"), Field(j, "schema_version"),
      Values(j), Markers(j))
  }

  lemma AttributeNamesAreParsed(j: Json, k: string)
    requires k in j
    ensures ParseKey(k).ValueOf? ==> ParseKey(k).name in AttributeNames(j) && k == ValueKey(ParseKey(k).name)
    ensures ParseKey(k).MarkerOf? ==> ParseKey(k).name in AttributeNames(j) && k == MarkerKey(ParseKey(k).name)
  {
    if !ParseKey(k).OtherKey? { KeysAreRecognised(k, ParseKey(k).name); }
  }

  lemma KeysOfNamesParse(j: Json)
    ensures forall n :: n in AttributeNames(j) ==>
              ParseKey(ValueKey(n)) == ValueOf(n) && ParseKey(MarkerKey(n)) == MarkerOf(n)
  {
    forall n | n in AttributeNames(j)
      ensures ParseKey(ValueKey(n)) == ValueOf(n) && ParseKey(MarkerKey(n)) == MarkerOf(n)
    {
      var l :| l in j && !ParseKey(l).OtherKey? && ParseKey(l).name == n;
      KeysAreRecognised(l, n);
      KeysAreRecognised(ValueKey(n), n);
      KeysAreRecognised(MarkerKey(n), n);
    }
  }

  /** The transformer visits the entries one by one, in any order. */
  method TransformToClass(j: Json) returns (values: map<string, string>, markers: set<string>)
    ensures values == Values(j) && markers == Markers(j)
  {
    KeysOfNamesParse(j);
    values, markers := map[], {};
    var todo := j.Keys;
    while todo != {}
      invariant todo <= j.Keys
      invariant forall n :: n in values <==> n in Values(j) && ValueKey(n) !in todo
      invariant forall n :: n in values ==> values[n] == j[ValueKey(n)]
      invariant forall n :: n in markers <==> n in Markers(j) && MarkerKey(n) !in todo
      decreases |todo|
    {
      var k :| k in todo;
      AttributeNamesAreParsed(j, k);
      var key := ParseKey(k);
      if key.MarkerOf? && j[k] == "1" {
        markers := markers + {key.name};
      } else if key.ValueOf? {
        values := values[key.name := j[k]];
      }
      todo := todo - {k};
    }
  }

  // ---- Tags ----

  /** W3C credential records and the older AnonCreds records tag the same things under different names. */
  datatype Store = W3c | Legacy

  datatype Property = CredDefId | IssuerId | SchemaId | SchemaIssuerId | SchemaName | SchemaVersion

  datatype Tag =
    | About(store: Store, property: Property)
    | Value(store: Store, name: string)
    | Marker(store: Store, name: string)

  datatype TagValue = Text(text: string) | Flag(flag: bool)

  type Tags = map<Tag, TagValue>

  function Lookup(tags: Tags, t: Tag): Option<TagValue> {
    if t in tags then Some(tags[t]) else None
  }

  function PropertyName(store: Store, p: Property): string {
    match p
    case CredDefId => if store.W3c? then "anonCredsCredentialDefinitionId" else "credentialDefinitionId"
    case IssuerId => "issuerId"
    case SchemaId => if store.W3c? then "anonCredsSchemaId" else "schemaId"
    case SchemaIssuerId => if store.W3c? then "anonCredsSchemaIssuerId" else "schemaIssuerId"
    case SchemaName => if store.W3c? then "anonCredsSchemaName" else "schemaName"
    case SchemaVersion => if store.W3c? then "anonCredsSchemaVersion" else "schemaVersion"
  }

  function AttributePrefix(store: Store): string {
    if store.W3c? then "anonCredsAttr::" else "attr::"
  }

  /** The name a tag has in storage. */
  function TagName(t: Tag): string {
    match t
    case About(store, p) => PropertyName(store, p)
    case Value(store, n) => AttributePrefix(store) + n + VALUE
    case Marker(store, n) => AttributePrefix(store) + n + MARKER
  }

  lemma AttributeTagNames(t: Tag)
    requires !t.About?
    ensures var s, p := TagName(t), |AttributePrefix(t.store)|;
      && |s| == p + |t.name| + (if t.Value? then 7 else 8)
      && s[|s| - 1] == (if t.Value? then 'e' else 'r')
      && s[1] == (if t.store.W3c? then 'n' else 't')
      && s[p - 1] == ':'
      && s[p..p + |t.name|] == t.name
  {
  }

  /** The tags of the two stores: the newer one prefixes all names but the issuer's, and those of attributes. */
  lemma PropertyTagNames(name: string)
    ensures PropertyName(Legacy, CredDefId) == "credentialDefinitionId"
    ensures PropertyName(W3c, CredDefId) == "anonCredsCredentialDefinitionId"
    ensures PropertyName(Legacy, IssuerId) == PropertyName(W3c, IssuerId) == "issuerId"
    ensures PropertyName(Legacy, SchemaId) == "schemaId" && PropertyName(W3c, SchemaId) == "anonCredsSchemaId"
    ensures PropertyName(Legacy, SchemaIssuerId) == "schemaIssuerId"
    ensures PropertyName(W3c, SchemaIssuerId) == "anonCredsSchemaIssuerId"
    ensures PropertyName(Legacy, SchemaName) == "schemaName" && PropertyName(W3c, SchemaName) == "anonCredsSchemaName"
    ensures PropertyName(Legacy, SchemaVersion) == "schemaVersion"
    ensures PropertyName(W3c, SchemaVersion) == "anonCredsSchemaVersion"
    ensures TagName(Value(Legacy, name)) == "attr::" + name + "::value"
    ensures TagName(Marker(Legacy, name)) == "attr::" + name + "::marker"
    ensures TagName(Value(W3c, name)) == "anonCredsAttr::" + name + "::value"
    ensures TagName(Marker(W3c, name)) == "anonCredsAttr::" + name + "::marker"
  {
  }

  lemma PropertyNamesHaveNoColon(store: Store, p: Property)
    ensures |PropertyName(store, p)| > 4 && PropertyName(store, p)[4] != ':' && PropertyName(store, p)[5] != ':'
    ensures |PropertyName(store, p)| > 14 ==> PropertyName(store, p)[14] != ':'
  {
  }

  /** Attribute tags that differ have different names in storage, and none has the name of a property. */
  lemma AttributeTagsHaveOwnNames(t: Tag, u: Tag)
    requires !t.About? && TagName(t) == TagName(u)
    ensures t == u
  {
    AttributeTagNames(t);
    if u.About? {
      PropertyNamesHaveNoColon(u.store, u.property);
    } else {
      AttributeTagNames(u);
    }
  }

  // ---- Credentials and the tags of their records ----

  datatype Credential = Credential(
    credDefId: string, issuerId: string, schemaId: string, schemaIssuerId: string, schemaName: string,
    schemaVersion: string, values: map<string, string>)

  function PropertyOf(c: Credential, p: Property): string {
    match p
    case CredDefId => c.credDefId
    case IssuerId => c.issuerId
    case SchemaId => c.schemaId
    case SchemaIssuerId => c.schemaIssuerId
    case SchemaName => c.schemaName
    case SchemaVersion => c.schemaVersion
  }

  /** What the record of a credential says under a tag: its properties, the values and the presence of attributes. */
  function TagFor(store: Store, c: Credential, t: Tag): Option<TagValue> {
    if t.store != store then None else
    match t
    case About(_, p) => Some(Text(PropertyOf(c, p)))
    case Value(_, n) => if n in c.values then Some(Text(c.values[n])) else None
    case Marker(_, n) => if n in c.values then Some(Flag(true)) else None
  }

  ghost predicate AreTagsOf(tags: Tags, store: Store, c: Credential) {
    forall t :: Lookup(tags, t) == TagFor(store, c, t)
  }

  function PropertyTags(store: Store, c: Credential): (tags: Tags)
    ensures forall t :: Lookup(tags, t) == if t.About? then TagFor(store, c, t) else None
  {
    map[
      About(store, CredDefId) := Text(c.credDefId), About(store, IssuerId) := Text(c.issuerId),
      About(store, SchemaId) := Text(c.schemaId), About(store, SchemaIssuerId) := Text(c.schemaIssuerId),
      About(store, SchemaName) := Text(c.schemaName), About(store, SchemaVersion) := Text(c.schemaVersion)]
  }

  /** The tags are built key by key from the values of the credential. */
  method GetTags(store: Store, c: Credential) returns (tags: Tags)
    ensures AreTagsOf(tags, store, c)
  {
    tags := PropertyTags(store, c);
    var todo := c.values.Keys;
    while todo != {}
      invariant todo <= c.values.Keys
      invariant forall t :: Lookup(tags, t) == if !t.About? && t.name in todo then None else TagFor(store, c, t)
      decreases |todo|
    {
      var n :| n in todo;
      tags := tags[Value(store, n) := Text(c.values[n])];
      tags := tags[Marker(store, n) := Flag(true)];
      todo := todo - {n};
    }
  }

  // ---- Queries ----

  datatype Query = Simple(elements: Tags) | Or(queries: seq<Query>) | And(queries: seq<Query>)

  predicate Matches(q: Query, tags: Tags) {
    match q
    case Simple(elements) => forall t :: t in elements ==> Lookup(tags, t) == Some(elements[t])
    case Or(queries) => exists i :: 0 <= i < |queries| && Matches(queries[i], tags)
    case And(queries) => forall i :: 0 <= i < |queries| ==> Matches(queries[i], tags)
  }

  predicate Given(s: Option<string>) {
    s.Some? && s.value != ""
  }

  // issuerId || issuerDid guards issuerId ?? issuerDid.
  function Either(a: Option<string>, b: Option<string>): Option<string> {
    if Given(a) || Given(b) then (if a.Some? then a else b) else None
  }

  /** What a restriction says about a property, if anything. */
  function Wanted(r: Restriction, p: Property): Option<string> {
    match p
    case CredDefId => if Given(r.credDefId) then r.credDefId else None
    case IssuerId => Either(r.issuerId, r.issuerDid)
    case SchemaId => if Given(r.schemaId) then r.schemaId else None
    case SchemaIssuerId => Either(r.schemaIssuerId, r.schemaIssuerDid)
    case SchemaName => if Given(r.schemaName) then r.schemaName else None
    case SchemaVersion => if Given(r.schemaVersion) then r.schemaVersion else None
  }

  /** The element a restriction compiles to under a tag, if any. */
  function ElementFor(store: Store, r: Restriction, t: Tag): Option<TagValue> {
    if t.store != store then None else
    match t
    case About(_, p) => if Wanted(r, p).Some? then Some(Text(Wanted(r, p).value)) else None
    case Value(_, n) => if n in r.values then Some(Text(r.values[n])) else None
    case Marker(_, n) => if n in r.markers then Some(Flag(true)) else None
  }

  function Properties(store: Store): set<Tag> {
    {About(store, CredDefId), About(store, IssuerId), About(store, SchemaId), About(store, SchemaIssuerId),
     About(store, SchemaName), About(store, SchemaVersion)}
  }

  function Candidates(store: Store, r: Restriction): set<Tag> {
    Properties(store) + (set n | n in r.values :: Value(store, n)) + (set n | n in r.markers :: Marker(store, n))
  }

  function Elements(store: Store, r: Restriction): Tags {
    map t | t in Candidates(store, r) && ElementFor(store, r, t).Some? :: ElementFor(store, r, t).value
  }

  lemma EveryElementIsACandidate(store: Store, r: Restriction, t: Tag)
    requires ElementFor(store, r, t).Some?
    ensures t in Candidates(store, r)
  {
    if t.Value? {
      assert t == Value(store, t.name) && t.name in r.values;
    } else if t.Marker? {
      assert t == Marker(store, t.name) && t.name in r.markers;
    }
  }

  lemma ElementsByTag(store: Store, r: Restriction, t: Tag)
    ensures Lookup(Elements(store, r), t) == ElementFor(store, r, t)
  {
    if ElementFor(store, r, t).Some? { EveryElementIsACandidate(store, r, t); }
  }

  ghost predicate AreElements(e: Tags, store: Store, r: Restriction) {
    forall t :: Lookup(e, t) == ElementFor(store, r, t)
  }

  lemma ElementsAreUnique(e: Tags, store: Store, r: Restriction)
    requires AreElements(e, store, r)
    ensures e == Elements(store, r)
  {
    forall t ensures Lookup(e, t) == Lookup(Elements(store, r), t) { ElementsByTag(store, r, t); }
    SameLookupsAreEqual(e, Elements(store, r));
  }

  lemma SameLookupsAreEqual(a: Tags, b: Tags)
    requires forall t :: Lookup(a, t) == Lookup(b, t)
    ensures a == b
  {
    assert forall t :: t in a ==> Lookup(a, t).Some? && Lookup(b, t) == Some(a[t]);
    assert forall t :: t in b ==> Lookup(b, t).Some? && Lookup(a, t) == Some(b[t]);
  }

  function Rank(p: Property): nat {
    match p
    case CredDefId => 0
    case IssuerId => 1
    case SchemaId => 2
    case SchemaIssuerId => 3
    case SchemaName => 4
    case SchemaVersion => 5
  }

  ghost predicate HasFirst(e: Tags, store: Store, r: Restriction, n: nat) {
    forall t :: Lookup(e, t) == if t.About? && Rank(t.property) < n then ElementFor(store, r, t) else None
  }

  lemma OneMore(e: Tags, store: Store, r: Restriction, p: Property)
    requires HasFirst(e, store, r, Rank(p))
    ensures var w := Wanted(r, p);
      HasFirst(if w.Some? then e[About(store, p) := Text(w.value)] else e, store, r, Rank(p) + 1)
  {
    var w := Wanted(r, p);
    var f := if w.Some? then e[About(store, p) := Text(w.value)] else e;
    forall t ensures Lookup(f, t) == if t.About? && Rank(t.property) < Rank(p) + 1 then ElementFor(store, r, t) else None {
      if t.About? && Rank(t.property) == Rank(p) { assert t.property == p; }
    }
  }

  method PutProperty(e: Tags, store: Store, r: Restriction, p: Property, id: Option<string>, did: Option<string>)
    returns (f: Tags)
    requires Wanted(r, p) == Either(id, did) && HasFirst(e, store, r, Rank(p))
    ensures HasFirst(f, store, r, Rank(p) + 1)
  {
    OneMore(e, store, r, p);
    f := e;
    if Given(id) || Given(did) {
      f := e[About(store, p) := Text(if id.Some? then id.value else did.value)];
    }
  }

  method BuildProperties(store: Store, r: Restriction) returns (e: Tags)
    ensures HasFirst(e, store, r, 6)
  {
    e := map[];
    e := PutProperty(e, store, r, CredDefId, r.credDefId, None);
    e := PutProperty(e, store, r, IssuerId, r.issuerId, r.issuerDid);
    e := PutProperty(e, store, r, SchemaId, r.schemaId, None);
    e := PutProperty(e, store, r, SchemaIssuerId, r.schemaIssuerId, r.schemaIssuerDid);
    e := PutProperty(e, store, r, SchemaName, r.schemaName, None);
    e := PutProperty(e, store, r, SchemaVersion, r.schemaVersion, None);
  }

  method PutValues(properties: Tags, store: Store, r: Restriction) returns (e: Tags)
    requires HasFirst(properties, store, r, 6)
    ensures forall t :: Lookup(e, t) == if t.Marker? then None else ElementFor(store, r, t)
  {
    e := properties;
    var todo := r.values.Keys;
    while todo != {}
      invariant todo <= r.values.Keys
      invariant forall t :: Lookup(e, t) ==
                            if t.Marker? || (t.Value? && t.name in todo) then None else ElementFor(store, r, t)
      decreases |todo|
    {
      var n :| n in todo;
      e := e[Value(store, n) := Text(r.values[n])];
      todo := todo - {n};
    }
  }

  method BuildElements(store: Store, r: Restriction) returns (e: Tags)
    ensures e == Elements(store, r)
  {
    e := BuildProperties(store, r);
    e := PutValues(e, store, r);
    var names := r.markers;
    while names != {}
      invariant names <= r.markers
      invariant forall t :: Lookup(e, t) == if t.Marker? && t.name in names then None else ElementFor(store, r, t)
      decreases |names|
    {
      var n :| n in names;
      e := e[Marker(store, n) := Flag(true)];
      names := names - {n};
    }
    ElementsAreUnique(e, store, r);
  }

  function CompiledOne(store: Store, j: Json): Query {
    Simple(Elements(store, Parsed(j)))
  }

  function Compiled(store: Store, restrictions: seq<Json>): seq<Query> {
    seq(|restrictions|, i requires 0 <= i < |restrictions| => CompiledOne(store, restrictions[i]))
  }

  function RestrictionQuery(store: Store, restrictions: seq<Json>): Query {
    var qs := Compiled(store, restrictions);
    if |qs| == 1 then qs[0] else Or(qs)
  }

  method CompileOne(store: Store, j: Json) returns (q: Query)
    ensures q == CompiledOne(store, j)
  {
    var values, markers := TransformToClass(j);
    var elements := BuildElements(store, Parsed(j).(values := values, markers := markers));
    q := Simple(elements);
  }

  lemma OneLonger<T>(s: seq<T>, i: nat)
    requires i < |s|
    ensures s[..i + 1] == s[..i] + [s[i]]
  {
  }

  method QueryFromRestrictions(store: Store, restrictions: seq<Json>) returns (q: Query)
    ensures q == RestrictionQuery(store, restrictions)
  {
    var query: seq<Query> := [];
    for i := 0 to |restrictions|
      invariant query == Compiled(store, restrictions)[..i]
    {
      var elements := CompileOne(store, restrictions[i]);
      OneLonger(Compiled(store, restrictions), i);
      query := query + [elements];
    }
    assert query == Compiled(store, restrictions);
    q := if |query| == 1 then query[0] else Or(query);
  }

  /** Both stores are asked for the markers of the W3C store. */
  function MarkerElements(names: seq<string>): Tags {
    var tags := set n | n in names :: Marker(W3c, n);
    map t | t in tags :: Flag(true)
  }

  /** The query for one referent. */
  function ReferentQuery(store: Store, names: seq<string>, restrictions: Option<seq<Json>>): Query {
    And([Simple(MarkerElements(names))]
        + (if restrictions.Some? then [RestrictionQuery(store, restrictions.value)] else []))
  }

  // ---- What the requests mean ----

  ghost predicate SatisfiesProperty(j: Json, key: string, alias: Option<string>, actual: string) {
    && (key in j ==> j[key] == actual)
    && (key !in j && alias.Some? && alias.value in j ==> j[alias.value] == actual)
  }

  ghost predicate SatisfiesProperties(c: Credential, j: Json) {
    && SatisfiesProperty(j, "cred_def_id", None, c.credDefId)
    && SatisfiesProperty(j, "issuer_id", Some("issuer_did"), c.issuerId)
    && SatisfiesProperty(j, "schema_id", None, c.schemaId)
    && SatisfiesProperty(j, "schema_issuer_id", Some("schema_issuer_did"), c.schemaIssuerId)
    && SatisfiesProperty(j, "schema_name", None, c.schemaName)
    && SatisfiesProperty(j, "schema_version", None, c.schemaVersion)
  }

  /** The value asked of an attribute. */
  function AskedValue(j: Json, n: string): Option<string> {
    Field(j, ValueKey(n))
  }

  /** Whether the presence of an attribute is asked. */
  predicate AskedMarker(j: Json, n: string) {
    Field(j, MarkerKey(n)) == Some("1")
  }

  ghost predicate SatisfiesValues(c: Credential, j: Json) {
    forall n :: AskedValue(j, n).Some? ==> n in c.values && c.values[n] == AskedValue(j, n).value
  }

  ghost predicate SatisfiesMarkers(c: Credential, j: Json) {
    forall n :: AskedMarker(j, n) ==> n in c.values
  }

  /** What a restriction of a request demands of a credential; a DID stands for the id it is an older name of. */
  ghost predicate Satisfies(c: Credential, j: Json) {
    SatisfiesProperties(c, j) && SatisfiesValues(c, j) && SatisfiesMarkers(c, j)
  }

  const FIELDS: set<string> := {"cred_def_id", "issuer_id", "issuer_did", "schema_id", "schema_issuer_id",
                                "schema_issuer_did", "schema_name", "schema_version"}

  ghost predicate NoEmptyField(j: Json) {
    forall k :: k in FIELDS && k in j ==> j[k] != ""
  }

  /** No field is empty, and every attribute name is non-empty and colon-free. */
  ghost predicate WellFormed(j: Json) {
    NoEmptyField(j) && NamesAreProper(j)
  }

  predicate ProperName(n: string) {
    n != "" && ColonFree(n)
  }

  ghost predicate NamesAreProper(j: Json) {
    forall n :: AskedValue(j, n).Some? || AskedMarker(j, n) ==> ProperName(n)
  }

  lemma NamesOfAttributes(j: Json, n: string)
    ensures n in AttributeNames(j) ==> ProperName(n)
    ensures ProperName(n) && (ValueKey(n) in j || MarkerKey(n) in j) ==> n in AttributeNames(j)
  {
    if n in AttributeNames(j) {
      var k :| k in j && !ParseKey(k).OtherKey? && ParseKey(k).name == n;
      ParsedKeyIsPrinted(k);
    }
    if ProperName(n) {
      ValueKeyParses(n);
      MarkerKeyParses(n);
      if ValueKey(n) in j { AttributeNamesAreParsed(j, ValueKey(n)); }
      if MarkerKey(n) in j { AttributeNamesAreParsed(j, MarkerKey(n)); }
    }
  }

  function ValueIn(values: map<string, string>, n: string): Option<string> {
    if n in values then Some(values[n]) else None
  }

  lemma ParsedAttributes(j: Json, n: string)
    ensures ValueIn(Values(j), n) == if ProperName(n) then AskedValue(j, n) else None
    ensures n in Markers(j) <==> AskedMarker(j, n) && ProperName(n)
  {
    NamesOfAttributes(j, n);
  }

  ghost predicate PropertiesAgree(r: Restriction, c: Credential) {
    forall p :: Wanted(r, p).Some? ==> Wanted(r, p).value == PropertyOf(c, p)
  }

  ghost predicate ValuesAgree(values: map<string, string>, c: Credential) {
    forall n :: n in values ==> n in c.values && c.values[n] == values[n]
  }

  ghost predicate MarkersAgree(markers: set<string>, c: Credential) {
    forall n :: n in markers ==> n in c.values
  }

  ghost predicate ElementsHold(store: Store, r: Restriction, c: Credential) {
    forall t :: ElementFor(store, r, t).Some? ==> TagFor(store, c, t) == ElementFor(store, r, t)
  }

  lemma MatchingIsByTag(store: Store, r: Restriction, c: Credential, tags: Tags)
    requires AreTagsOf(tags, store, c)
    ensures Matches(Simple(Elements(store, r)), tags) <==> ElementsHold(store, r, c)
  {
    var e := Elements(store, r);
    forall t ensures Lookup(e, t) == ElementFor(store, r, t) { ElementsByTag(store, r, t); }
    if Matches(Simple(e), tags) {
      forall t | ElementFor(store, r, t).Some? ensures TagFor(store, c, t) == ElementFor(store, r, t) {
        assert Lookup(e, t).Some? && Lookup(tags, t) == Some(e[t]);
      }
    }
    if ElementsHold(store, r, c) {
      forall t | t in e ensures Lookup(tags, t) == Some(e[t]) {
        assert Lookup(e, t) == Some(e[t]);
      }
    }
  }

  lemma ElementsHoldPartByPart(store: Store, r: Restriction, c: Credential)
    ensures ElementsHold(store, r, c) <==> PropertiesAgree(r, c) && ValuesAgree(r.values, c) && MarkersAgree(r.markers, c)
  {
    if ElementsHold(store, r, c) {
      forall p | Wanted(r, p).Some? ensures Wanted(r, p).value == PropertyOf(c, p) {
        assert ElementFor(store, r, About(store, p)).Some?;
      }
      forall n | n in r.values ensures n in c.values && c.values[n] == r.values[n] {
        assert ElementFor(store, r, Value(store, n)).Some?;
      }
      forall n | n in r.markers ensures n in c.values {
        assert ElementFor(store, r, Marker(store, n)).Some?;
      }
    }
  }

  lemma FieldIsWanted(j: Json, k: string)
    requires NoEmptyField(j) && k in FIELDS
    ensures (if Given(Field(j, k)) then Field(j, k) else None) == Field(j, k)
  {
  }

  /** What is wanted of a field that may be empty: an empty one is ignored, but an empty id hides the DID it has as an older
      name, so that an empty value is wanted. */
  lemma EmptyFieldsAreIgnored(j: Json)
    ensures var r := Parsed(j);
      && Wanted(r, CredDefId) == (if "cred_def_id" in j && j["cred_def_id"] != "" then Some(j["cred_def_id"]) else None)
      && Wanted(r, SchemaId) == (if "schema_id" in j && j["schema_id"] != "" then Some(j["schema_id"]) else None)
      && Wanted(r, SchemaName) == (if "schema_name" in j && j["schema_name"] != "" then Some(j["schema_name"]) else None)
      && Wanted(r, SchemaVersion)
         == (if "schema_version" in j && j["schema_version"] != "" then Some(j["schema_version"]) else None)
      && Wanted(r, IssuerId) == WantedOfEither(j, "issuer_id", "issuer_did")
      && Wanted(r, SchemaIssuerId) == WantedOfEither(j, "schema_issuer_id", "schema_issuer_did")
  {
  }

  /** Of an id and the DID that is its older name, the first that is there, if one of them is not empty. */
  function WantedOfEither(j: Json, id: string, did: string): Option<string> {
    var given := (id in j && j[id] != "") || (did in j && j[did] != "");
    if !given then None else if id in j then Some(j[id]) else Some(j[did])
  }

  lemma ParsedProperties(j: Json)
    requires NoEmptyField(j)
    ensures var r := Parsed(j);
      && Wanted(r, CredDefId) == Field(j, "cred_def_id")
      && Wanted(r, IssuerId) == (if "issuer_id" in j then Field(j, "issuer_id") else Field(j, "issuer_did"))
      && Wanted(r, SchemaId) == Field(j, "schema_id")
      && Wanted(r, SchemaIssuerId) ==
        (if "schema_issuer_id" in j then Field(j, "schema_issuer_id") else Field(j, "schema_issuer_did"))
      && Wanted(r, SchemaName) == Field(j, "schema_name")
      && Wanted(r, SchemaVersion) == Field(j, "schema_version")
  {
    FieldIsWanted(j, "cred_def_id");
    FieldIsWanted(j, "issuer_id");
    FieldIsWanted(j, "issuer_did");
    FieldIsWanted(j, "schema_id");
    FieldIsWanted(j, "schema_issuer_id");
    FieldIsWanted(j, "schema_issuer_did");
    FieldIsWanted(j, "schema_name");
    FieldIsWanted(j, "schema_version");
  }

  lemma PropertiesOneByOne(r: Restriction, c: Credential)
    ensures PropertiesAgree(r, c) <==>
      && (Wanted(r, CredDefId).Some? ==> Wanted(r, CredDefId).value == c.credDefId)
      && (Wanted(r, IssuerId).Some? ==> Wanted(r, IssuerId).value == c.issuerId)
      && (Wanted(r, SchemaId).Some? ==> Wanted(r, SchemaId).value == c.schemaId)
      && (Wanted(r, SchemaIssuerId).Some? ==> Wanted(r, SchemaIssuerId).value == c.schemaIssuerId)
      && (Wanted(r, SchemaName).Some? ==> Wanted(r, SchemaName).value == c.schemaName)
      && (Wanted(r, SchemaVersion).Some? ==> Wanted(r, SchemaVersion).value == c.schemaVersion)
  {
  }

  lemma PropertiesAgreeWhenSatisfied(c: Credential, j: Json)
    requires NoEmptyField(j)
    ensures PropertiesAgree(Parsed(j), c) <==> SatisfiesProperties(c, j)
  {
    ParsedProperties(j);
    PropertiesOneByOne(Parsed(j), c);
  }

  lemma AttributesAgreeWhenSatisfied(c: Credential, j: Json)
    requires NamesAreProper(j)
    ensures ValuesAgree(Values(j), c) <==> SatisfiesValues(c, j)
    ensures MarkersAgree(Markers(j), c) <==> SatisfiesMarkers(c, j)
  {
    forall n ensures ValueIn(Values(j), n) == AskedValue(j, n) && (n in Markers(j) <==> AskedMarker(j, n)) {
      ParsedAttributes(j, n);
    }
  }

  /** The compiled query of one restriction matches a record exactly when the credential satisfies the restriction,
      in either store. */
  lemma CompiledRestrictionIsExact(store: Store, c: Credential, tags: Tags, j: Json)
    requires WellFormed(j) && AreTagsOf(tags, store, c)
    ensures Matches(CompiledOne(store, j), tags) <==> Satisfies(c, j)
  {
    var r := Parsed(j);
    MatchingIsByTag(store, r, c, tags);
    ElementsHoldPartByPart(store, r, c);
    PropertiesAgreeWhenSatisfied(c, j);
    AttributesAgreeWhenSatisfied(c, j);
  }

  ghost predicate AllWellFormed(restrictions: seq<Json>) {
    forall i :: 0 <= i < |restrictions| ==> WellFormed(restrictions[i])
  }

  ghost predicate SatisfiesOne(c: Credential, restrictions: seq<Json>) {
    exists i :: 0 <= i < |restrictions| && Satisfies(c, restrictions[i])
  }

  ghost predicate Qualifies(c: Credential, names: seq<string>, restrictions: seq<Json>) {
    && (forall n :: n in names ==> n in c.values)
    && SatisfiesOne(c, restrictions)
  }

  lemma AlternativesMatch(qs: seq<Query>, tags: Tags, expected: seq<bool>)
    requires |qs| == |expected| > 0 && forall i :: 0 <= i < |qs| ==> Matches(qs[i], tags) == expected[i]
    ensures Matches(if |qs| == 1 then qs[0] else Or(qs), tags) <==> true in expected
  {
    if |qs| == 1 {
      assert expected[0] in expected;
    } else {
      if i :| 0 <= i < |qs| && Matches(qs[i], tags) { assert expected[i]; }
      if i :| 0 <= i < |qs| && expected[i] { assert Matches(qs[i], tags); }
    }
  }

  ghost function Verdicts(c: Credential, restrictions: seq<Json>): seq<bool> {
    seq(|restrictions|, i requires 0 <= i < |restrictions| => Satisfies(c, restrictions[i]))
  }

  lemma VerdictsDecide(c: Credential, restrictions: seq<Json>)
    ensures true in Verdicts(c, restrictions) <==> SatisfiesOne(c, restrictions)
  {
    var v := Verdicts(c, restrictions);
    if i :| 0 <= i < |restrictions| && Satisfies(c, restrictions[i]) { assert v[i]; }
  }

  lemma MatchIsVerdict(store: Store, c: Credential, tags: Tags, restrictions: seq<Json>, i: nat)
    requires i < |restrictions| && AllWellFormed(restrictions) && AreTagsOf(tags, store, c)
    ensures Matches(Compiled(store, restrictions)[i], tags) == Verdicts(c, restrictions)[i]
  {
    CompiledRestrictionIsExact(store, c, tags, restrictions[i]);
  }

  lemma RestrictionListIsExact(store: Store, c: Credential, tags: Tags, restrictions: seq<Json>)
    requires restrictions != [] && AllWellFormed(restrictions) && AreTagsOf(tags, store, c)
    ensures Matches(RestrictionQuery(store, restrictions), tags) <==> SatisfiesOne(c, restrictions)
  {
    var qs, expected := Compiled(store, restrictions), Verdicts(c, restrictions);
    forall i | 0 <= i < |qs| ensures Matches(qs[i], tags) == expected[i] {
      MatchIsVerdict(store, c, tags, restrictions, i);
    }
    AlternativesMatch(qs, tags, expected);
    VerdictsDecide(c, restrictions);
  }

  lemma ReferentQueryPartByPart(store: Store, names: seq<string>, restrictions: seq<Json>, tags: Tags)
    ensures Matches(ReferentQuery(store, names, Some(restrictions)), tags) <==>
            Matches(Simple(MarkerElements(names)), tags) && Matches(RestrictionQuery(store, restrictions), tags)
  {
    var q := ReferentQuery(store, names, Some(restrictions));
    assert q.queries == [Simple(MarkerElements(names)), RestrictionQuery(store, restrictions)];
    assert Matches(q, tags) <==> Matches(q.queries[0], tags) && Matches(q.queries[1], tags);
  }

  lemma MarkersMatch(store: Store, c: Credential, tags: Tags, names: seq<string>)
    requires AreTagsOf(tags, store, c)
    ensures Matches(Simple(MarkerElements(names)), tags) <==>
            names == [] || (store == W3c && forall n :: n in names ==> n in c.values)
  {
    var e := MarkerElements(names);
    forall n ensures n in names <==> Marker(W3c, n) in e {}
    if Matches(Simple(e), tags) {
      forall n | n in names ensures store == W3c && n in c.values {
        assert Lookup(tags, Marker(W3c, n)) == TagFor(store, c, Marker(W3c, n));
      }
      if names != [] { assert names[0] in names; }
    }
  }

  /** A W3C credential record is found exactly when the credential has all requested attributes and satisfies at least
      one restriction. */
  lemma W3cQueryIsExact(c: Credential, tags: Tags, names: seq<string>, restrictions: seq<Json>)
    requires restrictions != [] && AllWellFormed(restrictions) && AreTagsOf(tags, W3c, c)
    ensures Matches(ReferentQuery(W3c, names, Some(restrictions)), tags) <==> Qualifies(c, names, restrictions)
  {
    ReferentQueryPartByPart(W3c, names, restrictions, tags);
    MarkersMatch(W3c, c, tags, names);
    RestrictionListIsExact(W3c, c, tags, restrictions);
  }

  /** A legacy record is never found when an attribute is requested, because it carries no marker of the W3C store. So
      the legacy query is right for a credential exactly when none is requested or the credential does not qualify. */
  lemma LegacyQueryIsExactOnlyWithoutAttributes(c: Credential, tags: Tags, names: seq<string>, restrictions: seq<Json>)
    requires restrictions != [] && AllWellFormed(restrictions) && AreTagsOf(tags, Legacy, c)
    ensures Matches(ReferentQuery(Legacy, names, Some(restrictions)), tags) <==>
            names == [] && Qualifies(c, names, restrictions)
    ensures (Matches(ReferentQuery(Legacy, names, Some(restrictions)), tags) <==> Qualifies(c, names, restrictions)) <==>
            names == [] || !Qualifies(c, names, restrictions)
  {
    ReferentQueryPartByPart(Legacy, names, restrictions, tags);
    MarkersMatch(Legacy, c, tags, names);
    RestrictionListIsExact(Legacy, c, tags, restrictions);
  }

  /** Without restrictions a record is found in the W3C store exactly when its credential has all requested attributes, and
      in the legacy store exactly when none is requested. */
  lemma UnrestrictedQueryIsExact(store: Store, c: Credential, tags: Tags, names: seq<string>)
    requires AreTagsOf(tags, store, c)
    ensures Matches(ReferentQuery(store, names, None), tags) <==>
            names == [] || (store == W3c && forall n :: n in names ==> n in c.values)
  {
    var q := ReferentQuery(store, names, None);
    assert q.queries == [Simple(MarkerElements(names))];
    assert Matches(q, tags) <==> Matches(q.queries[0], tags);
    MarkersMatch(store, c, tags, names);
  }

  /** A credential with a requested attribute, and a restriction that demands nothing: it is found in the W3C store, and
      its record in the legacy store is not. */
  lemma LegacyRecordIsNotFound(c: Credential, name: string, w3c: Tags, legacy: Tags)
    requires name in c.values && AreTagsOf(w3c, W3c, c) && AreTagsOf(legacy, Legacy, c)
    ensures Matches(ReferentQuery(W3c, [name], Some([map[]])), w3c)
    ensures !Matches(ReferentQuery(Legacy, [name], Some([map[]])), legacy)
  {
    assert WellFormed(map[]);
    DemandsNothing(c);
    assert Satisfies(c, [map[]][0]);
    W3cQueryIsExact(c, w3c, [name], [map[]]);
    LegacyQueryIsExactOnlyWithoutAttributes(c, legacy, [name], [map[]]);
  }

  lemma DemandsNothing(c: Credential)
    ensures Satisfies(c, map[])
  {
  }

  /** The two compilers of restrictions agree: each finds a credential in its own store exactly when the other does. */
  lemma CompilersAgree(c: Credential, w3c: Tags, legacy: Tags, restrictions: seq<Json>)
    requires restrictions != [] && AllWellFormed(restrictions)
    requires AreTagsOf(w3c, W3c, c) && AreTagsOf(legacy, Legacy, c)
    ensures Matches(RestrictionQuery(W3c, restrictions), w3c) <==> Matches(RestrictionQuery(Legacy, restrictions), legacy)
  {
    RestrictionListIsExact(W3c, c, w3c, restrictions);
    RestrictionListIsExact(Legacy, c, legacy, restrictions);
  }

  // ---- Printing a restriction again ----

  /** The attribute part of the JSON form of these values and markers. */
  ghost predicate Prints(j: Json, values: map<string, string>, markers: set<string>) {
    && (forall k :: k in j ==> (exists n :: n in values && k == ValueKey(n)) || (exists n :: n in markers && k == MarkerKey(n)))
    && (forall n :: n in values ==> ValueKey(n) in j && j[ValueKey(n)] == values[n])
    && (forall n :: n in markers ==> MarkerKey(n) in j && j[MarkerKey(n)] == "1")
  }

  lemma OnlyPrintedKeysAreThere(j: Json, values: map<string, string>, markers: set<string>, n: string)
    requires Prints(j, values, markers) && ProperName(n)
    requires forall n :: n in values || n in markers ==> ProperName(n)
    ensures AskedValue(j, n) == ValueIn(values, n)
    ensures AskedMarker(j, n) <==> n in markers
  {
    ValueKeyParses(n);
    MarkerKeyParses(n);
    forall m | m in values || m in markers
      ensures ParseKey(ValueKey(m)) == ValueOf(m) && ParseKey(MarkerKey(m)) == MarkerOf(m)
    {
      ValueKeyParses(m);
      MarkerKeyParses(m);
    }
  }

  /** Parsing what was printed gives the attribute values and markers back. */
  lemma ParseAfterPrint(j: Json, values: map<string, string>, markers: set<string>)
    requires Prints(j, values, markers)
    requires forall n :: n in values || n in markers ==> ProperName(n)
    ensures Values(j) == values && Markers(j) == markers
  {
    forall n ensures ValueIn(Values(j), n) == ValueIn(values, n) && (n in Markers(j) <==> n in markers) {
      ParsedAttributes(j, n);
      if ProperName(n) { OnlyPrintedKeysAreThere(j, values, markers, n); }
    }
    SameValuesAreEqual(Values(j), values);
  }

  lemma SameValuesAreEqual(a: map<string, string>, b: map<string, string>)
    requires forall n :: ValueIn(a, n) == ValueIn(b, n)
    ensures a == b
  {
    assert forall n :: n in a ==> ValueIn(a, n).Some? && ValueIn(b, n) == Some(a[n]);
    assert forall n :: n in b ==> ValueIn(b, n).Some? && ValueIn(a, n) == Some(b[n]);
  }
}
