/** Building an AnonCreds proof request from a presentation definition and the credentials selected for it. */
module PresentationRequest {
  import opened Wrappers
  import opened Decimal

  // ---- Definitions and submissions ----

  datatype Keyword = Type | Minimum | Maximum | ExclusiveMinimum | ExclusiveMaximum | Unsupported(name: string)

  /** An entry of a field's filter; the value of `type` is never looked at. */
  datatype Entry = Entry(key: Keyword, value: int)

  /** A field that is marked as a predicate compares the claim instead of asking for it. Whether it is optional is never
      looked at. */
  datatype Field = Field(path: Option<seq<string>>, comparing: bool, filter: Option<seq<Entry>>, optional: bool)

  /** Active stands for an active status that is allowed or required. */
  datatype Statuses = NoStatuses | Active | OtherStatuses

  datatype Descriptor = Descriptor(id: string, fields: Option<seq<Field>>, statuses: Statuses)

  datatype Credential = Credential(document: int, schemaId: string, credDefId: string, revRegId: Option<string>)

  /** A descriptor of the definition and the nodes its path extracts from the selected credentials. */
  datatype Mapping = Mapping(id: string, nodes: seq<Credential>)

  datatype Error =
    | DescriptorNotFound | NoFields | NotExtracted | NotSelected | UnsupportedStatus | NotRevocable
    | NoPath | NoFilter | UnsupportedKeyword(name: string)

  // ---- Filters and predicates ----

  datatype Comparison = Greater | Less | AtLeast | AtMost

  predicate Holds(p: Comparison, claim: int, bound: int) {
    match p
    case Greater => claim > bound
    case Less => claim < bound
    case AtLeast => claim >= bound
    case AtMost => claim <= bound
  }

  /** A number is valid against a numeric keyword (draft-07 validation, section 6.2). */
  predicate EntryValid(e: Entry, claim: int) {
    && (e.key.Minimum? ==> e.value <= claim)
    && (e.key.Maximum? ==> claim <= e.value)
    && (e.key.ExclusiveMinimum? ==> e.value < claim)
    && (e.key.ExclusiveMaximum? ==> claim < e.value)
  }

  ghost predicate Valid(filter: seq<Entry>, claim: int) {
    forall e :: e in filter ==> EntryValid(e, claim)
  }

  datatype Bound = Bound(comparison: Comparison, value: int)

  function ComparisonFor(key: Keyword): Option<Comparison> {
    match key
    case Minimum => Some(AtLeast)
    case Maximum => Some(AtMost)
    case ExclusiveMinimum => Some(Greater)
    case ExclusiveMaximum => Some(Less)
    case _ => None
  }

  function BoundsOf(filter: seq<Entry>): Result<seq<Bound>, Error> {
    if filter == [] then Ok([]) else
    var last := filter[|filter| - 1];
    match BoundsOf(filter[..|filter| - 1])
    case Err(e) => Err(e)
    case Ok(bounds) =>
      if last.key.Type? then Ok(bounds)
      else if last.key.Unsupported? then Err(UnsupportedKeyword(last.key.name))
      else Ok(bounds + [Bound(ComparisonFor(last.key).value, last.value)])
  }

  lemma {:induction false} BoundsOfPrefix(filter: seq<Entry>, n: nat)
    requires n <= |filter| && BoundsOf(filter[..n]).Err?
    ensures BoundsOf(filter) == BoundsOf(filter[..n])
  {
    if n == |filter| {
      assert filter[..n] == filter;
    } else {
      assert filter[..|filter| - 1][..n] == filter[..n];
      BoundsOfPrefix(filter[..|filter| - 1], n);
    }
  }

  method GetPredicateTypeAndValues(filter: seq<Entry>) returns (bounds: Result<seq<Bound>, Error>)
    ensures bounds == BoundsOf(filter)
  {
    var predicates := [];
    for i := 0 to |filter|
      invariant BoundsOf(filter[..i]) == Ok(predicates)
    {
      assert filter[..i + 1][..i] == filter[..i];
      var key := filter[i].key;
      if key.Type? { continue; }
      if key.Unsupported? {
        BoundsOfPrefix(filter, i + 1);
        return Err(UnsupportedKeyword(key.name));
      }
      predicates := predicates + [Bound(ComparisonFor(key).value, filter[i].value)];
    }
    assert filter[..|filter|] == filter;
    bounds := Ok(predicates);
  }

  ghost predicate BoundsHold(bounds: seq<Bound>, claim: int) {
    forall b :: b in bounds ==> Holds(b.comparison, claim, b.value)
  }

  predicate IsBoundOf(e: Entry, b: Bound) {
    ComparisonFor(e.key) == Some(b.comparison) && e.value == b.value
  }

  /** The bounds are exactly those of the numeric entries. */
  lemma {:induction false} BoundsAreOfEntries(filter: seq<Entry>, b: Bound)
    requires BoundsOf(filter).Ok?
    ensures b in BoundsOf(filter).value <==> exists e :: e in filter && IsBoundOf(e, b)
  {
    if filter != [] {
      var before, last := filter[..|filter| - 1], filter[|filter| - 1];
      BoundsAreOfEntries(before, b);
      assert forall e :: e in filter <==> e in before || e == last;
      if last.key.Type? {
        assert !IsBoundOf(last, b);
      } else {
        var l := Bound(ComparisonFor(last.key).value, last.value);
        assert BoundsOf(filter).value == BoundsOf(before).value + [l];
        assert b == l <==> IsBoundOf(last, b);
      }
      if IsBoundOf(last, b) { assert last in filter; }
    }
  }

  lemma {:induction false} EntriesAreSupported(filter: seq<Entry>, e: Entry)
    requires BoundsOf(filter).Ok? && e in filter
    ensures !e.key.Unsupported?
  {
    if e in filter[..|filter| - 1] { EntriesAreSupported(filter[..|filter| - 1], e); }
  }

  lemma BoundMeansTheEntry(e: Entry, b: Bound, claim: int)
    requires IsBoundOf(e, b)
    ensures Holds(b.comparison, claim, b.value) <==> EntryValid(e, claim)
  {
  }

  lemma ValidWhenBoundsHold(filter: seq<Entry>, e: Entry, claim: int)
    requires BoundsOf(filter).Ok? && BoundsHold(BoundsOf(filter).value, claim) && e in filter
    ensures EntryValid(e, claim)
  {
    EntriesAreSupported(filter, e);
    if !e.key.Type? {
      var b := Bound(ComparisonFor(e.key).value, e.value);
      BoundsAreOfEntries(filter, b);
      BoundMeansTheEntry(e, b, claim);
    }
  }

  lemma BoundHoldsWhenValid(filter: seq<Entry>, b: Bound, claim: int)
    requires BoundsOf(filter).Ok? && Valid(filter, claim) && b in BoundsOf(filter).value
    ensures Holds(b.comparison, claim, b.value)
  {
    BoundsAreOfEntries(filter, b);
    var e :| e in filter && IsBoundOf(e, b);
    BoundMeansTheEntry(e, b, claim);
  }

  /** The bounds of a filter hold of exactly the numbers that are valid against it. */
  lemma {:induction false} BoundsMeanTheFilter(filter: seq<Entry>, claim: int)
    requires BoundsOf(filter).Ok?
    ensures BoundsHold(BoundsOf(filter).value, claim) <==> Valid(filter, claim)
  {
    if BoundsHold(BoundsOf(filter).value, claim) {
      forall e | e in filter ensures EntryValid(e, claim) { ValidWhenBoundsHold(filter, e, claim); }
    }
    if Valid(filter, claim) {
      forall b | b in BoundsOf(filter).value ensures Holds(b.comparison, claim, b.value) {
        BoundHoldsWhenValid(filter, b, claim);
      }
    }
  }

  // ---- Claim names ----

  const SUBJECT: string := "$.credentialSubject."

  predicate UnderSubject(path: string) {
    |path| >= |SUBJECT| && path[..|SUBJECT|] == SUBJECT
  }

  /** The rest of the first path under the credential subject. */
  function ClaimName(paths: seq<string>): (name: Option<string>)
    ensures name.None? <==> forall p :: p in paths ==> !UnderSubject(p)
    ensures name.Some? ==> exists i :: 0 <= i < |paths| && paths[i] == SUBJECT + name.value
                                       && forall j :: 0 <= j < i ==> !UnderSubject(paths[j])
  {
    if paths == [] then None
    else if UnderSubject(paths[0]) then
      assert paths[0] == SUBJECT + paths[0][|SUBJECT|..];
      Some(paths[0][|SUBJECT|..])
    else
      var rest := ClaimName(paths[1..]);
      assert rest.None? ==> forall p :: p in paths ==> p == paths[0] || p in paths[1..];
      assert rest.Some? ==> exists i :: 1 <= i < |paths| && paths[i] == SUBJECT + rest.value
                                        && forall j :: 0 <= j < i ==> !UnderSubject(paths[j]) by {
        if rest.Some? {
          var i :| 0 <= i < |paths[1..]| && paths[1..][i] == SUBJECT + rest.value
                   && forall j :: 0 <= j < i ==> !UnderSubject(paths[1..][j]);
          assert paths[i + 1] == SUBJECT + rest.value;
          assert forall j :: 0 < j < i + 1 ==> paths[j] == paths[1..][j - 1];
        }
      }
      rest
  }

  /** A field without a usable claim name is skipped. */
  predicate Skipped(f: Field)
    requires f.path.Some?
  {
    ClaimName(f.path.value).GetOr("") == ""
  }

  // ---- What a descriptor asks for, whichever credential is selected for it ----

  datatype Shape =
    | Predicate(index: nat, name: string, bound: Bound)
    | Attribute(name: string)

  function PredicateCount(shapes: seq<Shape>): nat {
    if shapes == [] then 0
    else PredicateCount(shapes[..|shapes| - 1]) + (if shapes[|shapes| - 1].Predicate? then 1 else 0)
  }

  function PredicateShapes(name: string, bounds: seq<Bound>, next: nat): seq<Shape> {
    seq(|bounds|, k requires 0 <= k < |bounds| => Predicate(next + k, name, bounds[k]))
  }

  function ShapesOfField(f: Field, next: nat): Result<seq<Shape>, Error> {
    if f.path.None? then Err(NoPath)
    else if Skipped(f) then Ok([])
    else if !f.comparing then Ok([Attribute(ClaimName(f.path.value).value)])
    else if f.filter.None? then Err(NoFilter)
    else match BoundsOf(f.filter.value)
      case Err(e) => Err(e)
      case Ok(bounds) => Ok(PredicateShapes(ClaimName(f.path.value).value, bounds, next))
  }

  function Shapes(fields: seq<Field>): Result<seq<Shape>, Error> {
    if fields == [] then Ok([])
    else match Shapes(fields[..|fields| - 1])
      case Err(e) => Err(e)
      case Ok(shapes) =>
        match ShapesOfField(fields[|fields| - 1], PredicateCount(shapes))
        case Err(e) => Err(e)
        case Ok(more) => Ok(shapes + more)
  }

  lemma {:induction false} ShapesOfPrefix(fields: seq<Field>, n: nat)
    requires n <= |fields| && Shapes(fields[..n]).Err?
    ensures Shapes(fields) == Shapes(fields[..n])
  {
    if n == |fields| {
      assert fields[..n] == fields;
    } else {
      assert fields[..|fields| - 1][..n] == fields[..n];
      ShapesOfPrefix(fields[..|fields| - 1], n);
    }
  }

  lemma {:induction false} CountAppend(a: seq<Shape>, b: seq<Shape>)
    ensures PredicateCount(a + b) == PredicateCount(a) + PredicateCount(b)
  {
    if b == [] {
      assert a + b == a;
    } else {
      assert (a + b)[..|a + b| - 1] == a + b[..|b| - 1];
      CountAppend(a, b[..|b| - 1]);
    }
  }

  lemma {:induction false} CountPredicates(name: string, bounds: seq<Bound>, next: nat)
    ensures PredicateCount(PredicateShapes(name, bounds, next)) == |bounds|
  {
    if bounds != [] {
      var n := |bounds| - 1;
      CountPredicates(name, bounds[..n], next);
      assert PredicateShapes(name, bounds, next)[..n] == PredicateShapes(name, bounds[..n], next);
    }
  }

  /** Each predicate of a descriptor has an index of its own, below their number. */
  ghost predicate Numbered(shapes: seq<Shape>) {
    && (forall s :: s in shapes && s.Predicate? ==> s.index < PredicateCount(shapes))
    && (forall i, j :: 0 <= i < j < |shapes| && shapes[i].Predicate? && shapes[j].Predicate? ==>
                         shapes[i].index != shapes[j].index)
  }

  lemma {:induction false} ShapesAreNumbered(fields: seq<Field>)
    requires Shapes(fields).Ok?
    ensures Numbered(Shapes(fields).value)
  {
    if fields != [] {
      var f := fields[|fields| - 1];
      ShapesAreNumbered(fields[..|fields| - 1]);
      var shapes := Shapes(fields[..|fields| - 1]).value;
      var more := ShapesOfField(f, PredicateCount(shapes)).value;
      CountAppend(shapes, more);
      if f.comparing && !Skipped(f) {
        CountPredicates(ClaimName(f.path.value).value, BoundsOf(f.filter.value).value, PredicateCount(shapes));
      }
      assert forall s :: s in more && s.Predicate? ==> PredicateCount(shapes) <= s.index < PredicateCount(shapes + more);
      assert forall i :: 0 <= i < |shapes| && shapes[i].Predicate? ==> shapes[i].index < PredicateCount(shapes);
    }
  }

  /** The positions of predicates before a position. */
  function PredicatesBefore(shapes: seq<Shape>, i: nat): set<nat>
    requires i <= |shapes|
  {
    set j: nat | j < i && shapes[j].Predicate?
  }

  lemma {:induction false} CountIsTheirNumber(shapes: seq<Shape>)
    ensures PredicateCount(shapes) == |PredicatesBefore(shapes, |shapes|)|
  {
    if shapes != [] {
      var n := |shapes| - 1;
      CountIsTheirNumber(shapes[..n]);
      assert PredicatesBefore(shapes, n + 1)
          == PredicatesBefore(shapes[..n], n) + (if shapes[n].Predicate? then {n} else {});
      assert n !in PredicatesBefore(shapes[..n], n);
    }
  }

  // The predicates of one field are numbered from the next index on.
  lemma FieldIsNumbered(shapes: seq<Shape>, f: Field, i: nat)
    requires ShapesOfField(f, PredicateCount(shapes)).Ok?
    requires |shapes| <= i < |shapes + ShapesOfField(f, PredicateCount(shapes)).value|
    requires (shapes + ShapesOfField(f, PredicateCount(shapes)).value)[i].Predicate?
    ensures var all := shapes + ShapesOfField(f, PredicateCount(shapes)).value;
      all[i].index == PredicateCount(all[..i])
  {
    var next := PredicateCount(shapes);
    var more := ShapesOfField(f, next).value;
    var all, k := shapes + more, i - |shapes|;
    var name, bounds := ClaimName(f.path.value).value, BoundsOf(f.filter.value).value;
    assert more == PredicateShapes(name, bounds, next);
    CountPredicates(name, bounds[..k], next);
    assert PredicateShapes(name, bounds, next)[..k] == PredicateShapes(name, bounds[..k], next);
    assert all[..i] == shapes + more[..k];
    CountAppend(shapes, more[..k]);
  }

  /** The predicates of a descriptor are numbered from zero on, in their order and over all its fields. */
  lemma {:induction false} PredicatesAreNumberedInOrder(fields: seq<Field>, i: nat)
    requires Shapes(fields).Ok? && i < |Shapes(fields).value| && Shapes(fields).value[i].Predicate?
    ensures Shapes(fields).value[i].index == |PredicatesBefore(Shapes(fields).value, i)|
  {
    var n, all := |fields| - 1, Shapes(fields).value;
    var shapes := Shapes(fields[..n]).value;
    if i < |shapes| {
      PredicatesAreNumberedInOrder(fields[..n], i);
      assert PredicatesBefore(all, i) == PredicatesBefore(shapes, i);
    } else {
      FieldIsNumbered(shapes, fields[n], i);
      CountIsTheirNumber(all[..i]);
      assert PredicatesBefore(all[..i], i) == PredicatesBefore(all, i);
    }
  }

  // ---- Selecting a credential for a descriptor ----

  function DescriptorOf(definition: seq<Descriptor>, id: string): (d: Option<Descriptor>)
    ensures d.Some? ==> exists i :: 0 <= i < |definition| && definition[i] == d.value && d.value.id == id
                                    && forall j :: 0 <= j < i ==> definition[j].id != id
    ensures d.None? ==> forall x :: x in definition ==> x.id != id
  {
    if definition == [] then None
    else if definition[0].id == id then Some(definition[0])
    else
      var rest := DescriptorOf(definition[1..], id);
      assert forall x :: x in definition <==> x == definition[0] || x in definition[1..];
      assert rest.Some? ==> exists i :: 1 <= i < |definition| && definition[i] == rest.value && rest.value.id == id
                                        && forall j :: 0 <= j < i ==> definition[j].id != id by {
        if rest.Some? {
          var i :| 0 <= i < |definition[1..]| && definition[1..][i] == rest.value
                   && forall j :: 0 <= j < i ==> definition[1..][j].id != id;
          assert definition[i + 1] == rest.value;
          assert forall j :: 0 < j < i + 1 ==> definition[j] == definition[1..][j - 1];
        }
      }
      rest
  }

  function IndexOf(credentials: seq<Credential>, c: Credential): (i: Option<nat>)
    ensures i.Some? ==> i.value < |credentials| && credentials[i.value] == c && c !in credentials[..i.value]
    ensures i.None? ==> c !in credentials
  {
    if credentials == [] then None
    else if credentials[0] == c then Some(0)
    else
      var rest := IndexOf(credentials[1..], c);
      assert rest.Some? ==> credentials[..rest.value + 1] == [credentials[0]] + credentials[1..][..rest.value];
      if rest.Some? then Some(rest.value + 1) else None
  }

  datatype Context = Context(id: string, entryIndex: nat, credDefId: string, nonRevoked: Option<nat>)

  /** The moment at which the credential for a descriptor must not be revoked, if its status is asked for. */
  function AskedInterval(definition: seq<Descriptor>, now: nat, id: string): Option<nat>
    requires DescriptorOf(definition, id).Some?
  {
    if DescriptorOf(definition, id).value.statuses == Active then Some(now) else None
  }

  datatype Resolved = Resolved(context: Context, fields: seq<Field>)

  function Resolve(definition: seq<Descriptor>, credentials: seq<Credential>, now: nat, m: Mapping)
    : (r: Result<Resolved, Error>)
    ensures r.Ok? ==>
      && r.value.context.id == m.id && |m.nodes| == 1
      && r.value.context.entryIndex < |credentials| && credentials[r.value.context.entryIndex] == m.nodes[0]
      && r.value.context.credDefId == m.nodes[0].credDefId
      && (r.value.context.nonRevoked.Some? ==> m.nodes[0].revRegId.GetOr("") != "")
      && DescriptorOf(definition, m.id).Some?
      && DescriptorOf(definition, m.id).value.fields == Some(r.value.fields)
      && r.value.context.nonRevoked == AskedInterval(definition, now, m.id)
  {
    var d := DescriptorOf(definition, m.id);
    if d.None? then Err(DescriptorNotFound)
    else if d.value.fields.None? then Err(NoFields)
    else if |m.nodes| != 1 then Err(NotExtracted)
    else if IndexOf(credentials, m.nodes[0]).None? then Err(NotSelected)
    else if d.value.statuses.OtherStatuses? then Err(UnsupportedStatus)
    else if d.value.statuses.Active? && m.nodes[0].revRegId.GetOr("") == "" then Err(NotRevocable)
    else
      Ok(Resolved(
           Context(m.id, IndexOf(credentials, m.nodes[0]).value, m.nodes[0].credDefId,
                   if d.value.statuses.Active? then Some(now) else None),
           d.value.fields.value))
  }

  /** Each error of a mapping has its condition; they are looked at in this order, for the first descriptor of that id,
      and without any the mapping is resolved. */
  lemma ResolveFailsExactlyWhen(
    definition: seq<Descriptor>, credentials: seq<Credential>, now: nat, m: Mapping, i: nat)
    requires i <= |definition| && forall j :: 0 <= j < i ==> definition[j].id != m.id
    requires i < |definition| ==> definition[i].id == m.id
    ensures var r := Resolve(definition, credentials, now, m);
      if i == |definition| then r == Err(DescriptorNotFound)
      else
        var d := definition[i];
        if d.fields.None? then r == Err(NoFields)
        else if |m.nodes| != 1 then r == Err(NotExtracted)
        else if m.nodes[0] !in credentials then r == Err(NotSelected)
        else if d.statuses == OtherStatuses then r == Err(UnsupportedStatus)
        else if d.statuses == Active && (m.nodes[0].revRegId == None || m.nodes[0].revRegId == Some(""))
          then r == Err(NotRevocable)
        else
          && r.Ok? && r.value.fields == d.fields.value && r.value.context.id == m.id
          && (r.value.context.nonRevoked == if d.statuses == Active then Some(now) else None)
  {
    DescriptorIsTheFirst(definition, m.id, i);
  }

  lemma DescriptorIsTheFirst(definition: seq<Descriptor>, id: string, i: nat)
    requires i <= |definition| && forall j :: 0 <= j < i ==> definition[j].id != id
    requires i < |definition| ==> definition[i].id == id
    ensures DescriptorOf(definition, id) == if i < |definition| then Some(definition[i]) else None
  {
  }

  /** The first keyword of a filter that is neither numeric nor `type`. */
  predicate FirstRefused(filter: seq<Entry>, i: nat, name: string) {
    i < |filter| && filter[i].key == Unsupported(name) && forall j :: 0 <= j < i ==> !filter[j].key.Unsupported?
  }

  lemma {:induction false} SupportedHasBounds(filter: seq<Entry>)
    requires forall j :: 0 <= j < |filter| ==> !filter[j].key.Unsupported?
    ensures BoundsOf(filter).Ok?
  {
    if filter != [] { SupportedHasBounds(filter[..|filter| - 1]); }
  }

  lemma FirstRefusedFails(filter: seq<Entry>, i: nat, name: string)
    requires FirstRefused(filter, i, name)
    ensures BoundsOf(filter) == Err(UnsupportedKeyword(name))
  {
    SupportedHasBounds(filter[..i]);
    assert filter[..i + 1][..i] == filter[..i];
    BoundsOfPrefix(filter, i + 1);
  }

  lemma {:induction false} RefusedHasAFirst(filter: seq<Entry>) returns (i: nat, name: string)
    requires BoundsOf(filter).Err?
    ensures FirstRefused(filter, i, name)
  {
    var n := |filter| - 1;
    if BoundsOf(filter[..n]).Err? {
      i, name := RefusedHasAFirst(filter[..n]);
    } else {
      i, name := n, filter[n].key.name;
      forall j | 0 <= j < n ensures !filter[j].key.Unsupported? {
        assert filter[j] in filter[..n];
        EntriesAreSupported(filter[..n], filter[j]);
      }
    }
  }

  /** What is wrong with a field: it has no path; or it is a predicate field with a claim name that has no filter, or one
      with a keyword that is refused. */
  ghost predicate IsWrong(f: Field, e: Error) {
    if f.path.None? then e == NoPath
    else
      && f.comparing && ClaimName(f.path.value).GetOr("") != ""
      && (f.filter.None? ==> e == NoFilter)
      && (f.filter.Some? ==> exists i: nat, name :: FirstRefused(f.filter.value, i, name) && e == UnsupportedKeyword(name))
  }

  lemma FieldFailsExactlyWhen(f: Field, next: nat, e: Error)
    ensures ShapesOfField(f, next) == Err(e) <==> IsWrong(f, e)
  {
    if f.filter.Some? {
      if i: nat, name :| FirstRefused(f.filter.value, i, name) && e == UnsupportedKeyword(name) {
        FirstRefusedFails(f.filter.value, i, name);
      }
      if BoundsOf(f.filter.value) == Err(e) {
        var i, name := RefusedHasAFirst(f.filter.value);
        FirstRefusedFails(f.filter.value, i, name);
      }
    }
  }

  /** The first wrong field, and what is wrong with it. */
  ghost predicate FirstWrong(fields: seq<Field>, i: nat, e: Error) {
    i < |fields| && IsWrong(fields[i], e) && forall j :: 0 <= j < i ==> IsRight(fields[j])
  }

  ghost predicate IsRight(f: Field) {
    forall e :: !IsWrong(f, e)
  }

  lemma RightExactlyWhenCompiled(f: Field, next: nat)
    ensures IsRight(f) <==> ShapesOfField(f, next).Ok?
  {
    forall e ensures ShapesOfField(f, next) == Err(e) <==> IsWrong(f, e) { FieldFailsExactlyWhen(f, next, e); }
    if ShapesOfField(f, next).Err? { assert IsWrong(f, ShapesOfField(f, next).error); }
  }

  lemma {:induction false} RightFieldsCompile(fields: seq<Field>)
    requires forall j :: 0 <= j < |fields| ==> IsRight(fields[j])
    ensures Shapes(fields).Ok?
  {
    if fields != [] {
      var n := |fields| - 1;
      RightFieldsCompile(fields[..n]);
      RightExactlyWhenCompiled(fields[n], PredicateCount(Shapes(fields[..n]).value));
    }
  }

  lemma {:induction false} CompiledFieldsAreRight(fields: seq<Field>, j: nat)
    requires Shapes(fields).Ok? && j < |fields|
    ensures IsRight(fields[j])
  {
    var n := |fields| - 1;
    if j < n {
      CompiledFieldsAreRight(fields[..n], j);
    } else {
      RightExactlyWhenCompiled(fields[n], PredicateCount(Shapes(fields[..n]).value));
    }
  }

  lemma FirstWrongFails(fields: seq<Field>, i: nat, e: Error)
    requires FirstWrong(fields, i, e)
    ensures Shapes(fields) == Err(e)
  {
    RightFieldsCompile(fields[..i]);
    assert fields[..i + 1][..i] == fields[..i];
    FieldFailsExactlyWhen(fields[i], PredicateCount(Shapes(fields[..i]).value), e);
    ShapesOfPrefix(fields, i + 1);
  }

  lemma {:induction false} FailureHasAFirst(fields: seq<Field>) returns (i: nat)
    requires Shapes(fields).Err?
    ensures FirstWrong(fields, i, Shapes(fields).error)
  {
    var n := |fields| - 1;
    if Shapes(fields[..n]).Err? {
      i := FailureHasAFirst(fields[..n]);
    } else {
      i := n;
      FieldFailsExactlyWhen(fields[n], PredicateCount(Shapes(fields[..n]).value), Shapes(fields).error);
      forall j | 0 <= j < n ensures IsRight(fields[j]) { CompiledFieldsAreRight(fields[..n], j); }
    }
  }

  /** The fields of a descriptor fail with what is wrong with the first wrong one. */
  lemma FieldsFailExactlyWhen(fields: seq<Field>, e: Error)
    ensures Shapes(fields) == Err(e) <==> exists i: nat :: FirstWrong(fields, i, e)
  {
    if i: nat :| FirstWrong(fields, i, e) { FirstWrongFails(fields, i, e); }
    if Shapes(fields) == Err(e) { var i := FailureHasAFirst(fields); }
  }

  // ---- The request ----

  datatype PredicateRequest = PredicateRequest(name: string, bound: Bound, credDefId: string, nonRevoked: Option<nat>)

  datatype AttributeRequest = AttributeRequest(names: seq<string>, credDefId: string, nonRevoked: Option<nat>)

  datatype Prove = Prove(entryIndex: nat, referent: string, isPredicate: bool)

  datatype Request = Request(
    attributes: map<string, AttributeRequest>, predicates: map<string, PredicateRequest>, prove: seq<Prove>)

  const EMPTY := Request(map[], map[], [])

  function AttributeReferent(id: string): string {
    id + "_attribute"
  }

  function PredicateReferent(id: string, index: nat): string {
    id + "_predicate" + "_" + Print(index)
  }

  /** The digits after the last underscore give the index, and what is before them the id. */
  lemma PredicateReferentsDiffer(a: string, i: nat, b: string, j: nat)
    requires PredicateReferent(a, i) == PredicateReferent(b, j)
    ensures a == b && i == j
  {
    ParseAfterPrint(i);
    ParseAfterPrint(j);
    SplitAtUnderscore(a + "_predicate", Print(i), b + "_predicate", Print(j));
    assert (a + "_predicate")[..|a|] == a && (b + "_predicate")[..|b|] == b;
  }

  lemma SplitAtUnderscore(a: string, s: string, b: string, t: string)
    requires a + "_" + s == b + "_" + t && AllDigits(s) && AllDigits(t)
    ensures a == b && s == t
  {
    var x := a + "_" + s;
    assert x[|a|] == '_' && x[|b|] == '_';
    assert forall k :: |a| < k < |x| ==> x[k] == s[k - |a| - 1];
    assert forall k :: |b| < k < |x| ==> x[k] == t[k - |b| - 1];
    assert x[..|a|] == a && x[..|b|] == b && x[|a| + 1..] == s && x[|b| + 1..] == t;
  }

  datatype Item = Item(context: Context, shape: Shape)

  function Referent(x: Item): string {
    if x.shape.Predicate? then PredicateReferent(x.context.id, x.shape.index) else AttributeReferent(x.context.id)
  }

  function ProveOf(x: Item): Prove {
    Prove(x.context.entryIndex, Referent(x), x.shape.Predicate?)
  }

  function PredicateOf(x: Item): PredicateRequest
    requires x.shape.Predicate?
  {
    PredicateRequest(x.shape.name, x.shape.bound, x.context.credDefId, x.context.nonRevoked)
  }

  /** A predicate is written over what its referent had; an attribute name is added to the names there. */
  function Apply(r: Request, x: Item): Request {
    var referent := Referent(x);
    if x.shape.Predicate? then
      Request(r.attributes, r.predicates[referent := PredicateOf(x)], r.prove + [ProveOf(x)])
    else if referent !in r.attributes then
      var added := AttributeRequest([x.shape.name], x.context.credDefId, x.context.nonRevoked);
      Request(r.attributes[referent := added], r.predicates, r.prove + [ProveOf(x)])
    else
      var had := r.attributes[referent];
      Request(r.attributes[referent := had.(names := had.names + [x.shape.name])], r.predicates, r.prove + [ProveOf(x)])
  }

  function ApplyAll(r: Request, items: seq<Item>): Request {
    if items == [] then r else Apply(ApplyAll(r, items[..|items| - 1]), items[|items| - 1])
  }

  lemma {:induction false} ApplyAppend(r: Request, a: seq<Item>, b: seq<Item>)
    ensures ApplyAll(r, a + b) == ApplyAll(ApplyAll(r, a), b)
  {
    if b == [] {
      assert a + b == a;
    } else {
      assert (a + b)[..|a + b| - 1] == a + b[..|b| - 1];
      ApplyAppend(r, a, b[..|b| - 1]);
    }
  }

  function Items(context: Context, shapes: seq<Shape>): seq<Item> {
    seq(|shapes|, k requires 0 <= k < |shapes| => Item(context, shapes[k]))
  }

  lemma ApplyMore(r: Request, context: Context, a: seq<Shape>, b: seq<Shape>)
    ensures ApplyAll(r, Items(context, a + b)) == ApplyAll(ApplyAll(r, Items(context, a)), Items(context, b))
  {
    assert Items(context, a + b) == Items(context, a) + Items(context, b);
    ApplyAppend(r, Items(context, a), Items(context, b));
  }

  lemma ApplyOne(r: Request, context: Context, s: Shape)
    ensures ApplyAll(r, Items(context, [s])) == Apply(r, Item(context, s))
  {
    var items := Items(context, [s]);
    assert items[..0] == [] && items[0] == Item(context, s);
  }

  /** What one mapping asks for. */
  function ItemsOf(definition: seq<Descriptor>, credentials: seq<Credential>, now: nat, m: Mapping): Result<seq<Item>, Error>
  {
    match Resolve(definition, credentials, now, m)
    case Err(e) => Err(e)
    case Ok(r) =>
      match Shapes(r.fields)
      case Err(e) => Err(e)
      case Ok(shapes) => Ok(Items(r.context, shapes))
  }

  /** Everything a submission asks for, mapping by mapping. */
  function AllItems(definition: seq<Descriptor>, credentials: seq<Credential>, now: nat, mappings: seq<Mapping>)
    : Result<seq<Item>, Error>
  {
    if mappings == [] then Ok([])
    else match AllItems(definition, credentials, now, mappings[..|mappings| - 1])
      case Err(e) => Err(e)
      case Ok(items) =>
        match ItemsOf(definition, credentials, now, mappings[|mappings| - 1])
        case Err(e) => Err(e)
        case Ok(more) => Ok(items + more)
  }

  lemma {:induction false} AllItemsOfPrefix(
    definition: seq<Descriptor>, credentials: seq<Credential>, now: nat, mappings: seq<Mapping>, n: nat)
    requires n <= |mappings| && AllItems(definition, credentials, now, mappings[..n]).Err?
    ensures AllItems(definition, credentials, now, mappings) == AllItems(definition, credentials, now, mappings[..n])
  {
    if n == |mappings| {
      assert mappings[..n] == mappings;
    } else {
      assert mappings[..|mappings| - 1][..n] == mappings[..n];
      AllItemsOfPrefix(definition, credentials, now, mappings[..|mappings| - 1], n);
    }
  }

  // ---- The loops that build it ----

  lemma OneMorePredicate(name: string, bounds: seq<Bound>, next: nat, k: nat)
    requires k < |bounds|
    ensures PredicateShapes(name, bounds[..k + 1], next) ==
            PredicateShapes(name, bounds[..k], next) + [Predicate(next + k, name, bounds[k])]
  {
  }

  method AddPredicates(r: Request, context: Context, name: string, bounds: seq<Bound>, next: nat)
    returns (request: Request, index: nat)
    ensures request == ApplyAll(r, Items(context, PredicateShapes(name, bounds, next)))
    ensures index == next + |bounds|
  {
    request, index := r, next;
    for k := 0 to |bounds|
      invariant index == next + k
      invariant request == ApplyAll(r, Items(context, PredicateShapes(name, bounds[..k], next)))
    {
      var shape := Predicate(index, name, bounds[k]);
      OneMorePredicate(name, bounds, next, k);
      ApplyMore(r, context, PredicateShapes(name, bounds[..k], next), [shape]);
      ApplyOne(request, context, shape);
      request, index := Apply(request, Item(context, shape)), index + 1;
    }
    assert bounds[..|bounds|] == bounds;
  }

  method AddField(r: Request, context: Context, f: Field, next: nat) returns (res: Result<(Request, nat), Error>)
    ensures var shapes := ShapesOfField(f, next);
      && (shapes.Err? ==> res == Err(shapes.error))
      && (shapes.Ok? ==>
            res == Ok((ApplyAll(r, Items(context, shapes.value)), next + PredicateCount(shapes.value))))
  {
    if f.path.None? { return Err(NoPath); }
    var claim := ClaimName(f.path.value);
    if claim.GetOr("") == "" { return Ok((r, next)); }
    var name := claim.value;
    if f.comparing {
      if f.filter.None? { return Err(NoFilter); }
      var bounds := GetPredicateTypeAndValues(f.filter.value);
      if bounds.Err? { return Err(bounds.error); }
      var request, index := AddPredicates(r, context, name, bounds.value, next);
      CountPredicates(name, bounds.value, next);
      res := Ok((request, index));
    } else {
      ApplyOne(r, context, Attribute(name));
      assert [Attribute(name)][..0] == [];
      res := Ok((Apply(r, Item(context, Attribute(name))), next));
    }
  }

  method AddFields(r: Request, context: Context, fields: seq<Field>) returns (res: Result<Request, Error>)
    ensures Shapes(fields).Err? ==> res == Err(Shapes(fields).error)
    ensures Shapes(fields).Ok? ==> res == Ok(ApplyAll(r, Items(context, Shapes(fields).value)))
  {
    var request, next := r, 0;
    for j := 0 to |fields|
      invariant Shapes(fields[..j]).Ok?
      invariant next == PredicateCount(Shapes(fields[..j]).value)
      invariant request == ApplyAll(r, Items(context, Shapes(fields[..j]).value))
    {
      assert fields[..j + 1][..j] == fields[..j];
      var added := AddField(request, context, fields[j], next);
      if added.Err? {
        ShapesOfPrefix(fields, j + 1);
        return Err(added.error);
      }
      ghost var before, more := Shapes(fields[..j]).value, ShapesOfField(fields[j], next).value;
      ApplyMore(r, context, before, more);
      CountAppend(before, more);
      request, next := added.value.0, added.value.1;
    }
    assert fields[..|fields|] == fields;
    res := Ok(request);
  }

  datatype Output = Output(
    request: Request, withMetadata: seq<(Credential, Option<nat>)>, schemaIds: set<string>, credDefIds: set<string>)

  function AddCredential(out: Output, request: Request, c: Credential, nonRevoked: Option<nat>): Output {
    Output(request, out.withMetadata + [(c, nonRevoked)], out.schemaIds + {c.schemaId}, out.credDefIds + {c.credDefId})
  }

  method AddMapping(
    out: Output, definition: seq<Descriptor>, credentials: seq<Credential>, now: nat, m: Mapping)
    returns (res: Result<Output, Error>)
    ensures var items := ItemsOf(definition, credentials, now, m);
      && (items.Err? ==> res == Err(items.error))
      && (items.Ok? ==>
            res == Ok(AddCredential(out, ApplyAll(out.request, items.value), m.nodes[0],
                                    Resolve(definition, credentials, now, m).value.context.nonRevoked)))
  {
    var resolved := Resolve(definition, credentials, now, m);
    if resolved.Err? { return Err(resolved.error); }
    var context := resolved.value.context;
    var added := AddFields(out.request, context, resolved.value.fields);
    if added.Err? { return Err(added.error); }
    res := Ok(AddCredential(out, added.value, credentials[context.entryIndex], context.nonRevoked));
  }

  /** The credential of each mapping, with the interval it must not be revoked in, and the ids of what issued them. */
  ghost predicate DescribesMappings(
    out: Output, definition: seq<Descriptor>, credentials: seq<Credential>, now: nat, mappings: seq<Mapping>)
  {
    && |out.withMetadata| == |mappings|
    && (forall k :: 0 <= k < |mappings| ==>
          && |mappings[k].nodes| == 1 && mappings[k].nodes[0] in credentials
          && DescriptorOf(definition, mappings[k].id).Some?
          && out.withMetadata[k] == (mappings[k].nodes[0], AskedInterval(definition, now, mappings[k].id)))
    && out.schemaIds == (set m | m in out.withMetadata :: m.0.schemaId)
    && out.credDefIds == (set m | m in out.withMetadata :: m.0.credDefId)
  }

  lemma OneMoreMapping(out: Output, request: Request, definition: seq<Descriptor>, credentials: seq<Credential>, now: nat,
                       mappings: seq<Mapping>, m: Mapping)
    requires DescribesMappings(out, definition, credentials, now, mappings)
    requires Resolve(definition, credentials, now, m).Ok?
    ensures var nonRevoked := Resolve(definition, credentials, now, m).value.context.nonRevoked;
      DescribesMappings(AddCredential(out, request, m.nodes[0], nonRevoked), definition, credentials, now, mappings + [m])
  {
    var last := (m.nodes[0], Resolve(definition, credentials, now, m).value.context.nonRevoked);
    var all := out.withMetadata + [last];
    assert forall x :: x in all <==> x in out.withMetadata || x == last;
    assert out.schemaIds + {last.0.schemaId} == set x | x in all :: x.0.schemaId;
    assert out.credDefIds + {last.0.credDefId} == set x | x in all :: x.0.credDefId;
  }

  lemma OneMoreStep(
    definition: seq<Descriptor>, credentials: seq<Credential>, now: nat, mappings: seq<Mapping>, m: Mapping)
    requires AllItems(definition, credentials, now, mappings).Ok?
    ensures var items := ItemsOf(definition, credentials, now, m);
      AllItems(definition, credentials, now, mappings + [m]) ==
      if items.Err? then items else Ok(AllItems(definition, credentials, now, mappings).value + items.value)
  {
    assert (mappings + [m])[..|mappings|] == mappings;
  }

  method CreateAnonCredsProofRequestAndMetadata(
    definition: seq<Descriptor>, mappings: seq<Mapping>, credentials: seq<Credential>, now: nat)
    returns (res: Result<Output, Error>)
    ensures var items := AllItems(definition, credentials, now, mappings);
      && (items.Err? ==> res == Err(items.error))
      && (items.Ok? ==> res.Ok? && res.value.request == ApplyAll(EMPTY, items.value)
                        && DescribesMappings(res.value, definition, credentials, now, mappings))
  {
    var out := Output(EMPTY, [], {}, {});
    for k := 0 to |mappings|
      invariant AllItems(definition, credentials, now, mappings[..k]).Ok?
      invariant out.request == ApplyAll(EMPTY, AllItems(definition, credentials, now, mappings[..k]).value)
      invariant DescribesMappings(out, definition, credentials, now, mappings[..k])
    {
      assert mappings[..k + 1] == mappings[..k] + [mappings[k]];
      OneMoreStep(definition, credentials, now, mappings[..k], mappings[k]);
      var added := AddMapping(out, definition, credentials, now, mappings[k]);
      if added.Err? {
        AllItemsOfPrefix(definition, credentials, now, mappings, k + 1);
        return Err(added.error);
      }
      ApplyAppend(EMPTY, AllItems(definition, credentials, now, mappings[..k]).value,
                  ItemsOf(definition, credentials, now, mappings[k]).value);
      OneMoreMapping(out, added.value.request, definition, credentials, now, mappings[..k], mappings[k]);
      out := added.value;
    }
    assert mappings[..|mappings|] == mappings;
    res := Ok(out);
  }

  // ---- What the request holds ----

  lemma ApplyAddsProveEntry(r: Request, x: Item)
    ensures Apply(r, x).prove == r.prove + [ProveOf(x)]
  {
  }

  /** Everything asked for has its prove entry, in order. */
  lemma {:induction false} ProveEntriesAreTheItems(items: seq<Item>)
    ensures |ApplyAll(EMPTY, items).prove| == |items|
    ensures forall i :: 0 <= i < |items| ==> ApplyAll(EMPTY, items).prove[i] == ProveOf(items[i])
  {
    if items != [] {
      ProveEntriesAreTheItems(items[..|items| - 1]);
      ApplyAddsProveEntry(ApplyAll(EMPTY, items[..|items| - 1]), items[|items| - 1]);
    }
  }

  lemma ReferentsIdentify(x: Item, y: Item)
    requires Referent(x) == Referent(y)
    ensures x.context.id == y.context.id
    ensures x.shape.Predicate? <==> y.shape.Predicate?
    ensures x.shape.Predicate? && y.shape.Predicate? ==> x.shape.index == y.shape.index
  {
    if x.shape.Predicate? && y.shape.Predicate? {
      PredicateReferentsDiffer(x.context.id, x.shape.index, y.context.id, y.shape.index);
    }
    if !x.shape.Predicate? && !y.shape.Predicate? {
      assert Referent(x)[..|x.context.id|] == x.context.id && Referent(y)[..|y.context.id|] == y.context.id;
    }
    if x.shape.Predicate? && !y.shape.Predicate? { PredicatesAreNoAttributes(x, y); }
    if !x.shape.Predicate? && y.shape.Predicate? { PredicatesAreNoAttributes(y, x); }
  }

  lemma PredicatesAreNoAttributes(x: Item, y: Item)
    requires x.shape.Predicate? && !y.shape.Predicate?
    ensures Referent(x) != Referent(y)
  {
    ParseAfterPrint(x.shape.index);
    var s, t := Referent(x), Referent(y);
    assert s[|s| - 1] == Print(x.shape.index)[|Print(x.shape.index)| - 1] && t[|t| - 1] == 'e';
  }

  /** What stands under the referent of x was asked for by y, under the same referent. */
  ghost predicate FromItem(r: Request, items: seq<Item>, x: Item, y: Item) {
    && y in items && Referent(y) == Referent(x)
    && (x.shape.Predicate? ==>
          y.shape.Predicate? && Referent(x) in r.predicates && r.predicates[Referent(x)] == PredicateOf(y))
    && (!x.shape.Predicate? ==>
          && !y.shape.Predicate? && Referent(x) in r.attributes
          && r.attributes[Referent(x)].credDefId == y.context.credDefId
          && r.attributes[Referent(x)].nonRevoked == y.context.nonRevoked)
  }

  lemma {:induction false} EveryItemIsHeld(items: seq<Item>, x: Item)
    requires x in items
    ensures exists y :: FromItem(ApplyAll(EMPTY, items), items, x, y)
  {
    var n := |items| - 1;
    var last, before := items[n], ApplyAll(EMPTY, items[..n]);
    var after := ApplyAll(EMPTY, items);
    if Referent(last) == Referent(x) { ReferentsIdentify(last, x); }
    if x in items[..n] {
      EveryItemIsHeld(items[..n], x);
      var y :| FromItem(before, items[..n], x, y);
      if x.shape.Predicate? && Referent(last) == Referent(x) {
        assert FromItem(after, items, x, last);
      } else {
        assert FromItem(after, items, x, y);
      }
    } else {
      assert x == last;
      AttributesComeFromItems(items[..n], Referent(x));
      if x.shape.Predicate? || Referent(x) !in before.attributes {
        assert FromItem(after, items, x, x);
      } else {
        var y :| y in items[..n] && Referent(y) == Referent(x) && FromItem(before, items[..n], y, y);
        ReferentsIdentify(x, y);
        assert FromItem(after, items, x, y);
      }
    }
  }

  lemma {:induction false} AttributesComeFromItems(items: seq<Item>, referent: string)
    ensures referent in ApplyAll(EMPTY, items).attributes ==>
      exists y :: y in items && Referent(y) == referent && !y.shape.Predicate?
                  && FromItem(ApplyAll(EMPTY, items), items, y, y)
  {
    if items != [] {
      var n := |items| - 1;
      AttributesComeFromItems(items[..n], referent);
      var after, before := ApplyAll(EMPTY, items), ApplyAll(EMPTY, items[..n]);
      if referent in before.attributes {
        var y :| y in items[..n] && Referent(y) == referent && !y.shape.Predicate?
                 && FromItem(before, items[..n], y, y);
        assert FromItem(after, items, y, y);
      } else if referent in after.attributes {
        assert FromItem(after, items, items[n], items[n]);
      }
    }
  }

  /** A mapping asks for an item: one of the shapes of its descriptor, for the credential selected for it. */
  ghost predicate AsksFor(definition: seq<Descriptor>, credentials: seq<Credential>, now: nat, m: Mapping, x: Item) {
    && Resolve(definition, credentials, now, m).Ok?
    && x.context == Resolve(definition, credentials, now, m).value.context
    && Shapes(Resolve(definition, credentials, now, m).value.fields).Ok?
    && x.shape in Shapes(Resolve(definition, credentials, now, m).value.fields).value
  }

  lemma {:induction false} MappingsAreAccepted(
    definition: seq<Descriptor>, credentials: seq<Credential>, now: nat, mappings: seq<Mapping>, m: Mapping)
    requires AllItems(definition, credentials, now, mappings).Ok? && m in mappings
    ensures Resolve(definition, credentials, now, m).Ok?
    ensures Shapes(Resolve(definition, credentials, now, m).value.fields).Ok?
  {
    if m in mappings[..|mappings| - 1] {
      MappingsAreAccepted(definition, credentials, now, mappings[..|mappings| - 1], m);
    }
  }

  lemma {:induction false} ItemsAreAskedFor(
    definition: seq<Descriptor>, credentials: seq<Credential>, now: nat, mappings: seq<Mapping>, x: Item)
    requires AllItems(definition, credentials, now, mappings).Ok?
    ensures x in AllItems(definition, credentials, now, mappings).value <==>
            exists m :: m in mappings && AsksFor(definition, credentials, now, m, x)
  {
    if mappings != [] {
      var n := |mappings| - 1;
      ItemsAreAskedFor(definition, credentials, now, mappings[..n], x);
      var before, all := AllItems(definition, credentials, now, mappings[..n]).value,
                         AllItems(definition, credentials, now, mappings).value;
      var r := Resolve(definition, credentials, now, mappings[n]).value;
      var last := Items(r.context, Shapes(r.fields).value);
      assert x in all <==> x in before || x in last;
      ItemsOfContext(r.context, Shapes(r.fields).value, x);
      assert x in last <==> AsksFor(definition, credentials, now, mappings[n], x);
      assert forall m :: m in mappings <==> m in mappings[..n] || m == mappings[n];
    }
  }

  lemma ItemsOfContext(context: Context, shapes: seq<Shape>, x: Item)
    ensures x in Items(context, shapes) <==> x.context == context && x.shape in shapes
  {
    if x.context == context && x.shape in shapes {
      var i :| 0 <= i < |shapes| && shapes[i] == x.shape;
      assert Items(context, shapes)[i] == x;
    }
  }

  /** What is asked for under one referent is the same predicate, even when two mappings name one descriptor. */
  lemma SameReferentSameShape(
    definition: seq<Descriptor>, credentials: seq<Credential>, now: nat, m: Mapping, x: Item, n: Mapping, y: Item)
    requires AsksFor(definition, credentials, now, m, x) && AsksFor(definition, credentials, now, n, y)
    requires Referent(x) == Referent(y) && x.shape.Predicate?
    ensures x.shape == y.shape
  {
    ReferentsIdentify(x, y);
    var fields := Resolve(definition, credentials, now, m).value.fields;
    assert fields == Resolve(definition, credentials, now, n).value.fields;
    ShapesAreNumbered(fields);
    SameIndexSameShape(Shapes(fields).value, x.shape, y.shape);
  }

  lemma SameIndexSameShape(shapes: seq<Shape>, s: Shape, t: Shape)
    requires Numbered(shapes) && s in shapes && t in shapes && s.Predicate? && t.Predicate? && s.index == t.index
    ensures s == t
  {
    var i :| 0 <= i < |shapes| && shapes[i] == s;
    var j :| 0 <= j < |shapes| && shapes[j] == t;
  }

  /** The claims that the selected credentials have, by the index of the credential. */
  type Claims = (nat, string) -> Option<int>

  predicate BoundHolds(b: Bound, claim: Option<int>) {
    claim.Some? && Holds(b.comparison, claim.value, b.value)
  }

  ghost predicate ShapeHolds(s: Shape, e: nat, claims: Claims) {
    s.Predicate? ==> BoundHolds(s.bound, claims(e, s.name))
  }

  ghost predicate ShapesHold(shapes: seq<Shape>, e: nat, claims: Claims) {
    forall s :: s in shapes ==> ShapeHolds(s, e, claims)
  }

  predicate IsNumeric(e: Entry) {
    e.key.Minimum? || e.key.Maximum? || e.key.ExclusiveMinimum? || e.key.ExclusiveMaximum?
  }

  ghost predicate HasBounds(filter: seq<Entry>) {
    exists e :: e in filter && IsNumeric(e)
  }

  lemma NoBoundsExactlyWhen(filter: seq<Entry>)
    requires BoundsOf(filter).Ok?
    ensures BoundsOf(filter).value == [] <==> !HasBounds(filter)
  {
    if HasBounds(filter) {
      var e :| e in filter && IsNumeric(e);
      BoundsAreOfEntries(filter, Bound(ComparisonFor(e.key).value, e.value));
    } else if BoundsOf(filter).value != [] {
      BoundsAreOfEntries(filter, BoundsOf(filter).value[0]);
    }
  }

  /** A claim is valid against a filter, and there is one if the filter has bounds. */
  ghost predicate ClaimValid(filter: seq<Entry>, claim: Option<int>) {
    if claim.Some? then Valid(filter, claim.value) else !HasBounds(filter)
  }

  /** What is asked of the claims for a field, which is nothing for a field that is skipped. */
  ghost predicate FieldValid(f: Field, e: nat, claims: Claims) {
    f.comparing && f.path.Some? && !Skipped(f) && f.filter.Some? ==>
      ClaimValid(f.filter.value, claims(e, ClaimName(f.path.value).value))
  }

  ghost predicate FieldsValid(fields: seq<Field>, e: nat, claims: Claims) {
    forall f :: f in fields ==> FieldValid(f, e, claims)
  }

  lemma BoundsMeanTheClaim(filter: seq<Entry>, claim: Option<int>)
    requires BoundsOf(filter).Ok?
    ensures (forall b :: b in BoundsOf(filter).value ==> BoundHolds(b, claim)) <==> ClaimValid(filter, claim)
  {
    NoBoundsExactlyWhen(filter);
    if claim.Some? {
      BoundsMeanTheFilter(filter, claim.value);
    } else if BoundsOf(filter).value != [] {
      assert BoundsOf(filter).value[0] in BoundsOf(filter).value;
    }
  }

  lemma ShapesMeanTheField(f: Field, next: nat, e: nat, claims: Claims)
    requires ShapesOfField(f, next).Ok?
    ensures ShapesHold(ShapesOfField(f, next).value, e, claims) <==> FieldValid(f, e, claims)
  {
    if f.comparing && !Skipped(f) {
      var name, bounds := ClaimName(f.path.value).value, BoundsOf(f.filter.value).value;
      var shapes := PredicateShapes(name, bounds, next);
      BoundsMeanTheClaim(f.filter.value, claims(e, name));
      if ShapesHold(shapes, e, claims) {
        forall b | b in bounds ensures BoundHolds(b, claims(e, name)) {
          var k :| 0 <= k < |bounds| && bounds[k] == b;
          assert shapes[k] in shapes && ShapeHolds(shapes[k], e, claims);
        }
      }
    }
  }

  lemma {:induction false} ShapesMeanTheFields(fields: seq<Field>, e: nat, claims: Claims)
    requires Shapes(fields).Ok?
    ensures ShapesHold(Shapes(fields).value, e, claims) <==> FieldsValid(fields, e, claims)
  {
    if fields != [] {
      var n := |fields| - 1;
      ShapesMeanTheFields(fields[..n], e, claims);
      var before := Shapes(fields[..n]).value;
      ShapesMeanTheField(fields[n], PredicateCount(before), e, claims);
      var more := ShapesOfField(fields[n], PredicateCount(before)).value;
      assert forall s :: s in before + more <==> s in before || s in more;
      assert forall f :: f in fields <==> f in fields[..n] || f == fields[n];
    }
  }

  /** The claims satisfy every predicate that is to be proved, for the credential it is to be proved with. */
  ghost predicate PredicatesHold(r: Request, claims: Claims) {
    forall p :: p in r.prove && p.isPredicate ==>
      && p.referent in r.predicates
      && BoundHolds(r.predicates[p.referent].bound, claims(p.entryIndex, r.predicates[p.referent].name))
  }

  lemma PredicateOfItem(definition: seq<Descriptor>, credentials: seq<Credential>, now: nat, mappings: seq<Mapping>,
                        items: seq<Item>, x: Item)
    requires AllItems(definition, credentials, now, mappings) == Ok(items) && x in items && x.shape.Predicate?
    ensures var r := ApplyAll(EMPTY, items);
      && Referent(x) in r.predicates
      && r.predicates[Referent(x)].name == x.shape.name && r.predicates[Referent(x)].bound == x.shape.bound
  {
    EveryItemIsHeld(items, x);
    var y :| FromItem(ApplyAll(EMPTY, items), items, x, y);
    ItemsAreAskedFor(definition, credentials, now, mappings, x);
    ItemsAreAskedFor(definition, credentials, now, mappings, y);
    var m :| m in mappings && AsksFor(definition, credentials, now, m, x);
    var n :| n in mappings && AsksFor(definition, credentials, now, n, y);
    SameReferentSameShape(definition, credentials, now, m, x, n, y);
  }

  lemma PredicatesMeanTheItems(definition: seq<Descriptor>, credentials: seq<Credential>, now: nat,
                               mappings: seq<Mapping>, items: seq<Item>, claims: Claims)
    requires AllItems(definition, credentials, now, mappings) == Ok(items)
    ensures PredicatesHold(ApplyAll(EMPTY, items), claims) <==>
            forall x :: x in items ==> ShapeHolds(x.shape, x.context.entryIndex, claims)
  {
    var r := ApplyAll(EMPTY, items);
    ProveEntriesAreTheItems(items);
    if PredicatesHold(r, claims) {
      forall x | x in items ensures ShapeHolds(x.shape, x.context.entryIndex, claims) {
        if x.shape.Predicate? {
          PredicateOfItem(definition, credentials, now, mappings, items, x);
          var i :| 0 <= i < |items| && items[i] == x;
          assert r.prove[i] in r.prove && r.prove[i].isPredicate;
        }
      }
    }
    if forall x :: x in items ==> ShapeHolds(x.shape, x.context.entryIndex, claims) {
      forall p | p in r.prove && p.isPredicate
        ensures p.referent in r.predicates
        ensures BoundHolds(r.predicates[p.referent].bound, claims(p.entryIndex, r.predicates[p.referent].name))
      {
        var i :| 0 <= i < |items| && r.prove[i] == p;
        assert ShapeHolds(items[i].shape, items[i].context.entryIndex, claims);
        PredicateOfItem(definition, credentials, now, mappings, items, items[i]);
      }
    }
  }

  /** What is asked of the claims of the selected credentials for all mapped descriptors. */
  ghost predicate ClaimsAsked(definition: seq<Descriptor>, credentials: seq<Credential>, now: nat,
                              mappings: seq<Mapping>, claims: Claims) {
    forall m :: m in mappings && Resolve(definition, credentials, now, m).Ok? ==>
      var r := Resolve(definition, credentials, now, m).value;
      FieldsValid(r.fields, r.context.entryIndex, claims)
  }

  /** Claims satisfy the predicates of the request exactly when they meet the filter of every predicate field that has
      a claim name, also when a descriptor is mapped twice. */
  lemma PredicatesMeanTheClaimsAsked(definition: seq<Descriptor>, credentials: seq<Credential>, now: nat,
                                     mappings: seq<Mapping>, claims: Claims)
    requires AllItems(definition, credentials, now, mappings).Ok?
    ensures PredicatesHold(ApplyAll(EMPTY, AllItems(definition, credentials, now, mappings).value), claims) <==>
            ClaimsAsked(definition, credentials, now, mappings, claims)
  {
    var items := AllItems(definition, credentials, now, mappings).value;
    PredicatesMeanTheItems(definition, credentials, now, mappings, items, claims);
    forall m | m in mappings
      ensures Resolve(definition, credentials, now, m).Ok?
      ensures var r := Resolve(definition, credentials, now, m).value;
        FieldsValid(r.fields, r.context.entryIndex, claims) <==>
        forall x :: AsksFor(definition, credentials, now, m, x) ==> ShapeHolds(x.shape, x.context.entryIndex, claims)
    {
      MappingsAreAccepted(definition, credentials, now, mappings, m);
      MappingMeansItsItems(definition, credentials, now, m, claims);
    }
    forall x ensures x in items <==> exists m :: m in mappings && AsksFor(definition, credentials, now, m, x) {
      ItemsAreAskedFor(definition, credentials, now, mappings, x);
    }
  }

  lemma MappingMeansItsItems(
    definition: seq<Descriptor>, credentials: seq<Credential>, now: nat, m: Mapping, claims: Claims)
    requires Resolve(definition, credentials, now, m).Ok?
    requires Shapes(Resolve(definition, credentials, now, m).value.fields).Ok?
    ensures var r := Resolve(definition, credentials, now, m).value;
      FieldsValid(r.fields, r.context.entryIndex, claims) <==>
      forall x :: AsksFor(definition, credentials, now, m, x) ==> ShapeHolds(x.shape, x.context.entryIndex, claims)
  {
    var r := Resolve(definition, credentials, now, m).value;
    ShapesMeanTheFields(r.fields, r.context.entryIndex, claims);
    if forall x :: AsksFor(definition, credentials, now, m, x) ==> ShapeHolds(x.shape, x.context.entryIndex, claims) {
      forall s | s in Shapes(r.fields).value ensures ShapeHolds(s, r.context.entryIndex, claims) {
        assert AsksFor(definition, credentials, now, m, Item(r.context, s));
      }
    }
  }

  /** Under the referent of every prove entry stands the moment its descriptor asks for: now if it asks for an active
      status, and none otherwise. */
  lemma IntervalsAreAsked(
    definition: seq<Descriptor>, credentials: seq<Credential>, now: nat, mappings: seq<Mapping>, p: Prove)
    requires AllItems(definition, credentials, now, mappings).Ok?
    requires p in ApplyAll(EMPTY, AllItems(definition, credentials, now, mappings).value).prove
    ensures var r := ApplyAll(EMPTY, AllItems(definition, credentials, now, mappings).value);
      && (if p.isPredicate then p.referent in r.predicates else p.referent in r.attributes)
      && exists m, x :: m in mappings && AsksFor(definition, credentials, now, m, x) && p == ProveOf(x)
           && DescriptorOf(definition, m.id).Some?
           && (if p.isPredicate then r.predicates[p.referent].nonRevoked else r.attributes[p.referent].nonRevoked)
              == AskedInterval(definition, now, m.id)
  {
    var items := AllItems(definition, credentials, now, mappings).value;
    ProveEntriesAreTheItems(items);
    var i :| 0 <= i < |items| && ApplyAll(EMPTY, items).prove[i] == p;
    ItemsAreAskedFor(definition, credentials, now, mappings, items[i]);
    IntervalOfItem(definition, credentials, now, mappings, items, items[i]);
  }

  lemma IntervalOfItem(definition: seq<Descriptor>, credentials: seq<Credential>, now: nat, mappings: seq<Mapping>,
                       items: seq<Item>, x: Item)
    requires AllItems(definition, credentials, now, mappings) == Ok(items) && x in items
    ensures DescriptorOf(definition, x.context.id).Some?
    ensures var r, asked := ApplyAll(EMPTY, items), AskedInterval(definition, now, x.context.id);
      if x.shape.Predicate? then Referent(x) in r.predicates && r.predicates[Referent(x)].nonRevoked == asked
      else Referent(x) in r.attributes && r.attributes[Referent(x)].nonRevoked == asked
  {
    EveryItemIsHeld(items, x);
    var y :| FromItem(ApplyAll(EMPTY, items), items, x, y);
    ReferentsIdentify(x, y);
    ItemsAreAskedFor(definition, credentials, now, mappings, x);
    ItemsAreAskedFor(definition, credentials, now, mappings, y);
  }

  /** A mapping fails if it cannot be resolved or if a field of its descriptor is wrong. */
  ghost predicate MappingFails(
    definition: seq<Descriptor>, credentials: seq<Credential>, now: nat, m: Mapping, e: Error)
  {
    var r := Resolve(definition, credentials, now, m);
    r == Err(e) || (r.Ok? && exists i: nat :: FirstWrong(r.value.fields, i, e))
  }

  lemma MappingFailsExactlyWhen(
    definition: seq<Descriptor>, credentials: seq<Credential>, now: nat, m: Mapping, e: Error)
    ensures ItemsOf(definition, credentials, now, m) == Err(e) <==> MappingFails(definition, credentials, now, m, e)
  {
    var r := Resolve(definition, credentials, now, m);
    if r.Ok? { FieldsFailExactlyWhen(r.value.fields, e); }
  }

  /** The first mapping that fails. */
  ghost predicate FirstFailing(definition: seq<Descriptor>, credentials: seq<Credential>, now: nat,
                               mappings: seq<Mapping>, k: nat, e: Error) {
    && k < |mappings| && MappingFails(definition, credentials, now, mappings[k], e)
    && forall j, x :: 0 <= j < k ==> !MappingFails(definition, credentials, now, mappings[j], x)
  }

  lemma {:induction false} NoFailureIsAccepted(
    definition: seq<Descriptor>, credentials: seq<Credential>, now: nat, mappings: seq<Mapping>)
    requires forall j, x :: 0 <= j < |mappings| ==> !MappingFails(definition, credentials, now, mappings[j], x)
    ensures AllItems(definition, credentials, now, mappings).Ok?
  {
    if mappings != [] {
      var last := mappings[|mappings| - 1];
      NoFailureIsAccepted(definition, credentials, now, mappings[..|mappings| - 1]);
      var items := ItemsOf(definition, credentials, now, last);
      if items.Err? { MappingFailsExactlyWhen(definition, credentials, now, last, items.error); }
    }
  }

  lemma {:induction false} FailureHasAFirstMapping(
    definition: seq<Descriptor>, credentials: seq<Credential>, now: nat, mappings: seq<Mapping>) returns (k: nat)
    requires AllItems(definition, credentials, now, mappings).Err?
    ensures FirstFailing(definition, credentials, now, mappings, k,
                         AllItems(definition, credentials, now, mappings).error)
  {
    var n := |mappings| - 1;
    if AllItems(definition, credentials, now, mappings[..n]).Err? {
      k := FailureHasAFirstMapping(definition, credentials, now, mappings[..n]);
    } else {
      k := n;
      MappingFailsExactlyWhen(definition, credentials, now, mappings[n],
                              AllItems(definition, credentials, now, mappings).error);
      forall j, x | 0 <= j < n ensures !MappingFails(definition, credentials, now, mappings[j], x) {
        MappingFailsExactlyWhen(definition, credentials, now, mappings[j], x);
        assert mappings[j] in mappings[..n];
        MappingsAreAccepted(definition, credentials, now, mappings[..n], mappings[j]);
      }
    }
  }

  /** The whole submission fails with the error of the first mapping that fails. */
  lemma SubmissionFailsExactlyWhen(
    definition: seq<Descriptor>, credentials: seq<Credential>, now: nat, mappings: seq<Mapping>, e: Error)
    ensures AllItems(definition, credentials, now, mappings) == Err(e) <==>
            exists k: nat :: FirstFailing(definition, credentials, now, mappings, k, e)
  {
    if k: nat :| FirstFailing(definition, credentials, now, mappings, k, e) {
      NoFailureIsAccepted(definition, credentials, now, mappings[..k]);
      MappingFailsExactlyWhen(definition, credentials, now, mappings[k], e);
      assert mappings[..k + 1][..k] == mappings[..k];
      AllItemsOfPrefix(definition, credentials, now, mappings, k + 1);
    }
    if AllItems(definition, credentials, now, mappings) == Err(e) {
      var k := FailureHasAFirstMapping(definition, credentials, now, mappings);
    }
  }

  // ---- What the definition means ----

  /** Which paths find something in which selected credential, and what they find. */
  type Presence = (nat, string) -> bool
  type Values = (nat, string) -> int

  /** What a keyword other than the numeric ones and `type` says of a number, by its name and its own value. */
  type OtherKeywords = (string, int, int) -> bool

  /** The claims are what is found under the credential subject. */
  function ClaimsOf(present: Presence, values: Values): Claims {
    (e: nat, name: string) => if present(e, SUBJECT + name) then Some(values(e, SUBJECT + name)) else None
  }

  function FirstPresent(paths: seq<string>, e: nat, present: Presence): (path: Option<string>)
    ensures path.None? <==> forall p :: p in paths ==> !present(e, p)
    ensures path.Some? ==> exists i :: 0 <= i < |paths| && paths[i] == path.value && present(e, path.value)
                                       && forall j :: 0 <= j < i ==> !present(e, paths[j])
  {
    if paths == [] then None
    else if present(e, paths[0]) then Some(paths[0])
    else
      var rest := FirstPresent(paths[1..], e, present);
      assert forall p :: p in paths <==> p == paths[0] || p in paths[1..];
      assert rest.Some? ==> exists i :: 1 <= i < |paths| && paths[i] == rest.value && present(e, rest.value)
                                        && forall j :: 0 <= j < i ==> !present(e, paths[j]) by {
        if rest.Some? {
          var i :| 0 <= i < |paths[1..]| && paths[1..][i] == rest.value && forall j :: 0 <= j < i ==> !present(e, paths[1..][j]);
          assert paths[i + 1] == rest.value;
          assert forall j :: 0 < j < i + 1 ==> paths[j] == paths[1..][j - 1];
        }
      }
      rest
  }

  /** A number meets a filter if it is valid against each of its keywords. */
  ghost predicate Meets(filter: seq<Entry>, value: int, other: OtherKeywords) {
    Valid(filter, value) && forall e :: e in filter && e.key.Unsupported? ==> other(e.key.name, e.value, value)
  }

  /** A predicate field is met if the first of its paths that finds anything finds a value that meets its filter; if none
      does, the field has to be optional (Presentation Exchange 2.0.0, section "Input Evaluation"). */
  ghost predicate FieldMet(f: Field, e: nat, present: Presence, values: Values, other: OtherKeywords) {
    f.comparing ==>
      var found := FirstPresent(f.path.GetOr([]), e, present);
      if found.Some? then Meets(f.filter.GetOr([]), values(e, found.value), other) else f.optional
  }

  predicate Mapped(definition: seq<Descriptor>, credentials: seq<Credential>, now: nat, m: Mapping, f: Field) {
    var r := Resolve(definition, credentials, now, m);
    r.Ok? && f in r.value.fields
  }

  /** The index of the credential that is selected by a mapping. */
  function Selected(definition: seq<Descriptor>, credentials: seq<Credential>, now: nat, m: Mapping): nat
    requires Resolve(definition, credentials, now, m).Ok?
  {
    Resolve(definition, credentials, now, m).value.context.entryIndex
  }

  ghost predicate DefinitionMet(definition: seq<Descriptor>, credentials: seq<Credential>, now: nat,
                                mappings: seq<Mapping>, present: Presence, values: Values, other: OtherKeywords) {
    forall m, f :: m in mappings && Mapped(definition, credentials, now, m, f) ==>
      FieldMet(f, Selected(definition, credentials, now, m), present, values, other)
  }

  /** All predicates of the request can be proved: the claims are there and within the bounds. */
  ghost predicate RequestMet(definition: seq<Descriptor>, credentials: seq<Credential>, now: nat,
                             mappings: seq<Mapping>, present: Presence, values: Values)
    requires AllItems(definition, credentials, now, mappings).Ok?
  {
    PredicatesHold(ApplyAll(EMPTY, AllItems(definition, credentials, now, mappings).value), ClaimsOf(present, values))
  }

  // ---- Which fields are read as they are meant ----

  ghost predicate Rejects(filter: seq<Entry>, other: OtherKeywords) {
    exists value :: !Meets(filter, value, other)
  }

  /** A predicate field that rejects some number is read well if the claim that is compared is the first of its paths that
      finds anything; if none does, then a field for which a claim is compared must not be optional, and one for which
      none is has to be. For any other filter nothing is asked, so some path has to find something, or the field has to
      be optional. */
  ghost predicate WellRead(f: Field, e: nat, present: Presence, other: OtherKeywords) {
    f.comparing && f.path.Some? ==>
      var found := FirstPresent(f.path.value, e, present);
      if !Rejects(f.filter.GetOr([]), other) then found.Some? || f.optional
      else if Skipped(f) then found.None? && f.optional
      else if found.Some? then found.value == SUBJECT + ClaimName(f.path.value).value
      else !f.optional
  }

  ghost predicate AllWellRead(definition: seq<Descriptor>, credentials: seq<Credential>, now: nat,
                              mappings: seq<Mapping>, present: Presence, other: OtherKeywords) {
    forall m, f :: m in mappings && Mapped(definition, credentials, now, m, f) ==>
      WellRead(f, Selected(definition, credentials, now, m), present, other)
  }

  /** No field lists the bare prefix of the claims, which is no JSONPath. */
  ghost predicate ProperPaths(definition: seq<Descriptor>, credentials: seq<Credential>, now: nat, mappings: seq<Mapping>) {
    forall m, f :: m in mappings && Mapped(definition, credentials, now, m, f) ==> SUBJECT !in f.path.GetOr([])
  }

  lemma FieldIsCompiled(fields: seq<Field>, f: Field)
    requires Shapes(fields).Ok? && f in fields
    ensures f.path.Some?
    ensures f.comparing && !Skipped(f) ==> f.filter.Some? && BoundsOf(f.filter.value).Ok?
  {
    if f in fields[..|fields| - 1] { FieldIsCompiled(fields[..|fields| - 1], f); }
  }

  lemma MappedIsCompiled(
    definition: seq<Descriptor>, credentials: seq<Credential>, now: nat, mappings: seq<Mapping>, m: Mapping, f: Field)
    requires AllItems(definition, credentials, now, mappings).Ok?
    requires m in mappings && Mapped(definition, credentials, now, m, f)
    ensures Resolve(definition, credentials, now, m).Ok? && f.path.Some?
    ensures f.comparing && !Skipped(f) ==> f.filter.Some? && BoundsOf(f.filter.value).Ok?
  {
    MappingsAreAccepted(definition, credentials, now, mappings, m);
    FieldIsCompiled(Resolve(definition, credentials, now, m).value.fields, f);
  }

  lemma SomeValueIsInvalid(filter: seq<Entry>) returns (v: int)
    requires HasBounds(filter)
    ensures !Valid(filter, v)
  {
    var e :| e in filter && IsNumeric(e);
    v := if e.key.Minimum? then e.value - 1 else if e.key.Maximum? then e.value + 1 else e.value;
    assert !EntryValid(e, v);
  }

  /** A filter that was compiled says what its bounds say, and rejects some number exactly when it has any. */
  lemma CompiledFilter(filter: seq<Entry>, other: OtherKeywords)
    requires BoundsOf(filter).Ok?
    ensures forall v :: Meets(filter, v, other) <==> Valid(filter, v)
    ensures Rejects(filter, other) <==> HasBounds(filter)
  {
    forall e | e in filter ensures !e.key.Unsupported? { EntriesAreSupported(filter, e); }
    if HasBounds(filter) {
      var v := SomeValueIsInvalid(filter);
      assert !Meets(filter, v, other);
    } else {
      forall e, v | e in filter ensures EntryValid(e, v) { assert !IsNumeric(e); }
    }
  }

  lemma ReadAsMeant(f: Field, e: nat, present: Presence, values: Values, other: OtherKeywords)
    requires f.path.Some? && WellRead(f, e, present, other)
    requires f.comparing && !Skipped(f) ==> f.filter.Some? && BoundsOf(f.filter.value).Ok?
    ensures FieldValid(f, e, ClaimsOf(present, values)) <==> FieldMet(f, e, present, values, other)
  {
    if f.comparing {
      var found := FirstPresent(f.path.value, e, present);
      if !Skipped(f) {
        CompiledFilter(f.filter.value, other);
      }
      if found.Some? && !Rejects(f.filter.GetOr([]), other) {
        assert Meets(f.filter.GetOr([]), values(e, found.value), other);
      }
    }
  }

  lemma ClaimsAreAskedByField(
    definition: seq<Descriptor>, credentials: seq<Credential>, now: nat, mappings: seq<Mapping>, claims: Claims)
    ensures ClaimsAsked(definition, credentials, now, mappings, claims) <==>
            forall m, f :: m in mappings && Mapped(definition, credentials, now, m, f) ==>
              FieldValid(f, Selected(definition, credentials, now, m), claims)
  {
    if forall m, f :: m in mappings && Mapped(definition, credentials, now, m, f) ==>
         FieldValid(f, Selected(definition, credentials, now, m), claims) {
      forall m | m in mappings && Resolve(definition, credentials, now, m).Ok?
        ensures var r := Resolve(definition, credentials, now, m).value;
          FieldsValid(r.fields, r.context.entryIndex, claims)
      {
        forall f | f in Resolve(definition, credentials, now, m).value.fields
          ensures FieldValid(f, Selected(definition, credentials, now, m), claims)
        {
          assert Mapped(definition, credentials, now, m, f);
        }
      }
    }
  }

  /** Where every field is read well, the predicates can be proved exactly when the definition is met. */
  lemma WellReadRequestPreservesMeaning(definition: seq<Descriptor>, credentials: seq<Credential>, now: nat,
                                        mappings: seq<Mapping>, present: Presence, values: Values, other: OtherKeywords)
    requires AllItems(definition, credentials, now, mappings).Ok?
    requires AllWellRead(definition, credentials, now, mappings, present, other)
    ensures RequestMet(definition, credentials, now, mappings, present, values) <==>
            DefinitionMet(definition, credentials, now, mappings, present, values, other)
  {
    var claims := ClaimsOf(present, values);
    PredicatesMeanTheClaimsAsked(definition, credentials, now, mappings, claims);
    ClaimsAreAskedByField(definition, credentials, now, mappings, claims);
    forall m, f | m in mappings && Mapped(definition, credentials, now, m, f)
      ensures var e := Selected(definition, credentials, now, m);
        FieldValid(f, e, claims) <==> FieldMet(f, e, present, values, other)
    {
      MappedIsCompiled(definition, credentials, now, mappings, m, f);
      ReadAsMeant(f, Selected(definition, credentials, now, m), present, values, other);
    }
  }

  /** The predicates only look at what claim paths find. */
  lemma PredicatesIgnoreOtherPaths(definition: seq<Descriptor>, credentials: seq<Credential>, now: nat,
                                   mappings: seq<Mapping>, present: Presence, a: Values, b: Values)
    requires AllItems(definition, credentials, now, mappings).Ok?
    requires forall e, path :: UnderSubject(path) ==> a(e, path) == b(e, path)
    ensures RequestMet(definition, credentials, now, mappings, present, a) <==>
            RequestMet(definition, credentials, now, mappings, present, b)
  {
    var x, y := ClaimsOf(present, a), ClaimsOf(present, b);
    forall e: nat, name: string ensures x(e, name) == y(e, name) {
      assert (SUBJECT + name)[..|SUBJECT|] == SUBJECT && UnderSubject(SUBJECT + name);
    }
  }

  /** What a field that is not read well means depends on a path that is no claim path. */
  lemma MisreadMeansAnotherPath(f: Field, e: nat, present: Presence, values: Values, other: OtherKeywords)
    returns (path: string)
    requires f.path.Some? && SUBJECT !in f.path.value && !WellRead(f, e, present, other)
    requires f.comparing && !Skipped(f) ==> f.filter.Some? && BoundsOf(f.filter.value).Ok?
    requires FieldValid(f, e, ClaimsOf(present, values)) && FieldMet(f, e, present, values, other)
    ensures !UnderSubject(path) && FirstPresent(f.path.value, e, present) == Some(path)
    ensures Rejects(f.filter.GetOr([]), other)
  {
    var paths, found := f.path.value, FirstPresent(f.path.value, e, present);
    if Skipped(f) {
      path := found.value;
      assert path in paths;
      assert SUBJECT + "" == SUBJECT;
    } else {
      CompiledFilter(f.filter.value, other);
      var i :| 0 <= i < |paths| && paths[i] == SUBJECT + ClaimName(paths).value
               && forall j :: 0 <= j < i ==> !UnderSubject(paths[j]);
      assert present(e, paths[i]);
      path := found.value;
      var k :| 0 <= k < |paths| && paths[k] == path && forall j :: 0 <= j < k ==> !present(e, paths[j]);
    }
  }

  /** If some field is not read well, then from values for which the predicates can be proved and the definition is met
      others differ that do not meet it. */
  lemma MisreadFieldIsNotProved(definition: seq<Descriptor>, credentials: seq<Credential>, now: nat,
                                mappings: seq<Mapping>, present: Presence, values: Values, other: OtherKeywords)
    returns (violating: Values)
    requires AllItems(definition, credentials, now, mappings).Ok?
    requires ProperPaths(definition, credentials, now, mappings)
    requires !AllWellRead(definition, credentials, now, mappings, present, other)
    requires RequestMet(definition, credentials, now, mappings, present, values)
    requires DefinitionMet(definition, credentials, now, mappings, present, values, other)
    ensures RequestMet(definition, credentials, now, mappings, present, violating)
    ensures !DefinitionMet(definition, credentials, now, mappings, present, violating, other)
  {
    var m, f :| m in mappings && Mapped(definition, credentials, now, m, f)
                && !WellRead(f, Selected(definition, credentials, now, m), present, other);
    var e := Selected(definition, credentials, now, m);
    MappedIsCompiled(definition, credentials, now, mappings, m, f);
    PredicatesMeanTheClaimsAsked(definition, credentials, now, mappings, ClaimsOf(present, values));
    ClaimsAreAskedByField(definition, credentials, now, mappings, ClaimsOf(present, values));
    var path := MisreadMeansAnotherPath(f, e, present, values, other);
    var bad :| !Meets(f.filter.GetOr([]), bad, other);
    violating := (d: nat, p: string) => if p == path then bad else values(d, p);
    PredicatesIgnoreOtherPaths(definition, credentials, now, mappings, present, values, violating);
    assert !FieldMet(f, e, present, violating, other);
  }

  /** In given credentials, of whatever values, the request means what the definition means exactly when every mapped
      predicate field is read well, or nothing satisfies either. */
  lemma RequestPreservesMeaning(definition: seq<Descriptor>, credentials: seq<Credential>, now: nat,
                                mappings: seq<Mapping>, present: Presence, other: OtherKeywords)
    requires AllItems(definition, credentials, now, mappings).Ok?
    requires ProperPaths(definition, credentials, now, mappings)
    ensures (forall values :: RequestMet(definition, credentials, now, mappings, present, values) <==>
                              DefinitionMet(definition, credentials, now, mappings, present, values, other)) <==>
      || AllWellRead(definition, credentials, now, mappings, present, other)
      || (forall values :: !RequestMet(definition, credentials, now, mappings, present, values)
                           && !DefinitionMet(definition, credentials, now, mappings, present, values, other))
  {
    if AllWellRead(definition, credentials, now, mappings, present, other) {
      forall values
        ensures RequestMet(definition, credentials, now, mappings, present, values) <==>
                DefinitionMet(definition, credentials, now, mappings, present, values, other)
      {
        WellReadRequestPreservesMeaning(definition, credentials, now, mappings, present, values, other);
      }
    } else if values :| RequestMet(definition, credentials, now, mappings, present, values)
                        && DefinitionMet(definition, credentials, now, mappings, present, values, other) {
      var violating := MisreadFieldIsNotProved(definition, credentials, now, mappings, present, values, other);
    }
  }

  // ---- Credentials in which every path finds something ----

  const EVERYWHERE: Presence := (_, _) => true

  ghost predicate FirstPathsAreClaims(definition: seq<Descriptor>, credentials: seq<Credential>, now: nat,
                                      mappings: seq<Mapping>, other: OtherKeywords) {
    forall m, f :: m in mappings && Mapped(definition, credentials, now, m, f) && f.comparing
                   && Rejects(f.filter.GetOr([]), other) ==>
      f.path.GetOr([]) != [] && UnderSubject(f.path.value[0])
  }

  lemma FirstPathIsFound(f: Field, e: nat, other: OtherKeywords)
    requires f.path.Some? && f.path.value != [] && SUBJECT !in f.path.value
    ensures WellRead(f, e, EVERYWHERE, other) <==>
            (f.comparing && Rejects(f.filter.GetOr([]), other) ==> UnderSubject(f.path.value[0]))
  {
    var paths := f.path.value;
    assert paths[0] in paths && FirstPresent(paths, e, EVERYWHERE) == Some(paths[0]);
    if UnderSubject(paths[0]) {
      FirstClaimIsRead(paths);
      assert SUBJECT + "" == SUBJECT;
    } else if ClaimName(paths).Some? {
      assert UnderSubject(SUBJECT + ClaimName(paths).value);
    }
  }

  lemma FirstClaimIsRead(paths: seq<string>)
    requires paths != [] && UnderSubject(paths[0])
    ensures ClaimName(paths).Some? && SUBJECT + ClaimName(paths).value == paths[0]
  {
    assert paths[0] == SUBJECT + paths[0][|SUBJECT|..];
  }

  /** If every path finds something, this is so exactly when the first path of every mapped predicate field that rejects
      some number is a claim path, or nothing satisfies either. */
  lemma RequestPreservesMeaningOfFullCredentials(definition: seq<Descriptor>, credentials: seq<Credential>, now: nat,
                                                 mappings: seq<Mapping>, other: OtherKeywords)
    requires AllItems(definition, credentials, now, mappings).Ok?
    requires ProperPaths(definition, credentials, now, mappings)
    requires forall m, f :: m in mappings && Mapped(definition, credentials, now, m, f) ==> f.path.GetOr([]) != []
    ensures (forall values :: RequestMet(definition, credentials, now, mappings, EVERYWHERE, values) <==>
                              DefinitionMet(definition, credentials, now, mappings, EVERYWHERE, values, other)) <==>
      || FirstPathsAreClaims(definition, credentials, now, mappings, other)
      || (forall values :: !RequestMet(definition, credentials, now, mappings, EVERYWHERE, values)
                           && !DefinitionMet(definition, credentials, now, mappings, EVERYWHERE, values, other))
  {
    RequestPreservesMeaning(definition, credentials, now, mappings, EVERYWHERE, other);
    forall m, f | m in mappings && Mapped(definition, credentials, now, m, f)
      ensures WellRead(f, Selected(definition, credentials, now, m), EVERYWHERE, other) <==>
              (f.comparing && Rejects(f.filter.GetOr([]), other) ==> UnderSubject(f.path.value[0]))
    {
      FirstPathIsFound(f, Selected(definition, credentials, now, m), other);
    }
  }

  // ---- Requests that do not mean what the definition means ----

  const ADULT: seq<Entry> := [Entry(Minimum, 18)]

  /** The definition that asks one predicate field of one credential, and its mapping. */
  function Asking(f: Field): seq<Descriptor> {
    [Descriptor("d", Some([f]), NoStatuses)]
  }

  function Answering(c: Credential): seq<Mapping> {
    [Mapping("d", [c])]
  }

  lemma OneFieldAsked(f: Field, c: Credential, now: nat)
    requires ShapesOfField(f, 0).Ok?
    ensures AllItems(Asking(f), [c], now, Answering(c)).Ok?
    ensures Selected(Asking(f), [c], now, Answering(c)[0]) == 0
    ensures forall m, g :: m in Answering(c) && Mapped(Asking(f), [c], now, m, g) <==> m == Answering(c)[0] && g == f
    ensures forall present, values :: RequestMet(Asking(f), [c], now, Answering(c), present, values) <==>
                                      FieldValid(f, 0, ClaimsOf(present, values))
  {
    var definition, m := Asking(f), Answering(c)[0];
    OneFieldShapes(f);
    OneMappingItems(definition, [c], now, m);
    assert Resolve(definition, [c], now, m).value.fields == [f];
    forall present, values
      ensures RequestMet(definition, [c], now, [m], present, values) <==> FieldValid(f, 0, ClaimsOf(present, values))
    {
      PredicatesMeanTheClaimsAsked(definition, [c], now, [m], ClaimsOf(present, values));
      assert FieldsValid([f], 0, ClaimsOf(present, values)) <==> FieldValid(f, 0, ClaimsOf(present, values));
    }
  }

  /** A credential whose issuer is to be 18 or older: nothing is asked, so it is proved whatever the issuer's age. */
  lemma IssuerAgeIsDropped(c: Credential, now: nat, other: OtherKeywords)
    ensures var f := Field(Some(["$.issuer.age"]), true, Some(ADULT), false);
      && AllItems(Asking(f), [c], now, Answering(c)) == Ok([])
      && RequestMet(Asking(f), [c], now, Answering(c), EVERYWHERE, (_, _) => 17)
      && !DefinitionMet(Asking(f), [c], now, Answering(c), EVERYWHERE, (_, _) => 17, other)
  {
    var f := Field(Some(["$.issuer.age"]), true, Some(ADULT), false);
    assert "$.issuer.age"[2] != SUBJECT[2] && !UnderSubject("$.issuer.age");
    assert Skipped(f);
    OneFieldShapes(f);
    OneMappingItems(Asking(f), [c], now, Answering(c)[0]);
    assert Items(Resolve(Asking(f), [c], now, Answering(c)[0]).value.context, []) == [];
    OneFieldAsked(f, c, now);
    assert Mapped(Asking(f), [c], now, Answering(c)[0], f);
    assert !EntryValid(ADULT[0], 17) && !Valid(ADULT, 17);
    assert "$.issuer.age" in f.path.value && !FieldMet(f, 0, EVERYWHERE, (_, _) => 17, other);
  }

  const BIRTH_OR_AGE: seq<string> := [SUBJECT + "dob", SUBJECT + "age"]
  const AGE_ONLY: Presence := (e, path) => path == SUBJECT + "age"

  lemma AdultHasBounds(other: OtherKeywords)
    ensures BoundsOf(ADULT).Ok? && HasBounds(ADULT) && Meets(ADULT, 20, other)
  {
    assert BoundsOf(ADULT[..0]) == Ok([]);
    assert ADULT[0] in ADULT && IsNumeric(ADULT[0]);
    CompiledFilter(ADULT, other);
    assert Valid(ADULT, 20);
  }

  lemma AgeIsFound(paths: seq<string>)
    requires |paths| == 2 && paths[0] != SUBJECT + "age" && paths[1] == SUBJECT + "age"
    ensures FirstPresent(paths, 0, AGE_ONLY) == Some(SUBJECT + "age")
  {
    assert FirstPresent(paths[1..], 0, AGE_ONLY) == Some(SUBJECT + "age");
  }

  lemma BirthIsRead()
    ensures ClaimName(BIRTH_OR_AGE) == Some("dob") && BIRTH_OR_AGE[0] != SUBJECT + "age"
  {
    FirstClaimIsRead(BIRTH_OR_AGE);
    assert (SUBJECT + "dob")[|SUBJECT|..] == "dob";
    assert (SUBJECT + "dob")[|SUBJECT|] != (SUBJECT + "age")[|SUBJECT|];
  }

  /** A credential that has an age of 20 but no date of birth, for a field that takes either and wants 18: the definition
      is met, and the predicate is asked of the claim that is not there. */
  lemma AbsentClaimIsAsked(c: Credential, now: nat, other: OtherKeywords)
    ensures var f := Field(Some(BIRTH_OR_AGE), true, Some(ADULT), false);
      && AllItems(Asking(f), [c], now, Answering(c)).Ok?
      && DefinitionMet(Asking(f), [c], now, Answering(c), AGE_ONLY, (_, _) => 20, other)
      && !RequestMet(Asking(f), [c], now, Answering(c), AGE_ONLY, (_, _) => 20)
  {
    var f := Field(Some(BIRTH_OR_AGE), true, Some(ADULT), false);
    BirthIsRead();
    AdultHasBounds(other);
    OneFieldAsked(f, c, now);
    AgeIsFound(BIRTH_OR_AGE);
    assert FieldMet(f, 0, AGE_ONLY, (_, _) => 20, other);
  }

  const WRAPPED_OR_AGE: seq<string> := ["$.vc.credentialSubject.age", SUBJECT + "age"]

  lemma AgeIsRead()
    ensures ClaimName(WRAPPED_OR_AGE) == Some("age") && WRAPPED_OR_AGE[0] != SUBJECT + "age"
  {
    assert WRAPPED_OR_AGE[0][2] != SUBJECT[2] && !UnderSubject(WRAPPED_OR_AGE[0]);
    assert WRAPPED_OR_AGE[0][2] != (SUBJECT + "age")[2];
    assert WRAPPED_OR_AGE[1..] == [SUBJECT + "age"];
    FirstClaimIsRead(WRAPPED_OR_AGE[1..]);
    assert (SUBJECT + "age")[|SUBJECT|..] == "age";
  }

  /** A field that first names where another format has the claim is read well in a credential without that path. */
  lemma LaterClaimIsRead(c: Credential, now: nat, values: Values, other: OtherKeywords)
    ensures var f := Field(Some(WRAPPED_OR_AGE), true, Some(ADULT), false);
      && AllItems(Asking(f), [c], now, Answering(c)).Ok?
      && (RequestMet(Asking(f), [c], now, Answering(c), AGE_ONLY, values) <==>
          DefinitionMet(Asking(f), [c], now, Answering(c), AGE_ONLY, values, other))
  {
    var f := Field(Some(WRAPPED_OR_AGE), true, Some(ADULT), false);
    AgeIsRead();
    AdultHasBounds(other);
    OneFieldAsked(f, c, now);
    AgeIsFound(WRAPPED_OR_AGE);
    WellReadRequestPreservesMeaning(Asking(f), [c], now, Answering(c), AGE_ONLY, values, other);
  }

  lemma OneFieldShapes(f: Field)
    ensures Shapes([f]) == ShapesOfField(f, 0)
  {
    assert [f][..0] == [] && Shapes([f][..0]) == Ok([]);
    if ShapesOfField(f, 0).Ok? { assert [] + ShapesOfField(f, 0).value == ShapesOfField(f, 0).value; }
  }

  lemma OneMappingItems(definition: seq<Descriptor>, credentials: seq<Credential>, now: nat, m: Mapping)
    ensures AllItems(definition, credentials, now, [m]) == ItemsOf(definition, credentials, now, m)
  {
    assert [m][..0] == [] && AllItems(definition, credentials, now, [m][..0]) == Ok([]);
    var items := ItemsOf(definition, credentials, now, m);
    if items.Ok? { assert [] + items.value == items.value; }
  }

  // ---- Which credential proves what ----

  /** The credential definition that what stands under the referent of a prove entry is restricted to. */
  function RestrictedTo(r: Request, p: Prove): Option<string> {
    if p.isPredicate && p.referent in r.predicates then Some(r.predicates[p.referent].credDefId)
    else if !p.isPredicate && p.referent in r.attributes then Some(r.attributes[p.referent].credDefId)
    else None
  }

  /** Every prove entry points at a selected credential of the definition its referent is restricted to. */
  ghost predicate RestrictedToOwn(r: Request, credentials: seq<Credential>) {
    forall p :: p in r.prove ==>
      p.entryIndex < |credentials| && RestrictedTo(r, p) == Some(credentials[p.entryIndex].credDefId)
  }

  /** Mappings that name one descriptor, if it asks for anything, select credentials of one credential definition. */
  ghost predicate RepeatsAgree(definition: seq<Descriptor>, credentials: seq<Credential>, now: nat, mappings: seq<Mapping>)
  {
    forall m, n :: m in mappings && n in mappings && m.id == n.id ==> AgreeIfAsking(definition, credentials, now, m, n)
  }

  ghost predicate AgreeIfAsking(definition: seq<Descriptor>, credentials: seq<Credential>, now: nat, m: Mapping, n: Mapping)
  {
    Resolve(definition, credentials, now, m).Ok? && Resolve(definition, credentials, now, n).Ok?
    && Shapes(Resolve(definition, credentials, now, m).value.fields) != Ok([]) ==>
      m.nodes[0].credDefId == n.nodes[0].credDefId
  }

  /** Every prove entry is for one mapping: it points at the credential its path extracts. */
  lemma ProofsPointAtTheirCredentials(
    definition: seq<Descriptor>, credentials: seq<Credential>, now: nat, mappings: seq<Mapping>, p: Prove)
    requires AllItems(definition, credentials, now, mappings).Ok?
    requires p in ApplyAll(EMPTY, AllItems(definition, credentials, now, mappings).value).prove
    ensures exists m, x :: m in mappings && AsksFor(definition, credentials, now, m, x) && p == ProveOf(x)
                           && p.entryIndex < |credentials| && credentials[p.entryIndex] == m.nodes[0]
  {
    var items := AllItems(definition, credentials, now, mappings).value;
    ProveEntriesAreTheItems(items);
    var i :| 0 <= i < |items| && ApplyAll(EMPTY, items).prove[i] == p;
    ItemsAreAskedFor(definition, credentials, now, mappings, items[i]);
  }

  lemma AskersOfOneReferent(definition: seq<Descriptor>, credentials: seq<Credential>, now: nat, m: Mapping, x: Item,
                            n: Mapping, y: Item)
    requires AsksFor(definition, credentials, now, m, x) && AsksFor(definition, credentials, now, n, y)
    requires Referent(x) == Referent(y) && AgreeIfAsking(definition, credentials, now, m, n)
    ensures x.context.credDefId == y.context.credDefId
  {
  }

  lemma AgreeingRepeatsAreRestrictedToOwn(
    definition: seq<Descriptor>, credentials: seq<Credential>, now: nat, mappings: seq<Mapping>, p: Prove)
    requires AllItems(definition, credentials, now, mappings).Ok?
    requires p in ApplyAll(EMPTY, AllItems(definition, credentials, now, mappings).value).prove
    requires RepeatsAgree(definition, credentials, now, mappings)
    ensures p.entryIndex < |credentials|
    ensures RestrictedTo(ApplyAll(EMPTY, AllItems(definition, credentials, now, mappings).value), p)
            == Some(credentials[p.entryIndex].credDefId)
  {
    var items := AllItems(definition, credentials, now, mappings).value;
    var r := ApplyAll(EMPTY, items);
    ProofsPointAtTheirCredentials(definition, credentials, now, mappings, p);
    var m, x :| m in mappings && AsksFor(definition, credentials, now, m, x) && p == ProveOf(x);
    ItemsAreAskedFor(definition, credentials, now, mappings, x);
    EveryItemIsHeld(items, x);
    var y :| FromItem(r, items, x, y);
    ItemsAreAskedFor(definition, credentials, now, mappings, y);
    var n :| n in mappings && AsksFor(definition, credentials, now, n, y);
    ReferentsIdentify(x, y);
    AskersOfOneReferent(definition, credentials, now, m, x, n, y);
  }

  lemma ShapeIsAskedFor(
    definition: seq<Descriptor>, credentials: seq<Credential>, now: nat, mappings: seq<Mapping>, m: Mapping, s: Shape)
    requires AllItems(definition, credentials, now, mappings).Ok? && m in mappings
    requires Resolve(definition, credentials, now, m).Ok? && Shapes(Resolve(definition, credentials, now, m).value.fields).Ok?
    requires s in Shapes(Resolve(definition, credentials, now, m).value.fields).value
    ensures Item(Resolve(definition, credentials, now, m).value.context, s)
            in AllItems(definition, credentials, now, mappings).value
  {
    var x := Item(Resolve(definition, credentials, now, m).value.context, s);
    assert AsksFor(definition, credentials, now, m, x);
    ItemsAreAskedFor(definition, credentials, now, mappings, x);
  }

  lemma ItemsOfOneReferentAgree(credentials: seq<Credential>, items: seq<Item>, x: Item, y: Item)
    requires RestrictedToOwn(ApplyAll(EMPTY, items), credentials) && x in items && y in items
    requires Referent(x) == Referent(y) && x.shape == y.shape
    ensures x.context.entryIndex < |credentials| && y.context.entryIndex < |credentials|
    ensures credentials[x.context.entryIndex].credDefId == credentials[y.context.entryIndex].credDefId
  {
    ItemIsRestrictedToOwn(credentials, items, x);
    ItemIsRestrictedToOwn(credentials, items, y);
  }

  lemma OwnRestrictionsMakeRepeatsAgree(
    definition: seq<Descriptor>, credentials: seq<Credential>, now: nat, mappings: seq<Mapping>, m: Mapping, n: Mapping)
    requires AllItems(definition, credentials, now, mappings).Ok? && m in mappings && n in mappings && m.id == n.id
    requires RestrictedToOwn(ApplyAll(EMPTY, AllItems(definition, credentials, now, mappings).value), credentials)
    ensures AgreeIfAsking(definition, credentials, now, m, n)
  {
    var items := AllItems(definition, credentials, now, mappings).value;
    MappingsAreAccepted(definition, credentials, now, mappings, m);
    MappingsAreAccepted(definition, credentials, now, mappings, n);
    var a, b := Resolve(definition, credentials, now, m).value, Resolve(definition, credentials, now, n).value;
    if Shapes(a.fields).value != [] {
      var s := Shapes(a.fields).value[0];
      ShapeIsAskedFor(definition, credentials, now, mappings, m, s);
      ShapeIsAskedFor(definition, credentials, now, mappings, n, s);
      ItemsOfOneReferentAgree(credentials, items, Item(a.context, s), Item(b.context, s));
    }
  }

  lemma ItemIsRestrictedToOwn(credentials: seq<Credential>, items: seq<Item>, x: Item)
    requires RestrictedToOwn(ApplyAll(EMPTY, items), credentials) && x in items
    ensures x.context.entryIndex < |credentials|
    ensures RestrictedTo(ApplyAll(EMPTY, items), ProveOf(x)) == Some(credentials[x.context.entryIndex].credDefId)
  {
    ProveEntriesAreTheItems(items);
    var i :| 0 <= i < |items| && items[i] == x;
    assert ApplyAll(EMPTY, items).prove[i] == ProveOf(x);
  }

  /** Every entry is proved with a credential of the definition it is restricted to exactly when repeated mappings of
      a descriptor agree on it; in particular when no descriptor is mapped twice. */
  lemma RestrictedToOwnExactlyWhenRepeatsAgree(
    definition: seq<Descriptor>, credentials: seq<Credential>, now: nat, mappings: seq<Mapping>)
    requires AllItems(definition, credentials, now, mappings).Ok?
    ensures RestrictedToOwn(ApplyAll(EMPTY, AllItems(definition, credentials, now, mappings).value), credentials) <==>
            RepeatsAgree(definition, credentials, now, mappings)
  {
    var r := ApplyAll(EMPTY, AllItems(definition, credentials, now, mappings).value);
    if RepeatsAgree(definition, credentials, now, mappings) {
      forall p | p in r.prove
        ensures p.entryIndex < |credentials| && RestrictedTo(r, p) == Some(credentials[p.entryIndex].credDefId)
      {
        AgreeingRepeatsAreRestrictedToOwn(definition, credentials, now, mappings, p);
      }
    }
    if RestrictedToOwn(r, credentials) {
      forall m, n | m in mappings && n in mappings && m.id == n.id ensures AgreeIfAsking(definition, credentials, now, m, n)
      {
        OwnRestrictionsMakeRepeatsAgree(definition, credentials, now, mappings, m, n);
      }
    }
  }

  /** One descriptor mapped to credentials of two definitions: one of the two is restricted to the other's. */
  lemma RepeatedDescriptorNamesAnotherDefinition(c: Credential, d: Credential, name: string, now: nat)
    requires c.credDefId != d.credDefId && name != ""
    ensures var field := Field(Some([SUBJECT + name]), false, None, false);
      var definition := [Descriptor("d", Some([field]), NoStatuses)];
      var items := AllItems(definition, [c, d], now, [Mapping("d", [c]), Mapping("d", [d])]);
      items.Ok? && !RestrictedToOwn(ApplyAll(EMPTY, items.value), [c, d])
  {
    var field := Field(Some([SUBJECT + name]), false, None, false);
    var definition, m, n := [Descriptor("d", Some([field]), NoStatuses)], Mapping("d", [c]), Mapping("d", [d]);
    assert UnderSubject(SUBJECT + name) && (SUBJECT + name)[|SUBJECT|..] == name;
    FirstClaimIsRead([SUBJECT + name]);
    OneFieldShapes(field);
    assert IndexOf([c, d], c).Some? && IndexOf([c, d], d).Some?;
    OneMappingItems(definition, [c, d], now, m);
    OneMoreStep(definition, [c, d], now, [m], n);
    assert [m] + [n] == [m, n];
    RestrictedToOwnExactlyWhenRepeatsAgree(definition, [c, d], now, [m, n]);
    assert !AgreeIfAsking(definition, [c, d], now, m, n);
  }

  // ---- The claims that are asked for ----

  /** The claims that the fields of a descriptor ask for, in order. */
  function RequestedClaims(fields: seq<Field>): seq<string> {
    if fields == [] then [] else
    var f := fields[|fields| - 1];
    RequestedClaims(fields[..|fields| - 1])
    + (if f.path.Some? && !Skipped(f) && !f.comparing then [ClaimName(f.path.value).value] else [])
  }

  function ClaimsFor(definition: seq<Descriptor>, mappings: seq<Mapping>, id: string): seq<string> {
    if mappings == [] then [] else
    var d, m := DescriptorOf(definition, id), mappings[|mappings| - 1];
    ClaimsFor(definition, mappings[..|mappings| - 1], id)
    + (if m.id == id && d.Some? && d.value.fields.Some? then RequestedClaims(d.value.fields.value) else [])
  }

  function NamesAt(r: Request, id: string): seq<string> {
    if AttributeReferent(id) in r.attributes then r.attributes[AttributeReferent(id)].names else []
  }

  function AttributeNames(shapes: seq<Shape>): seq<string> {
    if shapes == [] then [] else
    AttributeNames(shapes[..|shapes| - 1])
    + (if shapes[|shapes| - 1].Attribute? then [shapes[|shapes| - 1].name] else [])
  }

  lemma {:induction false} NamesAppend(a: seq<Shape>, b: seq<Shape>)
    ensures AttributeNames(a + b) == AttributeNames(a) + AttributeNames(b)
  {
    if b == [] {
      assert a + b == a;
    } else {
      assert (a + b)[..|a + b| - 1] == a + b[..|b| - 1];
      NamesAppend(a, b[..|b| - 1]);
    }
  }

  lemma {:induction false} PredicatesHaveNoNames(name: string, bounds: seq<Bound>, next: nat)
    ensures AttributeNames(PredicateShapes(name, bounds, next)) == []
  {
    if bounds != [] {
      var n := |bounds| - 1;
      PredicatesHaveNoNames(name, bounds[..n], next);
      assert PredicateShapes(name, bounds, next)[..n] == PredicateShapes(name, bounds[..n], next);
    }
  }

  lemma {:induction false} NamesAreRequestedClaims(fields: seq<Field>)
    requires Shapes(fields).Ok?
    ensures AttributeNames(Shapes(fields).value) == RequestedClaims(fields)
  {
    if fields != [] {
      var n := |fields| - 1;
      var f, before := fields[n], Shapes(fields[..n]).value;
      NamesAreRequestedClaims(fields[..n]);
      var more := ShapesOfField(f, PredicateCount(before)).value;
      NamesAppend(before, more);
      if f.comparing && !Skipped(f) {
        PredicatesHaveNoNames(ClaimName(f.path.value).value, BoundsOf(f.filter.value).value, PredicateCount(before));
      } else if !Skipped(f) {
        assert more[..0] == [];
      }
    }
  }

  lemma NamesAfterItem(r: Request, x: Item, id: string)
    ensures NamesAt(Apply(r, x), id) ==
            NamesAt(r, id) + (if x.context.id == id && x.shape.Attribute? then [x.shape.name] else [])
  {
    var mine := AttributeReferent(x.context.id);
    assert mine[..|x.context.id|] == x.context.id && AttributeReferent(id)[..|id|] == id;
    assert mine == AttributeReferent(id) ==> x.context.id == id;
  }

  lemma {:induction false} NamesAfterMapping(r: Request, context: Context, shapes: seq<Shape>, id: string)
    ensures NamesAt(ApplyAll(r, Items(context, shapes)), id) ==
            NamesAt(r, id) + (if context.id == id then AttributeNames(shapes) else [])
  {
    if shapes != [] {
      var n := |shapes| - 1;
      NamesAfterMapping(r, context, shapes[..n], id);
      assert shapes == shapes[..n] + [shapes[n]];
      var before := ApplyAll(r, Items(context, shapes[..n]));
      ApplyMore(r, context, shapes[..n], [shapes[n]]);
      ApplyOne(before, context, shapes[n]);
      NamesAfterItem(before, Item(context, shapes[n]), id);
    }
  }

  /** Under the referent of a descriptor stand the claims its fields ask for, in order, once for each mapping of it. */
  lemma {:induction false} NamesAreTheClaims(
    definition: seq<Descriptor>, credentials: seq<Credential>, now: nat, mappings: seq<Mapping>, id: string)
    requires AllItems(definition, credentials, now, mappings).Ok?
    ensures NamesAt(ApplyAll(EMPTY, AllItems(definition, credentials, now, mappings).value), id) ==
            ClaimsFor(definition, mappings, id)
  {
    if mappings != [] {
      var n := |mappings| - 1;
      NamesAreTheClaims(definition, credentials, now, mappings[..n], id);
      var before := AllItems(definition, credentials, now, mappings[..n]).value;
      var r := Resolve(definition, credentials, now, mappings[n]).value;
      NamesAreRequestedClaims(r.fields);
      ApplyAppend(EMPTY, before, Items(r.context, Shapes(r.fields).value));
      NamesAfterMapping(ApplyAll(EMPTY, before), r.context, Shapes(r.fields).value, id);
    }
  }
}
