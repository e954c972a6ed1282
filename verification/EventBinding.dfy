/**
 Binding of a durable job to the event it executes (apps/gateway/src/durable-dispatch.ts).  The
 request of a candidate carries a digest of its canonical JSON; a stored job is adopted only if it
 is bound to that same request.
 */
module EventBinding {
  import opened Common
  import opened CanonicalJson

  function Ascii(s: string): Text
    requires forall i :: 0 <= i < |s| ==> s[i] < 128 as char
  {
    seq(|s|, i requires 0 <= i < |s| => s[i] as int)
  }

  /** A validated candidate: its JSON form and the fields that the request uses. */
  datatype Candidate = Candidate(json: Json, candidateId: Text, idempotencyKey: Text, actionRef: Text, declarationId: Text)
  datatype Scope = Scope(tenantId: Text, principalId: Text)

  datatype Request = Request(id: Text, payload: Json, requestHash: Text)

  /** `payload`, `requestHash` and `retrySafe` are optional in a stored snapshot. */
  datatype Job = Job(id: Text, status: string, payload: Option<Json>, requestHash: Option<Text>, retrySafe: Option<bool>)

  /** What the model does not look inside: the persistence projection and SHA-256. */
  datatype Kernel = Kernel(project: Json -> Json, digest: Text -> Text)

  ghost predicate Faithful(k: Kernel) {
    && (forall a, b :: k.digest(a) == k.digest(b) ==> a == b)
    && (forall j: Json :: j.Object? && WellFormed(j) ==> k.project(j).Object? && WellFormed(k.project(j)))
  }

  // ---------- The request ----------

  function InputJson(c: Candidate): Json {
    Object([
      Member(Ascii("candidateId"), String(c.candidateId)),
      Member(Ascii("idempotencyKey"), String(c.idempotencyKey))])
  }

  function TaskJson(c: Candidate): Json {
    Object([
      Member(Ascii("id"), String(c.idempotencyKey)),
      Member(Ascii("tool"), String(c.actionRef)),
      Member(Ascii("input"), InputJson(c)),
      Member(Ascii("actor"), String(Ascii("event-ingress"))),
      Member(Ascii("reason"), String(Ascii("automation:") + c.declarationId))])
  }

  function ScopeJson(scope: Scope): Json {
    Object([
      Member(Ascii("tenantId"), String(scope.tenantId)),
      Member(Ascii("principalId"), String(scope.principalId))])
  }

  function Payload(c: Candidate, scope: Scope): Json {
    Object([
      Member(Ascii("durableExecution"), Bool(true)),
      Member(Ascii("task"), TaskJson(c)),
      Member(Ascii("scope"), ScopeJson(scope))])
  }

  /** What the request digest covers. */
  function Envelope(candidate: Json, payload: Json): Json {
    Object([
      Member(Ascii("schemaVersion"), Number(Ascii("1"))),
      Member(Ascii("candidate"), candidate),
      Member(Ascii("payload"), payload),
      Member(Ascii("retrySafe"), Bool(false))])
  }

  function RequestFor(k: Kernel, c: Candidate, scope: Scope): Request {
    Request(c.idempotencyKey, Payload(c, scope), k.digest(Canonical(Envelope(c.json, Payload(c, scope)))))
  }

  lemma DistinctPayloadKeys(c: Candidate, scope: Scope)
    ensures DistinctKeys(InputJson(c).members) && DistinctKeys(TaskJson(c).members)
    ensures DistinctKeys(ScopeJson(scope).members) && DistinctKeys(Payload(c, scope).members)
  {
    var i, s := InputJson(c).members, ScopeJson(scope).members;
    assert |i[0].key| != |i[1].key| && |s[0].key| != |s[1].key|;
    var m := TaskJson(c).members;
    assert |m[0].key| == 2 && |m[1].key| == 4 && |m[2].key| == 5 && |m[3].key| == 5 && |m[4].key| == 6;
    assert m[2].key[0] != m[3].key[0];
    var p := Payload(c, scope).members;
    assert |p[0].key| == 16 && |p[1].key| == 4 && |p[2].key| == 5;
  }

  lemma PayloadWellFormed(c: Candidate, scope: Scope)
    ensures WellFormed(InputJson(c)) && WellFormed(TaskJson(c)) && WellFormed(ScopeJson(scope))
    ensures WellFormed(Payload(c, scope))
  {
    hide Ascii, DistinctKeys;
    DistinctPayloadKeys(c, scope);
    assert WellFormed(InputJson(c));
    assert WellFormed(ScopeJson(scope));
    assert WellFormed(TaskJson(c)) by { hide InputJson; }
    hide TaskJson, ScopeJson;
  }

  lemma DistinctEnvelopeKeys(candidate: Json, payload: Json)
    ensures DistinctKeys(Envelope(candidate, payload).members)
  {
    var m := Envelope(candidate, payload).members;
    assert |m[0].key| == 13 && |m[1].key| == 9 && |m[2].key| == 7 && |m[3].key| == 9;
    assert m[1].key[0] != m[3].key[0];
  }

  lemma EnvelopeWellFormed(candidate: Json, payload: Json)
    requires WellFormed(candidate) && WellFormed(payload)
    ensures WellFormed(Envelope(candidate, payload))
  {
    var m := Envelope(candidate, payload).members;
    DistinctEnvelopeKeys(candidate, payload);
    assert NumberText(Ascii("1"));
    hide DistinctKeys;
    assert forall i :: 0 <= i < 4 ==> WellFormed(m[i].value);
  }

  /** Objects with the same keys in the same places mean the same exactly when their values do. */
  lemma SameShape(a: Json, b: Json)
    requires a.Object? && b.Object? && WellFormed(a) && WellFormed(b)
    requires |a.members| == |b.members| && forall i :: 0 <= i < |a.members| ==> a.members[i].key == b.members[i].key
    ensures Meaning(a) == Meaning(b) <==>
      forall i :: 0 <= i < |a.members| ==> Meaning(a.members[i].value) == Meaning(b.members[i].value)
  {
    assert DistinctKeys(a.members) && DistinctKeys(b.members);
    assert Meaning(a) == Meaning(b) <==> MeaningMembers(a.members) == MeaningMembers(b.members);
    SameKeysSameValues(a.members, b.members);
  }

  lemma SameKeysSameValues(x: seq<CanonicalJson.Member>, y: seq<CanonicalJson.Member>)
    requires DistinctKeys(x) && DistinctKeys(y)
    requires |x| == |y| && forall i :: 0 <= i < |x| ==> x[i].key == y[i].key
    ensures MeaningMembers(x) == MeaningMembers(y) <==>
      forall i :: 0 <= i < |x| ==> Meaning(x[i].value) == Meaning(y[i].value)
  {
    hide Meaning, MeaningMembers, HasKey;
    MeaningMembersAt(x);
    MeaningMembersAt(y);
    if forall i :: 0 <= i < |x| ==> Meaning(x[i].value) == Meaning(y[i].value) {
      forall key
        ensures HasKey(x, key) <==> HasKey(y, key)
      {
        SameKeys(x, y, key);
      }
      forall i, j | 0 <= i < |x| && 0 <= j < |y| && x[i].key == y[j].key
        ensures Meaning(x[i].value) == Meaning(y[j].value)
      {
        assert x[i].key == x[j].key;
        assert i == j;
      }
      SameMembersSameMeaning(x, y);
    }
  }

  /** The digest of a request determines its candidate and its payload, up to the order of keys. */
  lemma HashDetermines(k: Kernel, c1: Json, p1: Json, c2: Json, p2: Json)
    requires Faithful(k) && WellFormed(c1) && WellFormed(p1) && WellFormed(c2) && WellFormed(p2)
    ensures k.digest(Canonical(Envelope(c1, p1))) == k.digest(Canonical(Envelope(c2, p2)))
       <==> Meaning(c1) == Meaning(c2) && Meaning(p1) == Meaning(p2)
  {
    hide Ascii, Canonical, Meaning, WellFormed;
    EnvelopeWellFormed(c1, p1);
    EnvelopeWellFormed(c2, p2);
    CanonicalIsExact(Envelope(c1, p1), Envelope(c2, p2));
    EnvelopeDetermines(c1, p1, c2, p2);
  }

  lemma EnvelopeDetermines(c1: Json, p1: Json, c2: Json, p2: Json)
    requires WellFormed(Envelope(c1, p1)) && WellFormed(Envelope(c2, p2))
    ensures Meaning(Envelope(c1, p1)) == Meaning(Envelope(c2, p2)) <==> Meaning(c1) == Meaning(c2) && Meaning(p1) == Meaning(p2)
  {
    hide Ascii, Meaning, WellFormed;
    FourMembers(Member(Ascii("schemaVersion"), Number(Ascii("1"))), Ascii("candidate"), c1, c2, Ascii("payload"), p1, p2,
                Member(Ascii("retrySafe"), Bool(false)));
  }

  lemma FourMembers(first: CanonicalJson.Member, key1: Text, c1: Json, c2: Json, key2: Text, p1: Json, p2: Json,
                    last: CanonicalJson.Member)
    requires WellFormed(Object([first, Member(key1, c1), Member(key2, p1), last]))
    requires WellFormed(Object([first, Member(key1, c2), Member(key2, p2), last]))
    ensures Meaning(Object([first, Member(key1, c1), Member(key2, p1), last]))
         == Meaning(Object([first, Member(key1, c2), Member(key2, p2), last]))
       <==> Meaning(c1) == Meaning(c2) && Meaning(p1) == Meaning(p2)
  {
    hide *;
    var x := [first, Member(key1, c1), Member(key2, p1), last];
    var y := [first, Member(key1, c2), Member(key2, p2), last];
    SameShape(Object(x), Object(y));
    assert x[1].value == c1 && y[1].value == c2 && x[2].value == p1 && y[2].value == p2;
    if Meaning(c1) == Meaning(c2) && Meaning(p1) == Meaning(p2) {
      forall i | 0 <= i < |x|
        ensures Meaning(x[i].value) == Meaning(y[i].value)
      {
        assert i == 0 || i == 1 || i == 2 || i == 3;
      }
    }
  }

  // ---------- The text that is digested ----------

  /** The text of one member of an object. */
  datatype Field = Field(key: Text, text: Text)

  function Fields(fields: seq<Field>): Text {
    if fields == [] then []
    else if |fields| == 1 then Quote(fields[0].key) + Ascii(":") + fields[0].text
    else Quote(fields[0].key) + Ascii(":") + fields[0].text + Ascii(",") + Fields(fields[1..])
  }

  function Braced(fields: seq<Field>): Text { Ascii("{") + Fields(fields) + Ascii("}") }

  predicate Shows(m: CanonicalJson.Member, f: Field) { m.key == f.key && Canonical(m.value) == f.text }

  lemma {:induction false} MembersText(whole: Json, sorted: seq<CanonicalJson.Member>, fields: seq<Field>)
    requires whole.Object? && forall m :: m in sorted ==> m in whole.members
    requires |sorted| == |fields| && forall i :: 0 <= i < |fields| ==> Shows(sorted[i], fields[i])
    ensures CanonicalMembers(whole, sorted) == Fields(fields)
    decreases sorted
  {
    hide Canonical, Quote;
    if sorted != [] {
      assert Ascii(":") == [COLON] && Ascii(",") == [COMMA];
      MembersText(whole, sorted[1..], fields[1..]);
    }
  }

  function ScopeFields(scope: Scope): seq<Field> {
    [
      Field(Ascii("principalId"), Quote(scope.principalId)),
      Field(Ascii("tenantId"), Quote(scope.tenantId))]
  }

  function InputFields(c: Candidate): seq<Field> {
    [
      Field(Ascii("candidateId"), Quote(c.candidateId)),
      Field(Ascii("idempotencyKey"), Quote(c.idempotencyKey))]
  }

  function TaskFields(c: Candidate): seq<Field> {
    [
      Field(Ascii("actor"), Quote(Ascii("event-ingress"))),
      Field(Ascii("id"), Quote(c.idempotencyKey)),
      Field(Ascii("input"), InputText(c)),
      Field(Ascii("reason"), Quote(Ascii("automation:") + c.declarationId)),
      Field(Ascii("tool"), Quote(c.actionRef))]
  }

  function PayloadFields(c: Candidate, scope: Scope): seq<Field> {
    [
      Field(Ascii("durableExecution"), Ascii("true")),
      Field(Ascii("scope"), ScopeText(scope)),
      Field(Ascii("task"), TaskText(c))]
  }

  function EnvelopeFields(candidate: Text, payload: Text): seq<Field> {
    [
      Field(Ascii("candidate"), candidate),
      Field(Ascii("payload"), payload),
      Field(Ascii("retrySafe"), Ascii("false")),
      Field(Ascii("schemaVersion"), Ascii("1"))]
  }

  function ScopeText(scope: Scope): Text { Braced(ScopeFields(scope)) }
  function InputText(c: Candidate): Text { Braced(InputFields(c)) }
  function TaskText(c: Candidate): Text { Braced(TaskFields(c)) }
  function PayloadText(c: Candidate, scope: Scope): Text { Braced(PayloadFields(c, scope)) }
  function EnvelopeText(candidate: Text, payload: Text): Text { Braced(EnvelopeFields(candidate, payload)) }

  /** The fields of an object in increasing order of their keys make its text. */
  lemma ObjectText(members: seq<CanonicalJson.Member>, sorted: seq<CanonicalJson.Member>, fields: seq<Field>)
    requires DistinctKeys(members) && Increasing(sorted) && forall m :: m in members <==> m in sorted
    requires |sorted| == |fields| && forall i :: 0 <= i < |fields| ==> Shows(sorted[i], fields[i])
    ensures Canonical(Object(members)) == Braced(fields)
  {
    hide CanonicalMembers, Sort, Fields, Increasing, Shows;
    SortIs(members, sorted);
    MembersText(Object(members), sorted, fields);
  }

  /** Neighbours in order are enough. */
  lemma {:induction false} Chained(m: seq<CanonicalJson.Member>)
    requires forall i :: 0 <= i < |m| - 1 ==> Less(m[i].key, m[i + 1].key)
    ensures Increasing(m)
    decreases m
  {
    hide Less;
    if m != [] {
      Chained(m[1..]);
      forall j | 0 < j < |m|
        ensures Less(m[0].key, m[j].key)
      {
        if j > 1 {
          assert Less(m[1..][0].key, m[1..][j - 1].key);
          LessTransitive(m[0].key, m[1].key, m[j].key);
        }
      }
    }
  }

  /** The keys of the fields are in alphabetical order. */
  predicate Ordered(fields: seq<Field>) {
    forall i :: 0 <= i < |fields| - 1 ==> Less(fields[i].key, fields[i + 1].key)
  }

  lemma ScopeOrder(scope: Scope)
    ensures Ordered(ScopeFields(scope))
  {
    hide Quote;
  }

  lemma InputOrder(c: Candidate)
    ensures Ordered(InputFields(c))
  {
    hide Quote;
  }

  lemma TaskOrder(c: Candidate)
    ensures Ordered(TaskFields(c))
  {
    hide Quote, InputText;
  }

  lemma PayloadOrder(c: Candidate, scope: Scope)
    ensures Ordered(PayloadFields(c, scope))
  {
    hide ScopeText, TaskText;
  }

  lemma EnvelopeOrder(candidate: Text, payload: Text)
    ensures Ordered(EnvelopeFields(candidate, payload))
  {
  }

  /** The members in the order of the fields make the text of the object. */
  lemma ArrangedText(members: seq<CanonicalJson.Member>, sorted: seq<CanonicalJson.Member>, fields: seq<Field>)
    requires DistinctKeys(members) && Ordered(fields) && forall m :: m in members <==> m in sorted
    requires |sorted| == |fields| && forall i :: 0 <= i < |fields| ==> Shows(sorted[i], fields[i])
    ensures Canonical(Object(members)) == Braced(fields)
  {
    hide Canonical, Less, Braced;
    Chained(sorted);
    hide Shows;
    ObjectText(members, sorted, fields);
  }

  lemma ScopeTextIs(c: Candidate, scope: Scope)
    ensures Canonical(ScopeJson(scope)) == ScopeText(scope)
  {
    hide Ascii, Quote, Braced, Ordered, DistinctKeys;
    var m := ScopeJson(scope).members;
    ScopeOrder(scope);
    DistinctPayloadKeys(c, scope);
    ArrangedText(m, [m[1], m[0]], ScopeFields(scope));
  }

  lemma InputTextIs(c: Candidate, scope: Scope)
    ensures Canonical(InputJson(c)) == InputText(c)
  {
    hide Ascii, Quote, Braced, Ordered, DistinctKeys;
    InputOrder(c);
    DistinctPayloadKeys(c, scope);
    ArrangedText(InputJson(c).members, InputJson(c).members, InputFields(c));
  }

  lemma TaskTextIs(c: Candidate, scope: Scope)
    ensures Canonical(TaskJson(c)) == TaskText(c)
  {
    hide Ascii, Quote, Braced, Ordered, DistinctKeys, InputJson, InputText;
    InputTextIs(c, scope);
    var m := TaskJson(c).members;
    TaskOrder(c);
    DistinctPayloadKeys(c, scope);
    ArrangedText(m, [m[3], m[0], m[2], m[4], m[1]], TaskFields(c));
  }

  lemma WordTexts()
    ensures Canonical(Bool(true)) == Ascii("true") && Canonical(Bool(false)) == Ascii("false")
    ensures Canonical(Number(Ascii("1"))) == Ascii("1")
  {
  }

  lemma PayloadTextIs(c: Candidate, scope: Scope)
    ensures Canonical(Payload(c, scope)) == PayloadText(c, scope)
  {
    hide Ascii, Braced, Ordered, DistinctKeys, Canonical, TaskJson, TaskText, ScopeJson, ScopeText;
    TaskTextIs(c, scope);
    ScopeTextIs(c, scope);
    WordTexts();
    var m := Payload(c, scope).members;
    PayloadOrder(c, scope);
    DistinctPayloadKeys(c, scope);
    ArrangedText(m, [m[0], m[2], m[1]], PayloadFields(c, scope));
  }

  lemma EnvelopeTextIs(candidate: Json, payload: Json)
    ensures Canonical(Envelope(candidate, payload)) == EnvelopeText(Canonical(candidate), Canonical(payload))
  {
    hide Ascii, Braced, Ordered, DistinctKeys, Canonical;
    WordTexts();
    var m := Envelope(candidate, payload).members;
    DistinctEnvelopeKeys(candidate, payload);
    EnvelopeOrder(Canonical(candidate), Canonical(payload));
    ArrangedText(m, [m[1], m[2], m[3], m[0]], EnvelopeFields(Canonical(candidate), Canonical(payload)));
  }

  /** The id, the payload and what is digested, unit for unit. */
  lemma RequestText(k: Kernel, c: Candidate, scope: Scope)
    ensures var r := RequestFor(k, c, scope);
      && r.id == c.idempotencyKey && Canonical(r.payload) == PayloadText(c, scope)
      && r.requestHash == k.digest(EnvelopeText(Canonical(c.json), PayloadText(c, scope)))
  {
    hide Payload, PayloadText, EnvelopeText, Envelope;
    PayloadTextIs(c, scope);
    EnvelopeTextIs(c.json, Payload(c, scope));
  }

  // ---------- The binding check ----------

  function Lookup(members: seq<CanonicalJson.Member>, key: Text): Option<Json> {
    if members == [] then None
    else if members[0].key == key then Some(members[0].value)
    else Lookup(members[1..], key)
  }

  /** A property of a value that may not be an object; the object itself only if it is one. */
  function Property(j: Option<Json>, key: Text): Option<Json> {
    if j.Some? && j.value.Object? then Lookup(j.value.members, key) else None
  }

  function ObjectOnly(j: Option<Json>): Option<Json> {
    if j.Some? && j.value.Object? then j else None
  }

  /** `===` on two values read from different snapshots: composite values are never identical. */
  predicate StrictlyEqual(a: Option<Json>, b: Option<Json>) {
    if a.None? || b.None? then a == b
    else if a.value.Array? || a.value.Object? || b.value.Array? || b.value.Object? then false
    else a.value == b.value
  }

  predicate SameCanonical(a: Option<Json>, b: Option<Json>) {
    if a.None? || b.None? then a == b else Canonical(a.value) == Canonical(b.value)
  }

  /** Identifiers and scope of two payloads match. */
  predicate IdentifiersMatch(stored: Option<Json>, expected: Option<Json>) {
    var expectedTask := ObjectOnly(Property(expected, Ascii("task")));
    var storedTask := ObjectOnly(Property(stored, Ascii("task")));
    var expectedScope := ObjectOnly(Property(expected, Ascii("scope")));
    var storedScope := ObjectOnly(Property(stored, Ascii("scope")));
    && StrictlyEqual(Property(storedTask, Ascii("id")), Property(expectedTask, Ascii("id")))
    && StrictlyEqual(Property(storedScope, Ascii("tenantId")), Property(expectedScope, Ascii("tenantId")))
    && StrictlyEqual(Property(storedScope, Ascii("principalId")), Property(expectedScope, Ascii("principalId")))
    && SameCanonical(storedScope, expectedScope)
  }

  /** `assertEventJobBinding`: true where the source does not throw. */
  predicate Bound(k: Kernel, job: Job, expected: Request) {
    var expectedPayload := Some(k.project(expected.payload));
    var storedPayload := ObjectOnly(job.payload);
    && job.id == expected.id
    && job.requestHash == Some(expected.requestHash)
    && job.retrySafe == Some(false)
    && IdentifiersMatch(storedPayload, expectedPayload)
    && SameCanonical(storedPayload, expectedPayload)
  }

  lemma {:induction false} LookupMeaning(members: seq<CanonicalJson.Member>, key: Text)
    requires DistinctKeys(members)
    ensures Lookup(members, key).Some? <==> key in MeaningMembers(members)
    ensures Lookup(members, key).Some? ==> Meaning(Lookup(members, key).value) == MeaningMembers(members)[key]
    ensures Lookup(members, key).Some? ==> exists i :: 0 <= i < |members| && members[i].value == Lookup(members, key).value
    decreases members
  {
    if members != [] && members[0].key != key {
      LookupMeaning(members[1..], key);
      if Lookup(members, key).Some? {
        var i :| 0 <= i < |members[1..]| && members[1..][i].value == Lookup(members, key).value;
        assert members[i + 1].value == Lookup(members, key).value;
      }
    }
  }

  /** Both absent, or both present with the same meaning. */
  ghost predicate Agree(a: Option<Json>, b: Option<Json>) {
    && (a.Some? <==> b.Some?)
    && (a.Some? ==> WellFormed(a.value) && WellFormed(b.value) && Meaning(a.value) == Meaning(b.value))
  }

  lemma PropertiesAgree(a: Option<Json>, b: Option<Json>, key: Text)
    requires Agree(a, b)
    ensures Agree(Property(a, key), Property(b, key))
    ensures Agree(ObjectOnly(Property(a, key)), ObjectOnly(Property(b, key)))
  {
    if a.Some? && a.value.Object? {
      assert b.value.Object?;
      LookupMeaning(a.value.members, key);
      LookupMeaning(b.value.members, key);
    }
  }

  lemma AgreedScalars(a: Option<Json>, b: Option<Json>)
    requires Agree(a, b)
    ensures StrictlyEqual(a, b) <==> (b.Some? ==> !b.value.Array? && !b.value.Object?)
  {
  }

  predicate Scalar(j: Option<Json>) {
    j.Some? ==> !j.value.Array? && !j.value.Object?
  }

  /** The three identifiers that the check compares by identity are scalars or absent. */
  predicate ScalarIdentifiers(payload: Json) {
    var task := ObjectOnly(Property(Some(payload), Ascii("task")));
    var scope := ObjectOnly(Property(Some(payload), Ascii("scope")));
    && Scalar(Property(task, Ascii("id")))
    && Scalar(Property(scope, Ascii("tenantId"))) && Scalar(Property(scope, Ascii("principalId")))
  }

  /** The stored payload is the projection of the expected one, up to key order. */
  ghost predicate StoresPayload(k: Kernel, job: Job, expected: Request) {
    job.payload.Some? && Meaning(job.payload.value) == Meaning(k.project(expected.payload))
  }

  /**
   The check passes exactly for the same id, the same digest and the same projected payload, as
   long as the projection leaves the three identifiers scalar; otherwise it never passes.
   */
  lemma BindingIsExact(k: Kernel, job: Job, expected: Request)
    requires Faithful(k) && expected.payload.Object? && WellFormed(expected.payload)
    requires job.payload.Some? ==> WellFormed(job.payload.value)
    ensures Bound(k, job, expected) <==>
      && job.id == expected.id && job.requestHash == Some(expected.requestHash) && job.retrySafe == Some(false)
      && StoresPayload(k, job, expected) && ScalarIdentifiers(k.project(expected.payload))
  {
    hide Ascii, Canonical, Meaning, WellFormed, Lookup, Property, IdentifiersMatch, ScalarIdentifiers;
    var ep, sp := Some(k.project(expected.payload)), ObjectOnly(job.payload);
    if job.payload.Some? {
      CanonicalIsExact(job.payload.value, ep.value);
      SameMeaningSameKind(job.payload.value, ep.value);
    }
    if Agree(sp, ep) {
      AgreedIdentifiers(sp, ep);
    }
  }

  lemma AgreedIdentifiers(sp: Option<Json>, ep: Option<Json>)
    requires Agree(sp, ep) && ep.Some?
    ensures IdentifiersMatch(sp, ep) <==> ScalarIdentifiers(ep.value)
  {
    hide Ascii, Canonical, Meaning, WellFormed, Lookup, Property;
    PropertiesAgree(sp, ep, Ascii("task"));
    PropertiesAgree(sp, ep, Ascii("scope"));
    var st, et := ObjectOnly(Property(sp, Ascii("task"))), ObjectOnly(Property(ep, Ascii("task")));
    var ss, es := ObjectOnly(Property(sp, Ascii("scope"))), ObjectOnly(Property(ep, Ascii("scope")));
    PropertiesAgree(st, et, Ascii("id"));
    PropertiesAgree(ss, es, Ascii("tenantId"));
    PropertiesAgree(ss, es, Ascii("principalId"));
    AgreedScalars(Property(st, Ascii("id")), Property(et, Ascii("id")));
    AgreedScalars(Property(ss, Ascii("tenantId")), Property(es, Ascii("tenantId")));
    AgreedScalars(Property(ss, Ascii("principalId")), Property(es, Ascii("principalId")));
    if ss.Some? {
      CanonicalIsExact(ss.value, es.value);
    }
  }

  lemma SameMeaningSameKind(a: Json, b: Json)
    ensures Meaning(a) == Meaning(b) && b.Object? ==> a.Object?
  {
  }

  /** Equal digests come from equal candidates, payloads and scopes. */
  lemma OneRequestPerHash(k: Kernel, c1: Candidate, s1: Scope, c2: Candidate, s2: Scope)
    requires Faithful(k) && WellFormed(c1.json) && WellFormed(c2.json)
    requires RequestFor(k, c1, s1).requestHash == RequestFor(k, c2, s2).requestHash
    ensures Meaning(c1.json) == Meaning(c2.json)
    ensures Payload(c1, s1) == Payload(c2, s2) && s1 == s2
  {
    PayloadWellFormed(c1, s1);
    PayloadWellFormed(c2, s2);
    HashDetermines(k, c1.json, Payload(c1, s1), c2.json, Payload(c2, s2));
    PayloadDetermines(c1, s1, c2, s2);
  }

  /** One stored job is never bound to two requests: their candidates and payloads are the same. */
  lemma OneRequestPerJob(k: Kernel, job: Job, c1: Candidate, s1: Scope, c2: Candidate, s2: Scope)
    requires Faithful(k) && WellFormed(c1.json) && WellFormed(c2.json)
    requires Bound(k, job, RequestFor(k, c1, s1)) && Bound(k, job, RequestFor(k, c2, s2))
    ensures Meaning(c1.json) == Meaning(c2.json)
    ensures Payload(c1, s1) == Payload(c2, s2) && s1 == s2
  {
    OneRequestPerHash(k, c1, s1, c2, s2);
  }

  /** Payloads of the fixed shape that mean the same are the same, scope included. */
  lemma PayloadDetermines(c1: Candidate, s1: Scope, c2: Candidate, s2: Scope)
    requires Meaning(Payload(c1, s1)) == Meaning(Payload(c2, s2))
    ensures Payload(c1, s1) == Payload(c2, s2) && s1 == s2
  {
    hide Ascii, WellFormed, TaskJson, ScopeJson;
    PayloadWellFormed(c1, s1);
    PayloadWellFormed(c2, s2);
    var p1, p2 := Payload(c1, s1), Payload(c2, s2);
    SameShape(p1, p2);
    assert p1.members[1].value == TaskJson(c1) && p2.members[1].value == TaskJson(c2);
    assert p1.members[2].value == ScopeJson(s1) && p2.members[2].value == ScopeJson(s2);
    TaskDetermines(c1, c2);
    ScopeDetermines(s1, s2);
  }

  lemma ScopeDetermines(s1: Scope, s2: Scope)
    requires Meaning(ScopeJson(s1)) == Meaning(ScopeJson(s2))
    requires WellFormed(ScopeJson(s1)) && WellFormed(ScopeJson(s2))
    ensures s1 == s2
  {
    hide Ascii, WellFormed;
    var a, b := ScopeJson(s1), ScopeJson(s2);
    SameShape(a, b);
    assert Meaning(a.members[0].value) == Meaning(b.members[0].value);
    assert Meaning(a.members[1].value) == Meaning(b.members[1].value);
  }

  lemma TaskDetermines(c1: Candidate, c2: Candidate)
    requires Meaning(TaskJson(c1)) == Meaning(TaskJson(c2))
    requires WellFormed(TaskJson(c1)) && WellFormed(TaskJson(c2)) && WellFormed(InputJson(c1)) && WellFormed(InputJson(c2))
    ensures TaskJson(c1) == TaskJson(c2)
  {
    hide Ascii, WellFormed, InputJson;
    var a, b := TaskJson(c1), TaskJson(c2);
    SameShape(a, b);
    assert a.members[2].value == InputJson(c1) && b.members[2].value == InputJson(c2);
    assert Meaning(a.members[0].value) == Meaning(b.members[0].value);
    assert Meaning(a.members[1].value) == Meaning(b.members[1].value);
    assert Meaning(a.members[4].value) == Meaning(b.members[4].value);
    InputDetermines(c1, c2);
  }

  lemma InputDetermines(c1: Candidate, c2: Candidate)
    requires Meaning(InputJson(c1)) == Meaning(InputJson(c2))
    requires WellFormed(InputJson(c1)) && WellFormed(InputJson(c2))
    ensures InputJson(c1) == InputJson(c2)
  {
    hide Ascii, WellFormed;
    var a, b := InputJson(c1), InputJson(c2);
    SameShape(a, b);
    assert Meaning(a.members[0].value) == Meaning(b.members[0].value);
    assert Meaning(a.members[1].value) == Meaning(b.members[1].value);
  }

  // ---------- Submission ----------

  /** The event a stored job came from. */
  datatype Origin = Origin(candidate: Candidate, scope: Scope)

  /** The durable job store behind the supervisor. */
  class Supervisor {
    const kernel: Kernel
    var jobs: map<Text, Job>

    /** Where the jobs stored for events came from; jobs of other clients have no origin. */
    ghost var origins: map<Text, Origin>

    ghost predicate Valid()
      reads this
    {
      && Faithful(kernel)
      && (forall id :: id in jobs ==> jobs[id].id == id)
      && (forall id :: id in origins ==>
            && id in jobs && WellFormed(origins[id].candidate.json)
            && jobs[id].requestHash == Some(RequestFor(kernel, origins[id].candidate, origins[id].scope).requestHash))
    }

    constructor (kernel: Kernel)
      requires Faithful(kernel)
      ensures Valid() && jobs == map[] && origins == map[] && this.kernel == kernel
    {
      this.kernel := kernel;
      jobs := map[];
      origins := map[];
    }

    /** The idempotent submission: an existing job is returned as it is. */
    method Submit(r: Request, ghost origin: Origin) returns (job: Job)
      requires Valid() && WellFormed(origin.candidate.json)
      requires r == RequestFor(kernel, origin.candidate, origin.scope)
      modifies this
      ensures Valid()
      ensures r.id in jobs && job == jobs[r.id]
      ensures forall id :: id in old(jobs) ==> id in jobs && jobs[id] == old(jobs)[id]
      ensures forall id :: id in old(origins) ==> id in origins && origins[id] == old(origins)[id]
      ensures r.id !in old(jobs) ==>
        r.id in origins && origins[r.id] == origin && job == Job(r.id, "queued", Some(kernel.project(r.payload)), Some(r.requestHash), Some(false))
    {
      hide RequestFor, Faithful, WellFormed;
      assert r.requestHash == RequestFor(kernel, origin.candidate, origin.scope).requestHash;
      if r.id in jobs {
        return jobs[r.id];
      }
      job := Job(r.id, "queued", Some(kernel.project(r.payload)), Some(r.requestHash), Some(false));
      jobs := jobs[r.id := job];
      origins := origins[r.id := origin];
    }

    /**
     `submitDurableEventJob`.  Another process may store a job under the id between the look-up and
     the submission: `raced`, and `racer` if it does so for an event.  Every job returned is bound to
     this request; if it was stored for an event, in whichever process, that event had this same
     candidate and scope; and no stored job is ever changed.
     */
    method SubmitEvent(c: Candidate, scope: Scope, raced: Option<Job>, ghost racer: Option<Origin>) returns (r: Result<Job>)
      requires Valid() && WellFormed(c.json)
      requires raced.Some? ==> raced.value.id == c.idempotencyKey
      requires racer.Some? ==>
        && raced.Some? && WellFormed(racer.value.candidate.json)
        && raced.value.requestHash == Some(RequestFor(kernel, racer.value.candidate, racer.value.scope).requestHash)
      modifies this
      ensures Valid()
      ensures forall id :: id in old(jobs) ==> id in jobs && jobs[id] == old(jobs)[id]
      ensures r.Ok? <==> c.idempotencyKey in jobs && Bound(kernel, jobs[c.idempotencyKey], RequestFor(kernel, c, scope))
      ensures r.Ok? ==>
        && r.value == jobs[c.idempotencyKey]
        && (c.idempotencyKey in origins ==>
              var o := origins[c.idempotencyKey];
              Meaning(o.candidate.json) == Meaning(c.json) && Payload(o.candidate, o.scope) == Payload(c, scope) && o.scope == scope)
      ensures c.idempotencyKey !in old(jobs) && raced.Some? ==>
        c.idempotencyKey in jobs && jobs[c.idempotencyKey] == raced.value
      ensures c.idempotencyKey !in old(jobs) && (raced.None? || racer.Some?) ==>
        c.idempotencyKey in origins && origins[c.idempotencyKey] == if raced.None? then Origin(c, scope) else racer.value
    {
      hide Payload, Bound, Canonical, Faithful;
      var request := RequestFor(kernel, c, scope);
      if request.id in jobs {
        if !Bound(kernel, jobs[request.id], request) {
          return Error;
        }
        BoundHash(kernel, jobs[request.id], request);
        if request.id in origins { OneRequestPerHash(kernel, origins[request.id].candidate, origins[request.id].scope, c, scope); }
        return Ok(jobs[request.id]);
      }
      if raced.Some? {
        jobs := jobs[request.id := raced.value];
        if racer.Some? { origins := origins[request.id := racer.value]; }
      }
      var job := Submit(request, Origin(c, scope));
      if !Bound(kernel, job, request) {
        return Error;
      }
      BoundHash(kernel, job, request);
      if request.id in origins { OneRequestPerHash(kernel, origins[request.id].candidate, origins[request.id].scope, c, scope); }
      return Ok(job);
    }
  }

  lemma BoundHash(k: Kernel, job: Job, expected: Request)
    requires Bound(k, job, expected)
    ensures job.id == expected.id && job.requestHash == Some(expected.requestHash)
  {
  }
}
