/** The slug-to-identifier mapping service: an append-only collection of
    `{uuid, slug, type}` records behind two endpoints, `POST /api/get-id`
    (find or create the identifier of a slug of some type) and
    `GET /api/get-slug/:uuid` (look a record up by identifier).

    The database is a sequence of records in insertion order; `findOne`
    returns the first match in that order. A random version-4 identifier is
    replaced by a `candidate` identifier supplied with the request, and the
    database connection by a `connected` flag. */
module Mapping {

  import opened Base

  datatype Record = Record(uuid: string, slug: string, kind: string)

  type Store = seq<Record>

  /** Reply of `POST /api/get-id`. */
  datatype GetIdResponse =
    | Issued(uuid: string)  // 200 {uuid}
    | BadRequest            // 400: slug or type missing
    | ServerError           // 500: connection failed or the insert was refused

  datatype GetIdResult = GetIdResult(response: GetIdResponse, store: Store)

  /** Reply of `GET /api/get-slug/:uuid`. */
  datatype ResolveResponse =
    | Found(record: Record)  // 200 with the record
    | NotFound               // 404
    | Unavailable            // 500: connection failed

  /** A record is stored under this slug and type. */
  predicate HasKey(r: Record, slug: string, kind: string) {
    r.slug == slug && r.kind == kind
  }

  /** The database invariants: identifiers are pairwise distinct (the
      unique index on `uuid`), and no two records share a (slug, type) key. */
  predicate Wf(store: Store) {
    forall i, j :: 0 <= i < j < |store| ==>
      && store[i].uuid != store[j].uuid
      && !HasKey(store[j], store[i].slug, store[i].kind)
  }

  function Uuids(store: Store): set<string> {
    set r | r in store :: r.uuid
  }

  /** `Mapping.findOne({slug, type})`: the first record with the key. */
  function FindByKey(store: Store, slug: string, kind: string): (r: Option<Record>)
    ensures r.None? <==> forall i :: 0 <= i < |store| ==> !HasKey(store[i], slug, kind)
    ensures r.Some? ==> r.value in store && HasKey(r.value, slug, kind)
    // the record found is the earliest one with the key
    ensures r.Some? ==>
      exists i :: 0 <= i < |store| && store[i] == r.value &&
        (forall k :: 0 <= k < i ==> !HasKey(store[k], slug, kind))
    decreases |store|
  {
    if |store| == 0 then None
    else if HasKey(store[0], slug, kind) then Some(store[0])
    else
      var r := FindByKey(store[1..], slug, kind);
      assert forall i :: 1 <= i < |store| ==> store[i] == store[1..][i - 1];
      assert r.Some? ==>
        exists i :: 0 <= i < |store| && store[i] == r.value &&
          (forall k :: 0 <= k < i ==> !HasKey(store[k], slug, kind)) by {
        if r.Some? {
          var j :| 0 <= j < |store[1..]| && store[1..][j] == r.value &&
            forall k :: 0 <= k < j ==> !HasKey(store[1..][k], slug, kind);
          assert store[j + 1] == r.value;
          assert forall k :: 0 <= k < j + 1 ==> !HasKey(store[k], slug, kind) by {
            forall k | 0 <= k < j + 1 ensures !HasKey(store[k], slug, kind) {
              if k > 0 { assert store[k] == store[1..][k - 1]; }
            }
          }
        }
      }
      r
  }

  /** `Mapping.findOne({uuid})`: the first record with the identifier. */
  function FindByUuid(store: Store, uuid: string): (r: Option<Record>)
    ensures r.None? <==> uuid !in Uuids(store)
    ensures r.Some? ==> r.value in store && r.value.uuid == uuid
    // the record found is the earliest one with the identifier
    ensures r.Some? ==>
      exists i :: 0 <= i < |store| && store[i] == r.value &&
        (forall k :: 0 <= k < i ==> store[k].uuid != uuid)
    decreases |store|
  {
    if |store| == 0 then None
    else if store[0].uuid == uuid then Some(store[0])
    else
      var r := FindByUuid(store[1..], uuid);
      assert forall x :: x in store ==> x == store[0] || x in store[1..];
      assert r.Some? ==>
        exists i :: 0 <= i < |store| && store[i] == r.value &&
          (forall k :: 0 <= k < i ==> store[k].uuid != uuid) by {
        if r.Some? {
          var j :| 0 <= j < |store[1..]| && store[1..][j] == r.value &&
            forall k :: 0 <= k < j ==> store[1..][k].uuid != uuid;
          assert store[j + 1] == r.value;
          assert forall k :: 0 <= k < j + 1 ==> store[k].uuid != uuid by {
            forall k | 0 <= k < j + 1 ensures store[k].uuid != uuid {
              if k > 0 { assert store[k] == store[1..][k - 1]; }
            }
          }
        }
      }
      r
  }

  /** The handler of `POST /api/get-id`. The connection is established
      before the body is inspected, so a database outage answers 500 even to
      a malformed request; a missing or empty slug or type answers 400
      without touching the store; an existing record answers its identifier;
      otherwise one record with the candidate identifier is inserted, unless the
      unique index refuses it because that identifier is already taken. */
  function GetOrCreateId(store: Store, connected: bool, slug: Option<string>, kind: Option<string>, candidate: string): (r: GetIdResult)
    // malformed input is answered 400 (once connected) and never reaches the store
    ensures r.response == BadRequest <==>
      connected && !(slug.Some? && Truthy(slug.value) && kind.Some? && Truthy(kind.value))
    // every answer other than a new identifier leaves the store as it was
    ensures !r.response.Issued? ==> r.store == store
    // the store only grows, by at most one record, at its end
    ensures |store| <= |r.store| <= |store| + 1 && r.store[..|store|] == store
    // an issued identifier belongs to a record of exactly the requested key
    ensures r.response.Issued? ==>
      slug.Some? && kind.Some? && Record(r.response.uuid, slug.value, kind.value) in r.store
    // an existing key is answered with its identifier and nothing is written
    ensures (&& connected && slug.Some? && Truthy(slug.value) && kind.Some? && Truthy(kind.value)
             && FindByKey(store, slug.value, kind.value).Some?) ==>
      r == GetIdResult(Issued(FindByKey(store, slug.value, kind.value).value.uuid), store)
    // a record is added only for a key that had none, and only with the candidate identifier
    ensures |r.store| == |store| + 1 ==>
      && slug.Some? && kind.Some?
      && r.response == Issued(candidate)
      && candidate !in Uuids(store)
      && r.store[|store|] == Record(candidate, slug.value, kind.value)
      && FindByKey(store, slug.value, kind.value).None?
    // a well-formed request for a new key with an unused candidate creates its record
    ensures (&& connected && slug.Some? && Truthy(slug.value) && kind.Some? && Truthy(kind.value)
             && FindByKey(store, slug.value, kind.value).None? && candidate !in Uuids(store)) ==>
      r == GetIdResult(Issued(candidate), store + [Record(candidate, slug.value, kind.value)])
    // 500 exactly when the database is unreachable or the unique index refuses the candidate
    ensures r.response == ServerError <==>
      || !connected
      || (&& slug.Some? && Truthy(slug.value) && kind.Some? && Truthy(kind.value)
          && FindByKey(store, slug.value, kind.value).None? && candidate in Uuids(store))
    ensures Wf(store) ==> Wf(r.store)
  {
    if !connected then
      GetIdResult(ServerError, store)
    else if !(slug.Some? && Truthy(slug.value) && kind.Some? && Truthy(kind.value)) then
      GetIdResult(BadRequest, store)
    else
      match FindByKey(store, slug.value, kind.value)
      case Some(existing) => GetIdResult(Issued(existing.uuid), store)
      case None =>
        if candidate in Uuids(store) then
          GetIdResult(ServerError, store)
        else
          var created := Record(candidate, slug.value, kind.value);
          var store' := store + [created];
          assert store'[..|store|] == store;
          assert forall i :: 0 <= i < |store| ==> store[i] in store;
          GetIdResult(Issued(candidate), store')
  }

  /** The handler of `GET /api/get-slug/:uuid`. */
  function Resolve(store: Store, connected: bool, uuid: string): (r: ResolveResponse)
    ensures r.Found? ==> r.record in store && r.record.uuid == uuid
    // an unknown identifier is answered 404, never with a made-up record
    ensures connected && uuid !in Uuids(store) ==> r == NotFound
    ensures r == NotFound ==> uuid !in Uuids(store)
    ensures connected && uuid in Uuids(store) ==> r.Found?
    ensures !connected <==> r == Unavailable
  {
    if !connected then Unavailable
    else match FindByUuid(store, uuid)
      case Some(record) => Found(record)
      case None => NotFound
  }

  /** In a well-formed store an identifier determines its record. */
  lemma ResolveUnique(store: Store, record: Record)
    requires Wf(store) && record in store
    ensures Resolve(store, true, record.uuid) == Found(record)
  {
    var found := FindByUuid(store, record.uuid).value;
    var i :| 0 <= i < |store| && store[i] == found;
    var j :| 0 <= j < |store| && store[j] == record;
    assert store[i].uuid == store[j].uuid;
  }

  /** Asking twice for the same key gives the same identifier, and the
      second request writes nothing, whatever identifier it would have drawn. */
  lemma GetOrCreateIdempotent(store: Store, slug: string, kind: string, candidate1: string, candidate2: string)
    requires Truthy(slug) && Truthy(kind)
    requires GetOrCreateId(store, true, Some(slug), Some(kind), candidate1).response.Issued?
    ensures var first := GetOrCreateId(store, true, Some(slug), Some(kind), candidate1);
      var second := GetOrCreateId(first.store, true, Some(slug), Some(kind), candidate2);
      && second.response == first.response
      && second.store == first.store
  {
    var first := GetOrCreateId(store, true, Some(slug), Some(kind), candidate1);
    match FindByKey(store, slug, kind)
    case Some(existing) =>
    case None =>
      var created := Record(candidate1, slug, kind);
      assert first.store == store + [created];
      var found := FindByKey(first.store, slug, kind);
      assert found.Some? by { assert HasKey(first.store[|store|], slug, kind); }
      var i :| 0 <= i < |first.store| && first.store[i] == found.value;
      assert i == |store|;
  }

  /** Resolving an identifier the service has just issued gives back the
      record of the requested slug and type. */
  lemma GetThenResolve(store: Store, slug: string, kind: string, candidate: string)
    requires Wf(store)
    requires GetOrCreateId(store, true, Some(slug), Some(kind), candidate).response.Issued?
    ensures var r := GetOrCreateId(store, true, Some(slug), Some(kind), candidate);
      Resolve(r.store, true, r.response.uuid) == Found(Record(r.response.uuid, slug, kind))
  {
    var r := GetOrCreateId(store, true, Some(slug), Some(kind), candidate);
    ResolveUnique(r.store, Record(r.response.uuid, slug, kind));
  }

  // ------------------------------------------------------- request streams

  /** A request to the service, with the identifier the generator would
      draw for it and whether the database is reachable while it runs. */
  datatype Request =
    | GetId(slug: Option<string>, kind: Option<string>, candidate: string, up: bool)
    | GetSlug(uuid: string, up: bool)

  /** The store after serving one request: a lookup never writes. */
  function Handle(store: Store, request: Request): (next: Store)
    ensures |store| <= |next| <= |store| + 1 && next[..|store|] == store
    ensures Wf(store) ==> Wf(next)
  {
    match request
    case GetId(slug, kind, candidate, up) => GetOrCreateId(store, up, slug, kind, candidate).store
    case GetSlug(_, _) => store
  }

  /** The store after serving the requests one after another. */
  function Serve(store: Store, requests: seq<Request>): Store
    decreases |requests|
  {
    if |requests| == 0 then store
    else Serve(Handle(store, requests[0]), requests[1..])
  }

  /** Whatever the requests, no record is ever changed or removed, the store
      grows by at most one record per request, and the invariants hold
      throughout. */
  lemma {:induction false} ServeAppendOnly(store: Store, requests: seq<Request>)
    requires Wf(store)
    ensures var after := Serve(store, requests);
      && |store| <= |after| <= |store| + |requests|
      && after[..|store|] == store
      && Wf(after)
    decreases |requests|
  {
    if |requests| > 0 {
      var next := Handle(store, requests[0]);
      ServeAppendOnly(next, requests[1..]);
      var after := Serve(next, requests[1..]);
      assert after[..|next|][..|store|] == after[..|store|];
    }
  }

  /** Once issued, an identifier keeps resolving to the same record however
      many requests follow. */
  lemma IssuedStaysResolvable(store: Store, record: Record, requests: seq<Request>)
    requires Wf(store) && record in store
    ensures Resolve(Serve(store, requests), true, record.uuid) == Found(record)
  {
    ServeAppendOnly(store, requests);
    var after := Serve(store, requests);
    var i :| 0 <= i < |store| && store[i] == record;
    assert after[i] == record;
    ResolveUnique(after, record);
  }

  /** Example: on an empty store the first request for
      ("one-piece", "series") creates a record, the second answers the same
      identifier, and the identifier resolves to that record; an identifier
      that was never issued is not found. */
  lemma OnePieceScenario(u: string)
    ensures var first := GetOrCreateId([], true, Some("one-piece"), Some("series"), u);
      var second := GetOrCreateId(first.store, true, Some("one-piece"), Some("series"), "another-draw");
      && first.response == Issued(u)
      && second.response == Issued(u)
      && Resolve(second.store, true, u) == Found(Record(u, "one-piece", "series"))
      && (u != "not-a-real-uuid" ==> Resolve(second.store, true, "not-a-real-uuid") == NotFound)
  {
    var first := GetOrCreateId([], true, Some("one-piece"), Some("series"), u);
    assert first.store == [Record(u, "one-piece", "series")];
    GetOrCreateIdempotent([], "one-piece", "series", u, "another-draw");
    GetThenResolve([], "one-piece", "series", u);
  }
}
