/**
 * `GET /api/competitors` and `POST /api/competitors`
 * (app/api/competitors/route.ts).
 */
module CompetitorsRoute {
  import opened Wrappers
  import opened Http
  import opened DatabaseTypes
  import opened Store
  import opened SupabaseServer

  datatype CompetitorRequest = CompetitorRequest(
    handle: Option<string>,
    platform: Option<string>,
    brandId: Option<string>)

  const DefaultPlatform := "instagram"
  const FieldsRequired := "Handle and brand_id are required"
  const NotOwner := "You do not own this brand"
  const AlreadyTracked := "Competitor already exists"

  /** The filter `.eq('brand_id', brandId)`. */
  function BrandIdIs(brandId: string): Competitor -> bool {
    (c: Competitor) => c.brandId == brandId
  }

  /** The filter `.eq('brand_id', brandId).eq('handle', handle)`. */
  function SameEntry(brandId: string, handle: string): Competitor -> bool {
    (c: Competitor) => c.brandId == brandId && c.handle == handle
  }

  /** The `.single()` duplicate probe finds a row. */
  predicate Tracked(competitors: seq<Competitor>, brandId: string, handle: string) {
    SelectSingle(Filter(competitors, SameEntry(brandId, handle))).Row?
  }

  /** With unique (brand, handle) pairs, the probe finds a row exactly when the pair is already tracked. */
  lemma TrackedIff(competitors: seq<Competitor>, brandId: string, handle: string)
    requires UniqueHandles(competitors)
    ensures Tracked(competitors, brandId, handle) <==>
      exists k :: 0 <= k < |competitors| && competitors[k].brandId == brandId && competitors[k].handle == handle
  {
    var p := SameEntry(brandId, handle);
    assert forall i, j :: 0 <= i < |competitors| && 0 <= j < |competitors| && p(competitors[i]) && p(competitors[j]) ==> i == j;
    FilterExactlyOne(competitors, p);
    UniqueMatch(competitors, p);
  }

  /**
   * `GET`: 401 without a caller; a caller whose brand query finds no single
   * row gets 200 with an empty list; otherwise 200 with exactly the
   * competitors filed under that brand, newest first.
   */
  function Get(db: Database, caller: Option<UserId>): (r: Response<seq<Competitor>>)
    reads db
    ensures caller.None? ==> r == Response(401, Error(Unauthorized))
    ensures caller.Some? ==> r.status == 200 && r.body.Data?
    ensures caller.Some? && !HasBrand(db.brands, caller.value) ==> r.body.value == []
    ensures caller.Some? && HasBrand(db.brands, caller.value) ==>
      var brand := SelectSingle(Filter(db.brands, OwnerIs(caller.value))).row;
      && brand in db.brands && brand.userId == caller.value
      && NewestFirst(r.body.value)
      && multiset(r.body.value) == multiset(Filter(db.competitors, BrandIdIs(brand.id)))
      && (forall c :: multiset(r.body.value)[c] == (if c.brandId == brand.id then multiset(db.competitors)[c] else 0))
      && forall c :: c in r.body.value <==> c in db.competitors && c.brandId == brand.id
  {
    match caller
    case None => Response(401, Error(Unauthorized))
    case Some(user) =>
      var q := SelectSingle(Filter(db.brands, OwnerIs(user)));
      if !q.Row? then Response(200, Data([]))
      else
        FilterCounts(db.competitors, BrandIdIs(q.row.id));
        Response(200, Data(OrderByAddedAtDesc(Filter(db.competitors, BrandIdIs(q.row.id)))))
  }

  /**
   * On consistent tables, a caller who owns brand `brands[k]` is shown
   * exactly the competitors filed under it, and a caller without a brand an
   * empty list.
   */
  lemma GetShowsOwnBrand(db: Database, user: UserId)
    requires Invariant(db.brands, db.competitors, db.serial)
    ensures (forall k :: 0 <= k < |db.brands| ==> db.brands[k].userId != user) ==>
      Get(db, Some(user)) == Response(200, Data([]))
    ensures forall k :: 0 <= k < |db.brands| && db.brands[k].userId == user ==>
      forall c :: c in Get(db, Some(user)).body.value <==> c in db.competitors && c.brandId == db.brands[k].id
  {
    HasBrandIff(db.brands, user);
    forall k | 0 <= k < |db.brands| && db.brands[k].userId == user
      ensures forall c :: c in Get(db, Some(user)).body.value <==> c in db.competitors && c.brandId == db.brands[k].id
    {
      var brand := SelectSingle(Filter(db.brands, OwnerIs(user))).row;
      var listed := Get(db, Some(user));
      assert brand in db.brands;
      var j :| 0 <= j < |db.brands| && db.brands[j] == brand;
      assert db.brands[j].userId == db.brands[k].userId;
    }
  }

  /** `!handle || !brand_id`: both fields are present and non-empty. */
  predicate FieldsGiven(req: CompetitorRequest) {
    req.handle.Some? && req.handle.value != "" && req.brandId.Some? && req.brandId.value != ""
  }

  /**
   * What `POST` answers. Checks run in the order caller, required fields,
   * ownership, duplicate. The handle is stored exactly as sent, and the
   * platform falls back to "instagram" only when the field is absent.
   */
  function PostResult(brands: seq<Brand>, competitors: seq<Competitor>, serial: nat,
                      caller: Option<UserId>, req: CompetitorRequest): (r: Response<Competitor>)
    ensures r.status == 201 || r.status == 400 || r.status == 401 || r.status == 403
    ensures r.status == 401 <==> caller.None?
    ensures r.status == 403 <==>
      caller.Some? && FieldsGiven(req) && !VerifyBrandOwnership(brands, req.brandId.value, caller.value)
    ensures r.status == 201 ==> caller.Some? && FieldsGiven(req) && r.body.Data? && var c := r.body.value;
      && c.handle == req.handle.value
      && c.brandId == req.brandId.value
      && c.platform == (if req.platform.Some? then req.platform.value else DefaultPlatform)
      && c.id == Decimal(serial) && c.addedAt == serial
      && VerifyBrandOwnership(brands, c.brandId, caller.value)
      && !Tracked(competitors, c.brandId, c.handle)
    ensures r.status != 201 ==> r.body.Error?
  {
    if caller.None? then Response(401, Error(Unauthorized))
    else
      var user := caller.value;
      var platform := req.platform.GetOr(DefaultPlatform);
      if req.handle.None? || req.handle.value == "" || req.brandId.None? || req.brandId.value == "" then
        Response(400, Error(FieldsRequired))
      else
        var handle, brandId := req.handle.value, req.brandId.value;
        if !VerifyBrandOwnership(brands, brandId, user) then Response(403, Error(NotOwner))
        else if Tracked(competitors, brandId, handle) then Response(400, Error(AlreadyTracked))
        else Response(201, Data(Competitor(Decimal(serial), handle, platform, brandId, serial)))
  }

  /** The first failing check decides the answer, whatever the tables hold. */
  lemma PostCheckOrder(brands: seq<Brand>, competitors: seq<Competitor>, serial: nat,
                       caller: Option<UserId>, req: CompetitorRequest)
    ensures caller.Some? && !FieldsGiven(req) ==>
      PostResult(brands, competitors, serial, caller, req) == Response(400, Error(FieldsRequired))
    ensures caller.Some? && FieldsGiven(req) && !VerifyBrandOwnership(brands, req.brandId.value, caller.value) ==>
      PostResult(brands, competitors, serial, caller, req) == Response(403, Error(NotOwner))
    ensures (caller.Some? && FieldsGiven(req) && VerifyBrandOwnership(brands, req.brandId.value, caller.value)
             && Tracked(competitors, req.brandId.value, req.handle.value)) ==>
      PostResult(brands, competitors, serial, caller, req) == Response(400, Error(AlreadyTracked))
  {
  }

  /**
   * On consistent tables, a competitor is added exactly when the caller is
   * known, both fields are given, the named brand exists and is the
   * caller's, and that brand does not track the same handle yet.
   */
  lemma PostCreatesExactly(brands: seq<Brand>, competitors: seq<Competitor>, serial: nat,
                                               caller: Option<UserId>, req: CompetitorRequest)
    requires Invariant(brands, competitors, serial)
    ensures PostResult(brands, competitors, serial, caller, req).status == 201 <==>
      && caller.Some? && FieldsGiven(req)
      && (exists k :: 0 <= k < |brands| && brands[k].id == req.brandId.value && brands[k].userId == caller.value)
      && !(exists k :: 0 <= k < |competitors|
             && competitors[k].brandId == req.brandId.value && competitors[k].handle == req.handle.value)
  {
    if caller.Some? && FieldsGiven(req) {
      OwnershipUnderUniqueIds(brands, req.brandId.value, caller.value);
      TrackedIff(competitors, req.brandId.value, req.handle.value);
    }
  }

  /** An added competitor keeps every table invariant true; in particular it is filed under an existing brand. */
  lemma PostPreservesInvariant(brands: seq<Brand>, competitors: seq<Competitor>, serial: nat,
                                                   caller: Option<UserId>, req: CompetitorRequest)
    requires Invariant(brands, competitors, serial)
    requires PostResult(brands, competitors, serial, caller, req).status == 201
    ensures Invariant(brands, competitors + [PostResult(brands, competitors, serial, caller, req).body.value], serial + 1)
  {
    var c := PostResult(brands, competitors, serial, caller, req).body.value;
    OwnershipUnderUniqueIds(brands, c.brandId, caller.value);
    TrackedIff(competitors, c.brandId, c.handle);
    AddCompetitorKeepsInvariant(brands, competitors, serial, c);
  }

  /**
   * `POST`: runs the checks in order and returns at the first that fails;
   * only a 201 adds a row (one competitor, drawing one serial number).
   * Nothing else changes, and the table invariants are kept.
   */
  method Post(db: Database, caller: Option<UserId>, req: CompetitorRequest) returns (r: Response<Competitor>)
    modifies db`competitors, db`serial
    ensures r == PostResult(db.brands, old(db.competitors), old(db.serial), caller, req)
    ensures r.status == 201 ==>
      db.competitors == old(db.competitors) + [r.body.value] && db.serial == old(db.serial) + 1
    ensures r.status != 201 ==> db.competitors == old(db.competitors) && db.serial == old(db.serial)
    ensures old(db.Valid()) ==> db.Valid()
  {
    if caller.None? {
      return Response(401, Error(Unauthorized));
    }
    var user := caller.value;
    var platform := req.platform.GetOr(DefaultPlatform);

    if req.handle.None? || req.handle.value == "" || req.brandId.None? || req.brandId.value == "" {
      return Response(400, Error(FieldsRequired));
    }
    var handle, brandId := req.handle.value, req.brandId.value;

    var ownsIt := VerifyBrandOwnership(db.brands, brandId, user);
    if !ownsIt {
      return Response(403, Error(NotOwner));
    }

    var existing := SelectSingle(Filter(db.competitors, SameEntry(brandId, handle)));
    if existing.Row? {
      return Response(400, Error(AlreadyTracked));
    }

    var competitor := Competitor(Decimal(db.serial), handle, platform, brandId, db.serial);
    if db.Valid() {
      PostPreservesInvariant(db.brands, db.competitors, db.serial, caller, req);
    }
    db.competitors := db.competitors + [competitor];
    db.serial := db.serial + 1;
    r := Response(201, Data(competitor));
  }
}
