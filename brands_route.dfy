/**
 * `GET /api/brands` and `POST /api/brands` (app/api/brands/route.ts). The
 * caller is the identity the session resolved to, or `None`; the request
 * body's fields are strings or absent.
 */
module BrandsRoute {
  import opened Wrappers
  import opened JsString
  import opened Http
  import opened DatabaseTypes
  import opened Store

  datatype BrandRequest = BrandRequest(
    brandName: Option<string>,
    instagramHandle: Option<string>,
    industry: Option<string>)

  const NameRequired := "Brand name is required"
  const NameLength := "Brand name must be between 2 and 100 characters"
  const IndustryRequired := "Industry is required"
  const AlreadyHasBrand := "User already has a brand"

  /**
   * `GET`: 401 without a caller; otherwise 200 with the caller's brand, or
   * with `null` when the caller has none (no row is not an error).
   */
  function Get(db: Database, caller: Option<UserId>): (r: Response<Option<Brand>>)
    reads db
    ensures caller.None? ==> r == Response(401, Error(Unauthorized))
    ensures caller.Some? ==> r.status == 200 && r.body.Data?
    ensures caller.Some? ==> (r.body.value.Some? <==> HasBrand(db.brands, caller.value))
    ensures caller.Some? && r.body.value.Some? ==>
      r.body.value.value in db.brands && r.body.value.value.userId == caller.value
  {
    match caller
    case None => Response(401, Error(Unauthorized))
    case Some(user) =>
      // PGRST116 (no single row) is answered with `{ brand: null }`
      var q := SelectSingle(Filter(db.brands, OwnerIs(user)));
      if q.Row? then Response(200, Data(Some(q.row))) else Response(200, Data(None))
  }

  /** `instagram_handle?.trim() || null`: the trimmed handle, or null when absent or blank. */
  function CleanHandle(handle: Option<string>): (r: Option<string>)
    ensures r.None? <==> handle.None? || forall i :: 0 <= i < |handle.value| ==> IsWS(handle.value[i])
    ensures r.Some? ==> r.value != "" && Trimmed(r.value) && r.value == Trim(handle.value)
  {
    match handle
    case None => None
    case Some(h) =>
      TrimEmptyIff(h);
      var t := Trim(h);
      if t == "" then None else Some(t)
  }

  /** `brand_name?.trim()` is present and non-empty. */
  predicate NameGiven(req: BrandRequest) {
    req.brandName.Some? && Trim(req.brandName.value) != ""
  }

  /** The trimmed name has 2 to 100 characters. */
  predicate NameLengthOk(req: BrandRequest)
    requires NameGiven(req)
  {
    2 <= |Trim(req.brandName.value)| <= 100
  }

  predicate IndustryGiven(req: BrandRequest) {
    req.industry.Some? && req.industry.value != ""
  }

  /**
   * What `POST` answers for a request against the brands table `brands`,
   * with the store's next serial number `serial`. Checks run in the order
   * caller, name, name length, industry, existing brand.
   */
  function PostResult(brands: seq<Brand>, serial: nat, caller: Option<UserId>, req: BrandRequest): (r: Response<Brand>)
    ensures r.status == 201 || r.status == 400 || r.status == 401
    ensures r.status == 401 <==> caller.None?
    ensures r.status == 201 ==> caller.Some? && r.body.Data? && !HasBrand(brands, caller.value)
    ensures r.status == 201 ==> var b := r.body.value;
      && b.userId == caller.value
      && req.brandName.Some? && b.brandName == Trim(req.brandName.value)
      && 2 <= |b.brandName| <= 100 && Trimmed(b.brandName)
      && req.industry.Some? && b.industry == req.industry.value && b.industry != ""
      && b.instagramHandle == CleanHandle(req.instagramHandle)
      && b.id == Decimal(serial) && b.createdAt == serial
    ensures r.status != 201 ==> r.body.Error?
  {
    if caller.None? then Response(401, Error(Unauthorized))
    else
      var user := caller.value;
      var cleaned := if req.brandName.Some? then Some(Trim(req.brandName.value)) else None;
      if cleaned.None? || cleaned.value == "" then Response(400, Error(NameRequired))
      else if |cleaned.value| < 2 || |cleaned.value| > 100 then Response(400, Error(NameLength))
      else if req.industry.None? || req.industry.value == "" then Response(400, Error(IndustryRequired))
      else
        if SelectSingle(Filter(brands, OwnerIs(user))).Row? then Response(400, Error(AlreadyHasBrand))
        else
          var brand := Brand(Decimal(serial), cleaned.value, CleanHandle(req.instagramHandle),
                             req.industry.value, user, serial);
          Response(201, Data(brand))
  }

  /**
   * The industry is only required, never looked up in `Industries`: any
   * non-empty value outside the list is stored as sent.
   */
  lemma IndustryNotChecked(brands: seq<Brand>, serial: nat, user: UserId, industry: string)
    requires !HasBrand(brands, user)
    requires industry != "" && industry !in Industries
    ensures var r := PostResult(brands, serial, Some(user), BrandRequest(Some("Joe"), None, Some(industry)));
      r.status == 201 && r.body.value.industry == industry
  {
    TrimOfTrimmed("Joe");
  }

  /**
   * The first failing check decides the answer, whatever the later fields
   * and the table hold.
   */
  lemma PostCheckOrder(brands: seq<Brand>, serial: nat, caller: Option<UserId>, req: BrandRequest)
    ensures caller.Some? && !NameGiven(req) ==>
      PostResult(brands, serial, caller, req) == Response(400, Error(NameRequired))
    ensures caller.Some? && NameGiven(req) && !NameLengthOk(req) ==>
      PostResult(brands, serial, caller, req) == Response(400, Error(NameLength))
    ensures caller.Some? && NameGiven(req) && NameLengthOk(req) && !IndustryGiven(req) ==>
      PostResult(brands, serial, caller, req) == Response(400, Error(IndustryRequired))
    ensures caller.Some? && NameGiven(req) && NameLengthOk(req) && IndustryGiven(req) && HasBrand(brands, caller.value) ==>
      PostResult(brands, serial, caller, req) == Response(400, Error(AlreadyHasBrand))
  {
  }

  /**
   * On a table with at most one brand per user, a brand is created exactly
   * when the caller is known, the trimmed name has 2 to 100 characters, an
   * industry is given, and the caller has no brand yet. In particular a
   * second brand is always refused.
   */
  lemma PostCreatesExactly(brands: seq<Brand>, serial: nat, caller: Option<UserId>, req: BrandRequest)
    requires OneBrandPerUser(brands)
    ensures PostResult(brands, serial, caller, req).status == 201 <==>
      && caller.Some?
      && NameGiven(req) && NameLengthOk(req) && IndustryGiven(req)
      && !exists k :: 0 <= k < |brands| && brands[k].userId == caller.value
  {
    if caller.Some? {
      HasBrandIff(brands, caller.value);
    }
  }

  /** A created brand keeps every table invariant true. */
  lemma PostPreservesInvariant(
    brands: seq<Brand>, competitors: seq<Competitor>, serial: nat, caller: Option<UserId>, req: BrandRequest)
    requires Invariant(brands, competitors, serial)
    requires PostResult(brands, serial, caller, req).status == 201
    ensures Invariant(brands + [PostResult(brands, serial, caller, req).body.value], competitors, serial + 1)
  {
    HasBrandIff(brands, caller.value);
    AddBrandKeepsInvariant(brands, competitors, serial, PostResult(brands, serial, caller, req).body.value);
  }

  /**
   * `POST`: runs the checks in order and returns at the first that fails;
   * only a 201 adds a row (one brand, drawing one serial number). Nothing
   * else changes, and the table invariants are kept.
   */
  method Post(db: Database, caller: Option<UserId>, req: BrandRequest) returns (r: Response<Brand>)
    modifies db`brands, db`serial
    ensures r == PostResult(old(db.brands), old(db.serial), caller, req)
    ensures r.status == 201 ==> db.brands == old(db.brands) + [r.body.value] && db.serial == old(db.serial) + 1
    ensures r.status != 201 ==> db.brands == old(db.brands) && db.serial == old(db.serial)
    ensures old(db.Valid()) ==> db.Valid()
  {
    if caller.None? {
      return Response(401, Error(Unauthorized));
    }
    var user := caller.value;

    var cleaned := if req.brandName.Some? then Some(Trim(req.brandName.value)) else None;
    if cleaned.None? || cleaned.value == "" {
      return Response(400, Error(NameRequired));
    }
    if |cleaned.value| < 2 || |cleaned.value| > 100 {
      return Response(400, Error(NameLength));
    }

    if req.industry.None? || req.industry.value == "" {
      return Response(400, Error(IndustryRequired));
    }

    var existing := SelectSingle(Filter(db.brands, OwnerIs(user)));
    if existing.Row? {
      return Response(400, Error(AlreadyHasBrand));
    }

    var brand := Brand(Decimal(db.serial), cleaned.value, CleanHandle(req.instagramHandle),
                       req.industry.value, user, db.serial);
    if db.Valid() {
      PostPreservesInvariant(db.brands, db.competitors, db.serial, caller, req);
    }
    db.brands := db.brands + [brand];
    db.serial := db.serial + 1;
    r := Response(201, Data(brand));
  }
}
