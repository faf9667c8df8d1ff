/**
 * A client of the two routes: one user registers a brand and starts
 * tracking a competitor; a request without a session changes nothing. The
 * facts are derived from the routes' contracts alone.
 */
module Scenario {
  import opened Wrappers
  import opened JsString
  import opened Http
  import opened DatabaseTypes
  import opened Store
  import BrandsRoute
  import CompetitorsRoute

  method RegisterAndTrack() returns (db: Database)
    ensures db.Valid()
    ensures |db.brands| == 1 && |db.competitors| == 1
    ensures db.competitors[0].handle == "bluebottle" && db.competitors[0].platform == "instagram"
    ensures db.competitors[0].brandId == db.brands[0].id
  {
    db := new Database();
    var user: UserId := "u";
    var brandReq := BrandsRoute.BrandRequest(Some("Joe"), None, Some("cafe"));
    TrimOfTrimmed("Joe");
    BrandsRoute.PostCreatesExactly(db.brands, db.serial, Some(user), brandReq);
    var created := BrandsRoute.Post(db, Some(user), brandReq);
    assert created.status == 201;
    var brand := created.body.value;
    assert db.brands == [brand];

    var req := CompetitorsRoute.CompetitorRequest(Some("bluebottle"), None, Some(brand.id));
    CompetitorsRoute.PostCreatesExactly(db.brands, db.competitors, db.serial, Some(user), req);
    assert db.brands[0].id == brand.id && db.brands[0].userId == user;
    var added := CompetitorsRoute.Post(db, Some(user), req);
    assert added.status == 201;

    var unauthenticated := CompetitorsRoute.Post(db, None, req);
    assert unauthenticated.status == 401;
  }
}
