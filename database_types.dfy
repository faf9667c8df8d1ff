/**
 * The record shapes of app/types/database.types.ts. Columns keep their
 * meaning; names are in Dafny's camel case (`brand_name` is `brandName`).
 * Generated ids are strings; timestamps are the store's serial numbers,
 * so that a later row has a larger stamp.
 */
module DatabaseTypes {
  import opened Wrappers

  type UserId = string

  datatype Brand = Brand(
    id: string,
    brandName: string,
    instagramHandle: Option<string>,
    industry: string,
    userId: UserId,
    createdAt: nat)

  datatype Competitor = Competitor(
    id: string,
    handle: string,
    platform: string,
    brandId: string,
    addedAt: nat)

  /** The industry options the dashboard offers; the brand route does not consult them. */
  const Industries: seq<string> := ["food", "restaurant", "cafe", "cpg"]
}
