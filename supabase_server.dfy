/** `verifyBrandOwnership` of lib/supabase-server.ts, over the in-memory brands table. */
module SupabaseServer {
  import opened DatabaseTypes
  import opened Store

  /** The filter `.eq('id', brandId).eq('user_id', userId)`. */
  function OwnedBy(brandId: string, userId: UserId): Brand -> bool {
    (b: Brand) => b.id == brandId && b.userId == userId
  }

  /** `!error && data !== null` on the result of the `.single()` query. */
  predicate OwnershipVerdict(q: SingleResult<Brand>)
    ensures OwnershipVerdict(q) <==> !q.QueryError? && !q.NoSingleRow?
  {
    q.Row?
  }

  /**
   * `verifyBrandOwnership(brandId, userId)`: true exactly when a single row
   * of the brands table has that id and belongs to that user.
   */
  function VerifyBrandOwnership(brands: seq<Brand>, brandId: string, userId: UserId): (owns: bool)
    ensures owns <==> ExactlyOne(brands, OwnedBy(brandId, userId))
  {
    FilterExactlyOne(brands, OwnedBy(brandId, userId));
    OwnershipVerdict(SelectSingle(Filter(brands, OwnedBy(brandId, userId))))
  }

  /** A failed query, or one that matched no single row, never grants ownership. */
  lemma FailureDenies()
    ensures !OwnershipVerdict(QueryError) && !OwnershipVerdict(NoSingleRow)
  {
  }

  /**
   * With unique brand ids, ownership means: the brand exists and belongs to
   * the user. So an unknown id, or a brand of another user, is refused.
   */
  lemma OwnershipUnderUniqueIds(brands: seq<Brand>, brandId: string, userId: UserId)
    requires UniqueBrandIds(brands)
    ensures VerifyBrandOwnership(brands, brandId, userId) <==>
      exists k :: 0 <= k < |brands| && brands[k].id == brandId && brands[k].userId == userId
    ensures !BrandExists(brands, brandId) ==> !VerifyBrandOwnership(brands, brandId, userId)
    ensures forall k :: 0 <= k < |brands| && brands[k].id == brandId && brands[k].userId != userId ==>
      !VerifyBrandOwnership(brands, brandId, userId)
  {
    var p := OwnedBy(brandId, userId);
    assert forall i, j :: 0 <= i < |brands| && 0 <= j < |brands| && p(brands[i]) && p(brands[j]) ==> i == j;
    UniqueMatch(brands, p);
  }
}
