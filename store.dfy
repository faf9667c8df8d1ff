/**
 * An in-memory stand-in for the two hosted tables the routes query through
 * the service-role client: `brands` and `competitors`, the query forms the
 * routes use (`.eq` filters, `.single()`, `.order`), and the ids and
 * timestamps the database generates on insert.
 */
module Store {
  import opened Wrappers
  import opened DatabaseTypes

  // ---------------------------------------------------------------- queries

  /** The outcome of a `.single()` query. */
  datatype SingleResult<T> =
    | Row(row: T)
    | NoSingleRow   // PGRST116: the filter matched zero rows, or several
    | QueryError    // any other failure of the query

  /**
   * `.single()` over the rows a filter selected: a row exactly when there is
   * exactly one. The in-memory store never fails otherwise.
   */
  function SelectSingle<T>(rows: seq<T>): (r: SingleResult<T>)
    ensures r.Row? <==> |rows| == 1
    ensures r.Row? ==> r.row == rows[0]
    ensures !r.QueryError?
  {
    if |rows| == 1 then Row(rows[0]) else NoSingleRow
  }

  /** The rows of `s` that satisfy `p` (a chain of `.eq` filters), in table order. */
  function Filter<T(!new)>(s: seq<T>, p: T -> bool): (r: seq<T>)
    ensures forall x :: x in r <==> x in s && p(x)
    ensures |r| <= |s|
  {
    if s == [] then []
    else if p(s[0]) then [s[0]] + Filter(s[1..], p)
    else Filter(s[1..], p)
  }

  /** The filter keeps every matching row as often as the table holds it, and no other row. */
  lemma {:induction false} FilterCounts<T(!new)>(s: seq<T>, p: T -> bool)
    ensures forall x :: multiset(Filter(s, p))[x] == (if p(x) then multiset(s)[x] else 0)
  {
    if s != [] {
      FilterCounts(s[1..], p);
      assert s == [s[0]] + s[1..];
      assert multiset(s) == multiset{s[0]} + multiset(s[1..]);
    }
  }

  /** Exactly one row of `s` satisfies `p`. */
  ghost predicate ExactlyOne<T>(s: seq<T>, p: T -> bool) {
    exists i :: 0 <= i < |s| && p(s[i]) && forall j :: 0 <= j < |s| && p(s[j]) ==> j == i
  }

  /** The filter yields some row exactly when some row of the table matches. */
  lemma FilterNonEmpty<T(!new)>(s: seq<T>, p: T -> bool)
    ensures Filter(s, p) != [] <==> exists i :: 0 <= i < |s| && p(s[i])
  {
    if Filter(s, p) != [] {
      var x := Filter(s, p)[0];
      assert x in Filter(s, p);
    }
  }

  /** The filter yields a single row exactly when a single row of the table matches. */
  lemma {:induction false} FilterExactlyOne<T(!new)>(s: seq<T>, p: T -> bool)
    ensures |Filter(s, p)| == 1 <==> ExactlyOne(s, p)
  {
    if s != [] {
      var t := s[1..];
      assert forall i :: 0 <= i < |t| ==> t[i] == s[i + 1];
      if p(s[0]) {
        FilterNonEmpty(t, p);
        if ExactlyOne(s, p) {
          var i :| 0 <= i < |s| && p(s[i]) && forall j :: 0 <= j < |s| && p(s[j]) ==> j == i;
          forall j | 0 <= j < |t| ensures !p(t[j]) {
            assert t[j] == s[j + 1];
          }
        }
        if forall j :: 0 <= j < |t| ==> !p(t[j]) {
          assert forall k :: 1 <= k < |s| ==> !p(s[k]);
          assert forall j :: 0 <= j < |s| && p(s[j]) ==> j == 0;
        }
      } else {
        FilterExactlyOne(t, p);
        if ExactlyOne(t, p) {
          var i :| 0 <= i < |t| && p(t[i]) && forall j :: 0 <= j < |t| && p(t[j]) ==> j == i;
          assert p(s[i + 1]);
          forall j | 0 <= j < |s| && p(s[j]) ensures j == i + 1 {
            assert p(t[j - 1]);
          }
        }
        if ExactlyOne(s, p) {
          var i :| 0 <= i < |s| && p(s[i]) && forall j :: 0 <= j < |s| && p(s[j]) ==> j == i;
          assert p(t[i - 1]);
          forall j | 0 <= j < |t| && p(t[j]) ensures j == i - 1 {
            assert p(s[j + 1]);
          }
        }
      }
    }
  }

  /** When no two rows can both match, a single match is the same as some match. */
  lemma UniqueMatch<T>(s: seq<T>, p: T -> bool)
    requires forall i, j :: 0 <= i < |s| && 0 <= j < |s| && p(s[i]) && p(s[j]) ==> i == j
    ensures ExactlyOne(s, p) <==> exists i :: 0 <= i < |s| && p(s[i])
  {
    if exists i :: 0 <= i < |s| && p(s[i]) {
      var i :| 0 <= i < |s| && p(s[i]);
      assert forall j :: 0 <= j < |s| && p(s[j]) ==> j == i;
    }
  }

  /** The filter `.eq('user_id', userId)` on the brands table. */
  function OwnerIs(userId: UserId): Brand -> bool {
    (b: Brand) => b.userId == userId
  }

  /** The `.single()` query for the user's brand finds a row. */
  predicate HasBrand(brands: seq<Brand>, userId: UserId) {
    SelectSingle(Filter(brands, OwnerIs(userId))).Row?
  }

  /** With at most one brand per user, the query finds a row exactly when the user has a brand. */
  lemma HasBrandIff(brands: seq<Brand>, userId: UserId)
    requires OneBrandPerUser(brands)
    ensures HasBrand(brands, userId) <==> exists k :: 0 <= k < |brands| && brands[k].userId == userId
  {
    var p := OwnerIs(userId);
    assert forall i, j :: 0 <= i < |brands| && 0 <= j < |brands| && p(brands[i]) && p(brands[j]) ==> i == j;
    FilterExactlyOne(brands, p);
    UniqueMatch(brands, p);
  }

  /** Newest first: `.order('added_at', { ascending: false })`. */
  ghost predicate NewestFirst(s: seq<Competitor>) {
    forall i, j :: 0 <= i < j < |s| ==> s[i].addedAt >= s[j].addedAt
  }

  lemma ConsNewestFirst(h: Competitor, s: seq<Competitor>)
    requires NewestFirst(s)
    requires forall x :: x in s ==> x.addedAt <= h.addedAt
    ensures NewestFirst([h] + s)
  {
    var r := [h] + s;
    forall i, j | 0 <= i < j < |r| ensures r[i].addedAt >= r[j].addedAt {
      if i == 0 { assert r[j] in s; } else { assert r[i] == s[i - 1] && r[j] == s[j - 1]; }
    }
  }

  /** The head of a newest-first sequence is its newest row, and its tail is newest first too. */
  lemma HeadIsNewest(s: seq<Competitor>)
    requires NewestFirst(s) && s != []
    ensures forall x :: x in s ==> x.addedAt <= s[0].addedAt
    ensures NewestFirst(s[1..])
  {
    forall x | x in s ensures x.addedAt <= s[0].addedAt {
      var k :| 0 <= k < |s| && s[k] == x;
    }
  }

  /** Places `c` into a newest-first sequence. */
  function InsertByAddedAt(c: Competitor, s: seq<Competitor>): (r: seq<Competitor>)
    requires NewestFirst(s)
    ensures NewestFirst(r)
    ensures multiset(r) == multiset(s) + multiset{c}
    ensures forall x :: x in r <==> x == c || x in s
  {
    if s == [] || c.addedAt >= s[0].addedAt then
      ConsNewestFirst(c, s);
      [c] + s
    else
      HeadIsNewest(s);
      var rest := InsertByAddedAt(c, s[1..]);
      assert forall x :: x in rest ==> x.addedAt <= s[0].addedAt;
      ConsNewestFirst(s[0], rest);
      assert s == [s[0]] + s[1..];
      assert multiset([s[0]] + rest) == multiset{s[0]} + multiset(s[1..]) + multiset{c};
      [s[0]] + rest
  }

  /** The rows of `s` ordered by `addedAt`, newest first: a newest-first permutation of `s`. */
  function OrderByAddedAtDesc(s: seq<Competitor>): (r: seq<Competitor>)
    ensures NewestFirst(r)
    ensures multiset(r) == multiset(s)
    ensures forall x :: x in r <==> x in s
  {
    if s == [] then []
    else
      assert s == [s[0]] + s[1..];
      InsertByAddedAt(s[0], OrderByAddedAtDesc(s[1..]))
  }

  // ------------------------------------------------------ generated values

  function Digit(d: nat): char
    requires d < 10
  {
    (48 + d) as char
  }

  /** The decimal spelling of `n`; the store's generated ids. */
  function Decimal(n: nat): (s: string)
    ensures |s| >= 1
    ensures n >= 10 <==> |s| >= 2
  {
    if n < 10 then [Digit(n)] else Decimal(n / 10) + [Digit(n % 10)]
  }

  /** Different serial numbers give different ids. */
  lemma {:induction false} DecimalInjective(a: nat, b: nat)
    ensures Decimal(a) == Decimal(b) ==> a == b
  {
    if Decimal(a) == Decimal(b) && a >= 10 && b >= 10 {
      var da, db := Decimal(a), Decimal(b);
      assert da[|da| - 1] == Digit(a % 10) && db[|db| - 1] == Digit(b % 10);
      assert da[..|da| - 1] == Decimal(a / 10) && db[..|db| - 1] == Decimal(b / 10);
      DecimalInjective(a / 10, b / 10);
    }
  }

  // ------------------------------------------------------------- invariants

  /** Every generated value was handed out before `serial`, and a row's id is the spelling of its stamp. */
  ghost predicate BrandStamps(brands: seq<Brand>, serial: nat) {
    forall i :: 0 <= i < |brands| ==> brands[i].createdAt < serial && brands[i].id == Decimal(brands[i].createdAt)
  }

  ghost predicate CompetitorStamps(competitors: seq<Competitor>, serial: nat) {
    forall i :: 0 <= i < |competitors| ==>
      competitors[i].addedAt < serial && competitors[i].id == Decimal(competitors[i].addedAt)
  }

  ghost predicate UniqueBrandIds(brands: seq<Brand>) {
    forall i, j :: 0 <= i < |brands| && 0 <= j < |brands| && brands[i].id == brands[j].id ==> i == j
  }

  ghost predicate UniqueCompetitorIds(competitors: seq<Competitor>) {
    forall i, j :: 0 <= i < |competitors| && 0 <= j < |competitors| && competitors[i].id == competitors[j].id ==> i == j
  }

  /** At most one brand per user. */
  ghost predicate OneBrandPerUser(brands: seq<Brand>) {
    forall i, j :: 0 <= i < |brands| && 0 <= j < |brands| && brands[i].userId == brands[j].userId ==> i == j
  }

  /** No handle is tracked twice under one brand. */
  ghost predicate UniqueHandles(competitors: seq<Competitor>) {
    forall i, j ::
      (0 <= i < |competitors| && 0 <= j < |competitors|
       && competitors[i].brandId == competitors[j].brandId
       && competitors[i].handle == competitors[j].handle) ==> i == j
  }

  ghost predicate BrandExists(brands: seq<Brand>, id: string) {
    exists k :: 0 <= k < |brands| && brands[k].id == id
  }

  /** Every competitor is filed under a brand that exists. */
  ghost predicate CompetitorsHaveBrands(brands: seq<Brand>, competitors: seq<Competitor>) {
    forall i :: 0 <= i < |competitors| ==> BrandExists(brands, competitors[i].brandId)
  }

  /** What every sequence of requests keeps true of the two tables. */
  ghost predicate Invariant(brands: seq<Brand>, competitors: seq<Competitor>, serial: nat) {
    && BrandStamps(brands, serial) && UniqueBrandIds(brands) && OneBrandPerUser(brands)
    && CompetitorStamps(competitors, serial) && UniqueCompetitorIds(competitors) && UniqueHandles(competitors)
    && CompetitorsHaveBrands(brands, competitors)
  }

  /** A fresh id is the id of no existing row. */
  lemma FreshBrandId(brands: seq<Brand>, serial: nat)
    requires BrandStamps(brands, serial)
    ensures forall i :: 0 <= i < |brands| ==> brands[i].id != Decimal(serial)
  {
    forall i | 0 <= i < |brands| ensures brands[i].id != Decimal(serial) {
      DecimalInjective(brands[i].createdAt, serial);
    }
  }

  lemma FreshCompetitorId(competitors: seq<Competitor>, serial: nat)
    requires CompetitorStamps(competitors, serial)
    ensures forall i :: 0 <= i < |competitors| ==> competitors[i].id != Decimal(serial)
  {
    forall i | 0 <= i < |competitors| ensures competitors[i].id != Decimal(serial) {
      DecimalInjective(competitors[i].addedAt, serial);
    }
  }

  /** Adding a brand with a fresh serial, for a user who has none, keeps the invariant. */
  lemma AddBrandKeepsInvariant(brands: seq<Brand>, competitors: seq<Competitor>, serial: nat, b: Brand)
    requires Invariant(brands, competitors, serial)
    requires b.id == Decimal(serial) && b.createdAt == serial
    requires forall k :: 0 <= k < |brands| ==> brands[k].userId != b.userId
    ensures Invariant(brands + [b], competitors, serial + 1)
  {
    var bs := brands + [b];
    FreshBrandId(brands, serial);
    assert forall i :: 0 <= i < |brands| ==> bs[i] == brands[i];
    assert BrandStamps(bs, serial + 1);
    assert UniqueBrandIds(bs);
    assert OneBrandPerUser(bs);
    assert CompetitorStamps(competitors, serial + 1);
    forall i | 0 <= i < |competitors| ensures BrandExists(bs, competitors[i].brandId) {
      var k :| 0 <= k < |brands| && brands[k].id == competitors[i].brandId;
      assert bs[k] == brands[k];
    }
  }

  /**
   * Adding a competitor with a fresh serial, under an existing brand and
   * with a (brand, handle) pair not yet present, keeps the invariant.
   */
  lemma AddCompetitorKeepsInvariant(
    brands: seq<Brand>, competitors: seq<Competitor>, serial: nat, c: Competitor)
    requires Invariant(brands, competitors, serial)
    requires c.id == Decimal(serial) && c.addedAt == serial
    requires BrandExists(brands, c.brandId)
    requires forall k :: 0 <= k < |competitors| ==>
      !(competitors[k].brandId == c.brandId && competitors[k].handle == c.handle)
    ensures Invariant(brands, competitors + [c], serial + 1)
  {
    var cs := competitors + [c];
    FreshCompetitorId(competitors, serial);
    assert forall i :: 0 <= i < |competitors| ==> cs[i] == competitors[i];
    assert BrandStamps(brands, serial + 1);
    assert CompetitorStamps(cs, serial + 1);
    assert UniqueCompetitorIds(cs);
    assert UniqueHandles(cs);
    assert CompetitorsHaveBrands(brands, cs);
  }

  // ------------------------------------------------------------------ tables

  /** The two tables, and the counter the database draws ids and timestamps from. */
  class Database {
    var brands: seq<Brand>
    var competitors: seq<Competitor>
    var serial: nat

    ghost predicate Valid()
      reads this
    {
      Invariant(brands, competitors, serial)
    }

    constructor ()
      ensures Valid()
      ensures brands == [] && competitors == [] && serial == 0
    {
      brands, competitors, serial := [], [], 0;
    }
  }
}
