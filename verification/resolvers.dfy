/** The two per-entry decisions of the wishlist listing: whether the deal
    an entry points at is still live, and what its lowest recorded price
    is. The `deals` and `prices` tables are read-only inputs here. */
module Resolvers {
  import opened Schema

  /** The columns of a `deals` row that the decisions read. `is_active`
      is a nullable boolean (its default of true applies only when an
      insert leaves it out) and `expires_at` is a nullable timestamp. */
  datatype Deal = Deal(isActive: Option<bool>, expiresAt: Option<Instant>)

  /** The `deals` table keyed by its primary key. */
  type Catalog = map<DealId, Deal>

  /** One row of the `prices` table; `amount` is a `NOT NULL` integer. */
  datatype PriceRow = PriceRow(dealId: DealId, amount: int)

  type PriceTable = seq<PriceRow>

  datatype Status = Active | Expired

  /** A deal is expired when it is missing, when `is_active` is false or
      null, or when `expires_at` is set and strictly earlier than `now`. */
  function ResolveStatus(catalog: Catalog, deal: DealId, now: Instant): (s: Status)
    ensures s == Active <==>
      && deal in catalog
      && catalog[deal].isActive == Some(true)
      && (catalog[deal].expiresAt.None? || now <= catalog[deal].expiresAt.value)
  {
    if deal !in catalog then Expired
    else
      var d := catalog[deal];
      if d.isActive != Some(true) || (d.expiresAt.Some? && d.expiresAt.value < now) then Expired
      else Active
  }

  /** Time only moves an unchanged deal from active to expired, never back. */
  lemma ExpiryIsPermanent(catalog: Catalog, deal: DealId, now: Instant, later: Instant)
    requires now <= later
    requires ResolveStatus(catalog, deal, now) == Expired
    ensures ResolveStatus(catalog, deal, later) == Expired
  {
  }

  /** The amounts recorded for one deal, in table order. */
  function AmountsFor(prices: PriceTable, deal: DealId): (r: seq<int>)
    ensures forall i :: 0 <= i < |prices| && prices[i].dealId == deal ==> prices[i].amount in r
    ensures forall a :: a in r ==> exists i :: 0 <= i < |prices| && prices[i].dealId == deal && prices[i].amount == a
    ensures |r| == 0 <==> forall i :: 0 <= i < |prices| ==> prices[i].dealId != deal
  {
    if |prices| == 0 then []
    else
      var rest := AmountsFor(prices[1..], deal);
      assert forall a :: a in rest ==> exists i :: 1 <= i < |prices| && prices[i].dealId == deal && prices[i].amount == a by {
        forall a | a in rest
          ensures exists i :: 1 <= i < |prices| && prices[i].dealId == deal && prices[i].amount == a
        {
          var k :| 0 <= k < |prices[1..]| && prices[1..][k].dealId == deal && prices[1..][k].amount == a;
          assert prices[k + 1] == prices[1..][k];
        }
      }
      assert forall i :: 1 <= i < |prices| ==> prices[i] == prices[1..][i - 1];
      if prices[0].dealId == deal then [prices[0].amount] + rest else rest
  }

  /** The smallest element of `s`, or `None` for an empty sequence. */
  function Lowest(s: seq<int>): (r: Option<int>)
    ensures r.None? <==> |s| == 0
    ensures r.Some? ==> r.value in s && forall x :: x in s ==> r.value <= x
  {
    if |s| == 0 then None
    else
      assert s == [s[0]] + s[1..];
      match Lowest(s[1..])
      case None => Some(s[0])
      case Some(m) => Some(if s[0] <= m then s[0] else m)
  }

  /** The first amount of the deal's prices in ascending order, or `None`
      when the deal has no price row: the minimum over its rows. */
  function BestPrice(prices: PriceTable, deal: DealId): (r: Option<int>)
    ensures r.None? <==> forall i :: 0 <= i < |prices| ==> prices[i].dealId != deal
    ensures r.Some? ==> exists i :: 0 <= i < |prices| && prices[i].dealId == deal && prices[i].amount == r.value
    ensures r.Some? ==> forall i :: 0 <= i < |prices| && prices[i].dealId == deal ==> r.value <= prices[i].amount
  {
    Lowest(AmountsFor(prices, deal))
  }
}
