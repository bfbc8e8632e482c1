/** The `wishlist` table: its row shape, its column default, its two
    uniqueness constraints (the primary key and the (user, deal) index),
    and what the storage engine does with an insert, a delete and a
    per-user select under those constraints. The table is a sequence of
    rows in storage order. */
module Schema {
  import opened Seqs

  /** A nullable column value, or a request field that may be absent. */
  datatype Option<T> = None | Some(value: T) {
    /** The value, or `default` when there is none (JavaScript's `??`). */
    function GetOr(default: T): T
    {
      match this
      case Some(v) => v
      case None => default
    }
  }

  type UserId = string
  type DealId = string
  type EntryId = string

  /** A timestamp, as milliseconds since the epoch. */
  type Instant = int

  /** One stored wishlist row. `userId` and `dealId` are `NOT NULL`, so
      they are plain values here; `alert_enabled` and `created_at` have
      defaults but no `NOT NULL`, so a stored row may hold null in them.
      Ids are stored in the standard spelling of their `uuid` value. */
  datatype Entry = Entry(
    id: EntryId,
    userId: UserId,
    dealId: DealId,
    alertEnabled: Option<bool>,
    createdAt: Option<Instant>)

  /** The table, in the order the engine returns its rows. */
  type Store = seq<Entry>

  function PairKey(e: Entry): (UserId, DealId)
  {
    (e.userId, e.dealId)
  }

  function IdKey(e: Entry): EntryId
  {
    e.id
  }

  /** The table's constraints: `id` is the primary key and
      `wishlist_user_deal_idx` is unique on (user_id, deal_id). */
  ghost predicate Valid(store: Store)
  {
    UniqueBy(store, PairKey) && UniqueBy(store, IdKey)
  }

  /** The rows of one user. */
  function OwnedBy(user: UserId): Entry -> bool
  {
    (e: Entry) => e.userId == user
  }

  /** The rows of one (user, deal) pair. */
  function SamePair(user: UserId, deal: DealId): Entry -> bool
  {
    (e: Entry) => e.userId == user && e.dealId == deal
  }

  predicate HasPair(store: Store, user: UserId, deal: DealId)
  {
    exists e :: e in store && e.userId == user && e.dealId == deal
  }

  predicate HasId(store: Store, id: EntryId)
  {
    exists e :: e in store && e.id == id
  }

  /** The column values an `INSERT` supplies; `alertEnabled == None` means
      the column is left out of the statement. */
  datatype NewRow = NewRow(userId: UserId, dealId: DealId, alertEnabled: Option<bool>)

  /** The value stored in `alert_enabled`, whose column default is false. */
  function AlertColumn(supplied: Option<bool>): (stored: bool)
    ensures stored <==> supplied == Some(true)
  {
    match supplied
    case Some(b) => b
    case None => false
  }

  datatype Violation = PrimaryKey | UserDealIndex | DealForeignKey

  datatype InsertResult = Inserted(store: Store) | Rejected(violation: Violation)

  /** `INSERT INTO wishlist`: `id` is the freshly generated key, `now`
      fills `created_at` through its default, and `deals` is the set of ids in the `deals`
      table that `deal_id` references. A row that would break the primary
      key, the unique (user, deal) index or the reference to `deals` is
      refused and the table is left as it was. */
  function Insert(store: Store, deals: set<DealId>, row: NewRow, id: EntryId, now: Instant): (r: InsertResult)
    ensures r.Rejected? <==> HasId(store, id) || HasPair(store, row.userId, row.dealId) || row.dealId !in deals
    ensures r.Rejected? && !HasId(store, id) && row.dealId in deals ==> r.violation == UserDealIndex
    ensures r.Inserted? ==> r.store == store + [Entry(id, row.userId, row.dealId, Some(row.alertEnabled == Some(true)), Some(now))]
    ensures r.Inserted? && Valid(store) ==> Valid(r.store)
  {
    if HasId(store, id) then Rejected(PrimaryKey)
    else if HasPair(store, row.userId, row.dealId) then Rejected(UserDealIndex)
    else if row.dealId !in deals then Rejected(DealForeignKey)
    else
      var e := Entry(id, row.userId, row.dealId, Some(AlertColumn(row.alertEnabled)), Some(now));
      UniqueSnocHelper(store, e);
      Inserted(store + [e])
  }

  /** Appending a row whose id and pair are both new keeps the table valid. */
  lemma UniqueSnocHelper(store: Store, e: Entry)
    ensures Valid(store) && !HasId(store, e.id) && !HasPair(store, e.userId, e.dealId) ==> Valid(store + [e])
  {
    UniqueSnoc(store, e, PairKey);
    UniqueSnoc(store, e, IdKey);
  }

  /** `SELECT * FROM wishlist WHERE user_id = user`, in storage order. */
  function Select(store: Store, user: UserId): (r: Store)
    ensures forall e :: e in r <==> e in store && e.userId == user
  {
    Filter(store, OwnedBy(user))
  }

  /** `DELETE FROM wishlist WHERE user_id = user AND deal_id = deal`. */
  function Delete(store: Store, user: UserId, deal: DealId): (r: Store)
    ensures forall e :: e in r <==> e in store && !(e.userId == user && e.dealId == deal)
    ensures |r| == |store| - |Filter(store, SamePair(user, deal))|
    ensures Valid(store) ==> Valid(r)
  {
    FilterPartition(store, SamePair(user, deal));
    FilterValid(store, Not(SamePair(user, deal)));
    Filter(store, Not(SamePair(user, deal)))
  }

  /** Removing rows never breaks a uniqueness constraint. */
  lemma FilterValid(store: Store, p: Entry -> bool)
    ensures Valid(store) ==> Valid(Filter(store, p))
  {
    if Valid(store) {
      FilterUnique(store, p, PairKey);
      FilterUnique(store, p, IdKey);
    }
  }

  /** The unique index: a valid table holds at most one row per pair. */
  lemma AtMostOnePerPair(store: Store, user: UserId, deal: DealId)
    requires Valid(store)
    ensures |Filter(store, SamePair(user, deal))| <= 1
    ensures |Filter(store, SamePair(user, deal))| == 1 <==> HasPair(store, user, deal)
  {
    UniqueKeyMatchesAtMostOnce(store, PairKey, SamePair(user, deal));
    var m := Filter(store, SamePair(user, deal));
    if HasPair(store, user, deal) {
      var e :| e in store && e.userId == user && e.dealId == deal;
      assert e in m;
    } else {
      FilterKeepsNone(store, SamePair(user, deal));
    }
  }
}
