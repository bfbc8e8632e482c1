/** The three wishlist handlers: list the caller's entries with a fresh
    status and best price each, add an entry behind the subscriber-only
    alert gate, and remove an entry. The caller's identity and role, the
    clock and the generated row id are parameters; the tables are values
    and each handler returns the table it leaves behind. */
module Routes {
  import opened Seqs
  import opened Schema
  import opened Resolvers

  /** One element of the listing: the stored row spread out, plus the
      resolved `status` and `bestPrice` (null as `None`). */
  datatype View = View(entry: Entry, status: Status, bestPrice: Option<int>)

  /** What the client gets: 200 with `{success: true}`, 403 with a
      message, or nothing at all when the handler throws before replying
      (an awaited statement that fails inside the async handler). */
  datatype Reply = Ok | Forbidden(message: string) | Unanswered

  const UpgradeMessage: string := "Upgrade required for alerts"

  /** The only role allowed to turn alerts on. */
  const Subscriber: string := "subscriber"

  /** Analytics events handed to the tracking sink. The deal id is the
      text the request carried, spelled as the client spelled it. */
  datatype Event = WishlistAdd(userId: UserId, dealId: string) | WishlistRemove(userId: UserId, dealId: string)

  /** What a write handler leaves behind: the table, the reply, and the
      events it emitted. */
  datatype Outcome = Outcome(store: Store, reply: Reply, events: seq<Event>)

  /** The validated POST body; `dealId` is the text sent, `alertEnabled`
      is optional. */
  datatype AddBody = AddBody(dealId: string, alertEnabled: Option<bool>)

  /** One loop iteration of the listing: an expired deal gets no price
      lookup at all, an active one gets its best price. */
  function ResolveEntry(catalog: Catalog, prices: PriceTable, now: Instant, e: Entry): View
  {
    if ResolveStatus(catalog, e.dealId, now) == Expired then View(e, Expired, None)
    else View(e, Active, BestPrice(prices, e.dealId))
  }

  /** The listing for `user`: one view per row of the user, in the order
      the table holds them. The handler takes at most one clock reading per
      row: `clock[i]` is the reading for the i-th row of the user, and it is
      ignored when the handler takes none (a missing or inactive deal, or
      one without an expiry). */
  function Views(store: Store, catalog: Catalog, prices: PriceTable, user: UserId, clock: seq<Instant>): (r: seq<View>)
    requires |clock| == |Select(store, user)|
    ensures |r| == |Select(store, user)|
    ensures forall i :: 0 <= i < |r| ==> r[i].entry == Select(store, user)[i]
    ensures forall i :: 0 <= i < |r| ==> r[i].status == ResolveStatus(catalog, r[i].entry.dealId, clock[i])
    ensures forall i :: 0 <= i < |r| && r[i].status == Expired ==> r[i].bestPrice == None
    ensures forall i :: 0 <= i < |r| && r[i].status == Active ==> r[i].bestPrice == BestPrice(prices, r[i].entry.dealId)
  {
    Resolve(Select(store, user), catalog, prices, clock)
  }

  /** Each row of `rows` resolved against its own clock reading. */
  function Resolve(rows: Store, catalog: Catalog, prices: PriceTable, clock: seq<Instant>): seq<View>
    requires |clock| == |rows|
  {
    seq(|rows|, i requires 0 <= i < |rows| => ResolveEntry(catalog, prices, clock[i], rows[i]))
  }

  /** Resolving two runs of rows one after the other is resolving their
      concatenation. */
  lemma ResolveAppend(r1: Store, r2: Store, catalog: Catalog, prices: PriceTable, c1: seq<Instant>, c2: seq<Instant>)
    requires |c1| == |r1| && |c2| == |r2|
    ensures Resolve(r1 + r2, catalog, prices, c1 + c2) == Resolve(r1, catalog, prices, c1) + Resolve(r2, catalog, prices, c2)
  {
    var lhs := Resolve(r1 + r2, catalog, prices, c1 + c2);
    var rhs := Resolve(r1, catalog, prices, c1) + Resolve(r2, catalog, prices, c2);
    forall i | 0 <= i < |lhs|
      ensures lhs[i] == rhs[i]
    {
      if i < |r1| {
        assert (c1 + c2)[i] == c1[i] && (r1 + r2)[i] == r1[i];
      } else {
        assert (c1 + c2)[i] == c2[i - |r1|] && (r1 + r2)[i] == r2[i - |r1|];
      }
    }
  }

  /** The GET handler: select the user's rows, then resolve them one by
      one, appending to the response; when the i-th iteration reads the
      clock, it reads `clock[i]`. */
  method GetWishlist(store: Store, catalog: Catalog, prices: PriceTable, user: UserId, clock: seq<Instant>)
    returns (response: seq<View>)
    requires |clock| == |Select(store, user)|
    ensures response == Views(store, catalog, prices, user, clock)
  {
    var items := Select(store, user);
    response := [];
    for i := 0 to |items|
      invariant |response| == i
      invariant forall k :: 0 <= k < i ==> response[k] == ResolveEntry(catalog, prices, clock[k], items[k])
    {
      var item := items[i];
      var status := ResolveStatus(catalog, item.dealId, clock[i]);
      if status == Expired {
        response := response + [View(item, Expired, None)];
      } else {
        var best := BestPrice(prices, item.dealId);
        response := response + [View(item, Active, best)];
      }
    }
  }

  /** The listing follows table order: rows stored earlier are listed
      earlier. */
  lemma ViewsAppend(a: Store, b: Store, catalog: Catalog, prices: PriceTable, user: UserId,
                     ca: seq<Instant>, cb: seq<Instant>)
    requires |ca| == |Select(a, user)| && |cb| == |Select(b, user)|
    ensures |ca + cb| == |Select(a + b, user)|
      && Views(a + b, catalog, prices, user, ca + cb) == Views(a, catalog, prices, user, ca) + Views(b, catalog, prices, user, cb)
  {
    FilterAppend(a, b, OwnedBy(user));
    ResolveAppend(Select(a, user), Select(b, user), catalog, prices, ca, cb);
  }

  /** Later clock readings can only turn an entry from active to expired:
      resolving the same table against readings that are no earlier, entry
      by entry, never revives an expired entry. */
  lemma LaterReadingsOnlyExpire(store: Store, catalog: Catalog, prices: PriceTable, user: UserId,
                                clock: seq<Instant>, later: seq<Instant>, i: int)
    requires |clock| == |Select(store, user)| && |later| == |clock|
    requires forall k :: 0 <= k < |clock| ==> clock[k] <= later[k]
    requires 0 <= i < |clock|
    requires Views(store, catalog, prices, user, clock)[i].status == Expired
    ensures Views(store, catalog, prices, user, later)[i].status == Expired
  {
    var deal := Select(store, user)[i].dealId;
    ExpiryIsPermanent(catalog, deal, clock[i], later[i]);
  }

  /** An expired entry's view is the same whatever the price table holds:
      its prices are never consulted. */
  lemma ExpiredIgnoresPrices(store: Store, catalog: Catalog, p: PriceTable, q: PriceTable, user: UserId, clock: seq<Instant>, i: int)
    requires |clock| == |Select(store, user)|
    requires 0 <= i < |clock|
    requires Views(store, catalog, p, user, clock)[i].status == Expired
    ensures Views(store, catalog, q, user, clock)[i] == Views(store, catalog, p, user, clock)[i]
    ensures Views(store, catalog, q, user, clock)[i].bestPrice == None
  {
  }

  /** The POST handler. A request for alerts from any role other than
      `subscriber` is refused before any write. Otherwise the row is
      inserted with `alertEnabled` defaulting to false, and the reply is a
      success whether the insert went through, hit the unique index,
      referenced a deal missing from the catalog, or failed for another
      reason (`writeFails`), including a generated `newId` that clashes
      with an existing primary key. `canon` is the `uuid` column's reading
      of the text sent as `dealId`: the row stores that value, and the
      index and the reference to `deals` compare it, while the
      `wishlist_add` event, emitted only after an insert that went through,
      carries the text as sent. Text the column refuses also gets a
      success with nothing stored; the request validator, which is not
      modelled, throws on any such text before this point, so that outcome
      belongs to the model only. */
  function Add(store: Store, catalog: Catalog, canon: string -> Option<DealId>, user: UserId, role: string, body: AddBody,
               newId: EntryId, now: Instant, writeFails: bool): (o: Outcome)
    ensures o.reply.Forbidden? <==> body.alertEnabled == Some(true) && role != Subscriber
    ensures o.reply == Ok || o.reply == Forbidden(UpgradeMessage)
    ensures o.reply.Forbidden? || writeFails || canon(body.dealId).None? ==> o.store == store
    ensures canon(body.dealId).Some? && (HasPair(store, user, canon(body.dealId).value) || canon(body.dealId).value !in catalog) ==>
      o.store == store
    ensures HasId(store, newId) ==> o.store == store && o.events == []
    ensures o.reply == Ok && !writeFails && canon(body.dealId).Some? && canon(body.dealId).value in catalog && !HasId(store, newId) ==>
      HasPair(o.store, user, canon(body.dealId).value)
    ensures o.reply == Ok && !writeFails && canon(body.dealId).Some? && canon(body.dealId).value in catalog && !HasId(store, newId) &&
            !HasPair(store, user, canon(body.dealId).value) ==>
      o.store == store + [Entry(newId, user, canon(body.dealId).value, Some(body.alertEnabled == Some(true)), Some(now))]
    ensures store <= o.store && |o.store| <= |store| + 1
    ensures Valid(store) ==> Valid(o.store)
    ensures o.events != [] <==> o.store != store
    ensures o.events != [] ==> o.events == [WishlistAdd(user, body.dealId)]
  {
    if body.alertEnabled == Some(true) && role != Subscriber then
      Outcome(store, Forbidden(UpgradeMessage), [])
    else if writeFails then
      Outcome(store, Ok, [])
    else
      match canon(body.dealId)
      case None => Outcome(store, Ok, [])
      case Some(deal) =>
        var row := NewRow(user, deal, Some(body.alertEnabled.GetOr(false)));
        match Insert(store, catalog.Keys, row, newId, now)
        case Inserted(next) =>
          assert HasPair(next, user, deal) by {
            assert next[|store|] in next;
          }
          Outcome(next, Ok, [WishlistAdd(user, body.dealId)])
        case Rejected(_) => Outcome(store, Ok, [])
  }

  /** After a permitted add that reached the table, the user holds exactly
      one entry for the deal. */
  lemma AddLeavesExactlyOne(store: Store, catalog: Catalog, canon: string -> Option<DealId>, user: UserId, role: string,
                            body: AddBody, newId: EntryId, now: Instant)
    requires Valid(store) && !HasId(store, newId)
    requires canon(body.dealId).Some? && canon(body.dealId).value in catalog
    requires Add(store, catalog, canon, user, role, body, newId, now, false).reply == Ok
    ensures |Filter(Add(store, catalog, canon, user, role, body, newId, now, false).store, SamePair(user, canon(body.dealId).value))| == 1
  {
    AtMostOnePerPair(Add(store, catalog, canon, user, role, body, newId, now, false).store, user, canon(body.dealId).value);
  }

  /** Repeating an add changes nothing and gets the same reply. */
  lemma AddIdempotent(store: Store, catalog: Catalog, canon: string -> Option<DealId>, user: UserId, role: string, body: AddBody,
                      id1: EntryId, now1: Instant, id2: EntryId, now2: Instant, writeFails2: bool)
    requires !HasId(store, id1)
    ensures var first := Add(store, catalog, canon, user, role, body, id1, now1, false);
      var second := Add(first.store, catalog, canon, user, role, body, id2, now2, writeFails2);
      second.store == first.store && second.reply == first.reply && second.events == []
  {
  }

  /** The DELETE handler: remove the caller's row for the deal, if any,
      emit `wishlist_remove`, and reply with a success either way. The
      path parameter `deal` is not validated: `canon` is the `uuid`
      column's reading of it, so any spelling of a stored id matches that
      row, and text the column refuses makes the statement fail. When the
      statement fails, for that reason or another (`deleteFails`: an
      unreachable database, say), the awaited delete throws: nothing is
      deleted, no event is emitted and no reply is sent. The event carries
      the parameter as sent. */
  function Remove(store: Store, canon: string -> Option<DealId>, user: UserId, deal: string, deleteFails: bool): (o: Outcome)
    ensures o.reply == Ok <==> !deleteFails && canon(deal).Some?
    ensures deleteFails || canon(deal).None? ==> o == Outcome(store, Unanswered, [])
    ensures !deleteFails && canon(deal).Some? ==> o.events == [WishlistRemove(user, deal)]
    ensures !deleteFails && canon(deal).Some? ==>
      forall e :: e in o.store <==> e in store && !(e.userId == user && e.dealId == canon(deal).value)
    ensures !deleteFails && canon(deal).Some? ==> !HasPair(o.store, user, canon(deal).value)
    ensures canon(deal).None? || !HasPair(store, user, canon(deal).value) ==> o.store == store
    ensures Valid(store) ==> Valid(o.store)
    ensures Valid(store) && !deleteFails && canon(deal).Some? ==>
      |o.store| == |store| - (if HasPair(store, user, canon(deal).value) then 1 else 0)
  {
    if deleteFails then Outcome(store, Unanswered, [])
    else
      match canon(deal)
      case None => Outcome(store, Unanswered, [])
      case Some(d) =>
        FilterKeepsAllWhenAbsent(store, user, d);
        AtMostOnePerPairWhenValid(store, user, d);
        Outcome(Delete(store, user, d), Ok, [WishlistRemove(user, deal)])
  }

  lemma FilterKeepsAllWhenAbsent(store: Store, user: UserId, deal: DealId)
    ensures !HasPair(store, user, deal) ==> Filter(store, Not(SamePair(user, deal))) == store
  {
    if !HasPair(store, user, deal) {
      FilterKeepsAll(store, Not(SamePair(user, deal)));
    }
  }

  lemma AtMostOnePerPairWhenValid(store: Store, user: UserId, deal: DealId)
    ensures Valid(store) ==> |Filter(store, SamePair(user, deal))| == (if HasPair(store, user, deal) then 1 else 0)
  {
    if Valid(store) {
      AtMostOnePerPair(store, user, deal);
    }
  }

  /** Removing twice is the same as removing once. */
  lemma RemoveIdempotent(store: Store, canon: string -> Option<DealId>, user: UserId, deal: string)
    ensures Remove(Remove(store, canon, user, deal, false).store, canon, user, deal, false) == Remove(store, canon, user, deal, false)
  {
  }

  /** Removal keeps every other row in its place: the table before and
      after the matching rows are filtered independently. */
  lemma RemovePreservesOrder(a: Store, b: Store, canon: string -> Option<DealId>, user: UserId, deal: string)
    ensures Remove(a + b, canon, user, deal, false).store == Remove(a, canon, user, deal, false).store + Remove(b, canon, user, deal, false).store
  {
    if canon(deal).Some? {
      FilterAppend(a, b, Not(SamePair(user, canon(deal).value)));
    }
  }

  /** Removing a deal that an add just put on the wishlist restores the
      table exactly, whichever spelling of the same id the removal uses. */
  lemma AddThenRemove(store: Store, catalog: Catalog, canon: string -> Option<DealId>, user: UserId, role: string, body: AddBody,
                      newId: EntryId, now: Instant, spelling: string)
    requires canon(body.dealId).Some? && canon(spelling) == canon(body.dealId)
    requires !HasId(store, newId) && !HasPair(store, user, canon(body.dealId).value)
    requires canon(body.dealId).value in catalog
    requires Add(store, catalog, canon, user, role, body, newId, now, false).reply == Ok
    ensures Remove(Add(store, catalog, canon, user, role, body, newId, now, false).store, canon, user, spelling, false).store == store
  {
    var deal := canon(body.dealId).value;
    var e := Entry(newId, user, deal, Some(body.alertEnabled == Some(true)), Some(now));
    var p := Not(SamePair(user, deal));
    FilterAppend(store, [e], p);
    FilterKeepsAll(store, p);
    assert Filter([e], p) == [];
  }
}
