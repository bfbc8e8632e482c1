/** Concrete runs of the handlers on small tables, with ids spelled as the
    `uuid` column spells them and the column's own text conversion. */
module Scenarios {
  import opened Schema
  import opened Uuid
  import opened Resolvers
  import opened Routes

  const D1: string := "a0eebc99-9c0b-4ef8-bb6d-6bb9bd380a11"
  const D2: string := "b1ffcd00-0d1c-4f09-8c7e-7cc0ce491b22"
  /** `D1` in upper case, as a client may send it. */
  const D1Upper: string := "A0EEBC99-9C0B-4EF8-BB6D-6BB9BD380A11"

  /** Both ids are in the standard spelling, so they read back as sent. */
  lemma IdsAreStandard()
    ensures Canonical(D1) == Some(D1) && Canonical(D2) == Some(D2)
  {
    forall p | 0 <= p < 36
      ensures StandardChar(D1, p) && StandardChar(D2, p)
    {
    }
    StandardIsFixed(D1);
    StandardIsFixed(D2);
  }

  /** The upper-case spelling denotes the stored id. */
  lemma UpperCaseSpelling()
    ensures Canonical(D1Upper) == Some(D1)
  {
    assert LowerAll(D1Upper) == D1 by {
      forall p | 0 <= p < 36
        ensures LowerAll(D1Upper)[p] == D1[p]
      {
      }
    }
    CanonicalIgnoresCase(D1Upper);
    IdsAreStandard();
  }

  /** Text that is no uuid at all is refused. */
  lemma RefusedSpelling()
    ensures Canonical("abc") == None
  {
    assert ReadBytes("c", 1) == None;
    assert ReadBytes("abc", 0) == None;
  }

  /** Prices 50, 30 and 40 give a best price of 30; a deal without rows
      has none, and a price of zero is reported as zero, not as null. */
  lemma BestPriceExamples()
    ensures BestPrice([PriceRow("D", 50), PriceRow("D", 30), PriceRow("D", 40)], "D") == Some(30)
    ensures BestPrice([PriceRow("D", 50)], "E") == None
    ensures BestPrice([PriceRow("D", 0), PriceRow("D", 7)], "D") == Some(0)
  {
    var p := [PriceRow("D", 50), PriceRow("D", 30), PriceRow("D", 40)];
    assert p[1].dealId == "D" && p[1].amount == 30;
    var z := [PriceRow("D", 0), PriceRow("D", 7)];
    assert z[0].dealId == "D" && z[0].amount == 0;
  }

  /** The status boundaries: expiring exactly now is still active, and an
      active flag does not save a deal whose expiry has passed. */
  lemma StatusExamples()
    ensures ResolveStatus(map["D" := Deal(Some(true), Some(10))], "D", 10) == Active
    ensures ResolveStatus(map["D" := Deal(Some(true), Some(10))], "D", 11) == Expired
    ensures ResolveStatus(map["D" := Deal(Some(true), None)], "D", 11) == Active
    ensures ResolveStatus(map["D" := Deal(None, None)], "D", 0) == Expired
    ensures ResolveStatus(map["D" := Deal(Some(false), Some(100))], "D", 0) == Expired
    ensures ResolveStatus(map[], "D", 0) == Expired
  {
  }

  const Catalog1: Catalog := map[D1 := Deal(Some(true), None), D2 := Deal(Some(false), None)]
  const Prices1: PriceTable := [PriceRow(D1, 100), PriceRow(D1, 80)]
  const Entry1: Entry := Entry("W1", "U1", D1, Some(false), Some(1))
  const Entry2: Entry := Entry("W2", "U1", D2, Some(false), Some(2))

  /** A free account asking for alerts is refused and stores nothing; a
      subscriber making the same request stores the entry with alerts on. */
  lemma AlertGateExample()
    ensures Add([], Catalog1, Canonical, "U1", "free", AddBody(D1, Some(true)), "W1", 5, false) == Outcome([], Forbidden(UpgradeMessage), [])
    ensures Add([], Catalog1, Canonical, "U1", "subscriber", AddBody(D1, Some(true)), "W1", 5, false).store
      == [Entry("W1", "U1", D1, Some(true), Some(5))]
  {
    IdsAreStandard();
  }

  /** Adding a deal the catalog does not hold breaks the reference to
      `deals`; the failure is swallowed, so the reply is still a success
      while nothing is stored and no event is emitted. */
  lemma UnknownDealExample()
    ensures Add([], map[], Canonical, "U1", "free", AddBody(D1, None), "W1", 5, false) == Outcome([], Ok, [])
  {
    IdsAreStandard();
  }

  /** A generated id that clashes with a stored row's primary key is
      swallowed too: success, nothing stored, no event. */
  lemma IdClashExample()
    ensures Add([Entry1], Catalog1, Canonical, "U1", "free", AddBody(D2, None), "W1", 5, false) == Outcome([Entry1], Ok, [])
  {
    assert [Entry1][0] in [Entry1];
  }

  /** A delete whose path parameter the `uuid` column refuses fails:
      nothing is removed, nothing is emitted and no reply is sent. */
  lemma FailedDeleteExample()
    ensures Remove([Entry1], Canonical, "U1", "abc", false) == Outcome([Entry1], Unanswered, [])
  {
    RefusedSpelling();
  }

  /** U1 adds D1 to an empty wishlist without alerts. */
  lemma FirstAdd()
    ensures Add([], Catalog1, Canonical, "U1", "free", AddBody(D1, Some(false)), "W1", 1, false).store == [Entry1]
  {
    IdsAreStandard();
  }

  /** U1 then adds D2; the model appends the new row at the end of the
      table. */
  lemma SecondAdd()
    ensures Add([Entry1], Catalog1, Canonical, "U1", "free", AddBody(D2, None), "W2", 2, false).store == [Entry1, Entry2]
  {
    IdsAreStandard();
    assert !HasPair([Entry1], "U1", D2);
    assert !HasId([Entry1], "W2");
  }

  /** U1 adds D1 and then D2, both without alerts; the rows stand in
      table order. */
  lemma TwoAdds()
    ensures var first := Add([], Catalog1, Canonical, "U1", "free", AddBody(D1, Some(false)), "W1", 1, false).store;
      Add(first, Catalog1, Canonical, "U1", "free", AddBody(D2, None), "W2", 2, false).store == [Entry1, Entry2]
  {
    FirstAdd();
    SecondAdd();
  }

  /** Adding D1 spelled in upper case stores the row under the standard
      spelling, while the event carries the text as sent. */
  lemma UpperCaseAddExample()
    ensures Add([], Catalog1, Canonical, "U1", "free", AddBody(D1Upper, None), "W1", 1, false)
      == Outcome([Entry1], Ok, [WishlistAdd("U1", D1Upper)])
  {
    UpperCaseSpelling();
  }

  /** Removing D1, under any spelling of it, from the two-row table. */
  lemma RemoveD1(spelling: string)
    ensures Canonical(spelling) == Some(D1) ==>
      Remove([Entry1, Entry2], Canonical, "U1", spelling, false) == Outcome([Entry2], Ok, [WishlistRemove("U1", spelling)])
  {
    var after := Delete([Entry1, Entry2], "U1", D1);
    assert Entry2 in after && Entry1 !in after;
    assert forall e :: e in after ==> e == Entry2;
  }

  /** Removing D1 spelled in upper case deletes the stored row. */
  lemma UpperCaseRemoveExample()
    ensures Remove([Entry1, Entry2], Canonical, "U1", D1Upper, false) == Outcome([Entry2], Ok, [WishlistRemove("U1", D1Upper)])
  {
    UpperCaseSpelling();
    RemoveD1(D1Upper);
  }

  /** D1 is listed active at its lower price 80, then D2 expired with no
      price, in table order. */
  lemma ListingAfterAdds()
    ensures Views([Entry1, Entry2], Catalog1, Prices1, "U1", [3, 4]) == [View(Entry1, Active, Some(80)), View(Entry2, Expired, None)]
  {
    assert BestPrice(Prices1, D1) == Some(80) by {
      assert Prices1[1].dealId == D1 && Prices1[1].amount == 80;
    }
    assert [Entry1, Entry2][1..] == [Entry2];
    assert Views([Entry2], Catalog1, Prices1, "U1", [4]) == [View(Entry2, Expired, None)];
  }

  /** Removing D1 leaves only D2 listed. */
  lemma ListingAfterRemove()
    ensures Remove([Entry1, Entry2], Canonical, "U1", D1, false).store == [Entry2]
    ensures Views([Entry2], Catalog1, Prices1, "U1", [5]) == [View(Entry2, Expired, None)]
  {
    IdsAreStandard();
    RemoveD1(D1);
  }
}
