# Wishlist status and price resolution, modelled in Dafny

This project models the wishlist backend of a deal-tracking app. A user
saves deals to a wishlist. Listing the wishlist gives each saved deal a
fresh `status` (`active` or `expired`) and a `bestPrice` (the lowest
recorded price, or null). Adding an entry with price-drop alerts turned on
is reserved for the `subscriber` role. Removing an entry replies with a
success whenever the delete statement completes.

The database tables are values: the `wishlist` table is a sequence of rows
in storage order, the `deals` table is a map from deal id to its
`is_active` and `expires_at` columns, and the `prices` table is a sequence
of (deal id, amount) rows. The caller's user id and role, the clock
readings (integer milliseconds, at most one reading per listed entry; the
handler reads the clock only for a deal that exists, is active and has an
expiry, and readings it never takes are ignored), the generated row id,
and the failure of a statement for reasons outside the table's constraints
are parameters. Deal ids sent by a client are text; the `uuid` column
reads that text as a value, and each write handler takes that reading as
a parameter, `canon`. `Uuid.Canonical` is PostgreSQL's reading, and the
concrete runs use it. Each write handler returns the table it leaves behind, its
reply, and the analytics events it emitted.

Files:

- `seqs.dfy` (module `Seqs`): filtering a sequence and keys that are
  unique within a sequence, with the lemmas the rest relies on.
- `schema.dfy` (module `Schema`): the wishlist row, the `alert_enabled`
  default, the primary key and the unique (user, deal) index as the
  invariant `Valid`, and the storage engine's insert, per-user select and
  delete.
- `uuid.dfy` (module `Uuid`): PostgreSQL's text input for `uuid` values,
  which accepts several spellings of one id and stores the standard one.
- `resolvers.dfy` (module `Resolvers`): the deal-status decision and the
  best-price lookup.
- `routes.dfy` (module `Routes`): the GET, POST and DELETE handlers.
- `scenarios.dfy` (module `Scenarios`): concrete runs, including the
  add, list, remove sequence with two deals.

In these places the model follows the code as written:

- A deal whose `is_active` is null counts as expired, not only one whose
  flag is false. The handler tests the flag for truthiness.
- The add handler swallows every insert failure, not only a duplicate of
  the (user, deal) pair. A reference to a deal that is not in the `deals`
  table, a primary-key clash and any other write failure also get
  `{success: true}`, and nothing is stored. The model keeps this
  behaviour. `Routes.Add` states it, and `Scenarios.UnknownDealExample`
  shows it on a concrete input.
- The remove handler does not validate its path parameter. The `uuid`
  column reads it as a value, so any accepted spelling of a stored id
  (upper case, braces, hyphens left out) deletes that row, while the
  `wishlist_remove` event carries the text as sent. Text the column
  refuses makes the delete statement fail, and so does an unreachable
  database (`deleteFails`); the handler then throws before emitting its
  event or replying. `Routes.Remove` states both in terms of the
  column's reading; `Uuid.CanonicalDigits` and `Uuid.SameDigitsSameValue` state
  that every accepted spelling of a stored id reads as that id, and
  `Scenarios.UpperCaseRemoveExample` shows it for upper case.
- The listing does not isolate one entry's failure from the others: one
  failing query aborts the whole request. Query failures are not modelled
  (see below).

## Model

| member | source | states |
|---|---|---|
| `Schema.AlertColumn` | backend/db/schema/wishlist.ts:24 | the stored `alert_enabled` is true exactly when true was supplied; an omitted value is stored as false |
| `Schema.Insert` | backend/db/schema/wishlist.ts:14-31 | an insert is refused exactly when the id is taken, the (user, deal) pair is present, or the deal is not in `deals`; a pair clash with a fresh id and a known deal is reported as the unique-index violation; otherwise the new row is appended with its supplied fields, the flag defaulting to false and `created_at` set to now (neither null); an accepted insert keeps both uniqueness constraints |
| `Uuid.Canonical` | backend/db/schema/wishlist.ts:20-22 | the value the `uuid` column reads from a text, when it accepts it, is in the standard spelling: 36 characters, hyphens at the four group boundaries, lower-case hex digits elsewhere |
| `Uuid.CanonicalDigits` | backend/db/schema/wishlist.ts:20-22 | the 32 digits of the value read from an accepted text are the text's own hex digits in order and lowered, braces and hyphens dropped |
| `Uuid.SameDigitsSameValue` | backend/db/schema/wishlist.ts:20-22 | two accepted texts denote the same value exactly when their hex digits agree, so braces, hyphens and case never matter and every digit does |
| `Uuid.StandardIsFixed` | backend/db/schema/wishlist.ts:20-22 | a text in the standard spelling reads as itself, so a stored id matches its own spelling |
| `Uuid.CanonicalIdempotent` | backend/db/schema/wishlist.ts:20-22 | reading the value read from a text again gives the same value |
| `Uuid.CanonicalIgnoresCase` | backend/routes/wishlist.routes.ts:81 | a text and its lower-cased form denote the same value, or are both refused, so the case of the hex digits in a request does not matter |
| `Schema.Select` | backend/routes/wishlist.routes.ts:16-19 | the per-user query returns exactly the rows whose `user_id` is the caller's |
| `Schema.Delete` | backend/routes/wishlist.routes.ts:76-83 | the delete keeps exactly the rows that do not match both user and deal; the table shrinks by the number of matching rows; the constraints still hold afterwards |
| `Schema.AtMostOnePerPair` | backend/db/schema/wishlist.ts:28-31 | under the unique index a valid table holds at most one row per (user, deal), and exactly one when the pair is present |
| `Resolvers.ResolveStatus` | backend/routes/wishlist.routes.ts:30 | a deal is active exactly when it exists, its flag is true (not false, not null) and it has no expiry or expires at or after `now`; so a missing or inactive deal is expired whatever its expiry |
| `Resolvers.ExpiryIsPermanent` | backend/routes/wishlist.routes.ts:30 | a deal expired at some time stays expired at every later time while its row is unchanged |
| `Resolvers.AmountsFor` | backend/routes/wishlist.routes.ts:35-38 | the amounts gathered for a deal are exactly the amounts of its price rows; there are none exactly when the deal has no price row |
| `Resolvers.Lowest` | backend/routes/wishlist.routes.ts:39-41 | the first amount in ascending order is an element of the amounts and no larger than any of them; it is null only for no amounts |
| `Resolvers.BestPrice` | backend/routes/wishlist.routes.ts:35-41 | the best price is null exactly when the deal has no price rows; otherwise it is the amount of one of the deal's rows and at most every amount of its rows |
| `Routes.Views` | backend/routes/wishlist.routes.ts:13-47 | one view per row of the caller, same count and same order as the per-user select, each keeping its row unchanged; each status is the deal's status resolved against the clock reading taken for that entry; expired views carry a null price and active views carry the deal's best price |
| `Routes.GetWishlist` | backend/routes/wishlist.routes.ts:21-44 | the handler's loop, which takes at most one clock reading per entry and skips the price lookup for expired deals, yields exactly the listing `Views` |
| `Routes.ViewsAppend` | backend/routes/wishlist.routes.ts:16-44 | the listing follows table order: the listing of two consecutive parts of the table is the first part's listing followed by the second's, each with its own clock readings |
| `Routes.LaterReadingsOnlyExpire` | backend/routes/wishlist.routes.ts:30 | resolving the same table against clock readings that are each no earlier never turns an expired entry back into an active one |
| `Routes.ExpiredIgnoresPrices` | backend/routes/wishlist.routes.ts:30-32 | an expired entry's view is identical under any price table, and its price is null |
| `Routes.Add` | backend/routes/wishlist.routes.ts:50-72 | the reply is 403 exactly when alerts are requested by a role other than `subscriber`, and then the table is untouched and no event fires; otherwise the reply is success. A deal id the `uuid` column refuses (an outcome only the model can reach, since the left-out request validator throws on such text first), a duplicate pair, an unknown deal, a clash of the generated id with an existing primary key or a failed write leaves the table unchanged with no event. A permitted add with a fresh id that reaches the table leaves the pair present under the value the column read; if the pair was new it appends one row with that value, the requested flag or false, and the current time. Only that one row can be added; the constraints are kept; `wishlist_add` fires exactly when the table changed, and carries the id as sent |
| `Routes.AddLeavesExactlyOne` | backend/routes/wishlist.routes.ts:60-71 | after a permitted add of a known deal with no write failure, the caller holds exactly one entry for the value the column read |
| `Routes.AddIdempotent` | backend/routes/wishlist.routes.ts:60-71 | repeating an add leaves the table as the first add left it, gives the same reply and emits no event |
| `Routes.Remove` | backend/routes/wishlist.routes.ts:75-91 | the reply is success exactly when the column accepts the path parameter and the delete statement completes; then `wishlist_remove` fires with the parameter as sent, exactly the rows matching both the user and the value the column read are gone and every other row stays, and on a valid table at most one row goes; when the statement fails the table is unchanged, no event fires and no reply is sent; with no match the table is unchanged; the constraints are kept |
| `Routes.RemoveIdempotent` | backend/routes/wishlist.routes.ts:76-90 | removing the same pair twice has the same outcome as removing it once |
| `Routes.RemovePreservesOrder` | backend/routes/wishlist.routes.ts:76-83 | removal keeps the remaining rows in their original order |
| `Routes.AddThenRemove` | backend/routes/wishlist.routes.ts:60-83 | removing a pair that a permitted add has just inserted, under any spelling of the same id, gives back the original table |
| `Scenarios.BestPriceExamples` | backend/routes/wishlist.routes.ts:35-41 | prices 50, 30, 40 give 30; a deal with no prices gives null; a price of 0 is reported as 0 |
| `Scenarios.StatusExamples` | backend/routes/wishlist.routes.ts:30 | expiry equal to now is active, expiry before now is expired, no expiry is active, a null or false flag is expired, a missing deal is expired |
| `Scenarios.AlertGateExample` | backend/routes/wishlist.routes.ts:56-71 | alerts for a free account get 403 and nothing is stored; a subscriber's request stores the entry with alerts on |
| `Scenarios.UnknownDealExample` | backend/routes/wishlist.routes.ts:60-71 | adding a deal absent from `deals` replies success, stores nothing and emits nothing |
| `Scenarios.IdClashExample` | backend/routes/wishlist.routes.ts:60-71 | an add whose generated id is already taken replies success, stores nothing and emits nothing |
| `Scenarios.FailedDeleteExample` | backend/routes/wishlist.routes.ts:75-91 | a failing delete statement leaves the table as it was, emits nothing and sends no reply |
| `Scenarios.UpperCaseSpelling` | backend/routes/wishlist.routes.ts:81 | the upper-case spelling of a stored id reads as that id |
| `Scenarios.RefusedSpelling` | backend/routes/wishlist.routes.ts:81 | text that is no uuid is refused |
| `Scenarios.UpperCaseAddExample` | backend/routes/wishlist.routes.ts:61-67 | adding a deal spelled in upper case stores the row under the lower-case id, and the event carries the upper-case text |
| `Scenarios.UpperCaseRemoveExample` | backend/routes/wishlist.routes.ts:76-88 | removing a deal spelled in upper case deletes the stored lower-case row, and the event carries the upper-case text |
| `Scenarios.FirstAdd` | backend/routes/wishlist.routes.ts:60-71 | an add to an empty wishlist stores one row |
| `Scenarios.SecondAdd` | backend/routes/wishlist.routes.ts:60-71 | a second add of another deal appends its row after the first |
| `Scenarios.TwoAdds` | backend/routes/wishlist.routes.ts:60-71 | two adds of different deals leave two rows, in table order |
| `Scenarios.ListingAfterAdds` | backend/routes/wishlist.routes.ts:13-47 | the listing shows D1 active at 80 and then the inactive D2 expired with a null price |
| `Scenarios.ListingAfterRemove` | backend/routes/wishlist.routes.ts:75-91 | after removing D1 only D2 remains and is listed |

Rows that are `NOT NULL` in the schema (`user_id`, `deal_id`,
backend/db/schema/wishlist.ts:16-22) are plain, non-optional fields of
`Schema.Entry`, so no entry can lack them. `alert_enabled` and
`created_at` (backend/db/schema/wishlist.ts:24-26) have defaults but no
`NOT NULL`, so they are `Option` fields: a row written by the add handler
holds values in both, but the table may hold a null there, and the listing
passes the row through unchanged. The primary key on `id`
(backend/db/schema/wishlist.ts:14) is the second half of `Schema.Valid`;
`Routes.Add` and `Routes.Remove` both keep it.

## Left out

- HTTP routing, request and response objects, and the server wiring. Replies are the `Reply` datatype: 200 with `{success: true}` or 403 with the upgrade message.
- The authentication middleware. The caller's user id and role are parameters. The role is free text, and the only value the code compares it with is `"subscriber"`. The reference from `user_id` to `users` is taken as met, since the id comes from an authenticated user.
- Request validation of the POST body. A `dealId` that is not a UUID makes the parser throw before any logic runs, and that path is not modelled.
- Routes.Add: the validator admits only the hyphenated 8-4-4-4-12 spelling, in either case. The model does not apply it, so it lets through the other spellings the `uuid` column accepts (braces, hyphens left out), which the code refuses before any logic runs.
- The caller's user id is taken to be in the standard spelling, since it comes from the `users` table through authentication.
- What the web framework does after a handler throws is transport. The model records that no success reply is sent and no event fires.
- Query execution, connection handling and query failures during the listing. The N+1 query pattern is a performance detail. A write failure on insert is the `writeFails` parameter of `Routes.Add`.
- The best-price query `ORDER BY amount ASC LIMIT 1` is modelled as the minimum amount. The two give the same amount for any table, and only the amount is returned.
- The analytics sink. Events are returned as a list; delivery and its failures are not modelled.
- Timestamps are integer milliseconds. The `new Date()` of the listing loop, taken at most once per entry, is that entry's element of the `clock` parameter; an element for an entry where the handler takes no reading is ignored. `created_at` takes the `now` that the add handler is given.
- `deals.title`, `deals.created_at`, `prices.id`, `prices.created_at`, and the `users` columns other than `role` are not read by the logic, so they are not modelled.
- The row order a `SELECT` without `ORDER BY` returns is whatever the engine gives. The model takes it to be the order of the table sequence, and it also assumes that a new row goes at the end of that sequence. The engine may instead put a new row in space freed by an earlier delete.
- The React pages, components and client fetch helpers.
