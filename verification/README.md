# Event-ticket discount redemption, modelled in Dafny

This project models how the event-tickets discounts module redeems a coupon
code against a ticket reservation. It has two parts.

- **The `Discount` entity** (`discount.dfy`, module `Discounts`). It holds a
  coupon's configuration and answers six rule questions: usage cap, validity
  dates, event whitelist, once per email, ticket-type whitelist, and group
  membership. It also computes the price adjustment (`updateTotal`).
- **The coupon field's validation** (`discount_field.dfy`, module
  `DiscountField`). This part looks the entered code up and runs the checks
  in a fixed order. It reports the first failing check as its own error
  kind. Only when every check passes does it link the discount to the
  reservation and apply the adjustment.

A redemption is a pure transition on the discount table (`Submit`), so
lemmas can cover a series of redemptions (`SubmitAll`). Two such lemmas are
the usage bound and the once-per-email guarantee.

Data is plain values:
- The ORM relations `Groups()` and `TicketPages()` become sets of
  identifiers.
- `Reservations()` becomes the sequence of linked reservations (id and
  email).
- An attendee is an optional member with a set of group ids.
- An order item is its buyable's class name.
- Money is `real`.
- The current time is an explicit `now` parameter. `InPast` and `InFuture`
  are taken to be strict comparisons with it; the framework code behind
  them is not part of this model.

Quirks of the code that the model keeps as written:
- `count <= Uses` lets `N + 1` different reservations redeem a discount
  with `Uses == N` (`UsageBound`, `RedemptionCountBound`,
  `DefaultDiscountRedeemsTwice`).
- The cap counts linked reservations, not submissions. The many-many join
  keeps one row per reservation, so a reservation that is already linked
  adds no row when it redeems again. A new discount is therefore redeemed
  by the same reservation time after time (three times in
  `SameReservationRedeemsAgain`).
- A percentage discount can drive the total negative, while a fixed price
  floors the total at zero. The applied amount is never floored.
- `validateDate` overwrites the `ValidFrom` verdict with the `ValidTill`
  verdict. When `ValidTill` is set, a `ValidFrom` still in the future is
  ignored. The method's doc comment describes both bounds; the model follows
  the code. `InWindow` is the two-bound reading, and `DateVersusWindow`
  pins down exactly where the two differ.
- PHP's `empty()` treats the string `"0"` as blank, so the code `"0"`
  skips the checks just like an empty field does (`IsBlank`).
- A `Uses` value below `-1` rejects every redemption.

Files: `wrappers.dfy` (Option, Result), `collections.dfy` (list filtering
standing in for `filter(...)->exists()`), `discount.dfy`, `discount_field.dfy`.

## Model

| member | source | states |
|---|---|---|
| `Discounts.NewDiscount` | src/Model/Discount.php:51-93 | a new discount has the given code, one use, no linked reservations, and passes the date, event, email, ticket-type and group checks for every input |
| `Discounts.UpdateTotal` | src/Model/Discount.php:172-192 | a percentage takes amount percent of the total and the totals add back up (no floor); a fixed price applies amount once per cart or once per attendee; a fixed-price total is never negative and is either the plain difference or zero; the applied amount is never floored |
| `Discounts.PercentageBounds` | src/Model/Discount.php:174-178 | for a positive total, a non-negative percentage of at most 100 keeps the total between zero and its old value, and a percentage above 100 makes it negative |
| `Discounts.PriceNeverNegative` | src/Model/Discount.php:179-187 | with a non-negative amount and total, a fixed price leaves the total between zero and its old value |
| `Discounts.UpdateTotalExamples` | src/Model/Discount.php:172-188 | 10% of 100 gives 90 (applied 10); 150% of 100 gives -50; 5 per ticket for 3 attendees on 50 gives 35 (applied 15); 1000 flat on 10 gives 0 (applied 1000) |
| `Discounts.ValidateUses` | src/Model/Discount.php:219-227 | passes iff Uses is -1, or Uses is non-negative and at most Uses reservations are linked; any other negative Uses always fails |
| `Discounts.ValidateDate` | src/Model/Discount.php:234-248 | everything inside the documented window passes; without ValidTill, the check is exactly the window |
| `Discounts.DateVersusWindow` | src/Model/Discount.php:229-248 | the code passes everything the two-bound window passes, and passes a time outside that window exactly when ValidTill is still ahead and ValidFrom is set but not yet past |
| `Discounts.DateExamples` | src/Model/Discount.php:236-247 | no dates always pass; ValidFrom equal to now fails and one second earlier passes; a future ValidFrom is ignored once ValidTill is set; ValidTill equal to now fails |
| `Discounts.ValidateEvents` | src/Model/Discount.php:279-291 | fails iff ticket pages are configured and the reservation's event is absent or not among them |
| `Discounts.ValidateOncePerEmail` | src/Model/Discount.php:194-202 | passes iff the flag is off or no linked reservation carries the reservation's email |
| `Discounts.ValidateTicketType` | src/Model/Discount.php:204-212 | passes iff no ticket types are configured or some order item's buyable class is one of them |
| `Discounts.ValidateGroups` | src/Model/Discount.php:257-270 | passes iff no groups are configured, or a member is given and shares at least one group with the discount |
| `Discounts.WideningWhitelists` | src/Model/Discount.php:204-291 | adding entries to an event, group or ticket-type whitelist that is already non-empty never turns a pass of that check into a failure, whatever the other whitelists hold |
| `Collections.Filter` | src/Model/Discount.php:201 | the filtered list keeps exactly the elements that pass the filter, and is no longer than the input |
| `Collections.FilterExists` | src/Model/Discount.php:201 | the filtered list is non-empty iff some element of the input passes the filter |
| `DiscountField.Lookup` | src/Forms/DiscountField.php:47 | finds a discount whose code equals the input exactly, and finds nothing iff no discount carries that code; when several did, it takes the first in table order |
| `DiscountField.LookupUnique` | src/Model/Discount.php:71-73 | when codes are unique, looking up a discount's own code finds that discount |
| `DiscountField.CheckAttendeeGroups` | src/Forms/DiscountField.php:105-118 | the attendee loop passes iff the discount has no groups or some attendee's linked member shares a group with it |
| `DiscountField.Validate` | src/Forms/DiscountField.php:46-127 | NOT_FOUND iff no discount has the code; success iff the code is found and no check fails; any other error is the first check, in the order uses, date, event, email, ticket type, groups, that fails, and every earlier check passed |
| `DiscountField.Link` | src/Forms/DiscountField.php:130 | afterwards the reservation is linked and its row carries its current email; a reservation linked before keeps the number of rows; one not linked before gains exactly one row at the end; no other reservation is unlinked and nothing else about the discount changes |
| `DiscountField.RelinkSingleRow` | src/Forms/DiscountField.php:130 | re-linking the only linked reservation, unchanged, leaves the discount as it was |
| `DiscountField.AddModifier` | src/Forms/DiscountField.php:130 | the reservation side of the join: the code is among the price modifiers afterwards, the old list is kept as a prefix, at most one entry is added, and nothing else about the reservation changes |
| `DiscountField.Submit` | src/Forms/DiscountField.php:37-133 | a blank value is skipped; every rejection leaves the table and the reservation unchanged and reports the pipeline's error; a success links the found discount to the reservation, adds its code to the reservation's price modifiers, and returns updateTotal's adjustment |
| `DiscountField.BlankAndUnknownCodes` | src/Forms/DiscountField.php:41-54 | a blank or absent value changes nothing and is skipped; a code no discount carries is NOT_FOUND and changes nothing |
| `DiscountField.SubmitAllGrowsLinks` | src/Forms/DiscountField.php:129-132 | over any series of submissions, a discount's configuration is unchanged, no reservation is unlinked, and its row count never falls and grows by at most the number of its redemptions |
| `DiscountField.FreshRedemptionsAddRows` | src/Forms/DiscountField.php:129-132 | when every submission comes from a different reservation not yet linked, the row count grows by exactly the number of redemptions |
| `DiscountField.RedeemedPassedUses` | src/Forms/DiscountField.php:56-64 | a redemption only happens when the discount passed the usage check |
| `DiscountField.UsageBound` | src/Model/Discount.php:219-227 | with Uses = N >= 0, no series of submissions lifts the linked count above the larger of its start value and N + 1 |
| `DiscountField.RedemptionCountBound` | src/Model/Discount.php:226 | starting from k <= N + 1 linked reservations, at most N + 1 - k submissions from different reservations not yet linked redeem a discount with Uses = N |
| `DiscountField.UnlimitedNeverUsed` | src/Model/Discount.php:221-224 | when the discount the code finds has Uses = -1, the pipeline never reports USED |
| `DiscountField.DefaultDiscountRedeemsTwice` | src/Model/Discount.php:83-85 | a new discount (Uses = 1) is redeemed by two different reservations in a row, and a third submission is rejected as USED |
| `DiscountField.NewDiscountPasses` | src/Model/Discount.php:83-85 | a new discount, before or after one reservation is linked, passes every check of the pipeline for any reservation |
| `DiscountField.TwoLinksUseUp` | src/Model/Discount.php:219-227 | a new discount linked to two different reservations has two rows and rejects the next submission of its code as USED, changing nothing |
| `DiscountField.SameReservationRedeemsAgain` | src/Model/Discount.php:219-227 | a new discount (Uses = 1) submitted three times by the same reservation is redeemed every time and keeps a single linked row |
| `DiscountField.ResubmitLinked` | src/Forms/DiscountField.php:56-64 | a new discount linked to one reservation is redeemed again by that reservation, and the table is left as it was |
| `DiscountField.RedeemRecordsEmail` | src/Forms/DiscountField.php:129-130 | after a redemption, the discount has a row for the redeeming reservation with that reservation's email |
| `DiscountField.SubmitAllKeepsEmail` | src/Forms/DiscountField.php:129-132 | later submissions none of which comes from the row's reservation under another email, whatever its outcome, keep that row, the once-per-email flag, the code, and the uniqueness of codes |
| `DiscountField.OncePerEmailRejects` | src/Forms/DiscountField.php:87-94 | a once-per-email discount that already carries email E rejects a reservation with email E at or before ALREADY_USED_BY_EMAIL |
| `DiscountField.OncePerEmailSticks` | src/Forms/DiscountField.php:87-94 | after email E redeems a once-per-email discount, no later submission of that code for email E succeeds, whatever submissions happened in between, provided no submission in between came from the first reservation under another email |
| `DiscountField.OtherEmailPassesEmailCheck` | src/Model/Discount.php:194-202 | a reservation whose email is not yet linked is never rejected as ALREADY_USED_BY_EMAIL |
| `DiscountField.GroupCheckCases` | src/Forms/DiscountField.php:105-127 | without groups the group check passes even with no attendees or members; with groups and no linked member at all it fails |

## Left out

- Code generation (`generateCode`, `uniqid`) is time-based and foreign, so `NewDiscount` takes the code as an input. The unique `Code` index is the `UniqueCodes` precondition.
- The CMS form building, enum labels, ticket-type and ticket-page listings, and the table title are presentation code.
- The JSON decoding of `TicketType` is not modelled; the field is an already-decoded set. An empty set stands for an empty field. A stored `"[]"` is not modelled.
- The member query in `validateGroups` (`Member::get()->filter(...)->find(...)`) is modelled as "the member's direct group set shares a group with the discount".
- `setPriceModification`, `calculateTotal`, `PriceModifiers()->add` and `write()` belong to the parent event-tickets module, which is not part of this model. A success links the reservation to the discount (one join row per reservation), adds the discount's code to the reservation's price modifiers, and returns the adjustment `updateTotal` computes from a running total given as input.
- `DiscountField.Lookup`: the table order stands for the default sort `ValidFrom DESC` (src/Model/Discount.php:64) that `find` takes its first row from. Under the unique `Code` index only one row can match, so the order never matters there.
- Code and email matching are exact and case-sensitive; database collation is not modelled.
- A reservation's ticket page is an optional event id. PHP's `empty()` on a page object is not modelled.
- `Uses` is an integer; PHP type juggling of the stored value is not modelled.
- Message text and localisation are replaced by the `ErrorKind` datatype. The default text-field validation run for a blank value is not modelled.
- The form, controller and admin glue (`DiscountForm`, `AddDiscountExtension`, `DiscountEventExtension`, `DiscountAdmin`, including the `DisableDiscountField` toggle) is not modelled.
- Join rows carry the email a reservation had when it was last linked through the field. An email edited elsewhere afterwards is not seen; the source's once-per-email filter reads the current `Email`.
- `DiscountField.Submit`: the session always holds a reservation. With none, the source calls a method on null after the date check (src/Forms/DiscountField.php:76-78); that crash is not modelled.
- `DiscountField.SubmitAllGrowsLinks`: bounds the row growth by the number of redemptions, and does not say the old rows stay a prefix; a reservation that is linked again adds no row and its row takes the new email. `FreshRedemptionsAddRows` gives the exact count for reservations not yet linked.
- The race between two concurrent redemptions is not modelled, because concurrency is out of scope.
- PHP float rounding is not modelled; money is exact `real`.
