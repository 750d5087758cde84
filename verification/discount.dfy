/** The `Discount` entity: a coupon's configuration, the six per-rule
    predicates the redemption pipeline asks it, and the price adjustment it
    applies to a reservation's running total.

    The ORM relations are plain data here: `Groups()` and `TicketPages()`
    are sets of identifiers, `Reservations()` is the list of reservations
    already linked to the discount, and the current time is a parameter. */
module Discounts {
  import opened Wrappers
  import opened Collections

  type EventId = int
  type GroupId = int
  type MemberId = int
  type ReservationId = int
  /** A point in time, in seconds. */
  type Time = int

  /** `DiscountType`: any value other than `PERCENTAGE` is priced as `PRICE`. */
  datatype DiscountType = Price | Percentage

  /** `AppliesTo`: only consulted by a fixed-price discount. */
  datatype AppliesTo = Cart | EachTicket

  /** A registered member and the groups it belongs to directly. */
  datatype Member = Member(id: MemberId, groups: set<GroupId>)

  /** The parts of a reservation the discount rules read.
      Each attendee may or may not be linked to a member; each order item
      is represented by the class name of its buyable; `priceModifiers`
      holds the codes of the price modifiers already attached. */
  datatype Reservation = Reservation(
    id: ReservationId,
    email: string,
    event: Option<EventId>,
    attendees: seq<Option<Member>>,
    orderItemClasses: seq<string>,
    priceModifiers: seq<string>)

  /** One row of the discount/reservation join, as seen from the discount. */
  datatype ReservationRef = ReservationRef(id: ReservationId, email: string)

  /** A configured coupon. An empty `ticketTypes`, `groups` or `events`
      set means the corresponding restriction is off. */
  datatype Discount = Discount(
    code: string,
    discountType: DiscountType,
    appliesTo: AppliesTo,
    amount: real,
    uses: int,
    validFrom: Option<Time>,
    validTill: Option<Time>,
    oncePerEmail: bool,
    ticketTypes: set<string>,
    groups: set<GroupId>,
    events: set<EventId>,
    reservations: seq<ReservationRef>)

  /** The `Uses` value that switches the usage cap off. */
  const Unlimited: int := -1

  /** The `Uses` a new discount starts with. */
  const DefaultUses: int := 1

  /** The join row that links reservation `r` to a discount. */
  function RefOf(r: Reservation): ReservationRef
  {
    ReservationRef(r.id, r.email)
  }

  /** A discount as it is created, before an administrator edits it: the
      database defaults (fixed price, whole cart, amount zero, one use, no
      dates, no restrictions) with the given code. Code generation itself
      is not part of this model. */
  function NewDiscount(code: string): (d: Discount)
    ensures d.code == code && d.uses == DefaultUses && |d.reservations| == 0
    ensures ValidateUses(d)
    ensures forall now :: ValidateDate(d, now)
    ensures forall r: Reservation :: ValidateEvents(d, r.event) && ValidateOncePerEmail(d, r) && ValidateTicketType(d, r)
    ensures forall m :: ValidateGroups(d, m)
  {
    Discount(code, Price, Cart, 0.0, DefaultUses, None, None, false, {}, {}, {}, [])
  }

  // ---------------------------------------------------------------------
  // Price adjustment

  /** The effect of `updateTotal`: the adjusted running total and the
      amount recorded on the join as the applied discount. */
  datatype Adjustment = Adjustment(total: real, applied: real)

  /** `updateTotal`. A percentage takes `amount` percent of the running
      total and is never floored; a fixed price takes `amount` once per
      cart or once per attendee and floors the total at zero, while the
      applied amount keeps its unfloored value. */
  function UpdateTotal(d: Discount, total: real, attendeeCount: nat): (a: Adjustment)
    ensures d.discountType == Percentage ==>
              a.applied * 100.0 == total * d.amount && a.total + a.applied == total
    ensures d.discountType == Price && d.appliesTo == EachTicket ==>
              a.applied == d.amount * attendeeCount as real
    ensures d.discountType == Price && d.appliesTo == Cart ==> a.applied == d.amount
    ensures d.discountType == Price ==>
              a.total >= 0.0 && a.total >= total - a.applied
              && (a.total == total - a.applied || a.total == 0.0)
  {
    match d.discountType
    case Percentage =>
      var discount := total / 100.0 * d.amount;
      Adjustment(total - discount, discount)
    case Price =>
      var discount := if d.appliesTo == EachTicket then d.amount * attendeeCount as real else d.amount;
      var reduced := total - discount;
      Adjustment(if reduced > 0.0 then reduced else 0.0, discount)
  }

  /** A non-negative percentage of at most 100 keeps a positive total
      between zero and its old value; above 100 the total turns negative. */
  lemma {:induction false} PercentageBounds(d: Discount, total: real, attendeeCount: nat)
    requires d.discountType == Percentage && total > 0.0 && d.amount >= 0.0
    ensures d.amount <= 100.0 ==> 0.0 <= UpdateTotal(d, total, attendeeCount).total <= total
    ensures d.amount > 100.0 ==> UpdateTotal(d, total, attendeeCount).total < 0.0
  {
    var a := UpdateTotal(d, total, attendeeCount);
    assert a.total * 100.0 == total * (100.0 - d.amount);
  }

  /** A fixed price never pushes the total below zero, and with a
      non-negative amount it never raises it. */
  lemma {:induction false} PriceNeverNegative(d: Discount, total: real, attendeeCount: nat)
    requires d.discountType == Price && d.amount >= 0.0 && total >= 0.0
    ensures 0.0 <= UpdateTotal(d, total, attendeeCount).total <= total
  {
  }

  /** Worked figures for `updateTotal`, one per branch and floor case. */
  lemma {:induction false} UpdateTotalExamples(d: Discount)
    ensures var p := d.(discountType := Percentage, amount := 10.0);
            UpdateTotal(p, 100.0, 0) == Adjustment(90.0, 10.0)
    ensures var p := d.(discountType := Percentage, amount := 150.0);
            UpdateTotal(p, 100.0, 0) == Adjustment(-50.0, 150.0)
    ensures var e := d.(discountType := Price, appliesTo := EachTicket, amount := 5.0);
            UpdateTotal(e, 50.0, 3) == Adjustment(35.0, 15.0)
    ensures var c := d.(discountType := Price, appliesTo := Cart, amount := 1000.0);
            UpdateTotal(c, 10.0, 3) == Adjustment(0.0, 1000.0)
  {
  }

  // ---------------------------------------------------------------------
  // Rule predicates

  /** `validateUses`: the cap is off at `Uses == -1`; otherwise the number
      of reservations already linked may not exceed `Uses`. */
  predicate ValidateUses(d: Discount)
    ensures ValidateUses(d) <==> d.uses == Unlimited || (0 <= d.uses && |d.reservations| <= d.uses)
  {
    if d.uses == Unlimited then true
    else |d.reservations| <= d.uses
  }

  /** `InPast` of a stored Datetime, against the injected clock. */
  predicate InPast(t: Time, now: Time) { t < now }

  /** `InFuture` of a stored Datetime, against the injected clock. */
  predicate InFuture(t: Time, now: Time) { now < t }

  /** `validateDate`, as the code runs it: the `ValidFrom` verdict is
      overwritten by the `ValidTill` verdict whenever `ValidTill` is set. */
  predicate ValidateDate(d: Discount, now: Time)
    ensures InWindow(d, now) ==> ValidateDate(d, now)
    ensures d.validTill.None? ==> (ValidateDate(d, now) <==> InWindow(d, now))
  {
    var valid := if d.validFrom.Some? then InPast(d.validFrom.value, now) else true;
    if d.validTill.Some? then InFuture(d.validTill.value, now) else valid
  }

  /** The redemption window as the method's own comment describes it:
      after `ValidFrom` when set and before `ValidTill` when set. */
  predicate InWindow(d: Discount, now: Time)
  {
    && (d.validFrom.None? || InPast(d.validFrom.value, now))
    && (d.validTill.None? || InFuture(d.validTill.value, now))
  }

  /** `validateDate` accepts everything the documented window accepts, and
      differs from it exactly when `ValidTill` is still ahead while
      `ValidFrom` is set and not yet past. */
  lemma {:induction false} DateVersusWindow(d: Discount, now: Time)
    ensures InWindow(d, now) ==> ValidateDate(d, now)
    ensures ValidateDate(d, now) && !InWindow(d, now) <==>
              d.validTill.Some? && now < d.validTill.value
              && d.validFrom.Some? && now <= d.validFrom.value
  {
  }

  /** The boundary cases of the date check: no dates always pass; a
      `ValidFrom` equal to now fails, one second earlier passes; a future
      `ValidFrom` is ignored once `ValidTill` is set. */
  lemma {:induction false} DateExamples(d: Discount, now: Time)
    ensures ValidateDate(d.(validFrom := None, validTill := None), now)
    ensures !ValidateDate(d.(validFrom := Some(now), validTill := None), now)
    ensures ValidateDate(d.(validFrom := Some(now - 1), validTill := None), now)
    ensures ValidateDate(d.(validFrom := Some(now + 10), validTill := Some(now + 20)), now)
    ensures !ValidateDate(d.(validFrom := Some(now - 10), validTill := Some(now)), now)
  {
  }

  /** `validateEvents`: with no ticket pages configured every reservation
      passes; otherwise its ticket page must be present and listed. */
  predicate ValidateEvents(d: Discount, event: Option<EventId>)
    ensures !ValidateEvents(d, event) <==> |d.events| > 0 && (event.None? || event.value !in d.events)
  {
    if |d.events| == 0 then true
    else if event.None? then false
    else event.value in d.events
  }

  /** Whether reservation `id` is already linked to `d`. */
  predicate Linked(d: Discount, id: ReservationId)
  {
    exists j :: 0 <= j < |d.reservations| && d.reservations[j].id == id
  }

  /** Whether some reservation already linked to `d` carries `email`. */
  predicate EmailUsed(d: Discount, email: string)
  {
    exists j :: 0 <= j < |d.reservations| && d.reservations[j].email == email
  }

  /** `validateOncePerEmail`: with the flag on, the reservation's email may
      not appear among the reservations already linked to the discount. */
  predicate ValidateOncePerEmail(d: Discount, r: Reservation)
    ensures ValidateOncePerEmail(d, r) <==> !d.oncePerEmail || !EmailUsed(d, r.email)
  {
    if !d.oncePerEmail then true
    else
      var sameEmail := Filter(d.reservations, (x: ReservationRef) => x.email == r.email);
      FilterExists(d.reservations, (x: ReservationRef) => x.email == r.email);
      |sameEmail| == 0
  }

  /** `validateTicketType`: with ticket types configured, at least one order
      item's buyable class must be among them. */
  predicate ValidateTicketType(d: Discount, r: Reservation)
    ensures ValidateTicketType(d, r) <==>
              |d.ticketTypes| == 0
              || exists i :: 0 <= i < |r.orderItemClasses| && r.orderItemClasses[i] in d.ticketTypes
  {
    if |d.ticketTypes| == 0 then true
    else
      var allowed := Filter(r.orderItemClasses, (c: string) => c in d.ticketTypes);
      FilterExists(r.orderItemClasses, (c: string) => c in d.ticketTypes);
      |allowed| > 0
  }

  /** `validateGroups`: with groups configured, a member must be given and
      must belong to at least one of them. */
  predicate ValidateGroups(d: Discount, member: Option<Member>)
    ensures ValidateGroups(d, member) <==>
              |d.groups| == 0
              || (member.Some? && exists g :: g in member.value.groups && g in d.groups)
  {
    if |d.groups| == 0 then true
    else if member.None? then false
    else
      SharedGroups(member.value.groups, d.groups);
      member.value.groups * d.groups != {}
  }

  /** Two group sets intersect exactly when they share a group. */
  lemma {:induction false} SharedGroups(a: set<GroupId>, b: set<GroupId>)
    ensures a * b != {} <==> exists g :: g in a && g in b
  {
    if !exists g :: g in a && g in b {
      assert a * b == {};
    }
    if g :| g in a && g in b {
      assert g in a * b;
    }
  }

  /** Widening a whitelist that is already in force never turns a passing
      event, member or order into a failing one; only the step from "no
      restriction" to a non-empty whitelist can. */
  lemma {:induction false} WideningWhitelists(d: Discount, r: Reservation, member: Option<Member>,
                           events: set<EventId>, groups: set<GroupId>, types: set<string>)
    ensures |d.events| > 0 && ValidateEvents(d, r.event) ==>
              ValidateEvents(d.(events := d.events + events), r.event)
    ensures |d.groups| > 0 && ValidateGroups(d, member) ==>
              ValidateGroups(d.(groups := d.groups + groups), member)
    ensures |d.ticketTypes| > 0 && ValidateTicketType(d, r) ==>
              ValidateTicketType(d.(ticketTypes := d.ticketTypes + types), r)
  {
  }
}
