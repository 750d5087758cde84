/** The coupon field's validation: look the entered code up, run the
    discount's rule checks in a fixed order, report the first failure, and
    only when every check passes link the discount to the reservation and
    compute the price adjustment.

    The discount table is a sequence of discounts; a redemption is a pure
    transition from one table to the next, so that repeated redemptions can
    be reasoned about. */
module DiscountField {
  import opened Wrappers
  import opened Discounts

  /** The error a rejected code is reported with, one per failing check. */
  datatype ErrorKind =
    | NotFound
    | Used
    | Expired
    | EventNotAllowed
    | AlreadyUsedByEmail
    | TicketTypeNotAllowed
    | MemberNotAllowed

  /** The position of each check in the pipeline. */
  function Rank(k: ErrorKind): nat
  {
    match k
    case NotFound => 0
    case Used => 1
    case Expired => 2
    case EventNotAllowed => 3
    case AlreadyUsedByEmail => 4
    case TicketTypeNotAllowed => 5
    case MemberNotAllowed => 6
  }

  /** Whether the table holds no two discounts with the same code: the
      unique index on `Code`. */
  ghost predicate UniqueCodes(store: seq<Discount>)
  {
    forall j, k :: 0 <= j < k < |store| ==> store[j].code != store[k].code
  }

  /** The discount whose code equals `code` exactly; when several did,
      the first in table order. */
  function Lookup(store: seq<Discount>, code: string): (found: Option<nat>)
    ensures found.Some? ==>
              found.value < |store| && store[found.value].code == code
              && forall j :: 0 <= j < found.value ==> store[j].code != code
    ensures found.None? <==> forall j :: 0 <= j < |store| ==> store[j].code != code
  {
    if |store| == 0 then None
    else if store[0].code == code then Some(0)
    else match Lookup(store[1..], code)
      case None => None
      case Some(i) => Some(i + 1)
  }

  /** Under the unique index, a discount's own code finds that discount. */
  lemma {:induction false} LookupUnique(store: seq<Discount>, i: nat)
    requires UniqueCodes(store) && i < |store|
    ensures Lookup(store, store[i].code) == Some(i)
  {
  }

  /** The group check of the pipeline: passes when the discount has no
      groups, otherwise when some attendee's linked member qualifies. */
  predicate AttendeesAllowed(d: Discount, r: Reservation)
  {
    ValidateGroups(d, None)
    || exists i :: 0 <= i < |r.attendees| && ValidateGroups(d, r.attendees[i])
  }

  /** The attendee loop of the group check as the field runs it: start from
      the member-less verdict; if that fails, walk the attendees and stop at
      the first linked member that belongs to an allowed group. */
  method CheckAttendeeGroups(d: Discount, r: Reservation) returns (checkMember: bool)
    ensures checkMember == AttendeesAllowed(d, r)
    ensures checkMember <==>
              |d.groups| == 0
              || exists i :: 0 <= i < |r.attendees| && r.attendees[i].Some?
                               && exists g :: g in r.attendees[i].value.groups && g in d.groups
  {
    checkMember := ValidateGroups(d, None);
    if !checkMember {
      var k := 0;
      while k < |r.attendees|
        invariant 0 <= k <= |r.attendees|
        invariant !checkMember
        invariant forall j :: 0 <= j < k ==> !ValidateGroups(d, r.attendees[j])
      {
        var attendee := r.attendees[k];
        if attendee.Some? {
          checkMember := ValidateGroups(d, attendee);
          if checkMember {
            break;
          } else {
            checkMember := false;
          }
        }
        k := k + 1;
      }
    }
  }

  /** Whether the check reported as `k` rejects discount `d` for reservation
      `r` at time `now`. The lookup has already found `d`, so `NotFound`
      rejects nothing here. */
  predicate Fails(k: ErrorKind, d: Discount, r: Reservation, now: Time)
  {
    match k
    case NotFound => false
    case Used => !ValidateUses(d)
    case Expired => !ValidateDate(d, now)
    case EventNotAllowed => !ValidateEvents(d, r.event)
    case AlreadyUsedByEmail => !ValidateOncePerEmail(d, r)
    case TicketTypeNotAllowed => !ValidateTicketType(d, r)
    case MemberNotAllowed => !AttendeesAllowed(d, r)
  }

  /** The checks of the field, in order, for a non-blank code. Success
      carries the position of the discount in the table. */
  function Validate(store: seq<Discount>, code: string, r: Reservation, now: Time): (res: Result<nat, ErrorKind>)
    ensures res == Failure(NotFound) <==> forall j :: 0 <= j < |store| ==> store[j].code != code
    ensures res.Success? ==>
              Lookup(store, code) == Some(res.value)
              && forall k :: !Fails(k, store[res.value], r, now)
    ensures res.Failure? && res.error != NotFound ==>
              Lookup(store, code).Some?
              && var d := store[Lookup(store, code).value];
              Fails(res.error, d, r, now)
              && forall k :: Rank(k) < Rank(res.error) ==> !Fails(k, d, r, now)
  {
    match Lookup(store, code)
    case None => Failure(NotFound)
    case Some(i) =>
      var d := store[i];
      if !ValidateUses(d) then Failure(Used)
      else if !ValidateDate(d, now) then Failure(Expired)
      else if !ValidateEvents(d, r.event) then Failure(EventNotAllowed)
      else if !ValidateOncePerEmail(d, r) then Failure(AlreadyUsedByEmail)
      else if !ValidateTicketType(d, r) then Failure(TicketTypeNotAllowed)
      else if !AttendeesAllowed(d, r) then Failure(MemberNotAllowed)
      else Success(i)
  }

  // ---------------------------------------------------------------------
  // Redemption

  /** One submission of the coupon field: the entered value (absent when the
      field was not filled in), the reservation in the session, the clock,
      and the running total the discount is applied to. */
  datatype Request = Request(value: Option<string>, reservation: Reservation, now: Time, subtotal: real)

  /** What a submission did. */
  datatype Outcome =
    | Skipped
    | Rejected(error: ErrorKind)
    | Redeemed(index: nat, adjustment: Adjustment)

  /** The table and reservation after a submission, and its outcome. */
  datatype Step = Step(store: seq<Discount>, reservation: Reservation, outcome: Outcome)

  /** PHP's `!isset($v) || empty($v)` on the field value: null, the empty
      string and the string "0" all count as no code entered. */
  predicate IsBlank(value: Option<string>)
  {
    value.None? || value.value == "" || value.value == "0"
  }

  /** The discount side of `PriceModifiers()->add`. The many-many join
      keeps one row per reservation: a reservation that is already linked
      keeps its single row, which now reads that reservation's current
      email; any other reservation gains a row at the end. Nothing else
      about the discount changes. */
  function Link(d: Discount, r: Reservation): (d': Discount)
    ensures d'.(reservations := d.reservations) == d
    ensures RefOf(r) in d'.reservations
    ensures Linked(d, r.id) ==> |d'.reservations| == |d.reservations|
    ensures !Linked(d, r.id) ==> d'.reservations == d.reservations + [RefOf(r)]
    ensures forall id :: Linked(d', id) <==> Linked(d, id) || id == r.id
    ensures forall ref :: ref in d.reservations && ref.id != r.id ==> ref in d'.reservations
  {
    if Linked(d, r.id) then
      var j :| 0 <= j < |d.reservations| && d.reservations[j].id == r.id;
      var rows := seq(|d.reservations|, k requires 0 <= k < |d.reservations| =>
                    if d.reservations[k].id == r.id then RefOf(r) else d.reservations[k]);
      assert rows[j] == RefOf(r);
      assert forall k :: 0 <= k < |rows| ==> rows[k].id == d.reservations[k].id;
      d.(reservations := rows)
    else
      var rows := d.reservations + [RefOf(r)];
      assert rows[|d.reservations|].id == r.id;
      assert forall k :: 0 <= k < |d.reservations| ==> rows[k] == d.reservations[k];
      d.(reservations := rows)
  }

  /** Re-linking the only reservation of a discount, under the same email,
      leaves the discount as it was. */
  lemma {:induction false} RelinkSingleRow(d: Discount, r: Reservation)
    requires d.reservations == [RefOf(r)]
    ensures Link(d, r) == d
  {
    assert d.reservations[0].id == r.id;
    assert Linked(d, r.id);
    assert Link(d, r).reservations == [RefOf(r)];
  }

  /** The reservation side of `PriceModifiers()->add`: the discount's code
      joins the price modifiers unless it is already among them. */
  function AddModifier(r: Reservation, code: string): (r': Reservation)
    ensures r'.(priceModifiers := r.priceModifiers) == r
    ensures code in r'.priceModifiers
    ensures r.priceModifiers <= r'.priceModifiers && |r'.priceModifiers| <= |r.priceModifiers| + 1
    ensures forall c :: c in r'.priceModifiers <==> c in r.priceModifiers || c == code
  {
    if code in r.priceModifiers then r
    else r.(priceModifiers := r.priceModifiers + [code])
  }

  /** `DiscountField::validate` with its writes: a blank value is skipped,
      a failing check is reported without touching the table or the
      reservation, and a passing code is linked to the reservation, added to
      its price modifiers, and applied to the running total. */
  function Submit(store: seq<Discount>, req: Request): (s: Step)
    ensures |s.store| == |store|
    ensures !s.outcome.Redeemed? ==> s.store == store && s.reservation == req.reservation
    ensures IsBlank(req.value) <==> s.outcome == Skipped
    ensures s.outcome.Rejected? ==>
              Validate(store, req.value.value, req.reservation, req.now) == Failure(s.outcome.error)
    ensures s.outcome.Redeemed? ==>
              var i := s.outcome.index;
              && !IsBlank(req.value)
              && Validate(store, req.value.value, req.reservation, req.now) == Success(i)
              && s.store == store[i := Link(store[i], req.reservation)]
              && s.reservation == AddModifier(req.reservation, store[i].code)
              && s.outcome.adjustment == UpdateTotal(store[i], req.subtotal, |req.reservation.attendees|)
  {
    if IsBlank(req.value) then Step(store, req.reservation, Skipped)
    else
      match Validate(store, req.value.value, req.reservation, req.now)
      case Failure(e) => Step(store, req.reservation, Rejected(e))
      case Success(i) =>
        var r := req.reservation;
        Step(store[i := Link(store[i], r)],
             AddModifier(r, store[i].code),
             Redeemed(i, UpdateTotal(store[i], req.subtotal, |r.attendees|)))
  }

  /** A blank value changes nothing; a code no discount carries is
      `NotFound` and changes nothing either. */
  lemma {:induction false} BlankAndUnknownCodes(store: seq<Discount>, req: Request)
    ensures IsBlank(req.value) ==>
              Submit(store, req) == Step(store, req.reservation, Skipped)
    ensures !IsBlank(req.value) && (forall j :: 0 <= j < |store| ==> store[j].code != req.value.value) ==>
              Submit(store, req) == Step(store, req.reservation, Rejected(NotFound))
  {
  }

  /** Submissions one after another, each seeing the table the previous one
      left behind. Returns the final table and every outcome in order. */
  function SubmitAll(store: seq<Discount>, reqs: seq<Request>): (res: (seq<Discount>, seq<Outcome>))
    ensures |res.0| == |store| && |res.1| == |reqs|
    decreases |reqs|
  {
    if |reqs| == 0 then (store, [])
    else
      var s := Submit(store, reqs[0]);
      var rest := SubmitAll(s.store, reqs[1..]);
      (rest.0, [s.outcome] + rest.1)
  }

  /** The number of outcomes that redeemed the discount at position `i`. */
  function RedeemedAt(outcomes: seq<Outcome>, i: nat): (n: nat)
    ensures n <= |outcomes|
  {
    if |outcomes| == 0 then 0
    else (if outcomes[0].Redeemed? && outcomes[0].index == i then 1 else 0) + RedeemedAt(outcomes[1..], i)
  }

  /** Submissions leave a discount's configuration alone, never unlink a
      reservation, and add at most one row per redemption of it. */
  lemma {:induction false} SubmitAllGrowsLinks(store: seq<Discount>, reqs: seq<Request>, i: nat)
    requires i < |store|
    ensures var (final, outcomes) := SubmitAll(store, reqs);
            && final[i].(reservations := store[i].reservations) == store[i]
            && |store[i].reservations| <= |final[i].reservations|
            && |final[i].reservations| <= |store[i].reservations| + RedeemedAt(outcomes, i)
            && forall id :: Linked(store[i], id) ==> Linked(final[i], id)
    decreases |reqs|
  {
    if |reqs| > 0 {
      var s := Submit(store, reqs[0]);
      SubmitAllGrowsLinks(s.store, reqs[1..], i);
      var rest := SubmitAll(s.store, reqs[1..]);
      var outcomes := [s.outcome] + rest.1;
      assert outcomes[1..] == rest.1;
    }
  }

  /** Whether every submission comes from a reservation of its own that is
      not yet linked to `d`. */
  ghost predicate FreshReservations(d: Discount, reqs: seq<Request>)
  {
    && (forall k :: 0 <= k < |reqs| ==> !Linked(d, reqs[k].reservation.id))
    && (forall k, l :: 0 <= k < l < |reqs| ==> reqs[k].reservation.id != reqs[l].reservation.id)
  }

  /** When every submission comes from a reservation not yet linked, each
      redemption adds exactly one row. */
  lemma {:induction false} FreshRedemptionsAddRows(store: seq<Discount>, reqs: seq<Request>, i: nat)
    requires i < |store| && FreshReservations(store[i], reqs)
    ensures var (final, outcomes) := SubmitAll(store, reqs);
            |final[i].reservations| == |store[i].reservations| + RedeemedAt(outcomes, i)
    decreases |reqs|
  {
    if |reqs| > 0 {
      var s := Submit(store, reqs[0]);
      forall k | 0 <= k < |reqs[1..]|
        ensures !Linked(s.store[i], reqs[1..][k].reservation.id)
      {
        assert reqs[1..][k] == reqs[k + 1];
        assert reqs[0].reservation.id != reqs[k + 1].reservation.id;
      }
      FreshRedemptionsAddRows(s.store, reqs[1..], i);
      var rest := SubmitAll(s.store, reqs[1..]);
      var outcomes := [s.outcome] + rest.1;
      assert outcomes[1..] == rest.1;
    }
  }

  /** A redemption at position `i` passed the usage check, so the linked
      count before it was at most `Uses`. */
  lemma {:induction false} RedeemedPassedUses(store: seq<Discount>, req: Request)
    requires Submit(store, req).outcome.Redeemed?
    ensures var i := Submit(store, req).outcome.index;
            i < |store| && ValidateUses(store[i])
  {
  }

  /** The usage bound. With `Uses == N >= 0` the number of linked
      reservations never climbs past `N + 1`: the check admits a redemption
      while the count is at most `N`, so `N + 1` reservations in all can
      be linked, one more than the cap suggests. */
  lemma {:induction false} UsageBound(store: seq<Discount>, reqs: seq<Request>, i: nat)
    requires i < |store| && store[i].uses >= 0
    ensures var (final, outcomes) := SubmitAll(store, reqs);
            |final[i].reservations| <= Max(|store[i].reservations|, store[i].uses + 1)
    decreases |reqs|
  {
    if |reqs| > 0 {
      var s := Submit(store, reqs[0]);
      if s.outcome.Redeemed? && s.outcome.index == i {
        RedeemedPassedUses(store, reqs[0]);
      }
      assert s.store[i].uses == store[i].uses;
      assert |s.store[i].reservations| <= Max(|store[i].reservations|, store[i].uses + 1);
      UsageBound(s.store, reqs[1..], i);
    }
  }

  /** The larger of two integers. */
  function Max(a: int, b: int): (m: int)
    ensures m >= a && m >= b && (m == a || m == b)
  {
    if a >= b then a else b
  }

  /** Counting the redemptions themselves: starting from `k <= N + 1`
      linked reservations, at most `N + 1 - k` submissions from reservations
      not yet linked redeem a discount with `Uses == N`. A reservation that
      is already linked adds no row, so it is not counted by the cap. */
  lemma {:induction false} RedemptionCountBound(store: seq<Discount>, reqs: seq<Request>, i: nat)
    requires i < |store| && store[i].uses >= 0
    requires |store[i].reservations| <= store[i].uses + 1
    requires FreshReservations(store[i], reqs)
    ensures RedeemedAt(SubmitAll(store, reqs).1, i) <= store[i].uses + 1 - |store[i].reservations|
  {
    FreshRedemptionsAddRows(store, reqs, i);
    UsageBound(store, reqs, i);
  }

  /** With `Uses == -1` on the discount the code finds, the usage check
      never rejects. */
  lemma {:induction false} UnlimitedNeverUsed(store: seq<Discount>, code: string, r: Reservation, now: Time)
    requires Lookup(store, code).Some? ==> store[Lookup(store, code).value].uses == Unlimited
    ensures Validate(store, code, r, now) != Failure(Used)
  {
  }

  /** One submission followed by the rest: `SubmitAll` unrolled once. */
  lemma {:induction false} SubmitAllCons(store: seq<Discount>, q: Request, rest: seq<Request>)
    ensures var s := Submit(store, q);
            var tail := SubmitAll(s.store, rest);
            SubmitAll(store, [q] + rest) == (tail.0, [s.outcome] + tail.1)
  {
  }

  /** A new discount, whether or not it has since been linked to one
      reservation, passes every check for any reservation `r`. */
  lemma {:induction false} NewDiscountPasses(code: string, linked: Reservation, r: Reservation, now: Time)
    ensures Validate([NewDiscount(code)], code, r, now) == Success(0)
    ensures Validate([Link(NewDiscount(code), linked)], code, r, now) == Success(0)
  {
    var d := NewDiscount(code);
    var d1 := Link(d, linked);
    assert d1.reservations == [RefOf(linked)];
    assert ValidateUses(d1) && ValidateDate(d1, now) && ValidateEvents(d1, r.event);
    assert ValidateOncePerEmail(d1, r) && ValidateTicketType(d1, r) && AttendeesAllowed(d1, r);
  }

  /** A new discount with two different reservations linked is used up:
      the next submission of its code is rejected as `Used`. */
  lemma {:induction false} TwoLinksUseUp(code: string, r1: Reservation, r2: Reservation, q: Request)
    requires q.value == Some(code) && !IsBlank(q.value) && r1.id != r2.id
    ensures var d2 := Link(Link(NewDiscount(code), r1), r2);
            |d2.reservations| == 2 && Submit([d2], q) == Step([d2], q.reservation, Rejected(Used))
  {
    var d1 := Link(NewDiscount(code), r1);
    assert !Linked(d1, r2.id) by {
      assert d1.reservations == [RefOf(r1)];
    }
    var d2 := Link(d1, r2);
  }

  /** The off-by-one made concrete: a new discount (`Uses == 1`) is redeemed
      by two different reservations in a row, and a third submission is
      `Used`. */
  lemma {:induction false} DefaultDiscountRedeemsTwice(code: string, r1: Reservation, r2: Reservation, r3: Reservation,
                                    now: Time, subtotal: real)
    requires !IsBlank(Some(code)) && r1.id != r2.id
    ensures var reqs := [Request(Some(code), r1, now, subtotal), Request(Some(code), r2, now, subtotal),
                         Request(Some(code), r3, now, subtotal)];
            var (_, outcomes) := SubmitAll([NewDiscount(code)], reqs);
            outcomes[0].Redeemed? && outcomes[1].Redeemed? && outcomes[2] == Rejected(Used)
  {
    var q1, q2, q3 := Request(Some(code), r1, now, subtotal), Request(Some(code), r2, now, subtotal),
                      Request(Some(code), r3, now, subtotal);
    var d := NewDiscount(code);
    var d1 := Link(d, r1);
    var d2 := Link(d1, r2);
    NewDiscountPasses(code, r1, r1, now);
    NewDiscountPasses(code, r1, r2, now);
    assert Submit([d], q1).store == [d1] && Submit([d], q1).outcome.Redeemed?;
    TwoLinksUseUp(code, r1, r2, q3);
    assert SubmitAll([d2], []) == ([d2], []);
    SubmitAllCons([d2], q3, []);
    assert [q3] + [] == [q3];
    SubmitAllCons([d1], q2, [q3]);
    assert [q2] + [q3] == [q2, q3];
    SubmitAllCons([d], q1, [q2, q3]);
    assert [q1] + [q2, q3] == [q1, q2, q3];
  }

  /** A new discount that has been linked to `r` once is redeemed again by
      the same reservation, and the table is left exactly as it was. */
  lemma {:induction false} ResubmitLinked(code: string, r: Reservation, now: Time, subtotal: real)
    requires !IsBlank(Some(code))
    ensures var d1 := Link(NewDiscount(code), r);
            var s := Submit([d1], Request(Some(code), r, now, subtotal));
            s.outcome.Redeemed? && s.store == [d1]
  {
    var d1 := Link(NewDiscount(code), r);
    assert d1.reservations == [RefOf(r)];
    NewDiscountPasses(code, r, r, now);
    RelinkSingleRow(d1, r);
    assert [d1][0 := Link(d1, r)] == [d1];
  }

  /** The cap counts reservations, not submissions: a new discount
      (`Uses == 1`) submitted three times for the same reservation is
      redeemed every time and keeps a single linked row. */
  lemma {:induction false} SameReservationRedeemsAgain(code: string, r: Reservation, now: Time, subtotal: real)
    requires !IsBlank(Some(code))
    ensures var q := Request(Some(code), r, now, subtotal);
            var (final, outcomes) := SubmitAll([NewDiscount(code)], [q, q, q]);
            && outcomes[0].Redeemed? && outcomes[1].Redeemed? && outcomes[2].Redeemed?
            && |final[0].reservations| == 1
  {
    var q := Request(Some(code), r, now, subtotal);
    var d1 := Link(NewDiscount(code), r);
    NewDiscountPasses(code, r, r, now);
    var s1 := Submit([NewDiscount(code)], q);
    assert s1.store == [d1] && s1.outcome.Redeemed?;
    assert d1.reservations == [RefOf(r)];
    ResubmitLinked(code, r, now, subtotal);
    var s2 := Submit([d1], q);
    SubmitAllCons([d1], q, []);
    assert [q] + [] == [q];
    SubmitAllCons([d1], q, [q]);
    assert [q] + [q] == [q, q];
    SubmitAllCons([NewDiscount(code)], q, [q, q]);
    assert [q] + [q, q] == [q, q, q];
  }

  // ---------------------------------------------------------------------
  // Once per email

  /** A redemption leaves the discount with a row for the redeeming
      reservation under its current email. */
  lemma {:induction false} RedeemRecordsEmail(store: seq<Discount>, req: Request)
    requires Submit(store, req).outcome.Redeemed?
    ensures var s := Submit(store, req);
            RefOf(req.reservation) in s.store[s.outcome.index].reservations
            && EmailUsed(s.store[s.outcome.index], req.reservation.email)
  {
  }

  /** Later submissions keep a linked row, as long as none of them comes
      from that row's reservation under another email, whatever its
      outcome; they also keep the flag and the code of the discount, and
      keep the codes of the table unique. */
  lemma {:induction false} SubmitAllKeepsEmail(store: seq<Discount>, reqs: seq<Request>, i: nat, ref: ReservationRef)
    requires i < |store| && ref in store[i].reservations
    requires forall k :: 0 <= k < |reqs| && reqs[k].reservation.id == ref.id ==> reqs[k].reservation.email == ref.email
    ensures var final := SubmitAll(store, reqs).0;
            && ref in final[i].reservations
            && EmailUsed(final[i], ref.email)
            && final[i].code == store[i].code
            && final[i].oncePerEmail == store[i].oncePerEmail
            && (UniqueCodes(store) ==> UniqueCodes(final))
    decreases |reqs|
  {
    SubmitAllGrowsLinks(store, reqs, i);
    var final := SubmitAll(store, reqs).0;
    if |reqs| > 0 {
      var s := Submit(store, reqs[0]);
      assert ref in s.store[i].reservations by {
        if s.outcome.Redeemed? && s.outcome.index == i && reqs[0].reservation.id == ref.id {
          assert RefOf(reqs[0].reservation) == ref;
        }
      }
      assert forall k :: 0 <= k < |reqs[1..]| ==> reqs[1..][k] == reqs[k + 1];
      SubmitAllKeepsEmail(s.store, reqs[1..], i, ref);
    }
    if UniqueCodes(store) {
      forall a, b | 0 <= a < b < |final|
        ensures final[a].code != final[b].code
      {
        SubmitAllGrowsLinks(store, reqs, a);
        SubmitAllGrowsLinks(store, reqs, b);
      }
    }
  }

  /** A once-per-email discount that already carries email `E` cannot be
      redeemed again for a reservation with email `E`: the pipeline stops
      at or before the email check. */
  lemma {:induction false} OncePerEmailRejects(store: seq<Discount>, i: nat, req: Request)
    requires UniqueCodes(store) && i < |store|
    requires store[i].oncePerEmail && EmailUsed(store[i], req.reservation.email)
    requires req.value == Some(store[i].code) && !IsBlank(req.value)
    ensures Submit(store, req).outcome.Rejected?
    ensures Submit(store, req).outcome.error in {Used, Expired, EventNotAllowed, AlreadyUsedByEmail}
  {
  }

  /** After a reservation with email `E` redeems a once-per-email discount,
      no later submission of that discount's code for email `E` succeeds,
      whatever submissions happened in between, provided no submission in
      between came from the first reservation under another email. */
  lemma {:induction false} OncePerEmailSticks(store: seq<Discount>, first: Request, between: seq<Request>, later: Request)
    requires UniqueCodes(store)
    requires Submit(store, first).outcome.Redeemed?
    requires store[Submit(store, first).outcome.index].oncePerEmail
    requires forall k :: 0 <= k < |between| && between[k].reservation.id == first.reservation.id ==>
               between[k].reservation.email == first.reservation.email
    requires later.reservation.email == first.reservation.email
    requires later.value == first.value
    ensures var s := Submit(store, first);
            var final := SubmitAll(s.store, between).0;
            Submit(final, later).outcome.Rejected?
            && Submit(final, later).outcome.error in {Used, Expired, EventNotAllowed, AlreadyUsedByEmail}
  {
    var s := Submit(store, first);
    var i := s.outcome.index;
    RedeemRecordsEmail(store, first);
    SubmitAllKeepsEmail(s.store, between, i, RefOf(first.reservation));
    var final := SubmitAll(s.store, between).0;
    assert final[i].code == store[i].code;
    OncePerEmailRejects(final, i, later);
  }

  /** The same later submission with a different email is not stopped by
      the email check: on an otherwise identical table it gets past it. */
  lemma {:induction false} OtherEmailPassesEmailCheck(store: seq<Discount>, i: nat, req: Request)
    requires UniqueCodes(store) && i < |store|
    requires req.value == Some(store[i].code) && !IsBlank(req.value)
    requires !EmailUsed(store[i], req.reservation.email)
    ensures Submit(store, req).outcome != Rejected(AlreadyUsedByEmail)
  {
  }

  // ---------------------------------------------------------------------
  // The group check

  /** Without groups the check passes, even with no attendees or no linked
      members; with groups and no linked member at all it fails. */
  lemma {:induction false} GroupCheckCases(d: Discount, r: Reservation)
    ensures |d.groups| == 0 ==> AttendeesAllowed(d, r)
    ensures |d.groups| > 0 && (forall i :: 0 <= i < |r.attendees| ==> r.attendees[i].None?) ==>
              !AttendeesAllowed(d, r)
  {
  }
}
