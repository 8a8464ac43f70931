/** The simplified billing estimate: which seats are active in a billing
    cycle, the active count times a unit price, and the UTC calendar month
    used as a cycle. */
module Billing {
  import opened Results
  import opened Text
  import opened JsNumber
  import opened DateUtc
  import opened Types

  /** The price of a seat per month when nothing overrides it. */
  const FallbackUnitPrice: real := 19.0

  // ---------------------------------------------------------------------
  // Unit price

  /** `parseNumber`: an absent or empty value (both falsy) gives nothing;
      any other text gives `Number(s)` when that is finite. */
  function ParseEnvNumber(s: Option<string>): (r: Option<real>)
    ensures s == None || s == Some("") ==> r == None
    ensures s.Some? && s.value != "" ==> r == ParseNumber(s.value)
    ensures r.Some? ==> -InfinityThreshold < r.value < InfinityThreshold
  {
    match s
    case None => None
    case Some(t) => if t == "" then None else ParseNumber(t)
  }

  /** `defaultUnitPrice`, given the value of `COPILOT_PRICE_PER_MONTH`. */
  function DefaultUnitPrice(env: Option<string>): (p: real)
    ensures env.Some? && env.value != "" && ParseNumber(env.value).Some? ==> p == ParseNumber(env.value).value
    ensures !(env.Some? && env.value != "" && ParseNumber(env.value).Some?) ==> p == FallbackUnitPrice
    ensures -InfinityThreshold < p < InfinityThreshold
  {
    match ParseEnvNumber(env)
    case Some(n) => n
    case None => FallbackUnitPrice
  }

  /** An unset or empty setting falls back to 19 ... */
  lemma UnsetPrice(env: Option<string>)
    requires env == None || env == Some("")
    ensures DefaultUnitPrice(env) == FallbackUnitPrice
  {
  }

  /** ... and so does one that is not a number once trimmed. */
  lemma NonNumericPrice(s: string, k: nat)
    requires k < |Trim(s)| && !IsNumberChar(Trim(s)[k])
    ensures DefaultUnitPrice(Some(s)) == FallbackUnitPrice
  {
    NonNumericRejected(s, k);
  }

  /** A decimal setting is used as the price, negative ones included, as
      long as it is finite as a double ... */
  lemma OverridePrice(n: nat)
    requires (n as real) < InfinityThreshold
    ensures DefaultUnitPrice(Some(DecimalText(n))) == n as real
    ensures DefaultUnitPrice(Some("-" + DecimalText(n))) == -(n as real)
  {
    NaturalRoundTrip(n);
    NegativeRoundTrip(n);
  }

  /** ... and one too large for a double falls back to 19. */
  lemma HugePrice(n: nat)
    requires (n as real) >= InfinityThreshold
    ensures DefaultUnitPrice(Some(DecimalText(n))) == FallbackUnitPrice
    ensures DefaultUnitPrice(Some("-" + DecimalText(n))) == FallbackUnitPrice
  {
    HugeNaturalRejected(n);
  }

  /** A setting of blanks only is not empty, and `Number` reads it as 0: the
      price becomes 0, not 19. */
  lemma BlankSettingIsFree(s: string)
    requires s != [] && IsBlank(s)
    ensures DefaultUnitPrice(Some(s)) == 0.0
  {
    BlankIsZero(s);
  }

  // ---------------------------------------------------------------------
  // Active seats

  /** `isActiveInCycle`: assigned no later than the end of the cycle, and
      either not being cancelled or cancelled no earlier than its start. */
  function IsActiveInCycle(seat: UserSeat, range: DateRange): (active: bool)
    ensures active ==> seat.assignedAt <= range.end
    ensures !seat.pendingCancellationDate.Present() ==> (active <==> seat.assignedAt <= range.end)
    ensures seat.pendingCancellationDate.Present() && seat.pendingCancellationDate.at < range.start ==> !active
  {
    seat.assignedAt <= range.end
    && (!seat.pendingCancellationDate.Present() || seat.pendingCancellationDate.at >= range.start)
  }

  /** Instant `t` lies in the range. */
  predicate InRange(range: DateRange, t: int)
  {
    range.start <= t <= range.end
  }

  /** The seat is held at instant `t`: assigned by then and, when it is
      being cancelled, not yet cancelled. */
  predicate HeldAt(seat: UserSeat, t: int)
  {
    seat.assignedAt <= t
    && (seat.pendingCancellationDate.Present() ==> t <= seat.pendingCancellationDate.at)
  }

  /** A seat held over `[assigned, cancelled]` is active in a cycle exactly
      when it is held at some instant of the cycle. */
  lemma ActiveIffOverlap(seat: UserSeat, range: DateRange)
    requires range.start <= range.end
    requires seat.pendingCancellationDate.Present() ==> seat.assignedAt <= seat.pendingCancellationDate.at
    ensures IsActiveInCycle(seat, range) <==> exists t :: InRange(range, t) && HeldAt(seat, t)
  {
    if IsActiveInCycle(seat, range) {
      var a := seat.assignedAt;
      var t := if a <= range.start then range.start else a;
      assert InRange(range, t) && HeldAt(seat, t);
    }
  }

  /** Null and empty-string cancellation dates both mean "no cancellation". */
  lemma FalsyCancellation(seat: UserSeat, range: DateRange)
    requires seat.pendingCancellationDate == NullDate || seat.pendingCancellationDate == EmptyText
    ensures IsActiveInCycle(seat, range) <==> seat.assignedAt <= range.end
  {
  }

  /** `seats.filter((s) => isActiveInCycle(s, range))`. */
  function ActiveSeats(seats: seq<UserSeat>, range: DateRange): (r: seq<UserSeat>)
    ensures |r| <= |seats|
    ensures forall s :: s in r <==> s in seats && IsActiveInCycle(s, range)
  {
    if seats == [] then []
    else
      var last := seats[|seats| - 1];
      ActiveSeats(seats[..|seats| - 1], range) + if IsActiveInCycle(last, range) then [last] else []
  }

  /** The positions of the seats that are active. */
  function ActiveIndices(seats: seq<UserSeat>, range: DateRange): set<nat>
  {
    set i: nat | i < |seats| && IsActiveInCycle(seats[i], range)
  }

  /** The number of active seats counts the positions holding an active
      seat: a seat listed twice is counted twice. */
  lemma {:induction false} ActiveCount(seats: seq<UserSeat>, range: DateRange)
    ensures |ActiveSeats(seats, range)| == |ActiveIndices(seats, range)|
  {
    if seats != [] {
      var n := |seats| - 1;
      ActiveCount(seats[..n], range);
      ActiveIndicesStep(seats, range);
      assert n !in ActiveIndices(seats[..n], range);
    }
  }

  /** The last seat adds its own position, if active, to those before it. */
  lemma ActiveIndicesStep(seats: seq<UserSeat>, range: DateRange)
    requires seats != []
    ensures var n := |seats| - 1;
      ActiveIndices(seats, range)
        == ActiveIndices(seats[..n], range) + if IsActiveInCycle(seats[n], range) then {n} else {}
  {
    var n := |seats| - 1;
    var init := seats[..n];
    var added: set<nat> := if IsActiveInCycle(seats[n], range) then {n} else {};
    forall i: nat ensures i in ActiveIndices(seats, range) <==> i in ActiveIndices(init, range) + added {
      if i < n {
        assert init[i] == seats[i];
      }
    }
  }

  // ---------------------------------------------------------------------
  // The estimate

  /** The three fixed disclaimers: an estimate that may differ from the
      invoice; no pro-rating; no adjustment for joining or leaving mid-month. */
  const Disclaimers: seq<string> := [
    "概算値です。実際の請求額と差異が生じる可能性があります",
    "日割り計算は含まれていません",
    "月途中の加入・脱退による調整は反映されていません"
  ]

  /** The cost of `n` seats at `price` each. */
  function SeatsCost(n: nat, price: real): real
  {
    n as real * price
  }

  /** `estimateMonthlyCost(seats, range, unitPrice)`; an omitted price
      (`None`) is `defaultUnitPrice()` read from the setting `env`. */
  function EstimateMonthlyCost(seats: seq<UserSeat>, range: DateRange, unitPrice: Option<real>, env: Option<string>): (e: BillingEstimate)
    ensures e.activeUserCount == |ActiveIndices(seats, range)| <= |seats|
    ensures e.unitPrice == (if unitPrice.Some? then unitPrice.value else DefaultUnitPrice(env))
    ensures e.estimatedCost == SeatsCost(e.activeUserCount, e.unitPrice)
    ensures e.calculationMethod == "simplified" && e.confidence == "medium"
    ensures e.disclaimers == Disclaimers && |e.disclaimers| == 3
  {
    ActiveCount(seats, range);
    var price := match unitPrice case Some(p) => p case None => DefaultUnitPrice(env);
    var count := |ActiveSeats(seats, range)|;
    BillingEstimate(count, price, SeatsCost(count, price), "simplified", "medium", Disclaimers)
  }

  /** No active seat, no active position. */
  lemma NoActiveIndices(seats: seq<UserSeat>, range: DateRange)
    requires forall s :: s in seats ==> !IsActiveInCycle(s, range)
    ensures ActiveIndices(seats, range) == {}
  {
    forall i: nat | i < |seats| ensures !IsActiveInCycle(seats[i], range) {
      assert seats[i] in seats;
    }
  }

  /** With nobody active the estimate is free, whatever the price. */
  lemma NobodyActiveCostsNothing(seats: seq<UserSeat>, range: DateRange, unitPrice: Option<real>, env: Option<string>)
    requires forall s :: s in seats ==> !IsActiveInCycle(s, range)
    ensures EstimateMonthlyCost(seats, range, unitPrice, env).estimatedCost == 0.0
  {
    NoActiveIndices(seats, range);
  }

  /** More seats never cost less, and no seats cost nothing, at a
      non-negative price. */
  lemma SeatsCostMonotone(n: nat, m: nat, price: real)
    requires n <= m && price >= 0.0
    ensures 0.0 <= SeatsCost(n, price) <= SeatsCost(m, price)
    ensures SeatsCost(0, price) == 0.0
  {
    assert SeatsCost(m, price) - SeatsCost(n, price) == (m - n) as real * price;
  }

  /** A non-negative price gives a cost of at most one price per listed
      seat. */
  lemma CostBound(seats: seq<UserSeat>, range: DateRange, price: real, env: Option<string>)
    requires price >= 0.0
    ensures 0.0 <= EstimateMonthlyCost(seats, range, Some(price), env).estimatedCost <= SeatsCost(|seats|, price)
  {
    var e := EstimateMonthlyCost(seats, range, Some(price), env);
    SeatsCostMonotone(e.activeUserCount, |seats|, price);
  }

  // ---------------------------------------------------------------------
  // Calendar months

  /** `monthRangeUtc(year, month1to12)`: from `Date.UTC(year, month - 1, 1)`
      to `Date.UTC(year, month, 0, 23, 59, 59)`, i.e. day 0 of the next
      month. */
  function MonthRangeUtc(year: int, month1to12: int): (r: DateRange)
    ensures r.start == MakeDay(FullYear(year), month1to12 - 1, 1) * 86400000
    ensures r.end == MakeDay(FullYear(year), month1to12, 0) * 86400000 + 86399000
    ensures r.start < r.end
  {
    MonthStartBeforeEnd(FullYear(year), month1to12 - 1);
    DateRange(DateUtcOf(year, month1to12 - 1, 1, 0, 0, 0), DateUtcOf(year, month1to12, 0, 23, 59, 59))
  }

  /** The range ends at 23:59:59 of the last day of the month, the day
      numbered by the month's length: February 29th in leap years (and 28th
      otherwise) and, for month 12, December 31st, since day 0 of month 13
      rolls over into January of the next year and back. */
  lemma MonthRangeLastDay(year: int, month1to12: int)
    ensures var y := FullYear(year);
      MonthRangeUtc(year, month1to12).end
        == MakeDay(y, month1to12 - 1, MonthLength(y, month1to12 - 1)) * 86400000 + 86399000
  {
    LastDay(FullYear(year), month1to12 - 1);
  }

  /** The range is one second short of the month's 28 to 31 days long; in
      particular `start < end`. */
  lemma MonthRangeLength(year: int, month1to12: int)
    ensures var r := MonthRangeUtc(year, month1to12);
      var len := MonthLength(FullYear(year), month1to12 - 1);
      && r.end == r.start + len * 86400000 - 1000
      && 28 <= len <= 31
      && r.start < r.end
  {
    var y, m := FullYear(year), month1to12 - 1;
    MonthSpanMs(y, m);
    MonthLengthRange(y, m);
  }

  /** Consecutive months tile the time line: each starts one second after
      the previous one ends (December to January included). */
  lemma MonthsTile(year: int, month1to12: int)
    ensures MonthRangeUtc(year, month1to12).end + 1000 == MonthRangeUtc(year, month1to12 + 1).start
  {
    DayZeroEndMs(FullYear(year), month1to12);
  }

  /** Later months start later ... */
  lemma StartsOrdered(year: int, a: int, b: int)
    requires a <= b
    ensures MonthRangeUtc(year, a).start <= MonthRangeUtc(year, b).start
  {
    var y := FullYear(year);
    MonthStartMsMonotone(y, a - 1, b - 1);
  }

  /** ... and a month ends before any later month starts. */
  lemma MonthsOrdered(year: int, a: int, b: int)
    requires a < b
    ensures MonthRangeUtc(year, a).end < MonthRangeUtc(year, b).start
  {
    MonthsTile(year, a);
    StartsOrdered(year, a + 1, b);
  }

  /** A seat assigned at the start of a month, with no cancellation, is
      active in that month and every later one. */
  lemma AssignedSeatStaysActive(seat: UserSeat, year: int, from: int, month1to12: int)
    requires seat.assignedAt == MonthRangeUtc(year, from).start
    requires !seat.pendingCancellationDate.Present()
    requires from <= month1to12
    ensures IsActiveInCycle(seat, MonthRangeUtc(year, month1to12))
  {
    StartsOrdered(year, from, month1to12);
    MonthRangeLength(year, month1to12);
  }

  /** A seat cancelled during month `c` is still active in month `c` and
      in every earlier month it was assigned by ... */
  lemma ActiveUntilCancelled(seat: UserSeat, year: int, c: int, month1to12: int)
    requires seat.assignedAt <= MonthRangeUtc(year, month1to12).end
    requires seat.pendingCancellationDate.Present()
    requires MonthRangeUtc(year, c).start <= seat.pendingCancellationDate.at
    requires month1to12 <= c
    ensures IsActiveInCycle(seat, MonthRangeUtc(year, month1to12))
  {
    StartsOrdered(year, month1to12, c);
  }

  /** ... and inactive in every later month. */
  lemma InactiveAfterCancelled(seat: UserSeat, year: int, c: int, month1to12: int)
    requires seat.pendingCancellationDate.Present()
    requires seat.pendingCancellationDate.at <= MonthRangeUtc(year, c).end
    requires c < month1to12
    ensures !IsActiveInCycle(seat, MonthRangeUtc(year, month1to12))
  {
    MonthsOrdered(year, c, month1to12);
  }
}
