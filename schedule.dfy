/** The time-window rules of TimezoneContext.tsx. The caller supplies the selected time zone,
    the current time as a zero-padded `HH:MM` string and the day of the week (0 is Sunday).
    Times are compared as strings, code unit by code unit, as JavaScript's `<=` does. */
module Schedule {
  import opened Text
  import Sorting

  datatype Promotion = Promotion(
    id: string,
    name: string,
    discount: int,
    startTime: string,
    endTime: string,
    days: seq<int>,
    timezones: seq<string>,
    voucherCategories: seq<string>,
    isActive: bool)

  datatype Window = Window(start: string, end: string)

  datatype BusinessHours = BusinessHours(timezone: string, region: string, weekday: Window, weekend: Option<Window>)

  datatype RegionalVoucher = RegionalVoucher(
    voucherId: string,
    title: string,
    timezones: seq<string>,
    availabilityStart: Option<string>,
    availabilityEnd: Option<string>,
    isRegional: bool)

  /** `start <= time && time <= end` on strings. */
  predicate Within(time: string, start: string, end: string) {
    StrLe(start, time) && StrLe(time, end)
  }

  // ---------------------------------------------------------------------------
  // updateActivePromotions

  /** The filter of updateActivePromotions; the promotion's own `isActive` flag plays no part. */
  predicate RunningNow(p: Promotion, tz: string, day: int, time: string) {
    tz in p.timezones && day in p.days && Within(time, p.startTime, p.endTime)
  }

  function ActivePromotions(promos: seq<Promotion>, tz: string, day: int, time: string): (r: seq<Promotion>)
    ensures |r| <= |promos|
  {
    if promos == [] then []
    else (if RunningNow(promos[0], tz, day, time) then [promos[0]] else [])
         + ActivePromotions(promos[1..], tz, day, time)
  }

  /** A promotion is active exactly when its zones list the selected zone, its days list the
      current day, and the current time lies between its start and end, both inclusive. */
  lemma {:induction false} ActivePromotionsSpec(promos: seq<Promotion>, tz: string, day: int, time: string)
    ensures forall p :: p in ActivePromotions(promos, tz, day, time) <==>
      p in promos && tz in p.timezones && day in p.days && StrLe(p.startTime, time) && StrLe(time, p.endTime)
  {
    if promos != [] {
      ActivePromotionsSpec(promos[1..], tz, day, time);
      assert forall p :: p in promos <==> p == promos[0] || p in promos[1..];
    }
  }

  // ---------------------------------------------------------------------------
  // getRegionalVouchers

  /** `voucher.availabilityStart && voucher.availabilityEnd`: both given and non-empty. */
  predicate HasWindow(v: RegionalVoucher) {
    v.availabilityStart.Some? && v.availabilityStart.value != []
    && v.availabilityEnd.Some? && v.availabilityEnd.value != []
  }

  predicate Available(v: RegionalVoucher, tz: string, time: string) {
    !v.isRegional
    || (tz in v.timezones
        && (HasWindow(v) ==> Within(time, v.availabilityStart.value, v.availabilityEnd.value)))
  }

  function RegionalVouchers(vouchers: seq<RegionalVoucher>, tz: string, time: string): (r: seq<RegionalVoucher>)
    ensures |r| <= |vouchers|
  {
    if vouchers == [] then []
    else (if Available(vouchers[0], tz, time) then [vouchers[0]] else [])
         + RegionalVouchers(vouchers[1..], tz, time)
  }

  /** Global vouchers are always kept; a regional one needs the selected zone and, when it has
      both bounds, a current time between them. */
  lemma {:induction false} RegionalVouchersSpec(vouchers: seq<RegionalVoucher>, tz: string, time: string)
    ensures forall v :: v in vouchers && !v.isRegional ==> v in RegionalVouchers(vouchers, tz, time)
    ensures forall v :: v in RegionalVouchers(vouchers, tz, time) && v.isRegional ==> tz in v.timezones
    ensures forall v :: v in RegionalVouchers(vouchers, tz, time) && v.isRegional && HasWindow(v) ==>
      StrLe(v.availabilityStart.value, time) && StrLe(time, v.availabilityEnd.value)
    ensures forall v :: v in RegionalVouchers(vouchers, tz, time) <==> v in vouchers && Available(v, tz, time)
  {
    if vouchers != [] {
      RegionalVouchersSpec(vouchers[1..], tz, time);
      assert forall v :: v in vouchers <==> v == vouchers[0] || v in vouchers[1..];
    }
  }

  // ---------------------------------------------------------------------------
  // isBusinessHours

  /** `REGIONAL_BUSINESS_HOURS.find(bh => bh.timezone === tz)`. */
  function FindHours(table: seq<BusinessHours>, tz: string): (r: Option<BusinessHours>)
    ensures r.Some? ==> r.value in table && r.value.timezone == tz
    ensures r.None? <==> forall i :: 0 <= i < |table| ==> table[i].timezone != tz
  {
    if table == [] then None
    else if table[0].timezone == tz then Some(table[0])
    else FindHours(table[1..], tz)
  }

  predicate IsWeekend(day: int) {
    day == 0 || day == 6
  }

  /** A zone without an entry is always open; on Sunday and Saturday the weekend window applies
      and a zone without one is closed; other days use the weekday window. */
  function IsBusinessHours(table: seq<BusinessHours>, tz: string, day: int, time: string): (open: bool)
    ensures FindHours(table, tz).None? ==> open
    ensures FindHours(table, tz).Some? && IsWeekend(day) && FindHours(table, tz).value.weekend.None? ==> !open
    ensures FindHours(table, tz).Some? && IsWeekend(day) && FindHours(table, tz).value.weekend.Some? ==>
      (open <==> Within(time, FindHours(table, tz).value.weekend.value.start, FindHours(table, tz).value.weekend.value.end))
    ensures FindHours(table, tz).Some? && !IsWeekend(day) ==>
      (open <==> Within(time, FindHours(table, tz).value.weekday.start, FindHours(table, tz).value.weekday.end))
  {
    match FindHours(table, tz)
    case None => true
    case Some(bh) =>
      if IsWeekend(day) then
        bh.weekend.Some? && Within(time, bh.weekend.value.start, bh.weekend.value.end)
      else Within(time, bh.weekday.start, bh.weekday.end)
  }

  /** On a weekday the zone's weekend window plays no part. */
  lemma WeekdayIgnoresWeekend(bh: BusinessHours, rest: seq<BusinessHours>, day: int, time: string, w: Option<Window>)
    requires !IsWeekend(day)
    ensures IsBusinessHours([bh] + rest, bh.timezone, day, time) == IsBusinessHours([bh.(weekend := w)] + rest, bh.timezone, day, time)
  {
  }

  // ---------------------------------------------------------------------------
  // getNextPromotion

  function ForZone(promos: seq<Promotion>, tz: string): (r: seq<Promotion>)
    ensures forall p :: p in r <==> p in promos && tz in p.timezones
  {
    if promos == [] then []
    else (if tz in promos[0].timezones then [promos[0]] else []) + ForZone(promos[1..], tz)
  }

  /** `a.startTime.localeCompare(b.startTime) <= 0`; for zero-padded `HH:MM` strings this is the
      code-unit order. */
  predicate StartsNoLater(a: Promotion, b: Promotion) {
    StrLe(a.startTime, b.startTime)
  }

  lemma StartsNoLaterIsTotalPreorder()
    ensures Sorting.TotalPreorder(StartsNoLater)
  {
    forall a: Promotion, b: Promotion ensures StartsNoLater(a, b) || StartsNoLater(b, a) {
      StrLeTotal(a.startTime, b.startTime);
    }
    forall a: Promotion, b: Promotion, c: Promotion | StartsNoLater(a, b) && StartsNoLater(b, c)
      ensures StartsNoLater(a, c)
    {
      StrLeTransitive(a.startTime, b.startTime, c.startTime);
    }
  }

  /** The zone's promotions, earliest start first. */
  function Upcoming(promos: seq<Promotion>, tz: string): seq<Promotion> {
    Sorting.SortBy(ForZone(promos, tz), StartsNoLater)
  }

  /** Runs on `day` and starts strictly after `time`. */
  predicate LaterToday(p: Promotion, day: int, time: string) {
    day in p.days && StrLt(time, p.startTime)
  }

  function FirstLaterToday(ps: seq<Promotion>, day: int, time: string): (r: Option<Promotion>)
    ensures r.Some? ==> r.value in ps && LaterToday(r.value, day, time)
    ensures r.None? <==> forall p :: p in ps ==> !LaterToday(p, day, time)
    ensures r.Some? ==> exists i :: 0 <= i < |ps| && ps[i] == r.value && forall j :: 0 <= j < i ==> !LaterToday(ps[j], day, time)
  {
    if ps == [] then None
    else if LaterToday(ps[0], day, time) then Some(ps[0])
    else
      var r := FirstLaterToday(ps[1..], day, time);
      if r.Some? then
        ghost var i :| 0 <= i < |ps[1..]| && ps[1..][i] == r.value && forall j :: 0 <= j < i ==> !LaterToday(ps[1..][j], day, time);
        assert ps[i + 1] == r.value;
        r
      else r
  }

  function FirstOnDay(ps: seq<Promotion>, day: int): (r: Option<Promotion>)
    ensures r.Some? ==> r.value in ps && day in r.value.days
    ensures r.None? <==> forall p :: p in ps ==> day !in p.days
    ensures r.Some? ==> exists i :: 0 <= i < |ps| && ps[i] == r.value && forall j :: 0 <= j < i ==> day !in ps[j].days
  {
    if ps == [] then None
    else if day in ps[0].days then Some(ps[0])
    else
      var r := FirstOnDay(ps[1..], day);
      if r.Some? then
        ghost var i :| 0 <= i < |ps[1..]| && ps[1..][i] == r.value && forall j :: 0 <= j < i ==> day !in ps[1..][j].days;
        assert ps[i + 1] == r.value;
        r
      else r
  }

  /** The earliest-starting promotion of the zone still to start today, else the
      earliest-starting one of the zone that runs tomorrow, else none. */
  function NextPromotion(promos: seq<Promotion>, tz: string, day: int, time: string): Option<Promotion> {
    var upcoming := Upcoming(promos, tz);
    match FirstLaterToday(upcoming, day, time)
    case Some(p) => Some(p)
    case None => FirstOnDay(upcoming, (day + 1) % 7)
  }

  /** The next promotion is one of the table's promotions for the selected zone; it is one that
      starts later today, or, when there is none, one that runs tomorrow. */
  lemma NextPromotionSpec(promos: seq<Promotion>, tz: string, day: int, time: string)
    ensures var r := NextPromotion(promos, tz, day, time);
      && (r.Some? ==> r.value in promos && tz in r.value.timezones)
      && ((exists q :: q in promos && tz in q.timezones && LaterToday(q, day, time)) ==> r.Some? && LaterToday(r.value, day, time))
      && (r.Some? && !LaterToday(r.value, day, time) ==> (day + 1) % 7 in r.value.days)
      && (r.None? <==> forall q :: q in promos && tz in q.timezones ==> !LaterToday(q, day, time) && (day + 1) % 7 !in q.days)
  {
    var upcoming := Upcoming(promos, tz);
    forall q ensures q in upcoming <==> q in promos && tz in q.timezones {
      Sorting.SortByMembers(ForZone(promos, tz), StartsNoLater, q);
    }
  }

  /** Of the zone's promotions still to start today, the next one starts no later than any. */
  lemma NextPromotionEarliest(promos: seq<Promotion>, tz: string, day: int, time: string, q: Promotion)
    requires q in promos && tz in q.timezones && LaterToday(q, day, time)
    ensures NextPromotion(promos, tz, day, time).Some?
    ensures StrLe(NextPromotion(promos, tz, day, time).value.startTime, q.startTime)
  {
    var upcoming := Upcoming(promos, tz);
    Sorting.SortByMembers(ForZone(promos, tz), StartsNoLater, q);
    StartsNoLaterIsTotalPreorder();
    Sorting.SortBySorted(ForZone(promos, tz), StartsNoLater);
    var r := FirstLaterToday(upcoming, day, time);
    var i :| 0 <= i < |upcoming| && upcoming[i] == r.value && forall j :: 0 <= j < i ==> !LaterToday(upcoming[j], day, time);
    var k :| 0 <= k < |upcoming| && upcoming[k] == q;
    assert i <= k;
    if i < k {
      assert StartsNoLater(upcoming[i], upcoming[k]);
    } else {
      StrLeTotal(r.value.startTime, q.startTime);
    }
  }

  /** In a list sorted by start time, the first promotion running on `day` starts no later
      than any other that runs on it. */
  lemma FirstOnDayEarliest(ps: seq<Promotion>, day: int, q: Promotion)
    requires Sorting.Sorted(ps, StartsNoLater)
    requires q in ps && day in q.days
    ensures FirstOnDay(ps, day).Some?
    ensures StrLe(FirstOnDay(ps, day).value.startTime, q.startTime)
  {
    var r := FirstOnDay(ps, day);
    var i :| 0 <= i < |ps| && ps[i] == r.value && forall j :: 0 <= j < i ==> day !in ps[j].days;
    var k :| 0 <= k < |ps| && ps[k] == q;
    if i < k {
      assert StartsNoLater(ps[i], ps[k]);
    } else {
      assert i == k;
      StrLeTotal(q.startTime, q.startTime);
    }
  }

  /** When nothing is left today, the next promotion is the earliest-starting one of the zone
      that runs tomorrow. */
  lemma NextPromotionEarliestTomorrow(promos: seq<Promotion>, tz: string, day: int, time: string, q: Promotion)
    requires forall p :: p in promos && tz in p.timezones ==> !LaterToday(p, day, time)
    requires q in promos && tz in q.timezones && (day + 1) % 7 in q.days
    ensures NextPromotion(promos, tz, day, time).Some?
    ensures StrLe(NextPromotion(promos, tz, day, time).value.startTime, q.startTime)
  {
    var upcoming := Upcoming(promos, tz);
    forall p | p in upcoming ensures !LaterToday(p, day, time) {
      Sorting.SortByMembers(ForZone(promos, tz), StartsNoLater, p);
    }
    assert FirstLaterToday(upcoming, day, time).None?;
    Sorting.SortByMembers(ForZone(promos, tz), StartsNoLater, q);
    StartsNoLaterIsTotalPreorder();
    Sorting.SortBySorted(ForZone(promos, tz), StartsNoLater);
    FirstOnDayEarliest(upcoming, (day + 1) % 7, q);
  }

  // ---------------------------------------------------------------------------
  // The tables the application ships with

  const Weekdays: seq<int> := [1, 2, 3, 4, 5]

  const TimezonePromotions: seq<Promotion> := [
    Promotion("happy-hour-us", "Happy Hour Special", 50, "17:00", "19:00", Weekdays,
      ["America/New_York", "America/Chicago", "America/Denver", "America/Los_Angeles"], ["dining", "restaurant"], false),
    Promotion("lunch-rush-europe", "Lunch Rush Deal", 30, "12:00", "14:00", Weekdays,
      ["Europe/London", "Europe/Paris", "Europe/Berlin"], ["dining", "lunch"], false),
    Promotion("weekend-shopping-asia", "Weekend Shopping Spree", 25, "10:00", "18:00", [0, 6],
      ["Asia/Tokyo", "Asia/Shanghai", "Asia/Dubai"], ["shopping", "retail"], false),
    Promotion("morning-coffee-global", "Morning Coffee Boost", 20, "07:00", "10:00", Weekdays,
      ["America/New_York", "Europe/London", "Asia/Tokyo", "Australia/Sydney"], ["coffee", "beverage"], false)
  ]

  const RegionalBusinessHours: seq<BusinessHours> := [
    BusinessHours("America/New_York", "Eastern US", Window("09:00", "18:00"), Some(Window("10:00", "16:00"))),
    BusinessHours("Europe/London", "UK", Window("09:00", "17:00"), Some(Window("10:00", "15:00"))),
    BusinessHours("Asia/Tokyo", "Japan", Window("09:00", "18:00"), Some(Window("10:00", "17:00"))),
    BusinessHours("Australia/Sydney", "Australia", Window("08:30", "17:30"), Some(Window("09:00", "16:00")))
  ]

  /** Every promotion the application ships with is flagged inactive, yet the lunch promotion
      is listed as active in Paris inside its window: the filter ignores the flag. */
  lemma ShippedFlagIgnored(day: int, time: string)
    requires day in Weekdays && Within(time, "12:00", "14:00")
    ensures forall k :: 0 <= k < |TimezonePromotions| ==> !TimezonePromotions[k].isActive
    ensures TimezonePromotions[1] in ActivePromotions(TimezonePromotions, "Europe/Paris", day, time)
  {
    ActivePromotionsSpec(TimezonePromotions, "Europe/Paris", day, time);
    assert "Europe/Paris" in TimezonePromotions[1].timezones by {
      assert TimezonePromotions[1].timezones[1] == "Europe/Paris";
    }
  }

  /** A zone without a business-hours entry is open at every time of every day. */
  lemma ParisAlwaysOpen(day: int, time: string)
    ensures IsBusinessHours(RegionalBusinessHours, "Europe/Paris", day, time)
  {
    assert forall i :: 0 <= i < |RegionalBusinessHours| ==> RegionalBusinessHours[i].timezone != "Europe/Paris";
  }
}
