/** The points ledger of accounts/views.py: one user's profile balance, the voucher table, the
    cart, the redemption table, tier activities and the user's tier row. Each view is a method
    of `Store` that returns a response or a failure; a request runs as one sequential step. */
module Ledger {
  import opened Text
  import opened Catalog
  import Tiers
  import Notices

  /** The error responses of the views, each with its HTTP status. */
  datatype Failure =
    | VoucherIdRequired
    | VoucherNotFound
    | InsufficientPoints(needed: int, have: int)
    | InsufficientQuantity
    | InsufficientQuantityFor(title: string)
    | CartEmpty
    | ValidQuantityRequired
    | CartItemNotFound
    | ActivityTypeRequired
    | TierSetupMissing

  function HttpStatus(f: Failure): (code: int)
    ensures code == 404 <==> f == VoucherNotFound || f == CartItemNotFound
    ensures code == 500 <==> f == TierSetupMissing
    ensures code in {400, 404, 500}
  {
    match f
    case VoucherNotFound => 404
    case CartItemNotFound => 404
    case TierSetupMissing => 500
    case _ => 400
  }

  datatype Response<T> = Ok(value: T) | Fail(failure: Failure)

  datatype Receipt = Receipt(couponCode: string, pdfUrl: Option<string>, pointsRemaining: int)

  datatype CheckoutReceipt = CheckoutReceipt(redeemed: seq<Redemption>, totalPointsUsed: int, pointsRemaining: int)

  datatype LoginBonus = Claimed(points: int) | AlreadyClaimed

  /** A TierActivity row; `day` is the calendar day of its creation time. */
  datatype Activity = Activity(kind: string, points: int, day: int)

  /** `not x` for an identifier taken from the request: absent or zero. */
  predicate IsFalsyId(id: Option<int>) {
    id.None? || id.value == 0
  }

  /** `Voucher.objects.get(id=..., is_active=True)` succeeds. */
  predicate IsActiveVoucher(vouchers: map<int, Voucher>, id: int) {
    id in vouchers && vouchers[id].isActive
  }

  /** The balance get_or_create would give: the stored one, or the creation default. */
  function BalanceOr(profile: Option<int>, default: int): int {
    if profile.Some? then profile.value else default
  }

  /** The starting balance a view gives a new profile (views.py), as opposed to the model
      default of 0 that TierActivity.save uses. */
  const ViewProfileDefault := 10000

  // ---------------------------------------------------------------------------
  // Cart items

  /** The position of the cart's item for a voucher, if any. */
  function FindVoucherItem(cart: seq<CartItem>, voucherId: int): (r: Option<nat>)
    ensures r.Some? ==> r.value < |cart| && cart[r.value].voucherId == voucherId
    ensures r.None? ==> forall k :: 0 <= k < |cart| ==> cart[k].voucherId != voucherId
  {
    if cart == [] then None
    else if cart[0].voucherId == voucherId then Some(0)
    else match FindVoucherItem(cart[1..], voucherId)
      case None => None
      case Some(k) => Some(k + 1)
  }

  /** The position of the cart item with a given id, if any. */
  function FindItem(cart: seq<CartItem>, itemId: int): (r: Option<nat>)
    ensures r.Some? ==> r.value < |cart| && cart[r.value].id == itemId
    ensures r.None? ==> forall k :: 0 <= k < |cart| ==> cart[k].id != itemId
  {
    if cart == [] then None
    else if cart[0].id == itemId then Some(0)
    else match FindItem(cart[1..], itemId)
      case None => None
      case Some(k) => Some(k + 1)
  }

  /** The quantity of a voucher the cart holds, over all its items. */
  function VoucherQuantity(cart: seq<CartItem>, voucherId: int): int {
    if cart == [] then 0
    else (if cart[0].voucherId == voucherId then cart[0].quantity else 0) + VoucherQuantity(cart[1..], voucherId)
  }

  predicate DistinctVouchers(cart: seq<CartItem>) {
    forall i, j :: 0 <= i < j < |cart| ==> cart[i].voucherId != cart[j].voucherId
  }

  /** `CartItem.objects.get_or_create(cart, voucher, defaults={'quantity': q})` followed by
      `quantity += q` when the item already existed. */
  function CartAfterAdd(cart: seq<CartItem>, voucherId: int, quantity: int, nextId: int): seq<CartItem> {
    match FindVoucherItem(cart, voucherId)
    case Some(k) => cart[k := cart[k].(quantity := cart[k].quantity + quantity)]
    case None => cart + [CartItem(nextId, voucherId, quantity)]
  }

  lemma {:induction false} VoucherQuantityAppend(cart: seq<CartItem>, item: CartItem, voucherId: int)
    ensures VoucherQuantity(cart + [item], voucherId)
         == VoucherQuantity(cart, voucherId) + (if item.voucherId == voucherId then item.quantity else 0)
  {
    if cart != [] {
      assert (cart + [item])[1..] == cart[1..] + [item];
      VoucherQuantityAppend(cart[1..], item, voucherId);
    }
  }

  lemma {:induction false} VoucherQuantityUpdate(cart: seq<CartItem>, k: nat, item: CartItem, voucherId: int)
    requires k < |cart| && item.voucherId == cart[k].voucherId
    ensures VoucherQuantity(cart[k := item], voucherId)
         == VoucherQuantity(cart, voucherId) + (if item.voucherId == voucherId then item.quantity - cart[k].quantity else 0)
  {
    if k > 0 {
      assert cart[k := item][1..] == cart[1..][k - 1 := item];
      VoucherQuantityUpdate(cart[1..], k - 1, item, voucherId);
    }
  }

  /** Adding to the cart raises that voucher's quantity by exactly the amount added, leaves
      every other voucher's quantity alone and keeps one item per voucher. */
  lemma CartAfterAddSpec(cart: seq<CartItem>, voucherId: int, quantity: int, nextId: int, other: int)
    requires DistinctVouchers(cart)
    ensures DistinctVouchers(CartAfterAdd(cart, voucherId, quantity, nextId))
    ensures VoucherQuantity(CartAfterAdd(cart, voucherId, quantity, nextId), voucherId) == VoucherQuantity(cart, voucherId) + quantity
    ensures other != voucherId ==> VoucherQuantity(CartAfterAdd(cart, voucherId, quantity, nextId), other) == VoucherQuantity(cart, other)
  {
    match FindVoucherItem(cart, voucherId)
    case Some(k) =>
      var item := cart[k].(quantity := cart[k].quantity + quantity);
      VoucherQuantityUpdate(cart, k, item, voucherId);
      VoucherQuantityUpdate(cart, k, item, other);
    case None =>
      var item := CartItem(nextId, voucherId, quantity);
      VoucherQuantityAppend(cart, item, voucherId);
      VoucherQuantityAppend(cart, item, other);
  }

  /** add_to_cart checks the stock against the quantity requested, not against what the cart
      then holds: two adds of 3 from a stock of 5 both pass and leave 6 in the cart. */
  lemma CumulativeQuantityNotRechecked()
    ensures var once := CartAfterAdd([], 7, 3, 1);
      && once == [CartItem(1, 7, 3)]
      && CartAfterAdd(once, 7, 3, 2) == [CartItem(1, 7, 6)]
      && VoucherQuantity(CartAfterAdd(once, 7, 3, 2), 7) > 5
  {
    var once := CartAfterAdd([], 7, 3, 1);
    assert FindVoucherItem(once, 7) == Some(0);
  }

  // ---------------------------------------------------------------------------
  // Checkout

  /** `item.voucher.quantity_available < item.quantity`. */
  predicate Short(item: CartItem, vouchers: map<int, Voucher>)
    requires item.voucherId in vouchers
  {
    vouchers[item.voucherId].quantityAvailable < item.quantity
  }

  /** The first item whose voucher lacks stock; checkout names that voucher. */
  function FirstShort(items: seq<CartItem>, vouchers: map<int, Voucher>): (r: Option<nat>)
    requires ItemsPriced(items, vouchers)
    ensures r.Some? ==>
      && r.value < |items| && Short(items[r.value], vouchers)
      && forall k :: 0 <= k < r.value ==> !Short(items[k], vouchers)
    ensures r.None? ==> forall k :: 0 <= k < |items| ==> !Short(items[k], vouchers)
  {
    if items == [] then None
    else if Short(items[0], vouchers) then Some(0)
    else
      assert ItemsPriced(items[1..], vouchers);
      match FirstShort(items[1..], vouchers)
      case None => None
      case Some(k) => Some(k + 1)
  }

  /** The voucher table after each item's stock is reduced by its quantity, in cart order. */
  function Debit(vouchers: map<int, Voucher>, items: seq<CartItem>): (r: map<int, Voucher>)
    requires ItemsPriced(items, vouchers)
    ensures r.Keys == vouchers.Keys
  {
    if items == [] then vouchers
    else
      var init := items[..|items| - 1];
      var last := items[|items| - 1];
      assert ItemsPriced(init, vouchers);
      var d := Debit(vouchers, init);
      d[last.voucherId := d[last.voucherId].(quantityAvailable := d[last.voucherId].quantityAvailable - last.quantity)]
  }

  /** FirstShort is determined by its contract: the index of the first short item. */
  lemma {:induction false} FirstShortIsFirst(items: seq<CartItem>, vouchers: map<int, Voucher>, i: nat)
    requires ItemsPriced(items, vouchers) && i <= |items|
    requires forall k :: 0 <= k < i ==> !Short(items[k], vouchers)
    requires i < |items| ==> Short(items[i], vouchers)
    ensures FirstShort(items, vouchers) == if i < |items| then Some(i) else None
  {
    if items != [] && i > 0 {
      assert ItemsPriced(items[1..], vouchers);
      FirstShortIsFirst(items[1..], vouchers, i - 1);
    }
  }

  lemma DebitSnoc(vouchers: map<int, Voucher>, items: seq<CartItem>, item: CartItem)
    requires ItemsPriced(items + [item], vouchers)
    ensures ItemsPriced(items, vouchers) && item.voucherId in Debit(vouchers, items)
    ensures var d := Debit(vouchers, items);
      Debit(vouchers, items + [item])
        == d[item.voucherId := d[item.voucherId].(quantityAvailable := d[item.voucherId].quantityAvailable - item.quantity)]
  {
    assert (items + [item])[..|items|] == items;
    assert forall k :: 0 <= k < |items| ==> items[k] == (items + [item])[k];
    assert (items + [item])[|items|] == item;
  }

  /** Checkout's debit one item further: the next item's voucher still has its original row,
      and its stock is lowered by that item's quantity. */
  lemma DebitNext(vouchers: map<int, Voucher>, items: seq<CartItem>, j: nat)
    requires ItemsPriced(items, vouchers) && DistinctVouchers(items) && j < |items|
    ensures ItemsPriced(items[..j], vouchers) && ItemsPriced(items[..j + 1], vouchers)
    ensures Debit(vouchers, items[..j])[items[j].voucherId] == vouchers[items[j].voucherId]
    ensures var d := Debit(vouchers, items[..j]);
      var v := vouchers[items[j].voucherId];
      Debit(vouchers, items[..j + 1]) == d[items[j].voucherId := v.(quantityAvailable := v.quantityAvailable - items[j].quantity)]
  {
    assert forall k :: 0 <= k < j ==> items[..j][k].voucherId != items[j].voucherId;
    DebitUntouched(vouchers, items[..j], items[j].voucherId);
    assert items[..j + 1] == items[..j] + [items[j]];
    DebitSnoc(vouchers, items[..j], items[j]);
  }

  /** A voucher no item names keeps its row. */
  lemma {:induction false} DebitUntouched(vouchers: map<int, Voucher>, items: seq<CartItem>, id: int)
    requires ItemsPriced(items, vouchers) && id in vouchers
    requires forall k :: 0 <= k < |items| ==> items[k].voucherId != id
    ensures Debit(vouchers, items)[id] == vouchers[id]
  {
    if items != [] {
      assert ItemsPriced(items[..|items| - 1], vouchers);
      DebitUntouched(vouchers, items[..|items| - 1], id);
    }
  }

  /** With one item per voucher, checkout lowers each item's voucher stock by exactly that
      item's quantity and changes nothing else in that row. */
  lemma {:induction false} DebitAt(vouchers: map<int, Voucher>, items: seq<CartItem>, k: nat)
    requires ItemsPriced(items, vouchers) && DistinctVouchers(items) && k < |items|
    ensures Debit(vouchers, items)[items[k].voucherId]
         == vouchers[items[k].voucherId].(quantityAvailable := vouchers[items[k].voucherId].quantityAvailable - items[k].quantity)
  {
    var init := items[..|items| - 1];
    assert ItemsPriced(init, vouchers);
    if k == |items| - 1 {
      DebitUntouched(vouchers, init, items[k].voucherId);
    } else {
      assert DistinctVouchers(init) && init[k] == items[k];
      DebitAt(vouchers, init, k);
    }
  }

  /** No voucher row has negative stock. */
  predicate StockNonNegative(vouchers: map<int, Voucher>) {
    forall id :: id in vouchers ==> vouchers[id].quantityAvailable >= 0
  }

  /** Checkout runs only when no item is short, so with one item per voucher no stock goes
      below zero. */
  lemma DebitKeepsStock(vouchers: map<int, Voucher>, items: seq<CartItem>)
    requires ItemsPriced(items, vouchers) && DistinctVouchers(items) && StockNonNegative(vouchers)
    requires FirstShort(items, vouchers).None?
    ensures StockNonNegative(Debit(vouchers, items))
  {
    forall id | id in Debit(vouchers, items) ensures Debit(vouchers, items)[id].quantityAvailable >= 0 {
      if k :| 0 <= k < |items| && items[k].voucherId == id {
        DebitAt(vouchers, items, k);
      } else {
        DebitUntouched(vouchers, items, id);
      }
    }
  }

  /** Debiting stock never changes a voucher's price, so the cart total is unaffected. */
  lemma {:induction false} DebitKeepsPoints(vouchers: map<int, Voucher>, items: seq<CartItem>, id: int)
    requires ItemsPriced(items, vouchers) && id in vouchers
    ensures Debit(vouchers, items)[id].points == vouchers[id].points
  {
    if items != [] {
      assert ItemsPriced(items[..|items| - 1], vouchers);
      DebitKeepsPoints(vouchers, items[..|items| - 1], id);
    }
  }

  /** The redemption checkout records for one cart item. */
  predicate CheckoutRecord(r: Redemption, item: CartItem, vouchers: map<int, Voucher>, pdf: Option<string>, now: int,
                           draws: seq<string>, taken: set<string>)
    requires item.voucherId in vouchers
  {
    && r.voucherId == item.voucherId
    && r.quantity == item.quantity
    && r.pointsUsed == LineTotal(item, vouchers)
    && r.status == Completed
    && r.pdfUrl == pdf
    && r.createdAt == now
    && r.completedAt == Some(now)
    && DrawsYieldFresh(taken, draws)
    && r.couponCode == FirstFreshDraw(taken, draws)
  }

  /** `rs[k]` is the redemption checkout made for `items[k]`, for every item. Its code is the
      first draw of its stream that neither an existing redemption (`before`) nor an earlier
      item of this checkout uses. */
  predicate CheckoutRecords(rs: seq<Redemption>, items: seq<CartItem>, vouchers: map<int, Voucher>, pdfs: seq<Option<string>>,
                            now: int, draws: seq<seq<string>>, before: seq<Redemption>)
  {
    && ItemsPriced(items, vouchers)
    && |rs| == |items| && |pdfs| >= |items| && |draws| >= |items|
    && RecordsFor(rs, items, vouchers, pdfs, now, draws, before)
  }

  /** The first `|added|` items each have their checkout record in `added`. */
  predicate RecordsFor(added: seq<Redemption>, items: seq<CartItem>, vouchers: map<int, Voucher>, pdfs: seq<Option<string>>,
                       now: int, draws: seq<seq<string>>, before: seq<Redemption>)
    requires ItemsPriced(items, vouchers) && |added| <= |items| && |pdfs| >= |items| && |draws| >= |items|
  {
    forall k :: 0 <= k < |added| ==> CheckoutRecord(added[k], items[k], vouchers, pdfs[k], now, draws[k], CodesOf(before + added[..k]))
  }

  function PointsUsed(rs: seq<Redemption>): int {
    if rs == [] then 0 else PointsUsed(rs[..|rs| - 1]) + rs[|rs| - 1].pointsUsed
  }

  /** The points recorded on the new redemptions add up to the cart total that checkout
      debits from the balance. */
  lemma {:induction false} CheckoutChargesCartTotal(rs: seq<Redemption>, items: seq<CartItem>, vouchers: map<int, Voucher>)
    requires ItemsPriced(items, vouchers) && |rs| == |items|
    requires forall k :: 0 <= k < |items| ==> rs[k].pointsUsed == LineTotal(items[k], vouchers)
    ensures PointsUsed(rs) == CartTotal(items, vouchers)
  {
    if items != [] {
      assert ItemsPriced(items[..|items| - 1], vouchers);
      CheckoutChargesCartTotal(rs[..|rs| - 1], items[..|items| - 1], vouchers);
    }
  }

  // ---------------------------------------------------------------------------
  // Coupon codes in the redemption table

  function CodesOf(rs: seq<Redemption>): set<string> {
    set k | 0 <= k < |rs| :: rs[k].couponCode
  }

  /** `coupon_code` is unique in the Redemption table. */
  predicate CodesDistinct(rs: seq<Redemption>) {
    forall i, j :: 0 <= i < j < |rs| ==> rs[i].couponCode != rs[j].couponCode
  }

  lemma AppendFreshCode(rs: seq<Redemption>, r: Redemption)
    requires CodesDistinct(rs) && r.couponCode !in CodesOf(rs)
    ensures CodesDistinct(rs + [r])
  {
    forall i | 0 <= i < |rs| ensures rs[i].couponCode != r.couponCode {
      assert rs[i].couponCode in CodesOf(rs);
    }
  }

  lemma CodesOfSnoc(rs: seq<Redemption>, r: Redemption)
    ensures CodesOf(rs + [r]) == CodesOf(rs) + {r.couponCode}
  {
    assert (rs + [r])[|rs|] == r;
    forall k | 0 <= k < |rs| ensures (rs + [r])[k] == rs[k] { }
  }

  /** One stream of candidate codes per cart item, drawn in cart order: each stream holds a
      code that is neither in use nor the code an earlier item settled on. */
  predicate FreshDrawStreams(taken: set<string>, streams: seq<seq<string>>)
    decreases |streams|
  {
    streams == []
    || (&& DrawsYieldFresh(taken, streams[0])
        && FreshDrawStreams(taken + {FirstFreshDraw(taken, streams[0])}, streams[1..]))
  }

  /** Once the next item has settled on the first fresh draw of its stream, the remaining
      streams are fresh with respect to the codes in use including that one. */
  lemma StreamStillFresh(before: seq<Redemption>, r: Redemption, streams: seq<seq<string>>)
    requires FreshDrawStreams(CodesOf(before), streams) && streams != []
    requires r.couponCode == FirstFreshDraw(CodesOf(before), streams[0])
    ensures FreshDrawStreams(CodesOf(before + [r]), streams[1..])
  {
    CodesOfSnoc(before, r);
  }

  /** Streams may share candidates: a second item whose stream repeats the first item's code
      passes over it and takes the next candidate. */
  lemma SharedStreamsAccepted()
    ensures FreshDrawStreams({}, [["AAAAAAAA"], ["AAAAAAAA", "BBBBBBBB"]])
    ensures FirstFreshDraw({"AAAAAAAA"}, ["AAAAAAAA", "BBBBBBBB"]) == "BBBBBBBB"
  {
    var a, b := "AAAAAAAA", "BBBBBBBB";
    var none: set<string> := {};
    var streams := [[a], [a, b]];
    assert IsCouponShape(a) && IsCouponShape(b);
    assert streams[0][0] !in none;
    assert DrawsYieldFresh(none, streams[0]);
    assert FirstFreshDraw(none, streams[0]) == a;
    assert streams[1..] == [[a, b]];
    assert [a, b][1] !in {a};
    assert DrawsYieldFresh({a}, [a, b]);
    FirstFreshDrawAt({a}, [a, b], 1);
    assert [[a, b]][1..] == [];
  }

  // ---------------------------------------------------------------------------
  // Tier activity

  /** The UserTier row TierActivity.save leaves in the database. The credit lands on the
      in-memory instance, and only check_tier_upgrade saves it, so without an upgrade the stored
      row is the one that was loaded. */
  function StoredTierRow(tiers: seq<Tiers.RewardTier>, row: Tiers.TierRow, points: int, now: int): Tiers.TierRow {
    var credited := row.(totalPointsEarned := row.totalPointsEarned + points, tierPoints := row.tierPoints + points);
    if Tiers.Climb(tiers, row.level, credited.totalPointsEarned) != [] then Tiers.AfterCheck(tiers, credited, now) else row
  }

  /** An activity that earns an upgrade stores the full credited total and settles at the
      highest tier it reaches; one that does not leaves the stored row exactly as it was. */
  lemma StoredTierRowSpec(tiers: seq<Tiers.RewardTier>, row: Tiers.TierRow, points: int, now: int)
    ensures var s := StoredTierRow(tiers, row, points, now);
      var c := Tiers.Climb(tiers, row.level, row.totalPointsEarned + points);
      && (c == [] ==> s == row)
      && (c != [] ==> s.totalPointsEarned == row.totalPointsEarned + points && s.level == row.level + |c|
                      && Tiers.Settled(tiers, s) && s.lastTierUpgrade == Some(now))
  {
    var credited := row.(totalPointsEarned := row.totalPointsEarned + points, tierPoints := row.tierPoints + points);
    Tiers.AfterCheckResult(tiers, credited, now);
    Tiers.AfterCheckSettled(tiers, credited, now);
    Tiers.ClimbLevels(tiers, row.level, row.totalPointsEarned + points);
  }

  /** The stored row after a series of activities, one TierActivity.save each. */
  function StoredAfter(tiers: seq<Tiers.RewardTier>, row: Tiers.TierRow, points: seq<int>, now: int): Tiers.TierRow
    decreases |points|
  {
    if points == [] then row else StoredAfter(tiers, StoredTierRow(tiers, row, points[0], now), points[1..], now)
  }

  /** Activities that each fall short of the next tier on their own never change the stored
      row, however many there are: the credit does not accumulate. */
  lemma {:induction false} SmallActivitiesNeverPersist(tiers: seq<Tiers.RewardTier>, row: Tiers.TierRow, points: seq<int>, now: int)
    requires forall k :: 0 <= k < |points| ==> Tiers.Climb(tiers, row.level, row.totalPointsEarned + points[k]) == []
    ensures StoredAfter(tiers, row, points, now) == row
  {
    if points != [] {
      StoredTierRowSpec(tiers, row, points[0], now);
      SmallActivitiesNeverPersist(tiers, row, points[1..], now);
    }
  }

  /** With the populated tier table, a new bronze member who only ever collects the daily
      10-point login bonus stays at a stored total of 0, on bronze, for any number of days. */
  lemma LoginBonusesNeverReachSilver(days: nat, now: int)
    ensures StoredAfter(Tiers.PopulatedTiers(), Tiers.TierRow(1, 0, 0, None), seq(days, _ => 10), now) == Tiers.TierRow(1, 0, 0, None)
  {
    var t := Tiers.PopulatedTiers();
    Tiers.TierAtWellFormed(t, 2);
    assert Tiers.Climb(t, 1, 10) == [];
    SmallActivitiesNeverPersist(t, Tiers.TierRow(1, 0, 0, None), seq(days, _ => 10), now);
  }

  /** At least one `login` activity is dated `day`. */
  predicate LoggedInOn(activities: seq<Activity>, day: int) {
    exists k :: 0 <= k < |activities| && activities[k].kind == "login" && activities[k].day == day
  }

  /** One iteration of checkout's atomic block: the item's redemption is saved (drawing a
      fresh code), its voucher's stock reduced, and the redemption saved again with the PDF
      outcome and completion time. `rs` are the redemptions so far. */
  method RedeemItem(rs: seq<Redemption>, vouchers: map<int, Voucher>, item: CartItem, pdf: Option<string>,
                    draws: seq<string>, now: int)
    returns (r: Redemption, after: map<int, Voucher>)
    requires item.voucherId in vouchers
    requires DrawsYieldFresh(CodesOf(rs), draws)
    ensures CheckoutRecord(r, item, vouchers, pdf, now, draws, CodesOf(rs))
    ensures var v := vouchers[item.voucherId];
      after == vouchers[item.voucherId := v.(quantityAvailable := v.quantityAvailable - item.quantity)]
  {
    var voucher := vouchers[item.voucherId];
    var created, _ := SaveRedemption(Redemption(item.voucherId, item.quantity, item.quantity * voucher.points, [], Completed, None, now, None),
                                     CodesOf(rs), draws);
    after := vouchers[item.voucherId := voucher.(quantityAvailable := voucher.quantityAvailable - item.quantity)];
    var unused;
    r, unused := SaveRedemption(created.(pdfUrl := pdf, completedAt := Some(now)), CodesOf(rs + [created]), draws);
  }

  /** One more redemption made for the next item keeps the checkout records and the codes
      unique: its code is fresh with respect to the redemptions so far. */
  lemma RecordSnoc(items: seq<CartItem>, vouchers: map<int, Voucher>, rs: seq<Redemption>, pdfs: seq<Option<string>>,
                   draws: seq<seq<string>>, now: int, added: seq<Redemption>, r: Redemption)
    requires ItemsPriced(items, vouchers) && |added| < |items| && |pdfs| >= |items| && |draws| >= |items|
    requires RecordsFor(added, items, vouchers, pdfs, now, draws, rs)
    requires CodesDistinct(rs + added)
    requires var j := |added|;
      CheckoutRecord(r, items[j], vouchers, pdfs[j], now, draws[j], CodesOf(rs + added))
    ensures RecordsFor(added + [r], items, vouchers, pdfs, now, draws, rs)
    ensures CodesDistinct(rs + (added + [r]))
  {
    AppendFreshCode(rs + added, r);
    forall k | 0 <= k <= |added| ensures (added + [r])[..k] == added[..k] && (k < |added| ==> (added + [r])[k] == added[k]) { }
    assert added[..|added|] == added;
    assert rs + added + [r] == rs + (added + [r]);
  }

  /** The atomic block of checkout_cart: for each item, a completed redemption with a fresh
      coupon code and the item's PDF outcome, and the voucher's stock reduced. `rs` are the
      redemptions that exist before. */
  method Fulfil(items: seq<CartItem>, vouchers: map<int, Voucher>, rs: seq<Redemption>,
                pdfs: seq<Option<string>>, draws: seq<seq<string>>, now: int)
    returns (debited: map<int, Voucher>, added: seq<Redemption>)
    requires ItemsPriced(items, vouchers) && DistinctVouchers(items) && CodesDistinct(rs)
    requires |pdfs| >= |items| && |draws| >= |items|
    requires FreshDrawStreams(CodesOf(rs), draws[..|items|])
    ensures debited == Debit(vouchers, items)
    ensures CheckoutRecords(added, items, vouchers, pdfs, now, draws, rs)
    ensures CodesDistinct(rs + added)
  {
    debited, added := vouchers, [];
    var j := 0;
    assert draws[j..|items|] == draws[..|items|] && rs + added == rs;
    while j < |items|
      invariant 0 <= j <= |items| && |added| == j
      invariant ItemsPriced(items[..j], vouchers) && debited == Debit(vouchers, items[..j])
      invariant RecordsFor(added, items, vouchers, pdfs, now, draws, rs)
      invariant CodesDistinct(rs + added)
      invariant FreshDrawStreams(CodesOf(rs + added), draws[j..|items|])
    {
      var item := items[j];
      DebitNext(vouchers, items, j);
      var streams := draws[j..|items|];
      assert streams[0] == draws[j] && streams[1..] == draws[j + 1..|items|];
      var r, v := RedeemItem(rs + added, debited, item, pdfs[j], draws[j], now);
      assert CheckoutRecord(r, item, vouchers, pdfs[j], now, draws[j], CodesOf(rs + added));
      StreamStillFresh(rs + added, r, streams);
      RecordSnoc(items, vouchers, rs, pdfs, draws, now, added, r);
      assert rs + added + [r] == rs + (added + [r]);
      added := added + [r];
      debited := v;
      j := j + 1;
    }
    assert items[..j] == items;
  }

  // ---------------------------------------------------------------------------
  // The state one user's requests act on

  class Store {
    /** UserProfile.points, or None while the user has no profile row. */
    var profile: Option<int>
    /** The Voucher table by id. */
    var vouchers: map<int, Voucher>
    /** The items of the user's cart, in creation order. */
    var cart: seq<CartItem>
    var nextItemId: int
    /** The Redemption table, oldest first. */
    var redemptions: seq<Redemption>
    /** The user's TierActivity rows, oldest first. */
    var activities: seq<Activity>
    /** The user's UserTier row, or None while there is none. */
    var tierRow: Option<Tiers.TierRow>
    /** The RewardTier table. */
    const tiers: seq<Tiers.RewardTier>
    /** The user's notifications. */
    const inbox: Notices.Inbox

    /** What the views maintain between requests: every cart item names an existing voucher;
        there is at most one item per voucher, because add_to_cart goes through get_or_create
        on cart and voucher (the CartItem table has no unique constraint of its own); coupon
        codes are unique, as the Redemption table's unique constraint requires; and no
        voucher's stock is negative. */
    ghost predicate Valid()
      reads this
    {
      && ItemsPriced(cart, vouchers)
      && DistinctVouchers(cart)
      && CodesDistinct(redemptions)
      && StockNonNegative(vouchers)
    }

    constructor (tiers: seq<Tiers.RewardTier>, vouchers: map<int, Voucher>, inbox: Notices.Inbox)
      requires StockNonNegative(vouchers)
      ensures Valid()
      ensures this.tiers == tiers && this.vouchers == vouchers && this.inbox == inbox
      ensures profile.None? && cart == [] && redemptions == [] && activities == [] && tierRow.None?
    {
      this.tiers := tiers;
      this.vouchers := vouchers;
      this.inbox := inbox;
      profile := None;
      cart := [];
      nextItemId := 1;
      redemptions := [];
      activities := [];
      tierRow := None;
    }

    /** get_user_profile: the user's balance, creating the profile with 10000 points if it
        does not exist. */
    method GetUserProfile() returns (points: int)
      modifies this`profile
      ensures points == BalanceOr(old(profile), ViewProfileDefault)
      ensures profile == Some(points)
    {
      if profile.None? {
        profile := Some(ViewProfileDefault);
      }
      points := profile.value;
    }

    /** add_to_cart. */
    method AddToCart(voucherId: Option<int>, quantity: int) returns (res: Response<()>)
      requires Valid()
      modifies this`cart, this`nextItemId, inbox
      ensures Valid()
      ensures IsFalsyId(voucherId) ==> res == Fail(VoucherIdRequired)
      ensures !IsFalsyId(voucherId) && !IsActiveVoucher(vouchers, voucherId.value) ==> res == Fail(VoucherNotFound)
      ensures !IsFalsyId(voucherId) && IsActiveVoucher(vouchers, voucherId.value) ==>
        (res == Fail(InsufficientQuantity) <==> vouchers[voucherId.value].quantityAvailable < quantity)
      ensures res.Fail? ==> cart == old(cart) && nextItemId == old(nextItemId) && inbox.messages == old(inbox.messages)
      ensures res.Ok? ==>
        && !IsFalsyId(voucherId) && IsActiveVoucher(vouchers, voucherId.value)
        && vouchers[voucherId.value].quantityAvailable >= quantity
        && cart == CartAfterAdd(old(cart), voucherId.value, quantity, old(nextItemId))
        && inbox.messages == old(inbox.messages) + [Notices.Notification(Notices.AddedToCart(vouchers[voucherId.value].title), false)]
    {
      if IsFalsyId(voucherId) {
        return Fail(VoucherIdRequired);
      }
      var id := voucherId.value;
      if !IsActiveVoucher(vouchers, id) {
        return Fail(VoucherNotFound);
      }
      var voucher := vouchers[id];
      if voucher.quantityAvailable < quantity {
        return Fail(InsufficientQuantity);
      }
      var found := FindVoucherItem(cart, id);
      match found {
        case Some(k) =>
          cart := cart[k := cart[k].(quantity := cart[k].quantity + quantity)];
        case None =>
          cart := cart + [CartItem(nextItemId, id, quantity)];
          nextItemId := nextItemId + 1;
      }
      CartAfterAddSpec(old(cart), id, quantity, old(nextItemId), id);
      inbox.Create(Notices.AddedToCart(voucher.title));
      return Ok(());
    }

    /** update_cart_item: set an item's quantity, which must be at least 1 and within the
        voucher's stock. The voucher's active flag is not consulted. */
    method UpdateCartItem(itemId: int, quantity: Option<int>) returns (res: Response<()>)
      requires Valid()
      modifies this`cart
      ensures Valid()
      ensures quantity.None? || quantity.value < 1 ==> res == Fail(ValidQuantityRequired)
      ensures quantity.Some? && quantity.value >= 1 && FindItem(old(cart), itemId).None? ==> res == Fail(CartItemNotFound)
      ensures quantity.Some? && quantity.value >= 1 && FindItem(old(cart), itemId).Some? ==>
        var k := FindItem(old(cart), itemId).value;
        && (res == Fail(InsufficientQuantity) <==> vouchers[old(cart)[k].voucherId].quantityAvailable < quantity.value)
        && (res.Ok? ==> cart == old(cart)[k := old(cart)[k].(quantity := quantity.value)])
      ensures res.Fail? ==> cart == old(cart)
    {
      if quantity.None? || quantity.value < 1 {
        return Fail(ValidQuantityRequired);
      }
      var found := FindItem(cart, itemId);
      if found.None? {
        return Fail(CartItemNotFound);
      }
      var k := found.value;
      if vouchers[cart[k].voucherId].quantityAvailable < quantity.value {
        return Fail(InsufficientQuantity);
      }
      cart := cart[k := cart[k].(quantity := quantity.value)];
      return Ok(());
    }

    /** remove_from_cart: delete the item with that id from the user's cart. */
    method RemoveFromCart(itemId: int) returns (res: Response<()>)
      requires Valid()
      modifies this`cart
      ensures Valid()
      ensures res.Fail? <==> FindItem(old(cart), itemId).None?
      ensures res.Fail? ==> res.failure == CartItemNotFound && cart == old(cart)
      ensures res.Ok? ==>
        var k := FindItem(old(cart), itemId).value;
        cart == old(cart)[..k] + old(cart)[k + 1..]
    {
      var found := FindItem(cart, itemId);
      if found.None? {
        return Fail(CartItemNotFound);
      }
      var k := found.value;
      cart := cart[..k] + cart[k + 1..];
      return Ok(());
    }

    /** redeem_voucher. `pdf` is the URL the PDF generator returns, or None when it raises;
        `draws` are the coupon-code candidates. The quantity is taken as sent: nothing
        requires it to be positive. */
    method RedeemVoucher(voucherId: Option<int>, quantity: int, now: int, pdf: Option<string>, draws: seq<string>)
      returns (res: Response<Receipt>)
      requires Valid()
      requires DrawsYieldFresh(CodesOf(redemptions), draws)
      modifies this`profile, this`vouchers, this`redemptions, inbox
      ensures Valid()
      ensures IsFalsyId(voucherId) ==> res == Fail(VoucherIdRequired)
      ensures !IsFalsyId(voucherId) && !IsActiveVoucher(old(vouchers), voucherId.value) ==> res == Fail(VoucherNotFound)
      ensures res == Fail(VoucherIdRequired) || res == Fail(VoucherNotFound) ==> profile == old(profile)
      ensures !IsFalsyId(voucherId) && IsActiveVoucher(old(vouchers), voucherId.value) ==>
        var v := old(vouchers)[voucherId.value];
        var have := BalanceOr(old(profile), ViewProfileDefault);
        && profile.Some?
        && (res == Fail(InsufficientPoints(v.points * quantity, have)) <==> have < v.points * quantity)
        && (res == Fail(InsufficientQuantity) <==> have >= v.points * quantity && v.quantityAvailable < quantity)
        && (res.Ok? <==> have >= v.points * quantity && v.quantityAvailable >= quantity)
        && (res.Ok? ==>
              && profile == Some(have - v.points * quantity)
              && vouchers == old(vouchers)[voucherId.value := v.(quantityAvailable := v.quantityAvailable - quantity)]
              && |redemptions| == |old(redemptions)| + 1
              && redemptions[..|old(redemptions)|] == old(redemptions)
              && redemptions[|old(redemptions)|]
                   == Redemption(voucherId.value, quantity, v.points * quantity, res.value.couponCode, Completed, pdf, now, Some(now))
              && res.value == Receipt(res.value.couponCode, pdf, have - v.points * quantity)
              && res.value.couponCode in draws && IsCouponShape(res.value.couponCode)
              && res.value.couponCode !in CodesOf(old(redemptions))
              && res.value.couponCode == FirstFreshDraw(CodesOf(old(redemptions)), draws)
              && inbox.messages == old(inbox.messages) + [Notices.Notification(Notices.Redeemed(v.title, v.points * quantity), false)])
        && (res.Fail? ==> profile == Some(have))
      ensures res.Fail? ==> vouchers == old(vouchers) && redemptions == old(redemptions) && inbox.messages == old(inbox.messages)
    {
      if IsFalsyId(voucherId) {
        return Fail(VoucherIdRequired);
      }
      var id := voucherId.value;
      if !IsActiveVoucher(vouchers, id) {
        return Fail(VoucherNotFound);
      }
      var voucher := vouchers[id];
      var total := voucher.points * quantity;
      var have := GetUserProfile();
      if have < total {
        return Fail(InsufficientPoints(total, have));
      }
      if voucher.quantityAvailable < quantity {
        return Fail(InsufficientQuantity);
      }
      var created, _ := SaveRedemption(Redemption(id, quantity, total, [], Completed, None, now, None), CodesOf(redemptions), draws);
      AppendFreshCode(redemptions, created);
      redemptions := redemptions + [created];
      profile := Some(have - total);
      vouchers := vouchers[id := voucher.(quantityAvailable := voucher.quantityAvailable - quantity)];
      var finished, _ := SaveRedemption(created.(pdfUrl := pdf, completedAt := Some(now)), CodesOf(redemptions), draws);
      redemptions := redemptions[|redemptions| - 1 := finished];
      inbox.Create(Notices.Redeemed(voucher.title, total));
      return Ok(Receipt(finished.couponCode, pdf, have - total));
    }

    /** The stock check of checkout_cart: the first item whose voucher lacks stock. */
    method FindShortItem() returns (short: Option<nat>)
      requires ItemsPriced(cart, vouchers)
      ensures short == FirstShort(cart, vouchers)
    {
      var i := 0;
      while i < |cart|
        invariant 0 <= i <= |cart|
        invariant forall k :: 0 <= k < i ==> !Short(cart[k], vouchers)
      {
        if Short(cart[i], vouchers) {
          FirstShortIsFirst(cart, vouchers, i);
          return Some(i);
        }
        i := i + 1;
      }
      FirstShortIsFirst(cart, vouchers, |cart|);
      return None;
    }

    /** The successful end of checkout_cart: the atomic block, the debit of `total` from the
        balance `have`, the emptied cart and the notification. */
    method CompleteCheckout(now: int, pdfs: seq<Option<string>>, draws: seq<seq<string>>, total: int, have: int)
      returns (receipt: CheckoutReceipt)
      requires Valid()
      requires FirstShort(cart, vouchers).None?
      requires |pdfs| >= |cart| && |draws| >= |cart|
      requires FreshDrawStreams(CodesOf(redemptions), draws[..|cart|])
      modifies this`profile, this`vouchers, this`redemptions, this`cart, inbox
      ensures Valid()
      ensures profile == Some(have - total)
      ensures vouchers == Debit(old(vouchers), old(cart))
      ensures cart == []
      ensures redemptions == old(redemptions) + receipt.redeemed
      ensures CheckoutRecords(receipt.redeemed, old(cart), old(vouchers), pdfs, now, draws, old(redemptions))
      ensures receipt.totalPointsUsed == total && receipt.pointsRemaining == have - total
      ensures inbox.messages == old(inbox.messages) + [Notices.Notification(Notices.CheckedOut(total), false)]
    {
      var debited, redeemed := Fulfil(cart, vouchers, redemptions, pdfs, draws, now);
      DebitKeepsStock(vouchers, cart);
      vouchers := debited;
      redemptions := redemptions + redeemed;
      profile := Some(have - total);
      cart := [];
      inbox.Create(Notices.CheckedOut(total));
      receipt := CheckoutReceipt(redeemed, total, have - total);
    }

    /** checkout_cart. `pdfs[k]` and `draws[k]` are the PDF outcome and the coupon-code
        candidates for the k-th cart item. */
    method CheckoutCart(now: int, pdfs: seq<Option<string>>, draws: seq<seq<string>>) returns (res: Response<CheckoutReceipt>)
      requires Valid()
      requires |pdfs| >= |cart| && |draws| >= |cart|
      requires FreshDrawStreams(CodesOf(redemptions), draws[..|cart|])
      modifies this`profile, this`vouchers, this`redemptions, this`cart, inbox
      ensures Valid()
      ensures old(cart) == [] ==> res == Fail(CartEmpty) && profile == old(profile)
      ensures old(cart) != [] ==>
        var total := CartTotal(old(cart), old(vouchers));
        var have := BalanceOr(old(profile), ViewProfileDefault);
        && profile.Some?
        && (res == Fail(InsufficientPoints(total, have)) <==> have < total)
        && (have >= total && FirstShort(old(cart), old(vouchers)).Some? ==>
              res == Fail(InsufficientQuantityFor(old(vouchers)[old(cart)[FirstShort(old(cart), old(vouchers)).value].voucherId].title)))
        && (res.Ok? <==> have >= total && FirstShort(old(cart), old(vouchers)).None?)
        && (res.Fail? ==> profile == Some(have))
        && (res.Ok? ==>
              && profile == Some(have - total)
              && vouchers == Debit(old(vouchers), old(cart))
              && cart == []
              && redemptions == old(redemptions) + res.value.redeemed
              && CheckoutRecords(res.value.redeemed, old(cart), old(vouchers), pdfs, now, draws, old(redemptions))
              && res.value.totalPointsUsed == total && res.value.pointsRemaining == have - total
              && inbox.messages == old(inbox.messages) + [Notices.Notification(Notices.CheckedOut(total), false)])
      ensures res.Fail? ==> vouchers == old(vouchers) && redemptions == old(redemptions) && cart == old(cart) && inbox.messages == old(inbox.messages)
    {
      if cart == [] {
        return Fail(CartEmpty);
      }
      var total := CartTotal(cart, vouchers);
      var have := GetUserProfile();
      if have < total {
        return Fail(InsufficientPoints(total, have));
      }
      var short := FindShortItem();
      if short.Some? {
        return Fail(InsufficientQuantityFor(vouchers[cart[short.value].voucherId].title));
      }
      var receipt := CompleteCheckout(now, pdfs, draws, total, have);
      return Ok(receipt);
    }

    /** TierActivity.save: record the activity, credit the profile (created with the model
        default of 0 points), load or create the UserTier row at the level-1 tier, credit the
        instance and run check_tier_upgrade. Without a level-1 tier the row cannot be created:
        the request fails after the activity and the profile credit are already stored. */
    method RecordActivity(kind: string, points: int, day: int, now: int) returns (res: Response<()>)
      modifies this`activities, this`profile, this`tierRow, inbox
      ensures activities == old(activities) + [Activity(kind, points, day)]
      ensures profile == Some(BalanceOr(old(profile), 0) + points)
      ensures res.Fail? <==> old(tierRow).None? && Tiers.TierAt(tiers, 1).None?
      ensures res.Fail? ==> res.failure == TierSetupMissing && tierRow == old(tierRow) && inbox.messages == old(inbox.messages)
      ensures res.Ok? ==>
        var row := if old(tierRow).Some? then old(tierRow).value else Tiers.TierRow(1, 0, 0, None);
        && tierRow == Some(StoredTierRow(tiers, row, points, now))
        && inbox.messages == old(inbox.messages) + Tiers.UpgradeNotices(Tiers.Climb(tiers, row.level, row.totalPointsEarned + points))
    {
      activities := activities + [Activity(kind, points, day)];
      profile := Some(BalanceOr(profile, 0) + points);
      if tierRow.None? {
        var first := Tiers.TierAt(tiers, 1);
        if first.None? {
          return Fail(TierSetupMissing);
        }
        tierRow := Some(Tiers.TierRow(first.value.level, 0, 0, None));
      }
      var ut := new Tiers.UserTier.Load(tierRow.value);
      ut.Credit(points);
      var _ := ut.CheckTierUpgrade(tiers, now, inbox);
      tierRow := Some(ut.stored);
      return Ok(());
    }

    /** add_tier_activity: an activity type is required; any other failure is a server error. */
    method AddTierActivity(activityType: Option<string>, points: int, day: int, now: int) returns (res: Response<()>)
      modifies this`activities, this`profile, this`tierRow, inbox
      ensures activityType.None? || activityType.value == [] ==>
        res == Fail(ActivityTypeRequired) && activities == old(activities) && profile == old(profile)
        && tierRow == old(tierRow) && inbox.messages == old(inbox.messages)
      ensures activityType.Some? && activityType.value != [] ==>
        && activities == old(activities) + [Activity(activityType.value, points, day)]
        && profile == Some(BalanceOr(old(profile), 0) + points)
        && (res.Fail? <==> old(tierRow).None? && Tiers.TierAt(tiers, 1).None?)
    {
      if activityType.None? || activityType.value == [] {
        return Fail(ActivityTypeRequired);
      }
      res := RecordActivity(activityType.value, points, day, now);
    }

    /** simulate_login_activity: a 10-point `login` activity, at most one per calendar day. */
    method SimulateLoginActivity(today: int, now: int) returns (res: Response<LoginBonus>)
      modifies this`activities, this`profile, this`tierRow, inbox
      ensures LoggedInOn(old(activities), today) ==>
        res == Ok(AlreadyClaimed) && activities == old(activities) && profile == old(profile)
        && tierRow == old(tierRow) && inbox.messages == old(inbox.messages)
      ensures !LoggedInOn(old(activities), today) ==>
        && activities == old(activities) + [Activity("login", 10, today)]
        && profile == Some(BalanceOr(old(profile), 0) + 10)
        && (res == Ok(Claimed(10)) <==> old(tierRow).Some? || Tiers.TierAt(tiers, 1).Some?)
        && (res.Fail? ==> res.failure == TierSetupMissing)
      ensures LoggedInOn(activities, today)
    {
      if exists k :: 0 <= k < |activities| && activities[k].kind == "login" && activities[k].day == today {
        return Ok(AlreadyClaimed);
      }
      var recorded := RecordActivity("login", 10, today, now);
      assert activities[|activities| - 1] == Activity("login", 10, today);
      if recorded.Fail? {
        return Fail(recorded.failure);
      }
      return Ok(Claimed(10));
    }

    /** mark_notifications_read. */
    method MarkNotificationsRead() returns (res: Response<()>)
      modifies inbox
      ensures res.Ok?
      ensures |inbox.messages| == |old(inbox.messages)|
      ensures forall k :: 0 <= k < |inbox.messages| ==>
        inbox.messages[k] == old(inbox.messages)[k].(read := true)
    {
      inbox.MarkAllRead();
      return Ok(());
    }
  }

  // ---------------------------------------------------------------------------
  // Behaviours of the views as written

  /** redeem_voucher never checks that the quantity is positive: redeeming -1 of a 500-point
      voucher with 3 in stock succeeds for a new user, credits 500 points to the 10000-point
      profile and puts one more unit in stock. */
  method NegativeRedeemQuantity() returns (res: Response<Receipt>, balance: int, stock: int)
    ensures res.Ok? && balance == 10500 && stock == 4
  {
    var inbox := new Notices.Inbox();
    var voucher := Voucher(1, "Coffee", "Food", "", "", 500, 3, false, true, 0);
    var store := new Store([], map[1 := voucher], inbox);
    var draws := ["AAAAAAAA"];
    assert IsCouponShape(draws[0]) && draws[0] !in CodesOf(store.redemptions);
    res := store.RedeemVoucher(Some(1), -1, 0, None, draws);
    balance := store.profile.value;
    stock := store.vouchers[1].quantityAvailable;
  }

  /** add_tier_activity passes the points on unchecked, so a new user who adds an activity
      worth -50 points is left with a balance of -50. */
  method NegativeActivityPoints() returns (res: Response<()>, balance: int)
    ensures res.Ok? && balance == -50
  {
    var inbox := new Notices.Inbox();
    var tiers := Tiers.PopulatedTiers();
    Tiers.TierAtWellFormed(tiers, 1);
    var store := new Store(tiers, map[], inbox);
    res := store.AddTierActivity(Some("bonus"), -50, 0, 0);
    balance := store.profile.value;
  }
}
