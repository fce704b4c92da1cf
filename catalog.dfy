/** The catalogue records of accounts/models.py and the pure views over them: vouchers, cart
    items and their point total, redemptions and their coupon codes, a promotion's active days,
    and the filtered, ordered voucher list of accounts/views.py. */
module Catalog {
  import opened Text
  import Sorting

  /** A Voucher row; `createdAt` is the creation time in seconds. */
  datatype Voucher = Voucher(
    id: int,
    title: string,
    category: string,
    description: string,
    terms: string,
    points: int,
    quantityAvailable: int,
    featured: bool,
    isActive: bool,
    createdAt: int)

  datatype CartItem = CartItem(id: int, voucherId: int, quantity: int)

  datatype Status = Pending | Completed | Failed | Cancelled

  datatype Redemption = Redemption(
    voucherId: int,
    quantity: int,
    pointsUsed: int,
    couponCode: string,
    status: Status,
    pdfUrl: Option<string>,
    createdAt: int,
    completedAt: Option<int>)

  // ---------------------------------------------------------------------------
  // Cart total

  /** Every item refers to a voucher of the table. */
  predicate ItemsPriced(items: seq<CartItem>, vouchers: map<int, Voucher>) {
    forall i :: 0 <= i < |items| ==> items[i].voucherId in vouchers
  }

  function LineTotal(item: CartItem, vouchers: map<int, Voucher>): int
    requires item.voucherId in vouchers
  {
    item.quantity * vouchers[item.voucherId].points
  }

  /** Cart.total_points: the sum of quantity times voucher points over the items, 0 for none. */
  function CartTotal(items: seq<CartItem>, vouchers: map<int, Voucher>): (total: int)
    requires ItemsPriced(items, vouchers)
    ensures items == [] ==> total == 0
    ensures (forall i :: 0 <= i < |items| ==> items[i].quantity >= 0 && vouchers[items[i].voucherId].points >= 0) ==> total >= 0
  {
    if items == [] then 0
    else
      assert ItemsPriced(items[..|items| - 1], vouchers);
      CartTotal(items[..|items| - 1], vouchers) + LineTotal(items[|items| - 1], vouchers)
  }

  /** The total of two carts' items is the sum of their totals. */
  lemma {:induction false} CartTotalAppend(a: seq<CartItem>, b: seq<CartItem>, vouchers: map<int, Voucher>)
    requires ItemsPriced(a, vouchers) && ItemsPriced(b, vouchers)
    ensures ItemsPriced(a + b, vouchers)
    ensures CartTotal(a + b, vouchers) == CartTotal(a, vouchers) + CartTotal(b, vouchers)
    decreases |b|
  {
    var ab := a + b;
    assert ItemsPriced(ab, vouchers);
    if b != [] {
      var b' := b[..|b| - 1];
      assert ab[..|ab| - 1] == a + b';
      assert ab[|ab| - 1] == b[|b| - 1];
      assert ItemsPriced(b', vouchers);
      assert CartTotal(ab, vouchers) == CartTotal(a + b', vouchers) + LineTotal(b[|b| - 1], vouchers);
      CartTotalAppend(a, b', vouchers);
    } else {
      assert ab == a;
    }
  }

  /** The total depends only on the points of the vouchers the items name. */
  lemma {:induction false} CartTotalFrame(items: seq<CartItem>, v1: map<int, Voucher>, v2: map<int, Voucher>)
    requires ItemsPriced(items, v1) && ItemsPriced(items, v2)
    requires forall i :: 0 <= i < |items| ==> v1[items[i].voucherId].points == v2[items[i].voucherId].points
    ensures CartTotal(items, v1) == CartTotal(items, v2)
  {
    if items != [] {
      CartTotalFrame(items[..|items| - 1], v1, v2);
    }
  }

  // ---------------------------------------------------------------------------
  // Coupon codes

  predicate IsCouponChar(c: char) {
    'A' <= c <= 'Z' || '0' <= c <= '9'
  }

  /** Eight characters over A-Z and 0-9, the alphabet of generate_coupon_code. */
  predicate IsCouponShape(code: string) {
    |code| == 8 && forall i :: 0 <= i < |code| ==> IsCouponChar(code[i])
  }

  /** The random draws give codes of the generator's shape, and one of them is not yet in use. */
  predicate DrawsYieldFresh(taken: set<string>, draws: seq<string>) {
    && (forall i :: 0 <= i < |draws| ==> IsCouponShape(draws[i]))
    && (exists i :: 0 <= i < |draws| && draws[i] !in taken)
  }

  /** The code generate_coupon_code settles on: the first draw not in use. */
  function FirstFreshDraw(taken: set<string>, draws: seq<string>): (code: string)
    requires DrawsYieldFresh(taken, draws)
    ensures code in draws && code !in taken && IsCouponShape(code)
    decreases |draws|
  {
    if draws[0] !in taken then draws[0]
    else
      assert DrawsYieldFresh(taken, draws[1..]) by {
        var i :| 0 <= i < |draws| && draws[i] !in taken;
        assert draws[1..][i - 1] == draws[i];
      }
      FirstFreshDraw(taken, draws[1..])
  }

  /** A fresh draw preceded only by codes in use is the first fresh draw. */
  lemma {:induction false} FirstFreshDrawAt(taken: set<string>, draws: seq<string>, u: nat)
    requires DrawsYieldFresh(taken, draws)
    requires u < |draws| && draws[u] !in taken
    requires forall j :: 0 <= j < u ==> draws[j] in taken
    ensures FirstFreshDraw(taken, draws) == draws[u]
  {
    if u > 0 {
      assert DrawsYieldFresh(taken, draws[1..]) by {
        assert draws[1..][u - 1] == draws[u];
      }
      FirstFreshDrawAt(taken, draws[1..], u - 1);
    }
  }

  /** generate_coupon_code: draw candidates until one is not the code of an existing redemption.
      `draws` stands for the successive outputs of `random.choices`. */
  method GenerateCouponCode(taken: set<string>, draws: seq<string>) returns (code: string, used: nat)
    requires DrawsYieldFresh(taken, draws)
    ensures used < |draws| && code == draws[used]
    ensures IsCouponShape(code) && code !in taken
    ensures forall j :: 0 <= j < used ==> draws[j] in taken
    ensures code == FirstFreshDraw(taken, draws)
  {
    used := 0;
    while draws[used] in taken
      invariant used < |draws|
      invariant forall j :: 0 <= j < used ==> draws[j] in taken
      invariant exists k :: used <= k < |draws| && draws[k] !in taken
      decreases |draws| - used
    {
      used := used + 1;
    }
    code := draws[used];
    FirstFreshDrawAt(taken, draws, used);
  }

  /** Redemption.save: a code is generated only when the redemption has none; otherwise the
      record is saved as it is. */
  method SaveRedemption(r: Redemption, taken: set<string>, draws: seq<string>) returns (saved: Redemption, used: nat)
    requires r.couponCode == [] ==> DrawsYieldFresh(taken, draws)
    ensures r.couponCode != [] ==> saved == r && used == 0
    ensures r.couponCode == [] ==>
      && used < |draws|
      && saved == r.(couponCode := draws[used])
      && IsCouponShape(saved.couponCode) && saved.couponCode !in taken
      && saved.couponCode == FirstFreshDraw(taken, draws)
  {
    if r.couponCode == [] {
      var code;
      code, used := GenerateCouponCode(taken, draws);
      saved := r.(couponCode := code);
    } else {
      saved, used := r, 0;
    }
  }

  // ---------------------------------------------------------------------------
  // Promotion.active_days

  /** `[x for x in pieces if x != '']`: the non-empty pieces, in their order. */
  function NonEmpty(pieces: seq<string>): (r: seq<string>)
    ensures forall i :: 0 <= i < |r| ==> r[i] != []
    ensures |r| <= |pieces|
  {
    if pieces == [] then []
    else (if pieces[0] == [] then [] else [pieces[0]]) + NonEmpty(pieces[1..])
  }

  /** The filter keeps exactly the non-empty pieces. */
  lemma {:induction false} NonEmptyMembers(pieces: seq<string>)
    ensures forall x :: x in NonEmpty(pieces) <==> x in pieces && x != []
  {
    if pieces != [] {
      NonEmptyMembers(pieces[1..]);
      assert pieces == [pieces[0]] + pieces[1..];
    }
  }

  /** The filter works piece by piece, so it keeps the order of the pieces it keeps. */
  lemma {:induction false} NonEmptyAppend(a: seq<string>, b: seq<string>)
    ensures NonEmpty(a + b) == NonEmpty(a) + NonEmpty(b)
  {
    if a == [] {
      assert a + b == b;
    } else {
      assert (a + b)[0] == a[0];
      assert (a + b)[1..] == a[1..] + b;
      NonEmptyAppend(a[1..], b);
    }
  }

  /** `[int(x) for x in pieces]`, or None when some piece raises ValueError. */
  function ParseAll(pieces: seq<string>): (r: Option<seq<int>>)
    ensures r.Some? ==> |r.value| == |pieces|
  {
    if pieces == [] then Some([])
    else match (ParseInt(pieces[0]), ParseAll(pieces[1..]))
      case (Some(x), Some(xs)) => Some([x] + xs)
      case _ => None
  }

  /** When every piece parses, the list holds their values in order. */
  lemma {:induction false} ParseAllSome(pieces: seq<string>)
    requires ParseAll(pieces).Some?
    ensures forall i :: 0 <= i < |pieces| ==> ParseInt(pieces[i]) == Some(ParseAll(pieces).value[i])
  {
    if pieces != [] {
      var xs := ParseAll(pieces).value;
      ParseAllSome(pieces[1..]);
      forall i | 0 < i < |pieces|
        ensures ParseInt(pieces[i]) == Some(xs[i])
      {
        assert pieces[i] == pieces[1..][i - 1];
        assert xs[i] == ParseAll(pieces[1..]).value[i - 1];
      }
    }
  }

  /** One piece that does not parse spoils the whole list. */
  lemma {:induction false} ParseAllNone(pieces: seq<string>, i: int)
    requires 0 <= i < |pieces| && ParseInt(pieces[i]).None?
    ensures ParseAll(pieces).None?
  {
    if i > 0 {
      assert pieces[1..][i - 1] == pieces[i];
      ParseAllNone(pieces[1..], i - 1);
    }
  }

  /** Promotion.active_day_indices: split on commas, skip empty pieces, convert the rest; any
      piece that is not an integer makes the whole result empty. */
  function ActiveDayIndices(activeDays: string): seq<int> {
    match ParseAll(NonEmpty(Split(activeDays, ',')))
    case Some(days) => days
    case None => []
  }

  /** The result lists, in order, the value of every non-empty piece when all of them parse,
      and is empty as soon as one does not. */
  lemma ActiveDayIndicesSpec(activeDays: string)
    ensures var pieces := NonEmpty(Split(activeDays, ','));
      && ((exists i :: 0 <= i < |pieces| && ParseInt(pieces[i]).None?) ==> ActiveDayIndices(activeDays) == [])
      && ((forall i :: 0 <= i < |pieces| ==> ParseInt(pieces[i]).Some?) ==>
            |ActiveDayIndices(activeDays)| == |pieces|
            && forall i :: 0 <= i < |pieces| ==> ActiveDayIndices(activeDays)[i] == ParseInt(pieces[i]).value)
  {
    var pieces := NonEmpty(Split(activeDays, ','));
    if i :| 0 <= i < |pieces| && ParseInt(pieces[i]).None? {
      ParseAllNone(pieces, i);
    } else if ParseAll(pieces).Some? {
      ParseAllSome(pieces);
    } else {
      assert forall i :: 0 <= i < |pieces| ==> ParseInt(pieces[i]).Some?;
      ParseAllAllParse(pieces);
    }
  }

  lemma {:induction false} ParseAllAllParse(pieces: seq<string>)
    requires forall i :: 0 <= i < |pieces| ==> ParseInt(pieces[i]).Some?
    ensures ParseAll(pieces).Some?
  {
    if pieces != [] {
      assert forall i :: 0 <= i < |pieces| - 1 ==> pieces[1..][i] == pieces[i + 1];
      ParseAllAllParse(pieces[1..]);
    }
  }

  function DayStrings(days: seq<nat>): (r: seq<string>)
    ensures |r| == |days|
    ensures forall i :: 0 <= i < |days| ==> r[i] == NatToString(days[i])
  {
    if days == [] then [] else [NatToString(days[0])] + DayStrings(days[1..])
  }

  /** Writing day indices the way the field stores them ("0,1,2,3,4") and reading them back
      gives the same indices. */
  lemma {:induction false} ActiveDaysRoundTrip(days: seq<nat>)
    requires days != []
    ensures ActiveDayIndices(Join(DayStrings(days), ',')) == days
  {
    var pieces := DayStrings(days);
    forall i | 0 <= i < |pieces| ensures ',' !in pieces[i] {
      assert forall k :: 0 <= k < |pieces[i]| ==> IsDigit(pieces[i][k]);
    }
    SplitJoin(pieces, ',');
    NonEmptyKeeps(pieces);
    ParseAllDays(days);
  }

  lemma {:induction false} NonEmptyKeeps(pieces: seq<string>)
    requires forall i :: 0 <= i < |pieces| ==> pieces[i] != []
    ensures NonEmpty(pieces) == pieces
  {
    if pieces != [] {
      NonEmptyKeeps(pieces[1..]);
    }
  }

  lemma {:induction false} ParseAllDays(days: seq<nat>)
    ensures ParseAll(DayStrings(days)) == Some(days)
  {
    if days != [] {
      ParseIntOfNatToString(days[0]);
      ParseAllDays(days[1..]);
      assert DayStrings(days)[1..] == DayStrings(days[1..]);
      assert days == [days[0]] + days[1..];
    }
  }

  // ---------------------------------------------------------------------------
  // voucher_list

  /** The category filter applies unless the parameter is absent, empty or "All Vouchers". */
  predicate CategoryMatches(v: Voucher, category: Option<string>) {
    category.None? || category.value == [] || category.value == "All Vouchers" || v.category == category.value
  }

  /** `title__icontains=search | description__icontains=search`, when a search is given. */
  predicate SearchMatches(v: Voucher, search: Option<string>) {
    search.None? || search.value == []
    || Contains(Lower(v.title), Lower(search.value))
    || Contains(Lower(v.description), Lower(search.value))
  }

  predicate Listed(v: Voucher, category: Option<string>, search: Option<string>) {
    v.isActive && CategoryMatches(v, category) && SearchMatches(v, search)
  }

  function Selected(table: seq<Voucher>, category: Option<string>, search: Option<string>): (r: seq<Voucher>)
    ensures forall v :: v in r <==> v in table && Listed(v, category, search)
  {
    if table == [] then []
    else (if Listed(table[0], category, search) then [table[0]] else []) + Selected(table[1..], category, search)
  }

  /** `order_by('-featured', '-created_at')`: featured first, then newest first. */
  predicate ListedBefore(a: Voucher, b: Voucher) {
    (a.featured && !b.featured) || (a.featured == b.featured && a.createdAt >= b.createdAt)
  }

  lemma ListedBeforeIsTotalPreorder()
    ensures Sorting.TotalPreorder(ListedBefore)
  {
  }

  function VoucherList(table: seq<Voucher>, category: Option<string>, search: Option<string>): seq<Voucher> {
    Sorting.SortBy(Selected(table, category, search), ListedBefore)
  }

  /** voucher_list returns exactly the active vouchers that pass both filters, each as often as
      the table holds it, featured ones first and newer before older within each group. */
  lemma VoucherListSpec(table: seq<Voucher>, category: Option<string>, search: Option<string>)
    ensures var r := VoucherList(table, category, search);
      && multiset(r) == multiset(Selected(table, category, search))
      && (forall v :: v in r <==> v in table && Listed(v, category, search))
      && Sorting.Sorted(r, ListedBefore)
  {
    var s := Selected(table, category, search);
    ListedBeforeIsTotalPreorder();
    Sorting.SortBySorted(s, ListedBefore);
    forall v ensures v in VoucherList(table, category, search) <==> v in s {
      Sorting.SortByMembers(s, ListedBefore, v);
    }
  }

  /** A featured voucher in the list is never preceded by one that is not featured. */
  lemma FeaturedFirst(table: seq<Voucher>, category: Option<string>, search: Option<string>, i: int, j: int)
    requires var r := VoucherList(table, category, search); 0 <= i < j < |r| && r[j].featured
    ensures VoucherList(table, category, search)[i].featured
  {
    VoucherListSpec(table, category, search);
  }
}
