/** The tier engine of accounts/models.py: the RewardTier table keyed by tier_level, the
    read-only progress figures of a UserTier, and check_tier_upgrade, which climbs one level
    per recursive call and saves the row each time it climbs. */
module Tiers {
  import opened Text
  import Notices

  datatype RewardTier = RewardTier(name: string, level: int, minPoints: int)

  /** The persisted UserTier row: the level of current_tier, the lifetime counter, the points
      earned in the current tier and the time of the last upgrade (integer seconds). */
  datatype TierRow = TierRow(level: int, totalPointsEarned: int, tierPoints: int, lastTierUpgrade: Option<int>)

  /** `RewardTier.objects.filter(tier_level=level).first()`. */
  function TierAt(table: seq<RewardTier>, level: int): (r: Option<RewardTier>)
    ensures r.Some? ==> r.value in table && r.value.level == level
  {
    if table == [] then None
    else if table[0].level == level then Some(table[0])
    else TierAt(table[1..], level)
  }

  /** The lookup finds nothing exactly when no tier has that level. */
  lemma {:induction false} TierAtNone(table: seq<RewardTier>, level: int)
    ensures TierAt(table, level).None? <==> forall i :: 0 <= i < |table| ==> table[i].level != level
  {
    if table != [] {
      TierAtNone(table[1..], level);
      assert forall i :: 1 <= i < |table| ==> table[i] == table[1..][i - 1];
    }
  }

  /** get_next_tier: the tier exactly one level up, if the table has one. */
  function NextTier(table: seq<RewardTier>, tier: RewardTier): (r: Option<RewardTier>)
    ensures r.Some? ==> r.value in table && r.value.level == tier.level + 1
  {
    TierAt(table, tier.level + 1)
  }

  // ---------------------------------------------------------------------------
  // Read-only figures

  /** calculate_tier_progress in exact rationals. None stands for the ZeroDivisionError the
      source raises when the next tier has the same minimum as the current one and has not
      been reached. */
  function TierProgress(table: seq<RewardTier>, current: RewardTier, total: int): (p: Option<real>)
    ensures NextTier(table, current).None? ==> p == Some(100.0)
    ensures NextTier(table, current).Some? && total >= NextTier(table, current).value.minPoints ==> p == Some(100.0)
    ensures p.None? <==>
      (NextTier(table, current).Some? && total < NextTier(table, current).value.minPoints
       && NextTier(table, current).value.minPoints == current.minPoints)
    ensures p.Some? ==> 0.0 <= p.value <= 100.0
    ensures NextTier(table, current).Some? && current.minPoints <= total < NextTier(table, current).value.minPoints ==>
      p == Some((total - current.minPoints) as real / (NextTier(table, current).value.minPoints - current.minPoints) as real * 100.0)
    ensures NextTier(table, current).Some? && total <= current.minPoints < NextTier(table, current).value.minPoints ==>
      p == Some(0.0)
  {
    match NextTier(table, current)
    case None => Some(100.0)
    case Some(next) =>
      if total >= next.minPoints then Some(100.0)
      else if next.minPoints == current.minPoints then None
      else
        var ratio := (total - current.minPoints) as real / (next.minPoints - current.minPoints) as real * 100.0;
        Some(Clamp(ratio))
  }

  /** `max(0, min(100, x))`. */
  function Clamp(x: real): (r: real)
    ensures 0.0 <= r <= 100.0
    ensures 0.0 <= x <= 100.0 ==> r == x
  {
    if x < 0.0 then 0.0 else if x > 100.0 then 100.0 else x
  }

  /** get_points_to_next_tier. */
  function PointsToNextTier(table: seq<RewardTier>, current: RewardTier, total: int): (n: nat)
    ensures NextTier(table, current).None? ==> n == 0
    ensures NextTier(table, current).Some? ==>
      n + total >= NextTier(table, current).value.minPoints
      && (n == 0 || n + total == NextTier(table, current).value.minPoints)
  {
    match NextTier(table, current)
    case None => 0
    case Some(next) => if next.minPoints - total > 0 then next.minPoints - total else 0
  }

  /** Progress reads 100 exactly when no points are left to the next tier. */
  lemma ProgressCompleteIffNoPointsLeft(table: seq<RewardTier>, current: RewardTier, total: int)
    requires NextTier(table, current).Some? ==> NextTier(table, current).value.minPoints > current.minPoints
    ensures TierProgress(table, current, total) == Some(100.0) <==> PointsToNextTier(table, current, total) == 0
  {
    match NextTier(table, current)
    case None =>
    case Some(next) =>
      if total < next.minPoints {
        ShareBelowWhole((total - current.minPoints) as real, (next.minPoints - current.minPoints) as real);
      }
  }

  lemma ShareBelowWhole(x: real, d: real)
    requires 0.0 < d && x < d
    ensures x / d * 100.0 < 100.0
  {
    var q := x / d;
    assert q * d == x;
  }

  // ---------------------------------------------------------------------------
  // Upgrades

  /** The number of tiers whose level is above `level`; it bounds the climb. */
  function TiersAbove(table: seq<RewardTier>, level: int): nat {
    if table == [] then 0 else (if table[0].level > level then 1 else 0) + TiersAbove(table[1..], level)
  }

  lemma {:induction false} TiersAboveStep(table: seq<RewardTier>, level: int)
    requires TierAt(table, level + 1).Some?
    ensures TiersAbove(table, level + 1) < TiersAbove(table, level)
  {
    if table[0].level != level + 1 {
      TiersAboveStep(table[1..], level);
    } else {
      TiersAboveMonotone(table[1..], level);
    }
  }

  lemma {:induction false} TiersAboveMonotone(table: seq<RewardTier>, level: int)
    ensures TiersAbove(table, level + 1) <= TiersAbove(table, level)
  {
    if table != [] {
      TiersAboveMonotone(table[1..], level);
    }
  }

  /** The step check_tier_upgrade takes when the next tier is reached (models.py:266-269). */
  function Stepped(row: TierRow, next: RewardTier, now: int): (r: TierRow)
    ensures r.totalPointsEarned == row.totalPointsEarned
  {
    TierRow(next.level, row.totalPointsEarned, row.totalPointsEarned - next.minPoints, Some(now))
  }

  /** The row as check_tier_upgrade leaves it: while the next tier exists and the lifetime
      total reaches its minimum, move up one level, set tier_points to the surplus over that
      minimum and stamp the upgrade time. */
  function AfterCheck(table: seq<RewardTier>, row: TierRow, now: int): (r: TierRow)
    ensures r.totalPointsEarned == row.totalPointsEarned
    ensures r.level >= row.level
    decreases TiersAbove(table, row.level)
  {
    match TierAt(table, row.level + 1)
    case None => row
    case Some(next) =>
      if row.totalPointsEarned >= next.minPoints then
        TiersAboveStep(table, row.level);
        AfterCheck(table, Stepped(row, next, now), now)
      else row
  }

  /** The tiers a member at `level` with lifetime total `total` enters, in order; each one
      yields a notification. */
  function Climb(table: seq<RewardTier>, level: int, total: int): seq<RewardTier>
    decreases TiersAbove(table, level)
  {
    match TierAt(table, level + 1)
    case None => []
    case Some(next) =>
      if total >= next.minPoints then
        TiersAboveStep(table, level);
        [next] + Climb(table, next.level, total)
      else []
  }

  function UpgradeNotices(tiers: seq<RewardTier>): (r: seq<Notices.Notification>)
    ensures |r| == |tiers|
  {
    if tiers == [] then [] else [Notices.Notification(Notices.TierUpgraded(tiers[0].name), false)] + UpgradeNotices(tiers[1..])
  }

  /** No further upgrade applies: the table has no next level, or the total is below its minimum. */
  predicate Settled(table: seq<RewardTier>, row: TierRow) {
    match TierAt(table, row.level + 1)
    case None => true
    case Some(next) => row.totalPointsEarned < next.minPoints
  }

  /** A climb is the first step followed by the climb from the stepped row. */
  lemma StepUnfold(table: seq<RewardTier>, row: TierRow, now: int)
    requires TierAt(table, row.level + 1).Some?
    requires row.totalPointsEarned >= TierAt(table, row.level + 1).value.minPoints
    ensures var next := TierAt(table, row.level + 1).value;
      && AfterCheck(table, row, now) == AfterCheck(table, Stepped(row, next, now), now)
      && Climb(table, row.level, row.totalPointsEarned) == [next] + Climb(table, next.level, row.totalPointsEarned)
      && TiersAbove(table, next.level) < TiersAbove(table, row.level)
  {
    TiersAboveStep(table, row.level);
  }

  /** When the next tier is missing or not reached, check_tier_upgrade changes nothing. */
  lemma NoUpgrade(table: seq<RewardTier>, row: TierRow, now: int)
    requires TierAt(table, row.level + 1).None? || row.totalPointsEarned < TierAt(table, row.level + 1).value.minPoints
    ensures AfterCheck(table, row, now) == row
    ensures Climb(table, row.level, row.totalPointsEarned) == []
  {
  }

  /** One step of check_tier_upgrade, stated for the recursive method. */
  lemma UpgradeStep(table: seq<RewardTier>, row: TierRow, now: int, next: RewardTier)
    requires TierAt(table, row.level + 1) == Some(next) && row.totalPointsEarned >= next.minPoints
    ensures AfterCheck(table, row, now) == AfterCheck(table, Stepped(row, next, now), now)
    ensures Climb(table, row.level, row.totalPointsEarned) == [next] + Climb(table, next.level, row.totalPointsEarned)
    ensures UpgradeNotices(Climb(table, row.level, row.totalPointsEarned))
         == [Notices.Notification(Notices.TierUpgraded(next.name), false)] + UpgradeNotices(Climb(table, next.level, row.totalPointsEarned))
    ensures Climb(table, next.level, row.totalPointsEarned) == [] ==> AfterCheck(table, Stepped(row, next, now), now) == Stepped(row, next, now)
    ensures TiersAbove(table, next.level) < TiersAbove(table, row.level)
  {
    StepUnfold(table, row, now);
    AfterCheckResult(table, Stepped(row, next, now), now);
    var rest := Climb(table, next.level, row.totalPointsEarned);
    assert ([next] + rest)[1..] == rest;
  }

  /** A climb that enters no tier leaves the row exactly as it was, and one that does ends
      with the last tier entered, tier_points equal to the surplus over its minimum and the
      upgrade stamped. */
  lemma {:induction false} AfterCheckResult(table: seq<RewardTier>, row: TierRow, now: int)
    ensures var c := Climb(table, row.level, row.totalPointsEarned);
      var r := AfterCheck(table, row, now);
      && (c == [] <==> r == row)
      && (c != [] ==> r == TierRow(c[|c| - 1].level, row.totalPointsEarned, row.totalPointsEarned - c[|c| - 1].minPoints, Some(now)))
    decreases TiersAbove(table, row.level)
  {
    var t := TierAt(table, row.level + 1);
    if t.Some? && row.totalPointsEarned >= t.value.minPoints {
      var next := t.value;
      var st := Stepped(row, next, now);
      StepUnfold(table, row, now);
      AfterCheckResult(table, st, now);
      var c := Climb(table, row.level, row.totalPointsEarned);
      var rest := Climb(table, st.level, st.totalPointsEarned);
      assert c == [next] + rest;
      assert c[|c| - 1] == if rest == [] then next else rest[|rest| - 1];
      assert next.level == row.level + 1;
      assert AfterCheck(table, row, now).level == c[|c| - 1].level;
      ClimbLevels(table, row.level, row.totalPointsEarned);
      assert c[|c| - 1].level == row.level + |c|;
    }
  }

  /** The climb enters consecutive levels, each of whose minimum the lifetime total reaches. */
  lemma {:induction false} ClimbLevels(table: seq<RewardTier>, level: int, total: int)
    ensures forall i :: 0 <= i < |Climb(table, level, total)| ==>
      && Climb(table, level, total)[i] in table
      && Climb(table, level, total)[i].level == level + 1 + i
      && Climb(table, level, total)[i].minPoints <= total
    decreases TiersAbove(table, level)
  {
    var t := TierAt(table, level + 1);
    if t.Some? && total >= t.value.minPoints {
      TiersAboveStep(table, level);
      ClimbLevels(table, t.value.level, total);
      var c := Climb(table, level, total);
      var rest := Climb(table, t.value.level, total);
      assert c == [t.value] + rest;
      forall i | 0 <= i < |c|
        ensures c[i] in table && c[i].level == level + 1 + i && c[i].minPoints <= total
      {
        if i > 0 {
          assert c[i] == rest[i - 1];
        }
      }
    }
  }

  /** After check_tier_upgrade no further upgrade applies. */
  lemma {:induction false} AfterCheckSettled(table: seq<RewardTier>, row: TierRow, now: int)
    ensures Settled(table, AfterCheck(table, row, now))
    decreases TiersAbove(table, row.level)
  {
    var t := TierAt(table, row.level + 1);
    if t.Some? && row.totalPointsEarned >= t.value.minPoints {
      StepUnfold(table, row, now);
      AfterCheckSettled(table, Stepped(row, t.value, now), now);
    }
  }

  /** A settled row enters no tier. */
  lemma SettledClimbsNothing(table: seq<RewardTier>, row: TierRow)
    requires Settled(table, row)
    ensures Climb(table, row.level, row.totalPointsEarned) == []
  {
  }

  /** Running check_tier_upgrade a second time with no credit in between changes nothing and
      creates no notification. */
  lemma SecondCheckIsNoOp(table: seq<RewardTier>, row: TierRow, now: int, later: int)
    ensures var r := AfterCheck(table, row, now);
      AfterCheck(table, r, later) == r && Climb(table, r.level, r.totalPointsEarned) == []
  {
    var r := AfterCheck(table, row, now);
    AfterCheckSettled(table, row, now);
    SettledClimbsNothing(table, r);
    AfterCheckResult(table, r, later);
  }

  /** A table as populate_tiers lays it out: levels 1..N in order, minimums strictly increasing. */
  predicate WellFormed(table: seq<RewardTier>) {
    && (forall i :: 0 <= i < |table| ==> table[i].level == i + 1)
    && (forall i, j :: 0 <= i < j < |table| ==> table[i].minPoints < table[j].minPoints)
  }

  lemma TierAtWellFormed(table: seq<RewardTier>, level: int)
    requires WellFormed(table)
    ensures 1 <= level <= |table| ==> TierAt(table, level) == Some(table[level - 1])
    ensures !(1 <= level <= |table|) ==> TierAt(table, level).None?
  {
    TierAtNone(table, level);
    if 1 <= level <= |table| {
      assert table[level - 1].level == level;
      var t := TierAt(table, level).value;
      var k :| 0 <= k < |table| && table[k] == t;
    }
  }

  /** On a well-formed table, one check lands on the highest tier whose minimum the lifetime
      total reaches, however many levels that skips. */
  lemma {:induction false} CheckReachesHighestQualifyingTier(table: seq<RewardTier>, row: TierRow, now: int)
    requires WellFormed(table)
    requires 1 <= row.level <= |table|
    requires table[row.level - 1].minPoints <= row.totalPointsEarned
    ensures var r := AfterCheck(table, row, now);
      && 1 <= r.level <= |table|
      && forall i :: 0 <= i < |table| ==> (table[i].minPoints <= row.totalPointsEarned <==> table[i].level <= r.level)
    decreases |table| - row.level
  {
    TierAtWellFormed(table, row.level + 1);
    if row.level < |table| && row.totalPointsEarned >= table[row.level].minPoints {
      StepUnfold(table, row, now);
      CheckReachesHighestQualifyingTier(table, Stepped(row, table[row.level], now), now);
    } else {
      forall i | 0 <= i < |table|
        ensures table[i].minPoints <= row.totalPointsEarned <==> table[i].level <= row.level
      {
        if i >= row.level {
          assert table[row.level].minPoints <= table[i].minPoints;
        } else if i < row.level - 1 {
          assert table[i].minPoints < table[row.level - 1].minPoints;
        }
      }
    }
  }

  /** The tier table of accounts/management/commands/populate_tiers.py. */
  function PopulatedTiers(): (t: seq<RewardTier>)
    ensures WellFormed(t)
  {
    [ RewardTier("bronze", 1, 0), RewardTier("silver", 2, 1000),
      RewardTier("gold", 3, 5000), RewardTier("platinum", 4, 15000) ]
  }

  /** A bronze member whose lifetime total reaches 6000 goes straight to gold in one check,
      with 1000 points in the new tier and one notification each for silver and gold. */
  lemma BronzeToGoldExample(now: int)
    ensures AfterCheck(PopulatedTiers(), TierRow(1, 6000, 6000, None), now) == TierRow(3, 6000, 1000, Some(now))
    ensures Climb(PopulatedTiers(), 1, 6000) == [PopulatedTiers()[1], PopulatedTiers()[2]]
  {
    var t := PopulatedTiers();
    TierAtWellFormed(t, 2);
    TierAtWellFormed(t, 3);
    TierAtWellFormed(t, 4);
    StepUnfold(t, TierRow(1, 6000, 6000, None), now);
    StepUnfold(t, TierRow(2, 6000, 5000, Some(now)), now);
  }

  // ---------------------------------------------------------------------------
  // The UserTier model instance

  /** A UserTier instance as the ORM loads it for one request: its fields, and the row the
      database holds, which changes only when the instance is saved. */
  class UserTier {
    var level: int
    var totalPointsEarned: int
    var tierPoints: int
    var lastTierUpgrade: Option<int>
    var stored: TierRow

    function Row(): TierRow
      reads this
    {
      TierRow(level, totalPointsEarned, tierPoints, lastTierUpgrade)
    }

    constructor Load(row: TierRow)
      ensures Row() == row && stored == row
    {
      level, totalPointsEarned, tierPoints, lastTierUpgrade := row.level, row.totalPointsEarned, row.tierPoints, row.lastTierUpgrade;
      stored := row;
    }

    /** `user_tier.total_points_earned += p; user_tier.tier_points += p` (models.py:378-379):
        the instance changes, the stored row does not. */
    method Credit(points: int)
      modifies this
      ensures Row() == old(Row()).(totalPointsEarned := old(totalPointsEarned) + points, tierPoints := old(tierPoints) + points)
      ensures stored == old(stored)
    {
      totalPointsEarned := totalPointsEarned + points;
      tierPoints := tierPoints + points;
    }

    method Save()
      modifies this
      ensures stored == Row() && Row() == old(Row())
    {
      stored := Row();
    }

    /** check_tier_upgrade: the recursive climb. The row is saved on each step up, so the
        database holds the climbed row after any upgrade and is untouched otherwise. */
    method CheckTierUpgrade(table: seq<RewardTier>, now: int, inbox: Notices.Inbox) returns (upgraded: bool)
      modifies this, inbox
      ensures Row() == AfterCheck(table, old(Row()), now)
      ensures upgraded <==> Climb(table, old(level), old(totalPointsEarned)) != []
      ensures stored == if upgraded then Row() else old(stored)
      ensures inbox.messages == old(inbox.messages) + UpgradeNotices(Climb(table, old(level), old(totalPointsEarned)))
      decreases TiersAbove(table, level)
    {
      var next := TierAt(table, level + 1);
      if next.None? || totalPointsEarned < next.value.minPoints {
        NoUpgrade(table, Row(), now);
        return false;
      }
      ghost var before := Row();
      ghost var msgs := inbox.messages;
      UpgradeStep(table, before, now, next.value);
      tierPoints := totalPointsEarned - next.value.minPoints;
      level := next.value.level;
      lastTierUpgrade := Some(now);
      Save();
      assert Row() == Stepped(before, next.value, now) == stored;
      inbox.Create(Notices.TierUpgraded(next.value.name));
      assert inbox.messages == msgs + [Notices.Notification(Notices.TierUpgraded(next.value.name), false)];
      var further := CheckTierUpgrade(table, now, inbox);
      assert further <==> Climb(table, next.value.level, before.totalPointsEarned) != [];
      upgraded := true;
    }
  }
}
