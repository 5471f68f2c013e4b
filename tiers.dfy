/** Rank tiers by MMR.  The bot has two tables: the `stats` command's, whose
    neighbouring bands share their bounds, and the one `change_player_roles`
    uses, whose bands start one point above the previous band's top. */
module Tiers {
  import opened Common

  datatype Tier = Iron | Bronze | Silver | Gold | Platinum | Diamond | Master | Warrior

  /** One row of a table: a tier and its optional inclusive bounds. */
  datatype Band = Band(tier: Tier, lower: Option<int>, upper: Option<int>)

  const StatsBands: seq<Band> := [
    Band(Iron, None, Some(850)),
    Band(Bronze, Some(850), Some(950)),
    Band(Silver, Some(950), Some(1050)),
    Band(Gold, Some(1050), Some(1150)),
    Band(Platinum, Some(1150), Some(1250)),
    Band(Diamond, Some(1250), Some(1350)),
    Band(Master, Some(1350), Some(1450)),
    Band(Warrior, Some(1450), None)
  ]

  const RoleBands: seq<Band> := [
    Band(Iron, None, Some(850)),
    Band(Bronze, Some(851), Some(950)),
    Band(Silver, Some(951), Some(1050)),
    Band(Gold, Some(1051), Some(1150)),
    Band(Platinum, Some(1151), Some(1250)),
    Band(Diamond, Some(1251), Some(1350)),
    Band(Master, Some(1351), Some(1450)),
    Band(Warrior, Some(1451), None)
  ]

  /** The `stats` test: a missing bound is no constraint. */
  predicate InStatsBand(b: Band, mmr: real)
  {
    (b.lower.None? || mmr >= b.lower.value as real) && (b.upper.None? || mmr <= b.upper.value as real)
  }

  /** The `change_player_roles` test, case by case: open below, open above, or closed. */
  predicate InRoleBand(b: Band, mmr: real)
  {
    if b.lower.None? && b.upper.Some? then mmr <= b.upper.value as real
    else if b.upper.None? && b.lower.Some? then mmr >= b.lower.value as real
    else b.lower.Some? && b.upper.Some? && b.lower.value as real <= mmr <= b.upper.value as real
  }

  /** The loop with `break`: the tier of the first band whose test passes. */
  function FirstStatsBand(bands: seq<Band>, mmr: real): (r: Option<Tier>)
  {
    if bands == [] then None
    else if InStatsBand(bands[0], mmr) then Some(bands[0].tier)
    else FirstStatsBand(bands[1..], mmr)
  }

  function FirstRoleBand(bands: seq<Band>, mmr: real): (r: Option<Tier>)
  {
    if bands == [] then None
    else if InRoleBand(bands[0], mmr) then Some(bands[0].tier)
    else FirstRoleBand(bands[1..], mmr)
  }

  /** Tier shown by the `stats` command. */
  function StatsTier(mmr: real): Option<Tier>
  {
    FirstStatsBand(StatsBands, mmr)
  }

  /** Ranked role chosen by `change_player_roles`. */
  function RoleTier(mmr: real): Option<Tier>
  {
    FirstRoleBand(RoleBands, mmr)
  }

  /** Reference reading of the tiers: each upper bound belongs to the lower tier. */
  function TierByThresholds(mmr: real): Tier
  {
    if mmr <= 850.0 then Iron
    else if mmr <= 950.0 then Bronze
    else if mmr <= 1050.0 then Silver
    else if mmr <= 1150.0 then Gold
    else if mmr <= 1250.0 then Platinum
    else if mmr <= 1350.0 then Diamond
    else if mmr <= 1450.0 then Master
    else Warrior
  }

  /** The `stats` table gives every MMR a tier; shared bounds go to the lower tier
      because the first matching band wins. */
  lemma StatsTierMatchesThresholds(mmr: real)
    ensures StatsTier(mmr) == Some(TierByThresholds(mmr))
  {
    var b := StatsBands;
    if mmr <= 850.0 {
      assert InStatsBand(b[0], mmr);
    } else {
      assert !InStatsBand(b[0], mmr);
      assert FirstStatsBand(b, mmr) == FirstStatsBand(b[1..], mmr);
      if mmr <= 950.0 {
        assert InStatsBand(b[1..][0], mmr);
      } else {
        assert !InStatsBand(b[1..][0], mmr);
        assert FirstStatsBand(b[1..], mmr) == FirstStatsBand(b[1..][1..], mmr);
        if mmr <= 1050.0 {
          assert InStatsBand(b[1..][1..][0], mmr);
        } else {
          assert !InStatsBand(b[1..][1..][0], mmr);
          assert FirstStatsBand(b[1..][1..], mmr) == FirstStatsBand(b[1..][1..][1..], mmr);
          if mmr <= 1150.0 {
            assert InStatsBand(b[1..][1..][1..][0], mmr);
          } else {
            assert !InStatsBand(b[1..][1..][1..][0], mmr);
            assert FirstStatsBand(b[1..][1..][1..], mmr) == FirstStatsBand(b[1..][1..][1..][1..], mmr);
            if mmr <= 1250.0 {
              assert InStatsBand(b[1..][1..][1..][1..][0], mmr);
            } else {
              assert !InStatsBand(b[1..][1..][1..][1..][0], mmr);
              assert FirstStatsBand(b[1..][1..][1..][1..], mmr) == FirstStatsBand(b[1..][1..][1..][1..][1..], mmr);
              if mmr <= 1350.0 {
                assert InStatsBand(b[1..][1..][1..][1..][1..][0], mmr);
              } else {
                assert !InStatsBand(b[1..][1..][1..][1..][1..][0], mmr);
                assert FirstStatsBand(b[1..][1..][1..][1..][1..], mmr) == FirstStatsBand(b[1..][1..][1..][1..][1..][1..], mmr);
                if mmr <= 1450.0 {
                  assert InStatsBand(b[1..][1..][1..][1..][1..][1..][0], mmr);
                } else {
                  assert !InStatsBand(b[1..][1..][1..][1..][1..][1..][0], mmr);
                  assert FirstStatsBand(b[1..][1..][1..][1..][1..][1..], mmr) == FirstStatsBand(b[1..][1..][1..][1..][1..][1..][1..], mmr);
                  assert InStatsBand(b[1..][1..][1..][1..][1..][1..][1..][0], mmr);
                }
              }
            }
          }
        }
      }
    }
  }

  /** On whole-number MMR the two tables agree. */
  lemma RoleTierMatchesOnIntegers(n: int)
    ensures RoleTier(n as real) == Some(TierByThresholds(n as real))
  {
    var b := RoleBands;
    var mmr := n as real;
    if mmr <= 850.0 {
      assert InRoleBand(b[0], mmr);
    } else {
      assert !InRoleBand(b[0], mmr);
      assert FirstRoleBand(b, mmr) == FirstRoleBand(b[1..], mmr);
      if mmr <= 950.0 {
        assert InRoleBand(b[1..][0], mmr);
      } else {
        assert !InRoleBand(b[1..][0], mmr);
        assert FirstRoleBand(b[1..], mmr) == FirstRoleBand(b[1..][1..], mmr);
        if mmr <= 1050.0 {
          assert InRoleBand(b[1..][1..][0], mmr);
        } else {
          assert !InRoleBand(b[1..][1..][0], mmr);
          assert FirstRoleBand(b[1..][1..], mmr) == FirstRoleBand(b[1..][1..][1..], mmr);
          if mmr <= 1150.0 {
            assert InRoleBand(b[1..][1..][1..][0], mmr);
          } else {
            assert !InRoleBand(b[1..][1..][1..][0], mmr);
            assert FirstRoleBand(b[1..][1..][1..], mmr) == FirstRoleBand(b[1..][1..][1..][1..], mmr);
            if mmr <= 1250.0 {
              assert InRoleBand(b[1..][1..][1..][1..][0], mmr);
            } else {
              assert !InRoleBand(b[1..][1..][1..][1..][0], mmr);
              assert FirstRoleBand(b[1..][1..][1..][1..], mmr) == FirstRoleBand(b[1..][1..][1..][1..][1..], mmr);
              if mmr <= 1350.0 {
                assert InRoleBand(b[1..][1..][1..][1..][1..][0], mmr);
              } else {
                assert !InRoleBand(b[1..][1..][1..][1..][1..][0], mmr);
                assert FirstRoleBand(b[1..][1..][1..][1..][1..], mmr) == FirstRoleBand(b[1..][1..][1..][1..][1..][1..], mmr);
                if mmr <= 1450.0 {
                  assert InRoleBand(b[1..][1..][1..][1..][1..][1..][0], mmr);
                } else {
                  assert !InRoleBand(b[1..][1..][1..][1..][1..][1..][0], mmr);
                  assert FirstRoleBand(b[1..][1..][1..][1..][1..][1..], mmr) == FirstRoleBand(b[1..][1..][1..][1..][1..][1..][1..], mmr);
                  assert InRoleBand(b[1..][1..][1..][1..][1..][1..][1..][0], mmr);
                }
              }
            }
          }
        }
      }
    }
  }

  /** Between two role bands (for example 850.5) `change_player_roles` finds no tier. */
  lemma RoleTierGap()
    ensures RoleTier(850.5) == None
    ensures StatsTier(850.5) == Some(Bronze)
  {
    StatsTierMatchesThresholds(850.5);
    var b := RoleBands;
    assert FirstRoleBand(b, 850.5) == FirstRoleBand(b[1..], 850.5);
    assert FirstRoleBand(b[1..], 850.5) == FirstRoleBand(b[1..][1..], 850.5);
    assert FirstRoleBand(b[1..][1..], 850.5) == FirstRoleBand(b[1..][1..][1..], 850.5);
    assert FirstRoleBand(b[1..][1..][1..], 850.5) == FirstRoleBand(b[1..][1..][1..][1..], 850.5);
    assert FirstRoleBand(b[1..][1..][1..][1..], 850.5) == FirstRoleBand(b[1..][1..][1..][1..][1..], 850.5);
    assert FirstRoleBand(b[1..][1..][1..][1..][1..], 850.5) == FirstRoleBand(b[1..][1..][1..][1..][1..][1..], 850.5);
    assert FirstRoleBand(b[1..][1..][1..][1..][1..][1..], 850.5) == FirstRoleBand(b[1..][1..][1..][1..][1..][1..][1..], 850.5);
    assert FirstRoleBand(b[1..][1..][1..][1..][1..][1..][1..], 850.5) == FirstRoleBand(b[1..][1..][1..][1..][1..][1..][1..][1..], 850.5);
    assert b[1..][1..][1..][1..][1..][1..][1..][1..] == [];
  }
}
