/** The stand-alone copy of the IV calculator used as a test script.  Its
    formulas and searches are the same as `MortyBot`'s (module MortyIv); only its
    `calculate_iv` differs: it has no guard for an unknown Morty number. */
module TestIv {
  import opened Common
  import opened MortyIv

  /** calculate_iv: the (HP, attack, defence, speed) estimates, each against its own
      base stat.  Python raises a TypeError when the lookup fails, so the model asks
      its callers for a known Morty. */
  method CalculateIv(mortyNumber: int, level: int, hp: int, attack: int, defence: int, spd: int, ev: nat,
                     lookup: int -> Option<BaseStats>)
    returns (rep: IvReport)
    requires lookup(mortyNumber).Some?
    ensures ReportFor(rep, lookup(mortyNumber).value, level, hp, attack, defence, spd, ev)
  {
    var morty := lookup(mortyNumber).value;
    var hpIv := CalculateHpIv(hp, morty.hp, level, ev);
    var attackIv := CalculateStatIv(attack, morty.atk, level, ev);
    var defenceIv := CalculateStatIv(defence, morty.def, level, ev);
    var spdIv := CalculateStatIv(spd, morty.spd, level, ev);
    rep := IvReport(hpIv, attackIv, defenceIv, spdIv);
  }

  /** For a known Morty the script and the bot report the same four estimates. */
  lemma SameReportAsBot(rep1: IvReport, rep2: IvReport, base: BaseStats, level: int,
                        hp: int, attack: int, defence: int, spd: int, ev: nat)
    requires ReportFor(rep1, base, level, hp, attack, defence, spd, ev)
    requires ReportFor(rep2, base, level, hp, attack, defence, spd, ev)
    ensures rep1 == rep2
  {
    SummaryUnique(rep1.hp, rep2.hp, MatchingIvs(HpStat, hp, base.hp, level, ev));
    SummaryUnique(rep1.attack, rep2.attack, MatchingIvs(OtherStat, attack, base.atk, level, ev));
    SummaryUnique(rep1.defence, rep2.defence, MatchingIvs(OtherStat, defence, base.def, level, ev));
    SummaryUnique(rep1.speed, rep2.speed, MatchingIvs(OtherStat, spd, base.spd, level, ev));
  }
}
