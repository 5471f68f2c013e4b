/** IV inversion for Pocket Mortys stats (the `MortyBot` and `MortyCog` helpers).

    A Morty's displayed stat is an integer formula of its base stat, its IV
    (0..16), its level and the bonus earned from its EV.  The bot inverts the
    formula by trying all 17 IVs.  Python evaluates `floor(x * (level / 50))` in
    floating point; the model uses the exact value `(x * level) / 50`. */
module MortyIv {
  import opened Common

  const MaxIv: nat := 16
  /** The two EVs tried when the user supplies none: untrained and fully trained. */
  const UntrainedEv: nat := 0
  const FullyTrainedEv: nat := 65535

  /** The largest r with r * r <= n, i.e. floor(sqrt(n)). */
  function Isqrt(n: nat): (r: nat)
    ensures r * r <= n < (r + 1) * (r + 1)
  {
    if n == 0 then 0
    else
      var r := Isqrt(n - 1);
      if (r + 1) * (r + 1) <= n then r + 1 else r
  }

  /** floor(sqrt(ev) / 4) */
  function EvBonus(ev: nat): nat
  {
    Isqrt(ev) / 4
  }

  lemma SquareMono(a: nat, b: nat)
    requires a <= b
    ensures a * a <= b * b
  {
    assert a * a <= a * b <= b * b;
  }

  lemma IsqrtAtLeast(n: nat, k: nat)
    ensures Isqrt(n) >= k <==> k * k <= n
  {
    var s := Isqrt(n);
    if s >= k {
      SquareMono(k, s);
    } else {
      SquareMono(s + 1, k);
    }
  }

  /** The EV bonus is k exactly when 16k^2 <= ev < 16(k+1)^2. */
  lemma EvBonusBand(ev: nat, k: nat)
    ensures EvBonus(ev) == k <==> 16 * k * k <= ev < 16 * (k + 1) * (k + 1)
  {
    IsqrtAtLeast(ev, 4 * k);
    IsqrtAtLeast(ev, 4 * k + 4);
    assert (4 * k) * (4 * k) == 16 * k * k;
    assert (4 * k + 4) * (4 * k + 4) == 16 * (k + 1) * (k + 1);
  }

  /** The two default EVs give bonuses 0 and 63. */
  lemma DefaultEvBonuses()
    ensures EvBonus(UntrainedEv) == 0
    ensures EvBonus(FullyTrainedEv) == 63
  {
    EvBonusBand(UntrainedEv, 0);
    EvBonusBand(FullyTrainedEv, 63);
    assert 16 * 63 * 63 == 63504 && 16 * 64 * 64 == 65536;
  }

  /** calculate_hp */
  function CalculateHp(baseHp: int, iv: int, level: int, ev: nat): int
  {
    (baseHp + iv + EvBonus(ev) + 50) * level / 50 + 10
  }

  /** calculate_stat: no +50 inside, +5 outside */
  function CalculateStat(baseStat: int, iv: int, level: int, ev: nat): int
  {
    (baseStat + iv + EvBonus(ev)) * level / 50 + 5
  }

  datatype StatKind = HpStat | OtherStat

  function StatValue(kind: StatKind, base: int, iv: int, level: int, ev: nat): int
  {
    match kind
    case HpStat => CalculateHp(base, iv, level, ev)
    case OtherStat => CalculateStat(base, iv, level, ev)
  }

  lemma DivMono(a: int, b: int, level: nat)
    requires a <= b
    ensures a * level / 50 <= b * level / 50
  {
    assert a * level <= b * level by {
      assert (b - a) * level >= 0;
    }
  }

  /** Both formulas are non-decreasing in the IV at a non-negative level. */
  lemma {:induction false} StatMonotone(kind: StatKind, base: int, iv1: int, iv2: int, level: nat, ev: nat)
    requires iv1 <= iv2
    ensures StatValue(kind, base, iv1, level, ev) <= StatValue(kind, base, iv2, level, ev)
  {
    match kind
    case HpStat => DivMono(base + iv1 + EvBonus(ev) + 50, base + iv2 + EvBonus(ev) + 50, level);
    case OtherStat => DivMono(base + iv1 + EvBonus(ev), base + iv2 + EvBonus(ev), level);
  }

  /** What calculate_hp_iv / calculate_stat_iv return: one int, a (min, max) pair, or None. */
  datatype IvEstimate = NoIv | Exact(iv: nat) | Range(lo: nat, hi: nat)

  /** The IVs in 0..16 that reproduce the observed stat. */
  function MatchingIvs(kind: StatKind, stat: int, base: int, level: int, ev: nat): set<nat>
  {
    set iv: nat | iv <= MaxIv && StatValue(kind, base, iv, level, ev) == stat
  }

  /** `r` is the source's summary of the candidate set `s`. */
  predicate Summarises(r: IvEstimate, s: set<nat>)
  {
    && (r.NoIv? <==> s == {})
    && (r.Exact? ==> s == {r.iv})
    && (r.Range? ==> r.lo in s && r.hi in s && r.lo < r.hi && forall x :: x in s ==> r.lo <= x <= r.hi)
  }

  function SeqMin(s: seq<nat>): (m: nat)
    requires s != []
    ensures m in s && forall x :: x in s ==> m <= x
  {
    if |s| == 1 then s[0] else assert s == [s[0]] + s[1..]; var t := SeqMin(s[1..]); if s[0] <= t then s[0] else t
  }

  function SeqMax(s: seq<nat>): (m: nat)
    requires s != []
    ensures m in s && forall x :: x in s ==> x <= m
  {
    if |s| == 1 then s[0] else assert s == [s[0]] + s[1..]; var t := SeqMax(s[1..]); if s[0] >= t then s[0] else t
  }

  /** The loop shared by calculate_hp_iv and calculate_stat_iv: collect every IV in
      range(17) whose stat matches, then report one IV, (min, max) or None. */
  method SearchIv(kind: StatKind, stat: int, base: int, level: int, ev: nat) returns (r: IvEstimate)
    ensures Summarises(r, MatchingIvs(kind, stat, base, level, ev))
    ensures r.Exact? <==> |MatchingIvs(kind, stat, base, level, ev)| == 1
    ensures r.Range? <==> |MatchingIvs(kind, stat, base, level, ev)| >= 2
  {
    var possible: seq<nat> := [];
    for iv := 0 to MaxIv + 1
      invariant forall x: nat :: x in possible <==> x < iv && StatValue(kind, base, x, level, ev) == stat
      invariant forall j :: 0 <= j < |possible| ==> possible[j] < iv
      invariant forall j, k :: 0 <= j < k < |possible| ==> possible[j] < possible[k]
    {
      if StatValue(kind, base, iv, level, ev) == stat {
        possible := possible + [iv];
      }
    }
    ghost var s := MatchingIvs(kind, stat, base, level, ev);
    assert forall x: nat :: x in s <==> x in possible;
    if |possible| == 1 {
      r := Exact(possible[0]);
      assert s == {possible[0]};
    } else if |possible| > 1 {
      r := Range(SeqMin(possible), SeqMax(possible));
      assert possible[0] < possible[1];
      SubsetCard({possible[0], possible[1]}, s);
    } else {
      r := NoIv;
      assert s == {};
    }
  }

  /** calculate_hp_iv */
  method CalculateHpIv(hp: int, baseHp: int, level: int, ev: nat) returns (r: IvEstimate)
    ensures Summarises(r, MatchingIvs(HpStat, hp, baseHp, level, ev))
    ensures r.Exact? <==> |MatchingIvs(HpStat, hp, baseHp, level, ev)| == 1
    ensures r.Range? <==> |MatchingIvs(HpStat, hp, baseHp, level, ev)| >= 2
  {
    r := SearchIv(HpStat, hp, baseHp, level, ev);
  }

  /** calculate_stat_iv */
  method CalculateStatIv(stat: int, baseStat: int, level: int, ev: nat) returns (r: IvEstimate)
    ensures Summarises(r, MatchingIvs(OtherStat, stat, baseStat, level, ev))
    ensures r.Exact? <==> |MatchingIvs(OtherStat, stat, baseStat, level, ev)| == 1
    ensures r.Range? <==> |MatchingIvs(OtherStat, stat, baseStat, level, ev)| >= 2
  {
    r := SearchIv(OtherStat, stat, baseStat, level, ev);
  }

  /** The summary is determined by the candidate set, so any two runs on the same
      inputs (and the two copies of the search) report the same estimate. */
  lemma SummaryUnique(r1: IvEstimate, r2: IvEstimate, s: set<nat>)
    requires Summarises(r1, s) && Summarises(r2, s)
    ensures r1 == r2
  {
    if r1.Range? && r2.Range? {
      assert r1.lo <= r2.lo && r2.lo <= r1.lo;
      assert r1.hi <= r2.hi && r2.hi <= r1.hi;
    }
  }

  /** Every IV between the ends of a reported range also reproduces the stat,
      because the formula is monotone in the IV. */
  lemma RangeIsContiguous(kind: StatKind, stat: int, base: int, level: nat, ev: nat, r: IvEstimate, x: nat)
    requires Summarises(r, MatchingIvs(kind, stat, base, level, ev))
    requires r.Range? && r.lo <= x <= r.hi
    ensures x in MatchingIvs(kind, stat, base, level, ev)
  {
    StatMonotone(kind, base, r.lo, x, level, ev);
    StatMonotone(kind, base, x, r.hi, level, ev);
  }

  /** Every reported IV, including both ends of a pair, lies in 0..16. */
  lemma EstimateInRange(kind: StatKind, stat: int, base: int, level: int, ev: nat, r: IvEstimate)
    requires Summarises(r, MatchingIvs(kind, stat, base, level, ev))
    ensures r.Exact? ==> r.iv <= MaxIv
    ensures r.Range? ==> r.lo <= MaxIv && r.hi <= MaxIv
  {
    if r.Exact? {
      assert r.iv in MatchingIvs(kind, stat, base, level, ev);
    }
  }

  /** The row of the Morty table the IV search needs. */
  datatype BaseStats = BaseStats(hp: int, atk: int, def: int, spd: int)

  datatype IvReport = IvReport(hp: IvEstimate, attack: IvEstimate, defence: IvEstimate, speed: IvEstimate)

  /** Each component of the report summarises the candidates for its own stat. */
  predicate ReportFor(rep: IvReport, base: BaseStats, level: int, hp: int, attack: int, defence: int, spd: int, ev: nat)
  {
    && Summarises(rep.hp, MatchingIvs(HpStat, hp, base.hp, level, ev))
    && Summarises(rep.attack, MatchingIvs(OtherStat, attack, base.atk, level, ev))
    && Summarises(rep.defence, MatchingIvs(OtherStat, defence, base.def, level, ev))
    && Summarises(rep.speed, MatchingIvs(OtherStat, spd, base.spd, level, ev))
  }

  /** MortyBot.calculate_iv: None when the Morty number is unknown, otherwise the
      four estimates in the order HP, attack, defence, speed.  `getMortyStats`
      (a CSV lookup) is the oracle `lookup`. */
  method CalculateIv(mortyNumber: int, level: int, hp: int, attack: int, defence: int, spd: int, ev: nat,
                     lookup: int -> Option<BaseStats>)
    returns (r: Option<IvReport>)
    ensures r.None? <==> lookup(mortyNumber).None?
    ensures r.Some? ==> ReportFor(r.value, lookup(mortyNumber).value, level, hp, attack, defence, spd, ev)
  {
    var morty := lookup(mortyNumber);
    if morty.None? {
      return None;
    }
    var hpIv := CalculateHpIv(hp, morty.value.hp, level, ev);
    var attackIv := CalculateStatIv(attack, morty.value.atk, level, ev);
    var defenceIv := CalculateStatIv(defence, morty.value.def, level, ev);
    var spdIv := CalculateStatIv(spd, morty.value.spd, level, ev);
    r := Some(IvReport(hpIv, attackIv, defenceIv, spdIv));
  }

  /** MortyCog.format_iv: a pair as "lo - hi", anything else as str(). */
  function FormatIv(e: IvEstimate): string
  {
    match e
    case NoIv => "None"
    case Exact(v) => NatToString(v)
    case Range(lo, hi) => NatToString(lo) + " - " + NatToString(hi)
  }

  function IndexOfSpace(s: string): (k: nat)
    ensures k <= |s|
    ensures k < |s| ==> s[k] == ' '
    ensures forall i :: 0 <= i < k ==> s[i] != ' '
  {
    if s == [] then 0 else if s[0] == ' ' then 0 else 1 + IndexOfSpace(s[1..])
  }

  predicate AllDigits(s: string) { forall i :: 0 <= i < |s| ==> IsDigit(s[i]) }

  /** Reads back what FormatIv wrote: "a - b" as a pair, digits as one IV. */
  function ParseIv(s: string): IvEstimate
  {
    var k := IndexOfSpace(s);
    if k + 3 <= |s| && AllDigits(s[..k]) && AllDigits(s[k + 3..]) then Range(DigitsValue(s[..k]), DigitsValue(s[k + 3..]))
    else if k == |s| && AllDigits(s) then Exact(DigitsValue(s))
    else NoIv
  }

  /** The rendering of a found IV or range loses nothing. */
  lemma FormatIvRoundTrip(e: IvEstimate)
    requires !e.NoIv?
    ensures ParseIv(FormatIv(e)) == e
  {
    match e
    case Exact(v) =>
      DigitsValueOfNatToString(v);
      var s := NatToString(v);
      assert forall i :: 0 <= i < |s| ==> s[i] != ' ' by {
        forall i | 0 <= i < |s| ensures s[i] != ' ' { assert IsDigit(s[i]); }
      }
    case Range(lo, hi) =>
      var a, b := NatToString(lo), NatToString(hi);
      var s := a + " - " + b;
      assert forall i :: 0 <= i < |a| ==> s[i] != ' ' by {
        forall i | 0 <= i < |a| ensures s[i] != ' ' { assert s[i] == a[i] && IsDigit(a[i]); }
      }
      assert s[|a|] == ' ';
      assert IndexOfSpace(s) == |a|;
      assert s[..|a|] == a;
      assert s[|a| + 3..] == b;
      DigitsValueOfNatToString(lo);
      DigitsValueOfNatToString(hi);
  }

  /** The labelled line for one stat, or nothing when its IV was not found. */
  function IvLine(title: string, e: IvEstimate): seq<string>
  {
    if e.NoIv? then [] else [title + FormatIv(e)]
  }

  const HpTitle := "**HP IV**: "
  const AttackTitle := "**Attack IV**: "
  const DefenceTitle := "**Defence IV**: "
  const SpeedTitle := "**Speed IV**: "

  function IvLines(rep: IvReport): seq<string>
  {
    IvLine(HpTitle, rep.hp) + IvLine(AttackTitle, rep.attack) + IvLine(DefenceTitle, rep.defence) + IvLine(SpeedTitle, rep.speed)
  }

  /** Lines separated by newlines, no trailing newline. */
  function JoinLines(ls: seq<string>): string
  {
    if ls == [] then "" else if |ls| == 1 then ls[0] else ls[0] + "\n" + JoinLines(ls[1..])
  }

  /** Every line followed by a newline. */
  function Terminated(ls: seq<string>): string
  {
    if ls == [] then "" else ls[0] + "\n" + Terminated(ls[1..])
  }

  lemma {:induction false} TerminatedAppend(ls: seq<string>, l: string)
    ensures Terminated(ls + [l]) == Terminated(ls) + l + "\n"
  {
    if ls != [] {
      assert (ls + [l])[1..] == ls[1..] + [l];
      TerminatedAppend(ls[1..], l);
    } else {
      assert ls + [l] == [l];
    }
  }

  lemma {:induction false} JoinThenNewline(ls: seq<string>)
    requires ls != []
    ensures JoinLines(ls) + "\n" == Terminated(ls)
  {
    if |ls| > 1 {
      JoinThenNewline(ls[1..]);
    }
  }

  lemma {:induction false} JoinSplitLast(ls: seq<string>)
    requires ls != []
    ensures JoinLines(ls) == Terminated(ls[..|ls| - 1]) + ls[|ls| - 1]
  {
    if |ls| > 1 {
      JoinSplitLast(ls[1..]);
      assert ls[1..][..|ls| - 2] == ls[..|ls| - 1][1..];
    }
  }

  /** The joined text starts with the first line's first character and ends with
      the last line's last character. */
  lemma {:induction false} JoinEnds(ls: seq<string>)
    requires ls != [] && forall i :: 0 <= i < |ls| ==> ls[i] != []
    ensures JoinLines(ls) != [] && JoinLines(ls)[0] == ls[0][0]
    ensures JoinLines(ls)[|JoinLines(ls)| - 1] == ls[|ls| - 1][|ls[|ls| - 1]| - 1]
  {
    if |ls| > 1 {
      JoinEnds(ls[1..]);
    }
  }

  lemma FormatIvEndsInDigit(e: IvEstimate)
    requires !e.NoIv?
    ensures FormatIv(e) != [] && IsDigit(FormatIv(e)[|FormatIv(e)| - 1])
  {
  }

  /** Every line of the report starts with the bold marker of its title. */
  lemma IvLinesStart(rep: IvReport)
    ensures forall i :: 0 <= i < |IvLines(rep)| ==> IvLines(rep)[i] != [] && IvLines(rep)[i][0] == '*'
  {
    var a := IvLine(HpTitle, rep.hp) + IvLine(AttackTitle, rep.attack);
    var b := IvLine(DefenceTitle, rep.defence) + IvLine(SpeedTitle, rep.speed);
    assert IvLines(rep) == a + b;
  }

  /** The last line of the report ends in a digit of its estimate. */
  lemma IvLinesEnd(rep: IvReport)
    ensures IvLines(rep) != [] ==> IsDigit(IvLines(rep)[|IvLines(rep)| - 1][|IvLines(rep)[|IvLines(rep)| - 1]| - 1])
  {
    if !rep.speed.NoIv? {
      FormatIvEndsInDigit(rep.speed);
    } else if !rep.defence.NoIv? {
      FormatIvEndsInDigit(rep.defence);
    } else if !rep.attack.NoIv? {
      FormatIvEndsInDigit(rep.attack);
    } else if !rep.hp.NoIv? {
      FormatIvEndsInDigit(rep.hp);
    }
  }

  predicate AllMissing(rep: IvReport)
  {
    rep.hp.NoIv? && rep.attack.NoIv? && rep.defence.NoIv? && rep.speed.NoIv?
  }

  lemma AddLine(text: string, done: seq<string>, title: string, e: IvEstimate)
    requires text == Terminated(done) && !e.NoIv?
    ensures text + title + FormatIv(e) + "\n" == Terminated(done + IvLine(title, e))
  {
    TerminatedAppend(done, title + FormatIv(e));
  }

  lemma StripClean(s: string)
    requires s != [] && !IsSpace(s[0]) && !IsSpace(s[|s| - 1])
    ensures Strip(s) == s && Strip(s + "\n") == s
  {
    var t := s + "\n";
    assert t[..|t| - 1] == s;
    assert StripRight(t) == StripRight(s);
  }

  /** The joined lines start with '*' and end with a digit, so trimming leaves them alone. */
  lemma JoinedLinesAreTrimmed(rep: IvReport)
    requires !AllMissing(rep)
    ensures Strip(JoinLines(IvLines(rep))) == JoinLines(IvLines(rep))
    ensures Strip(JoinLines(IvLines(rep)) + "\n") == JoinLines(IvLines(rep))
  {
    var ls := IvLines(rep);
    IvLinesStart(rep);
    IvLinesEnd(rep);
    JoinEnds(ls);
    StripClean(JoinLines(ls));
  }

  /** Trimming the text built line by line leaves the lines joined by newlines:
      without a speed line the text ends in a newline that the trim removes... */
  lemma StripBuiltWithoutSpeed(rep: IvReport, done: seq<string>)
    requires !AllMissing(rep) && rep.speed.NoIv?
    requires done == IvLine(HpTitle, rep.hp) + IvLine(AttackTitle, rep.attack) + IvLine(DefenceTitle, rep.defence)
    ensures Strip(Terminated(done)) == JoinLines(IvLines(rep))
  {
    assert IvLines(rep) == done;
    JoinedLinesAreTrimmed(rep);
    JoinThenNewline(done);
  }

  /** ...and with one the text already ends in a digit. */
  lemma StripBuiltWithSpeed(rep: IvReport, done: seq<string>)
    requires !rep.speed.NoIv?
    requires done == IvLine(HpTitle, rep.hp) + IvLine(AttackTitle, rep.attack) + IvLine(DefenceTitle, rep.defence)
    ensures Strip(Terminated(done) + (SpeedTitle + FormatIv(rep.speed))) == JoinLines(IvLines(rep))
  {
    var ls := IvLines(rep);
    assert ls == done + [SpeedTitle + FormatIv(rep.speed)];
    assert ls[..|ls| - 1] == done;
    JoinSplitLast(ls);
    JoinedLinesAreTrimmed(rep);
  }

  /** MortyCog.format_iv_text: None for a missing or all-None result, otherwise one
      labelled line per found IV (HP, Attack, Defence, Speed), trimmed. */
  method FormatIvText(result: Option<IvReport>) returns (text: Option<string>)
    ensures result.None? || AllMissing(result.value) <==> text.None?
    ensures text.Some? ==> text.value == JoinLines(IvLines(result.value))
  {
    if result.None? || AllMissing(result.value) {
      return None;
    }
    var rep := result.value;
    var ivText := "";
    ghost var done: seq<string> := [];
    if !rep.hp.NoIv? {
      AddLine(ivText, done, HpTitle, rep.hp);
      ivText := ivText + HpTitle + FormatIv(rep.hp) + "\n";
    }
    done := done + IvLine(HpTitle, rep.hp);
    if !rep.attack.NoIv? {
      AddLine(ivText, done, AttackTitle, rep.attack);
      ivText := ivText + AttackTitle + FormatIv(rep.attack) + "\n";
    }
    done := done + IvLine(AttackTitle, rep.attack);
    if !rep.defence.NoIv? {
      AddLine(ivText, done, DefenceTitle, rep.defence);
      ivText := ivText + DefenceTitle + FormatIv(rep.defence) + "\n";
    }
    done := done + IvLine(DefenceTitle, rep.defence);
    assert ivText == Terminated(done);
    if !rep.speed.NoIv? {
      StripBuiltWithSpeed(rep, done);
      ivText := ivText + (SpeedTitle + FormatIv(rep.speed));
    } else {
      StripBuiltWithoutSpeed(rep, done);
    }
    text := Some(Strip(ivText));
  }
}
