/** `calculate_unblock_time` of the rank-block command: the length of a block
    from a duration such as "30m", "12h" or "5d".  The clock is left out: the
    result is the offset from now, in minutes. */
module RankBlock {
  import opened Common

  datatype Unblock =
    | NoDigits          // int('') raises ValueError
    | UnknownUnit       // the function returns None
    | Overflow          // timedelta raises OverflowError
    | Minutes(n: nat)

  const MinutesPerHour: nat := 60
  const MinutesPerDay: nat := 1440
  /** The largest number of days a `timedelta` holds. */
  const MaxDeltaDays: nat := 999999999

  /** A `timedelta` of this many minutes, or the OverflowError its constructor
      raises when the whole days exceed the limit. */
  function Delta(minutes: nat): (r: Unblock)
    ensures r == Overflow <==> minutes >= (MaxDeltaDays + 1) * MinutesPerDay
    ensures r != Overflow ==> r == Minutes(minutes)
  {
    if minutes / MinutesPerDay > MaxDeltaDays then Overflow else Minutes(minutes)
  }

  /** All digits concatenated into one number; the unit is 'm' if the text has an
      'm' anywhere, else 'h', else 'd'. */
  function UnblockOffset(duration: string): Unblock
  {
    var digits := DigitsOf(duration);
    if digits == [] then NoDigits
    else
      var num := DigitsValue(digits);
      if 'm' in duration then Delta(num)
      else if 'h' in duration then Delta(num * MinutesPerHour)
      else if 'd' in duration then Delta(num * MinutesPerDay)
      else UnknownUnit
  }

  function UnitFactor(u: char): nat
  {
    if u == 'm' then 1 else if u == 'h' then MinutesPerHour else MinutesPerDay
  }

  /** A number followed by one unit letter reads back as that many units, up to
      the 999999999 days a `timedelta` holds; more is an OverflowError. */
  lemma UnblockRoundTrip(n: nat, u: char)
    requires u == 'm' || u == 'h' || u == 'd'
    ensures n * UnitFactor(u) < (MaxDeltaDays + 1) * MinutesPerDay ==> UnblockOffset(NatToString(n) + [u]) == Minutes(n * UnitFactor(u))
    ensures n * UnitFactor(u) >= (MaxDeltaDays + 1) * MinutesPerDay ==> UnblockOffset(NatToString(n) + [u]) == Overflow
  {
    var s := NatToString(n);
    DigitsOfAppend(s, [u]);
    DigitsOfDigits(s);
    assert DigitsOf([u]) == [];
    assert DigitsOf(s + [u]) == s;
    DigitsValueOfNatToString(n);
    assert forall i :: 0 <= i < |s| ==> s[i] != 'm' && s[i] != 'h' && s[i] != 'd';
    assert (s + [u])[|s|] == u;
  }

  /** A text without any digit is the ValueError path. */
  lemma NoDigitsRaises(duration: string)
    requires forall i :: 0 <= i < |duration| ==> !IsDigit(duration[i])
    ensures UnblockOffset(duration) == NoDigits
  {
    NoDigitsLeft(duration);
  }

  lemma {:induction false} NoDigitsLeft(s: string)
    requires forall i :: 0 <= i < |s| ==> !IsDigit(s[i])
    ensures DigitsOf(s) == []
  {
    if s != [] {
      NoDigitsLeft(s[1..]);
    }
  }

  /** Mixed units are not added up: the digits are concatenated and 'm' wins,
      so "1h30m" blocks for 130 minutes. */
  lemma MixedUnitsConcatenate()
    ensures UnblockOffset("1h30m") == Minutes(130)
  {
    var s := "1h30m";
    assert s == ['1', 'h', '3', '0', 'm'];
    assert DigitsOf(s) == ['1', '3', '0'] by {
      assert s[1..] == ['h', '3', '0', 'm'];
      assert s[1..][1..] == ['3', '0', 'm'];
      assert s[1..][1..][1..] == ['0', 'm'];
      assert s[1..][1..][1..][1..] == ['m'];
      assert DigitsOf(['m']) == [];
      assert DigitsOf(['0', 'm']) == ['0'];
      assert DigitsOf(['3', '0', 'm']) == ['3', '0'];
      assert DigitsOf(['h', '3', '0', 'm']) == ['3', '0'];
    }
    var d := ['1', '3', '0'];
    assert d[..2] == ['1', '3'] && d[..2][..1] == ['1'] && d[..2][..1][..0] == [];
    assert DigitsValue(['1']) == 1;
    assert DigitsValue(['1', '3']) == 13;
    assert DigitsValue(d) == 130;
    assert 'm' in s;
  }
}
