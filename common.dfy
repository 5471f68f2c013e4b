/** Shared vocabulary: an Option type and the ASCII subset of Python's string
    methods that the bot relies on (lower, strip, isdigit, isalnum, str(int), int(str)). */
module Common {

  datatype Option<T> = None | Some(value: T)

  predicate IsUpper(c: char) { 'A' <= c <= 'Z' }
  predicate IsLower(c: char) { 'a' <= c <= 'z' }
  predicate IsDigit(c: char) { '0' <= c <= '9' }
  predicate IsAlnum(c: char) { IsUpper(c) || IsLower(c) || IsDigit(c) }

  /** Python's str.isspace on the ASCII range: space, \t \n \v \f \r and the
      separators \x1c..\x1f. */
  predicate IsSpace(c: char) { c == ' ' || 9 <= c as int <= 13 || 28 <= c as int <= 31 }

  function ToLower(c: char): (r: char)
    ensures IsUpper(c) ==> IsLower(r)
    ensures !IsUpper(c) ==> r == c
  {
    if IsUpper(c) then (c as int + 32) as char else c
  }

  function ToUpper(c: char): (r: char)
    ensures IsLower(c) ==> IsUpper(r)
    ensures !IsLower(c) ==> r == c
  {
    if IsLower(c) then (c as int - 32) as char else c
  }

  /** str.lower() */
  function Lower(s: string): (r: string)
    ensures |r| == |s|
    ensures forall i :: 0 <= i < |s| ==> r[i] == ToLower(s[i])
  {
    seq(|s|, i requires 0 <= i < |s| => ToLower(s[i]))
  }

  function StripLeft(s: string): (r: string)
    ensures |r| <= |s|
  {
    if s != [] && IsSpace(s[0]) then StripLeft(s[1..]) else s
  }

  function StripRight(s: string): (r: string)
    ensures |r| <= |s|
  {
    if s != [] && IsSpace(s[|s| - 1]) then StripRight(s[..|s| - 1]) else s
  }

  /** What lstrip leaves starts with a non-space. */
  lemma {:induction false} StripLeftStart(s: string)
    ensures StripLeft(s) != [] ==> !IsSpace(StripLeft(s)[0])
  {
    if s != [] && IsSpace(s[0]) {
      StripLeftStart(s[1..]);
    }
  }

  /** What rstrip leaves ends with a non-space. */
  lemma {:induction false} StripRightEnd(s: string)
    ensures StripRight(s) != [] ==> !IsSpace(StripRight(s)[|StripRight(s)| - 1])
  {
    if s != [] && IsSpace(s[|s| - 1]) {
      StripRightEnd(s[..|s| - 1]);
    }
  }

  /** str.strip() */
  function Strip(s: string): string { StripRight(StripLeft(s)) }

  /** str.replace(" ", "") */
  function RemoveSpaces(s: string): (r: string)
    ensures ' ' !in r
  {
    if s == [] then [] else (if s[0] == ' ' then [] else [s[0]]) + RemoveSpaces(s[1..])
  }

  /** ''.join(filter(str.isdigit, s)) */
  function DigitsOf(s: string): (r: string)
    ensures forall i :: 0 <= i < |r| ==> IsDigit(r[i])
  {
    if s == [] then [] else (if IsDigit(s[0]) then [s[0]] else []) + DigitsOf(s[1..])
  }

  function DigitChar(d: nat): char
    requires d < 10
  {
    ('0' as int + d) as char
  }

  /** str(n) for a non-negative integer. */
  function NatToString(n: nat): (r: string)
    ensures r != []
    ensures forall i :: 0 <= i < |r| ==> IsDigit(r[i])
  {
    if n < 10 then [DigitChar(n)] else NatToString(n / 10) + [DigitChar(n % 10)]
  }

  /** int(s) for a string of decimal digits (the empty string is the caller's error case). */
  function DigitsValue(s: string): nat
    requires forall i :: 0 <= i < |s| ==> IsDigit(s[i])
  {
    if s == [] then 0
    else assert IsDigit(s[|s| - 1]); DigitsValue(s[..|s| - 1]) * 10 + (s[|s| - 1] as int - '0' as int)
  }

  /** int(str(n)) == n */
  lemma {:induction false} DigitsValueOfNatToString(n: nat)
    ensures DigitsValue(NatToString(n)) == n
  {
    if n >= 10 {
      var s := NatToString(n);
      assert s[..|s| - 1] == NatToString(n / 10);
      DigitsValueOfNatToString(n / 10);
    }
  }

  /** Filtering digits out of a string that holds only digits gives it back. */
  lemma {:induction false} DigitsOfDigits(s: string)
    requires forall i :: 0 <= i < |s| ==> IsDigit(s[i])
    ensures DigitsOf(s) == s
  {
    if s != [] {
      DigitsOfDigits(s[1..]);
    }
  }

  lemma {:induction false} DigitsOfAppend(s: string, t: string)
    ensures DigitsOf(s + t) == DigitsOf(s) + DigitsOf(t)
  {
    if s == [] {
      assert s + t == t;
    } else {
      assert (s + t)[1..] == s[1..] + t;
      DigitsOfAppend(s[1..], t);
    }
  }

  /** list.remove(x) on a list that holds x: the first element equal to x goes;
      a list without x is left as it is (Python would raise). */
  function RemoveFirst<T(==)>(s: seq<T>, x: T): (r: seq<T>)
    ensures x in s ==> |r| == |s| - 1
    ensures x !in s ==> r == s
  {
    if s == [] then []
    else if s[0] == x then s[1..]
    else assert s == [s[0]] + s[1..]; [s[0]] + RemoveFirst(s[1..], x)
  }

  /** `list.remove(x)` takes exactly one x out of the multiset of elements, and
      nothing else (nothing at all when x is absent). */
  lemma {:induction false} RemoveFirstCounts<T>(s: seq<T>, x: T)
    ensures multiset(RemoveFirst(s, x)) == multiset(s) - multiset{x}
  {
    if s != [] {
      assert s == [s[0]] + s[1..];
      if s[0] != x {
        RemoveFirstCounts(s[1..], x);
      }
    }
  }

  /** A prefix one longer is the prefix and the next element. */
  lemma TakeNext<T>(s: seq<T>, i: nat)
    requires i < |s|
    ensures s[..i + 1] == s[..i] + [s[i]]
  {
  }

  /** No element occurs twice. */
  predicate Distinct<T(==)>(s: seq<T>)
  {
    forall j, k :: 0 <= j < k < |s| ==> s[j] != s[k]
  }

  /** A prefix of a list without repeats has none, and holds no later element. */
  lemma DistinctPrefix<T>(s: seq<T>, n: nat)
    requires Distinct(s) && n <= |s|
    ensures Distinct(s[..n])
    ensures forall k :: n <= k < |s| ==> s[k] !in s[..n]
  {
  }

  /** `list.remove(s[i])` removes position i when no earlier element equals s[i]. */
  lemma {:induction false} RemoveFirstAt<T>(s: seq<T>, i: nat)
    requires i < |s| && s[i] !in s[..i]
    ensures RemoveFirst(s, s[i]) == s[..i] + s[i + 1..]
  {
    var t := s[1..];
    if i == 0 {
      assert s[..0] + s[1..] == t;
    } else {
      assert s[..i] == [s[0]] + t[..i - 1];
      assert t[i - 1] == s[i] && s[0] != s[i];
      RemoveFirstAt(t, i - 1);
      calc {
        RemoveFirst(s, s[i]);
        [s[0]] + RemoveFirst(t, t[i - 1]);
        [s[0]] + (t[..i - 1] + t[i..]);
        { assert [s[0]] + t[..i - 1] == s[..i]; assert t[i..] == s[i + 1..]; }
        s[..i] + s[i + 1..];
      }
    }
  }

  /** In a list without repeats, `list.remove(s[i])` drops position i, keeps the
      elements before it where they are, and leaves a list without repeats. */
  lemma RemoveDistinct<T>(s: seq<T>, i: nat)
    requires Distinct(s) && i < |s|
    ensures RemoveFirst(s, s[i]) == s[..i] + s[i + 1..]
    ensures Distinct(s[..i] + s[i + 1..])
    ensures (s[..i] + s[i + 1..])[..i] == s[..i]
  {
    DistinctPrefix(s, i);
    RemoveFirstAt(s, i);
    DistinctWithout(s, i);
  }

  /** Every element from index i on is the first occurrence of its value. */
  predicate FirstsFrom<T(==)>(s: seq<T>, i: nat)
  {
    forall k {:trigger s[..k]} :: i <= k < |s| ==> s[k] !in s[..k]
  }

  /** `list.remove(s[i])` when s[i] is the first of its value drops position i,
      keeps the elements before it, and the elements after it stay firsts. */
  lemma RemoveFirstsFrom<T>(s: seq<T>, i: nat)
    requires i < |s| && FirstsFrom(s, i)
    ensures RemoveFirst(s, s[i]) == s[..i] + s[i + 1..]
    ensures FirstsFrom(s[..i] + s[i + 1..], i + 1)
    ensures (s[..i] + s[i + 1..])[..i] == s[..i]
  {
    RemoveFirstAt(s, i);
    var rest := s[..i] + s[i + 1..];
    forall k | i + 1 <= k < |rest|
      ensures rest[k] !in rest[..k]
    {
      assert rest[k] == s[k + 1] && s[k + 1] !in s[..k + 1];
      assert s[..k + 1] == s[..i] + [s[i]] + s[i + 1..k + 1];
      assert rest[..k] == s[..i] + s[i + 1..k + 1];
    }
  }

  /** Dropping one position keeps a list without repeats. */
  lemma DistinctWithout<T>(s: seq<T>, i: nat)
    requires Distinct(s) && i < |s|
    ensures Distinct(s[..i] + s[i + 1..])
  {
    var r := s[..i] + s[i + 1..];
    forall j, k | 0 <= j < k < |r|
      ensures r[j] != r[k]
    {
      var j' := if j < i then j else j + 1;
      var k' := if k < i then k else k + 1;
      assert r[j] == s[j'] && r[k] == s[k'];
    }
  }

  /** A subset is no larger than its superset. */
  lemma SubsetCard<T>(a: set<T>, b: set<T>)
    requires a <= b
    ensures |a| <= |b|
  {
    assert b == a + (b - a);
    assert a * (b - a) == {};
  }
}
