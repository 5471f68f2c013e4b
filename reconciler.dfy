/** The three-pass identity reconciler of the meeting handlers: voice-channel
    occupants are matched against the dead and the alive in-game names with
    difflib's `get_close_matches` at cutoffs 1.0, 0.9 and 0.75, and every match
    becomes an intended mute/deafen edit.  difflib's `SequenceMatcher.ratio` is the
    oracle `sim`, called as `sim(candidate, word)` the way `get_close_matches`
    does. */
module Reconciler {
  import opened Common
  import opened Correlator

  /** An element of `members_in_vc`: the normalised display name and the member. */
  datatype Occupant = Occupant(key: string, member: Member)

  datatype Side = Dead | Alive

  /** One accepted match: the occupant, the set the name came from, and the name. */
  datatype Assignment = Assignment(occupant: Occupant, side: Side, name: string)

  /** An intended `member.edit(mute=…, deafen=…)`. */
  datatype Edit = Edit(member: Member, mute: bool, deafen: bool)

  const ExactCutoff: real := 1.0
  const CloseCutoff: real := 0.9
  const LooseCutoff: real := 0.75

  /** `name.lower().replace(" ", "")` */
  function NameKey(name: string): (r: string)
    ensures ' ' !in r
  {
    RemoveSpaces(Lower(name))
  }

  function OccupantOf(m: Member): Occupant
  {
    Occupant(NameKey(m.displayName), m)
  }

  /** The normalised target set built from a set of in-game names. */
  function TargetKeys(names: set<string>): set<string>
  {
    set n | n in names :: NameKey(n)
  }

  /** The candidates `get_close_matches(word, targets, cutoff=cutoff)` keeps. */
  function CloseMatches(word: string, targets: set<string>, cutoff: real, sim: (string, string) -> real): set<string>
  {
    set t | t in targets && sim(t, word) >= cutoff
  }

  /** The one property of difflib's ratio the model relies on: it reaches 1.0
      exactly on identical strings. */
  ghost predicate ExactAtOne(sim: (string, string) -> real)
  {
    forall a: string, b: string :: sim(a, b) >= 1.0 <==> a == b
  }

  /** At cutoff 1.0 the close matches of a word are the word itself, if present. */
  lemma ExactCloseMatches(word: string, targets: set<string>, sim: (string, string) -> real)
    requires ExactAtOne(sim)
    ensures CloseMatches(word, targets, ExactCutoff, sim) == if word in targets then {word} else {}
  {
  }

  lemma SingletonOf<T>(s: set<T>, x: T)
    requires |s| == 1 && x in s
    ensures s == {x}
  {
    var rest := s - {x};
    assert s == rest + {x};
    assert |rest| == 0;
  }

  /** One `get_close_matches` call tested with `len(...) == 1` (n = 3, so the list
      has one element exactly when one candidate qualifies). */
  method UniqueCloseMatch(word: string, targets: set<string>, cutoff: real, sim: (string, string) -> real)
    returns (found: bool, name: string)
    ensures found <==> |CloseMatches(word, targets, cutoff, sim)| == 1
    ensures found ==> CloseMatches(word, targets, cutoff, sim) == {name}
  {
    var best := set t | t in targets && sim(t, word) >= cutoff;
    found := |best| == 1;
    name := "";
    if found {
      name :| name in best;
      SingletonOf(best, name);
    }
  }

  /** The name a `len(get_close_matches(...)) == 1` test accepts, if any. */
  ghost function SoleMatch(word: string, targets: set<string>, cutoff: real, sim: (string, string) -> real): (r: Option<string>)
    ensures r.Some? <==> |CloseMatches(word, targets, cutoff, sim)| == 1
    ensures r.Some? ==> CloseMatches(word, targets, cutoff, sim) == {r.value}
  {
    var c := CloseMatches(word, targets, cutoff, sim);
    if |c| == 1 then
      var n :| n in c;
      SingletonOf(c, n);
      Some(n)
    else None
  }

  /** The names of one side an assignment list has consumed. */
  function Names(matched: seq<Assignment>, side: Side): set<string>
  {
    if matched == [] then {}
    else
      var a := matched[|matched| - 1];
      Names(matched[..|matched| - 1], side) + (if a.side == side then {a.name} else {})
  }

  /** The occupants an assignment list has matched. */
  function Owners(matched: seq<Assignment>): set<Occupant>
  {
    if matched == [] then {} else Owners(matched[..|matched| - 1]) + {matched[|matched| - 1].occupant}
  }

  lemma NamesSnoc(matched: seq<Assignment>, a: Assignment, side: Side)
    ensures Names(matched + [a], side) == Names(matched, side) + (if a.side == side then {a.name} else {})
    ensures Owners(matched + [a]) == Owners(matched) + {a.occupant}
  {
    assert (matched + [a])[..|matched|] == matched;
  }

  lemma {:induction false} NamesAppend(a: seq<Assignment>, b: seq<Assignment>, side: Side)
    ensures Names(a + b, side) == Names(a, side) + Names(b, side)
    ensures Owners(a + b) == Owners(a) + Owners(b)
    decreases |b|
  {
    if b == [] {
      assert a + b == a;
    } else {
      var init := b[..|b| - 1];
      var last := b[|b| - 1];
      assert b == init + [last];
      assert a + b == (a + init) + [last];
      NamesAppend(a, init, side);
      NamesSnoc(a + init, last, side);
      NamesSnoc(init, last, side);
    }
  }

  /** Every consumed name comes from an assignment of that side, and back. */
  lemma {:induction false} NamesMeaning(matched: seq<Assignment>, side: Side, n: string)
    ensures n in Names(matched, side) <==> exists k :: 0 <= k < |matched| && matched[k].side == side && matched[k].name == n
  {
    if matched != [] {
      var init := matched[..|matched| - 1];
      NamesMeaning(init, side, n);
      if n in Names(init, side) {
        var k :| 0 <= k < |init| && init[k].side == side && init[k].name == n;
        assert matched[k] == init[k];
      }
    }
  }

  /** An occupant is matched by the list exactly when some assignment names it. */
  lemma {:induction false} OwnersMeaning(matched: seq<Assignment>, o: Occupant)
    ensures o in Owners(matched) <==> exists k :: 0 <= k < |matched| && matched[k].occupant == o
  {
    if matched != [] {
      var init := matched[..|matched| - 1];
      OwnersMeaning(init, o);
      if o in Owners(init) {
        var k :| 0 <= k < |init| && init[k].occupant == o;
        assert matched[k] == init[k];
      }
    }
  }

  function Remaining(side: Side, dead: set<string>, alive: set<string>): set<string>
  {
    if side == Dead then dead else alive
  }

  /** The names of one side are consumed: the set shrank by exactly the names
      the assignments took from it. */
  predicate Consumed(matched: seq<Assignment>, side: Side, before: set<string>, after: set<string>)
  {
    Names(matched, side) <= before && after == before - Names(matched, side)
  }

  /** No name is taken twice from the same side. */
  predicate NamesOnce(matched: seq<Assignment>)
  {
    forall j, k :: 0 <= j < k < |matched| && matched[j].side == matched[k].side ==> matched[j].name != matched[k].name
  }

  /** Each match reached the cutoff, and no name still left in its set does. */
  predicate Unambiguous(matched: seq<Assignment>, dead: set<string>, alive: set<string>, cutoff: real, sim: (string, string) -> real)
  {
    forall a :: a in matched ==>
      && sim(a.name, a.occupant.key) >= cutoff
      && forall t :: t in Remaining(a.side, dead, alive) ==> sim(t, a.occupant.key) < cutoff
  }

  /** Every occupant is either matched or left over, not both. */
  predicate Partition(occupants: seq<Occupant>, matched: seq<Assignment>, left: seq<Occupant>)
  {
    && Distinct(left)
    && (forall o :: o in left ==> o in occupants)
    && (forall a :: a in matched ==> a.occupant in occupants)
    && (forall o :: o in occupants ==> (o in left <==> o !in Owners(matched)))
  }

  /** An occupant gets two matches only in a non-exclusive pass, dead first. */
  predicate AtMostTwice(matched: seq<Assignment>, exclusive: bool)
  {
    forall j, k :: 0 <= j < k < |matched| && matched[j].occupant == matched[k].occupant ==>
      !exclusive && k == j + 1 && matched[j].side == Dead && matched[k].side == Alive
  }

  /** What one pass promises. */
  predicate PassOutcome(occupants: seq<Occupant>, dead0: set<string>, alive0: set<string>, cutoff: real,
                        exclusive: bool, sim: (string, string) -> real,
                        matched: seq<Assignment>, dead: set<string>, alive: set<string>, left: seq<Occupant>)
  {
    && Consumed(matched, Dead, dead0, dead)
    && Consumed(matched, Alive, alive0, alive)
    && NamesOnce(matched)
    && Unambiguous(matched, dead, alive, cutoff, sim)
    && Partition(occupants, matched, left)
    && AtMostTwice(matched, exclusive)
  }

  /** What handling one occupant in a pass promises: at most one name from each
      set, dead first, none from the alive names after a dead match in an
      exclusive pass, and the occupant is kept for later exactly when nothing
      matched. */
  predicate Visited(occ: Occupant, dead: set<string>, alive: set<string>, cutoff: real, exclusive: bool,
                    sim: (string, string) -> real,
                    added: seq<Assignment>, dead': set<string>, alive': set<string>, kept: bool)
  {
    && (kept <==> added == [])
    && (forall a :: a in added ==> a.occupant == occ)
    && |added| <= (if exclusive then 1 else 2)
    && (|added| == 2 ==> added[0].side == Dead && added[1].side == Alive)
    && Consumed(added, Dead, dead, dead')
    && Consumed(added, Alive, alive, alive')
    && NamesOnce(added)
    && Unambiguous(added, dead', alive', cutoff, sim)
    && (kept ==> |CloseMatches(occ.key, dead, cutoff, sim)| != 1 && |CloseMatches(occ.key, alive, cutoff, sim)| != 1)
  }

  /** The assignments of one occupant: the dead name first, then the alive one. */
  function Added(occ: Occupant, deadName: Option<string>, aliveName: Option<string>): seq<Assignment>
  {
    (if deadName.Some? then [Assignment(occ, Dead, deadName.value)] else [])
    + (if aliveName.Some? then [Assignment(occ, Alive, aliveName.value)] else [])
  }

  function Less(names: set<string>, n: Option<string>): set<string>
  {
    if n.Some? then names - {n.value} else names
  }

  function Taken(n: Option<string>): set<string>
  {
    if n.Some? then {n.value} else {}
  }

  lemma AddedNames(occ: Occupant, deadName: Option<string>, aliveName: Option<string>)
    ensures Names(Added(occ, deadName, aliveName), Dead) == Taken(deadName)
    ensures Names(Added(occ, deadName, aliveName), Alive) == Taken(aliveName)
  {
    var first := if deadName.Some? then [Assignment(occ, Dead, deadName.value)] else [];
    if deadName.Some? {
      NamesSnoc([], first[0], Dead);
      NamesSnoc([], first[0], Alive);
    }
    if aliveName.Some? {
      NamesSnoc(first, Assignment(occ, Alive, aliveName.value), Dead);
      NamesSnoc(first, Assignment(occ, Alive, aliveName.value), Alive);
    } else {
      assert Added(occ, deadName, aliveName) == first;
    }
  }

  /** A name found as the only close match leaves nothing else in its set that
      reaches the cutoff. */
  lemma AddedUnambiguous(occ: Occupant, dead: set<string>, alive: set<string>, cutoff: real,
                         sim: (string, string) -> real, deadName: Option<string>, aliveName: Option<string>)
    requires deadName.Some? ==> CloseMatches(occ.key, dead, cutoff, sim) == {deadName.value}
    requires aliveName.Some? ==> CloseMatches(occ.key, alive, cutoff, sim) == {aliveName.value}
    ensures Unambiguous(Added(occ, deadName, aliveName), Less(dead, deadName), Less(alive, aliveName), cutoff, sim)
  {
    var added := Added(occ, deadName, aliveName);
    forall a | a in added
      ensures sim(a.name, a.occupant.key) >= cutoff
      ensures forall t :: t in Remaining(a.side, Less(dead, deadName), Less(alive, aliveName)) ==> sim(t, a.occupant.key) < cutoff
    {
      if a.side == Dead {
        assert a.name in CloseMatches(occ.key, dead, cutoff, sim);
        forall t | t in Less(dead, deadName)
          ensures sim(t, occ.key) < cutoff
        {
          assert t !in CloseMatches(occ.key, dead, cutoff, sim);
        }
      } else {
        assert a.name in CloseMatches(occ.key, alive, cutoff, sim);
        forall t | t in Less(alive, aliveName)
          ensures sim(t, occ.key) < cutoff
        {
          assert t !in CloseMatches(occ.key, alive, cutoff, sim);
        }
      }
    }
  }

  /** The outcome of one visit, given what the two `get_close_matches` calls found. */
  lemma VisitOutcome(occ: Occupant, dead: set<string>, alive: set<string>, cutoff: real, exclusive: bool,
                     sim: (string, string) -> real, deadName: Option<string>, aliveName: Option<string>)
    requires deadName.Some? ==> CloseMatches(occ.key, dead, cutoff, sim) == {deadName.value}
    requires aliveName.Some? ==> CloseMatches(occ.key, alive, cutoff, sim) == {aliveName.value}
    requires exclusive && deadName.Some? ==> aliveName.None?
    requires deadName.None? ==> |CloseMatches(occ.key, dead, cutoff, sim)| != 1
    requires aliveName.None? && !(exclusive && deadName.Some?) ==> |CloseMatches(occ.key, alive, cutoff, sim)| != 1
    ensures Visited(occ, dead, alive, cutoff, exclusive, sim, Added(occ, deadName, aliveName),
                    Less(dead, deadName), Less(alive, aliveName), deadName.None? && aliveName.None?)
  {
    AddedConsumed(occ, dead, alive, cutoff, sim, deadName, aliveName);
    AddedUnambiguous(occ, dead, alive, cutoff, sim, deadName, aliveName);
    assert NamesOnce(Added(occ, deadName, aliveName));
  }

  /** The names a visit takes come out of the sets they were found in. */
  lemma AddedConsumed(occ: Occupant, dead: set<string>, alive: set<string>, cutoff: real,
                      sim: (string, string) -> real, deadName: Option<string>, aliveName: Option<string>)
    requires deadName.Some? ==> CloseMatches(occ.key, dead, cutoff, sim) == {deadName.value}
    requires aliveName.Some? ==> CloseMatches(occ.key, alive, cutoff, sim) == {aliveName.value}
    ensures Consumed(Added(occ, deadName, aliveName), Dead, dead, Less(dead, deadName))
    ensures Consumed(Added(occ, deadName, aliveName), Alive, alive, Less(alive, aliveName))
  {
    AddedNames(occ, deadName, aliveName);
    if deadName.Some? {
      assert deadName.value in CloseMatches(occ.key, dead, cutoff, sim);
    }
    if aliveName.Some? {
      assert aliveName.value in CloseMatches(occ.key, alive, cutoff, sim);
    }
  }

  /** The names one visit takes: the sole close match among the dead names, then,
      unless the pass is exclusive and that matched, the sole one among the alive names. */
  datatype Picks = Picks(dead: Option<string>, alive: Option<string>)

  ghost function PicksFor(occ: Occupant, dead: set<string>, alive: set<string>, cutoff: real, exclusive: bool,
                          sim: (string, string) -> real): Picks
  {
    var d := SoleMatch(occ.key, dead, cutoff, sim);
    Picks(d, if exclusive && d.Some? then None else SoleMatch(occ.key, alive, cutoff, sim))
  }

  /** The state of a pass: the matches so far, the names still unclaimed, and the
      occupants kept for the next pass. */
  datatype PassState = PassState(matched: seq<Assignment>, dead: set<string>, alive: set<string>, left: seq<Occupant>)

  /** One loop iteration, as a function of the state it starts from. */
  ghost function Step(s: PassState, occ: Occupant, cutoff: real, exclusive: bool, sim: (string, string) -> real): PassState
  {
    var p := PicksFor(occ, s.dead, s.alive, cutoff, exclusive, sim);
    PassState(s.matched + Added(occ, p.dead, p.alive), Less(s.dead, p.dead), Less(s.alive, p.alive),
              if p.dead.None? && p.alive.None? then s.left + [occ] else s.left)
  }

  /** A whole pass: the occupants visited in order from the given name sets. */
  ghost function Run(occupants: seq<Occupant>, dead0: set<string>, alive0: set<string>, cutoff: real,
                     exclusive: bool, sim: (string, string) -> real): PassState
    decreases |occupants|
  {
    if occupants == [] then PassState([], dead0, alive0, [])
    else Step(Run(occupants[..|occupants| - 1], dead0, alive0, cutoff, exclusive, sim),
              occupants[|occupants| - 1], cutoff, exclusive, sim)
  }

  lemma RunPrefix(occupants: seq<Occupant>, i: nat, dead0: set<string>, alive0: set<string>, cutoff: real,
                  exclusive: bool, sim: (string, string) -> real)
    requires i < |occupants|
    ensures Run(occupants[..i + 1], dead0, alive0, cutoff, exclusive, sim)
         == Step(Run(occupants[..i], dead0, alive0, cutoff, exclusive, sim), occupants[i], cutoff, exclusive, sim)
  {
    assert occupants[..i + 1][..i] == occupants[..i];
  }

  /** When the pass reached the k-th occupant, neither set of names still unclaimed
      held exactly one close match of its key. */
  ghost predicate UnmatchedAt(occupants: seq<Occupant>, k: nat, dead0: set<string>, alive0: set<string>, cutoff: real,
                              exclusive: bool, sim: (string, string) -> real)
    requires k < |occupants|
  {
    var s := Run(occupants[..k], dead0, alive0, cutoff, exclusive, sim);
    |CloseMatches(occupants[k].key, s.dead, cutoff, sim)| != 1 && |CloseMatches(occupants[k].key, s.alive, cutoff, sim)| != 1
  }

  /** A pass keeps an occupant for the next pass exactly when, on reaching it,
      neither `get_close_matches` call came back with a single name. */
  ghost predicate KeptUnmatched(occupants: seq<Occupant>, dead0: set<string>, alive0: set<string>, cutoff: real,
                                exclusive: bool, sim: (string, string) -> real)
  {
    forall k :: 0 <= k < |occupants| ==>
      (occupants[k] in Run(occupants, dead0, alive0, cutoff, exclusive, sim).left <==>
       UnmatchedAt(occupants, k, dead0, alive0, cutoff, exclusive, sim))
  }

  /** The occupants a pass keeps are those it could not match when it reached them. */
  lemma {:induction false} RunKept(occupants: seq<Occupant>, dead0: set<string>, alive0: set<string>, cutoff: real,
                                   exclusive: bool, sim: (string, string) -> real)
    requires Distinct(occupants)
    ensures forall o :: o in Run(occupants, dead0, alive0, cutoff, exclusive, sim).left ==> o in occupants
    ensures KeptUnmatched(occupants, dead0, alive0, cutoff, exclusive, sim)
    decreases |occupants|
  {
    if occupants != [] {
      var n := |occupants| - 1;
      var init := occupants[..n];
      DistinctPrefix(occupants, n);
      RunKept(init, dead0, alive0, cutoff, exclusive, sim);
      var all := Run(occupants, dead0, alive0, cutoff, exclusive, sim);
      var s := Run(init, dead0, alive0, cutoff, exclusive, sim);
      assert all == Step(s, occupants[n], cutoff, exclusive, sim);
      forall k | 0 <= k < |occupants|
        ensures occupants[k] in all.left <==> UnmatchedAt(occupants, k, dead0, alive0, cutoff, exclusive, sim)
      {
        if k < n {
          assert occupants[..k] == init[..k] && occupants[k] == init[k];
          assert occupants[k] != occupants[n];
          assert occupants[k] in s.left <==> UnmatchedAt(init, k, dead0, alive0, cutoff, exclusive, sim);
        } else {
          assert occupants[..k] == init;
        }
      }
    }
  }

  /** The body of each pass loop for one occupant; an exclusive pass skips the
      alive names once the dead names matched. */
  method Visit(occ: Occupant, dead: set<string>, alive: set<string>, cutoff: real, exclusive: bool,
               sim: (string, string) -> real)
    returns (added: seq<Assignment>, dead': set<string>, alive': set<string>, kept: bool)
    ensures Visited(occ, dead, alive, cutoff, exclusive, sim, added, dead', alive', kept)
    ensures var p := PicksFor(occ, dead, alive, cutoff, exclusive, sim);
      && added == Added(occ, p.dead, p.alive) && dead' == Less(dead, p.dead) && alive' == Less(alive, p.alive)
      && (kept <==> p.dead.None? && p.alive.None?)
  {
    var deadName, aliveName := None, None;
    var found, name := UniqueCloseMatch(occ.key, dead, cutoff, sim);
    if found {
      deadName := Some(name);
    }
    if !(found && exclusive) {
      found, name := UniqueCloseMatch(occ.key, alive, cutoff, sim);
      if found {
        aliveName := Some(name);
      }
    }
    VisitOutcome(occ, dead, alive, cutoff, exclusive, sim, deadName, aliveName);
    added := Added(occ, deadName, aliveName);
    dead', alive' := Less(dead, deadName), Less(alive, aliveName);
    kept := deadName.None? && aliveName.None?;
  }

  /** Appending what one occupant's visit added keeps the name bookkeeping. */
  lemma ExtendNames(matched: seq<Assignment>, added: seq<Assignment>, side: Side,
                    before: set<string>, now: set<string>, after: set<string>)
    requires Consumed(matched, side, before, now) && Consumed(added, side, now, after)
    ensures Consumed(matched + added, side, before, after)
    ensures forall j, k :: 0 <= j < |matched| && 0 <= k < |added| && matched[j].side == side && added[k].side == side
              ==> matched[j].name != added[k].name
  {
    NamesAppend(matched, added, side);
    forall j, k | 0 <= j < |matched| && 0 <= k < |added| && matched[j].side == side && added[k].side == side
      ensures matched[j].name != added[k].name
    {
      NamesMeaning(matched, side, matched[j].name);
      NamesMeaning(added, side, added[k].name);
    }
  }

  lemma ExtendOnce(matched: seq<Assignment>, added: seq<Assignment>)
    requires NamesOnce(matched) && NamesOnce(added)
    requires forall j, k :: 0 <= j < |matched| && 0 <= k < |added| && matched[j].side == Dead && added[k].side == Dead
              ==> matched[j].name != added[k].name
    requires forall j, k :: 0 <= j < |matched| && 0 <= k < |added| && matched[j].side == Alive && added[k].side == Alive
              ==> matched[j].name != added[k].name
    ensures NamesOnce(matched + added)
  {
    var all := matched + added;
    forall j, k | 0 <= j < k < |all| && all[j].side == all[k].side
      ensures all[j].name != all[k].name
    {
      if k >= |matched| && j < |matched| {
        assert all[k] == added[k - |matched|];
        assert all[j].side == Dead || all[j].side == Alive;
      } else if j >= |matched| {
        assert all[j] == added[j - |matched|] && all[k] == added[k - |matched|];
      }
    }
  }

  lemma ExtendUnambiguous(matched: seq<Assignment>, added: seq<Assignment>, dead: set<string>, alive: set<string>,
                          dead': set<string>, alive': set<string>, cutoff: real, sim: (string, string) -> real)
    requires Unambiguous(matched, dead, alive, cutoff, sim) && Unambiguous(added, dead', alive', cutoff, sim)
    requires dead' <= dead && alive' <= alive
    ensures Unambiguous(matched + added, dead', alive', cutoff, sim)
  {
    forall a | a in matched + added
      ensures sim(a.name, a.occupant.key) >= cutoff
      ensures forall t :: t in Remaining(a.side, dead', alive') ==> sim(t, a.occupant.key) < cutoff
    {
      if a in matched {
        assert Remaining(a.side, dead', alive') <= Remaining(a.side, dead, alive);
      }
    }
  }

  /** The occupant of iteration i is new to the matches so far. */
  lemma ExtendOwners(matched: seq<Assignment>, added: seq<Assignment>, occupants: seq<Occupant>, i: nat, exclusive: bool)
    requires i < |occupants| && Distinct(occupants)
    requires forall a :: a in matched ==> a.occupant in occupants[..i]
    requires forall a :: a in added ==> a.occupant == occupants[i]
    requires AtMostTwice(matched, exclusive)
    requires |added| <= (if exclusive then 1 else 2)
    requires |added| == 2 ==> added[0].side == Dead && added[1].side == Alive
    ensures forall a :: a in matched + added ==> a.occupant in occupants[..i + 1]
    ensures forall k :: 0 <= k < i ==> (occupants[k] in Owners(matched + added) <==> occupants[k] in Owners(matched))
    ensures occupants[i] !in occupants[..i]
    ensures occupants[i] !in Owners(matched)
    ensures occupants[i] in Owners(matched + added) <==> added != []
    ensures AtMostTwice(matched + added, exclusive)
  {
    assert occupants[..i + 1] == occupants[..i] + [occupants[i]];
    assert occupants[i] !in occupants[..i];
    NamesAppend(matched, added, Dead);
    OwnersMeaning(matched, occupants[i]);
    OwnersMeaning(added, occupants[i]);
    forall k | 0 <= k < i
      ensures occupants[k] !in Owners(added)
    {
      OwnersMeaning(added, occupants[k]);
    }
    var all := matched + added;
    forall j, k | 0 <= j < k < |all| && all[j].occupant == all[k].occupant
      ensures !exclusive && k == j + 1 && all[j].side == Dead && all[k].side == Alive
    {
      if j >= |matched| {
        assert all[j] == added[j - |matched|] && all[k] == added[k - |matched|];
      }
    }
  }

  /** The name bookkeeping a pass keeps after each occupant. */
  predicate NamesSoFar(matched: seq<Assignment>, dead0: set<string>, alive0: set<string>,
                       dead: set<string>, alive: set<string>, cutoff: real, sim: (string, string) -> real)
  {
    && Consumed(matched, Dead, dead0, dead)
    && Consumed(matched, Alive, alive0, alive)
    && NamesOnce(matched)
    && Unambiguous(matched, dead, alive, cutoff, sim)
  }

  /** The occupant bookkeeping a pass keeps after the first i occupants. */
  predicate OwnersSoFar(occupants: seq<Occupant>, i: nat, matched: seq<Assignment>, left: seq<Occupant>, exclusive: bool)
    requires i <= |occupants|
  {
    && Distinct(left)
    && (forall o :: o in left ==> o in occupants[..i])
    && (forall a :: a in matched ==> a.occupant in occupants[..i])
    && (forall k :: 0 <= k < i ==> (occupants[k] in left <==> occupants[k] !in Owners(matched)))
    && AtMostTwice(matched, exclusive)
  }

  lemma StepNames(matched: seq<Assignment>, added: seq<Assignment>, dead0: set<string>, alive0: set<string>,
                  dead: set<string>, alive: set<string>, dead': set<string>, alive': set<string>,
                  occ: Occupant, cutoff: real, exclusive: bool, kept: bool, sim: (string, string) -> real)
    requires NamesSoFar(matched, dead0, alive0, dead, alive, cutoff, sim)
    requires Visited(occ, dead, alive, cutoff, exclusive, sim, added, dead', alive', kept)
    ensures NamesSoFar(matched + added, dead0, alive0, dead', alive', cutoff, sim)
    ensures dead' <= dead && alive' <= alive
  {
    ExtendNames(matched, added, Dead, dead0, dead, dead');
    ExtendNames(matched, added, Alive, alive0, alive, alive');
    ExtendOnce(matched, added);
    ExtendUnambiguous(matched, added, dead, alive, dead', alive', cutoff, sim);
  }

  lemma StepOwners(occupants: seq<Occupant>, i: nat, matched: seq<Assignment>, left: seq<Occupant>,
                   added: seq<Assignment>, kept: bool, exclusive: bool)
    requires i < |occupants| && Distinct(occupants)
    requires OwnersSoFar(occupants, i, matched, left, exclusive)
    requires kept <==> added == []
    requires forall a :: a in added ==> a.occupant == occupants[i]
    requires |added| <= (if exclusive then 1 else 2)
    requires |added| == 2 ==> added[0].side == Dead && added[1].side == Alive
    ensures OwnersSoFar(occupants, i + 1, matched + added, if kept then left + [occupants[i]] else left, exclusive)
  {
    ExtendOwners(matched, added, occupants, i, exclusive);
    StepLeft(occupants, i, matched + added, left, kept);
  }

  /** The left-over list after visiting occupant i, given who is matched now. */
  lemma StepLeft(occupants: seq<Occupant>, i: nat, matched: seq<Assignment>, left: seq<Occupant>, kept: bool)
    requires i < |occupants| && occupants[i] !in occupants[..i]
    requires Distinct(left) && (forall o :: o in left ==> o in occupants[..i])
    requires forall k :: 0 <= k < i ==> (occupants[k] in left <==> occupants[k] !in Owners(matched))
    requires occupants[i] in Owners(matched) <==> !kept
    ensures var left' := if kept then left + [occupants[i]] else left;
      && Distinct(left')
      && (forall o :: o in left' ==> o in occupants[..i + 1])
      && (forall k :: 0 <= k < i + 1 ==> (occupants[k] in left' <==> occupants[k] !in Owners(matched)))
  {
    assert occupants[..i + 1] == occupants[..i] + [occupants[i]];
  }

  lemma OwnersDone(occupants: seq<Occupant>, matched: seq<Assignment>, left: seq<Occupant>, exclusive: bool)
    requires OwnersSoFar(occupants, |occupants|, matched, left, exclusive)
    ensures Partition(occupants, matched, left) && AtMostTwice(matched, exclusive)
  {
    assert occupants[..|occupants|] == occupants;
    forall o | o in occupants
      ensures o in left <==> o !in Owners(matched)
    {
      var k :| 0 <= k < |occupants| && occupants[k] == o;
    }
  }

  /** One pass over the occupants: try the dead names, then (unless the pass is
      exclusive and the dead names matched) the alive names; keep the occupant for
      the next pass when neither matched. */
  method Pass(occupants: seq<Occupant>, dead0: set<string>, alive0: set<string>, cutoff: real,
              exclusive: bool, sim: (string, string) -> real)
    returns (matched: seq<Assignment>, dead: set<string>, alive: set<string>, left: seq<Occupant>)
    requires Distinct(occupants)
    ensures PassState(matched, dead, alive, left) == Run(occupants, dead0, alive0, cutoff, exclusive, sim)
    ensures PassOutcome(occupants, dead0, alive0, cutoff, exclusive, sim, matched, dead, alive, left)
    ensures KeptUnmatched(occupants, dead0, alive0, cutoff, exclusive, sim)
    ensures ExactAtOne(sim) && cutoff == ExactCutoff ==>
      && (forall a :: a in matched ==> a.name == a.occupant.key)
      && (forall o :: o in left ==> o.key !in dead && o.key !in alive)
  {
    matched, dead, alive, left := [], dead0, alive0, [];
    ghost var exact := ExactAtOne(sim) && cutoff == ExactCutoff;
    for i := 0 to |occupants|
      invariant NamesSoFar(matched, dead0, alive0, dead, alive, cutoff, sim)
      invariant OwnersSoFar(occupants, i, matched, left, exclusive)
      invariant exact ==> forall o :: o in left ==> o.key !in dead && o.key !in alive
      invariant PassState(matched, dead, alive, left) == Run(occupants[..i], dead0, alive0, cutoff, exclusive, sim)
    {
      var occ := occupants[i];
      var added, dead', alive', kept := Visit(occ, dead, alive, cutoff, exclusive, sim);
      RunPrefix(occupants, i, dead0, alive0, cutoff, exclusive, sim);
      StepNames(matched, added, dead0, alive0, dead, alive, dead', alive', occ, cutoff, exclusive, kept, sim);
      StepOwners(occupants, i, matched, left, added, kept, exclusive);
      if kept && exact {
        ExactKept(occ.key, dead, alive, sim);
      }
      matched, dead, alive := matched + added, dead', alive';
      if kept {
        left := left + [occ];
      }
    }
    OwnersDone(occupants, matched, left, exclusive);
    assert occupants[..|occupants|] == occupants;
    RunKept(occupants, dead0, alive0, cutoff, exclusive, sim);
    if exact {
      ExactNames(matched, dead, alive, sim);
    }
  }

  /** In the exact pass an occupant without a match has a key that is in neither set. */
  lemma ExactKept(key: string, dead: set<string>, alive: set<string>, sim: (string, string) -> real)
    requires ExactAtOne(sim)
    requires |CloseMatches(key, dead, ExactCutoff, sim)| != 1 && |CloseMatches(key, alive, ExactCutoff, sim)| != 1
    ensures key !in dead && key !in alive
  {
    ExactCloseMatches(key, dead, sim);
    ExactCloseMatches(key, alive, sim);
  }

  /** In the exact pass every accepted name is the occupant's own key. */
  lemma ExactNames(matched: seq<Assignment>, dead: set<string>, alive: set<string>, sim: (string, string) -> real)
    requires ExactAtOne(sim) && Unambiguous(matched, dead, alive, ExactCutoff, sim)
    ensures forall a :: a in matched ==> a.name == a.occupant.key
  {
  }

  /** Two passes in a row, the second over what the first left: together they
      partition the occupants, never give one name to two occupants, and give an
      occupant two matches only as dead then alive. */
  lemma ComposePasses(occupants: seq<Occupant>, m1: seq<Assignment>, l1: seq<Occupant>,
                      m2: seq<Assignment>, l2: seq<Occupant>, e1: bool)
    requires Partition(occupants, m1, l1) && Partition(l1, m2, l2)
    requires AtMostTwice(m1, e1) && AtMostTwice(m2, false)
    ensures Partition(occupants, m1 + m2, l2)
    ensures AtMostTwice(m1 + m2, false)
  {
    NamesAppend(m1, m2, Dead);
    var all := m1 + m2;
    forall j, k | 0 <= j < k < |all| && all[j].occupant == all[k].occupant
      ensures k == j + 1 && all[j].side == Dead && all[k].side == Alive
    {
      if j < |m1| {
        OwnersMeaning(m1, all[j].occupant);
      } else {
        assert all[j] == m2[j - |m1|] && all[k] == m2[k - |m1|];
      }
    }
  }

  lemma ComposeNames(m1: seq<Assignment>, m2: seq<Assignment>,
                     dead0: set<string>, dead1: set<string>, dead2: set<string>,
                     alive0: set<string>, alive1: set<string>, alive2: set<string>)
    requires Consumed(m1, Dead, dead0, dead1) && Consumed(m2, Dead, dead1, dead2)
    requires Consumed(m1, Alive, alive0, alive1) && Consumed(m2, Alive, alive1, alive2)
    requires NamesOnce(m1) && NamesOnce(m2)
    ensures Consumed(m1 + m2, Dead, dead0, dead2) && Consumed(m1 + m2, Alive, alive0, alive2)
    ensures NamesOnce(m1 + m2)
  {
    ExtendNames(m1, m2, Dead, dead0, dead1, dead2);
    ExtendNames(m1, m2, Alive, alive0, alive1, alive2);
    ExtendOnce(m1, m2);
  }

  /** Every match reached the given cutoff. */
  predicate Reached(matched: seq<Assignment>, cutoff: real, sim: (string, string) -> real)
  {
    forall a :: a in matched ==> sim(a.name, a.occupant.key) >= cutoff
  }

  /** Which handler runs the reconciler. */
  datatype Phase = MeetingStarted | MeetingEnded

  /** The voice state a match asks for: during a meeting the dead are muted and the
      living may talk; after it the living are muted and deafened for the round and
      the dead may talk among themselves. */
  function EditFor(phase: Phase, side: Side, member: Member): (e: Edit)
    ensures e.member == member
    ensures e.mute <==> (phase == MeetingStarted) == (side == Dead)
    ensures e.deafen <==> phase == MeetingEnded && side == Alive
  {
    match (phase, side)
    case (MeetingStarted, Dead) => Edit(member, true, false)
    case (MeetingStarted, Alive) => Edit(member, false, false)
    case (MeetingEnded, Dead) => Edit(member, false, false)
    case (MeetingEnded, Alive) => Edit(member, true, true)
  }

  /** A deafened member is always muted too. */
  lemma DeafenedAreMuted(phase: Phase, side: Side, member: Member)
    ensures EditFor(phase, side, member).deafen ==> EditFor(phase, side, member).mute
  {
  }

  /** The edits queued for a list of matches, one per match in order. */
  function EditsFor(phase: Phase, matched: seq<Assignment>): (r: seq<Edit>)
    ensures |r| == |matched|
    ensures forall k :: 0 <= k < |matched| ==> r[k] == EditFor(phase, matched[k].side, matched[k].occupant.member)
  {
    seq(|matched|, k requires 0 <= k < |matched| => EditFor(phase, matched[k].side, matched[k].occupant.member))
  }

  /** The exact pass: exclusive at a meeting's start, where a dead match skips the alive names. */
  ghost function FirstPass(phase: Phase, occupants: seq<Occupant>, dead: set<string>, alive: set<string>,
                           sim: (string, string) -> real): PassState
  {
    Run(occupants, dead, alive, ExactCutoff, phase == MeetingStarted, sim)
  }

  /** The 0.9 pass over what the exact pass left, with the names it left. */
  ghost function SecondPass(phase: Phase, occupants: seq<Occupant>, dead: set<string>, alive: set<string>,
                            sim: (string, string) -> real): PassState
  {
    var p := FirstPass(phase, occupants, dead, alive, sim);
    Run(p.left, p.dead, p.alive, CloseCutoff, false, sim)
  }

  /** The 0.75 pass over what the 0.9 pass left. */
  ghost function ThirdPass(phase: Phase, occupants: seq<Occupant>, dead: set<string>, alive: set<string>,
                           sim: (string, string) -> real): PassState
  {
    var p := SecondPass(phase, occupants, dead, alive, sim);
    Run(p.left, p.dead, p.alive, LooseCutoff, false, sim)
  }

  /** What the three passes of a meeting handler promise together. */
  ghost predicate Reconciled(phase: Phase, occupants: seq<Occupant>, dead: set<string>, alive: set<string>,
                             sim: (string, string) -> real, matched: seq<Assignment>, unresolved: seq<Occupant>)
  {
    var p1 := FirstPass(phase, occupants, dead, alive, sim);
    var p2 := SecondPass(phase, occupants, dead, alive, sim);
    var p3 := ThirdPass(phase, occupants, dead, alive, sim);
    // the matches of the three passes, in order, and what the last one left
    && matched == p1.matched + p2.matched + p3.matched
    && unresolved == p3.left
    // every pass kept exactly the occupants it found no single close match for
    && KeptUnmatched(occupants, dead, alive, ExactCutoff, phase == MeetingStarted, sim)
    && KeptUnmatched(p1.left, p1.dead, p1.alive, CloseCutoff, false, sim)
    && KeptUnmatched(p2.left, p2.dead, p2.alive, LooseCutoff, false, sim)
    // each occupant is matched or unresolved, one name at most per set and per occupant
    && Partition(occupants, matched, unresolved)
    && AtMostTwice(matched, false)
    && Names(matched, Dead) <= dead && Names(matched, Alive) <= alive
    && NamesOnce(matched)
    && Reached(matched, LooseCutoff, sim)
    // an unresolved occupant's own name was not left unclaimed
    && (ExactAtOne(sim) ==> forall o :: o in unresolved ==>
          o.key !in dead - Names(matched, Dead) && o.key !in alive - Names(matched, Alive))
  }

  /** The three passes of a meeting handler over the voice-channel occupants:
      exact matches first (exclusive at a meeting's start, where a dead match skips
      the alive names), then cutoff 0.9, then cutoff 0.75.  The result is the
      matches in the order their edits are queued, the edits, and the occupants
      that stay unresolved (each gets a notice in the text channel). */
  method Reconcile(phase: Phase, occupants: seq<Occupant>, dead: set<string>, alive: set<string>,
                   sim: (string, string) -> real)
    returns (matched: seq<Assignment>, edits: seq<Edit>, unresolved: seq<Occupant>)
    requires Distinct(occupants)
    ensures Reconciled(phase, occupants, dead, alive, sim, matched, unresolved)
    ensures edits == EditsFor(phase, matched)
  {
    var m1, d1, a1, l1 := Pass(occupants, dead, alive, ExactCutoff, phase == MeetingStarted, sim);
    var m2, d2, a2, l2 := Pass(l1, d1, a1, CloseCutoff, false, sim);
    var m3, d3, a3, l3 := Pass(l2, d2, a2, LooseCutoff, false, sim);
    ComposePasses(occupants, m1, l1, m2, l2, phase == MeetingStarted);
    ComposeNames(m1, m2, dead, d1, d2, alive, a1, a2);
    ComposePasses(occupants, m1 + m2, l2, m3, l3, false);
    ComposeNames(m1 + m2, m3, dead, d2, d3, alive, a2, a3);
    matched, unresolved := m1 + m2 + m3, l3;
    assert Reached(matched, LooseCutoff, sim) by {
      forall a | a in matched
        ensures sim(a.name, a.occupant.key) >= LooseCutoff
      {
        if a in m1 {
        } else if a in m2 {
        }
      }
    }
    edits := EditsFor(phase, matched);
  }
}
