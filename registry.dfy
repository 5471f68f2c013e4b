/** The registry of games in progress: one record per started game, added by
    the game-start handler and swept by the game-end handler. */
module Registry {
  import opened Common

  /** `{"GameCode", "MatchID", "Players", "GameVoiceChannelID"}` */
  datatype Game = Game(code: string, matchId: string, players: set<string>, voiceId: int)

  /** The lobby-conflict test: a stored game on this voice channel under another code. */
  predicate Conflicts(games: seq<Game>, voiceId: int, code: string)
  {
    exists g :: g in games && g.voiceId == voiceId && g.code != code
  }

  /** Records on the same voice channel carry the same code. */
  predicate Consistent(games: seq<Game>)
  {
    forall g, h :: g in games && h in games && g.voiceId == h.voiceId ==> g.code == h.code
  }

  /** Appending a record that does not conflict keeps the registry consistent. */
  lemma AppendKeepsConsistent(games: seq<Game>, g: Game)
    requires Consistent(games) && !Conflicts(games, g.voiceId, g.code)
    ensures Consistent(games + [g])
  {
  }

  /** Dropping records keeps the registry consistent. */
  lemma SubKeepsConsistent(games: seq<Game>, sub: seq<Game>)
    requires Consistent(games) && multiset(sub) <= multiset(games)
    ensures Consistent(sub)
  {
    forall g | g in sub
      ensures g in games
    {
      assert g in multiset(sub);
    }
  }

  /** What the game-end loop leaves: the registry, the match id it adopted, and
      whether it stopped at a conflicting lobby. */
  datatype SweepOutcome = SweepOutcome(games: seq<Game>, matchId: string, conflict: bool)

  /** The game-end loop from position i on, with Python's list iterator: it walks
      an index over the list it is removing from, so the record that slides into
      a removed record's place is never looked at. */
  function EndSweep(games: seq<Game>, i: nat, code: string, voiceId: int, matchId: string): SweepOutcome
    decreases |games| - i
  {
    if i >= |games| then SweepOutcome(games, matchId, false)
    else if games[i].voiceId == voiceId && code != games[i].code then SweepOutcome(games, matchId, true)
    else if games[i].code == code then EndSweep(RemoveFirst(games, games[i]), i + 1, code, voiceId, games[i].matchId)
    else EndSweep(games, i + 1, code, voiceId, matchId)
  }

  /** The records with another code, in order. */
  function Others(games: seq<Game>, code: string): (r: seq<Game>)
    ensures forall g :: g in r <==> g in games && g.code != code
  {
    if games == [] then []
    else (if games[0].code != code then [games[0]] else []) + Others(games[1..], code)
  }

  lemma {:induction false} OthersRemoveFirst(games: seq<Game>, g: Game, code: string)
    requires g.code == code
    ensures Others(RemoveFirst(games, g), code) == Others(games, code)
  {
    if games != [] && games[0] != g {
      OthersRemoveFirst(games[1..], g, code);
      assert ([games[0]] + RemoveFirst(games[1..], g))[1..] == RemoveFirst(games[1..], g);
    }
  }

  /** The sweep never touches a record with another code, nor their order, and
      only ever drops records. */
  lemma {:induction false} SweepKeepsOthers(games: seq<Game>, i: nat, code: string, voiceId: int, matchId: string)
    ensures Others(EndSweep(games, i, code, voiceId, matchId).games, code) == Others(games, code)
    ensures multiset(EndSweep(games, i, code, voiceId, matchId).games) <= multiset(games)
    decreases |games| - i
  {
    if i < |games| && !(games[i].voiceId == voiceId && code != games[i].code) {
      if games[i].code == code {
        OthersRemoveFirst(games, games[i], code);
        RemoveFirstCounts(games, games[i]);
        SweepKeepsOthers(RemoveFirst(games, games[i]), i + 1, code, voiceId, games[i].matchId);
      } else {
        SweepKeepsOthers(games, i + 1, code, voiceId, matchId);
      }
    }
  }

  /** The records the sweep removes, in the order it removes them. */
  function SweepRemoved(games: seq<Game>, i: nat, code: string, voiceId: int): (removed: seq<Game>)
    ensures forall g :: g in removed ==> g.code == code
    decreases |games| - i
  {
    if i >= |games| || (games[i].voiceId == voiceId && code != games[i].code) then []
    else if games[i].code == code then [games[i]] + SweepRemoved(RemoveFirst(games, games[i]), i + 1, code, voiceId)
    else SweepRemoved(games, i + 1, code, voiceId)
  }

  /** The sweep leaves the registry less the records it removed. */
  lemma {:induction false} SweepRemovesTrace(games: seq<Game>, i: nat, code: string, voiceId: int, matchId: string)
    ensures multiset(EndSweep(games, i, code, voiceId, matchId).games) + multiset(SweepRemoved(games, i, code, voiceId))
         == multiset(games)
    decreases |games| - i
  {
    if i < |games| && !(games[i].voiceId == voiceId && code != games[i].code) {
      if games[i].code == code {
        var g := games[i];
        var rest := RemoveFirst(games, g);
        RemoveFirstCounts(games, g);
        SweepRemovesTrace(rest, i + 1, code, voiceId, g.matchId);
        var tail := SweepRemoved(rest, i + 1, code, voiceId);
        assert SweepRemoved(games, i, code, voiceId) == [g] + tail;
        assert EndSweep(games, i, code, voiceId, matchId) == EndSweep(rest, i + 1, code, voiceId, g.matchId);
        assert multiset([g] + tail) == multiset{g} + multiset(tail);
        assert g in multiset(games);
        assert multiset(rest) + multiset{g} == multiset(games);
      } else {
        SweepRemovesTrace(games, i + 1, code, voiceId, matchId);
      }
    }
  }

  /** The match id used afterwards is the MatchID of the last record removed (the
      event's own when none was). */
  lemma {:induction false} SweepAdoptsLast(games: seq<Game>, i: nat, code: string, voiceId: int, matchId: string)
    ensures var removed := SweepRemoved(games, i, code, voiceId);
      EndSweep(games, i, code, voiceId, matchId).matchId
        == if removed == [] then matchId else removed[|removed| - 1].matchId
    decreases |games| - i
  {
    if i < |games| && !(games[i].voiceId == voiceId && code != games[i].code) {
      if games[i].code == code {
        var rest := RemoveFirst(games, games[i]);
        SweepAdoptsLast(rest, i + 1, code, voiceId, games[i].matchId);
      } else {
        SweepAdoptsLast(games, i + 1, code, voiceId, matchId);
      }
    }
  }

  /** When no record before the first one with the event's code conflicts, that
      record is the first one the sweep removes. */
  lemma {:induction false} SweepRemovesFirstOfCode(games: seq<Game>, i: nat, j: nat, code: string, voiceId: int)
    requires i <= j < |games| && games[j].code == code
    requires forall k :: i <= k < j ==> games[k].code != code && games[k].voiceId != voiceId
    ensures var removed := SweepRemoved(games, i, code, voiceId);
      removed != [] && removed[0] == games[j]
    ensures forall matchId: string :: multiset(EndSweep(games, i, code, voiceId, matchId).games)[games[j]] < multiset(games)[games[j]]
    decreases j - i
  {
    if i < j {
      SweepRemovesFirstOfCode(games, i + 1, j, code, voiceId);
    }
    forall matchId: string
      ensures multiset(EndSweep(games, i, code, voiceId, matchId).games)[games[j]] < multiset(games)[games[j]]
    {
      SweepRemovesTrace(games, i, code, voiceId, matchId);
    }
  }

  /** When every record from the index on is the first of its value (as in a
      registry without repeated records), the sweep never changes the records
      behind its index. */
  lemma {:induction false} SweepKeepsBehind(games: seq<Game>, i: nat, code: string, voiceId: int, matchId: string)
    requires i <= |games| && FirstsFrom(games, i)
    ensures var r := EndSweep(games, i, code, voiceId, matchId);
      i <= |r.games| && r.games[..i] == games[..i]
    decreases |games| - i
  {
    var r := EndSweep(games, i, code, voiceId, matchId);
    if i < |games| && !(games[i].voiceId == voiceId && code != games[i].code) {
      if games[i].code == code {
        assert i <= |r.games| && r.games[..i] == games[..i] by {
          RemoveFirstsFrom(games, i);
          var rest := games[..i] + games[i + 1..];
          assert r == EndSweep(rest, i + 1, code, voiceId, games[i].matchId);
          if i + 1 <= |rest| {
            SweepKeepsBehind(rest, i + 1, code, voiceId, games[i].matchId);
            assert r.games[..i] == r.games[..i + 1][..i];
          } else {
            assert r.games == rest;
          }
        }
      } else {
        assert i <= |r.games| && r.games[..i] == games[..i] by {
          assert r == EndSweep(games, i + 1, code, voiceId, matchId);
          SweepKeepsBehind(games, i + 1, code, voiceId, matchId);
          assert r.games[..i] == r.games[..i + 1][..i];
        }
      }
    }
  }

  /** The record after a removed one slides into its place, behind the index:
      it is neither checked for a conflict nor removed. */
  lemma SweepSkipsNext(games: seq<Game>, j: nat, code: string, voiceId: int, matchId: string)
    requires j + 1 < |games| && games[j].code == code && FirstsFrom(games, j)
    ensures EndSweep(games, j, code, voiceId, matchId)
         == EndSweep(games[..j] + games[j + 1..], j + 1, code, voiceId, games[j].matchId)
    ensures (games[..j] + games[j + 1..])[j] == games[j + 1]
    ensures var r := EndSweep(games, j, code, voiceId, matchId);
      j < |r.games| && r.games[j] == games[j + 1]
  {
    RemoveFirstsFrom(games, j);
    var rest := games[..j] + games[j + 1..];
    SweepKeepsBehind(rest, j + 1, code, voiceId, games[j].matchId);
    assert rest[..j + 1][j] == games[j + 1];
  }

  /** A sweep over a registry without the event's code and without a conflicting
      lobby changes nothing. */
  lemma {:induction false} SweepWithoutCode(games: seq<Game>, i: nat, code: string, voiceId: int, matchId: string)
    requires forall g :: g in games ==> g.code != code && g.voiceId != voiceId
    ensures EndSweep(games, i, code, voiceId, matchId) == SweepOutcome(games, matchId, false)
    decreases |games| - i
  {
    if i < |games| {
      SweepWithoutCode(games, i + 1, code, voiceId, matchId);
    }
  }

  /** Two consecutive records of the ending game: the first is removed and the
      second slides into its place and is skipped, so it stays registered. */
  lemma SweepSkipsSecond(g1: Game, g2: Game, voiceId: int, matchId: string)
    requires g1 != g2 && g1.code == g2.code
    ensures EndSweep([g1, g2], 0, g1.code, voiceId, matchId) == SweepOutcome([g2], g1.matchId, false)
  {
    assert RemoveFirst([g1, g2], g1) == [g2];
  }

  /** The conflict check of the start and meeting handlers. */
  method FindConflict(games: seq<Game>, voiceId: int, code: string) returns (conflict: bool)
    ensures conflict <==> Conflicts(games, voiceId, code)
  {
    for i := 0 to |games|
      invariant forall k :: 0 <= k < i ==> !(games[k].voiceId == voiceId && games[k].code != code)
    {
      if games[i].voiceId == voiceId && code != games[i].code {
        return true;
      }
    }
    return false;
  }
}
