/** Channel correlation: which ranked voice channel hosts the game whose
    in-game player names an event reports.  Names are compared with a fuzzy
    ratio (rapidfuzz's `fuzz.ratio`, 0..100), passed in as the oracle `ratio`,
    after both names are cut to a common prefix length. */
module Correlator {
  import opened Common

  /** A platform member: its id and its display name. */
  datatype Member = Member(id: int, displayName: string)

  /** One configured ranked channel with the bot's cache of its voice members
      and the members captured when the last game started. */
  datatype Channel = Channel(name: string, voiceId: int, textId: int,
                             members: seq<Member>, membersInMatch: seq<Member>)

  /** self.ratio */
  const MatchThreshold: real := 80.0
  /** A channel with this many matched players is taken at once. */
  const EarlyExitScore: nat := 4

  /** `player.lower().strip()` */
  function RosterKey(player: string): string { Strip(Lower(player)) }

  /** The normalised roster: a set, so duplicates after normalisation count once. */
  function RosterKeys(players: seq<string>): set<string>
  {
    if players == [] then {} else {RosterKey(players[0])} + RosterKeys(players[1..])
  }

  /** `s[:k]` */
  function Crop(s: string, k: nat): (r: string)
    ensures |r| == if k <= |s| then k else |s|
  {
    if k <= |s| then s[..k] else s
  }

  function Min(a: nat, b: nat): nat { if a <= b then a else b }

  /** The comparison in find_most_matched_channel: both names cut to
      min(len(key), len(raw display name)). */
  predicate Hits(key: string, m: Member, ratio: (string, string) -> real)
  {
    var k := Min(|key|, |m.displayName|);
    ratio(Crop(key, k), Crop(Strip(Lower(m.displayName)), k)) >= MatchThreshold
  }

  /** Some member of the channel matches the key. */
  predicate MatchedIn(key: string, members: seq<Member>, ratio: (string, string) -> real)
  {
    members != [] && (Hits(key, members[0], ratio) || MatchedIn(key, members[1..], ratio))
  }

  /** The keys of `keys` that some member of the channel matches. */
  function Matched(keys: set<string>, members: seq<Member>, ratio: (string, string) -> real): set<string>
  {
    set key | key in keys && MatchedIn(key, members, ratio)
  }

  /** A channel's score: how many distinct roster keys some member matches
      (a player counts once however often its normalised name occurs). */
  function Score(members: seq<Member>, players: seq<string>, ratio: (string, string) -> real): nat
  {
    if players == [] then 0
    else
      var key := RosterKey(players[0]);
      (if MatchedIn(key, members, ratio) && key !in RosterKeys(players[1..]) then 1 else 0)
        + Score(members, players[1..], ratio)
  }

  /** The score counts the matched part of the roster. */
  lemma {:induction false} ScoreCountsMatched(members: seq<Member>, players: seq<string>, ratio: (string, string) -> real)
    ensures Score(members, players, ratio) == |Matched(RosterKeys(players), members, ratio)|
  {
    if players != [] {
      ScoreCountsMatched(members, players[1..], ratio);
      var key := RosterKey(players[0]);
      var tail := RosterKeys(players[1..]);
      assert RosterKeys(players) == tail + {key};
      if key in tail {
        assert tail + {key} == tail;
      } else {
        MatchedAdd(tail, key, members, ratio);
      }
    }
  }

  /** The score of every channel, in dictionary order. */
  function Scores(channels: seq<Channel>, players: seq<string>, ratio: (string, string) -> real): (r: seq<nat>)
    ensures |r| == |channels|
  {
    if channels == [] then []
    else Scores(channels[..|channels| - 1], players, ratio) + [Score(channels[|channels| - 1].members, players, ratio)]
  }

  /** The scores of a prefix of the channels are a prefix of the scores. */
  lemma {:induction false} ScoresPrefix(channels: seq<Channel>, players: seq<string>, ratio: (string, string) -> real, i: nat)
    requires i <= |channels|
    ensures Scores(channels[..i], players, ratio) == Scores(channels, players, ratio)[..i]
    decreases |channels|
  {
    if i < |channels| {
      var init := channels[..|channels| - 1];
      assert init[..i] == channels[..i];
      ScoresPrefix(init, players, ratio, i);
    } else {
      assert channels[..i] == channels;
    }
  }

  /** What find_most_matched_channel promises about its pick, over the channels'
      scores: None exactly when no channel scores; otherwise a scoring channel that
      beats every earlier one, none of which reached the early-exit score, and that
      is the overall maximum unless it reached the early-exit score itself. */
  predicate IsChoice(scores: seq<nat>, found: Option<nat>)
  {
    && (found.None? <==> forall i :: 0 <= i < |scores| ==> scores[i] == 0)
    && (found.Some? ==>
          && found.value < |scores| && scores[found.value] > 0
          && (forall j :: 0 <= j < found.value ==> scores[j] < scores[found.value] && scores[j] < EarlyExitScore)
          && (scores[found.value] < EarlyExitScore ==>
                forall j :: 0 <= j < |scores| ==> scores[j] <= scores[found.value]))
  }

  /** The inner loop: stop at the first member that matches the key. */
  method PlayerMatched(key: string, members: seq<Member>, ratio: (string, string) -> real) returns (found: bool)
    ensures found <==> MatchedIn(key, members, ratio)
  {
    found := false;
    var j := 0;
    while j < |members|
      invariant 0 <= j <= |members|
      invariant MatchedIn(key, members, ratio) == MatchedIn(key, members[j..], ratio)
    {
      var member := members[j];
      var k := Min(|key|, |member.displayName|);
      var croppedPlayer := Crop(key, k);
      var croppedMember := Crop(Strip(Lower(member.displayName)), k);
      if ratio(croppedPlayer, croppedMember) >= MatchThreshold {
        found := true;
        return;
      }
      assert members[j..][1..] == members[j + 1..];
      j := j + 1;
    }
  }

  /** Moving one key from the pending set to the done set adds it to the
      matched keys exactly when it matches. */
  lemma MatchedAdd(done: set<string>, key: string, members: seq<Member>, ratio: (string, string) -> real)
    requires key !in done
    ensures MatchedIn(key, members, ratio) ==> |Matched(done + {key}, members, ratio)| == |Matched(done, members, ratio)| + 1
    ensures !MatchedIn(key, members, ratio) ==> Matched(done + {key}, members, ratio) == Matched(done, members, ratio)
  {
    if MatchedIn(key, members, ratio) {
      assert Matched(done + {key}, members, ratio) == Matched(done, members, ratio) + {key};
    }
  }

  /** The middle loop: count the roster keys that some member matches, each once. */
  method ChannelScore(members: seq<Member>, players: seq<string>, ratio: (string, string) -> real) returns (matches: nat)
    ensures matches == Score(members, players, ratio)
    ensures matches <= |RosterKeys(players)|
  {
    var keys := RosterKeys(players);
    var rest := keys;
    matches := 0;
    while rest != {}
      invariant rest <= keys
      invariant matches == |Matched(keys - rest, members, ratio)|
      decreases |rest|
    {
      var key :| key in rest;
      var hit := PlayerMatched(key, members, ratio);
      MatchedAdd(keys - rest, key, members, ratio);
      assert keys - (rest - {key}) == (keys - rest) + {key};
      if hit {
        matches := matches + 1;
      }
      rest := rest - {key};
    }
    assert keys - rest == keys;
    ScoreCountsMatched(members, players, ratio);
    SubsetCard(Matched(keys, members, ratio), keys);
  }

  /** find_most_matched_channel: the first channel scoring 4 or more; failing that,
      the first channel with the greatest positive score; None when every channel
      scores 0.  The result is an index into `channels` (dictionary order). */
  method FindMostMatchedChannel(channels: seq<Channel>, players: seq<string>, ratio: (string, string) -> real)
    returns (found: Option<nat>)
    ensures IsChoice(Scores(channels, players, ratio), found)
  {
    ghost var scores := Scores(channels, players, ratio);
    ghost var seen: seq<nat> := [];
    var maxMatches := 0;
    found := None;
    for i := 0 to |channels|
      invariant seen == scores[..i]
      invariant ChoiceSoFar(seen, found, maxMatches)
    {
      var matches := ChannelScore(channels[i].members, players, ratio);
      ScoresAt(channels, players, ratio, i);
      TakeNext(scores, i);
      ChoiceStep(seen, found, maxMatches, matches);
      seen := seen + [matches];
      if matches > maxMatches {
        maxMatches := matches;
        found := Some(i);
      }
      if matches >= EarlyExitScore {
        EarlyChoice(scores, seen, i);
        return;
      }
    }
    assert scores[..|channels|] == scores;
    ChoiceDone(scores, found, maxMatches);
  }

  /** Channel i's entry in Scores is its own score. */
  lemma {:induction false} ScoresAt(channels: seq<Channel>, players: seq<string>, ratio: (string, string) -> real, i: nat)
    requires i < |channels|
    ensures Scores(channels, players, ratio)[i] == Score(channels[i].members, players, ratio)
    decreases |channels|
  {
    var init := channels[..|channels| - 1];
    if i < |channels| - 1 {
      ScoresAt(init, players, ratio, i);
      assert init[i] == channels[i];
    }
  }

  /** The state of find_most_matched_channel's loop after the scores `seen`, none
      of which reached the early-exit score: `found` is the first greatest positive
      score, and maxMatches that score (0 when there is none). */
  predicate ChoiceSoFar(seen: seq<nat>, found: Option<nat>, maxMatches: nat)
  {
    && (forall j :: 0 <= j < |seen| ==> seen[j] <= maxMatches && seen[j] < EarlyExitScore)
    && (found.None? ==> maxMatches == 0)
    && (found.Some? ==>
          && found.value < |seen| && maxMatches == seen[found.value] > 0
          && forall j :: 0 <= j < found.value ==> seen[j] < maxMatches)
  }

  /** One more channel: its score either stays within the loop state or exits
      early, beating every score before it. */
  lemma ChoiceStep(seen: seq<nat>, found: Option<nat>, maxMatches: nat, x: nat)
    requires ChoiceSoFar(seen, found, maxMatches)
    ensures x < EarlyExitScore && x > maxMatches ==> ChoiceSoFar(seen + [x], Some(|seen|), x)
    ensures x < EarlyExitScore && x <= maxMatches ==> ChoiceSoFar(seen + [x], found, maxMatches)
    ensures x >= EarlyExitScore ==> x > maxMatches
    ensures x >= EarlyExitScore ==>
      forall j :: 0 <= j < |seen| ==> (seen + [x])[j] < x && (seen + [x])[j] < EarlyExitScore
  {
    assert found.Some? ==> maxMatches == seen[found.value] < EarlyExitScore;
  }

  /** A loop that runs to the end has made the choice IsChoice describes. */
  lemma ChoiceDone(scores: seq<nat>, found: Option<nat>, maxMatches: nat)
    requires ChoiceSoFar(scores, found, maxMatches)
    ensures IsChoice(scores, found)
  {
  }

  /** An early exit at channel i is the choice IsChoice describes, whatever the
      scores of the channels after it. */
  lemma EarlyChoice(scores: seq<nat>, seen: seq<nat>, i: nat)
    requires i < |scores| && seen == scores[..i + 1]
    requires seen[i] >= EarlyExitScore
    requires forall j :: 0 <= j < i ==> seen[j] < seen[i] && seen[j] < EarlyExitScore
    ensures IsChoice(scores, Some(i))
  {
    assert scores[i] == seen[i];
    forall j | 0 <= j < i
      ensures scores[j] < scores[i] && scores[j] < EarlyExitScore
    {
      assert scores[j] == seen[j];
    }
  }

  /** The pick is determined by the scores: at most one index satisfies IsChoice. */
  lemma ChoiceUnique(scores: seq<nat>, a: Option<nat>, b: Option<nat>)
    requires IsChoice(scores, a) && IsChoice(scores, b)
    ensures a == b
  {
  }

  /** A channel reaching the early-exit score is picked as soon as it is reached:
      the pick is the first channel scoring 4 or more. */
  lemma EarlyExitWins(scores: seq<nat>, found: Option<nat>, i: nat)
    requires IsChoice(scores, found)
    requires i < |scores| && scores[i] >= EarlyExitScore
    requires forall j :: 0 <= j < i ==> scores[j] < EarlyExitScore
    ensures found == Some(i)
  {
  }

  /** The score a player name gets against a member in add_players_discords: here
      the cut length is min(len(player), len(display_name.strip())). */
  function PairRatio(player: string, m: Member, ratio: (string, string) -> real): real
  {
    var k := Min(|player|, |Strip(m.displayName)|);
    ratio(Crop(Strip(Lower(player)), k), Crop(Strip(Lower(m.displayName)), k))
  }

  /** Every player's ratio against the member, in roster order. */
  function Ratios(players: seq<string>, m: Member, ratio: (string, string) -> real): (r: seq<real>)
    ensures |r| == |players|
  {
    if players == [] then []
    else Ratios(players[..|players| - 1], m, ratio) + [PairRatio(players[|players| - 1], m, ratio)]
  }

  /** The player add_players_discords links a member to: None when no ratio reaches
      the threshold, otherwise the first player with the greatest ratio. */
  predicate IsBest(ratios: seq<real>, best: Option<nat>)
  {
    && (best.None? <==> forall j :: 0 <= j < |ratios| ==> ratios[j] < MatchThreshold)
    && (best.Some? ==>
          && best.value < |ratios| && ratios[best.value] >= MatchThreshold
          && (forall j :: 0 <= j < |ratios| ==> ratios[j] <= ratios[best.value])
          && (forall j :: 0 <= j < best.value ==> ratios[j] < ratios[best.value]))
  }

  /** add_players_discords, per member: the first player with the highest ratio
      of at least 80, or None.  The result is an index into `players`. */
  method BestPlayerFor(m: Member, players: seq<string>, ratio: (string, string) -> real) returns (best: Option<nat>)
    ensures IsBest(Ratios(players, m, ratio), best)
  {
    ghost var seen: seq<real> := [];
    best := None;
    var bestRatio := 0.0;
    for i := 0 to |players|
      invariant seen == Ratios(players[..i], m, ratio)
      invariant BestSoFar(seen, best, bestRatio)
    {
      var similarity := PairRatio(players[i], m, ratio);
      assert players[..i + 1][..i] == players[..i];
      assert Ratios(players[..i + 1], m, ratio) == seen + [similarity];
      BestStep(seen, best, bestRatio, similarity);
      seen := seen + [similarity];
      if similarity >= MatchThreshold && similarity > bestRatio {
        bestRatio := similarity;
        best := Some(i);
      }
    }
    assert players[..|players|] == players;
    BestDone(seen, best, bestRatio);
  }

  /** The state of the loop over the players after the ratios `seen`: `best` is
      the first greatest ratio of at least 80 and bestRatio that ratio (0 when
      there is none). */
  predicate BestSoFar(seen: seq<real>, best: Option<nat>, bestRatio: real)
  {
    && (best.None? ==> bestRatio == 0.0 && forall j :: 0 <= j < |seen| ==> seen[j] < MatchThreshold)
    && (best.Some? ==>
          && best.value < |seen| && bestRatio == seen[best.value] >= MatchThreshold
          && (forall j :: 0 <= j < |seen| ==> seen[j] <= bestRatio)
          && (forall j :: 0 <= j < best.value ==> seen[j] < bestRatio))
  }

  /** One more player: a strictly greater ratio of at least 80 takes the lead,
      anything else leaves it. */
  lemma BestStep(seen: seq<real>, best: Option<nat>, bestRatio: real, x: real)
    requires BestSoFar(seen, best, bestRatio)
    ensures x >= MatchThreshold && x > bestRatio ==> BestSoFar(seen + [x], Some(|seen|), x)
    ensures !(x >= MatchThreshold && x > bestRatio) ==> BestSoFar(seen + [x], best, bestRatio)
  {
  }

  /** After the last player the loop state is the link IsBest describes. */
  lemma BestDone(ratios: seq<real>, best: Option<nat>, bestRatio: real)
    requires BestSoFar(ratios, best, bestRatio)
    ensures IsBest(ratios, best)
  {
  }

  /** At most one index satisfies IsBest: the link is determined by the ratios. */
  lemma BestUnique(ratios: seq<real>, a: Option<nat>, b: Option<nat>)
    requires IsBest(ratios, a) && IsBest(ratios, b)
    ensures a == b
  {
  }

  /** The score of a channel never exceeds the number of distinct normalised
      player names, because each player stops at its first matching member. */
  lemma ScoreBounded(members: seq<Member>, players: seq<string>, ratio: (string, string) -> real)
    ensures Score(members, players, ratio) <= |RosterKeys(players)|
  {
    ScoreCountsMatched(members, players, ratio);
    SubsetCard(Matched(RosterKeys(players), members, ratio), RosterKeys(players));
  }
}
