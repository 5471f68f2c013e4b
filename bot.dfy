/** The bot object: the registry of games in progress, the configured ranked
    channels with their voice caches, and the auto-mute switch, with the event
    handlers that read and update them.  What the bot learns from the platform
    and from the match files arrives through a `World` of oracles. */
module Bot {
  import opened Common
  import opened Correlator
  import opened Reconciler
  import opened Registry
  import opened Poller
  import opened Dispatch
  import opened VoiceCache

  /** The outside world as the handlers see it: the two fuzzy scorers, the
      members of a voice channel (`None` when `get_channel` finds no channel),
      whether a text channel and the match-log channel exist, and the k-th
      `process_match_by_id` result for a match id. */
  datatype World = World(ratio: (string, string) -> real,
                         sim: (string, string) -> real,
                         voiceMembers: int -> Option<seq<Member>>,
                         textFound: int -> bool,
                         logFound: bool,
                         fetch: (string, nat) -> MatchResult)

  const NoticePrefix := "Could not perform automute on "

  /** The text-channel notice for an occupant no pass could match. */
  function Notice(o: Occupant): string
  {
    NoticePrefix + o.member.displayName
  }

  /** The same edit for every member of a voice channel. */
  function AllEdits(members: seq<Member>, mute: bool, deafen: bool): (r: seq<Edit>)
    ensures |r| == |members|
    ensures forall k :: 0 <= k < |r| ==> r[k] == Edit(members[k], mute, deafen)
  {
    seq(|members|, k requires 0 <= k < |members| => Edit(members[k], mute, deafen))
  }

  /** `set(names)` */
  function SetOf(names: seq<string>): set<string>
  {
    set n | n in names
  }

  /** The meeting-end test: every impostor is dead (trivially so with no impostors). */
  predicate ImpostorsDead(ev: Event)
  {
    SetOf(ev.impostors) <= SetOf(ev.dead)
  }

  /** `members_in_vc` holds each voice member once, under its normalised name. */
  predicate Collected(members: seq<Member>, occupants: seq<Occupant>)
  {
    && Distinct(occupants)
    && (forall m :: m in members ==> OccupantOf(m) in occupants)
    && (forall o :: o in occupants ==> o.member in members && o == OccupantOf(o.member))
  }

  /** `members_in_vc`: the normalised name paired with each voice member, as a set;
      the list order with repeats dropped stands for the set's iteration order. */
  method CollectOccupants(members: seq<Member>) returns (occupants: seq<Occupant>)
    ensures Distinct(occupants)
    ensures forall m :: m in members ==> OccupantOf(m) in occupants
    ensures forall o :: o in occupants ==> o.member in members && o == OccupantOf(o.member)
  {
    occupants := [];
    for i := 0 to |members|
      invariant Distinct(occupants)
      invariant forall m :: m in members[..i] ==> OccupantOf(m) in occupants
      invariant forall o :: o in occupants ==> o.member in members && o == OccupantOf(o.member)
    {
      var o := OccupantOf(members[i]);
      if o !in occupants {
        occupants := occupants + [o];
      }
      assert members[..i + 1] == members[..i] + [members[i]];
    }
    assert members[..|members|] == members;
  }

  /** The dead and the alive names of an event, normalised (alive = players - dead). */
  function DeadKeys(ev: Event): set<string>
  {
    TargetKeys(SetOf(ev.dead))
  }

  function AliveKeys(ev: Event): set<string>
  {
    TargetKeys(SetOf(ev.players) - SetOf(ev.dead))
  }

  /** The reconciler run on a voice channel's members against an event's dead and
      alive players.  Returns `members_in_vc` too, since the passes visit it in order. */
  method ReconcileVoice(phase: Phase, members: seq<Member>, ev: Event, sim: (string, string) -> real)
    returns (occupants: seq<Occupant>, matched: seq<Assignment>, edits: seq<Edit>, unresolved: seq<Occupant>)
    ensures Collected(members, occupants)
    ensures Reconciled(phase, occupants, DeadKeys(ev), AliveKeys(ev), sim, matched, unresolved)
    ensures edits == EditsFor(phase, matched)
    ensures forall m :: m in members ==> (OccupantOf(m) in unresolved <==> OccupantOf(m) !in Owners(matched))
    ensures forall o :: o in unresolved ==> o.member in members
    ensures forall a :: a in matched ==> a.occupant.member in members
  {
    occupants := CollectOccupants(members);
    matched, edits, unresolved := Reconcile(phase, occupants, DeadKeys(ev), AliveKeys(ev), sim);
  }

  /** The notices posted for the occupants no pass could match. */
  function Notices(unresolved: seq<Occupant>): (r: seq<string>)
    ensures |r| == |unresolved|
    ensures forall k :: 0 <= k < |unresolved| ==> r[k] == Notice(unresolved[k])
  {
    seq(|unresolved|, k requires 0 <= k < |unresolved| => Notice(unresolved[k]))
  }

  /** What `handle_game_start` does to the registry and the channels, and the edits
      it issues, from the state it started in. */
  predicate GameStarted(games0: seq<Game>, channels0: seq<Channel>, autoMute: bool, ev: Event, w: World,
                        found: Option<nat>, games: seq<Game>, channels: seq<Channel>, edits: seq<Edit>)
    requires ev.gameCode.Some?
  {
    && IsChoice(Scores(channels0, ev.players, w.ratio), found)
    && (found.None? || Conflicts(games0, channels0[found.value].voiceId, ev.gameCode.value) ==>
          games == games0 && channels == channels0 && edits == [])
    && (found.Some? && !Conflicts(games0, channels0[found.value].voiceId, ev.gameCode.value) ==>
          var c := channels0[found.value];
          && games == games0 + [Game(ev.gameCode.value, ev.matchId, SetOf(ev.players), c.voiceId)]
          && channels == channels0[found.value := c.(membersInMatch := c.members)]
          && edits == (if autoMute && w.voiceMembers(c.voiceId).Some? then AllEdits(w.voiceMembers(c.voiceId).value, true, true) else []))
  }

  /** What `handle_game_end` does to the registry and the channels, the edits it
      issues and the poll of the match file, from the state it started in. */
  predicate GameEnded(games0: seq<Game>, channels0: seq<Channel>, autoMute: bool, ev: Event, w: World,
                      found: Option<nat>, edits: seq<Edit>, polled: Option<MatchResult>, calls: nat,
                      games: seq<Game>, channels: seq<Channel>)
    requires ev.gameCode.Some?
  {
    && IsChoice(Scores(channels0, ev.players, w.ratio), found)
    && (found.None? ==> games == games0 && channels == channels0 && edits == [] && polled == None)
    && (found.Some? ==>
          var c := channels0[found.value];
          var r := EndSweep(games0, 0, ev.gameCode.value, c.voiceId, ev.matchId);
          && games == r.games
          && (r.conflict ==> channels == channels0 && edits == [] && polled == None)
          && (!r.conflict ==>
                && edits == (if autoMute && w.voiceMembers(c.voiceId).Some? then AllEdits(w.voiceMembers(c.voiceId).value, false, false) else [])
                && 1 <= calls <= Retries + 1 && polled == Some(w.fetch(r.matchId, calls - 1))
                && (forall k :: 0 <= k < calls - 1 ==> !Acceptable(w.fetch(r.matchId, k)))
                && (calls <= Retries ==> Acceptable(polled.value))
                && channels == (if w.textFound(c.textId) && w.logFound
                                then channels0[found.value := c.(membersInMatch := [])] else channels0)))
  }

  /** The occupants no pass matched would each get a notice, and the edits are
      gathered after the notices; a missing text channel raises at the first
      notice, so nothing is sent and no edit is applied. */
  predicate Delivered(unresolved: seq<Occupant>, textId: int, w: World)
  {
    unresolved == [] || w.textFound(textId)
  }

  /** The meeting handler gets past its guards: a channel was found, its lobby
      does not conflict, the meeting end is not skipped, and the voice channel exists. */
  predicate Proceeds(games: seq<Game>, channels: seq<Channel>, phase: Phase, ev: Event, w: World, found: Option<nat>)
    requires ev.gameCode.Some?
  {
    && found.Some? && found.value < |channels|
    && !Conflicts(games, channels[found.value].voiceId, ev.gameCode.value)
    && !(phase == MeetingEnded && ImpostorsDead(ev))
    && w.voiceMembers(channels[found.value].voiceId).Some?
  }

  /** What a meeting handler finds and issues in a given state: nothing when a
      guard stops it; otherwise the three passes over the voice channel's
      occupants, and their edits and notices unless the text channel is missing. */
  ghost predicate MeetingHandled(games: seq<Game>, channels: seq<Channel>, phase: Phase, ev: Event, w: World,
                                 found: Option<nat>, occupants: seq<Occupant>, matched: seq<Assignment>,
                                 unresolved: seq<Occupant>, edits: seq<Edit>, notices: seq<string>)
    requires ev.gameCode.Some?
  {
    && IsChoice(Scores(channels, ev.players, w.ratio), found)
    && (!Proceeds(games, channels, phase, ev, w, found) ==>
          occupants == [] && matched == [] && unresolved == [] && edits == [] && notices == [])
    && (Proceeds(games, channels, phase, ev, w, found) ==>
          var c := channels[found.value];
          && Collected(w.voiceMembers(c.voiceId).value, occupants)
          && Reconciled(phase, occupants, DeadKeys(ev), AliveKeys(ev), w.sim, matched, unresolved)
          && (Delivered(unresolved, c.textId, w) ==> edits == EditsFor(phase, matched) && notices == Notices(unresolved))
          && (!Delivered(unresolved, c.textId, w) ==> edits == [] && notices == []))
  }

  class DiscordBot {
    var games: seq<Game>
    var channels: seq<Channel>
    var autoMute: bool

    /** The registry never holds two lobbies on one voice channel, and no voice
        cache lists a member twice. */
    ghost predicate Valid()
      reads this
    {
      Consistent(games) && forall c :: c in channels ==> Unique(c.members)
    }

    constructor(ranked: seq<Channel>)
      requires forall c :: c in ranked ==> Unique(c.members)
      ensures Valid() && games == [] && channels == ranked && autoMute
    {
      games := [];
      channels := ranked;
      autoMute := true;
    }

    /** `handle_game_start`: pick the channel, refuse a lobby that conflicts with a
        running game, otherwise register the game, capture the channel's members
        for the match and, with auto-mute on, mute and deafen the voice channel.
        Without a channel the handler raises before changing anything. */
    method HandleGameStart(ev: Event, w: World) returns (found: Option<nat>, edits: seq<Edit>)
      requires Valid() && ev.gameCode.Some?
      modifies this
      ensures Valid() && autoMute == old(autoMute)
      ensures GameStarted(old(games), old(channels), autoMute, ev, w, found, games, channels, edits)
    {
      var code := ev.gameCode.value;
      edits := [];
      found := FindMostMatchedChannel(channels, ev.players, w.ratio);
      if found.None? {
        return;
      }
      var c := channels[found.value];
      var conflict := FindConflict(games, c.voiceId, code);
      if conflict {
        return;
      }
      var g := Game(code, ev.matchId, SetOf(ev.players), c.voiceId);
      AppendKeepsConsistent(games, g);
      games := games + [g];
      channels := channels[found.value := c.(membersInMatch := c.members)];
      if autoMute {
        var voice := w.voiceMembers(c.voiceId);
        if voice.Some? {
          edits := AllEdits(voice.value, true, true);
        }
      }
    }

    /** `handle_game_end`: sweep the registry (see `EndSweep`), stopping at a
        conflicting lobby; otherwise unmute the voice channel with auto-mute on,
        poll the match file under the adopted match id, and, once both result
        posts found their channels, clear the members captured for the match. */
    method HandleGameEnd(ev: Event, w: World)
      returns (found: Option<nat>, edits: seq<Edit>, polled: Option<MatchResult>, calls: nat)
      requires Valid() && ev.gameCode.Some?
      modifies this
      ensures Valid() && autoMute == old(autoMute)
      ensures GameEnded(old(games), old(channels), autoMute, ev, w, found, edits, polled, calls, games, channels)
    {
      var code := ev.gameCode.value;
      edits, polled, calls := [], None, 0;
      found := FindMostMatchedChannel(channels, ev.players, w.ratio);
      if found.None? {
        return;
      }
      var c := channels[found.value];
      var matchId, conflict := SweepGames(code, c.voiceId, ev.matchId);
      if conflict {
        return;
      }
      if autoMute {
        var voice := w.voiceMembers(c.voiceId);
        if voice.Some? {
          edits := AllEdits(voice.value, false, false);
        }
      }
      var fetch := (k: nat) => w.fetch(matchId, k);
      var last, sleeps, warned;
      last, calls, sleeps, warned := Poll(fetch);
      forall k | 0 <= k < calls - 1
        ensures !Acceptable(w.fetch(matchId, k))
      {
        assert fetch(k) == w.fetch(matchId, k);
      }
      polled := Some(last);
      if w.textFound(c.textId) && w.logFound {
        channels := channels[found.value := c.(membersInMatch := [])];
      }
    }

    /** The loop of `handle_game_end` over the registry, removing the ending
        game's records while it walks them and adopting their stored MatchID. */
    method SweepGames(code: string, voiceId: int, matchId0: string) returns (matchId: string, conflict: bool)
      requires Valid()
      modifies this
      ensures Valid() && channels == old(channels) && autoMute == old(autoMute)
      ensures EndSweep(old(games), 0, code, voiceId, matchId0) == SweepOutcome(games, matchId, conflict)
    {
      ghost var r := EndSweep(games, 0, code, voiceId, matchId0);
      SweepKeepsOthers(games, 0, code, voiceId, matchId0);
      SubKeepsConsistent(games, r.games);
      var i := 0;
      matchId := matchId0;
      while i < |games|
        invariant EndSweep(games, i, code, voiceId, matchId) == r
        invariant channels == old(channels) && autoMute == old(autoMute)
        decreases |games| - i
      {
        var g := games[i];
        if g.voiceId == voiceId && code != g.code {
          return matchId, true;
        }
        if g.code == code {
          matchId := g.matchId;
          games := RemoveFirst(games, g);
        }
        i := i + 1;
      }
      conflict := false;
    }

    /** `handle_meeting_start` and `handle_meeting_end`: pick the channel, refuse a
        conflicting lobby, skip the end of a meeting after which every impostor is
        dead, then reconcile the voice channel's occupants with the dead and the
        alive players' names.  Returns the matches, the edits and notices issued,
        and the occupants left unresolved. */
    method HandleMeeting(phase: Phase, ev: Event, w: World)
      returns (found: Option<nat>, occupants: seq<Occupant>, matched: seq<Assignment>, unresolved: seq<Occupant>,
               edits: seq<Edit>, notices: seq<string>)
      requires ev.gameCode.Some?
      ensures MeetingHandled(games, channels, phase, ev, w, found, occupants, matched, unresolved, edits, notices)
    {
      var code := ev.gameCode.value;
      occupants, matched, unresolved, edits, notices := [], [], [], [], [];
      found := FindMostMatchedChannel(channels, ev.players, w.ratio);
      if found.None? {
        return;
      }
      var c := channels[found.value];
      var conflict := FindConflict(games, c.voiceId, code);
      if conflict || (phase == MeetingEnded && ImpostorsDead(ev)) {
        return;
      }
      var voice := w.voiceMembers(c.voiceId);
      if voice.None? {
        return;
      }
      var queued;
      occupants, matched, queued, unresolved := ReconcileVoice(phase, voice.value, ev, w.sim);
      if Delivered(unresolved, c.textId, w) {
        edits := queued;
        notices := Notices(unresolved);
      }
    }

    /** `on_voice_state_update`: when a member moves and either end is a ranked
        voice channel, every ranked channel's cache is updated. */
    method OnVoiceStateUpdate(m: Member, before: Option<int>, after: Option<int>)
      requires Valid()
      modifies this
      ensures Valid() && games == old(games) && autoMute == old(autoMute)
      ensures |channels| == |old(channels)|
      ensures forall k :: 0 <= k < |channels| ==>
        channels[k] == if Relevant(old(channels), before, after) then ChannelAfter(old(channels)[k], m, before, after)
                       else old(channels)[k]
    {
      if Relevant(channels, before, after) {
        ghost var channels0 := channels;
        for i := 0 to |channels|
          invariant |channels| == |channels0| && games == old(games) && autoMute == old(autoMute)
          invariant forall k :: 0 <= k < i ==> channels[k] == ChannelAfter(channels0[k], m, before, after)
          invariant forall k :: i <= k < |channels| ==> channels[k] == channels0[k]
          invariant forall c :: c in channels ==> Unique(c.members)
        {
          UpdateKeepsOthers(channels[i], m, before, after);
          channels := channels[i := ChannelAfter(channels[i], m, before, after)];
        }
      }
    }

    /** `handle_client`: route a decoded message to its handler.  Handlers that
        raise are caught here, which the handlers model by leaving the state alone. */
    method HandleClient(msg: Option<Event>, w: World) returns (edits: seq<Edit>, notices: seq<string>)
      requires Valid()
      modifies this
      ensures Valid() && autoMute == old(autoMute)
      ensures Route(msg, old(autoMute)) == NoHandler ==>
        games == old(games) && channels == old(channels) && edits == [] && notices == []
      ensures Route(msg, old(autoMute)) == OnGameStart ==>
        && notices == []
        && exists found :: GameStarted(old(games), old(channels), autoMute, msg.value, w, found, games, channels, edits)
      ensures Route(msg, old(autoMute)) == OnGameEnd ==>
        && notices == []
        && exists found, polled, calls ::
             GameEnded(old(games), old(channels), autoMute, msg.value, w, found, edits, polled, calls, games, channels)
      ensures Route(msg, old(autoMute)) == OnMeetingStart ==>
        && games == old(games) && channels == old(channels)
        && exists found, occupants, matched, unresolved ::
             MeetingHandled(games, channels, MeetingStarted, msg.value, w, found, occupants, matched, unresolved, edits, notices)
      ensures Route(msg, old(autoMute)) == OnMeetingEnd ==>
        && games == old(games) && channels == old(channels)
        && exists found, occupants, matched, unresolved ::
             MeetingHandled(games, channels, MeetingEnded, msg.value, w, found, occupants, matched, unresolved, edits, notices)
    {
      edits, notices := [], [];
      match Route(msg, autoMute)
      case NoHandler =>
      case OnGameStart =>
        var found;
        found, edits := HandleGameStart(msg.value, w);
      case OnMeetingStart =>
        var found, occupants, matched, unresolved;
        found, occupants, matched, unresolved, edits, notices := HandleMeeting(MeetingStarted, msg.value, w);
      case OnMeetingEnd =>
        var found, occupants, matched, unresolved;
        found, occupants, matched, unresolved, edits, notices := HandleMeeting(MeetingEnded, msg.value, w);
      case OnGameEnd =>
        var found, polled, calls;
        found, edits, polled, calls := HandleGameEnd(msg.value, w);
    }
  }
}
