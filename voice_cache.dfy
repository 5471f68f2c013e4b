/** The bot's cache of who is in each ranked voice channel, kept up to date from
    voice-state events.  A voice state's channel is given by its id, `None` when
    the member is in no voice channel. */
module VoiceCache {
  import opened Common
  import opened Correlator

  /** No member is listed twice. */
  predicate Unique<T(==)>(s: seq<T>)
  {
    forall y :: y in s ==> multiset(s)[y] == 1
  }

  function VoiceIds(channels: seq<Channel>): set<int>
  {
    set c | c in channels :: c.voiceId
  }

  /** The event moves the member between channels and one end is a ranked channel. */
  predicate Relevant(channels: seq<Channel>, before: Option<int>, after: Option<int>)
  {
    before != after
    && ((before.Some? && before.value in VoiceIds(channels)) || (after.Some? && after.value in VoiceIds(channels)))
  }

  /** One channel's list after the event: the member leaves the channel it was
      in (the first occurrence goes) or joins the one it moved to (unless already
      listed); the channel it left is checked first. */
  function MembersAfter(c: Channel, m: Member, before: Option<int>, after: Option<int>): seq<Member>
  {
    if before.Some? && before.value == c.voiceId then
      (if m in c.members then RemoveFirst(c.members, m) else c.members)
    else if after.Some? && after.value == c.voiceId then
      (if m !in c.members then c.members + [m] else c.members)
    else c.members
  }

  function ChannelAfter(c: Channel, m: Member, before: Option<int>, after: Option<int>): Channel
  {
    c.(members := MembersAfter(c, m, before, after))
  }

  /** The update leaves every other member's entries alone and keeps lists free of
      duplicates. */
  lemma UpdateKeepsOthers(c: Channel, m: Member, before: Option<int>, after: Option<int>)
    ensures forall x :: x != m ==> multiset(MembersAfter(c, m, before, after))[x] == multiset(c.members)[x]
    ensures Unique(c.members) ==> Unique(MembersAfter(c, m, before, after))
  {
    var r := MembersAfter(c, m, before, after);
    var leaves := before.Some? && before.value == c.voiceId;
    if leaves && m in c.members {
      RemoveFirstCounts(c.members, m);
      assert multiset(r) == multiset(c.members) - multiset{m};
    } else if !leaves && after.Some? && after.value == c.voiceId && m !in c.members {
      assert multiset(r) == multiset(c.members) + multiset{m};
    } else {
      assert r == c.members;
    }
    if Unique(c.members) {
      forall y | y in r
        ensures multiset(r)[y] == 1
      {
        assert y in multiset(r);
        if y != m || m in c.members {
          assert y in multiset(c.members);
        }
      }
    }
  }

  /** A member leaving a channel it was listed in once is no longer listed. */
  lemma LeaveRemoves(c: Channel, m: Member, before: Option<int>, after: Option<int>)
    requires Unique(c.members) && before == Some(c.voiceId)
    ensures m !in MembersAfter(c, m, before, after)
  {
    var r := MembersAfter(c, m, before, after);
    if m in c.members {
      RemoveFirstCounts(c.members, m);
      assert multiset(r)[m] == 0;
    }
  }

  /** A member moving into a channel is listed there afterwards. */
  lemma JoinAdds(c: Channel, m: Member, before: Option<int>, after: Option<int>)
    requires after == Some(c.voiceId) && before != Some(c.voiceId)
    ensures m in MembersAfter(c, m, before, after)
  {
  }
}
