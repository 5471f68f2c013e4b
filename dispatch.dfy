/** The socket event dispatcher: each message from the game server is a JSON
    object whose "EventName" selects a handler.  Decoding is not modelled; a
    message that is not JSON arrives as `None`. */
module Dispatch {
  import opened Common

  /** The fields of an event the handlers read, with the defaults `json.get`
      supplies ("" for MatchID, [] for the name lists); "GameCode" is read with
      `[]`, so it may be missing. */
  datatype Event = Event(name: Option<string>, matchId: string, gameCode: Option<string>,
                         players: seq<string>, dead: seq<string>, impostors: seq<string>)

  datatype Handler = OnGameStart | OnMeetingStart | OnMeetingEnd | OnGameEnd | NoHandler

  /** The handler `handle_client` runs for a message.  A missing "GameCode"
      raises before any handler runs and is caught; meeting events reach their
      handlers only while auto-mute is on; other names are logged as unsupported. */
  function Route(msg: Option<Event>, autoMute: bool): (h: Handler)
    ensures h != NoHandler ==> msg.Some? && msg.value.gameCode.Some?
    ensures msg.Some? && msg.value.gameCode.Some? ==>
      && (h == OnGameStart <==> msg.value.name == Some("GameStart"))
      && (h == OnGameEnd <==> msg.value.name == Some("GameEnd"))
      && (h == OnMeetingStart <==> autoMute && msg.value.name == Some("MeetingStart"))
      && (h == OnMeetingEnd <==> autoMute && msg.value.name == Some("MeetingEnd"))
  {
    match msg
    case None => NoHandler
    case Some(ev) =>
      if ev.gameCode.None? then NoHandler
      else if ev.name == Some("GameStart") then OnGameStart
      else if ev.name == Some("MeetingStart") then (if autoMute then OnMeetingStart else NoHandler)
      else if ev.name == Some("MeetingEnd") then (if autoMute then OnMeetingEnd else NoHandler)
      else if ev.name == Some("GameEnd") then OnGameEnd
      else NoHandler
  }

  /** Auto-mute gates the meeting handlers and nothing else. */
  lemma AutoMuteGatesOnlyMeetings(msg: Option<Event>)
    ensures Route(msg, true) != Route(msg, false) ==>
      Route(msg, false) == NoHandler && Route(msg, true) in {OnMeetingStart, OnMeetingEnd}
    ensures Route(msg, false) !in {OnMeetingStart, OnMeetingEnd}
  {
  }

  /** Game start and game end are routed whatever the auto-mute setting. */
  lemma GameEventsAlwaysRouted(ev: Event, autoMute: bool)
    requires ev.gameCode.Some? && ev.name in {Some("GameStart"), Some("GameEnd")}
    ensures Route(Some(ev), autoMute) in {OnGameStart, OnGameEnd}
  {
  }
}
