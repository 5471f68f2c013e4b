# Ranked Among Us bot and Pocket Mortys helpers — a Dafny model

This project models the decision logic of a Discord bot that runs ranked
Among Us lobbies. It also models two helper scripts for the Pocket Mortys game.

**The bot** (`extras_and_tests/discord_bot.py`) receives game-server events over a
socket: GameStart, MeetingStart, MeetingEnd and GameEnd. The model covers:

- the registry of games in progress and its lobby-conflict check, plus the end-of-game
  sweep that removes records while iterating over them (modules `Registry` and `Bot`);
- the channel correlator, which picks the ranked voice channel whose members best
  match the reported players using a cropped fuzzy ratio (`Correlator`);
- the three-pass identity reconciler of the meeting handlers, which turns voice
  occupants into mute/deafen edits (`Reconciler`);
- the finalisation poller (`Poller`);
- the voice-membership cache (`VoiceCache`);
- the event dispatcher (`Dispatch`);
- the rank-tier tables (`Tiers`) and the rank-block duration parser (`RankBlock`).

The bot itself is the class `Bot.DiscordBot`. Its fields are `games`, `channels` and
`autoMute`. Its handlers update them in place. The fuzzy scorers (rapidfuzz's
`fuzz.ratio`, difflib's ratio), the platform's channel lookup and the match-file
reader are oracles collected in a `World` value. The only property the model
assumes of difflib's ratio is `Reconciler.ExactAtOne`: it reaches 1.0 exactly on
identical strings.

**The IV calculator** (`mortyBot.py`, with a copy in `extras_and_tests/test_iv.py`)
inverts the Morty stat formulas. It searches IVs 0..16 and reports one IV, a
range, or none. It also formats the report (`MortyIv`). The test copy's formulas and
searches are the same code, so `TestIv` reuses `MortyIv`'s members. Only its
`calculate_iv` is modelled separately.

**The image scraper** (`extras_and_tests/webscrapper.py`) turns a Morty's name into
the wiki's image name and the local file name (`MortyNames`).

Behaviour worth noting:

- The meeting-end skip tests only that every impostor is dead (a meeting with
  impostors all dead is not reconciled), and only the meeting-end handler has it.
- A missing text channel is not a per-occupant failure. The first notice raises, so
  no notice is sent and no edit of that meeting is applied (`Bot.Delivered`).
- The start handler checks for a conflict once, at entry.
- The game-end sweep removes records from the list it is iterating over, so the
  record after a removed one is never looked at (`Registry.SweepSkipsNext`).

## Model

| member | source | states |
|---|---|---|
| Common.RemoveFirst | extras_and_tests/discord_bot.py:1524 | `list.remove(x)` on a list holding x makes it one shorter; a list without x is left as it is |
| Common.RemoveFirstCounts | extras_and_tests/discord_bot.py:1524 | `list.remove(x)` takes exactly one x out of the multiset of elements and nothing else |
| Common.RemoveFirstAt | extras_and_tests/discord_bot.py:1524 | when no earlier element equals s[i], `list.remove(s[i])` removes exactly position i |
| Common.DigitsValueOfNatToString | extras_and_tests/discord_bot.py:643 | `int(str(n)) == n` for every non-negative n |
| Common.DigitsOfAppend | extras_and_tests/discord_bot.py:643 | filtering digits distributes over concatenation, so the digits of a duration are read in order across its parts |
| Tiers.StatsTierMatchesThresholds | extras_and_tests/discord_bot.py:99-143 | the `stats` command's first-matching band gives, for every MMR, the tier of the threshold reading (each upper bound belongs to the lower tier) |
| Tiers.RoleTierMatchesOnIntegers | extras_and_tests/discord_bot.py:1440-1496 | the role lookup with its gapped bands agrees with the threshold reading on every integer MMR |
| Tiers.RoleTierGap | extras_and_tests/discord_bot.py:1487-1496 | a fractional MMR between two role bands (850.5) gets no role, while the `stats` table still gives it Bronze |
| Tiers.StatsTier | extras_and_tests/discord_bot.py:99-143 | the tier of the first `stats` band the MMR falls in, none below the first band (see `StatsTierMatchesThresholds`) |
| Tiers.RoleTier | extras_and_tests/discord_bot.py:1440-1496 | the ranked role of the first role band the MMR falls in, none in the gaps between bands (see `RoleTierMatchesOnIntegers`, `RoleTierGap`) |
| RankBlock.Delta | extras_and_tests/discord_bot.py:645-650 | a `timedelta` of n minutes is an OverflowError exactly when its whole days exceed 999999999, else n minutes |
| RankBlock.UnblockRoundTrip | extras_and_tests/discord_bot.py:642-651 | a number followed by 'm', 'h' or 'd' gives that many minutes, hours or days, in minutes, up to the `timedelta` limit; beyond it the OverflowError |
| RankBlock.NoDigitsRaises | extras_and_tests/discord_bot.py:643 | a duration without digits is the `int('')` error |
| RankBlock.NoDigitsLeft | extras_and_tests/discord_bot.py:643 | filtering digits out of a digit-free string leaves nothing |
| RankBlock.MixedUnitsConcatenate | extras_and_tests/discord_bot.py:643-645 | "1h30m" concatenates its digits to 130 and takes the 'm' unit: 130 minutes |
| RankBlock.UnblockOffset | extras_and_tests/discord_bot.py:642-651 | all digits read as one number; the unit is minutes if the text has an 'm', else hours if 'h', else days if 'd'; no digits is the `int('')` error and no unit gives None; the day limit is `Delta`'s (see `UnblockRoundTrip`) |
| Correlator.PlayerMatched | extras_and_tests/discord_bot.py:1118-1126 | the inner loop stops at the first member whose cropped ratio reaches 80, and finds one exactly when such a member exists |
| Correlator.ScoreCountsMatched | extras_and_tests/discord_bot.py:1113-1126 | a channel's score is the number of distinct normalised players matched by some member |
| Correlator.ChannelScore | extras_and_tests/discord_bot.py:1117-1126 | the counting loop computes that score, which is at most the number of distinct normalised players |
| Correlator.ScoreBounded | extras_and_tests/discord_bot.py:1113-1126 | a score never exceeds the number of distinct lower/strip-normalised players |
| Correlator.FindMostMatchedChannel | extras_and_tests/discord_bot.py:1109-1132 | None exactly when every channel scores 0. Otherwise the first channel scoring 4 or more, or else the first with the strictly greatest positive score |
| Correlator.ChoiceUnique | extras_and_tests/discord_bot.py:1127-1132 | the selection rule determines a single answer for given scores |
| Correlator.EarlyExitWins | extras_and_tests/discord_bot.py:1130-1131 | when some channel reaches 4, the choice is the first such channel |
| Correlator.BestPlayerFor | extras_and_tests/discord_bot.py:1141-1150 | the per-member best player: none unless some cropped ratio reaches 80; otherwise the first player with the greatest ratio |
| Correlator.BestUnique | extras_and_tests/discord_bot.py:1141-1150 | the best-player rule determines a single answer |
| Reconciler.UniqueCloseMatch | extras_and_tests/discord_bot.py:1244-1245 | `len(get_close_matches(...)) == 1` holds exactly when one target reaches the cutoff, and then names that target |
| Reconciler.SoleMatch | extras_and_tests/discord_bot.py:1244-1245 | the name the `len(...) == 1` test accepts: present exactly when one target reaches the cutoff, and then that target |
| Reconciler.ExactCloseMatches | extras_and_tests/discord_bot.py:1244 | at cutoff 1.0 the close matches of a name are the name itself when it is a target, and nothing otherwise |
| Reconciler.AddedNames | extras_and_tests/discord_bot.py:1244-1257 | one occupant's visit takes at most the found dead name and the found alive name |
| Reconciler.AddedUnambiguous | extras_and_tests/discord_bot.py:1268-1280 | a name accepted as the only close match leaves no other remaining name of its set at the cutoff |
| Reconciler.VisitOutcome | extras_and_tests/discord_bot.py:1268-1284 | one occupant's visit: dead before alive, at most one name per set, consumed names leave their sets, kept exactly when nothing matched (then neither set had a unique match) |
| Reconciler.Visit | extras_and_tests/discord_bot.py:1239-1261 | the loop body of a pass, with the meeting-start `continue` after a dead match, meets that outcome and takes the names `PicksFor` gives: the sole dead close match, then (unless exclusive and that matched) the sole alive one |
| Reconciler.PicksFor | extras_and_tests/discord_bot.py:1239-1261 | the names one visit takes: the sole close dead match, then, unless the pass is exclusive and that matched, the sole close alive match |
| Reconciler.Run | extras_and_tests/discord_bot.py:1239-1261 | a whole pass as a fold of one visit over the occupants in order, from the given name sets (what `Pass` computes) |
| Reconciler.ExtendNames | extras_and_tests/discord_bot.py:1246 | removing names from a set one occupant at a time consumes exactly the matched names, each once |
| Reconciler.ExtendOnce | extras_and_tests/discord_bot.py:1246 | no name is ever given to two occupants within a pass |
| Reconciler.ExtendUnambiguous | extras_and_tests/discord_bot.py:1270-1280 | earlier matches stay unambiguous as the sets shrink |
| Reconciler.ExtendOwners | extras_and_tests/discord_bot.py:1239-1261 | each occupant is visited once; its matches are adjacent, dead then alive, and only in a non-exclusive pass |
| Reconciler.StepNames | extras_and_tests/discord_bot.py:1239-1261 | one loop step keeps the name bookkeeping of a pass |
| Reconciler.StepOwners | extras_and_tests/discord_bot.py:1239-1261 | one loop step keeps the occupant bookkeeping: matched or left over, not both |
| Reconciler.OwnersDone | extras_and_tests/discord_bot.py:1258-1259 | after the loop, every occupant is either matched or in `remaining_members` |
| Reconciler.Pass | extras_and_tests/discord_bot.py:1239-1261 | the loop computes `Run`, the occupant-by-occupant fold of the visit; names consumed once each, matches unambiguous at the cutoff, occupants split into matched and left, and an occupant is left exactly when neither set held a single close match of it when the loop reached it; at cutoff 1.0 every match is the occupant's own normalised name and a left occupant's name is in neither remaining set |
| Reconciler.RunKept | extras_and_tests/discord_bot.py:1239-1304 | for occupants without repeats, a pass keeps for the next pass exactly the occupants for which, with the names still unclaimed when reached, neither `get_close_matches` call returned a single name |
| Reconciler.ExactKept | extras_and_tests/discord_bot.py:1242-1259 | an occupant the exact pass leaves over has a normalised name that is in neither remaining set |
| Reconciler.ExactNames | extras_and_tests/discord_bot.py:1244 | in the exact pass every accepted name equals the occupant's normalised name |
| Reconciler.ComposePasses | extras_and_tests/discord_bot.py:1263-1304 | a pass over the previous pass's leftovers keeps the split of occupants, with at most a dead-then-alive pair per occupant |
| Reconciler.ComposeNames | extras_and_tests/discord_bot.py:1263-1304 | across passes each in-game name is consumed at most once and the sets only shrink |
| Reconciler.EditFor | extras_and_tests/discord_bot.py:1245-1255 | meeting start: dead muted and not deafened, alive neither. Meeting end (lines 1343-1355): dead neither, alive muted and deafened |
| Reconciler.DeafenedAreMuted | extras_and_tests/discord_bot.py:1245-1255 | no edit deafens without muting |
| Reconciler.EditsFor | extras_and_tests/discord_bot.py:1245-1295 | one edit per match, in order, each the `EditFor` of its side |
| Reconciler.Reconcile | extras_and_tests/discord_bot.py:1238-1304 | the matches are those of the three passes in order (1.0, exclusive at meeting start; 0.9 over its leftovers and remaining names; 0.75 likewise) and the unresolved are what the last leaves; each pass kept exactly the occupants with no single close match when reached; occupants split into matched and unresolved, each name used at most once, cutoff 0.75 reached, one edit per match in order, and no unresolved occupant's normalised name is still an unused target |
| Registry.AppendKeepsConsistent | extras_and_tests/discord_bot.py:1174-1182 | appending a non-conflicting record keeps "records on one voice channel share a code" |
| Registry.SubKeepsConsistent | extras_and_tests/discord_bot.py:1516-1524 | dropping records keeps that invariant |
| Registry.Others | extras_and_tests/discord_bot.py:1520 | the records with another code |
| Registry.OthersRemoveFirst | extras_and_tests/discord_bot.py:1524 | removing a record of the ending game leaves the other games' records and their order alone |
| Registry.SweepKeepsOthers | extras_and_tests/discord_bot.py:1516-1524 | the game-end sweep never touches records with another code, nor their order, and only drops records |
| Registry.SweepRemoved | extras_and_tests/discord_bot.py:1516-1524 | the records the sweep removes, in order, all with the event's code |
| Registry.SweepRemovesTrace | extras_and_tests/discord_bot.py:1516-1524 | the registry after the sweep is the registry less exactly the removed records |
| Registry.SweepAdoptsLast | extras_and_tests/discord_bot.py:1520-1522 | the match id used afterwards is the stored MatchID of the last record removed, or the event's own when none was |
| Registry.SweepRemovesFirstOfCode | extras_and_tests/discord_bot.py:1516-1524 | when no record before the first one with the event's code conflicts, that record is the first removed and one copy of it leaves the registry |
| Registry.SweepKeepsBehind | extras_and_tests/discord_bot.py:1516-1524 | when every record from the index on is the first of its value (as in a registry without repeated records), the sweep never changes the records behind its index |
| Registry.SweepSkipsNext | extras_and_tests/discord_bot.py:1516-1524 | the record after a removed one slides into its place behind the index: it is never checked for a conflict and stays registered |
| Registry.SweepWithoutCode | extras_and_tests/discord_bot.py:1516-1524 | with no record of the code and none on the channel, the sweep changes nothing |
| Registry.SweepSkipsSecond | extras_and_tests/discord_bot.py:1516-1524 | of two consecutive records of the ending game, the second slides into the removed one's place, is skipped, and stays registered |
| Registry.FindConflict | extras_and_tests/discord_bot.py:1174-1177 | reports a conflict exactly when a stored game on the channel has another code |
| Registry.EndSweep | extras_and_tests/discord_bot.py:1516-1524 | the game-end loop as Python runs it: an index over the list it removes from, stopping at a conflicting lobby and adopting each removed record's MatchID (see the `Sweep` lemmas) |
| Poller.Poll | extras_and_tests/discord_bot.py:1529-1537 | 1 to 11 calls and one sleep fewer; the record used is the last fetched; every earlier one was unacceptable; fewer than 11 calls means acceptable; the warning fires exactly on the 11th call |
| Poller.PollOutcomeDetermined | extras_and_tests/discord_bot.py:1529-1537 | those facts fix the number of calls, so the result is the first acceptable of the first ten records or the eleventh |
| Poller.Acceptable | extras_and_tests/discord_bot.py:1530 | a fetched record is used once its result is not "Unknown" and it has exactly two impostors |
| Dispatch.Route | extras_and_tests/discord_bot.py:1556-1586 | GameStart and GameEnd are always routed, meeting events only with auto-mute on, nothing without a GameCode or with another name |
| Dispatch.AutoMuteGatesOnlyMeetings | extras_and_tests/discord_bot.py:1569-1577 | auto-mute changes the routing of meeting events only |
| Dispatch.GameEventsAlwaysRouted | extras_and_tests/discord_bot.py:1565-1581 | game start and end reach their handlers whatever the setting |
| VoiceCache.UpdateKeepsOthers | extras_and_tests/discord_bot.py:758-771 | a voice event changes only the moving member's entries and keeps every cache free of duplicates |
| VoiceCache.LeaveRemoves | extras_and_tests/discord_bot.py:764-767 | a member leaving a channel is no longer listed there |
| VoiceCache.JoinAdds | extras_and_tests/discord_bot.py:768-771 | a member joining a channel is listed there |
| VoiceCache.MembersAfter | extras_and_tests/discord_bot.py:758-771 | one channel's member list after a voice event: the member leaves the channel it left (first occurrence), else joins the one it entered unless already listed |
| VoiceCache.ChannelAfter | extras_and_tests/discord_bot.py:758-771 | the channel with its member list replaced by `MembersAfter` |
| Bot.AllEdits | extras_and_tests/discord_bot.py:1201-1215 | automute at game start mutes and deafens every voice member (at game end, lines 1420-1426, unmutes and undeafens) |
| Bot.CollectOccupants | extras_and_tests/discord_bot.py:1238 | `members_in_vc` holds each voice member's (normalised name, member) pair once |
| Bot.ReconcileVoice | extras_and_tests/discord_bot.py:1219-1304 | `members_in_vc` holds each voice member once, and the matches, unresolved occupants and edits are those of `Reconciled` over it against the dead and the alive (players minus dead) names, exact-pass clause and per-pass kept clauses included; every member is matched or unresolved |
| Bot.DiscordBot.constructor | extras_and_tests/discord_bot.py:42-61 | empty registry, configured channels, auto-mute on |
| Bot.DiscordBot.HandleGameStart | extras_and_tests/discord_bot.py:1170-1199 | `GameStarted`: no channel or a conflicting lobby: nothing changes. Otherwise one record is appended, the channel's members are captured for the match, and with auto-mute all voice members are muted and deafened; the registry invariant holds |
| Bot.DiscordBot.SweepGames | extras_and_tests/discord_bot.py:1516-1524 | the index loop that removes while it iterates computes `EndSweep` and keeps the registry invariant |
| Bot.DiscordBot.HandleGameEnd | extras_and_tests/discord_bot.py:1508-1552 | `GameEnded`: no channel: nothing changes. Otherwise the registry becomes the sweep's result; on a conflict it stops there; else unmute with auto-mute, poll under the adopted id, and clear the match's members once both posts find their channels |
| Bot.DiscordBot.HandleMeeting | extras_and_tests/discord_bot.py:1217-1312 | `MeetingHandled`: no channel, a conflicting lobby, a meeting end with every impostor dead (lines 1330-1333) or a missing voice channel: no matches, edits or notices. Otherwise the voice members' occupants go through the three passes as `Reconciled` states, with their edits and one notice per unresolved occupant, or nothing when a notice is due and the text channel is missing. The meeting-end handler (lines 1315-1417) runs the same passes |
| Bot.DiscordBot.OnVoiceStateUpdate | extras_and_tests/discord_bot.py:758-771 | a move touching a ranked channel updates every channel's cache by `ChannelAfter`; any other event changes nothing; caches stay duplicate-free |
| Bot.DiscordBot.HandleClient | extras_and_tests/discord_bot.py:1556-1586 | unrouted events change and issue nothing; a game start's new registry, channels and edits are `GameStarted`'s, a game end's `GameEnded`'s; meeting events leave the registry and the channels alone and issue what `MeetingHandled` gives; the registry invariant holds |
| MortyIv.Isqrt | mortyBot.py:65 | the integer square root: r² ≤ n < (r+1)² |
| MortyIv.IsqrtAtLeast | mortyBot.py:65 | isqrt(n) ≥ k exactly when k² ≤ n |
| MortyIv.EvBonus | mortyBot.py:65 | the EV bonus, computed as the exact integer square root divided by 4 (see `EvBonusBand`) |
| MortyIv.CalculateHp | mortyBot.py:64-66 | `calculate_hp`: (base + IV + bonus + 50) scaled by level/50, rounded down, plus 10 |
| MortyIv.CalculateStat | mortyBot.py:80-82 | `calculate_stat`: (base + IV + bonus) scaled by level/50, rounded down, plus 5 |
| MortyIv.EvBonusBand | mortyBot.py:65 | the model's bonus `Isqrt(ev) / 4` is k exactly when 16k² ≤ ev < 16(k+1)²; Python's float `floor(sqrt(ev)/4)` agrees with it for every ev below 2^52 |
| MortyIv.DefaultEvBonuses | mortyBot.py:153-156 | EV 0 gives bonus 0 and EV 65535 gives 63 |
| MortyIv.StatMonotone | mortyBot.py:65-83 | HP and the other stats are non-decreasing in the IV |
| MortyIv.SeqMin | mortyBot.py:77 | `min(possible_ivs)` |
| MortyIv.SeqMax | mortyBot.py:77 | `max(possible_ivs)` |
| MortyIv.SearchIv | mortyBot.py:69-79 | the IV search summarises the set of IVs 0..16 that reproduce the stat: one IV exactly when one matches, (min, max) when two or more, none when none |
| MortyIv.CalculateHpIv | mortyBot.py:69-79 | the HP search (offset +50, +10) with that contract |
| MortyIv.CalculateStatIv | mortyBot.py:85-96 | the other stats' search (offset +5, no +50) with that contract |
| MortyIv.SummaryUnique | mortyBot.py:74-79 | the summary of a set of IVs is unique |
| MortyIv.RangeIsContiguous | mortyBot.py:76-77 | every IV between the range's ends also reproduces the stat |
| MortyIv.EstimateInRange | mortyBot.py:71 | every reported IV, both ends of a range included, lies in 0..16 |
| MortyIv.CalculateIv | mortyBot.py:98-106 | None exactly when the Morty is unknown, else (HP, attack, defence, speed) each against its own base stat |
| MortyIv.FormatIv | mortyBot.py:212-215 | `format_iv`: a range as "lo - hi", an exact IV as its decimal digits, no IV as "None" |
| MortyIv.FormatIvRoundTrip | mortyBot.py:212-215 | "lo - hi" and the decimal string read back as the estimate they render |
| MortyIv.FormatIvEndsInDigit | mortyBot.py:212-215 | a rendered estimate ends in a digit |
| MortyIv.JoinedLinesAreTrimmed | mortyBot.py:209 | the report lines need no stripping, with or without the trailing newline |
| MortyIv.FormatIvText | mortyBot.py:197-210 | None exactly when there is no result or every component is None; otherwise one labelled line per present component, HP, Attack, Defence, Speed, stripped |
| TestIv.CalculateIv | extras_and_tests/test_iv.py:59-65 | (HP, attack, defence, speed) estimates against the Morty's base stats, for a Morty the lookup knows |
| TestIv.SameReportAsBot | extras_and_tests/test_iv.py:26-65 | the test copy and the bot produce the same report for the same inputs |
| MortyNames.DropMortySuffix | extras_and_tests/webscrapper.py:8-9 | a trailing " Morty" is removed once; other names are kept |
| MortyNames.ReplaceSpecials | extras_and_tests/webscrapper.py:12-14 | the three replacements in the script's order: drop "'s", "S.O.S." becomes "SOS", drop "-" |
| MortyNames.ReplaceAbsent | extras_and_tests/webscrapper.py:12-14 | replacing a pattern that does not occur changes nothing |
| MortyNames.RemoveCharGone | extras_and_tests/webscrapper.py:14 | after removing "-" no hyphen is left |
| MortyNames.SpecialsRemoveHyphens | extras_and_tests/webscrapper.py:12-14 | after the three replacements, in order, no hyphen is left |
| MortyNames.TakeWord | extras_and_tests/webscrapper.py:17 | the longest whitespace-free prefix |
| MortyNames.Words | extras_and_tests/webscrapper.py:17 | `split()` yields non-empty words without whitespace |
| MortyNames.WordsOfJoin | extras_and_tests/webscrapper.py:17 | `split()` undoes a single-space join of such words |
| MortyNames.Capitalize | extras_and_tests/webscrapper.py:17 | `capitalize()` keeps the length, and every alphanumeric character stays alphanumeric |
| MortyNames.JoinCapitalized | extras_and_tests/webscrapper.py:17 | the joined result is alphanumeric |
| MortyNames.JoinCapitalizedKeeps | extras_and_tests/webscrapper.py:17 | a word with a non-alphanumeric character is dropped whole; kept words are capitalised and joined in order with no separator |
| MortyNames.CleanMortyName | extras_and_tests/webscrapper.py:6-17 | the cleaned name is alphanumeric and has no whitespace |
| MortyNames.CapitalizeEach | extras_and_tests/webscrapper.py:17 | the words capitalised one by one, position for position |
| MortyNames.JoinCapitalizedAll | extras_and_tests/webscrapper.py:17 | when every word is alphanumeric the filter keeps them all: the join is the concatenation of the capitalised words |
| MortyNames.JoinSpacedChars | extras_and_tests/webscrapper.py:17 | a single-space join of alphanumeric words holds only spaces and alphanumeric characters |
| MortyNames.SpecialsAbsent | extras_and_tests/webscrapper.py:12-14 | a name of spaces and alphanumeric characters has no "'s", "S.O.S." or "-", so the replacements leave it unchanged |
| MortyNames.CleanJoinedWords | extras_and_tests/webscrapper.py:6-17 | end to end: alphanumeric words joined by single spaces, not ending in " Morty", clean to the concatenation of the capitalised words |
| MortyNames.ImageNameRoundTrip | extras_and_tests/webscrapper.py:49 | "Morty" + cleaned + "Front.png", from which the cleaned name reads back |
| MortyNames.ImageName | extras_and_tests/webscrapper.py:49 | "Morty" + cleaned name + "Front.png" |
| MortyNames.LocalFileNameRoundTrip | extras_and_tests/webscrapper.py:20 | "{number}_{name}.png": for a number without underscores the first underscore ends the number, and number and name read back |
| MortyNames.LocalFileName | extras_and_tests/webscrapper.py:20 | "{number}_{name}.png" |

## Left out

- Discord API work is left out: `member.edit`, embeds, roles, slash commands, channel sends, `change_player_roles` and the leaderboard half of `add_players_discords`. The model computes the intended edits and notices and whether they would be issued.
- Concurrency and timing are left out: `asyncio.gather`, the 6-second settle sleep, the poll's one-second sleeps (counted, not timed) and the socket server. Gather's partial-failure swallowing is not modelled.
- JSON decoding is left out. A message that is not JSON arrives as `None`; fields of the wrong JSON type are not modelled.
- rapidfuzz's and difflib's internals are left out. They are oracles, and the only assumption is that difflib's ratio is 1.0 exactly on equal strings.
- Bot.CollectOccupants: iterates `members_in_vc` in first-appearance order, while Python's set order is arbitrary. `Reconciler.Reconcile` is proved for every order.
- Bot.DiscordBot.HandleGameStart: the source stores the `members` list object itself as `members_in_match`, so later voice events also change it. The model copies the list at game start.
- Member equality is value equality of (id, display name); discord.py compares members by id.
- Bot.DiscordBot.HandleGameEnd: a failure in `change_player_roles` is not modelled; the model assumes it completes.
- The `/automute` toggle commands are slash commands and are not part of this model; `autoMute` only changes through the constructor.
- Strings are ASCII: `lower`, `strip`, `isspace`, `isdigit`, `isalnum` and `capitalize` are modelled on the ASCII range only.
- MortyIv.CalculateHp: `floor(n * (level / 50))` is modelled as `(n * level) / 50` on exact integers. This idealises Python's float division `level / 50`.
- MortyIv.CalculateStat: the same idealisation of the float product `n * (level / 50)` as in CalculateHp.
- MortyIv.EvBonus: Python's float `math.floor(math.sqrt(ev) / 4)` is modelled with the exact integer square root. The two agree for every ev below 2^52, which covers the game's EVs (at most 65535). Above that the float can round up: for ev = 4503600164241423 Python gives 16777217 and the model 16777216.
- MortyIv.EvBonusBand: states the band of the exact-integer bonus; it says nothing about the float form at or above 2^52.
- Negative EVs are excluded by the `nat` type; `math.sqrt` raises on them.
- The Morty CSV lookup (`getMortyStats`) is an oracle returning a base-stat record or `None`.
- The image download, `quote` URL escaping and the `requests` calls of the scraper are network I/O and are not modelled; the image name is modelled up to escaping.
- The tiers' image URLs and emojis are presentation and are not modelled.
- RankBlock.UnblockOffset: `datetime.now()` is left out; the result is the offset in minutes. The `timedelta` limit of 999999999 days is modelled (`Overflow`), but the OverflowError of `datetime.now() + …` past the year 9999 depends on the clock and is not.
