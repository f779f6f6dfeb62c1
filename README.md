# Bot ladder match lifecycle, modelled in Dafny

This project models the core of the aiarena bot ladder. The ladder schedules
rounds of matches between the active bots and hands matches out to workers
(arena clients). It records the results the workers submit, adjusts ratings,
and disables a bot that keeps crashing.

The whole ladder is one in-memory state, `Ladder.LadderState`. It has one
sequence per table: bots, maps, rounds, matches and results. A record's id
is its index. Each match carries its two participations. Every operation is
one sequential step. It either does all of its writes or, on an error, none
of them. For a result submission this is the transaction around
`ResultViewSet.create`. Round generation and match leasing have no
transaction: they change nothing on an error because every error they raise
comes before their first write.

Modules:

- `Entities` (`entities.dfy`): the records, configuration flags, request,
  errors and the lease returned to a worker. It also holds the collaborators
  whose bodies are not part of the model, passed in as functions:
  - relative result and cause of a result type;
  - crash/timeout test and the causing participant;
  - whether a participation crashed;
  - the rating update.
- `Pairing` (`pairing.dfy`): the listings of the active bots and the
  sequence of pairs that `Round.generate_new`'s nested loop produces. It proves that every
  unordered pair appears exactly once and that there are n*(n-1)/2 of them.
- `Rounds` (`rounds.dfy`): a round's name, the numbering hook, the active
  round count, and the completion condition with its update.
- `Leasing` (`leasing.dfy`): unfinished and pending matches, and the
  unfinished match with the lowest round id.
- `CircuitBreaker` (`breaker.dfy`): a bot's resolved participations newest
  first, and the consecutive-crash verdict.
- `ResultSubmission` (`submission.dfy`): the ordered checks of a result
  submission and the records a successful one writes.
- `Ladder` (`ladder.dfy`): the class with the state-changing operations and
  the lemmas that tie them to the specification functions above.

`LadderState.Valid()` is the invariant every operation keeps:
- references between records are in range;
- a match is between two different bots;
- results and matches are linked one to one;
- every round carries the number the hook gave it;
- a round is complete exactly when each of its matches has a result.

## Model

| member | source | states |
|---|---|---|
| `Rounds.RoundName` | aiarena/core/models/round.py:27-29 | the name starts with "Round " and the rest is the number in the canonical decimal form `str` writes: it reads back as the number, has no leading zero, and starts with "-" exactly when the number is negative |
| `Rounds.DecimalRoundTrip` | aiarena/core/models/round.py:29 | the decimal text of any integer is well formed and parses back to that integer |
| `Rounds.ParseDigitsOfDigits` | aiarena/core/models/round.py:29 | the digits of a natural number parse back to it |
| `Rounds.DecimalStringCanonical` | aiarena/core/models/round.py:29 | the decimal text of any integer is canonical and carries a "-" exactly when the integer is negative |
| `Rounds.CanonicalDigitsUnique` | aiarena/core/models/round.py:29 | digits with no leading zero are the digits of the number they denote, so each natural number has one such text |
| `Rounds.CanonicalDecimalUnique` | aiarena/core/models/round.py:29 | a canonical decimal text is the text written for the integer it denotes |
| `Rounds.RoundNameDetermined` | aiarena/core/models/round.py:27-29 | any text meeting the name's contract for a number is that round's name, so the contract fixes the name |
| `Rounds.NumberOnSave` | aiarena/core/models/round.py:82-85 | a round that has a number keeps it; one without gets a number between 1 and the number of rounds plus one |
| `Rounds.NumberingPreserved` | aiarena/core/models/round.py:82-85 | saving a new unnumbered round keeps every round numbered as (rounds of its season before it) + 1 |
| `Rounds.NumberingKeptByUpdate` | aiarena/core/models/round.py:82-85 | re-saving a round whose number and season are unchanged keeps every round numbered |
| `Rounds.NumbersIncreaseWithinSeason` | aiarena/core/models/round.py:82-85 | within a season, a later round has a strictly larger number, so no two rounds of a season share one |
| `Rounds.CountInSeasonMonotone` | aiarena/core/models/round.py:84-85 | the count of a season's rounds never drops as more rounds are taken |
| `Rounds.MaxActiveRoundsReached` | aiarena/core/models/round.py:46-48 | true exactly when the set of incomplete rounds has at least the configured number of elements |
| `Rounds.CountIncompleteIsCardinality` | aiarena/core/models/round.py:46-48 | the counting query equals the size of the set of incomplete round ids |
| `Rounds.NewRoundIsActive` | aiarena/core/models/round.py:46-48 | creating an incomplete round raises the active-round count by exactly one (used by `Ladder.LadderState.CreateRound`) |
| `Rounds.CompletionLowersActive` | aiarena/core/models/round.py:35-48 | marking a round complete lowers the active-round count by one if it was incomplete and keeps it otherwise (used by `Ladder.LadderState.UpdateIfCompleted`) |
| `Rounds.NoUnresolvedIffAllResolved` | aiarena/core/models/round.py:40-41 | the count of a round's matches without a result is zero if and only if every match of the round has a result |
| `Rounds.CompletionUpdate` | aiarena/core/models/round.py:35-44 | when all the round's matches have results the round is marked complete and stamped finished at the given time, its other fields kept; otherwise every round is unchanged; other rounds never change |
| `Rounds.ResolutionDependsOnRoundsAndResults` | aiarena/core/models/round.py:40-41 | whether a round is fully resolved depends only on each match's round and result |
| `Pairing.ActiveUpTo` | aiarena/core/models/round.py:66 | the active bot ids below n, each once, in increasing id order: one listing the query may return |
| `Pairing.ActiveBotIds` | aiarena/core/models/round.py:55-56 | a listing of every active bot, each once and nothing else; its length is the count the check at line 55 compares |
| `Pairing.ActiveListingLength` | aiarena/core/models/round.py:55-66 | every listing of the active bots, in whatever order, is as long as the active-bot count |
| `Pairing.PairCountUpTo` | aiarena/core/models/round.py:69-73 | after i outer iterations the loop has produced i*(2n-i-1)/2 pairs |
| `Pairing.AllPairsCount` | aiarena/core/models/round.py:64-73 | n bots give n*(n-1)/2 pairs |
| `Pairing.RowsUpToShape` | aiarena/core/models/round.py:69-73 | over distinct bots, each pair produced so far joins two different bots, the first taken from the bots already processed, and no unordered pair repeats |
| `Pairing.RowsUpToCovers` | aiarena/core/models/round.py:69-73 | every pair of positions a < b with a processed is produced |
| `Pairing.PairsUniqueConcat` | aiarena/core/models/round.py:69-73 | joining two pair lists without repeats, where no pair of one matches one of the other, gives a list without repeats |
| `Pairing.AllPairsExactlyOnce` | aiarena/core/models/round.py:64-73 | for distinct bots, every pair joins two different listed bots, every two different bots are paired in one orientation, and no unordered pair repeats |
| `Pairing.AllPairsNonEmpty` | aiarena/core/models/round.py:55-73 | two or more bots give at least one pair |
| `Ladder.LadderState.RandomActiveMap` | aiarena/core/models/round.py:73 | the chosen map exists and is active |
| `Ladder.LadderState.CreateMatch` | aiarena/core/models/round.py:73 | exactly one match of the round is appended, unassigned, unstarted and without result, with bot1 as participant 1 and bot2 as participant 2 |
| `Ladder.LadderState.CreateRoundMatches` | aiarena/core/models/round.py:66-73 | the nested loop with its processed list appends one new match per pair of the all-pairs sequence, in order, each on an active map |
| `Ladder.LadderState.GenerateNew` | aiarena/core/models/round.py:50-73 | NoMaps, NotEnoughActiveBots, CurrentSeasonPaused and CurrentSeasonClosing each happen exactly under their condition, in that order, and then nothing changes; otherwise one incomplete round numbered by the hook is appended, the active-round count grows by one, there is one match per pair of active bots taken in some listing order, and the invariant holds |
| `Ladder.LadderState.CreateRound` | aiarena/core/models/round.py:62-73 | once the checks have passed: the hook-numbered round is appended, the active-round count grows by one, and for some listing of the active bots the matches are those of all its pairs; the invariant holds |
| `Ladder.NewRoundMatchCount` | aiarena/core/models/round.py:64-73 | a new round over n active bots, in any listing order, adds n*(n-1)/2 matches |
| `Ladder.NewRoundMatchesActiveBots` | aiarena/core/models/round.py:66-73 | whatever the listing order, every match of a new round is between two different active bots |
| `Ladder.NewRoundCoversEveryPair` | aiarena/core/models/round.py:66-73 | whatever the listing order, any two different active bots meet in some match of the new round |
| `Ladder.NewRoundNoRepeatedPair` | aiarena/core/models/round.py:66-73 | whatever the listing order, no two matches of the new round are between the same two bots, in either order |
| `Ladder.NewRoundKeepsValid` | aiarena/core/models/round.py:64-73 | after a new round and its matches are created, the records stay in range and linked one to one, and each round, the new incomplete one included, is complete exactly when all its matches have results |
| `Ladder.LadderState.UpdateIfCompleted` | aiarena/core/models/round.py:35-44 | the round is marked complete and stamped finished at the given time exactly when all its matches have results, and is otherwise unchanged; a round that this completes lowers the active-round count by one; afterwards completion agrees with the matches for every round |
| `Leasing.OldestUnfinishedUpTo` | aiarena/api/arenaclient/views.py:89-93 | returns an unfinished match of the worker that no other unfinished match of the worker precedes in ascending round id, or none exactly when the worker has none; a match without a round may sort either way |
| `Leasing.OldestUnfinishedExists` | aiarena/api/arenaclient/views.py:89-93 | a worker holding an unfinished match holds one that comes first by round id |
| `Ladder.LadderState.StartNextMatch` | aiarena/api/arenaclient/views.py:76-83 | fails with NoGameAvailable exactly when no match is pending; otherwise a pending match is assigned to the worker and started, both its bots enter it, and the lease names that match and its two bots |
| `Ladder.LadderState.LeaseMatch` | aiarena/api/arenaclient/views.py:85-104 | LadderDisabled when the ladder is off; with reissue on and an unfinished match held, that worker's oldest unfinished match by round id is returned as reissued and nothing changes; otherwise a pending match is assigned and started, the lease names its participant 1 and participant 2 bots, and exactly those two bots enter it, as in StartNextMatch |
| `CircuitBreaker.ParticipationOf` | aiarena/api/arenaclient/views.py:289 | the bot's participation as participant 1 if it is bot 1, as participant 2 if it is only bot 2, and nothing when it does not play in the match |
| `CircuitBreaker.ResolvedResultIds` | aiarena/api/arenaclient/views.py:288-291 | lists only results below the bound whose match the bot plays in, in strictly decreasing result id |
| `CircuitBreaker.ResolvedResultIdsComplete` | aiarena/api/arenaclient/views.py:288-291 | every result below the bound whose match the bot plays in is listed |
| `CircuitBreaker.ResolvedParticipationsFollowIds` | aiarena/api/arenaclient/views.py:288-291 | the history has one entry per listed result, and the k-th entry is the bot's participation in the match of the k-th listed result |
| `CircuitBreaker.ResolvedParticipations` | aiarena/api/arenaclient/views.py:288-291 | the bot's participations in resolved matches, newest result first; every entry is the bot's (the entry-by-entry meaning is `ResolvedParticipationsFollowIds`) |
| `CircuitBreaker.AfterCrashCheck` | aiarena/api/arenaclient/views.py:277-304 | only the checked bot can change, and only its active flag; it ends inactive exactly when it already was or the check is on, it has N resolved participations and the newest N all crashed |
| `CircuitBreaker.NoDisableWithoutFullCrashStreak` | aiarena/api/arenaclient/views.py:285-302 | a threshold below 1, fewer than N resolved participations, or a non-crash among the newest N each rule out disabling |
| `CircuitBreaker.NewResultComesFirst` | aiarena/api/arenaclient/views.py:288-291 | a newly saved result puts its match's participation ahead of the bot's earlier history |
| `CircuitBreaker.ResolvedPrefix` | aiarena/api/arenaclient/views.py:288-291 | appending results does not change the history over the earlier results |
| `CircuitBreaker.UnresolvedMatchDoesNotCount` | aiarena/api/arenaclient/views.py:288-291 | changing a match no result points at leaves every bot's resolved history unchanged |
| `Ladder.LadderState.RunConsecutiveCrashesCheck` | aiarena/api/arenaclient/views.py:277-304 | the loop with early returns leaves the bots as the crash verdict on the newest N resolved participations says |
| `ResultSubmission.SubmissionError` | aiarena/api/arenaclient/views.py:168-232 | each error happens exactly when every earlier check passes and its own fails, in the view's order: LadderDisabled exactly when the ladder is off, InvalidSubmission for an invalid request, MatchNotFound for a missing match, DuplicateResult for a match that already has a result, BotNotInMatch(1) when bot 1's current match is not this one, then BotNotInMatch(2) for bot 2; no error exactly when all checks pass |
| `ResultSubmission.ResolvedMatch` | aiarena/api/arenaclient/views.py:190-247 | the match gets the result and keeps its round, map, worker and bots; each participation gets its relative result and cause for its participant number, its own log and average step time from the request, its bot's new rating, and a rating change of new minus initial rating |
| `ResultSubmission.SettledBots` | aiarena/api/arenaclient/views.py:210-240 | both bots leave the match, clear their current match, store the bot data submitted for them and take their new ratings; no other bot and no active flag changes |
| `Ladder.LadderState.SaveResult` | aiarena/api/arenaclient/views.py:227-248 | one result is appended, the match is resolved with both participations, both bots are settled with the rating update applied to their initial ratings, every bot's history now starts with its participation in this match ahead of its old history, and the records stay well formed |
| `Ladder.SaveKeepsWellFormed` | aiarena/api/arenaclient/views.py:227-248 | resolving one unresolved match with a new result keeps the one-to-one result link and completion agreement for every other round, and the match's own round is still marked incomplete |
| `Ladder.NewResultLeadsHistory` | aiarena/api/arenaclient/views.py:288-291 | saving the first result of a match puts each bot's participation in it ahead of that bot's unchanged earlier history |
| `Ladder.LadderState.RecordResult` | aiarena/api/arenaclient/views.py:227-264 | after the saves, the completion check runs on the match's round only when it has one, and the crash check runs only for a crash or timeout, on the bot of the causing participant; the invariant is kept |
| `Ladder.LadderState.SubmitResult` | aiarena/api/arenaclient/views.py:168-271 | fails exactly when a check fails, with the first failing check's error and nothing changed; on success exactly one result is added for the match, the new state is as RecordResult states, and the same submission again would be a duplicate |
| `Ladder.ResolvedMatchIsSettled` | aiarena/api/arenaclient/views.py:212-248 | after a recorded result both bots are out of the match with their submitted data, each participation records its bot's new rating and the change from the old one, and resubmitting is a duplicate |

## Left out

- Locking (`lock_me`, `transaction.atomic`) and concurrency. Each operation is one sequential step that applies all its writes or none.
- `Season.try_to_close`, called when a round completes. Its body is not part of this model, so the season is left unchanged.
- `Match.start_next_match` is not part of this model. `StartNextMatch` takes it to pick a pending match (one in a round, unassigned and without a result), assign it to the worker, stamp it started at the given time, and mark both of its bots as in that match with it as their current match. The lease then names participant 1's and participant 2's bots. It does not model that function's own ordering or any round generation it may trigger.
- Ladder.LadderState.StartNextMatch: its contract allows any pending match, which is weaker than whatever order `Match.start_next_match` uses.
- The bodies of `calculate_relative_result`, `calculate_relative_result_cause`, `is_crash_or_timeout`, `get_causing_participant_of_crash_or_timeout_result`, `Participation.crashed` and `Result.adjust_elo` are not part of this model. They are parameters, and nothing is assumed about the rating formula (in particular not that it is zero-sum).
- `get_initial_elos` is taken to return the two bots' ratings before `adjust_elo`. The bot saves before it change only data and match state.
- Ladder.LadderState.CreateMatch: the body of `Match.create` is not part of this model. It is taken to create one match of the round on the given map, unassigned and unstarted, with `bot1` as participant 1 and `bot2` as participant 2, each with a participation that has only its bot set. The pairing lemmas about a new round rest on this.
- `Bot.disable_and_sent_alert` is modelled as clearing the bot's active flag. The alert to the author is left out.
- Serializer validation (field types, result-type choices, NaN and infinity in the step times) is one `wellFormed` flag on the request. An invalid request is refused before anything else except the ladder switch.
- Result.match is taken to be one-to-one, as the result model is not part of this model. A second result for a resolved match is refused as DuplicateResult when the result is validated, before the bot checks.
- "Most recent by result creation time" is taken as descending result id. Results are created in id order, and timestamp ties are not modelled.
- Leasing.RoundNoLater: the ascending round-id order leaves open where a match without a round sorts. Databases differ on where nulls go, so such a match may be returned first or only after every match with a round. Among matches of the same round any may be returned.
- `Bot.objects.filter(active=True)` names no order at round.py:66,72, and Bot's default ordering is not part of this model. A new round takes the active bots in any order (`Pairing.ListsActive`), so which bot of a pair is participant 1 is left open. The inner query at round.py:72 is taken in the same order as the outer one. Another order there would only change the order in which one bot's matches are created: the bots left after the processed ones are the same.
- Timestamps are opaque values passed in by the caller. Random map choice and the choice of pending match are nondeterministic (`:|`).
- Rounds.NumberOnSave: its contract bounds a fresh number by 1 and the round count plus one. The exact "same-season count plus one" is the `RoundsNumbered` invariant, which `Rounds.NumberingPreserved` proves.
- Bot data, replay files and logs are opaque file references. Absent bot data is stored as absent.
- Left out because they are I/O, logging or external:
  - the download endpoints and serializer URL builders;
  - `post_result_to_discord_bot`;
  - the rating-sum sanity check, which only logs;
  - debug logging.
- `stats_generator.py`, the test helpers, the data migration and the model package's imports are outside this core.
