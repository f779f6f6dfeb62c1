/**
  The ladder's state and the operations that change it: generating a round,
  checking a round for completion, leasing a match to a worker, submitting
  a result, and the consecutive-crash check. Each operation is one step that
  either succeeds as a whole or leaves the state as it was.
*/
module Ladder {
  import opened Entities
  import opened Pairing
  import opened Rounds
  import opened Leasing
  import opened CircuitBreaker
  import opened ResultSubmission

  predicate MatchWellFormed(mt: Match, nBots: nat, nMaps: nat, nRounds: nat, nResults: nat) {
    && (mt.round.Some? ==> mt.round.value < nRounds)
    && mt.mapId < nMaps
    && mt.p1.bot < nBots && mt.p2.bot < nBots && mt.p1.bot != mt.p2.bot
    && (mt.result.Some? ==> mt.result.value < nResults)
  }

  predicate MatchesWellFormed(matches: seq<Match>, nBots: nat, nMaps: nat, nRounds: nat, nResults: nat) {
    forall m | 0 <= m < |matches| :: MatchWellFormed(matches[m], nBots, nMaps, nRounds, nResults)
  }

  /** `Map.objects.filter(active=True).count() > 0`. */
  predicate HasActiveMap(maps: seq<MapRecord>) {
    exists mp | 0 <= mp < |maps| :: maps[mp].active
  }

  /** Every round other than `r` agrees with its matches on being complete. */
  predicate ConsistentExcept(rounds: seq<Round>, matches: seq<Match>, r: RoundId) {
    forall k | 0 <= k < |rounds| && k != r :: rounds[k].complete <==> AllResolved(matches, k)
  }

  /** A match just created for round `rid` between the bots of pair `p`, on an active map. */
  predicate CreatedFor(mt: Match, rid: RoundId, p: Pair, maps: seq<MapRecord>) {
    && mt.round == Some(rid) && mt.assignedTo.None? && mt.started.None? && mt.result.None?
    && mt.p1 == NewParticipation(p.0) && mt.p2 == NewParticipation(p.1)
    && mt.mapId < |maps| && maps[mt.mapId].active
  }

  /**
    `after` is `before` followed by one new match of round `rid` for each
    pair, in order, each on an active map, unassigned, unstarted and
    without a result.
  */
  predicate NewRoundMatches(before: seq<Match>, after: seq<Match>, rid: RoundId, pairs: seq<Pair>, maps: seq<MapRecord>) {
    && |after| == |before| + |pairs|
    && after[..|before|] == before
    && forall k | 0 <= k < |pairs| :: CreatedFor(after[|before| + k], rid, pairs[k], maps)
  }

  class LadderState {
    var bots: seq<Bot>
    var maps: seq<MapRecord>
    var season: Season
    var rounds: seq<Round>
    var matches: seq<Match>
    var results: seq<ResultRecord>

    /** The references between records are in range and results link one-to-one to matches. */
    ghost predicate WellFormed()
      reads this
    {
      && MatchesWellFormed(matches, |bots|, |maps|, |rounds|, |results|)
      && ResultsLinked(matches, results)
      && RoundsNumbered(rounds)
    }

    /** In addition, a round is complete exactly when each of its matches has a result. */
    ghost predicate Valid()
      reads this
    {
      WellFormed() && RoundsConsistent(rounds, matches)
    }

    /** A ladder with the given bots and maps, the current season, and no rounds, matches or results. */
    constructor (bots0: seq<Bot>, maps0: seq<MapRecord>, season0: Season)
      ensures Valid()
      ensures bots == bots0 && maps == maps0 && season == season0
      ensures rounds == [] && matches == [] && results == []
    {
      bots, maps, season := bots0, maps0, season0;
      rounds, matches, results := [], [], [];
    }

    /** `Map.random_active()`: some active map, chosen freely. */
    method RandomActiveMap() returns (mp: MapId)
      requires HasActiveMap(maps)
      ensures mp < |maps| && maps[mp].active
    {
      mp :| 0 <= mp < |maps| && maps[mp].active;
    }

    /** `Match.create(round, map, bot1, bot2)`: a match with its two participations, bot1 as participant 1. */
    method CreateMatch(rid: RoundId, mp: MapId, bot1: BotId, bot2: BotId)
      modifies this`matches
      ensures matches == old(matches) + [Match(Some(rid), mp, None, None, None, NewParticipation(bot1), NewParticipation(bot2))]
    {
      matches := matches + [Match(Some(rid), mp, None, None, None, NewParticipation(bot1), NewParticipation(bot2))];
    }

    /**
      `Round.generate_new`: checks, in order, for an active map, for at least
      two active bots, that the season is not paused and not closing; then
      creates one round and one match for every unordered pair of active bots.
    */
    method GenerateNew(now: Time) returns (res: Result<RoundId, RoundError>)
      requires Valid()
      modifies this`rounds, this`matches
      ensures Valid()
      ensures res == Err(NoMaps) <==> !HasActiveMap(maps)
      ensures res == Err(NotEnoughActiveBots) <==> HasActiveMap(maps) && |ActiveBotIds(bots)| <= 1
      ensures res == Err(CurrentSeasonPaused) <==>
                HasActiveMap(maps) && |ActiveBotIds(bots)| >= 2 && season.isPaused
      ensures res == Err(CurrentSeasonClosing) <==>
                HasActiveMap(maps) && |ActiveBotIds(bots)| >= 2 && !season.isPaused && season.isClosing
      ensures res.Err? ==> rounds == old(rounds) && matches == old(matches)
      ensures res.Ok? ==>
                && res.value == old(|rounds|)
                && rounds == old(rounds) + [Round(NumberOnSave(None, old(rounds), season.id), season.id, now, None, false)]
                && |IncompleteIds(rounds)| == |IncompleteIds(old(rounds))| + 1
                && exists order | ListsActive(bots, order) :: NewRoundMatches(old(matches), matches, res.value, AllPairs(order), maps)
    {
      if !HasActiveMap(maps) {
        return Err(NoMaps);
      }
      var active := ActiveBotIds(bots);
      if |active| <= 1 {
        return Err(NotEnoughActiveBots);
      }
      if season.isPaused {
        return Err(CurrentSeasonPaused);
      }
      if season.isClosing {
        return Err(CurrentSeasonClosing);
      }

      var rid := CreateRound(now);
      res := Ok(rid);
    }

    /**
      The creating half of `Round.generate_new`, once its checks have
      passed: the round, numbered by the save hook, then its matches.
    */
    method CreateRound(now: Time) returns (rid: RoundId)
      requires Valid() && HasActiveMap(maps) && |ActiveBotIds(bots)| >= 2
      modifies this`rounds, this`matches
      ensures Valid()
      ensures rid == old(|rounds|)
      ensures rounds == old(rounds) + [Round(NumberOnSave(None, old(rounds), season.id), season.id, now, None, false)]
      ensures |IncompleteIds(rounds)| == |IncompleteIds(old(rounds))| + 1
      ensures exists order | ListsActive(bots, order) :: NewRoundMatches(old(matches), matches, rid, AllPairs(order), maps)
    {
      rid := |rounds|;
      var created := Round(NumberOnSave(None, rounds, season.id), season.id, now, None, false);
      NumberingPreserved(rounds, created);
      NewRoundIsActive(rounds, created);
      rounds := rounds + [created];

      // the query names no order: the bots may come in any order
      var order :| ListsActive(bots, order);
      ActiveListingLength(bots, order);
      CreateRoundMatches(rid, order);
      NewRoundKeepsValid(old(rounds), rounds, old(matches), matches, results, bots, maps, order, rid);
    }

    /**
      The loops of `Round.generate_new`: for each active bot in turn, mark it
      processed, then create a match against every active bot not yet
      processed, each on a freely chosen active map.
    */
    method CreateRoundMatches(rid: RoundId, active: seq<BotId>)
      requires HasActiveMap(maps) && Distinct(active)
      modifies this`matches
      ensures NewRoundMatches(old(matches), matches, rid, AllPairs(active), maps)
    {
      var processed: seq<BotId> := [];
      var i := 0;
      while i < |active|
        modifies this`matches
        invariant 0 <= i <= |active|
        invariant processed == active[..i]
        invariant NewRoundMatches(old(matches), matches, rid, RowsUpTo(active, i), maps)
      {
        var bot1 := active[i];
        processed := processed + [bot1];
        var j := 0;
        assert RowsUpTo(active, i) + Row(active, i)[..0] == RowsUpTo(active, i);
        while j < |active|
          modifies this`matches
          invariant 0 <= j <= |active|
          invariant processed == active[..i + 1]
          invariant NewRoundMatches(old(matches), matches, rid,
                                    RowsUpTo(active, i) + Row(active, i)[..if j <= i then 0 else j - i - 1], maps)
        {
          if active[j] !in processed {
            assert j > i;
            var mp := RandomActiveMap();
            ghost var before := matches;
            CreateMatch(rid, mp, bot1, active[j]);
            ghost var done := RowsUpTo(active, i) + Row(active, i)[..j - i - 1];
            assert Row(active, i)[..j - i] == Row(active, i)[..j - i - 1] + [(bot1, active[j])];
            ExtendNewRoundMatches(old(matches), before, matches, rid, done, (bot1, active[j]), mp, maps);
            assert done + [(bot1, active[j])] == RowsUpTo(active, i) + Row(active, i)[..j - i];
          } else {
            AlreadyProcessed(active, i, j);
          }
          j := j + 1;
        }
        assert Row(active, i)[..|active| - i - 1] == Row(active, i);
        i := i + 1;
      }
      assert RowsUpTo(active, |active|) == AllPairs(active);
    }

    /**
      `Round.update_if_completed`: when no match of round `r` lacks a result,
      the round is marked complete and stamped finished at `now`; otherwise
      nothing changes.
    */
    method UpdateIfCompleted(r: RoundId, now: Time)
      requires WellFormed() && r < |rounds|
      requires ConsistentExcept(rounds, matches, r)
      requires rounds[r].complete ==> AllResolved(matches, r)
      modifies this`rounds
      ensures Valid()
      ensures rounds == CompletionUpdate(old(rounds), matches, r, now)
      ensures rounds[r].complete && rounds[r].finished == Some(now) <==> AllResolved(matches, r)
      ensures !AllResolved(matches, r) ==> rounds == old(rounds)
      ensures AllResolved(matches, r) ==>
                |IncompleteIds(rounds)| == |IncompleteIds(old(rounds))| - (if old(rounds)[r].complete then 0 else 1)
    {
      NoUnresolvedIffAllResolved(matches, r);
      if CountUnresolved(matches, r) == 0 {
        var updated := rounds[r].(complete := true, finished := Some(now));
        NumberingKeptByUpdate(rounds, r, updated);
        CompletionLowersActive(rounds, r, updated);
        rounds := rounds[r := updated];
      }
    }

    /**
      `Match.start_next_match`: some pending match (in a round, unassigned,
      no result) is assigned to `user`, started at `now`, and its two bots
      are put into it. With no pending match there is nothing to hand out.
    */
    method StartNextMatch(user: UserId, now: Time) returns (res: Result<Lease, ApiError>)
      requires Valid()
      modifies this`matches, this`bots
      ensures Valid()
      ensures res.Err? <==> !HasPending(old(matches))
      ensures res.Err? ==> res.error == NoGameAvailable && matches == old(matches) && bots == old(bots)
      ensures res.Ok? ==>
                var m := res.value.matchId;
                && m < |old(matches)| && Pending(old(matches)[m])
                && res.value == Lease(m, old(matches)[m].p1.bot, old(matches)[m].p2.bot, Started)
                && matches == old(matches)[m := Assigned(old(matches)[m], user, now)]
                && res.value.bot1 < |old(bots)| && res.value.bot2 < |old(bots)|
                && bots == old(bots)[res.value.bot1 := EnterMatch(old(bots)[res.value.bot1], m)]
                                    [res.value.bot2 := EnterMatch(old(bots)[res.value.bot2], m)]
    {
      if !HasPending(matches) {
        return Err(NoGameAvailable);
      }
      var m :| 0 <= m < |matches| && Pending(matches[m]);
      var mt := matches[m];
      matches := matches[m := Assigned(mt, user, now)];
      bots := bots[mt.p1.bot := EnterMatch(bots[mt.p1.bot], m)];
      bots := bots[mt.p2.bot := EnterMatch(bots[mt.p2.bot], m)];
      res := Ok(Lease(m, mt.p1.bot, mt.p2.bot, Started));
      ResolutionDependsOnRoundsAndResults(matches, old(matches));
    }

    /**
      `MatchViewSet.create`: rejected when the ladder is disabled; with
      reissue on, a worker holding unfinished matches gets back the one with
      the lowest round id and nothing changes; otherwise a match is started.
    */
    method LeaseMatch(config: Config, user: UserId, now: Time) returns (res: Result<Lease, ApiError>)
      requires Valid()
      modifies this`matches, this`bots
      ensures Valid()
      ensures !config.ladderEnabled ==> res == Err(LadderDisabled)
      ensures res.Err? ==> matches == old(matches) && bots == old(bots)
      ensures config.ladderEnabled && config.reissueUnfinishedMatches && HasUnfinished(old(matches), user) ==>
                && res.Ok? && res.value.status == Reissued
                && IsOldestUnfinished(matches, user, res.value.matchId)
                && res.value.bot1 == matches[res.value.matchId].p1.bot
                && res.value.bot2 == matches[res.value.matchId].p2.bot
                && matches == old(matches) && bots == old(bots)
      ensures config.ladderEnabled && !(config.reissueUnfinishedMatches && HasUnfinished(old(matches), user)) ==>
                && (res.Err? <==> !HasPending(old(matches)))
                && (res.Err? ==> res.error == NoGameAvailable)
                && (res.Ok? ==> (
                      var m := res.value.matchId;
                      && m < |old(matches)| && Pending(old(matches)[m]) && res.value.status == Started
                      && res.value.bot1 == old(matches)[m].p1.bot && res.value.bot2 == old(matches)[m].p2.bot
                      && matches == old(matches)[m := Assigned(old(matches)[m], user, now)]
                      && res.value.bot1 < |old(bots)| && res.value.bot2 < |old(bots)|
                      && bots == old(bots)[res.value.bot1 := EnterMatch(old(bots)[res.value.bot1], m)]
                                          [res.value.bot2 := EnterMatch(old(bots)[res.value.bot2], m)]))
    {
      if !config.ladderEnabled {
        return Err(LadderDisabled);
      }
      if config.reissueUnfinishedMatches && HasUnfinished(matches, user) {
        OldestUnfinishedExists(matches, user);
        var m :| 0 <= m < |matches| && IsOldestUnfinished(matches, user, m);
        return Ok(Lease(m, matches[m].p1.bot, matches[m].p2.bot, Reissued));
      }
      res := StartNextMatch(user, now);
    }

    /**
      `run_consecutive_crashes_check`: with threshold N >= 1, fetch the bot's
      N most recent resolved participations; if there are N and none of them
      is not a crash, disable the bot.
    */
    method RunConsecutiveCrashesCheck(bot: BotId, threshold: int, crashed: Participation -> bool)
      requires WellFormed() && bot < |bots|
      modifies this`bots
      ensures bots == AfterCrashCheck(old(bots), bot, threshold, RecentResolved(matches, results, bot), crashed)
    {
      if threshold < 1 {
        return;
      }
      var history := RecentResolved(matches, results, bot);
      var recent := if |history| < threshold then history else history[..threshold];
      if |recent| < threshold {
        return;
      }
      for i := 0 to |recent|
        invariant forall k | 0 <= k < i :: crashed(recent[k])
      {
        if !crashed(recent[i]) {
          return;
        }
      }
      bots := bots[bot := bots[bot].(active := false)];
    }

    /**
      The saves of `ResultViewSet.create` once every check has passed: the
      result; both participations with their relative result, cause, log and
      step time; both bots, out of the match and with their data; then the
      rating update, whose new ratings and changes go on the participations.
    */
    method SaveResult(collab: Collaborators, req: SubmitRequest, now: Time) returns (rid: ResultId)
      requires Valid()
      requires 0 <= req.matchId < |matches| && matches[req.matchId].result.None?
      modifies this`results, this`matches, this`bots
      ensures rid == old(|results|) && results == old(results) + [NewResult(req, now)]
      ensures
        var mt := old(matches)[req.matchId];
        var initial := (old(bots)[mt.p1.bot].elo, old(bots)[mt.p2.bot].elo);
        var elos := collab.adjustElo(initial.0, initial.1, req.kind);
        && matches == old(matches)[req.matchId := ResolvedMatch(mt, rid, req, collab, initial, elos)]
        && bots == SettledBots(old(bots), mt.p1.bot, mt.p2.bot, req, elos)
      ensures WellFormed()
      ensures forall bot: BotId :: RecentResolved(matches, results, bot) ==
                ParticipationOf(matches[req.matchId], bot) + RecentResolved(old(matches), old(results), bot)
      ensures matches[req.matchId].round.None? ==> RoundsConsistent(rounds, matches)
      ensures matches[req.matchId].round.Some? ==>
                && ConsistentExcept(rounds, matches, matches[req.matchId].round.value)
                && !rounds[matches[req.matchId].round.value].complete
    {
      var m: MatchId := req.matchId;
      var mt := matches[m];
      var b1, b2 := mt.p1.bot, mt.p2.bot;
      // the bot saves before the rating update leave the ratings as they are
      var initial := (bots[b1].elo, bots[b2].elo);
      rid := |results|;
      results := results + [NewResult(req, now)];
      var elos := collab.adjustElo(initial.0, initial.1, req.kind);
      bots := SettledBots(bots, b1, b2, req, elos);
      matches := matches[m := ResolvedMatch(mt, rid, req, collab, initial, elos)];
      SaveKeepsWellFormed(old(matches), matches, old(results), results, rounds, |bots|, |maps|, m, rid);
      forall bot: BotId ensures RecentResolved(matches, results, bot) ==
                                ParticipationOf(matches[m], bot) + RecentResolved(old(matches), old(results), bot)
      {
        NewResultLeadsHistory(old(matches), matches, old(results), NewResult(req, now), m, bot);
      }
    }

    /**
      Everything `ResultViewSet.create` does once a submission has passed its
      checks: save, check the round for completion when the match has one,
      and run the consecutive-crash check on a crash or timeout.
    */
    method RecordResult(config: Config, collab: Collaborators, req: SubmitRequest, now: Time) returns (rid: ResultId)
      requires Valid() && SubmissionError(config, matches, bots, req).None?
      modifies this`results, this`matches, this`bots, this`rounds
      ensures Valid()
      ensures rid == old(|results|) && results == old(results) + [NewResult(req, now)]
      ensures
        var mt := old(matches)[req.matchId];
        var b1, b2 := mt.p1.bot, mt.p2.bot;
        var initial := (old(bots)[b1].elo, old(bots)[b2].elo);
        var elos := collab.adjustElo(initial.0, initial.1, req.kind);
        var causing := if collab.causingParticipant(req.kind) == 1 then b1 else b2;
        && matches == old(matches)[req.matchId := ResolvedMatch(mt, rid, req, collab, initial, elos)]
        && rounds == (if mt.round.Some? then CompletionUpdate(old(rounds), matches, mt.round.value, now) else old(rounds))
        && bots == (if collab.isCrashOrTimeout(req.kind)
                    then AfterCrashCheck(SettledBots(old(bots), b1, b2, req, elos), causing,
                                         config.disableBotOnConsecutiveCrashes,
                                         RecentResolved(matches, results, causing), collab.crashed)
                    else SettledBots(old(bots), b1, b2, req, elos))
    {
      var mt := matches[req.matchId];
      rid := SaveResult(collab, req, now);
      if mt.round.Some? {
        UpdateIfCompleted(mt.round.value, now);
      }
      if collab.isCrashOrTimeout(req.kind) {
        var causing := if collab.causingParticipant(req.kind) == 1 then mt.p1.bot else mt.p2.bot;
        RunConsecutiveCrashesCheck(causing, config.disableBotOnConsecutiveCrashes, collab.crashed);
      }
    }

    /**
      `ResultViewSet.create`: the checks run, in order, before anything is
      saved; the first that fails is the answer and nothing changes.
      Otherwise the result is recorded, after which both bots are out of the
      match, each participation's rating change is its bot's new rating minus
      the old one, and the same submission again would be a duplicate.
    */
    method SubmitResult(config: Config, collab: Collaborators, req: SubmitRequest, now: Time)
      returns (res: Result<ResultId, ApiError>)
      requires Valid()
      modifies this`results, this`matches, this`bots, this`rounds
      ensures Valid()
      ensures res.Err? <==> SubmissionError(config, old(matches), old(bots), req).Some?
      ensures res.Err? ==> Some(res.error) == SubmissionError(config, old(matches), old(bots), req)
      ensures res.Err? ==> results == old(results) && matches == old(matches) && bots == old(bots) && rounds == old(rounds)
      ensures res.Ok? ==> 0 <= req.matchId < |matches| && res.value == old(|results|) && results == old(results) + [NewResult(req, now)]
      ensures res.Ok? ==> SubmissionError(config, matches, bots, req) == Some(DuplicateResult)
      ensures res.Ok? ==>
        var mt := old(matches)[req.matchId];
        var b1, b2 := mt.p1.bot, mt.p2.bot;
        var initial := (old(bots)[b1].elo, old(bots)[b2].elo);
        var elos := collab.adjustElo(initial.0, initial.1, req.kind);
        var causing := if collab.causingParticipant(req.kind) == 1 then b1 else b2;
        && matches == old(matches)[req.matchId := ResolvedMatch(mt, res.value, req, collab, initial, elos)]
        && rounds == (if mt.round.Some? then CompletionUpdate(old(rounds), matches, mt.round.value, now) else old(rounds))
        && bots == (if collab.isCrashOrTimeout(req.kind)
                    then AfterCrashCheck(SettledBots(old(bots), b1, b2, req, elos), causing,
                                         config.disableBotOnConsecutiveCrashes,
                                         RecentResolved(matches, results, causing), collab.crashed)
                    else SettledBots(old(bots), b1, b2, req, elos))
    {
      var e := SubmissionError(config, matches, bots, req);
      if e.Some? {
        return Err(e.value);
      }
      var mt := matches[req.matchId];
      var rid := RecordResult(config, collab, req, now);
      res := Ok(rid);
    }
  }

  /**
    After a result is recorded, both bots are out of the match with their
    submitted data, each participation records its bot's new rating and the
    change from the old one, and submitting the same request again is
    refused as a duplicate. The crash check may have switched a bot's active
    flag; nothing else differs from the settled bots.
  */
  lemma ResolvedMatchIsSettled(config: Config, collab: Collaborators, req: SubmitRequest,
                               matches0: seq<Match>, bots0: seq<Bot>, matches1: seq<Match>, bots1: seq<Bot>,
                               rid: ResultId, elos: (int, int), crashCheck: bool, causing: BotId,
                               threshold: int, recent: seq<Participation>, crashed: Participation -> bool)
    requires ParticipantsKnown(matches0, |bots0|)
    requires SubmissionError(config, matches0, bots0, req).None?
    requires matches0[req.matchId].p1.bot != matches0[req.matchId].p2.bot
    requires causing < |bots0|
    requires
      var mt := matches0[req.matchId];
      var b1, b2 := mt.p1.bot, mt.p2.bot;
      && elos == collab.adjustElo(bots0[b1].elo, bots0[b2].elo, req.kind)
      && matches1 == matches0[req.matchId := ResolvedMatch(mt, rid, req, collab, (bots0[b1].elo, bots0[b2].elo), elos)]
      && bots1 == (if crashCheck
                   then AfterCrashCheck(SettledBots(bots0, b1, b2, req, elos), causing, threshold, recent, crashed)
                   else SettledBots(bots0, b1, b2, req, elos))
    ensures |bots1| == |bots0| && ParticipantsKnown(matches1, |bots1|)
    ensures
      var b1, b2 := matches1[req.matchId].p1.bot, matches1[req.matchId].p2.bot;
      && !bots1[b1].inMatch && bots1[b1].currentMatch.None?
      && !bots1[b2].inMatch && bots1[b2].currentMatch.None?
      && matches1[req.matchId].p1.eloChange == Some(bots1[b1].elo - bots0[b1].elo)
      && matches1[req.matchId].p2.eloChange == Some(bots1[b2].elo - bots0[b2].elo)
      && matches1[req.matchId].p1.resultantElo == Some(bots1[b1].elo)
      && matches1[req.matchId].p2.resultantElo == Some(bots1[b2].elo)
      && bots1[b1].botData == req.bot1Data && bots1[b2].botData == req.bot2Data
      && SubmissionError(config, matches1, bots1, req) == Some(DuplicateResult)
  {
  }

  /** Match `mt` is between bots `x` and `y`, in either order. */
  predicate Plays(mt: Match, x: BotId, y: BotId) {
    (mt.p1.bot == x && mt.p2.bot == y) || (mt.p1.bot == y && mt.p2.bot == x)
  }

  /**
    The lemmas below hold for a new round that takes the active bots in any
    order. A new round over the n active bots adds n*(n-1)/2 matches.
  */
  lemma NewRoundMatchCount(bots: seq<Bot>, active: seq<BotId>, before: seq<Match>, after: seq<Match>, rid: RoundId,
                           maps: seq<MapRecord>)
    requires ListsActive(bots, active) && NewRoundMatches(before, after, rid, AllPairs(active), maps)
    ensures var n := |ActiveBotIds(bots)|; |after| - |before| == n * (n - 1) / 2
  {
    ActiveListingLength(bots, active);
    AllPairsCount(active);
  }

  /** Each match of a new round is between two different active bots. */
  lemma NewRoundMatchesActiveBots(bots: seq<Bot>, active: seq<BotId>, before: seq<Match>, after: seq<Match>, rid: RoundId,
                                  maps: seq<MapRecord>)
    requires ListsActive(bots, active) && NewRoundMatches(before, after, rid, AllPairs(active), maps)
    ensures forall k | |before| <= k < |after| ::
              && after[k].p1.bot != after[k].p2.bot
              && after[k].p1.bot < |bots| && bots[after[k].p1.bot].active
              && after[k].p2.bot < |bots| && bots[after[k].p2.bot].active
  {
    AllPairsExactlyOnce(active);
    forall k | |before| <= k < |after|
      ensures after[k].p1.bot == AllPairs(active)[k - |before|].0 && after[k].p2.bot == AllPairs(active)[k - |before|].1
    {
      NewMatchAt(before, after, rid, AllPairs(active), maps, k - |before|);
    }
  }

  /** Any two different active bots meet in some match of a new round. */
  lemma NewRoundCoversEveryPair(bots: seq<Bot>, active: seq<BotId>, before: seq<Match>, after: seq<Match>, rid: RoundId,
                                maps: seq<MapRecord>, x: BotId, y: BotId)
    requires ListsActive(bots, active) && NewRoundMatches(before, after, rid, AllPairs(active), maps)
    requires x < |bots| && y < |bots| && bots[x].active && bots[y].active && x != y
    ensures exists k | |before| <= k < |after| :: Plays(after[k], x, y)
  {
    var pairs := AllPairs(active);
    AllPairsExactlyOnce(active);
    assert x in active && y in active;
    var i :| 0 <= i < |pairs| && (pairs[i] == (x, y) || pairs[i] == (y, x));
    NewMatchAt(before, after, rid, pairs, maps, i);
    assert Plays(after[|before| + i], x, y);
  }

  /** No two matches of a new round are between the same two bots. */
  lemma NewRoundNoRepeatedPair(bots: seq<Bot>, active: seq<BotId>, before: seq<Match>, after: seq<Match>, rid: RoundId,
                               maps: seq<MapRecord>, k1: nat, k2: nat)
    requires ListsActive(bots, active) && NewRoundMatches(before, after, rid, AllPairs(active), maps)
    requires |before| <= k1 < k2 < |after|
    ensures !Plays(after[k2], after[k1].p1.bot, after[k1].p2.bot)
  {
    var pairs := AllPairs(active);
    AllPairsExactlyOnce(active);
    NewMatchAt(before, after, rid, pairs, maps, k1 - |before|);
    NewMatchAt(before, after, rid, pairs, maps, k2 - |before|);
    assert !SamePair(pairs[k1 - |before|], pairs[k2 - |before|]);
  }

  // ---- proof steps of GenerateNew ----

  /** At inner position j <= i, the bot there has been processed. */
  lemma AlreadyProcessed(active: seq<BotId>, i: nat, j: nat)
    requires Distinct(active) && i < |active| && j < |active|
    requires active[j] in active[..i + 1]
    ensures j <= i
  {
  }

  lemma ExtendNewRoundMatches(start: seq<Match>, before: seq<Match>, after: seq<Match>, rid: RoundId,
                              done: seq<Pair>, p: Pair, mp: MapId, maps: seq<MapRecord>)
    requires NewRoundMatches(start, before, rid, done, maps)
    requires after == before + [Match(Some(rid), mp, None, None, None, NewParticipation(p.0), NewParticipation(p.1))]
    requires mp < |maps| && maps[mp].active
    ensures NewRoundMatches(start, after, rid, done + [p], maps)
  {
  }

  /** What a new round's k-th match is made of. */
  lemma NewMatchAt(before: seq<Match>, after: seq<Match>, rid: RoundId, pairs: seq<Pair>, maps: seq<MapRecord>, k: nat)
    requires NewRoundMatches(before, after, rid, pairs, maps) && k < |pairs|
    ensures |before| + k < |after| && CreatedFor(after[|before| + k], rid, pairs[k], maps)
  {
  }

  /** The state after a successful GenerateNew is valid again. */
  lemma NewRoundKeepsValid(rounds0: seq<Round>, rounds1: seq<Round>, matches0: seq<Match>, matches1: seq<Match>,
                           results: seq<ResultRecord>, bots: seq<Bot>, maps: seq<MapRecord>, active: seq<BotId>, rid: RoundId)
    requires MatchesWellFormed(matches0, |bots|, |maps|, |rounds0|, |results|)
    requires ResultsLinked(matches0, results)
    requires RoundsConsistent(rounds0, matches0)
    requires rid == |rounds0| && |rounds1| == |rounds0| + 1 && rounds1[..rid] == rounds0 && !rounds1[rid].complete
    requires ListsActive(bots, active) && |active| >= 2
    requires NewRoundMatches(matches0, matches1, rid, AllPairs(active), maps)
    ensures MatchesWellFormed(matches1, |bots|, |maps|, |rounds1|, |results|)
    ensures ResultsLinked(matches1, results)
    ensures RoundsConsistent(rounds1, matches1)
  {
    var pairs := AllPairs(active);
    AllPairsExactlyOnce(active);
    AllPairsNonEmpty(active);
    var n0 := |matches0|;
    forall m | 0 <= m < n0 ensures matches1[m] == matches0[m] {
      assert matches1[..n0][m] == matches0[m];
    }
    forall m | n0 <= m < |matches1|
      ensures matches1[m].round == Some(rid) && matches1[m].result.None?
      ensures MatchWellFormed(matches1[m], |bots|, |maps|, |rounds1|, |results|)
    {
      NewMatchAt(matches0, matches1, rid, pairs, maps, m - n0);
    }
    forall r | 0 <= r < |rounds1| ensures rounds1[r].complete <==> AllResolved(matches1, r) {
      if r < rid {
        assert rounds1[r] == rounds0[r];
        assert AllResolved(matches1, r) == AllResolved(matches0, r);
      } else {
        NewMatchAt(matches0, matches1, rid, pairs, maps, 0);
      }
    }
  }

  /**
    Saving the first result of match `m` puts the bot's participation in
    `m` ahead of the bot's history as it was: the earlier results' matches
    are untouched, as none of them is `m`.
  */
  lemma NewResultLeadsHistory(matches0: seq<Match>, matches1: seq<Match>, results0: seq<ResultRecord>, r: ResultRecord,
                              m: MatchId, bot: BotId)
    requires ResultsLinked(matches0, results0)
    requires m < |matches0| && matches0[m].result.None? && r.matchId == m
    requires |matches1| == |matches0| && forall k | 0 <= k < |matches0| && k != m :: matches1[k] == matches0[k]
    ensures RecentResolved(matches1, results0 + [r], bot) == ParticipationOf(matches1[m], bot) + RecentResolved(matches0, results0, bot)
  {
    NewResultComesFirst(matches1, results0, bot, r);
    UnresolvedMatchDoesNotCount(matches0, results0, bot, m, matches1[m], |results0|);
    assert matches0[m := matches1[m]] == matches1;
  }

  /** Saving a result for an unresolved match keeps the records well formed and other rounds consistent. */
  lemma SaveKeepsWellFormed(matches0: seq<Match>, matches1: seq<Match>, results0: seq<ResultRecord>, results1: seq<ResultRecord>,
                            rounds: seq<Round>, nBots: nat, nMaps: nat, m: MatchId, rid: ResultId)
    requires MatchesWellFormed(matches0, nBots, nMaps, |rounds|, |results0|)
    requires ResultsLinked(matches0, results0)
    requires RoundsConsistent(rounds, matches0)
    requires m < |matches0| && matches0[m].result.None? && rid == |results0|
    requires |results1| == rid + 1 && results1[..rid] == results0 && results1[rid].matchId == m
    requires |matches1| == |matches0| && matches1[m].result == Some(rid)
    requires matches1[m].round == matches0[m].round && matches1[m].mapId == matches0[m].mapId
    requires matches1[m].p1.bot == matches0[m].p1.bot && matches1[m].p2.bot == matches0[m].p2.bot
    requires forall k | 0 <= k < |matches0| && k != m :: matches1[k] == matches0[k]
    ensures MatchesWellFormed(matches1, nBots, nMaps, |rounds|, |results1|)
    ensures ResultsLinked(matches1, results1)
    ensures matches0[m].round.None? ==> RoundsConsistent(rounds, matches1)
    ensures matches0[m].round.Some? ==>
              ConsistentExcept(rounds, matches1, matches0[m].round.value) && !rounds[matches0[m].round.value].complete
  {
  }
}
