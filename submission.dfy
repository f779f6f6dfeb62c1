/**
  Result submission: the ordered checks a submission must pass before
  anything is saved, and the records a successful submission writes.
*/
module ResultSubmission {
  import opened Entities

  /** Every match's two participants are known bots. */
  predicate ParticipantsKnown(matches: seq<Match>, nBots: nat) {
    forall m | 0 <= m < |matches| :: matches[m].p1.bot < nBots && matches[m].p2.bot < nBots
  }

  /**
    The first check a submission fails, in the order the view makes them:
    ladder enabled, request valid, match found, match without a result
    (one result per match), bot 1 in this match, bot 2 in this match.
    None means it passes them all.
  */
  function SubmissionError(config: Config, matches: seq<Match>, bots: seq<Bot>, req: SubmitRequest): (e: Option<ApiError>)
    requires ParticipantsKnown(matches, |bots|)
    ensures e == Some(LadderDisabled) <==> !config.ladderEnabled
    ensures e == Some(InvalidSubmission) <==> config.ladderEnabled && !req.wellFormed
    ensures e == Some(MatchNotFound) <==> config.ladderEnabled && req.wellFormed && !(0 <= req.matchId < |matches|)
    ensures e == Some(BotNotInMatch(1)) <==>
              && config.ladderEnabled && req.wellFormed && 0 <= req.matchId < |matches|
              && matches[req.matchId].result.None?
              && bots[matches[req.matchId].p1.bot].currentMatch != Some(req.matchId as MatchId)
    ensures e == Some(BotNotInMatch(2)) <==>
              && config.ladderEnabled && req.wellFormed && 0 <= req.matchId < |matches|
              && matches[req.matchId].result.None?
              && bots[matches[req.matchId].p1.bot].currentMatch == Some(req.matchId as MatchId)
              && bots[matches[req.matchId].p2.bot].currentMatch != Some(req.matchId as MatchId)
    ensures e.None? <==>
              && config.ladderEnabled
              && req.wellFormed
              && 0 <= req.matchId < |matches|
              && matches[req.matchId].result.None?
              && bots[matches[req.matchId].p1.bot].currentMatch == Some(req.matchId as MatchId)
              && bots[matches[req.matchId].p2.bot].currentMatch == Some(req.matchId as MatchId)
    ensures e == Some(DuplicateResult) <==>
              config.ladderEnabled && req.wellFormed && 0 <= req.matchId < |matches| && matches[req.matchId].result.Some?
  {
    if !config.ladderEnabled then Some(LadderDisabled)
    else if !req.wellFormed then Some(InvalidSubmission)
    else if !(0 <= req.matchId < |matches|) then Some(MatchNotFound)
    else if matches[req.matchId].result.Some? then Some(DuplicateResult)
    else if bots[matches[req.matchId].p1.bot].currentMatch != Some(req.matchId as MatchId) then Some(BotNotInMatch(1))
    else if bots[matches[req.matchId].p2.bot].currentMatch != Some(req.matchId as MatchId) then Some(BotNotInMatch(2))
    else None
  }

  /** The result record a submission creates at time `now`. */
  function NewResult(req: SubmitRequest, now: Time): ResultRecord
    requires req.matchId >= 0
  {
    ResultRecord(req.matchId, req.kind, req.replayFile, req.gameSteps, req.submittedBy, req.arenaclientLog, now)
  }

  /**
    A participation once the result is in: its relative result and cause,
    its log and step time, and its bot's rating after the update with the
    change from `initialElo`.
  */
  function Resolved(p: Participation, n: ParticipantNumber, kind: ResultType, collab: Collaborators,
                    stepTime: Option<StepTime>, log: Option<FileRef>, initialElo: int, newElo: int): Participation
  {
    p.(result := Some(collab.relativeResult(kind, n)),
       resultCause := Some(collab.relativeResultCause(kind, n)),
       avgStepTime := stepTime,
       matchLog := log,
       resultantElo := Some(newElo),
       eloChange := Some(newElo - initialElo))
  }

  /** A bot once its match's result is in: out of the match, its data as submitted, its new rating. */
  function Settled(b: Bot, data: Option<FileRef>, newElo: int): Bot {
    b.(botData := data, inMatch := false, currentMatch := None, elo := newElo)
  }

  /**
    The match once its result `rid` is in, given both bots' ratings before
    and after the update: each participation is resolved with its own part
    of the request and its bot's new rating.
  */
  function ResolvedMatch(mt: Match, rid: ResultId, req: SubmitRequest, collab: Collaborators,
                         initial: (int, int), elos: (int, int)): (r: Match)
    ensures r.round == mt.round && r.mapId == mt.mapId && r.assignedTo == mt.assignedTo && r.started == mt.started
    ensures r.result == Some(rid) && r.p1.bot == mt.p1.bot && r.p2.bot == mt.p2.bot
    ensures r.p1.eloChange == Some(elos.0 - initial.0) && r.p2.eloChange == Some(elos.1 - initial.1)
    ensures r.p1.resultantElo == Some(elos.0) && r.p2.resultantElo == Some(elos.1)
    ensures r.p1.result == Some(collab.relativeResult(req.kind, 1)) && r.p2.result == Some(collab.relativeResult(req.kind, 2))
    ensures r.p1.resultCause == Some(collab.relativeResultCause(req.kind, 1))
    ensures r.p2.resultCause == Some(collab.relativeResultCause(req.kind, 2))
    ensures r.p1.matchLog == req.bot1Log && r.p2.matchLog == req.bot2Log
    ensures r.p1.avgStepTime == req.bot1AvgStepTime && r.p2.avgStepTime == req.bot2AvgStepTime
  {
    mt.(result := Some(rid),
        p1 := Resolved(mt.p1, 1, req.kind, collab, req.bot1AvgStepTime, req.bot1Log, initial.0, elos.0),
        p2 := Resolved(mt.p2, 2, req.kind, collab, req.bot2AvgStepTime, req.bot2Log, initial.1, elos.1))
  }

  /** The bots once the match between `b1` and `b2` is resolved; every other bot is as it was. */
  function SettledBots(bots: seq<Bot>, b1: BotId, b2: BotId, req: SubmitRequest, elos: (int, int)): (bs: seq<Bot>)
    requires b1 < |bots| && b2 < |bots| && b1 != b2
    ensures |bs| == |bots| && forall b | 0 <= b < |bs| && b != b1 && b != b2 :: bs[b] == bots[b]
    ensures !bs[b1].inMatch && bs[b1].currentMatch.None? && bs[b1].elo == elos.0
    ensures !bs[b2].inMatch && bs[b2].currentMatch.None? && bs[b2].elo == elos.1
    ensures bs[b1].active == bots[b1].active && bs[b2].active == bots[b2].active
    ensures bs[b1].botData == req.bot1Data && bs[b2].botData == req.bot2Data
  {
    bots[b1 := Settled(bots[b1], req.bot1Data, elos.0)][b2 := Settled(bots[b2], req.bot2Data, elos.1)]
  }
}
