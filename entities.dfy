/**
  The records of the bot ladder: bots, maps, the current season, rounds,
  matches with their two participations, and results. Every table is a
  sequence indexed by the record's id, so a record created later has a
  larger id, as with the database's auto-increment keys.
*/
module Entities {

  type BotId = nat
  type MapId = nat
  type RoundId = nat
  type MatchId = nat
  type ResultId = nat
  type SeasonId = nat
  /** The identity of the arena client (worker) that makes a request. */
  type UserId = nat
  /** An opaque timestamp. */
  type Time = int
  /** An opaque reference to an uploaded file (replay, log, bot data). */
  type FileRef = nat
  /** The average step time a client reports; kept abstract (a float in the system). */
  type StepTime = int
  /** The result type a client submits, such as "Player1Win" or "Player2Crash". */
  type ResultType = string
  /** A participation's relative result cause, such as "crash" or "timeout". */
  type Cause = string

  /** Participations are numbered 1 and 2 within their match. */
  type ParticipantNumber = n: int | n == 1 || n == 2 witness 1

  datatype Option<T> = None | Some(value: T)

  datatype Result<T, E> = Ok(value: T) | Err(error: E)

  datatype Bot = Bot(
    active: bool,
    elo: int,
    inMatch: bool,
    currentMatch: Option<MatchId>,
    botData: Option<FileRef>)

  datatype MapRecord = MapRecord(active: bool)

  datatype Season = Season(id: SeasonId, isPaused: bool, isClosing: bool)

  datatype Round = Round(
    number: int,
    season: SeasonId,
    started: Time,
    finished: Option<Time>,
    complete: bool)

  /** A participation's result relative to its own bot. */
  datatype RelativeResult = Win | Loss | Tie | NoResult

  datatype Participation = Participation(
    bot: BotId,
    result: Option<RelativeResult>,
    resultCause: Option<Cause>,
    avgStepTime: Option<StepTime>,
    matchLog: Option<FileRef>,
    resultantElo: Option<int>,
    eloChange: Option<int>)

  /** A match; `result` is the one-to-one link to its result, if any. */
  datatype Match = Match(
    round: Option<RoundId>,
    mapId: MapId,
    assignedTo: Option<UserId>,
    started: Option<Time>,
    result: Option<ResultId>,
    p1: Participation,
    p2: Participation)

  datatype ResultRecord = ResultRecord(
    matchId: MatchId,
    kind: ResultType,
    replayFile: Option<FileRef>,
    gameSteps: int,
    submittedBy: UserId,
    arenaclientLog: Option<FileRef>,
    created: Time)

  /** The operator's runtime configuration, read at the start of each operation. */
  datatype Config = Config(
    ladderEnabled: bool,
    reissueUnfinishedMatches: bool,
    maxActiveRounds: int,
    disableBotOnConsecutiveCrashes: int)

  /**
    Collaborators whose definitions are outside this model, passed in as
    functions: the mapping of a result type to each participant's relative
    result and cause, the crash-or-timeout test and the participant it blames,
    a participation's `crashed` property, and the rating update.
  */
  datatype Collaborators = Collaborators(
    relativeResult: (ResultType, ParticipantNumber) -> RelativeResult,
    relativeResultCause: (ResultType, ParticipantNumber) -> Cause,
    isCrashOrTimeout: ResultType -> bool,
    causingParticipant: ResultType -> ParticipantNumber,
    crashed: Participation -> bool,
    adjustElo: (int, int, ResultType) -> (int, int))

  /** The fields of a result submission after the request serializer has run. */
  datatype SubmitRequest = SubmitRequest(
    matchId: int,
    kind: ResultType,
    replayFile: Option<FileRef>,
    gameSteps: int,
    submittedBy: UserId,
    arenaclientLog: Option<FileRef>,
    bot1Data: Option<FileRef>,
    bot2Data: Option<FileRef>,
    bot1Log: Option<FileRef>,
    bot2Log: Option<FileRef>,
    bot1AvgStepTime: Option<StepTime>,
    bot2AvgStepTime: Option<StepTime>,
    wellFormed: bool)

  datatype RoundError = NoMaps | NotEnoughActiveBots | CurrentSeasonPaused | CurrentSeasonClosing

  datatype ApiError =
    | LadderDisabled
    | NoGameAvailable
    | InvalidSubmission
    | MatchNotFound
    | DuplicateResult
    | BotNotInMatch(participant: ParticipantNumber)

  /** HTTP 200 for a reissued match, 201 for a newly started one. */
  datatype LeaseStatus = Reissued | Started

  datatype Lease = Lease(matchId: MatchId, bot1: BotId, bot2: BotId, status: LeaseStatus)

  /** A participation as Match.create makes it: only its bot is set. */
  function NewParticipation(bot: BotId): Participation {
    Participation(bot, None, None, None, None, None, None)
  }
}
