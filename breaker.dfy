/**
  The consecutive-crash circuit breaker: a bot is disabled when its N most
  recent resolved participations, newest first, all crashed.
*/
module CircuitBreaker {
  import opened Entities

  /** Every result points at a match whose result is that one, and back: the link is one-to-one. */
  predicate ResultsLinked(matches: seq<Match>, results: seq<ResultRecord>) {
    && (forall r | 0 <= r < |results| :: results[r].matchId < |matches| && matches[results[r].matchId].result == Some(r))
    && (forall m | 0 <= m < |matches| && matches[m].result.Some? ::
          matches[m].result.value < |results| && results[matches[m].result.value].matchId == m)
  }

  /** `bot` plays in match `mt`, as participant 1 or 2. */
  predicate PlaysIn(mt: Match, bot: BotId) {
    mt.p1.bot == bot || mt.p2.bot == bot
  }

  /** The participation of `bot` in a match, if it plays in it. */
  function ParticipationOf(mt: Match, bot: BotId): (ps: seq<Participation>)
    ensures mt.p1.bot == bot ==> ps == [mt.p1]
    ensures mt.p1.bot != bot && mt.p2.bot == bot ==> ps == [mt.p2]
    ensures !PlaysIn(mt, bot) ==> ps == []
  {
    if mt.p1.bot == bot then [mt.p1] else if mt.p2.bot == bot then [mt.p2] else []
  }

  /** Result `r` resolves a match that `bot` plays in. */
  predicate ResolvesMatchOf(matches: seq<Match>, results: seq<ResultRecord>, r: ResultId, bot: BotId)
    requires r < |results| && results[r].matchId < |matches|
  {
    PlaysIn(matches[results[r].matchId], bot)
  }

  /** The participation of `bot` in the match that result `r` resolves, if it plays in it. */
  function EntryOf(matches: seq<Match>, results: seq<ResultRecord>, r: ResultId, bot: BotId): seq<Participation>
    requires r < |results| && results[r].matchId < |matches|
  {
    ParticipationOf(matches[results[r].matchId], bot)
  }

  /**
    The ids below `upTo` of the results whose match `bot` plays in, the
    latest first. Only such results are listed; that every one of them is
    listed is `ResolvedResultIdsComplete`.
  */
  function ResolvedResultIds(matches: seq<Match>, results: seq<ResultRecord>, bot: BotId, upTo: nat): (ids: seq<ResultId>)
    requires upTo <= |results|
    requires forall r | 0 <= r < |results| :: results[r].matchId < |matches|
    ensures forall k | 0 <= k < |ids| :: ids[k] < upTo && ResolvesMatchOf(matches, results, ids[k], bot)
    ensures forall i, j | 0 <= i < j < |ids| :: ids[i] > ids[j]
    decreases upTo
  {
    if upTo == 0 then []
    else if ResolvesMatchOf(matches, results, upTo - 1, bot) then [upTo - 1] + ResolvedResultIds(matches, results, bot, upTo - 1)
    else ResolvedResultIds(matches, results, bot, upTo - 1)
  }

  /** Every result below `upTo` of a match the bot plays in is listed. */
  lemma {:induction false} ResolvedResultIdsComplete(matches: seq<Match>, results: seq<ResultRecord>, bot: BotId, upTo: nat)
    requires upTo <= |results|
    requires forall r | 0 <= r < |results| :: results[r].matchId < |matches|
    ensures forall r | 0 <= r < upTo && ResolvesMatchOf(matches, results, r, bot) :: r in ResolvedResultIds(matches, results, bot, upTo)
    decreases upTo
  {
    if upTo > 0 {
      ResolvedResultIdsComplete(matches, results, bot, upTo - 1);
    }
  }

  /**
    The participations of `bot` in matches resolved by the first `upTo`
    results, the latest result first.
  */
  function ResolvedParticipations(matches: seq<Match>, results: seq<ResultRecord>, bot: BotId, upTo: nat): (ps: seq<Participation>)
    requires upTo <= |results|
    requires forall r | 0 <= r < |results| :: results[r].matchId < |matches|
    ensures |ps| <= upTo
    ensures forall k | 0 <= k < |ps| :: ps[k].bot == bot
    decreases upTo
  {
    if upTo == 0 then []
    else EntryOf(matches, results, upTo - 1, bot) + ResolvedParticipations(matches, results, bot, upTo - 1)
  }

  /**
    The history holds one entry per result of a match the bot plays in, in
    the order of `ResolvedResultIds`: the k-th entry is the bot's
    participation in the match of the k-th such result.
  */
  lemma {:induction false} ResolvedParticipationsFollowIds(matches: seq<Match>, results: seq<ResultRecord>, bot: BotId, upTo: nat)
    requires upTo <= |results|
    requires forall r | 0 <= r < |results| :: results[r].matchId < |matches|
    ensures |ResolvedParticipations(matches, results, bot, upTo)| == |ResolvedResultIds(matches, results, bot, upTo)|
    ensures forall k | 0 <= k < |ResolvedResultIds(matches, results, bot, upTo)| ::
              EntryOf(matches, results, ResolvedResultIds(matches, results, bot, upTo)[k], bot)
              == [ResolvedParticipations(matches, results, bot, upTo)[k]]
    decreases upTo
  {
    if upTo > 0 {
      ResolvedParticipationsFollowIds(matches, results, bot, upTo - 1);
      var ps, rest := ResolvedParticipations(matches, results, bot, upTo), ResolvedParticipations(matches, results, bot, upTo - 1);
      var ids, restIds := ResolvedResultIds(matches, results, bot, upTo), ResolvedResultIds(matches, results, bot, upTo - 1);
      var entry := EntryOf(matches, results, upTo - 1, bot);
      if ResolvesMatchOf(matches, results, upTo - 1, bot) {
        assert ps == entry + rest && |entry| == 1 && ids == [upTo - 1] + restIds;
        forall k | 0 <= k < |ids|
          ensures EntryOf(matches, results, ids[k], bot) == [ps[k]]
        {
          if k > 0 {
            assert ids[k] == restIds[k - 1] && ps[k] == rest[k - 1];
          }
        }
      } else {
        assert entry == [] && ps == rest && ids == restIds;
      }
    }
  }

  /**
    `Participation.objects.filter(bot=bot, match__result__isnull=False)
    .order_by('-match__result__created')`: results are created in id order,
    so the latest result is the one with the largest id.
  */
  function RecentResolved(matches: seq<Match>, results: seq<ResultRecord>, bot: BotId): seq<Participation>
    requires forall r | 0 <= r < |results| :: results[r].matchId < |matches|
  {
    ResolvedParticipations(matches, results, bot, |results|)
  }

  /** The breaker's verdict: the check is on, there are N resolved participations, and the newest N all crashed. */
  predicate ShouldDisable(threshold: int, recent: seq<Participation>, crashed: Participation -> bool) {
    threshold >= 1 && |recent| >= threshold && forall i | 0 <= i < threshold :: crashed(recent[i])
  }

  /** The bots after the breaker has looked at `bot`. */
  function AfterCrashCheck(bots: seq<Bot>, bot: BotId, threshold: int, recent: seq<Participation>,
                           crashed: Participation -> bool): (bs: seq<Bot>)
    requires bot < |bots|
    ensures |bs| == |bots| && forall b | 0 <= b < |bs| && b != bot :: bs[b] == bots[b]
    ensures bs[bot] == bots[bot] || bs[bot] == bots[bot].(active := false)
    ensures forall b | 0 <= b < |bs| :: bs[b] == bots[b].(active := bs[b].active)
    ensures !bs[bot].active <==> !bots[bot].active || ShouldDisable(threshold, recent, crashed)
  {
    if ShouldDisable(threshold, recent, crashed) then bots[bot := bots[bot].(active := false)] else bots
  }

  /** A non-crash among the newest N participations, a disabled check, or too short a history: no action. */
  lemma NoDisableWithoutFullCrashStreak(threshold: int, recent: seq<Participation>, crashed: Participation -> bool, i: nat)
    requires threshold < 1 || |recent| < threshold || (i < threshold && i < |recent| && !crashed(recent[i]))
    ensures !ShouldDisable(threshold, recent, crashed)
  {
  }

  /**
    Resolving a match of `bot` with a new result puts that match's
    participation first in the bot's history, ahead of the old history.
  */
  lemma {:induction false} NewResultComesFirst(matches: seq<Match>, results: seq<ResultRecord>, bot: BotId, r: ResultRecord)
    requires forall k | 0 <= k < |results| :: results[k].matchId < |matches|
    requires r.matchId < |matches|
    ensures RecentResolved(matches, results + [r], bot) ==
            ParticipationOf(matches[r.matchId], bot) + RecentResolved(matches, results, bot)
  {
    var rs := results + [r];
    assert rs[|results|] == r;
    ResolvedPrefix(matches, results, rs, bot, |results|);
  }

  lemma {:induction false} ResolvedPrefix(matches: seq<Match>, a: seq<ResultRecord>, b: seq<ResultRecord>, bot: BotId, upTo: nat)
    requires upTo <= |a| <= |b| && a == b[..|a|]
    requires forall k | 0 <= k < |b| :: b[k].matchId < |matches|
    ensures ResolvedParticipations(matches, a, bot, upTo) == ResolvedParticipations(matches, b, bot, upTo)
    decreases upTo
  {
    if upTo > 0 {
      assert a[upTo - 1] == b[upTo - 1];
      ResolvedPrefix(matches, a, b, bot, upTo - 1);
    }
  }

  /**
    The history only depends on the matches that results point at: changing
    a match with no result leaves every bot's history as it was.
  */
  lemma {:induction false} UnresolvedMatchDoesNotCount(matches: seq<Match>, results: seq<ResultRecord>, bot: BotId, m: nat, mt: Match, upTo: nat)
    requires upTo <= |results|
    requires forall k | 0 <= k < |results| :: results[k].matchId < |matches| && results[k].matchId != m
    ensures ResolvedParticipations(matches, results, bot, upTo) ==
            ResolvedParticipations(if m < |matches| then matches[m := mt] else matches, results, bot, upTo)
    decreases upTo
  {
    if upTo > 0 {
      UnresolvedMatchDoesNotCount(matches, results, bot, m, mt, upTo - 1);
    }
  }
}
