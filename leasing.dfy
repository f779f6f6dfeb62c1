/**
  Which match a worker gets when it asks for one: with reissue on, the
  started and unresolved match already assigned to it that comes first by
  round id; otherwise a pending match that the start step assigns to it.
*/
module Leasing {
  import opened Entities

  /** `started__isnull=False, assigned_to=user, result__isnull=True`. */
  predicate Unfinished(mt: Match, user: UserId) {
    mt.started.Some? && mt.assignedTo == Some(user) && mt.result.None?
  }

  predicate HasUnfinished(matches: seq<Match>, user: UserId) {
    exists m | 0 <= m < |matches| :: Unfinished(matches[m], user)
  }

  /**
    Ascending order on round ids. Where a match without a round sorts
    depends on the database, so such a match may come before or after any
    other.
  */
  predicate RoundNoLater(a: Option<RoundId>, b: Option<RoundId>) {
    a.None? || b.None? || a.value <= b.value
  }

  /** `m` is an unfinished match of `user` that the ascending round-id order puts first. */
  predicate IsOldestUnfinished(matches: seq<Match>, user: UserId, m: nat) {
    && m < |matches|
    && Unfinished(matches[m], user)
    && forall k | 0 <= k < |matches| && Unfinished(matches[k], user) :: RoundNoLater(matches[m].round, matches[k].round)
  }

  /**
    The query `order_by(round_id)[0]` over the first `n` matches: an
    unfinished match of `user` that no other one precedes, or None when
    there is none.
  */
  function OldestUnfinishedUpTo(matches: seq<Match>, user: UserId, n: nat): (o: Option<nat>)
    requires n <= |matches|
    ensures o.Some? ==> o.value < n && Unfinished(matches[o.value], user)
    ensures o.Some? ==> forall j | 0 <= j < n && Unfinished(matches[j], user) :: RoundNoLater(matches[o.value].round, matches[j].round)
    ensures o.None? <==> forall j | 0 <= j < n :: !Unfinished(matches[j], user)
    decreases n
  {
    if n == 0 then None
    else
      var prev := OldestUnfinishedUpTo(matches, user, n - 1);
      if !Unfinished(matches[n - 1], user) then prev
      else if prev.None? then Some(n - 1)
      else if RoundNoLater(matches[prev.value].round, matches[n - 1].round) then prev
      else Some(n - 1)
  }

  /** Whenever the worker holds an unfinished match, one of them comes first by round id. */
  lemma OldestUnfinishedExists(matches: seq<Match>, user: UserId)
    requires HasUnfinished(matches, user)
    ensures exists m: nat :: IsOldestUnfinished(matches, user, m)
  {
    var o := OldestUnfinishedUpTo(matches, user, |matches|);
    assert IsOldestUnfinished(matches, user, o.value);
  }

  /** A match the start step may hand out: in a round, not assigned, no result. */
  predicate Pending(mt: Match) {
    mt.round.Some? && mt.assignedTo.None? && mt.result.None?
  }

  predicate HasPending(matches: seq<Match>) {
    exists m | 0 <= m < |matches| :: Pending(matches[m])
  }

  /** The match once assigned to `user` and started at `now`. */
  function Assigned(mt: Match, user: UserId, now: Time): Match {
    mt.(assignedTo := Some(user), started := Some(now))
  }

  /** The bot once it has been put into match `m`. */
  function EnterMatch(b: Bot, m: MatchId): Bot {
    b.(inMatch := true, currentMatch := Some(m))
  }
}
