/**
  The pure parts of a round: its display name, the number it gets when it
  is first saved, the count behind `max_active_rounds_reached`, and the
  completion condition "no match of the round lacks a result".
*/
module Rounds {
  import opened Entities

  // ---- Round.name: "Round " followed by str(number) ----

  predicate IsDigits(s: string) {
    forall i | 0 <= i < |s| :: '0' <= s[i] <= '9'
  }

  function DigitChar(d: nat): (c: char)
    requires d < 10
    ensures '0' <= c <= '9' && (c as int) - ('0' as int) == d
  {
    (('0' as int) + d) as char
  }

  function DigitValue(c: char): nat
    requires '0' <= c <= '9'
  {
    (c as int) - ('0' as int)
  }

  /** The decimal digits of `n`, without leading zeros. */
  function Digits(n: nat): (s: string)
    ensures |s| >= 1 && IsDigits(s)
    ensures |s| > 1 ==> s[0] != '0'
    decreases n
  {
    if n < 10 then [DigitChar(n)] else Digits(n / 10) + [DigitChar(n % 10)]
  }

  function ParseDigits(s: string): nat
    requires IsDigits(s)
    decreases |s|
  {
    if s == [] then 0 else ParseDigits(s[..|s| - 1]) * 10 + DigitValue(s[|s| - 1])
  }

  lemma {:induction false} ParseDigitsOfDigits(n: nat)
    ensures ParseDigits(Digits(n)) == n
    decreases n
  {
    if n >= 10 {
      var s := Digits(n);
      assert s[..|s| - 1] == Digits(n / 10);
      ParseDigitsOfDigits(n / 10);
    }
  }

  /** Python's `str` on an integer. */
  function DecimalString(n: int): string {
    if n < 0 then "-" + Digits(-n) else Digits(n)
  }

  predicate IsDecimal(s: string) {
    (|s| >= 2 && s[0] == '-' && IsDigits(s[1..])) || (|s| >= 1 && IsDigits(s))
  }

  function ParseDecimal(s: string): int
    requires IsDecimal(s)
  {
    if s[0] == '-' then 0 - ParseDigits(s[1..]) else ParseDigits(s)
  }

  lemma DecimalRoundTrip(n: int)
    ensures IsDecimal(DecimalString(n)) && ParseDecimal(DecimalString(n)) == n
  {
    if n < 0 {
      var s := DecimalString(n);
      assert s[1..] == Digits(-n);
      ParseDigitsOfDigits(-n);
    } else {
      ParseDigitsOfDigits(n);
    }
  }

  /** Digits with no leading zero, as `str` writes a natural number. */
  predicate CanonicalDigits(s: string) {
    |s| >= 1 && IsDigits(s) && (|s| > 1 ==> s[0] != '0')
  }

  /** The text `str` writes for an integer: canonical digits, with a "-" only before a nonzero number. */
  predicate CanonicalDecimal(s: string) {
    (|s| >= 2 && s[0] == '-' && CanonicalDigits(s[1..]) && s[1..] != "0") || CanonicalDigits(s)
  }

  lemma DecimalStringCanonical(n: int)
    ensures CanonicalDecimal(DecimalString(n))
    ensures DecimalString(n)[0] == '-' <==> n < 0
  {
    if n < 0 {
      var s := DecimalString(n);
      assert s[1..] == Digits(-n);
      ParseDigitsOfDigits(-n);
    }
  }

  /** Canonical digits that do not start with '0' denote a positive number. */
  lemma {:induction false} LeadingDigitPositive(s: string)
    requires |s| >= 1 && IsDigits(s) && s[0] != '0'
    ensures ParseDigits(s) >= 1
    decreases |s|
  {
    if |s| > 1 {
      var init := s[..|s| - 1];
      assert init[0] == s[0];
      LeadingDigitPositive(init);
    }
  }

  /** The canonical digits of a number are unique: they are `Digits` of it. */
  lemma {:induction false} CanonicalDigitsUnique(s: string)
    requires CanonicalDigits(s)
    ensures s == Digits(ParseDigits(s))
    decreases |s|
  {
    var n := ParseDigits(s);
    if |s| == 1 {
      assert s[..0] == [];
    } else {
      var init := s[..|s| - 1];
      assert init[0] == s[0];
      LeadingDigitPositive(init);
      CanonicalDigitsUnique(init);
      assert n / 10 == ParseDigits(init) && n % 10 == DigitValue(s[|s| - 1]);
      assert s == init + [s[|s| - 1]];
    }
  }

  /** A canonical decimal text is the one `DecimalString` writes for the number it denotes. */
  lemma CanonicalDecimalUnique(s: string)
    requires CanonicalDecimal(s)
    ensures IsDecimal(s) && s == DecimalString(ParseDecimal(s))
  {
    if s[0] == '-' {
      CanonicalDigitsUnique(s[1..]);
      assert s == "-" + s[1..];
    } else {
      CanonicalDigitsUnique(s);
    }
  }

  /**
    A round's name is "Round " followed by its number written in decimal,
    in the canonical form `str` gives it.
  */
  function RoundName(number: int): (name: string)
    ensures |name| > 6 && name[..6] == "Round "
    ensures IsDecimal(name[6..]) && ParseDecimal(name[6..]) == number
    ensures CanonicalDecimal(name[6..]) && (name[6] == '-' <==> number < 0)
  {
    DecimalRoundTrip(number);
    DecimalStringCanonical(number);
    var name := "Round " + DecimalString(number);
    assert name[6..] == DecimalString(number);
    name
  }

  /** Any text meeting `RoundName`'s contract for a number is that round's name: the contract fixes it. */
  lemma RoundNameDetermined(number: int, name: string)
    requires |name| > 6 && name[..6] == "Round "
    requires CanonicalDecimal(name[6..]) && IsDecimal(name[6..]) && ParseDecimal(name[6..]) == number
    ensures name == RoundName(number)
  {
    CanonicalDecimalUnique(name[6..]);
    assert name == name[..6] + name[6..];
  }

  // ---- pre_save_round: numbering within a season ----

  /** `Round.objects.filter(season=s).count()`. */
  function CountInSeason(rounds: seq<Round>, s: SeasonId): (c: nat)
    ensures c <= |rounds|
    decreases |rounds|
  {
    if rounds == [] then 0
    else CountInSeason(rounds[..|rounds| - 1], s) + (if rounds[|rounds| - 1].season == s then 1 else 0)
  }

  /** The number a round has once it is saved: its own, or one more than the rounds of its season. */
  function NumberOnSave(number: Option<int>, rounds: seq<Round>, season: SeasonId): (n: int)
    ensures number.Some? ==> n == number.value
    ensures number.None? ==> 1 <= n <= |rounds| + 1
  {
    if number.Some? then number.value else CountInSeason(rounds, season) + 1
  }

  /** Every round was numbered on creation by `NumberOnSave` from the rounds before it. */
  predicate RoundsNumbered(rounds: seq<Round>) {
    forall r | 0 <= r < |rounds| :: rounds[r].number == CountInSeason(rounds[..r], rounds[r].season) + 1
  }

  lemma {:induction false} CountInSeasonMonotone(rounds: seq<Round>, s: SeasonId, i: nat, j: nat)
    requires i <= j <= |rounds|
    ensures CountInSeason(rounds[..i], s) <= CountInSeason(rounds[..j], s)
    decreases j - i
  {
    if i < j {
      CountInSeasonMonotone(rounds, s, i, j - 1);
      assert rounds[..j][..j - 1] == rounds[..j - 1];
    }
  }

  /** Within a season, a round created later has a larger number: numbers never repeat. */
  lemma NumbersIncreaseWithinSeason(rounds: seq<Round>, r1: nat, r2: nat)
    requires RoundsNumbered(rounds)
    requires r1 < r2 < |rounds| && rounds[r1].season == rounds[r2].season
    ensures rounds[r1].number < rounds[r2].number
  {
    var s := rounds[r1].season;
    assert rounds[..r1 + 1][..r1] == rounds[..r1];
    assert CountInSeason(rounds[..r1 + 1], s) == CountInSeason(rounds[..r1], s) + 1;
    CountInSeasonMonotone(rounds, s, r1 + 1, r2);
  }

  /** Saving a new round with no number keeps every round numbered. */
  lemma NumberingPreserved(rounds: seq<Round>, created: Round)
    requires RoundsNumbered(rounds)
    requires created.number == NumberOnSave(None, rounds, created.season)
    ensures RoundsNumbered(rounds + [created])
  {
    var rs := rounds + [created];
    forall r | 0 <= r < |rs| ensures rs[r].number == CountInSeason(rs[..r], rs[r].season) + 1 {
      if r < |rounds| {
        assert rs[..r] == rounds[..r];
      } else {
        assert rs[..r] == rounds;
      }
    }
  }

  lemma {:induction false} CountInSeasonSameSeasons(a: seq<Round>, b: seq<Round>, s: SeasonId)
    requires |a| == |b| && forall i | 0 <= i < |a| :: a[i].season == b[i].season
    ensures CountInSeason(a, s) == CountInSeason(b, s)
    decreases |a|
  {
    if a != [] {
      CountInSeasonSameSeasons(a[..|a| - 1], b[..|b| - 1], s);
    }
  }

  /** Changing a round's other fields, keeping its number and season, keeps every round numbered. */
  lemma NumberingKeptByUpdate(rounds: seq<Round>, r: nat, updated: Round)
    requires RoundsNumbered(rounds) && r < |rounds|
    requires updated.number == rounds[r].number && updated.season == rounds[r].season
    ensures RoundsNumbered(rounds[r := updated])
  {
    var rs := rounds[r := updated];
    forall k | 0 <= k < |rs| ensures rs[k].number == CountInSeason(rs[..k], rs[k].season) + 1 {
      CountInSeasonSameSeasons(rs[..k], rounds[..k], rs[k].season);
    }
  }

  // ---- max_active_rounds_reached ----

  /** `Round.objects.filter(complete=False).count()`. */
  function CountIncomplete(rounds: seq<Round>): nat
    decreases |rounds|
  {
    if rounds == [] then 0
    else CountIncomplete(rounds[..|rounds| - 1]) + (if rounds[|rounds| - 1].complete then 0 else 1)
  }

  /** The ids of the rounds that are not complete. */
  function IncompleteIds(rounds: seq<Round>): set<RoundId> {
    set r: RoundId | r < |rounds| && !rounds[r].complete
  }

  lemma {:induction false} CountIncompleteIsCardinality(rounds: seq<Round>)
    ensures CountIncomplete(rounds) == |IncompleteIds(rounds)|
    decreases |rounds|
  {
    if rounds != [] {
      var n := |rounds| - 1;
      var prefix := rounds[..n];
      CountIncompleteIsCardinality(prefix);
      if rounds[n].complete {
        assert IncompleteIds(rounds) == IncompleteIds(prefix);
      } else {
        assert IncompleteIds(rounds) == IncompleteIds(prefix) + {n};
        assert n !in IncompleteIds(prefix);
      }
    }
  }

  /** True exactly when the number of incomplete rounds is at least the cap. */
  function MaxActiveRoundsReached(rounds: seq<Round>, config: Config): (reached: bool)
    ensures reached <==> |IncompleteIds(rounds)| >= config.maxActiveRounds
  {
    CountIncompleteIsCardinality(rounds);
    CountIncomplete(rounds) >= config.maxActiveRounds
  }

  /** Creating a round (incomplete) adds one to the incomplete count. */
  lemma NewRoundIsActive(rounds: seq<Round>, created: Round)
    requires !created.complete
    ensures |IncompleteIds(rounds + [created])| == |IncompleteIds(rounds)| + 1
  {
    var rs := rounds + [created];
    assert rs[..|rounds|] == rounds;
    CountIncompleteIsCardinality(rs);
    CountIncompleteIsCardinality(rounds);
  }

  /** Marking a round complete lowers the incomplete count by one if it was incomplete, else keeps it. */
  lemma CompletionLowersActive(rounds: seq<Round>, r: nat, updated: Round)
    requires r < |rounds| && updated.complete
    ensures |IncompleteIds(rounds[r := updated])| == |IncompleteIds(rounds)| - (if rounds[r].complete then 0 else 1)
  {
    var before, after := IncompleteIds(rounds), IncompleteIds(rounds[r := updated]);
    assert after == before - {r};
    if !rounds[r].complete {
      assert before == after + {r};
    }
  }

  // ---- update_if_completed ----

  /** Every match that belongs to round `r` has a result. */
  predicate AllResolved(matches: seq<Match>, r: RoundId) {
    forall m | 0 <= m < |matches| && matches[m].round == Some(r) :: matches[m].result.Some?
  }

  /** `Match.objects.filter(round=r, result__isnull=True).count()`. */
  function CountUnresolved(matches: seq<Match>, r: RoundId): nat
    decreases |matches|
  {
    if matches == [] then 0
    else
      var last := matches[|matches| - 1];
      CountUnresolved(matches[..|matches| - 1], r) + (if last.round == Some(r) && last.result.None? then 1 else 0)
  }

  /** The count of the round's matches without a result is zero exactly when all of them have one. */
  lemma {:induction false} NoUnresolvedIffAllResolved(matches: seq<Match>, r: RoundId)
    ensures CountUnresolved(matches, r) == 0 <==> AllResolved(matches, r)
    decreases |matches|
  {
    if matches != [] {
      var n := |matches| - 1;
      NoUnresolvedIffAllResolved(matches[..n], r);
      assert forall m | 0 <= m < n :: matches[..n][m] == matches[m];
    }
  }

  /** Rounds whose complete flag agrees with their matches: complete iff every match has a result. */
  predicate RoundsConsistent(rounds: seq<Round>, matches: seq<Match>) {
    forall r | 0 <= r < |rounds| :: rounds[r].complete <==> AllResolved(matches, r)
  }

  /** The rounds after `update_if_completed` on round `r` at time `now`. */
  function CompletionUpdate(rounds: seq<Round>, matches: seq<Match>, r: RoundId, now: Time): (rs: seq<Round>)
    requires r < |rounds|
    ensures |rs| == |rounds| && forall k | 0 <= k < |rs| && k != r :: rs[k] == rounds[k]
    ensures rs[r].complete <==> rounds[r].complete || AllResolved(matches, r)
    ensures rs[r].number == rounds[r].number && rs[r].season == rounds[r].season
    ensures AllResolved(matches, r) ==> rs[r] == rounds[r].(complete := true, finished := Some(now))
    ensures !AllResolved(matches, r) ==> rs == rounds
  {
    NoUnresolvedIffAllResolved(matches, r);
    if CountUnresolved(matches, r) == 0 then rounds[r := rounds[r].(complete := true, finished := Some(now))]
    else rounds
  }

  /** Two match tables that agree on every match's round and result agree on which rounds are resolved. */
  lemma ResolutionDependsOnRoundsAndResults(a: seq<Match>, b: seq<Match>)
    requires |a| == |b|
    requires forall m | 0 <= m < |a| :: a[m].round == b[m].round && a[m].result == b[m].result
    ensures forall r :: AllResolved(a, r) == AllResolved(b, r)
  {
  }
}
