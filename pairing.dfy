/**
  Which bots a new round pairs up: the active bots, listed in some order,
  and every unordered pair of them in the order the scheduler's nested loop
  visits them (first bot by position, then each later bot).
*/
module Pairing {
  import opened Entities

  type Pair = (BotId, BotId)

  predicate Distinct(s: seq<BotId>) {
    forall i, j | 0 <= i < j < |s| :: s[i] != s[j]
  }

  /** The ids below `n` of the bots whose `active` flag is set, in increasing order. */
  function ActiveUpTo(bots: seq<Bot>, n: nat): (ids: seq<BotId>)
    requires n <= |bots|
    ensures forall k | 0 <= k < |ids| :: ids[k] < n && bots[ids[k]].active
    ensures forall x | 0 <= x < n && bots[x].active :: x in ids
    ensures forall i, j | 0 <= i < j < |ids| :: ids[i] < ids[j]
  {
    if n == 0 then []
    else ActiveUpTo(bots, n - 1) + (if bots[n - 1].active then [n - 1] else [])
  }

  /** `s` lists every active bot exactly once, in some order. */
  predicate ListsActive(bots: seq<Bot>, s: seq<BotId>) {
    && Distinct(s)
    && (forall k | 0 <= k < |s| :: s[k] < |bots| && bots[s[k]].active)
    && (forall x: nat | x < |bots| && bots[x].active :: x in s)
  }

  /**
    `Bot.objects.filter(active=True)` listed in id order. Its length is the
    active-bot count; the query itself names no order, so a new round may
    take the bots in any order that `ListsActive` allows.
  */
  function ActiveBotIds(bots: seq<Bot>): (ids: seq<BotId>)
    ensures ListsActive(bots, ids)
  {
    ActiveUpTo(bots, |bots|)
  }

  lemma {:induction false} DistinctSetSize(s: seq<BotId>)
    requires Distinct(s)
    ensures |set x: BotId | x in s| == |s|
    decreases |s|
  {
    if s != [] {
      var t := s[1..];
      DistinctSetSize(t);
      assert (set x: BotId | x in s) == (set x: BotId | x in t) + {s[0]};
      assert s[0] !in t;
      assert s[0] !in (set x: BotId | x in t);
    }
  }

  /** Every listing of the active bots is as long as the active-bot count. */
  lemma ActiveListingLength(bots: seq<Bot>, s: seq<BotId>)
    requires ListsActive(bots, s)
    ensures |s| == |ActiveBotIds(bots)|
  {
    var ids := ActiveBotIds(bots);
    DistinctSetSize(s);
    DistinctSetSize(ids);
    assert (set x: BotId | x in s) == (set x: BotId | x in ids);
  }

  /** The matches the inner loop creates for the bot at position `i`: it against every later bot. */
  function Row(s: seq<BotId>, i: nat): (row: seq<Pair>)
    requires i < |s|
    ensures |row| == |s| - i - 1
  {
    seq(|s| - i - 1, j requires 0 <= j < |s| - i - 1 => (s[i], s[i + 1 + j]))
  }

  /** The matches created once the outer loop has handled the first `i` bots. */
  function RowsUpTo(s: seq<BotId>, i: nat): seq<Pair>
    requires i <= |s|
    decreases i
  {
    if i == 0 then [] else RowsUpTo(s, i - 1) + Row(s, i - 1)
  }

  /** Every pair a round over the bots `s` creates, in creation order. */
  function AllPairs(s: seq<BotId>): seq<Pair> {
    RowsUpTo(s, |s|)
  }

  predicate SamePair(p: Pair, q: Pair) {
    p == q || (p.0 == q.1 && p.1 == q.0)
  }

  /** No unordered pair occurs twice. */
  predicate PairsUnique(ps: seq<Pair>) {
    forall x, y | 0 <= x < y < |ps| :: !SamePair(ps[x], ps[y])
  }

  lemma {:induction false} PairCountUpTo(s: seq<BotId>, i: nat)
    requires i <= |s|
    ensures 2 * |RowsUpTo(s, i)| == i * (2 * |s| - i - 1)
    decreases i
  {
    if i > 0 {
      PairCountUpTo(s, i - 1);
      var n := |s|;
      assert |RowsUpTo(s, i)| == |RowsUpTo(s, i - 1)| + (n - i);
      assert (i - 1) * (2 * n - (i - 1) - 1) + 2 * (n - i) == i * (2 * n - i - 1);
    }
  }

  /** A round over n bots creates n * (n - 1) / 2 matches. */
  lemma AllPairsCount(s: seq<BotId>)
    ensures |AllPairs(s)| == |s| * (|s| - 1) / 2
  {
    PairCountUpTo(s, |s|);
  }

  lemma PairsUniqueConcat(a: seq<Pair>, b: seq<Pair>)
    requires PairsUnique(a) && PairsUnique(b)
    requires forall x, y | 0 <= x < |a| && 0 <= y < |b| :: !SamePair(a[x], b[y])
    ensures PairsUnique(a + b)
  {
  }

  /**
    Over distinct bots, the first `i` rows never repeat an unordered pair,
    never pair a bot with itself, and take their first bot from the first
    `i` positions.
  */
  lemma {:induction false} RowsUpToShape(s: seq<BotId>, i: nat)
    requires Distinct(s) && i <= |s|
    ensures PairsUnique(RowsUpTo(s, i))
    ensures forall k | 0 <= k < |RowsUpTo(s, i)| ::
              RowsUpTo(s, i)[k].0 in s[..i] && RowsUpTo(s, i)[k].1 in s && RowsUpTo(s, i)[k].0 != RowsUpTo(s, i)[k].1
    decreases i
  {
    if i > 0 {
      RowsUpToShape(s, i - 1);
      var a, b := RowsUpTo(s, i - 1), Row(s, i - 1);
      assert RowsUpTo(s, i) == a + b;
      assert PairsUnique(b) by {
        forall x, y | 0 <= x < y < |b| ensures !SamePair(b[x], b[y]) {
          assert b[x] == (s[i - 1], s[i + x]) && b[y] == (s[i - 1], s[i + y]);
        }
      }
      forall x, y | 0 <= x < |a| && 0 <= y < |b| ensures !SamePair(a[x], b[y]) {
        assert b[y] == (s[i - 1], s[i + y]);
        var k :| 0 <= k < i - 1 && s[k] == a[x].0;
        assert s[k] != s[i - 1] && s[k] != s[i + y];
      }
      PairsUniqueConcat(a, b);
      forall k | 0 <= k < |a + b| ensures (a + b)[k].0 in s[..i] && (a + b)[k].1 in s && (a + b)[k].0 != (a + b)[k].1 {
        if k < |a| {
          assert (a + b)[k] == a[k];
          assert a[k].0 in s[..i - 1];
          assert s[..i - 1] <= s[..i];
        } else {
          var j := k - |a|;
          assert (a + b)[k] == b[j] == (s[i - 1], s[i + j]);
          assert s[i - 1] == s[..i][i - 1];
        }
      }
    }
  }

  /** Bots at positions a < b are paired once the outer loop has passed position a. */
  lemma {:induction false} RowsUpToCovers(s: seq<BotId>, i: nat, a: nat, b: nat)
    requires i <= |s| && a < i && a < b < |s|
    ensures (s[a], s[b]) in RowsUpTo(s, i)
    decreases i
  {
    if a == i - 1 {
      assert Row(s, a)[b - a - 1] == (s[a], s[b]);
      assert RowsUpTo(s, i) == RowsUpTo(s, i - 1) + Row(s, a);
    } else {
      RowsUpToCovers(s, i - 1, a, b);
      assert RowsUpTo(s, i) == RowsUpTo(s, i - 1) + Row(s, i - 1);
    }
  }

  /**
    Over distinct bots, a round's pairs are exactly the unordered pairs of
    two different bots, each once: every pair joins two different bots of
    `s`, every two different bots of `s` are paired, and no unordered pair
    occurs twice.
  */
  lemma AllPairsExactlyOnce(s: seq<BotId>)
    requires Distinct(s)
    ensures forall k | 0 <= k < |AllPairs(s)| ::
              AllPairs(s)[k].0 in s && AllPairs(s)[k].1 in s && AllPairs(s)[k].0 != AllPairs(s)[k].1
    ensures forall x, y | x in s && y in s && x != y :: (x, y) in AllPairs(s) || (y, x) in AllPairs(s)
    ensures PairsUnique(AllPairs(s))
  {
    RowsUpToShape(s, |s|);
    assert s[..|s|] == s;
    forall x, y | x in s && y in s && x != y ensures (x, y) in AllPairs(s) || (y, x) in AllPairs(s) {
      var i :| 0 <= i < |s| && s[i] == x;
      var j :| 0 <= j < |s| && s[j] == y;
      if i < j {
        RowsUpToCovers(s, |s|, i, j);
      } else {
        RowsUpToCovers(s, |s|, j, i);
      }
    }
  }

  /** At least two bots give at least one match. */
  lemma AllPairsNonEmpty(s: seq<BotId>)
    requires |s| >= 2
    ensures |AllPairs(s)| >= 1
  {
    RowsUpToCovers(s, |s|, 0, 1);
  }
}
