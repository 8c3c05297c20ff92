/**
 * The search history kept on a User: the newest query goes to the front and
 * the list is cut back to its first 20 entries.
 */
module SearchHistory {
  import opened Basics

  const Limit: nat := 20

  /** The first n entries of s, or all of them when there are fewer. */
  function Take<T>(s: seq<T>, n: nat): (r: seq<T>)
    ensures |r| == Min(n, |s|) && r <= s
  {
    s[..Min(n, |s|)]
  }

  /** `history.unshift(query); history = history.slice(0, 20)` */
  function Push(history: seq<string>, query: string): (r: seq<string>)
    ensures |r| == Min(|history| + 1, Limit)
    ensures r[0] == query
    ensures r[1..] <= history && |r[1..]| <= Limit - 1
  {
    Take([query] + history, Limit)
  }

  function Reversed<T>(s: seq<T>): (r: seq<T>)
    ensures |r| == |s|
    ensures forall i | 0 <= i < |s| :: r[i] == s[|s| - 1 - i]
    decreases |s|
  {
    if s == [] then [] else Reversed(s[1..]) + [s[0]]
  }

  /** The history after the queries qs, oldest first, were pushed one by one. */
  function Replay(history: seq<string>, qs: seq<string>): seq<string>
    decreases |qs|
  {
    if qs == [] then history else Replay(Push(history, qs[0]), qs[1..])
  }

  lemma TakeOfTake<T>(a: seq<T>, b: seq<T>, n: nat)
    ensures Take(a + Take(b, n), n) == Take(a + b, n)
  {
    var lhs, rhs := Take(a + Take(b, n), n), Take(a + b, n);
    assert |lhs| == |rhs|;
    forall i | 0 <= i < |lhs| ensures lhs[i] == rhs[i] {
      if i >= |a| {
        assert lhs[i] == Take(b, n)[i - |a|];
      }
    }
  }

  /**
   * Pushing queries one at a time leaves the newest first, each earlier one
   * behind it, then the old history, all cut to 20.
   */
  lemma {:induction false} ReplayIsNewestFirst(history: seq<string>, qs: seq<string>)
    requires |history| <= Limit
    ensures Replay(history, qs) == Take(Reversed(qs) + history, Limit)
    decreases |qs|
  {
    if qs == [] {
      assert Reversed(qs) + history == history;
    } else {
      ReplayIsNewestFirst(Push(history, qs[0]), qs[1..]);
      TakeOfTake(Reversed(qs[1..]), [qs[0]] + history, Limit);
      assert Reversed(qs) == Reversed(qs[1..]) + [qs[0]];
      assert Reversed(qs[1..]) + ([qs[0]] + history) == Reversed(qs) + history;
    }
  }

  /**
   * Starting from an empty history, the list holds the last min(n, 20)
   * queries, most recent first; after 25 queries it holds queries 25 down to 6.
   */
  lemma MostRecentQueries(qs: seq<string>)
    ensures |Replay([], qs)| == Min(|qs|, Limit)
    ensures forall i | 0 <= i < |Replay([], qs)| :: Replay([], qs)[i] == qs[|qs| - 1 - i]
  {
    ReplayIsNewestFirst([], qs);
    assert Reversed(qs) + [] == Reversed(qs);
  }
}
