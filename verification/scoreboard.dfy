/**
 * The fallback scoreboard: every user's (username, highscore) pair, ordered by
 * highscore from high to low with a stable sort (Python's `sorted` with
 * `reverse=True` keeps users with equal scores in storage order).
 *
 * Sorting the users by score and then projecting each to its pair gives the
 * same list as projecting first and sorting the pairs by score, because the
 * sort key is the score alone; the model sorts the pairs.
 */
module Ranking {
  import opened Store

  /** `[{'username': u['username'], 'highscore': u['highscore']} for u in users]`, in storage order. */
  function Entries(users: seq<User>): seq<Entry>
  {
    seq(|users|, i requires 0 <= i < |users| => Entry(users[i].username, users[i].highscore))
  }

  /** Highscores never go up along the list. */
  ghost predicate NonIncreasing(s: seq<Entry>)
  {
    forall i, j :: 0 <= i < j < |s| ==> s[i].highscore >= s[j].highscore
  }

  /** The entries with highscore `k`, in their order in `s`. */
  function WithScore(s: seq<Entry>, k: int): (r: seq<Entry>)
    ensures forall e :: e in r <==> e in s && e.highscore == k
  {
    if s == [] then []
    else (if s[0].highscore == k then [s[0]] else []) + WithScore(s[1..], k)
  }

  /** For every score, `a` and `b` hold the same entries with that score, in the same order. */
  ghost predicate SameByScore(a: seq<Entry>, b: seq<Entry>)
  {
    forall k :: WithScore(a, k) == WithScore(b, k)
  }

  /** Put `e` before the first entry whose score is not above its own. */
  function Insert(e: Entry, s: seq<Entry>): seq<Entry>
  {
    if s == [] || s[0].highscore <= e.highscore then [e] + s
    else [s[0]] + Insert(e, s[1..])
  }

  /** Stable sort by highscore, high to low. */
  function SortDesc(s: seq<Entry>): seq<Entry>
  {
    if s == [] then [] else Insert(s[0], SortDesc(s[1..]))
  }

  /** get_scoreboard's fallback branch. */
  function Scoreboard(users: seq<User>): seq<Entry>
  {
    SortDesc(Entries(users))
  }

  // ---------------------------------------------------------------------------
  // Properties of Insert

  lemma WithScoreCons(e: Entry, s: seq<Entry>, k: int)
    ensures WithScore([e] + s, k) == (if e.highscore == k then [e] else []) + WithScore(s, k)
  {
  }

  /** Inserting adds `e` and nothing else. */
  lemma {:induction false} InsertMembers(e: Entry, s: seq<Entry>)
    ensures forall x :: x in Insert(e, s) <==> x == e || x in s
    ensures multiset(Insert(e, s)) == multiset(s) + multiset{e}
  {
    if s != [] && s[0].highscore > e.highscore {
      InsertMembers(e, s[1..]);
      assert s == [s[0]] + s[1..];
    }
  }

  /** An entry scoring at least as much as everything in a sorted list can go in front of it. */
  lemma ConsSorted(h: Entry, r: seq<Entry>)
    requires NonIncreasing(r)
    requires forall x :: x in r ==> x.highscore <= h.highscore
    ensures NonIncreasing([h] + r)
  {
  }

  /** Inserting into a sorted list keeps it sorted. */
  lemma {:induction false} InsertSorted(e: Entry, s: seq<Entry>)
    requires NonIncreasing(s)
    ensures NonIncreasing(Insert(e, s))
  {
    if s == [] || s[0].highscore <= e.highscore {
      forall x | x in s ensures x.highscore <= e.highscore {
        var k :| 0 <= k < |s| && s[k] == x;
      }
      ConsSorted(e, s);
    } else {
      var t := s[1..];
      InsertSorted(e, t);
      InsertMembers(e, t);
      forall x | x in Insert(e, t) ensures x.highscore <= s[0].highscore {
        if x != e {
          var k :| 0 <= k < |t| && t[k] == x;
          assert s[k + 1] == x;
        }
      }
      ConsSorted(s[0], Insert(e, t));
    }
  }

  /** Inserting `e` puts it ahead of the entries with its own score that were already there. */
  lemma {:induction false} InsertWithScore(e: Entry, s: seq<Entry>, k: int)
    ensures WithScore(Insert(e, s), k) == (if e.highscore == k then [e] else []) + WithScore(s, k)
  {
    if s == [] || s[0].highscore <= e.highscore {
      WithScoreCons(e, s, k);
    } else {
      var rest := Insert(e, s[1..]);
      var own := if e.highscore == k then [e] else [];
      var first := if s[0].highscore == k then [s[0]] else [];
      assert first == [] || own == [];
      calc {
        WithScore(Insert(e, s), k);
        { assert Insert(e, s) == [s[0]] + rest; }
        WithScore([s[0]] + rest, k);
        { WithScoreCons(s[0], rest, k); }
        first + WithScore(rest, k);
        { InsertWithScore(e, s[1..], k); }
        first + (own + WithScore(s[1..], k));
        own + (first + WithScore(s[1..], k));
        { WithScoreCons(s[0], s[1..], k); assert [s[0]] + s[1..] == s; }
        own + WithScore(s, k);
      }
    }
  }

  // ---------------------------------------------------------------------------
  // Properties of SortDesc

  /** The sort orders by score, high to low, and is a permutation of its input. */
  lemma {:induction false} SortDescSortedPermutation(s: seq<Entry>)
    ensures NonIncreasing(SortDesc(s))
    ensures multiset(SortDesc(s)) == multiset(s)
  {
    if s != [] {
      SortDescSortedPermutation(s[1..]);
      InsertSorted(s[0], SortDesc(s[1..]));
      InsertMembers(s[0], SortDesc(s[1..]));
      assert s == [s[0]] + s[1..];
    }
  }

  /** The sort is stable: for each score, the entries with that score keep their input order. */
  lemma {:induction false} SortDescStable(s: seq<Entry>, k: int)
    ensures WithScore(SortDesc(s), k) == WithScore(s, k)
  {
    if s != [] {
      SortDescStable(s[1..], k);
      InsertWithScore(s[0], SortDesc(s[1..]), k);
      WithScoreCons(s[0], s[1..], k);
      assert [s[0]] + s[1..] == s;
    }
  }

  /** A non-empty list's top entry shows up among the entries with its score. */
  lemma WithScoreHead(s: seq<Entry>)
    ensures s != [] ==> WithScore(s, s[0].highscore) == [s[0]] + WithScore(s[1..], s[0].highscore)
  {
  }

  /** Dropping a common first entry keeps two lists in agreement score by score. */
  lemma SameByScoreTail(a: seq<Entry>, b: seq<Entry>)
    requires a != [] && b != [] && a[0] == b[0] && SameByScore(a, b)
    ensures SameByScore(a[1..], b[1..])
  {
    forall k ensures WithScore(a[1..], k) == WithScore(b[1..], k) {
      var head := if a[0].highscore == k then [a[0]] else [];
      assert [a[0]] + a[1..] == a;
      assert [b[0]] + b[1..] == b;
      WithScoreCons(a[0], a[1..], k);
      WithScoreCons(b[0], b[1..], k);
      assert head + WithScore(a[1..], k) == head + WithScore(b[1..], k);
      assert WithScore(a[1..], k) == (head + WithScore(a[1..], k))[|head|..];
      assert WithScore(b[1..], k) == (head + WithScore(b[1..], k))[|head|..];
    }
  }

  /**
   * Two sorted lists that agree, score by score, on the entries with that score
   * and their order are the same list.
   */
  lemma {:induction false} SortedUnique(a: seq<Entry>, b: seq<Entry>)
    requires NonIncreasing(a) && NonIncreasing(b)
    requires SameByScore(a, b)
    ensures a == b
    decreases |a|
  {
    assert a == [] <==> b == [] by {
      WithScoreHead(a);
      WithScoreHead(b);
    }
    if a != [] {
      var m, n := a[0].highscore, b[0].highscore;
      assert a[0] in WithScore(b, m);
      assert b[0] in WithScore(a, n);
      assert m == n by {
        var i :| 0 <= i < |b| && b[i] == a[0];
        var j :| 0 <= j < |a| && a[j] == b[0];
        assert n >= b[i].highscore;
        assert m >= a[j].highscore;
      }
      WithScoreHead(a);
      WithScoreHead(b);
      assert a[0] == b[0] by {
        assert WithScore(a, m)[0] == WithScore(b, m)[0];
      }
      SameByScoreTail(a, b);
      SortedUnique(a[1..], b[1..]);
      assert a == [a[0]] + a[1..];
      assert b == [b[0]] + b[1..];
    }
  }

  // ---------------------------------------------------------------------------
  // The scoreboard

  /**
   * The scoreboard is the one list that is sorted high to low and keeps, for
   * every score, the users with that score in storage order.
   */
  lemma ScoreboardCharacterised(users: seq<User>, r: seq<Entry>)
    ensures r == Scoreboard(users) <==> NonIncreasing(r) && SameByScore(r, Entries(users))
  {
    var board := Scoreboard(users);
    SortDescSortedPermutation(Entries(users));
    forall k ensures WithScore(board, k) == WithScore(Entries(users), k) {
      SortDescStable(Entries(users), k);
    }
    assert NonIncreasing(board);
    if NonIncreasing(r) && SameByScore(r, Entries(users)) {
      forall k ensures WithScore(r, k) == WithScore(board, k) {
        assert WithScore(r, k) == WithScore(Entries(users), k);
      }
      SortedUnique(r, board);
    }
  }

  /** The scoreboard lists every user's (username, highscore) pair exactly once, sorted high to low. */
  lemma ScoreboardPermutation(users: seq<User>)
    ensures NonIncreasing(Scoreboard(users))
    ensures multiset(Scoreboard(users)) == multiset(Entries(users))
    ensures |Scoreboard(users)| == |users|
  {
    SortDescSortedPermutation(Entries(users));
    assert |multiset(Scoreboard(users))| == |multiset(Entries(users))|;
  }
}
