/**
 * The top-5 scoreboard. `addScoreEntry` appends an entry to the stored list, sorts it by
 * descending score with a stable sort and keeps the first five. Storage is abstracted away:
 * the stored list comes in and the new list goes out.
 */
module Scoreboard {

  datatype Mode = Wrap | Classic

  /** `{score, mode, speed, length, date}`. */
  datatype ScoreEntry = ScoreEntry(score: int, mode: Mode, speed: int, length: int, date: string)

  /** Entries kept on the board. */
  const BoardSize: nat := 5

  predicate SortedDesc(s: seq<ScoreEntry>) {
    forall i, j :: 0 <= i < j < |s| ==> s[i].score >= s[j].score
  }

  /** The entries of `s` with score k, in their order in `s`. */
  function WithScore(s: seq<ScoreEntry>, k: int): seq<ScoreEntry> {
    if |s| == 0 then []
    else (if s[0].score == k then [s[0]] else []) + WithScore(s[1..], k)
  }

  /** How many entries of `s` score at least v. */
  function CountAtLeast(s: seq<ScoreEntry>, v: int): nat {
    if |s| == 0 then 0
    else (if s[0].score >= v then 1 else 0) + CountAtLeast(s[1..], v)
  }

  /** Inserts e behind every entry scoring at least as much: a later entry loses ties. */
  function Insert(t: seq<ScoreEntry>, e: ScoreEntry): seq<ScoreEntry> {
    if |t| == 0 then [e]
    else if t[0].score >= e.score then [t[0]] + Insert(t[1..], e)
    else [e] + t
  }

  /** A stable sort by descending score (insertion sort, entry by entry in list order). */
  function SortDesc(s: seq<ScoreEntry>): seq<ScoreEntry> {
    if |s| == 0 then [] else Insert(SortDesc(s[..|s| - 1]), s[|s| - 1])
  }

  function Min(a: int, b: int): int {
    if a < b then a else b
  }

  /** `addScoreEntry`: the entry is pushed, the board is stably sorted by descending score and cut to five. */
  function AddScoreEntry(stored: seq<ScoreEntry>, entry: ScoreEntry): seq<ScoreEntry> {
    var all := SortDesc(stored + [entry]);
    all[..Min(BoardSize, |all|)]
  }

  /**
   * The board after `entry` is added to `stored` has min(5, |stored| + 1) entries, in
   * descending score order; for every score the entries kept are the first ones of that score
   * in insertion order; and no entry left out scores above an entry kept.
   */
  lemma AddScoreEntrySpec(stored: seq<ScoreEntry>, entry: ScoreEntry)
    ensures var top := AddScoreEntry(stored, entry);
            && |top| == Min(BoardSize, |stored| + 1)
            && SortedDesc(top)
            && (forall k :: WithScore(top, k) <= WithScore(stored + [entry], k))
            && multiset(top) <= multiset(stored + [entry])
            && (forall x, i | x in multiset(stored + [entry]) - multiset(top) && 0 <= i < |top| :: x.score <= top[i].score)
  {
    var all := SortDesc(stored + [entry]);
    SortDescSpec(stored + [entry]);
    KeepBest(all, Min(BoardSize, |all|));
  }

  lemma {:induction false} WithScoreAppend(a: seq<ScoreEntry>, b: seq<ScoreEntry>, k: int)
    ensures WithScore(a + b, k) == WithScore(a, k) + WithScore(b, k)
  {
    if |a| > 0 {
      assert (a + b)[1..] == a[1..] + b;
      WithScoreAppend(a[1..], b, k);
    } else {
      assert a + b == b;
    }
  }

  lemma {:induction false} WithScoreNone(t: seq<ScoreEntry>, k: int)
    requires forall i | 0 <= i < |t| :: t[i].score < k
    ensures WithScore(t, k) == []
  {
    if |t| > 0 {
      WithScoreNone(t[1..], k);
    }
  }

  /** Every entry of `Insert(t, e)` is e or an entry of t. */
  lemma {:induction false} InsertMembers(t: seq<ScoreEntry>, e: ScoreEntry)
    ensures forall x | x in Insert(t, e) :: x in t || x == e
  {
    if |t| > 0 && t[0].score >= e.score {
      InsertMembers(t[1..], e);
      assert forall x | x in t[1..] :: x in t;
    }
  }

  lemma {:induction false} InsertSorted(t: seq<ScoreEntry>, e: ScoreEntry)
    requires SortedDesc(t)
    ensures SortedDesc(Insert(t, e))
  {
    if |t| > 0 && t[0].score >= e.score {
      var r := Insert(t[1..], e);
      InsertSorted(t[1..], e);
      InsertMembers(t[1..], e);
      forall x | x in r ensures t[0].score >= x.score {
        if x != e {
          var j :| 0 <= j < |t[1..]| && t[1..][j] == x;
          assert t[j + 1] == x;
        }
      }
      var s := [t[0]] + r;
      forall i, j | 0 <= i < j < |s| ensures s[i].score >= s[j].score {
        assert s[j] == r[j - 1] && s[j] in r;
        if i > 0 {
          assert s[i] == r[i - 1];
        }
      }
    }
  }

  lemma {:induction false} InsertPermutes(t: seq<ScoreEntry>, e: ScoreEntry)
    ensures multiset(Insert(t, e)) == multiset(t) + multiset{e}
  {
    if |t| > 0 && t[0].score >= e.score {
      InsertPermutes(t[1..], e);
      assert t == [t[0]] + t[1..];
    }
  }

  lemma {:induction false} InsertWithScore(t: seq<ScoreEntry>, e: ScoreEntry, k: int)
    requires SortedDesc(t)
    ensures WithScore(Insert(t, e), k) == WithScore(t, k) + WithScore([e], k)
  {
    if |t| == 0 {
    } else if t[0].score >= e.score {
      InsertWithScore(t[1..], e, k);
      WithScoreAppend([t[0]], Insert(t[1..], e), k);
      WithScoreAppend([t[0]], t[1..], k);
      assert t == [t[0]] + t[1..];
    } else {
      WithScoreAppend([e], t, k);
      if k == e.score {
        WithScoreNone(t, k);
      }
    }
  }

  lemma InsertSpec(t: seq<ScoreEntry>, e: ScoreEntry)
    requires SortedDesc(t)
    ensures SortedDesc(Insert(t, e))
    ensures multiset(Insert(t, e)) == multiset(t) + multiset{e}
    ensures forall k :: WithScore(Insert(t, e), k) == WithScore(t, k) + WithScore([e], k)
    ensures |Insert(t, e)| == |t| + 1
  {
    InsertSorted(t, e);
    InsertPermutes(t, e);
    forall k ensures WithScore(Insert(t, e), k) == WithScore(t, k) + WithScore([e], k) {
      InsertWithScore(t, e, k);
    }
    assert |multiset(Insert(t, e))| == |multiset(t)| + 1;
  }

  /** SortDesc is a stable permutation into descending order. */
  lemma {:induction false} SortDescSpec(s: seq<ScoreEntry>)
    ensures SortedDesc(SortDesc(s))
    ensures multiset(SortDesc(s)) == multiset(s)
    ensures forall k :: WithScore(SortDesc(s), k) == WithScore(s, k)
    ensures |SortDesc(s)| == |s|
  {
    if |s| > 0 {
      var init, last := s[..|s| - 1], s[|s| - 1];
      assert s == init + [last];
      SortDescSpec(init);
      InsertSpec(SortDesc(init), last);
      forall k ensures WithScore(SortDesc(s), k) == WithScore(s, k) {
        WithScoreAppend(init, [last], k);
      }
    }
  }

  /** The first n entries of a descending list are its best ones, and per score its first ones. */
  lemma KeepBest(all: seq<ScoreEntry>, n: nat)
    requires SortedDesc(all) && n <= |all|
    ensures SortedDesc(all[..n])
    ensures forall k :: WithScore(all[..n], k) <= WithScore(all, k)
    ensures multiset(all[..n]) <= multiset(all)
    ensures forall x, i | x in multiset(all) - multiset(all[..n]) && 0 <= i < n :: x.score <= all[i].score
  {
    forall k ensures WithScore(all[..n], k) <= WithScore(all, k) {
      KeepFirstPerScore(all, n, k);
    }
    KeepBestDropped(all, n);
  }

  lemma KeepFirstPerScore(all: seq<ScoreEntry>, n: nat, k: int)
    requires n <= |all|
    ensures WithScore(all[..n], k) <= WithScore(all, k)
  {
    assert all == all[..n] + all[n..];
    WithScoreAppend(all[..n], all[n..], k);
    var a, b := WithScore(all[..n], k), WithScore(all[n..], k);
    assert a <= a + b;
  }

  lemma KeepBestDropped(all: seq<ScoreEntry>, n: nat)
    requires SortedDesc(all) && n <= |all|
    ensures multiset(all[..n]) <= multiset(all)
    ensures forall x, i | x in multiset(all) - multiset(all[..n]) && 0 <= i < n :: x.score <= all[i].score
  {
    assert all == all[..n] + all[n..];
    assert multiset(all) == multiset(all[..n]) + multiset(all[n..]);
    forall x, i | x in multiset(all) - multiset(all[..n]) && 0 <= i < n ensures x.score <= all[i].score {
      assert x in multiset(all[n..]);
      var j :| 0 <= j < |all[n..]| && all[n..][j] == x;
      assert all[n + j] == x;
    }
  }

  /**
   * Any stable descending sort gives the same list: two descending lists that agree on the
   * order of the entries of every score are equal. So whichever stable algorithm the
   * platform's `sort` uses, its result is SortDesc.
   */
  lemma {:induction false} StableSortUnique(r1: seq<ScoreEntry>, r2: seq<ScoreEntry>)
    requires SortedDesc(r1) && SortedDesc(r2)
    requires forall k :: WithScore(r1, k) == WithScore(r2, k)
    ensures r1 == r2
  {
    FirstScorePresent(r1);
    FirstScorePresent(r2);
    if |r1| > 0 && |r2| > 0 {
      var a, b := r1[0].score, r2[0].score;
      WithScoreMember(r1, a);
      WithScoreMember(r2, b);
      assert WithScore(r1, a)[0] == r1[0];
      assert WithScore(r2, b)[0] == r2[0];
      assert a == b by {
        WithScoreFrom(r2, a);
        WithScoreFrom(r1, b);
      }
      assert r1[0] == r2[0] by {
        assert WithScore(r1, a) == WithScore(r2, a);
      }
      forall k ensures WithScore(r1[1..], k) == WithScore(r2[1..], k) {
        var head := if r1[0].score == k then [r1[0]] else [];
        assert WithScore(r1, k) == head + WithScore(r1[1..], k);
        assert WithScore(r2, k) == head + WithScore(r2[1..], k);
        assert WithScore(r1[1..], k) == WithScore(r1, k)[|head|..];
        assert WithScore(r2[1..], k) == WithScore(r2, k)[|head|..];
      }
      StableSortUnique(r1[1..], r2[1..]);
      assert r1 == [r1[0]] + r1[1..];
      assert r2 == [r2[0]] + r2[1..];
    }
  }

  lemma FirstScorePresent(r: seq<ScoreEntry>)
    ensures |r| > 0 ==> WithScore(r, r[0].score) != []
  {
  }

  lemma WithScoreMember(r: seq<ScoreEntry>, k: int)
    requires |r| > 0 && r[0].score == k
    ensures WithScore(r, k) == [r[0]] + WithScore(r[1..], k)
  {
  }

  /** In a descending list, a score above the first entry's has no entries; a present score is at most the first. */
  lemma {:induction false} WithScoreFrom(r: seq<ScoreEntry>, k: int)
    requires SortedDesc(r) && |r| > 0
    ensures WithScore(r, k) != [] ==> k <= r[0].score
  {
    if k > r[0].score {
      WithScoreNone(r, k);
    }
  }

  /** In a descending list t, Insert puts e right behind the entries scoring at least e's score. */
  lemma {:induction false} InsertAt(t: seq<ScoreEntry>, e: ScoreEntry)
    requires SortedDesc(t)
    ensures CountAtLeast(t, e.score) <= |t|
    ensures Insert(t, e) == t[..CountAtLeast(t, e.score)] + [e] + t[CountAtLeast(t, e.score)..]
  {
    if |t| > 0 {
      if t[0].score >= e.score {
        InsertAt(t[1..], e);
        var p := CountAtLeast(t[1..], e.score);
        assert t[..p + 1] == [t[0]] + t[1..][..p];
        assert t[p + 1..] == t[1..][p..];
      } else {
        CountNone(t, e.score);
      }
    }
  }

  lemma {:induction false} CountNone(t: seq<ScoreEntry>, v: int)
    requires SortedDesc(t) && (|t| > 0 ==> t[0].score < v)
    ensures CountAtLeast(t, v) == 0
  {
    if |t| > 0 {
      CountNone(t[1..], v);
    }
  }

  /** A descending list is its own stable sort. */
  lemma {:induction false} SortDescOfSorted(s: seq<ScoreEntry>)
    requires SortedDesc(s)
    ensures SortDesc(s) == s
  {
    if |s| > 0 {
      var init, last := s[..|s| - 1], s[|s| - 1];
      SortDescOfSorted(init);
      InsertAt(init, last);
      CountAll(init, last.score);
      assert init + [last] == s;
    }
  }

  lemma {:induction false} CountAll(t: seq<ScoreEntry>, v: int)
    requires forall i | 0 <= i < |t| :: t[i].score >= v
    ensures CountAtLeast(t, v) == |t|
  {
    if |t| > 0 {
      CountAll(t[1..], v);
    }
  }

  /**
   * On a board that is already in order (every board `addScoreEntry` writes is), the new entry
   * goes in behind all entries scoring at least as much, and the board is cut to five.
   * In particular a score that does not beat five stored entries leaves a full board unchanged.
   */
  lemma AddToSortedBoard(stored: seq<ScoreEntry>, entry: ScoreEntry)
    requires SortedDesc(stored)
    ensures var p := CountAtLeast(stored, entry.score);
            p <= |stored| &&
            AddScoreEntry(stored, entry) == (stored[..p] + [entry] + stored[p..])[..Min(BoardSize, |stored| + 1)]
  {
    assert (stored + [entry])[..|stored|] == stored;
    SortDescOfSorted(stored);
    InsertAt(stored, entry);
  }

}
