/** Ranking of a batch of match results: Python's
    `sorted(results, key=lambda x: x['similarity_score'], reverse=True)`,
    a stable sort by descending score.  Equal scores keep the order in which
    the records were appended.
 */
module Ranking {

  /** One displayed result: the uploaded file's name, its similarity score in
      hundredths of a percent, and the rendered missing skills. */
  datatype MatchResult = MatchResult(resumeName: string, similarityScore: int, missingSkills: string)

  /** Scores never increase from left to right. */
  predicate SortedDesc(s: seq<MatchResult>)
  {
    forall i, j :: 0 <= i < j < |s| ==> s[i].similarityScore >= s[j].similarityScore
  }

  /** The records of `s` whose score is `k`, in their order in `s`. */
  function WithScore(s: seq<MatchResult>, k: int): seq<MatchResult>
  {
    if s == [] then []
    else (if s[0].similarityScore == k then [s[0]] else []) + WithScore(s[1..], k)
  }

  /** `WithScore` keeps exactly the records of score `k`. */
  lemma {:induction false} WithScoreMembers(s: seq<MatchResult>, k: int)
    ensures forall x :: x in WithScore(s, k) <==> x in s && x.similarityScore == k
  {
    if s != [] {
      WithScoreMembers(s[1..], k);
      assert forall x :: x in s <==> x == s[0] || x in s[1..];
    }
  }

  /** Dropping the first record drops it from its own score's selection only. */
  lemma WithScoreTail(s: seq<MatchResult>, k: int)
    requires s != []
    ensures s[0].similarityScore == k ==> WithScore(s, k) == [s[0]] + WithScore(s[1..], k)
    ensures s[0].similarityScore != k ==> WithScore(s, k) == WithScore(s[1..], k)
  {
  }

  /** A non-empty list has at least one record with its first record's score. */
  lemma WithScoreHead(s: seq<MatchResult>)
    requires s != []
    ensures WithScore(s, s[0].similarityScore) != []
  {
  }

  /** `t` keeps the relative order that records with equal scores have in `s`. */
  ghost predicate StableFor(s: seq<MatchResult>, t: seq<MatchResult>)
  {
    forall k :: WithScore(t, k) == WithScore(s, k)
  }

  /** Insert `x` before the first record with a strictly smaller score, so that
      it precedes every record of equal score already in `t`. */
  function Insert(x: MatchResult, t: seq<MatchResult>): seq<MatchResult>
  {
    if t == [] then [x]
    else if x.similarityScore >= t[0].similarityScore then [x] + t
    else [t[0]] + Insert(x, t[1..])
  }

  /** The stable descending sort, by insertion from the back of the list. */
  function SortByScoreDesc(s: seq<MatchResult>): seq<MatchResult>
  {
    if s == [] then [] else Insert(s[0], SortByScoreDesc(s[1..]))
  }

  /** Inserting adds exactly one occurrence of `x`. */
  lemma {:induction false} InsertPermutes(x: MatchResult, t: seq<MatchResult>)
    ensures multiset(Insert(x, t)) == multiset(t) + multiset{x}
  {
    if t != [] && x.similarityScore < t[0].similarityScore {
      InsertPermutes(x, t[1..]);
      assert t == [t[0]] + t[1..];
    }
  }

  /** In a sorted list the first record has the highest score. */
  lemma SortedHead(s: seq<MatchResult>, y: MatchResult)
    requires SortedDesc(s) && s != [] && y in s
    ensures y.similarityScore <= s[0].similarityScore
  {
    var j :| 0 <= j < |s| && s[j] == y;
    if j > 0 {
      assert s[0].similarityScore >= s[j].similarityScore;
    }
  }

  /** The rest of a sorted list is sorted. */
  lemma SortedTail(s: seq<MatchResult>)
    requires SortedDesc(s) && s != []
    ensures SortedDesc(s[1..])
  {
    var t := s[1..];
    forall i, j | 0 <= i < j < |t| ensures t[i].similarityScore >= t[j].similarityScore {
      assert t[i] == s[i + 1] && t[j] == s[j + 1];
    }
  }

  /** A record no lower than every record of a sorted list may go in front. */
  lemma SortedCons(h: MatchResult, rest: seq<MatchResult>)
    requires SortedDesc(rest)
    requires forall y :: y in rest ==> y.similarityScore <= h.similarityScore
    ensures SortedDesc([h] + rest)
  {
    var r := [h] + rest;
    forall i, j | 0 <= i < j < |r| ensures r[i].similarityScore >= r[j].similarityScore {
      assert r[j] == rest[j - 1];
      if i > 0 {
        assert r[i] == rest[i - 1];
      } else {
        assert rest[j - 1] in rest;
      }
    }
  }

  /** Inserting into a sorted list keeps it sorted. */
  lemma {:induction false} InsertSorted(x: MatchResult, t: seq<MatchResult>)
    requires SortedDesc(t)
    ensures SortedDesc(Insert(x, t))
  {
    if t != [] && x.similarityScore < t[0].similarityScore {
      var t' := t[1..];
      SortedTail(t);
      InsertSorted(x, t');
      InsertPermutes(x, t');
      var rest := Insert(x, t');
      forall y | y in rest ensures y.similarityScore <= t[0].similarityScore {
        assert y in multiset(rest);
        if y != x {
          assert y in t;
          SortedHead(t, y);
        }
      }
      SortedCons(t[0], rest);
    } else if t != [] {
      forall y | y in t ensures y.similarityScore <= x.similarityScore {
        SortedHead(t, y);
      }
      SortedCons(x, t);
    }
  }

  /** The sort returns a permutation of its input. */
  lemma {:induction false} SortPermutes(s: seq<MatchResult>)
    ensures multiset(SortByScoreDesc(s)) == multiset(s)
  {
    if s != [] {
      SortPermutes(s[1..]);
      InsertPermutes(s[0], SortByScoreDesc(s[1..]));
      assert s == [s[0]] + s[1..];
    }
  }

  /** The sort returns scores in non-increasing order. */
  lemma {:induction false} SortSorted(s: seq<MatchResult>)
    ensures SortedDesc(SortByScoreDesc(s))
  {
    if s != [] {
      SortSorted(s[1..]);
      InsertSorted(s[0], SortByScoreDesc(s[1..]));
    }
  }

  /** Inserting `x` adds it in front of the records of its own score. */
  lemma {:induction false} InsertWithScore(x: MatchResult, t: seq<MatchResult>, k: int)
    ensures WithScore(Insert(x, t), k)
         == (if x.similarityScore == k then [x] else []) + WithScore(t, k)
  {
    if t == [] {
      assert Insert(x, t) == [x];
      assert [x][1..] == [];
    } else if x.similarityScore >= t[0].similarityScore {
      assert ([x] + t)[1..] == t;
    } else {
      var rest := Insert(x, t[1..]);
      InsertWithScore(x, t[1..], k);
      assert ([t[0]] + rest)[1..] == rest;
    }
  }

  /** The sort is stable: for every score, the records with that score appear
      in the same order as in the input. */
  lemma {:induction false} SortStable(s: seq<MatchResult>)
    ensures StableFor(s, SortByScoreDesc(s))
  {
    if s != [] {
      SortStable(s[1..]);
      forall k ensures WithScore(SortByScoreDesc(s), k) == WithScore(s, k) {
        InsertWithScore(s[0], SortByScoreDesc(s[1..]), k);
      }
    }
  }

  /** Being sorted by descending score and stable determines the result:
      any two such arrangements of the same records are equal.  Together with
      `SortStable`, this says `SortByScoreDesc` is the only stable descending
      sort, i.e. it agrees with Python's `sorted(..., reverse=True)`. */
  lemma {:induction false} SortedStableUnique(a: seq<MatchResult>, b: seq<MatchResult>)
    requires SortedDesc(a) && SortedDesc(b)
    requires forall k :: WithScore(a, k) == WithScore(b, k)
    ensures a == b
  {
    if a != [] {
      WithScoreHead(a);
    }
    if b != [] {
      WithScoreHead(b);
    }
    if a == [] || b == [] {
      // the records of either list's first score would be missing from the other
    } else {
      var ka, kb := a[0].similarityScore, b[0].similarityScore;
      WithScoreMembers(a, ka);
      WithScoreMembers(b, ka);
      WithScoreMembers(a, kb);
      WithScoreMembers(b, kb);
      assert a[0] in WithScore(b, ka);
      SortedHead(b, a[0]);
      assert b[0] in WithScore(a, kb);
      SortedHead(a, b[0]);
      assert ka == kb;
      WithScoreTail(a, ka);
      WithScoreTail(b, ka);
      assert WithScore(a, ka) == WithScore(b, ka);
      assert WithScore(a, ka)[0] == a[0] && WithScore(b, ka)[0] == b[0];
      forall k ensures WithScore(a[1..], k) == WithScore(b[1..], k) {
        WithScoreTail(a, k);
        WithScoreTail(b, k);
        if k == ka {
          assert WithScore(a[1..], k) == WithScore(a, k)[1..];
          assert WithScore(b[1..], k) == WithScore(b, k)[1..];
        }
      }
      assert SortedDesc(a[1..]) && SortedDesc(b[1..]) by {
        SortedTail(a);
        SortedTail(b);
      }
      SortedStableUnique(a[1..], b[1..]);
      assert a == [a[0]] + a[1..] && b == [b[0]] + b[1..];
    }
  }

  /** Scores 40, 90, 90, 10 in upload order come out as the first 90, the
      second 90, then 40 and 10. */
  lemma RankingExample(r1: MatchResult, r2: MatchResult, r3: MatchResult, r4: MatchResult)
    requires r1.similarityScore == 4000 && r2.similarityScore == 9000
    requires r3.similarityScore == 9000 && r4.similarityScore == 1000
    ensures SortByScoreDesc([r1, r2, r3, r4]) == [r2, r3, r1, r4]
  {
    var s := [r1, r2, r3, r4];
    assert s[1..] == [r2, r3, r4] && s[1..][1..] == [r3, r4] && s[1..][1..][1..] == [r4];
    assert SortByScoreDesc([r4]) == Insert(r4, []) == [r4];
    assert SortByScoreDesc([r3, r4]) == Insert(r3, [r4]) == [r3, r4];
    assert SortByScoreDesc([r2, r3, r4]) == Insert(r2, [r3, r4]) == [r2, r3, r4];
    assert [r2, r3, r4][1..] == [r3, r4] && [r3, r4][1..] == [r4];
    assert Insert(r1, [r4]) == [r1, r4];
    assert Insert(r1, [r3, r4]) == [r3] + Insert(r1, [r4]) == [r3, r1, r4];
    assert Insert(r1, [r2, r3, r4]) == [r2] + Insert(r1, [r3, r4]);
    assert Insert(r1, [r2, r3, r4]) == [r2, r3, r1, r4];
  }
}
