/** Ranking of retrieval candidates: Python's stable sort by score, descending
    (`candidates.sort(key=score, reverse=True)`) followed by `candidates[:k]`.
    Scores are given values; how they are computed is not part of this module. */
module Ranking {
  import opened Builtins

  /** A retrieval candidate: a chunk, its score against the query, and the id
      of the document the chunk belongs to. */
  datatype Candidate = Candidate(chunk: string, score: real, docId: int)

  ghost predicate NonIncreasing(s: seq<Candidate>) {
    forall i, j :: 0 <= i < j < |s| ==> s[i].score >= s[j].score
  }

  /** The candidates of `s` that have score `v`, in the order of `s`. */
  function WithScore(s: seq<Candidate>, v: real): seq<Candidate> {
    if s == [] then []
    else (if s[0].score == v then [s[0]] else []) + WithScore(s[1..], v)
  }

  /** Places `x` before the first candidate of `t` that does not score higher. */
  function Insert(x: Candidate, t: seq<Candidate>): seq<Candidate> {
    if t == [] || x.score >= t[0].score then [x] + t
    else [t[0]] + Insert(x, t[1..])
  }

  /** The list after `sort(key=score, reverse=True)`: each candidate is placed
      ahead of the later ones with an equal score. */
  function SortDesc(s: seq<Candidate>): seq<Candidate> {
    if s == [] then [] else Insert(s[0], SortDesc(s[1..]))
  }

  /** The first `k` candidates after the sort, as `candidates[:k]` takes them. */
  function TopK(s: seq<Candidate>, k: int): seq<Candidate> {
    Slice(SortDesc(s), 0, k)
  }

  // Insertion keeps the elements, the order and the relative order of ties.

  lemma {:induction false} InsertElements(x: Candidate, t: seq<Candidate>)
    ensures multiset(Insert(x, t)) == multiset(t) + multiset{x}
  {
    if t != [] && x.score < t[0].score {
      InsertElements(x, t[1..]);
      assert t == [t[0]] + t[1..];
    }
  }

  lemma {:induction false} InsertNonIncreasing(x: Candidate, t: seq<Candidate>)
    requires NonIncreasing(t)
    ensures NonIncreasing(Insert(x, t))
    ensures Insert(x, t) != [] && (Insert(x, t)[0] == x || Insert(x, t)[0] == t[0])
  {
    if t != [] && x.score < t[0].score {
      var r := Insert(x, t[1..]);
      InsertNonIncreasing(x, t[1..]);
      assert t[1..] != [] ==> t[0].score >= t[1..][0].score;
      ConsNonIncreasing(t[0], r);
    } else {
      ConsNonIncreasing(x, t);
    }
  }

  lemma ConsNonIncreasing(c: Candidate, r: seq<Candidate>)
    requires NonIncreasing(r) && (r == [] || c.score >= r[0].score)
    ensures NonIncreasing([c] + r)
  {
    forall i, j | 0 <= i < j < |[c] + r| ensures ([c] + r)[i].score >= ([c] + r)[j].score {
      if i == 0 && j > 1 {
        assert r[0].score >= r[j - 1].score;
      }
    }
  }

  lemma {:induction false} InsertWithScore(x: Candidate, t: seq<Candidate>, v: real)
    ensures WithScore(Insert(x, t), v) == (if x.score == v then [x] else []) + WithScore(t, v)
  {
    if t != [] && x.score < t[0].score {
      InsertWithScore(x, t[1..], v);
      WithScoreCons(t[0], Insert(x, t[1..]), v);
      WithScoreCons(t[0], t[1..], v);
      assert [t[0]] + t[1..] == t;
      if x.score == v {
        assert t[0].score != v;
      }
    } else {
      WithScoreCons(x, t, v);
    }
  }

  lemma WithScoreCons(c: Candidate, s: seq<Candidate>, v: real)
    ensures WithScore([c] + s, v) == (if c.score == v then [c] else []) + WithScore(s, v)
  {
    assert ([c] + s)[1..] == s;
  }

  // The sort: ordered, a permutation, and stable.

  /** After the sort the scores never increase. */
  lemma {:induction false} SortDescNonIncreasing(s: seq<Candidate>)
    ensures NonIncreasing(SortDesc(s))
  {
    if s != [] {
      SortDescNonIncreasing(s[1..]);
      InsertNonIncreasing(s[0], SortDesc(s[1..]));
    }
  }

  /** The sort rearranges the candidates and neither adds nor drops one. */
  lemma {:induction false} SortDescPermutes(s: seq<Candidate>)
    ensures multiset(SortDesc(s)) == multiset(s)
    ensures |SortDesc(s)| == |s|
  {
    if s != [] {
      SortDescPermutes(s[1..]);
      InsertElements(s[0], SortDesc(s[1..]));
      assert s == [s[0]] + s[1..];
    }
    assert |multiset(SortDesc(s))| == |SortDesc(s)|;
  }

  /** The sort is stable: candidates with the same score keep their relative order. */
  lemma {:induction false} SortDescStable(s: seq<Candidate>, v: real)
    ensures WithScore(SortDesc(s), v) == WithScore(s, v)
  {
    if s != [] {
      SortDescStable(s[1..], v);
      InsertWithScore(s[0], SortDesc(s[1..]), v);
    }
  }

  lemma WithScoreHead(r: seq<Candidate>)
    requires r != []
    ensures WithScore(r, r[0].score) != [] && WithScore(r, r[0].score)[0] == r[0]
  {
  }

  /** In a non-increasing list, no candidate outscores the first one. */
  lemma {:induction false} WithScoreBelowHead(r: seq<Candidate>, v: real)
    requires NonIncreasing(r) && r != []
    requires WithScore(r, v) != []
    ensures r[0].score >= v
  {
    if r[0].score != v {
      assert WithScore(r, v) == WithScore(r[1..], v);
      WithScoreBelowHead(r[1..], v);
      assert r[0].score >= r[1].score;
    }
  }

  /** A non-increasing arrangement is fixed by what it does with each score. */
  lemma {:induction false} StableArrangementUnique(r1: seq<Candidate>, r2: seq<Candidate>)
    requires NonIncreasing(r1) && NonIncreasing(r2)
    requires forall v :: WithScore(r1, v) == WithScore(r2, v)
    ensures r1 == r2
    decreases |r1|
  {
    if r1 == [] || r2 == [] {
      if r1 != [] {
        WithScoreHead(r1);
        assert false;
      } else if r2 != [] {
        WithScoreHead(r2);
        assert false;
      }
    } else {
      var m1, m2 := r1[0].score, r2[0].score;
      WithScoreHead(r1);
      WithScoreHead(r2);
      WithScoreBelowHead(r2, m1);
      WithScoreBelowHead(r1, m2);
      assert m1 == m2;
      assert r1[0] == r2[0];
      forall v ensures WithScore(r1[1..], v) == WithScore(r2[1..], v) {
        var h := if r1[0].score == v then [r1[0]] else [];
        assert WithScore(r1, v) == h + WithScore(r1[1..], v);
        assert WithScore(r2, v) == h + WithScore(r2[1..], v);
        assert WithScore(r1[1..], v) == (h + WithScore(r1[1..], v))[|h|..];
      }
      StableArrangementUnique(r1[1..], r2[1..]);
      assert r1 == [r1[0]] + r1[1..] && r2 == [r2[0]] + r2[1..];
    }
  }

  /** `r` orders the candidates of `s` by non-increasing score and keeps every
      group of equal scores in the order `s` has it. */
  ghost predicate IsStableDescSortOf(r: seq<Candidate>, s: seq<Candidate>) {
    NonIncreasing(r) && forall v :: WithScore(r, v) == WithScore(s, v)
  }

  /** The sort result is exactly the stable descending arrangement. */
  lemma SortDescCharacterized(s: seq<Candidate>, r: seq<Candidate>)
    ensures r == SortDesc(s) <==> IsStableDescSortOf(r, s)
  {
    SortDescNonIncreasing(s);
    forall v ensures WithScore(SortDesc(s), v) == WithScore(s, v) {
      SortDescStable(s, v);
    }
    assert IsStableDescSortOf(SortDesc(s), s);
    if IsStableDescSortOf(r, s) {
      StableArrangementUnique(r, SortDesc(s));
    }
  }

  // Truncation to the first k.

  /** `[:k]` keeps `min(k, n)` candidates for `k >= 0`, and drops the last
      `-k` for a negative `k`. */
  lemma TopKLength(s: seq<Candidate>, k: int)
    ensures k >= 0 ==> |TopK(s, k)| == if k < |s| then k else |s|
    ensures k < 0 ==> |TopK(s, k)| == if |s| + k < 0 then 0 else |s| + k
  {
    SortDescPermutes(s);
  }

  /** The kept candidates are the head of the sorted list, best first. */
  lemma TopKPrefix(s: seq<Candidate>, k: int)
    ensures |TopK(s, k)| <= |s|
    ensures TopK(s, k) == SortDesc(s)[..|TopK(s, k)|]
    ensures NonIncreasing(TopK(s, k))
  {
    SortDescPermutes(s);
    SortDescNonIncreasing(s);
  }

  /** No dropped candidate outscores a kept one. */
  lemma TopKKeepsBest(s: seq<Candidate>, k: int, c: Candidate, i: nat)
    requires c in s && i < |TopK(s, k)|
    requires c.score > TopK(s, k)[i].score
    ensures c in TopK(s, k)
  {
    var sorted := SortDesc(s);
    var top := TopK(s, k);
    TopKPrefix(s, k);
    SortDescPermutes(s);
    SortDescNonIncreasing(s);
    assert c in multiset(sorted) by { assert c in multiset(s); }
    var p :| 0 <= p < |sorted| && sorted[p] == c;
    assert p < |top| by {
      assert sorted[i] == top[i];
    }
    assert top[p] == c;
  }
}
