/** The ranking step of `VectorStore.search`:
    `np.argsort(similarities)[::-1][:top_k]`, over abstract scores. */
module Ranking {

  /** Indices into a score list, each below `n`. */
  predicate InRange(idx: seq<nat>, n: nat) {
    forall t :: 0 <= t < |idx| ==> idx[t] < n
  }

  predicate Distinct(idx: seq<nat>) {
    forall a, b :: 0 <= a < b < |idx| ==> idx[a] != idx[b]
  }

  /** Best first: the scores never rise along `idx`. */
  predicate Descending(scores: seq<real>, idx: seq<nat>)
    requires InRange(idx, |scores|)
  {
    forall a, b :: 0 <= a < b < |idx| ==> scores[idx[a]] >= scores[idx[b]]
  }

  /** The length of `xs[:k]` for a Python list of length `n`: a negative
      `k` counts from the end. */
  function SliceLength(n: nat, k: int): (m: nat)
    ensures m <= n
    ensures k >= 0 ==> m <= k && (m == k || m == n)
    ensures k < 0 ==> m + (if -k < n then -k else n) == n
  {
    if k >= 0 then (if k < n then k else n)
    else if n + k > 0 then n + k else 0
  }

  /** What `search` must select, whatever order it gives equal scores:
      as many distinct indices as the slice keeps, best first, and no
      index left out scores above one that is kept. */
  predicate IsTopSelection(scores: seq<real>, k: int, idx: seq<nat>) {
    && |idx| == SliceLength(|scores|, k)
    && InRange(idx, |scores|)
    && Distinct(idx)
    && Descending(scores, idx)
    && forall i, t :: 0 <= i < |scores| && i !in idx && 0 <= t < |idx| ==> scores[i] <= scores[idx[t]]
  }

  /** Where index `i` goes in a best-first list: after every entry that
      scores at least as high. */
  function InsertPos(scores: seq<real>, i: nat, sorted: seq<nat>): (p: nat)
    requires i < |scores| && InRange(sorted, |scores|)
    ensures p <= |sorted|
    ensures forall t :: 0 <= t < p ==> scores[sorted[t]] >= scores[i]
    ensures p < |sorted| ==> scores[sorted[p]] < scores[i]
  {
    if sorted == [] || scores[sorted[0]] < scores[i] then 0
    else 1 + InsertPos(scores, i, sorted[1..])
  }

  function Insert(scores: seq<real>, i: nat, sorted: seq<nat>): (r: seq<nat>)
    requires i < |scores| && InRange(sorted, |scores|)
    ensures |r| == |sorted| + 1
  {
    var p := InsertPos(scores, i, sorted);
    sorted[..p] + [i] + sorted[p..]
  }

  /** Where each entry of `sorted` ends up after inserting `i`. */
  lemma InsertShape(scores: seq<real>, i: nat, sorted: seq<nat>)
    requires i < |scores| && InRange(sorted, |scores|)
    ensures var p, r := InsertPos(scores, i, sorted), Insert(scores, i, sorted);
      && r[p] == i
      && (forall t :: 0 <= t < p ==> r[t] == sorted[t])
      && (forall t :: p < t < |r| ==> r[t] == sorted[t - 1])
  {
  }

  /** Inserting adds exactly `i`. */
  lemma InsertMembers(scores: seq<real>, i: nat, sorted: seq<nat>)
    requires i < |scores| && InRange(sorted, |scores|)
    ensures forall x :: x in Insert(scores, i, sorted) <==> x == i || x in sorted
  {
    var p := InsertPos(scores, i, sorted);
    assert sorted == sorted[..p] + sorted[p..];
  }

  /** Inserting keeps a best-first list best first. */
  lemma InsertDescending(scores: seq<real>, i: nat, sorted: seq<nat>)
    requires i < |scores| && InRange(sorted, |scores|) && Descending(scores, sorted)
    ensures InRange(Insert(scores, i, sorted), |scores|)
    ensures Descending(scores, Insert(scores, i, sorted))
  {
    var p, r := InsertPos(scores, i, sorted), Insert(scores, i, sorted);
    InsertShape(scores, i, sorted);
    forall a, b | 0 <= a < b < |r| ensures scores[r[a]] >= scores[r[b]] {
      if b == p {
        assert r[a] == sorted[a];
      } else if a == p {
        assert r[b] == sorted[b - 1];
        assert scores[sorted[p]] >= scores[sorted[b - 1]];
      } else if b < p {
        assert r[a] == sorted[a] && r[b] == sorted[b];
      } else if a > p {
        assert r[a] == sorted[a - 1] && r[b] == sorted[b - 1];
      } else {
        assert r[a] == sorted[a] && r[b] == sorted[b - 1];
      }
    }
  }

  /** Inserting a new index keeps the indices distinct. */
  lemma InsertDistinct(scores: seq<real>, i: nat, sorted: seq<nat>)
    requires i < |scores| && InRange(sorted, |scores|)
    requires Distinct(sorted) && i !in sorted
    ensures Distinct(Insert(scores, i, sorted))
  {
    var p, r := InsertPos(scores, i, sorted), Insert(scores, i, sorted);
    InsertShape(scores, i, sorted);
    forall a, b | 0 <= a < b < |r| ensures r[a] != r[b] {
      if b == p {
        assert r[a] == sorted[a];
      } else if a == p {
        assert r[b] == sorted[b - 1];
      } else if b < p {
        assert r[a] == sorted[a] && r[b] == sorted[b];
      } else if a > p {
        assert r[a] == sorted[a - 1] && r[b] == sorted[b - 1];
      } else {
        assert r[a] == sorted[a] && r[b] == sorted[b - 1];
      }
    }
  }

  /** Indices `0..n-1` ranked best first (`np.argsort(...)[::-1]`). The
      order NumPy gives equal scores depends on its sort; this ranking
      picks one, the lower index first, as a refinement, and no contract
      about `search` depends on that choice. */
  function Rank(scores: seq<real>, n: nat): (r: seq<nat>)
    requires n <= |scores|
    ensures |r| == n && InRange(r, n)
  {
    if n == 0 then []
    else
      var sorted := Rank(scores, n - 1);
      InsertMembers(scores, n - 1, sorted);
      Insert(scores, n - 1, sorted)
  }

  /** The ranking lists every index once, best first. */
  lemma {:induction false} RankSorted(scores: seq<real>, n: nat)
    requires n <= |scores|
    ensures Distinct(Rank(scores, n))
    ensures forall i :: 0 <= i < n ==> i in Rank(scores, n)
    ensures Descending(scores, Rank(scores, n))
  {
    if n > 0 {
      var sorted := Rank(scores, n - 1);
      RankSorted(scores, n - 1);
      InsertMembers(scores, n - 1, sorted);
      InsertDescending(scores, n - 1, sorted);
      InsertDistinct(scores, n - 1, sorted);
    }
  }

  /** `np.argsort(scores)[::-1][:k]`. */
  function TopIndices(scores: seq<real>, k: int): (r: seq<nat>)
    ensures |r| == SliceLength(|scores|, k) && InRange(r, |scores|)
  {
    Rank(scores, |scores|)[..SliceLength(|scores|, k)]
  }

  /** The ranking of the model meets the selection contract. */
  lemma TopIndicesSelect(scores: seq<real>, k: int)
    ensures IsTopSelection(scores, k, TopIndices(scores, k))
  {
    var ranked := Rank(scores, |scores|);
    RankSorted(scores, |scores|);
    var m := SliceLength(|scores|, k);
    var idx := TopIndices(scores, k);
    forall i, t | 0 <= i < |scores| && i !in idx && 0 <= t < |idx|
      ensures scores[i] <= scores[idx[t]]
    {
      assert i in ranked;
      var q :| 0 <= q < |ranked| && ranked[q] == i;
      assert q >= m;
    }
  }

  /** The entries of a list, as a set. */
  function Elems(s: seq<nat>): (e: set<nat>)
    ensures forall x :: x in e <==> x in s
  {
    if s == [] then {} else {s[0]} + Elems(s[1..])
  }

  /** The distinct entries of a list are at most as many as the list,
      and exactly as many when no entry repeats. */
  lemma {:induction false} DistinctCard(s: seq<nat>)
    ensures |Elems(s)| <= |s|
    ensures Distinct(s) ==> |Elems(s)| == |s|
  {
    if s != [] {
      var tail := s[1..];
      DistinctCard(tail);
      assert Elems(s) == {s[0]} + Elems(tail);
      if Distinct(s) {
        assert s[0] !in tail by {
          forall q | 0 <= q < |tail| ensures tail[q] != s[0] {
            assert tail[q] == s[q + 1];
          }
        }
        assert Distinct(tail) by {
          forall a, b | 0 <= a < b < |tail| ensures tail[a] != tail[b] {
            assert tail[a] == s[a + 1] && tail[b] == s[b + 1];
          }
        }
      }
    }
  }

  /** Pigeonhole: a list without repeats whose entries all occur in
      another list is no longer than it. */
  lemma Pigeonhole(p: seq<nat>, q: seq<nat>)
    requires Distinct(p)
    ensures Elems(p) <= Elems(q) ==> |p| <= |q|
  {
    DistinctCard(p);
    DistinctCard(q);
    if Elems(p) <= Elems(q) {
      assert Elems(q) == Elems(p) + (Elems(q) - Elems(p));
    }
  }

  /** An index scoring above rank `t` of a selection is ranked before `t`. */
  lemma AboveIsBefore(scores: seq<real>, k: int, b: seq<nat>, t: nat, x: nat)
    requires IsTopSelection(scores, k, b)
    requires t < |b| && x < |scores| && scores[x] > scores[b[t]]
    ensures x in b[..t]
  {
    assert x in b;
    var q :| 0 <= q < |b| && b[q] == x;
    assert q < t;
    assert b[..t][q] == x;
  }

  /** Indices that all score above rank `t` of a selection are all among
      its first `t` entries. */
  lemma AllAboveBefore(scores: seq<real>, k: int, b: seq<nat>, t: nat, p: seq<nat>)
    requires IsTopSelection(scores, k, b) && t < |b|
    requires forall u :: 0 <= u < |p| ==> p[u] < |scores| && scores[p[u]] > scores[b[t]]
    ensures Elems(p) <= Elems(b[..t])
  {
    forall x | x in Elems(p) ensures x in Elems(b[..t]) {
      var u :| 0 <= u < |p| && p[u] == x;
      AboveIsBefore(scores, k, b, t, x);
    }
  }

  /** If `a` scores above `b` at rank `t`, the first `t + 1` entries of
      `a` are all among the first `t` entries of `b`. */
  lemma AboveMeansInside(scores: seq<real>, k: int, a: seq<nat>, b: seq<nat>, t: nat)
    requires IsTopSelection(scores, k, a) && IsTopSelection(scores, k, b)
    requires t < |a|
    ensures scores[a[t]] > scores[b[t]] ==> Elems(a[..t + 1]) <= Elems(b[..t])
  {
    if scores[a[t]] > scores[b[t]] {
      var prefix := a[..t + 1];
      assert forall u :: 0 <= u < |prefix| ==> prefix[u] == a[u];
      AllAboveBefore(scores, k, b, t, prefix);
    }
  }

  /** Two selections can disagree only on the order of equal scores: at
      every rank, the first never scores above the second. */
  lemma SelectionScoreAtMost(scores: seq<real>, k: int, a: seq<nat>, b: seq<nat>, t: nat)
    requires IsTopSelection(scores, k, a) && IsTopSelection(scores, k, b)
    requires t < |a|
    ensures scores[a[t]] <= scores[b[t]]
  {
    var prefix := a[..t + 1];
    assert Distinct(prefix) by {
      forall u, v | 0 <= u < v < |prefix| ensures prefix[u] != prefix[v] {
        assert prefix[u] == a[u] && prefix[v] == a[v];
      }
    }
    Pigeonhole(prefix, b[..t]);
    AboveMeansInside(scores, k, a, b, t);
  }

  /** Any two selections list the same scores in the same order: NumPy's
      tie order is the only freedom `search` has. */
  lemma SelectionsAgree(scores: seq<real>, k: int, a: seq<nat>, b: seq<nat>)
    requires IsTopSelection(scores, k, a) && IsTopSelection(scores, k, b)
    ensures |a| == |b|
    ensures forall t :: 0 <= t < |a| ==> scores[a[t]] == scores[b[t]]
  {
    forall t | 0 <= t < |a| ensures scores[a[t]] == scores[b[t]] {
      SelectionScoreAtMost(scores, k, a, b, t);
      SelectionScoreAtMost(scores, k, b, a, t);
    }
  }

  /** The first index of a selection scores at least as high as every
      index, kept or not. */
  lemma TopIsMaximum(scores: seq<real>, k: int, idx: seq<nat>)
    requires IsTopSelection(scores, k, idx) && idx != []
    ensures forall i :: 0 <= i < |scores| ==> scores[i] <= scores[idx[0]]
  {
    forall i | 0 <= i < |scores| ensures scores[i] <= scores[idx[0]] {
      if i in idx {
        var t :| 0 <= t < |idx| && idx[t] == i;
        assert t == 0 || scores[idx[0]] >= scores[idx[t]];
      }
    }
  }
}
