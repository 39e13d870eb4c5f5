/**
 * The catalog matcher (run_match): the query contour and every catalog
 * contour are resampled and z-scored, each entry is scored by DTW distance
 * against the query, and the results are sorted ascending by distance (a
 * stable sort) and cut to the first top_k.
 */
module Matching {
  import opened Results
  import Contour
  import Resampling
  import Scaling
  import Dtw

  /** A stored song as load_db returns it; `rel` is its key-normalised contour. */
  datatype Entry = Entry(title: string, slug: string, rel: seq<real>)

  /** One line of the ranking. */
  datatype MatchResult = MatchResult(title: string, distance: real)

  /** Resampled to `length` points, then z-scored; `std` stands for np.std. */
  function Prepare(x: seq<real>, length: int, std: seq<real> -> real): (r: Result<seq<real>>)
    requires forall s :: std(s) >= 0.0
    ensures r.Ok? <==> length >= 0 && |x| > 0
    ensures r.Ok? ==> |r.value| == length
  {
    var s :- Resampling.Resample(x, length);
    Ok(Scaling.ZScore(s, std(s)))
  }

  /** The DTW distance of one catalog entry to the prepared query; `pathLen`
      stands for the length of librosa's backtracked warping path. */
  function Score(q: seq<real>, e: Entry, length: int, std: seq<real> -> real,
                 pathLen: (seq<real>, seq<real>) -> nat): (r: Result<real>)
    requires forall s :: std(s) >= 0.0
    requires |q| == length
    ensures r.Ok? <==> length > 0 && |e.rel| > 0
  {
    var s :- Prepare(e.rel, length, std);
    Dtw.DtwDistance(q, s, pathLen(q, s))
  }

  /** The results list run_match builds, one entry after the other; the first
      entry that fails stops the whole match. */
  function ScoreAll(q: seq<real>, entries: seq<Entry>, length: int, std: seq<real> -> real,
                    pathLen: (seq<real>, seq<real>) -> nat): (r: Result<seq<MatchResult>>)
    requires forall s :: std(s) >= 0.0
    requires |q| == length
    ensures r.Ok? ==> |r.value| == |entries|
    ensures r.Ok? ==> forall k :: 0 <= k < |entries| ==>
              r.value[k].title == entries[k].title &&
              Score(q, entries[k], length, std, pathLen) == Ok(r.value[k].distance)
  {
    if entries == [] then Ok([])
    else
      var front := entries[..|entries| - 1];
      var e := entries[|entries| - 1];
      var rs :- ScoreAll(q, front, length, std, pathLen);
      var d :- Score(q, e, length, std, pathLen);
      Ok(rs + [MatchResult(e.title, d)])
  }

  ghost predicate SortedByDistance(s: seq<MatchResult>) {
    forall i, j :: 0 <= i < j < |s| ==> s[i].distance <= s[j].distance
  }

  /** Inserts `v` after every element whose distance is not larger. */
  function InsertByDistance(v: MatchResult, s: seq<MatchResult>): (r: seq<MatchResult>)
    ensures |r| == |s| + 1
  {
    if s == [] then [v]
    else if v.distance < s[0].distance then [v] + s
    else [s[0]] + InsertByDistance(v, s[1..])
  }

  /** list.sort(key=distance): a stable sort, written as insertion sort. */
  function SortByDistance(s: seq<MatchResult>): (r: seq<MatchResult>)
    ensures |r| == |s|
  {
    if s == [] then []
    else InsertByDistance(s[|s| - 1], SortByDistance(s[..|s| - 1]))
  }

  /** Python's s[:k], including its meaning for a negative k. */
  function Take<T>(s: seq<T>, k: int): (r: seq<T>)
    ensures k >= 0 ==> |r| == if k < |s| then k else |s|
    ensures k < 0 ==> |r| == if |s| + k > 0 then |s| + k else 0
    ensures r == s[..|r|]
  {
    if k >= 0 then (if k < |s| then s[..k] else s)
    else if |s| + k > 0 then s[..|s| + k] else []
  }

  /** run_match, given the pitch track of the recording in MIDI units. A
      ranking exists only for a non-empty catalog and never has more results
      than the catalog has entries. */
  function Match(query: seq<real>, entries: seq<Entry>, topK: int, length: int,
                 std: seq<real> -> real, pathLen: (seq<real>, seq<real>) -> nat): (r: Result<seq<MatchResult>>)
    requires forall s :: std(s) >= 0.0
    ensures r.Ok? ==> |entries| > 0 && |r.value| <= |entries|
  {
    var q :- Prepare(Contour.Centre(query), length, std);
    if entries == [] then Err(EmptyCatalog)
    else
      var results :- ScoreAll(q, entries, length, std, pathLen);
      Ok(Take(SortByDistance(results), topK))
  }

  /** run_match's loop: one result appended per catalog entry, then the sort
      and the cut to top_k. */
  method RunMatch(query: seq<real>, entries: seq<Entry>, topK: int, length: int,
                  std: seq<real> -> real, pathLen: (seq<real>, seq<real>) -> nat)
    returns (r: Result<seq<MatchResult>>)
    requires forall s :: std(s) >= 0.0
    ensures r == Match(query, entries, topK, length, std, pathLen)
  {
    var q :- Prepare(Contour.Centre(query), length, std);
    if |entries| == 0 {
      return Err(EmptyCatalog);
    }
    var results: seq<MatchResult> := [];
    var i := 0;
    while i < |entries|
      invariant 0 <= i <= |entries|
      invariant ScoreAll(q, entries[..i], length, std, pathLen) == Ok(results)
    {
      var e := entries[i];
      var upTo := entries[..i + 1];
      assert upTo[..|upTo| - 1] == entries[..i] && upTo[|upTo| - 1] == e;
      var s := Prepare(e.rel, length, std);
      if s.Err? {
        ScoreAllPrefixErr(q, entries, i + 1, length, std, pathLen);
        return Err(s.error);
      }
      var d := Dtw.ComputeDtwDistance(q, s.value, pathLen(q, s.value));
      if d.Err? {
        ScoreAllPrefixErr(q, entries, i + 1, length, std, pathLen);
        return Err(d.error);
      }
      results := results + [MatchResult(e.title, d.value)];
      i := i + 1;
    }
    assert entries[..i] == entries;
    r := Ok(Take(SortByDistance(results), topK));
  }

  /** The elements with distance `d`, in order. */
  function WithDistance(s: seq<MatchResult>, d: real): (r: seq<MatchResult>)
    ensures |r| <= |s|
  {
    if s == [] then []
    else (if s[0].distance == d then [s[0]] else []) + WithDistance(s[1..], d)
  }

  lemma {:induction false} WithDistanceAppend(s: seq<MatchResult>, v: MatchResult, d: real)
    ensures WithDistance(s + [v], d) == WithDistance(s, d) + (if v.distance == d then [v] else [])
  {
    if s != [] {
      assert (s + [v])[1..] == s[1..] + [v];
      WithDistanceAppend(s[1..], v, d);
    }
  }

  lemma {:induction false} WithDistanceNone(s: seq<MatchResult>, d: real)
    requires forall k :: 0 <= k < |s| ==> s[k].distance != d
    ensures WithDistance(s, d) == []
  {
    if s != [] {
      WithDistanceNone(s[1..], d);
    }
  }

  lemma {:induction false} InsertByDistanceAbove(v: MatchResult, s: seq<MatchResult>, lo: real)
    requires lo <= v.distance && forall k :: 0 <= k < |s| ==> lo <= s[k].distance
    ensures forall k :: 0 <= k < |s| + 1 ==> lo <= InsertByDistance(v, s)[k].distance
  {
    if s != [] && v.distance >= s[0].distance {
      InsertByDistanceAbove(v, s[1..], lo);
    }
  }

  lemma {:induction false} InsertByDistanceSorted(v: MatchResult, s: seq<MatchResult>)
    requires SortedByDistance(s)
    ensures SortedByDistance(InsertByDistance(v, s))
  {
    if s != [] && v.distance >= s[0].distance {
      InsertByDistanceSorted(v, s[1..]);
      InsertByDistanceAbove(v, s[1..], s[0].distance);
    }
  }

  lemma {:induction false} InsertByDistancePermutes(v: MatchResult, s: seq<MatchResult>)
    ensures multiset(InsertByDistance(v, s)) == multiset(s) + multiset{v}
  {
    if s != [] && v.distance >= s[0].distance {
      assert s == [s[0]] + s[1..];
      InsertByDistancePermutes(v, s[1..]);
    }
  }

  lemma {:induction false} InsertByDistanceStable(v: MatchResult, s: seq<MatchResult>, d: real)
    requires SortedByDistance(s)
    ensures WithDistance(InsertByDistance(v, s), d) == WithDistance(s, d) + (if v.distance == d then [v] else [])
  {
    if s == [] {
    } else if v.distance < s[0].distance {
      WithDistanceCons(v, s, d);
      if v.distance == d {
        WithDistanceNone(s, d);
      }
    } else {
      InsertByDistanceStable(v, s[1..], d);
      WithDistanceCons(s[0], InsertByDistance(v, s[1..]), d);
      WithDistanceCons(s[0], s[1..], d);
      assert s == [s[0]] + s[1..];
    }
  }

  lemma WithDistanceCons(x: MatchResult, t: seq<MatchResult>, d: real)
    ensures WithDistance([x] + t, d) == (if x.distance == d then [x] else []) + WithDistance(t, d)
  {
    assert ([x] + t)[1..] == t;
  }

  /** The sort orders by distance and is a permutation. */
  lemma {:induction false} SortByDistanceSorted(s: seq<MatchResult>)
    ensures SortedByDistance(SortByDistance(s))
    ensures multiset(SortByDistance(s)) == multiset(s)
  {
    if s != [] {
      var front := s[..|s| - 1];
      assert s == front + [s[|s| - 1]];
      SortByDistanceSorted(front);
      InsertByDistanceSorted(s[|s| - 1], SortByDistance(front));
      InsertByDistancePermutes(s[|s| - 1], SortByDistance(front));
    }
  }

  /** The sort is stable: the results that share a distance keep their catalog order. */
  lemma {:induction false} SortByDistanceStable(s: seq<MatchResult>, d: real)
    ensures WithDistance(SortByDistance(s), d) == WithDistance(s, d)
  {
    if s != [] {
      var front, v := s[..|s| - 1], s[|s| - 1];
      assert s == front + [v];
      SortByDistanceStable(front, d);
      SortByDistanceSorted(front);
      InsertByDistanceStable(v, SortByDistance(front), d);
      WithDistanceAppend(front, v, d);
    }
  }

  /** The scores are all computed exactly when every entry can be scored. */
  lemma {:induction false} ScoreAllOk(q: seq<real>, entries: seq<Entry>, length: int, std: seq<real> -> real,
                                      pathLen: (seq<real>, seq<real>) -> nat)
    requires forall s :: std(s) >= 0.0
    requires |q| == length
    ensures ScoreAll(q, entries, length, std, pathLen).Ok? <==>
              forall k :: 0 <= k < |entries| ==> Score(q, entries[k], length, std, pathLen).Ok?
  {
    if entries != [] {
      var front := entries[..|entries| - 1];
      ScoreAllOk(q, front, length, std, pathLen);
      assert forall k :: 0 <= k < |front| ==> front[k] == entries[k];
    }
  }

  /** A failure on a prefix of the catalog is the failure of the whole loop. */
  lemma {:induction false} ScoreAllPrefixErr(q: seq<real>, entries: seq<Entry>, i: nat, length: int,
                                             std: seq<real> -> real, pathLen: (seq<real>, seq<real>) -> nat)
    requires forall s :: std(s) >= 0.0
    requires |q| == length && i <= |entries|
    requires ScoreAll(q, entries[..i], length, std, pathLen).Err?
    ensures ScoreAll(q, entries, length, std, pathLen) == ScoreAll(q, entries[..i], length, std, pathLen)
    decreases |entries| - i
  {
    if i < |entries| {
      var next := entries[..i + 1];
      assert next[..|next| - 1] == entries[..i];
      ScoreAllPrefixErr(q, entries, i + 1, length, std, pathLen);
    } else {
      assert entries[..i] == entries;
    }
  }

  /** An empty catalog is an error once the query itself could be prepared. */
  lemma MatchEmptyCatalog(query: seq<real>, topK: int, length: int,
                          std: seq<real> -> real, pathLen: (seq<real>, seq<real>) -> nat)
    requires forall s :: std(s) >= 0.0
    requires |query| > 0 && length >= 0
    ensures Match(query, [], topK, length, std, pathLen) == Err(EmptyCatalog)
  {
  }

  /** The match succeeds exactly when the query and every stored contour are
      non-empty, the catalog is not empty and the length is positive. */
  lemma MatchSucceeds(query: seq<real>, entries: seq<Entry>, topK: int, length: int,
                      std: seq<real> -> real, pathLen: (seq<real>, seq<real>) -> nat)
    requires forall s :: std(s) >= 0.0
    ensures Match(query, entries, topK, length, std, pathLen).Ok? <==>
              |query| > 0 && length > 0 && |entries| > 0 && forall k :: 0 <= k < |entries| ==> |entries[k].rel| > 0
  {
    var p := Prepare(Contour.Centre(query), length, std);
    if p.Ok? && entries != [] {
      ScoreAllOk(p.value, entries, length, std, pathLen);
    }
  }

  /** A successful ranking is ordered by distance and holds min(top_k, number
      of entries) results for a non-negative top_k; it is the first part of
      the stably sorted list that has one result per catalog entry. */
  lemma MatchRanking(query: seq<real>, entries: seq<Entry>, topK: int, length: int,
                     std: seq<real> -> real, pathLen: (seq<real>, seq<real>) -> nat)
    requires forall s :: std(s) >= 0.0
    requires Match(query, entries, topK, length, std, pathLen).Ok?
    ensures var r := Match(query, entries, topK, length, std, pathLen).value;
            && SortedByDistance(r)
            && (topK >= 0 ==> |r| == if topK < |entries| then topK else |entries|)
  {
    var q := Prepare(Contour.Centre(query), length, std).value;
    var all := ScoreAll(q, entries, length, std, pathLen).value;
    var sorted := SortByDistance(all);
    SortByDistanceSorted(all);
    var r := Take(sorted, topK);
    forall i, j | 0 <= i < j < |r| ensures r[i].distance <= r[j].distance {
      assert r[i] == sorted[i] && r[j] == sorted[j];
    }
  }

  /** The worked example: distances 0.1, 0.5 and 0.05 with top_k = 2 rank the
      third entry first and the first entry second. */
  lemma RankingExample()
    ensures Take(SortByDistance([MatchResult("a", 0.1), MatchResult("b", 0.5), MatchResult("c", 0.05)]), 2)
            == [MatchResult("c", 0.05), MatchResult("a", 0.1)]
  {
    var a, b, c := MatchResult("a", 0.1), MatchResult("b", 0.5), MatchResult("c", 0.05);
    assert [a, b, c][..2] == [a, b];
    assert [a, b][..1] == [a];
    assert [a][..0] == [];
    assert [a][1..] == [];
    assert SortByDistance([a]) == [a];
    assert InsertByDistance(b, [a]) == [a, b];
    assert SortByDistance([a, b]) == [a, b];
  }
}
