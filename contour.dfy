/**
 * Key normalisation: a pitch sequence is shifted so that its median becomes 0.
 * The median is numpy's: the middle value of the sorted sequence, or the
 * average of the two middle values when the length is even.
 */
module Contour {

  /** Non-decreasing order. */
  ghost predicate Sorted(s: seq<real>) {
    forall i, j :: 0 <= i < j < |s| ==> s[i] <= s[j]
  }

  /** Inserts `v` before the first element of `s` that is not smaller than it. */
  function Insert(v: real, s: seq<real>): (r: seq<real>)
    ensures |r| == |s| + 1
  {
    if s == [] then [v]
    else if v <= s[0] then [v] + s
    else [s[0]] + Insert(v, s[1..])
  }

  /** The sorted copy of `s` that numpy's median reads its middle element(s) from. */
  function SortReals(s: seq<real>): (r: seq<real>)
    ensures |r| == |s|
  {
    if s == [] then [] else Insert(s[0], SortReals(s[1..]))
  }

  /** A common lower bound of `v` and `s` bounds the insertion too. */
  lemma {:induction false} InsertAbove(v: real, s: seq<real>, lo: real)
    requires lo <= v && forall k :: 0 <= k < |s| ==> lo <= s[k]
    ensures forall k :: 0 <= k < |s| + 1 ==> lo <= Insert(v, s)[k]
  {
    if s != [] && v > s[0] {
      InsertAbove(v, s[1..], lo);
    }
  }

  lemma {:induction false} InsertSorted(v: real, s: seq<real>)
    requires Sorted(s)
    ensures Sorted(Insert(v, s))
  {
    if s != [] && v > s[0] {
      InsertSorted(v, s[1..]);
      InsertAbove(v, s[1..], s[0]);
    }
  }

  lemma {:induction false} InsertPermutes(v: real, s: seq<real>)
    ensures multiset(Insert(v, s)) == multiset(s) + multiset{v}
  {
    if s != [] && v > s[0] {
      assert s == [s[0]] + s[1..];
      InsertPermutes(v, s[1..]);
    }
  }

  /** SortReals really sorts: its result is ordered and a permutation of the input. */
  lemma {:induction false} SortRealsSorted(s: seq<real>)
    ensures Sorted(SortReals(s))
    ensures multiset(SortReals(s)) == multiset(s)
  {
    if s != [] {
      assert s == [s[0]] + s[1..];
      SortRealsSorted(s[1..]);
      InsertSorted(s[0], SortReals(s[1..]));
      InsertPermutes(s[0], SortReals(s[1..]));
    }
  }

  /** np.median: some element lies at or below it and some element at or above it. */
  function Median(s: seq<real>): (m: real)
    requires |s| > 0
    ensures exists i :: 0 <= i < |s| && s[i] <= m
    ensures exists j :: 0 <= j < |s| && m <= s[j]
  {
    var t := SortReals(s);
    var n := |t|;
    SortRealsSorted(s);
    assert t[n / 2] in multiset(t) && t[(n - 1) / 2] in multiset(t);
    assert t[n / 2] in multiset(s) && t[(n - 1) / 2] in multiset(s);
    if n % 2 == 1 then t[n / 2] else (t[n / 2 - 1] + t[n / 2]) / 2.0
  }

  /** Adds the constant `k` to every element. */
  function Shift(s: seq<real>, k: real): (r: seq<real>)
    ensures |r| == |s|
  {
    seq(|s|, i requires 0 <= i < |s| => s[i] + k)
  }

  lemma {:induction false} InsertShift(v: real, s: seq<real>, k: real)
    ensures Insert(v + k, Shift(s, k)) == Shift(Insert(v, s), k)
  {
    if s != [] {
      assert Shift(s, k)[1..] == Shift(s[1..], k);
      InsertShift(v, s[1..], k);
    }
  }

  /** Sorting commutes with adding a constant. */
  lemma {:induction false} SortShift(s: seq<real>, k: real)
    ensures SortReals(Shift(s, k)) == Shift(SortReals(s), k)
  {
    if s != [] {
      assert Shift(s, k)[1..] == Shift(s[1..], k);
      SortShift(s[1..], k);
      InsertShift(s[0], SortReals(s[1..]), k);
    }
  }

  /** The median moves with a constant shift. */
  lemma MedianShift(s: seq<real>, k: real)
    requires |s| > 0
    ensures Median(Shift(s, k)) == Median(s) + k
  {
    SortShift(s, k);
  }

  /** Median centring (np.median, then subtraction). An empty input gives an empty output:
      numpy's median is NaN there, but there is no element to subtract it from. */
  function Centre(s: seq<real>): (r: seq<real>)
    ensures |r| == |s|
    ensures forall i, j :: 0 <= i < |s| && 0 <= j < |s| ==> r[i] - r[j] == s[i] - s[j]
  {
    if s == [] then [] else Shift(s, -Median(s))
  }

  /** The centred contour has median 0. */
  lemma CentreMedianZero(s: seq<real>)
    requires |s| > 0
    ensures Median(Centre(s)) == 0.0
  {
    MedianShift(s, -Median(s));
  }

  /** Key invariance: transposing the whole input leaves the contour unchanged. */
  lemma CentreShiftInvariant(s: seq<real>, k: real)
    ensures Centre(Shift(s, k)) == Centre(s)
  {
    if s != [] {
      var t := Shift(s, k);
      MedianShift(s, k);
      CentreIsShift(t);
      CentreIsShift(s);
      ShiftTwice(s, k, -Median(t), -Median(s));
    } else {
      assert Shift(s, k) == [];
    }
  }

  lemma CentreIsShift(s: seq<real>)
    requires s != []
    ensures Centre(s) == Shift(s, -Median(s))
  {
  }

  /** Two shifts add up. */
  lemma ShiftTwice(s: seq<real>, k: real, m: real, total: real)
    requires total == k + m
    ensures Shift(Shift(s, k), m) == Shift(s, total)
  {
    assert forall i :: 0 <= i < |s| ==> Shift(Shift(s, k), m)[i] == Shift(s, total)[i];
  }

  /** Centring a contour that is already centred changes nothing. */
  lemma CentreIdempotent(s: seq<real>)
    ensures Centre(Centre(s)) == Centre(s)
  {
    if s != [] {
      var c := Centre(s);
      CentreMedianZero(s);
      CentreIsShift(c);
      ShiftZero(c, -Median(c));
    }
  }

  /** A shift by 0 changes nothing. */
  lemma ShiftZero(s: seq<real>, k: real)
    requires k == 0.0
    ensures Shift(s, k) == s
  {
    assert forall i :: 0 <= i < |s| ==> Shift(s, k)[i] == s[i];
  }

  /** MIDI note numbers as numbers of semitones. */
  function ToReals(notes: seq<int>): (r: seq<real>)
    ensures |r| == |notes| && forall i :: 0 <= i < |notes| ==> r[i] == notes[i] as real
  {
    seq(|notes|, i requires 0 <= i < |notes| => notes[i] as real)
  }

  /** Transposes integer notes by `k` semitones. */
  function Transpose(notes: seq<int>, k: int): (r: seq<int>)
    ensures |r| == |notes| && forall i :: 0 <= i < |notes| ==> r[i] == notes[i] + k
  {
    seq(|notes|, i requires 0 <= i < |notes| => notes[i] + k)
  }

  /** Key normalisation of MIDI note numbers. */
  function NormalizeKey(notes: seq<int>): (rel: seq<real>)
    ensures |rel| == |notes|
    ensures forall i, j :: 0 <= i < |notes| && 0 <= j < |notes| ==>
              rel[i] - rel[j] == (notes[i] - notes[j]) as real
    ensures |notes| > 0 ==> Median(rel) == 0.0
  {
    var r := Centre(ToReals(notes));
    if |notes| > 0 then CentreMedianZero(ToReals(notes)); r else r
  }

  /** Key invariance for MIDI notes: transposing the melody does not change its contour. */
  lemma NormalizeKeyTransposeInvariant(notes: seq<int>, k: int)
    ensures NormalizeKey(Transpose(notes, k)) == NormalizeKey(notes)
  {
    assert ToReals(Transpose(notes, k)) == Shift(ToReals(notes), k as real);
    CentreShiftInvariant(ToReals(notes), k as real);
  }
}
