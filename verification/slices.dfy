/**
 * The window helpers the neighbour count is built from: `slice_until`
 * clips a slice to a window, `slice_len_2d` counts the elements of one
 * row's window that pass a filter. `CountRange` is the declarative reading
 * of such a window, against which both are proved.
 */
module Slices {
  import opened Wrappers

  function Min(a: nat, b: nat): nat
  {
    if a <= b then a else b
  }

  /**
   * `slice_until(a, from, until)`: the part of `a` that starts at `from`
   * and is at most `until` long, or None when `from` lies past the end.
   */
  function SliceUntil<T>(a: seq<T>, from: nat, until: nat): (r: Option<seq<T>>)
    ensures r.None? <==> from > |a|
    ensures r.Some? ==> |r.value| == Min(until, |a| - from)
    ensures r.Some? ==> forall i :: 0 <= i < |r.value| ==> r.value[i] == a[from + i]
  {
    if from > |a| then None
    else
      var rest := a[from..];
      Some(rest[..Min(until, |rest|)])
  }

  /** `s.iter().filter(f).count()`. */
  function Count<T>(s: seq<T>, f: T -> bool): (r: nat)
    ensures r <= |s|
  {
    if |s| == 0 then 0 else (if f(s[0]) then 1 else 0) + Count(s[1..], f)
  }

  /**
   * `slice_len_2d(a, y_index, from, until, filter)`: how many elements of
   * row `y_index`'s window [from, from + until) pass `filter`; a missing
   * row or a window past the end of the row counts nothing.
   */
  function SliceLen2d<T>(a: seq<seq<T>>, yIndex: nat, from: nat, until: nat, filter: T -> bool): (r: nat)
    ensures yIndex >= |a| ==> r == 0
    ensures r <= until
  {
    if yIndex < |a| then
      match SliceUntil(a[yIndex], from, until)
      case None => 0
      case Some(window) => Count(window, filter)
    else 0
  }

  /** 1 when `i` (any integer) is an index of `s` whose element passes `f`. */
  function Hit<T>(s: seq<T>, i: int, f: T -> bool): nat
  {
    if 0 <= i < |s| && f(s[i]) then 1 else 0
  }

  /** Number of indices in [lo, hi) that lie inside `s` and whose element passes `f`. */
  function CountRange<T>(s: seq<T>, lo: int, hi: int, f: T -> bool): nat
    decreases hi - lo
  {
    if hi <= lo then 0 else Hit(s, lo, f) + CountRange(s, lo + 1, hi, f)
  }

  /** Counting a slice of `s` is counting its index range. */
  lemma {:induction false} CountSlice<T>(s: seq<T>, from: nat, len: nat, f: T -> bool)
    requires from + len <= |s|
    ensures Count(s[from..from + len], f) == CountRange(s, from, from + len, f)
    decreases len
  {
    if len > 0 {
      var w := s[from..from + len];
      assert w[0] == s[from];
      assert w[1..] == s[from + 1..from + len];
      CountSlice(s, from + 1, len - 1, f);
    }
  }

  /** Indices past the end of `s` contribute nothing to a range count. */
  lemma {:induction false} CountRangeClip<T>(s: seq<T>, lo: int, hi: int, f: T -> bool)
    ensures CountRange(s, lo, hi, f) == CountRange(s, lo, if hi <= |s| then hi else |s|, f)
    decreases hi - lo
  {
    if lo < hi {
      CountRangeClip(s, lo + 1, hi, f);
      if lo >= |s| {
        assert CountRange(s, lo + 1, if hi <= |s| then hi else |s|, f) == 0;
      }
    }
  }

  /**
   * `slice_len_2d` counts exactly the in-row indices of the window
   * [from, from + until) of row `yIndex` whose element passes the filter.
   */
  lemma SliceLen2dIsCountRange<T>(a: seq<seq<T>>, yIndex: nat, from: nat, until: nat, filter: T -> bool)
    ensures SliceLen2d(a, yIndex, from, until, filter)
         == if yIndex < |a| then CountRange(a[yIndex], from, from + until, filter) else 0
  {
    if yIndex < |a| {
      var row := a[yIndex];
      CountRangeClip(row, from, from + until, filter);
      if from > |row| {
        assert CountRange(row, from, |row|, filter) == 0;
      } else {
        var len := Min(until, |row| - from);
        assert row[from..][..len] == row[from..from + len];
        CountSlice(row, from, len, filter);
      }
    }
  }
}
