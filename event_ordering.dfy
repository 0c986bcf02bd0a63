/**
 * The final ordering of the collected events: an in-place, unstable sort
 * by the timestamp string under `String`'s ordering.
 */
module EventOrdering {
  import opened Text
  import opened Events

  /** Non-decreasing by timestamp. */
  predicate SortedByTime(s: seq<EvtEvent>) {
    forall i, j :: 0 <= i < j < |s| ==> LexLe(s[i].timeWritten, s[j].timeWritten)
  }

  /** The timestamps of `s`, in order. */
  function Times(s: seq<EvtEvent>): (r: seq<string>)
    ensures |r| == |s| && forall i :: 0 <= i < |s| ==> r[i] == s[i].timeWritten
  {
    if s == [] then [] else [s[0].timeWritten] + Times(s[1..])
  }

  /** Every element of `lo` is at or below every element of `hi`. */
  predicate AllBelow(lo: seq<EvtEvent>, hi: seq<EvtEvent>) {
    forall i, j :: 0 <= i < |lo| && 0 <= j < |hi| ==> LexLe(lo[i].timeWritten, hi[j].timeWritten)
  }

  /**
   * `events.sort_unstable_by(|a, b| a.get_timestamp().cmp(&b.get_timestamp()))`:
   * afterwards the array is a permutation of what it held and non-decreasing
   * by timestamp. Events with equal timestamps may end up in any order.
   */
  method SortByTimestamp(a: array<EvtEvent>)
    modifies a
    ensures SortedByTime(a[..])
    ensures multiset(a[..]) == multiset(old(a[..]))
  {
    var i := 0;
    while i < a.Length
      invariant 0 <= i <= a.Length
      invariant SortedByTime(a[..i])
      invariant AllBelow(a[..i], a[i..])
      invariant multiset(a[..]) == multiset(old(a[..]))
    {
      var m := MinimumFrom(a, i);
      ghost var before := a[..];
      a[i], a[m] := a[m], a[i];
      SwapKeepsOrder(before, a[..], i, m);
      i := i + 1;
    }
    assert a[..i] == a[..];
  }

  /**
   * Swapping an earliest event of s[i..] into place i extends the sorted,
   * lower prefix by one.
   */
  lemma SwapKeepsOrder(s: seq<EvtEvent>, t: seq<EvtEvent>, i: nat, m: nat)
    requires i <= m < |s| && |t| == |s|
    requires SortedByTime(s[..i]) && AllBelow(s[..i], s[i..])
    requires forall k :: i <= k < |s| ==> LexLe(s[m].timeWritten, s[k].timeWritten)
    requires t == s[i := s[m]][m := s[i]]
    ensures SortedByTime(t[..i + 1]) && AllBelow(t[..i + 1], t[i + 1..])
  {
    var lo, hi := t[..i + 1], t[i + 1..];
    forall j, k | 0 <= j < k < i + 1 ensures LexLe(lo[j].timeWritten, lo[k].timeWritten) {
      if k < i {
        assert t[j] == s[..i][j] && t[k] == s[..i][k];
      } else {
        assert t[j] == s[..i][j] && t[k] == s[m] && s[m] == s[i..][m - i];
      }
    }
    forall j, k | 0 <= j < i + 1 && 0 <= k < |hi|
      ensures LexLe(lo[j].timeWritten, hi[k].timeWritten)
    {
      var x := t[i + 1 + k];
      assert x == s[i + 1 + k] || x == s[i];
      if j < i {
        assert t[j] == s[..i][j];
        if x == s[i] {
          assert s[i] == s[i..][0];
        } else {
          assert x == s[i..][1 + k];
        }
      } else {
        assert t[j] == s[m];
      }
    }
  }

  /** The index of an earliest event among a[from..]. */
  method MinimumFrom(a: array<EvtEvent>, from: nat) returns (m: nat)
    requires from < a.Length
    ensures from <= m < a.Length
    ensures forall k :: from <= k < a.Length ==> LexLe(a[m].timeWritten, a[k].timeWritten)
  {
    m := from;
    var j := from + 1;
    LexLeReflexive(a[m].timeWritten);
    while j < a.Length
      invariant from <= m < j <= a.Length
      invariant forall k :: from <= k < j ==> LexLe(a[m].timeWritten, a[k].timeWritten)
    {
      if !LexLe(a[m].timeWritten, a[j].timeWritten) {
        LexLeTotal(a[m].timeWritten, a[j].timeWritten);
        forall k | from <= k < j ensures LexLe(a[j].timeWritten, a[k].timeWritten) {
          LexLeTransitive(a[j].timeWritten, a[m].timeWritten, a[k].timeWritten);
        }
        m := j;
        LexLeReflexive(a[m].timeWritten);
      }
      j := j + 1;
    }
  }

  lemma {:induction false} TimesAppend(s: seq<EvtEvent>, t: seq<EvtEvent>)
    ensures Times(s + t) == Times(s) + Times(t)
  {
  }

  /** Non-decreasing strings. */
  predicate SortedStrings(s: seq<string>) {
    forall i, j :: 0 <= i < j < |s| ==> LexLe(s[i], s[j])
  }

  /** Sorted strings with one multiset start with the same, least, string. */
  lemma HeadsAgree(s: seq<string>, t: seq<string>)
    requires SortedStrings(s) && SortedStrings(t)
    requires multiset(s) == multiset(t) && s != []
    ensures t != [] && s[0] == t[0]
  {
    assert s[0] in multiset(t);
    var i :| 0 <= i < |t| && t[i] == s[0];
    assert t[0] in multiset(s);
    var j :| 0 <= j < |s| && s[j] == t[0];
    if i != 0 {
      assert LexLe(t[0], t[i]);
    } else {
      LexLeReflexive(t[0]);
    }
    if j != 0 {
      assert LexLe(s[0], s[j]);
    } else {
      LexLeReflexive(s[0]);
    }
    LexLeAntisymmetric(s[0], t[0]);
  }

  lemma SortedTail(s: seq<string>)
    requires SortedStrings(s) && s != []
    ensures SortedStrings(s[1..])
    ensures multiset(s[1..]) == multiset(s) - multiset{s[0]}
  {
    assert s == [s[0]] + s[1..];
    forall i, j | 0 <= i < j < |s[1..]| ensures LexLe(s[1..][i], s[1..][j]) {
      assert s[1..][i] == s[i + 1] && s[1..][j] == s[j + 1];
    }
  }

  /** Sorted string sequences with the same multiset are equal. */
  lemma {:induction false} SortedStringsUnique(s: seq<string>, t: seq<string>)
    requires SortedStrings(s) && SortedStrings(t)
    requires multiset(s) == multiset(t)
    ensures s == t
    decreases |s|
  {
    if s == [] {
      assert |t| == |multiset(t)| == 0;
    } else {
      HeadsAgree(s, t);
      SortedTail(s);
      SortedTail(t);
      SortedStringsUnique(s[1..], t[1..]);
      assert s == [s[0]] + s[1..] && t == [t[0]] + t[1..];
    }
  }

  /** Permuting events permutes their timestamps. */
  lemma {:induction false} PermutedTimes(s: seq<EvtEvent>, t: seq<EvtEvent>)
    requires multiset(s) == multiset(t)
    ensures multiset(Times(s)) == multiset(Times(t))
    decreases |s|
  {
    if s == [] {
      assert |t| == |multiset(t)| == 0;
    } else {
      assert s[0] in multiset(t);
      var j :| 0 <= j < |t| && t[j] == s[0];
      var t' := t[..j] + t[j + 1..];
      assert t == t[..j] + [t[j]] + t[j + 1..];
      assert multiset(t') == multiset(t) - multiset{s[0]};
      assert s == [s[0]] + s[1..];
      PermutedTimes(s[1..], t');
      TimesAppend(t[..j] + [t[j]], t[j + 1..]);
      TimesAppend(t[..j], [t[j]]);
      TimesAppend(t[..j], t[j + 1..]);
    }
  }

  /**
   * Any two sorted arrangements of the same events carry the same timestamp
   * sequence: the sort decides everything but the order among equal times.
   */
  lemma SortedArrangementsAgreeOnTimes(s: seq<EvtEvent>, t: seq<EvtEvent>)
    requires SortedByTime(s) && SortedByTime(t)
    requires multiset(s) == multiset(t)
    ensures Times(s) == Times(t)
  {
    PermutedTimes(s, t);
    SortedStringsUnique(Times(s), Times(t));
  }

  /** Two events with one timestamp are sorted in either order, so neither order is promised. */
  lemma EqualTimesEitherOrder(e1: EvtEvent, e2: EvtEvent)
    requires e1.timeWritten == e2.timeWritten
    ensures SortedByTime([e1, e2]) && SortedByTime([e2, e1])
  {
    LexLeReflexive(e1.timeWritten);
  }
}
