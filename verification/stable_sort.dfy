/**
 Stable sort of listing entries by modification time, most recent first.

 The selection sorts with Python's `list.sort(key=..., reverse=True)`, which is
 stable even when reversed: entries with equal keys keep their original
 relative order. Stability is stated here without reference to positions, so
 that it also holds when the same entry occurs twice: for every modification
 time `t`, the entries carrying `t` appear in the result in the same order as
 in the input. Sortedness together with that property determines the result
 uniquely (`SortUnique`).
 */
module StableSort {
  import opened Listing

  /** Non-increasing by modification time. */
  predicate SortedDesc(s: seq<Entry>)
  {
    forall i, j :: 0 <= i < j < |s| ==> s[i].mtime >= s[j].mtime
  }

  /** A prefix of a sorted sequence is sorted. */
  lemma PrefixSorted(r: seq<Entry>, s: seq<Entry>)
    requires SortedDesc(s) && r <= s
    ensures SortedDesc(r)
  {
  }

  /** The entries of `s` whose modification time is `t`, in the order of `s`. */
  function WithMtime(s: seq<Entry>, t: int): seq<Entry>
  {
    if s == [] then []
    else if s[0].mtime == t then [s[0]] + WithMtime(s[1..], t)
    else WithMtime(s[1..], t)
  }

  /** What is selected for a time is an entry of `s` with that time. */
  lemma {:induction false} WithMtimeMembers(s: seq<Entry>, t: int)
    ensures forall x :: x in WithMtime(s, t) ==> x in s && x.mtime == t
    decreases |s|
  {
    if s != [] {
      WithMtimeMembers(s[1..], t);
    }
  }

  /** `r` is a stable, most-recent-first arrangement of `s`. */
  ghost predicate StableDescending(r: seq<Entry>, s: seq<Entry>)
  {
    && SortedDesc(r)
    && forall t :: WithMtime(r, t) == WithMtime(s, t)
  }

  /** Where `e` goes in `s`: the position of the first entry that is not
      strictly more recent than `e`, or `|s|` when every entry is. */
  function Slot(e: Entry, s: seq<Entry>): (j: nat)
    ensures j <= |s|
    ensures forall k :: 0 <= k < j ==> s[k].mtime > e.mtime
    ensures j < |s| ==> s[j].mtime <= e.mtime
  {
    if s == [] || s[0].mtime <= e.mtime then 0
    else
      var j := Slot(e, s[1..]);
      assert forall k :: 1 <= k <= j ==> s[k] == s[1..][k - 1];
      1 + j
  }

  /** Places `e` into `s` at its slot, ahead of every entry with the same time. */
  function Insert(e: Entry, s: seq<Entry>): seq<Entry>
  {
    var j := Slot(e, s);
    s[..j] + [e] + s[j..]
  }

  /** Insertion adds `e` and keeps every entry of `s`. */
  lemma InsertMultiset(e: Entry, s: seq<Entry>)
    ensures multiset(Insert(e, s)) == multiset(s) + multiset{e}
  {
    var j := Slot(e, s);
    assert s == s[..j] + s[j..];
  }

  /** Splicing `e` in at its slot keeps a sorted sequence sorted. */
  lemma InsertSorted(e: Entry, s: seq<Entry>, j: nat)
    requires SortedDesc(s)
    requires j <= |s|
    requires forall k :: 0 <= k < j ==> s[k].mtime > e.mtime
    requires j < |s| ==> s[j].mtime <= e.mtime
    ensures SortedDesc(s[..j] + [e] + s[j..])
  {
  }

  /** No entry of `s` has time `t`, so none is selected for `t`. */
  lemma {:induction false} NoneWithMtime(s: seq<Entry>, t: int)
    requires forall k :: 0 <= k < |s| ==> s[k].mtime != t
    ensures WithMtime(s, t) == []
    decreases |s|
  {
    if s != [] {
      NoneWithMtime(s[1..], t);
    }
  }

  /** Insertion puts `e` ahead of every entry of `s` that has its time, and
      leaves the entries of every other time as they were. */
  lemma InsertWithMtime(e: Entry, s: seq<Entry>, t: int)
    ensures WithMtime(Insert(e, s), t) == if e.mtime == t then [e] + WithMtime(s, t) else WithMtime(s, t)
  {
    var j := Slot(e, s);
    assert s == s[..j] + s[j..];
    SpliceWithMtime(s[..j], e, s[j..], t);
  }

  /** Splicing `e` in after entries that are all strictly more recent. */
  lemma SpliceWithMtime(before: seq<Entry>, e: Entry, after: seq<Entry>, t: int)
    requires forall k :: 0 <= k < |before| ==> before[k].mtime > e.mtime
    ensures WithMtime(before + [e] + after, t)
         == if e.mtime == t then [e] + WithMtime(before + after, t) else WithMtime(before + after, t)
  {
    assert before + [e] + after == before + ([e] + after);
    WithMtimeAppend(before, [e] + after, t);
    WithMtimeAppend(before, after, t);
    assert ([e] + after)[1..] == after;
    if e.mtime == t {
      NoneWithMtime(before, t);
    }
  }

  /** Insertion sort: each entry is inserted ahead of the equal-time entries that
      come after it in the input, which is what makes the sort stable. */
  function Sort(s: seq<Entry>): seq<Entry>
  {
    if s == [] then [] else Insert(s[0], Sort(s[1..]))
  }

  /** The sort result is ordered most recent first. */
  lemma {:induction false} SortSorted(s: seq<Entry>)
    ensures SortedDesc(Sort(s))
    decreases |s|
  {
    if s != [] {
      var rest := Sort(s[1..]);
      SortSorted(s[1..]);
      InsertSorted(s[0], rest, Slot(s[0], rest));
    }
  }

  /** The sort result is a permutation of its input. */
  lemma {:induction false} SortPermutes(s: seq<Entry>)
    ensures multiset(Sort(s)) == multiset(s)
    decreases |s|
  {
    if s != [] {
      SortPermutes(s[1..]);
      InsertMultiset(s[0], Sort(s[1..]));
      assert s == [s[0]] + s[1..];
    }
  }

  /** The sort is stable: the entries of any one time keep their input order. */
  lemma {:induction false} SortStable(s: seq<Entry>, t: int)
    ensures WithMtime(Sort(s), t) == WithMtime(s, t)
    decreases |s|
  {
    if s != [] {
      SortStable(s[1..], t);
      InsertWithMtime(s[0], Sort(s[1..]), t);
    }
  }

  /** The sort meets the stable most-recent-first specification. */
  lemma SortIsStableDescending(s: seq<Entry>)
    ensures StableDescending(Sort(s), s)
  {
    SortSorted(s);
    forall t
      ensures WithMtime(Sort(s), t) == WithMtime(s, t)
    {
      SortStable(s, t);
    }
  }

  /** Selecting by time distributes over concatenation. */
  lemma {:induction false} WithMtimeAppend(a: seq<Entry>, b: seq<Entry>, t: int)
    ensures WithMtime(a + b, t) == WithMtime(a, t) + WithMtime(b, t)
    decreases |a|
  {
    if a == [] {
      assert a + b == b;
    } else {
      assert (a + b)[1..] == a[1..] + b;
      WithMtimeAppend(a[1..], b, t);
    }
  }

  /** The first entry of a sorted sequence is at least as recent as any entry of it. */
  lemma HeadIsLatest(s: seq<Entry>, x: Entry)
    requires SortedDesc(s)
    requires x in s
    ensures x.mtime <= s[0].mtime
  {
  }

  /** Two sorted sequences that agree, for every time, on the entries with that
      time are equal. */
  lemma {:induction false} SameByTimeEqual(a: seq<Entry>, b: seq<Entry>)
    requires SortedDesc(a) && SortedDesc(b)
    requires forall t :: WithMtime(a, t) == WithMtime(b, t)
    ensures a == b
    decreases |a| + |b|
  {
    if a != [] || b != [] {
      // whichever side is non-empty has entries of its first time, so the other does too
      var t := (a + b)[0].mtime;
      WithMtimeAppend(a, b, t);
      assert WithMtime(a, t) == WithMtime(b, t) != [];
      assert a != [] && b != [];
      var m := a[0].mtime;
      var n := b[0].mtime;
      assert WithMtime(b, m) == WithMtime(a, m) != [];
      WithMtimeMembers(b, m);
      HeadIsLatest(b, WithMtime(b, m)[0]);
      assert WithMtime(a, n) == WithMtime(b, n) != [];
      WithMtimeMembers(a, n);
      HeadIsLatest(a, WithMtime(a, n)[0]);
      assert m == n;
      assert WithMtime(a, m)[0] == a[0] && WithMtime(b, m)[0] == b[0];
      forall t
        ensures WithMtime(a[1..], t) == WithMtime(b[1..], t)
      {
        assert WithMtime(a, t) == WithMtime(b, t);
        if t == m {
          assert WithMtime(a, t) == [a[0]] + WithMtime(a[1..], t);
          assert WithMtime(b, t) == [b[0]] + WithMtime(b[1..], t);
          assert WithMtime(a[1..], t) == WithMtime(a, t)[1..];
          assert WithMtime(b[1..], t) == WithMtime(b, t)[1..];
        } else {
          assert WithMtime(a, t) == WithMtime(a[1..], t);
          assert WithMtime(b, t) == WithMtime(b[1..], t);
        }
      }
      SameByTimeEqual(a[1..], b[1..]);
      assert a == [a[0]] + a[1..];
      assert b == [b[0]] + b[1..];
    }
  }

  /** `Sort` is the only stable most-recent-first arrangement: any sequence with
      both properties is exactly what `Sort` returns. */
  lemma SortUnique(r: seq<Entry>, s: seq<Entry>)
    ensures StableDescending(r, s) <==> r == Sort(s)
  {
    SortIsStableDescending(s);
    if StableDescending(r, s) {
      SameByTimeEqual(r, Sort(s));
    }
  }
}
