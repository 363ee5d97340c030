/**
 Selection of the `n` most recently modified regular files of a directory
 listing, most recent first: keep the regular files, sort them stably by
 modification time with the most recent first, take the first `n`.
 */
module Latest {
  import opened Listing
  import opened StableSort
  import opened PySlice

  /** The selection as a pipeline of the three steps. */
  function GetNLatest(listing: seq<Entry>, n: int): seq<Entry>
  {
    Head(Sort(Files(listing)), n)
  }

  /** Every selected entry is a regular file of the listing. */
  lemma NLatestFiles(listing: seq<Entry>, n: int)
    ensures forall x :: x in GetNLatest(listing, n) ==> x.isFile && x in listing
  {
    var sorted := Sort(Files(listing));
    SortedFilesAreFiles(listing);
    PrefixMultiset(Head(sorted, n), sorted);
  }

  /** Nothing is selected more often than it occurs in the listing. */
  lemma NLatestCounts(listing: seq<Entry>, n: int)
    ensures forall x :: multiset(GetNLatest(listing, n))[x] <= multiset(listing)[x]
  {
    var sorted := Sort(Files(listing));
    PrefixMultiset(Head(sorted, n), sorted);
    SortPermutes(Files(listing));
    FilesMultiset(listing);
  }

  /** The selection is ordered most recent first. */
  lemma NLatestSorted(listing: seq<Entry>, n: int)
    ensures SortedDesc(GetNLatest(listing, n))
  {
    var sorted := Sort(Files(listing));
    SortSorted(Files(listing));
    PrefixSorted(Head(sorted, n), sorted);
  }

  /** For a non-negative `n`, exactly `min(n, number of regular files)`
      entries are selected. */
  lemma NLatestLength(listing: seq<Entry>, n: int)
    requires 0 <= n
    ensures |GetNLatest(listing, n)| == Min(n, FileCount(listing))
  {
    SortPermutes(Files(listing));
    assert |Sort(Files(listing))| == |multiset(Sort(Files(listing)))| == |Files(listing)|;
    FilesLength(listing);
  }

  /** The sorted files are regular files of the listing. */
  lemma SortedFilesAreFiles(listing: seq<Entry>)
    ensures forall x :: x in Sort(Files(listing)) ==> x.isFile && x in listing
  {
  }

  /** A prefix holds no entry more often than the whole sequence. */
  lemma PrefixMultiset(r: seq<Entry>, s: seq<Entry>)
    requires r <= s
    ensures multiset(r) <= multiset(s)
    ensures forall x :: x in r ==> x in s
  {
    assert s == r + s[|r|..];
  }

  /** Top-N: whatever regular file is left out is no more recent than anything
      that was selected. Counting occurrences makes this cover listings that
      hold the same entry more than once: an entry selected fewer times than it
      occurs in the listing is no more recent than any selected entry. An entry
      that is not selected at all is selected zero times. */
  lemma NLatestIsTop(listing: seq<Entry>, n: int)
    ensures forall x: Entry, y: Entry ::
              x.isFile && multiset(GetNLatest(listing, n))[x] < multiset(listing)[x] && y in GetNLatest(listing, n)
              ==> x.mtime <= y.mtime
  {
    var sorted := Sort(Files(listing));
    var r := GetNLatest(listing, n);
    assert r == sorted[..|r|];
    SortSorted(Files(listing));
    SortPermutes(Files(listing));
    PrefixIsTop(sorted, |r|);
    FilesMultiset(listing);
  }

  /** In a sorted sequence, nothing outside a prefix is more recent than
      anything inside it. */
  lemma PrefixIsTop(s: seq<Entry>, k: nat)
    requires SortedDesc(s) && k <= |s|
    ensures forall x, y :: x in multiset(s) - multiset(s[..k]) && y in s[..k] ==> x.mtime <= y.mtime
  {
    PrefixRemainder(s, k);
    forall x: Entry, y: Entry | x in multiset(s[k..]) && y in s[..k]
      ensures x.mtime <= y.mtime
    {
      LaterNotNewer(s, k, x, y);
    }
  }

  /** Taking a prefix away leaves exactly the rest of the sequence. */
  lemma PrefixRemainder(s: seq<Entry>, k: nat)
    requires k <= |s|
    ensures multiset(s) - multiset(s[..k]) == multiset(s[k..])
  {
    assert s == s[..k] + s[k..];
  }

  /** In a sorted sequence, an entry after position `k` is no more recent than
      one before it. */
  lemma LaterNotNewer(s: seq<Entry>, k: nat, x: Entry, y: Entry)
    requires SortedDesc(s) && k <= |s|
    requires x in multiset(s[k..]) && y in s[..k]
    ensures x.mtime <= y.mtime
  {
  }

  /** Stability: for every modification time, the selected entries with that
      time are the first ones with that time among the regular files, in
      listing order. So ties keep listing order, and a tie cut by `n` keeps the
      entries that come first in the listing. */
  lemma NLatestIsStable(listing: seq<Entry>, n: int, t: int)
    ensures WithMtime(GetNLatest(listing, n), t) <= WithMtime(Files(listing), t)
  {
    var sorted := Sort(Files(listing));
    var r := GetNLatest(listing, n);
    assert r == sorted[..|r|];
    PrefixWithMtime(sorted, |r|, t);
    SortStable(Files(listing), t);
  }

  /** Selecting by time from a prefix gives a prefix of the selection. */
  lemma PrefixWithMtime(s: seq<Entry>, k: nat, t: int)
    requires k <= |s|
    ensures WithMtime(s[..k], t) <= WithMtime(s, t)
  {
    assert s == s[..k] + s[k..];
    WithMtimeAppend(s[..k], s[k..], t);
  }

  /** Nothing is selected when `n` is zero, and nothing is selected from a
      listing without regular files, an empty listing in particular. */
  lemma NLatestEmpty(listing: seq<Entry>, n: int)
    ensures GetNLatest(listing, 0) == []
    ensures (forall i :: 0 <= i < |listing| ==> !listing[i].isFile) ==> GetNLatest(listing, n) == []
  {
    if forall i :: 0 <= i < |listing| ==> !listing[i].isFile {
      NoFilesEmpty(listing);
    }
  }

  /** Asking for fewer never changes what comes first: the selection for `n` is
      a prefix of the selection for any larger `m`. */
  lemma NLatestPrefix(listing: seq<Entry>, n: nat, m: nat)
    requires n <= m
    ensures GetNLatest(listing, n) <= GetNLatest(listing, m)
  {
  }

  /** Asking for at least as many as there are regular files selects all of
      them, each exactly as often as it occurs, in stable most-recent-first
      order. */
  lemma NLatestAll(listing: seq<Entry>, n: int)
    requires n >= FileCount(listing)
    ensures multiset(GetNLatest(listing, n)) == multiset(Files(listing))
    ensures StableDescending(GetNLatest(listing, n), Files(listing))
  {
    var sorted := Sort(Files(listing));
    FilesLength(listing);
    SortPermutes(Files(listing));
    assert |sorted| == |multiset(sorted)| == |Files(listing)|;
    assert GetNLatest(listing, n) == sorted[..|sorted|] == sorted;
    SortIsStableDescending(Files(listing));
  }

  /** What a correct selection is, independently of how it is computed: a
      prefix of length `min(n, number of regular files)` of some stable
      most-recent-first arrangement of the regular files. */
  ghost predicate IsLatestSelection(r: seq<Entry>, listing: seq<Entry>, n: nat)
  {
    && |r| == Min(n, FileCount(listing))
    && exists q :: StableDescending(q, Files(listing)) && r <= q
  }

  /** The computed selection is a correct selection, and it is the only one. */
  lemma NLatestUnique(listing: seq<Entry>, n: nat, r: seq<Entry>)
    ensures IsLatestSelection(r, listing, n) <==> r == GetNLatest(listing, n)
  {
    if IsLatestSelection(r, listing, n) {
      SelectionIsComputed(listing, n, r);
    }
    if r == GetNLatest(listing, n) {
      var sorted := Sort(Files(listing));
      NLatestLength(listing, n);
      assert r == sorted[..|r|];
      SortIsStableDescending(Files(listing));
    }
  }

  /** A correct selection is a prefix of the one stable arrangement, of the
      same length as the computed selection, hence the computed selection. */
  lemma SelectionIsComputed(listing: seq<Entry>, n: nat, r: seq<Entry>)
    requires IsLatestSelection(r, listing, n)
    ensures r == GetNLatest(listing, n)
  {
    var sorted := Sort(Files(listing));
    var g := GetNLatest(listing, n);
    NLatestLength(listing, n);
    assert g == sorted[..|g|];
    var q :| StableDescending(q, Files(listing)) && r <= q;
    SortUnique(q, Files(listing));
    assert r == sorted[..|g|];
  }

  /** One step of the filter, seen from the front of the listing. */
  lemma FilesCons(e: Entry, rest: seq<Entry>)
    ensures Files([e] + rest) == if e.isFile then [e] + Files(rest) else Files(rest)
  {
  }

  /** One step of the sort, seen from the front of the input. */
  lemma SortCons(e: Entry, rest: seq<Entry>)
    ensures Sort([e] + rest) == Insert(e, Sort(rest))
  {
  }

  /** One backwards step of the selection's sort: the sorted files from
      position `i` on are those from `i + 1` on, with the entry at `i` inserted
      when it is a regular file. */
  lemma SortFilesStep(listing: seq<Entry>, i: nat)
    requires i < |listing|
    ensures Sort(Files(listing[i..])) == if listing[i].isFile
                                         then Insert(listing[i], Sort(Files(listing[i + 1..])))
                                         else Sort(Files(listing[i + 1..]))
  {
  }

  /** The position of the first entry of `s` that is not strictly more recent
      than `e`, or `|s|` when there is none: where the insertion sort puts `e`. */
  method FindSlot(e: Entry, s: seq<Entry>) returns (j: nat)
    ensures j == Slot(e, s)
  {
    j := 0;
    while j < |s| && s[j].mtime > e.mtime
      invariant j <= Slot(e, s)
    {
      j := j + 1;
    }
  }

  /** The selection computed with loops: a backwards pass over the listing that
      inserts each regular file into an already sorted sequence, ahead of the
      entries of equal time (which come later in the listing), then the slice. */
  method SelectLatest(listing: seq<Entry>, n: int) returns (r: seq<Entry>)
    ensures r == GetNLatest(listing, n)
  {
    var sorted: seq<Entry> := [];
    var i := |listing|;
    while i > 0
      invariant 0 <= i <= |listing|
      invariant sorted == Sort(Files(listing[i..]))
    {
      i := i - 1;
      var e := listing[i];
      SortFilesStep(listing, i);
      if e.isFile {
        var j := FindSlot(e, sorted);
        sorted := sorted[..j] + [e] + sorted[j..];
      }
    }
    assert listing[0..] == listing;
    r := Head(sorted, n);
  }
}
