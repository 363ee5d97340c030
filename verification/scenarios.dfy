/**
 Small listings worked through the selection.
 */
module Scenarios {
  import opened Listing
  import opened StableSort
  import opened PySlice
  import opened Latest

  /** Three files, oldest to newest `a`, `b`, `c`, listed with a directory `d`
      among them: asking for two gives the newest, then the next newest, and the
      directory never appears. */
  lemma NewestTwo(a: Entry, b: Entry, d: Entry, c: Entry)
    requires a.isFile && b.isFile && c.isFile && !d.isFile
    requires a.mtime < b.mtime < c.mtime
    ensures GetNLatest([a, b, d, c], 2) == [c, b]
  {
    FilesSkipDirectory(a, b, d, c);
    SortThree(a, b, c);
    assert Head([c, b, a], 2) == [c, b, a][..2] == [c, b];
  }

  /** The directory is filtered out, the files stay in listing order. */
  lemma FilesSkipDirectory(a: Entry, b: Entry, d: Entry, c: Entry)
    requires a.isFile && b.isFile && c.isFile && !d.isFile
    ensures Files([a, b, d, c]) == [a, b, c]
  {
    assert [c][1..] == [] && [d, c][1..] == [c] && [b, d, c][1..] == [d, c] && [a, b, d, c][1..] == [b, d, c];
    assert Files([c]) == [c];
    assert Files([b, d, c]) == [b, c];
  }

  /** Two files `x` and `y`, listed in that order, share a modification time and
      `z` is newer: the tie keeps listing order, and when only one of the two
      fits, the one listed first is kept. */
  lemma TieKeepsListingOrder(x: Entry, y: Entry, z: Entry)
    requires x.isFile && y.isFile && z.isFile
    requires x.mtime == y.mtime < z.mtime
    ensures GetNLatest([x, y, z], 3) == [z, x, y]
    ensures GetNLatest([x, y, z], 2) == [z, x]
  {
    FilesAllFiles(x, y, z);
    SortTie(x, y, z);
    assert Head([z, x, y], 3) == [z, x, y];
    assert Head([z, x, y], 2) == [z, x, y][..2] == [z, x];
  }

  /** A listing of files only is kept whole. */
  lemma FilesAllFiles(x: Entry, y: Entry, z: Entry)
    requires x.isFile && y.isFile && z.isFile
    ensures Files([x, y, z]) == [x, y, z]
  {
    assert [z][1..] == [] && [y, z][1..] == [z] && [x, y, z][1..] == [y, z];
    assert Files([z]) == [z];
    assert Files([y, z]) == [y, z];
  }

  /** Sorting three entries listed oldest first reverses them. */
  lemma SortThree(a: Entry, b: Entry, c: Entry)
    requires a.mtime < b.mtime < c.mtime
    ensures Sort([a, b, c]) == [c, b, a]
  {
    SortTwo(b, c);
    assert [c, b][1..] == [b];
    assert Slot(a, [c, b]) == 2;
    assert Insert(a, [c, b]) == [c, b, a];
    assert [a, b, c][1..] == [b, c];
  }

  /** The tie `x`, `y` before the newer `z` sorts to `z`, `x`, `y`. */
  lemma SortTie(x: Entry, y: Entry, z: Entry)
    requires x.mtime == y.mtime < z.mtime
    ensures Sort([x, y, z]) == [z, x, y]
  {
    SortTwo(y, z);
    assert [z, y][1..] == [y];
    assert Slot(x, [z, y]) == 1;
    assert Insert(x, [z, y]) == [z, x, y];
    assert [x, y, z][1..] == [y, z];
  }

  /** Two entries listed older first come out newer first. */
  lemma SortTwo(b: Entry, c: Entry)
    requires b.mtime < c.mtime
    ensures Sort([b, c]) == [c, b]
  {
    assert [c][1..] == [];
    assert Sort([c]) == [c];
    assert Slot(b, [c]) == 1;
    assert Insert(b, [c]) == [c, b];
    assert [b, c][1..] == [c];
  }

  /** An empty listing, which a missing or empty directory gives, selects nothing. */
  lemma EmptyListing(n: int)
    ensures GetNLatest([], n) == []
  {
  }
}
