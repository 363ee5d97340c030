/**
 The directory listing that the latest-files selection works on.

 Enumerating the directory and asking the filesystem about each name is I/O;
 here a listing is simply the sequence of names the glob returned, in glob
 order, each paired with the two answers the selection consults: whether the
 name is a regular file, and its modification time.
 */
module Listing {

  /** One name of the listing. `isFile` is what the regular-file test answers
      for it (links to regular files included), `mtime` is its modification
      time; only the ordering of modification times matters. */
  datatype Entry = Entry(path: string, mtime: int, isFile: bool)

  /** The regular files of the listing, in listing order. */
  function Files(s: seq<Entry>): seq<Entry>
  {
    if s == [] then []
    else if s[0].isFile then [s[0]] + Files(s[1..])
    else Files(s[1..])
  }

  /** The filter drops every entry that is not a regular file and keeps every
      regular file exactly as often as it occurs in the listing. */
  lemma {:induction false} FilesMultiset(s: seq<Entry>)
    ensures forall x :: multiset(Files(s))[x] == if x.isFile then multiset(s)[x] else 0
    decreases |s|
  {
    if s != [] {
      FilesMultiset(s[1..]);
      assert s == [s[0]] + s[1..];
    }
  }

  /** Positions of the listing that hold regular files. */
  ghost function FileIndices(s: seq<Entry>): set<int>
  {
    set i | 0 <= i < |s| && s[i].isFile
  }

  /** How many regular files the listing holds, counted by position. */
  ghost function FileCount(s: seq<Entry>): nat
  {
    |FileIndices(s)|
  }

  /** Filtering distributes over concatenation of listings. */
  lemma {:induction false} FilesAppend(a: seq<Entry>, b: seq<Entry>)
    ensures Files(a + b) == Files(a) + Files(b)
    decreases |a|
  {
    if a == [] {
      assert a + b == b;
    } else {
      assert (a + b)[0] == a[0];
      assert (a + b)[1..] == a[1..] + b;
      FilesAppend(a[1..], b);
    }
  }

  /** The filter keeps exactly as many entries as there are regular-file positions. */
  lemma {:induction false} FilesLength(s: seq<Entry>)
    ensures |Files(s)| == FileCount(s)
    decreases |s|
  {
    if s == [] {
      assert FileIndices(s) == {};
    } else {
      var p, x := s[..|s| - 1], s[|s| - 1];
      assert s == p + [x];
      FilesLength(p);
      FilesAppend(p, [x]);
      assert |Files([x])| == if x.isFile then 1 else 0 by {
        assert [x][1..] == [];
      }
      FileIndicesSnoc(p, x);
    }
  }

  /** Appending one entry adds its position when it is a regular file. */
  lemma FileIndicesSnoc(p: seq<Entry>, x: Entry)
    ensures |FileIndices(p + [x])| == |FileIndices(p)| + if x.isFile then 1 else 0
  {
    var s := p + [x];
    if x.isFile {
      assert FileIndices(s) == FileIndices(p) + {|p|};
      assert |p| !in FileIndices(p);
    } else {
      assert FileIndices(s) == FileIndices(p);
    }
  }

  /** A listing without regular files has nothing to select from. */
  lemma {:induction false} NoFilesEmpty(s: seq<Entry>)
    requires forall i :: 0 <= i < |s| ==> !s[i].isFile
    ensures Files(s) == []
    decreases |s|
  {
    if s != [] {
      NoFilesEmpty(s[1..]);
    }
  }
}
