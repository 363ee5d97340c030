# nlatest-files: selecting the N most recently modified files

`scranagement.py` finds the `n` most recently modified regular files in a
directory. Its one piece of logic is `get_n_latest`, which works in three steps:

1. It globs the directory and keeps the names that are regular files.
2. It sorts them by modification time, newest first, with Python's stable
   `list.sort(..., reverse=True)`.
3. It returns the first `n` of them (`files[:n]`).

This project models that function as pure functions over an abstract
directory listing. It proves that the result is the top-`n` selection, most
recent first, with ties kept in listing order.

The listing is a `seq<Entry>` in glob order. Each
`Entry(path, mtime, isFile)` carries the two answers the source gets from the
filesystem for that name. `isFile` is what `os.path.isfile` says, so links to
regular files count as files. `mtime` is what `os.path.getmtime` says.

Modules:

- `Listing` (`listing.dfy`): the `Entry` datatype and the regular-file filter `Files`.
- `StableSort` (`stable_sort.dfy`): a stable insertion sort `Sort`, newest first.
  - The specification is `StableDescending`: the result is sorted, and for every
    modification time `t` the entries with time `t` keep their input order.
  - `SortUnique` proves that `Sort` is the only arrangement meeting that
    specification. So any stable sort, Python's included, returns the same list.
- `PySlice` (`py_slice.dfy`): Python's prefix slice `s[:n]` for any integer `n`,
  negative `n` included.
- `Latest` (`latest.dfy`): the selection and its properties.
  - `GetNLatest` is the three steps as a pipeline. Lemmas state its properties.
  - `SelectLatest` computes the same selection with loops: a backwards pass
    that inserts each file at its slot.
- `Scenarios` (`scenarios.dfy`): small listings worked through the selection.

Where the tool's intended design and the code differ, the model follows the code:

- A missing directory is not reported as an error. `get_n_latest` never checks
  for one (see the TODO on line 11), and `glob` then returns an empty list. In
  the model that is an empty listing, so the selection is empty.
- A negative `n` is not rejected. `files[:n]` then drops the last `-n` files.
  `PySlice.Head` models exactly that.

## Model

| member | source | states |
|---|---|---|
| `Listing.FilesMultiset` | scranagement.py:12 | The filter drops every name that is not a regular file. It keeps each regular file exactly as often as it occurs in the listing. |
| `Listing.FilesAppend` | scranagement.py:12 | The filter treats each entry on its own: filtering a concatenation gives the concatenation of the filtered parts. |
| `Listing.FilesLength` | scranagement.py:12 | The filtered list has one element per position of the listing that holds a regular file. |
| `Listing.NoFilesEmpty` | scranagement.py:12 | A listing with no regular file gives an empty list of files. |
| `StableSort.SortSorted` | scranagement.py:13 | The sort result is non-increasing by modification time. |
| `StableSort.SortPermutes` | scranagement.py:13 | The sort result is a permutation of its input: every entry occurs exactly as often as before. |
| `StableSort.SortStable` | scranagement.py:13 | The sort is stable under `reverse=True`: for every modification time, the entries with that time keep their input order. |
| `StableSort.SortUnique` | scranagement.py:13 | A sequence is a stable, newest-first arrangement of the input if and only if it equals `Sort` of it. So the result does not depend on which stable sort algorithm is used. |
| `StableSort.SameByTimeEqual` | scranagement.py:13 | Two sorted sequences that agree, for every time, on their entries with that time are equal. This is the core of the uniqueness proof. |
| `PySlice.Head` | scranagement.py:14 | `s[:n]` is a prefix of `s`. For `n >= 0` its length is `min(n, len(s))`. For `n < 0` it drops `min(-n, len(s))` elements from the end. |
| `PySlice.HeadMonotone` | scranagement.py:14 | Between two bounds of the same sign, the slice with the smaller bound is a prefix of the slice with the larger one. |
| `Latest.NLatestFiles` | scranagement.py:12-14 | Every returned entry is a regular file from the listing. |
| `Latest.NLatestCounts` | scranagement.py:12-14 | No entry is returned more often than it occurs in the listing. |
| `Latest.NLatestSorted` | scranagement.py:13-14 | The result is ordered newest first. |
| `Latest.NLatestLength` | scranagement.py:12-14 | For `n >= 0` the result has `min(n, number of regular files)` entries. |
| `Latest.NLatestIsTop` | scranagement.py:13-14 | Top-N: a regular file selected fewer times than it occurs in the listing is no newer than any selected entry. This includes a file not selected at all. |
| `Latest.NLatestIsStable` | scranagement.py:13-14 | For every modification time, the selected entries with that time are the first files with that time, in listing order. A tie cut by `n` keeps the files listed first. |
| `Latest.NLatestEmpty` | scranagement.py:12-14 | `n == 0` selects nothing. A listing with no regular file, an empty listing included, selects nothing for any `n`. |
| `Latest.NLatestPrefix` | scranagement.py:14 | For `0 <= n <= m`, the selection for `n` is a prefix of the selection for `m`. |
| `Latest.NLatestAll` | scranagement.py:12-13 | When `n` is at least the number of regular files, the selection is a permutation of the filtered files, in stable newest-first order. |
| `Latest.NLatestUnique` | scranagement.py:10-14 | For `n >= 0`, a sequence equals the computed selection if and only if it has length `min(n, number of regular files)` and is a prefix of some stable newest-first arrangement of the files. |
| `Latest.SelectLatest` | scranagement.py:10-14 | The loop version (filter while scanning backwards, insert each file at its slot, then slice) returns exactly `GetNLatest`. |
| `Latest.FindSlot` | scranagement.py:13 | The scan for an insertion point stops at the first entry that is not strictly newer. That places a file ahead of the equal-time files listed after it. |
| `Scenarios.NewestTwo` | scranagement.py:10-14 | Files `a`, `b`, `c` (oldest to newest) with a directory among them, and `n = 2`, give `[c, b]`. |
| `Scenarios.TieKeepsListingOrder` | scranagement.py:13-14 | Two files with equal times stay in listing order, and a cut through the tie keeps the one listed first. |
| `Scenarios.EmptyListing` | scranagement.py:11-12 | An empty listing, which is what a missing or empty directory globs to, selects nothing. |

## Left out

- Directory enumeration (`glob.glob("%s/*")` on line 12) is not modelled; the listing is an input. This covers glob's exclusion of names starting with a dot and its reading of pattern characters in the directory name.
- The `os.path.isfile` and `os.path.getmtime` calls (lines 12-13) are not modelled. Their answers are fields of `Entry`.
  - As a consequence, a file that vanishes between the two calls, which makes `getmtime` raise, is filesystem I/O outside the model.
- Modification times are Python floats. The model uses integers, because only their order matters and `getmtime` never returns NaN.
- `_expand_path` (lines 22-23) is not modelled: it only expands environment variables and `~`.
- `parse_args` (lines 26-30), `show_usage` (lines 33-34), the `print` in `main` (lines 17-19) and the `__main__` block (lines 37-43) are not modelled: they are a hard-coded configuration stub and output.
  - The `__main__` block calls `sys.exit` without importing `sys` (line 41). That line is unreachable, because `parse_args` always reports success.
- The `Config` record (line 7) is not modelled: it only carries the directory and `n` into `get_n_latest`.
- Symbolic-link synchronisation, configuration files and action dispatch are not modelled. None of them exists in `scranagement.py`.
- PySlice.HeadMonotone: only covers two bounds of the same sign. Across signs the claim is false, since `s[:-1]` is longer than `s[:0]`.
