# pdexplorer in Dafny

pdexplorer walks a directory tree and reports every regular file it finds: its
parent directory relative to the target's parent, its name, its size in bytes
and in human-readable binary units, its modification time (raw and formatted)
and its owner. The table is sorted by modification time, newest first.

This project models the two pieces of logic in `pdexplorer.py`:

- `SizeFormat` (`size_format.dfy`) models `sizeof_fmt`, the 1024-based unit
  conversion. `SizeofFmt` is the loop as a method. It is proved equal to the
  function `FormatSize`. `FormatSize`'s contract and the lemmas beside it
  describe the result without reference to the loop. The chosen unit is the
  first of `"" K M G T P E Z` at which the magnitude drops below 1024, falling
  back to `Y`. The value is exactly `num / 1024^k`. The sign is kept. A result
  is a `Formatted` value that holds the scaled value, the power k, the unit and
  the suffix.
- `Explorer` (`explorer.dfy`) models `dir_activity` as a pipeline of functions
  over a sequence of `Entry` values. Each entry stands for one path from the
  recursive walk, together with what `stat` and the owner lookup report for it.
  `CollectFiles` is the list comprehension: it keeps the entries for which
  `Path.is_file()` holds (symbolic links followed) and builds one `FileRecord`
  per file. `SortByMtimeDesc` is the descending sort on
  `mtime`. `DirActivity` composes the two. When no regular file is found,
  pandas builds a frame with no columns and the sort raises `KeyError: 'mtime'`.
  `DirActivity` returns `MissingColumn("mtime")` in that case. The local-time rendering of a
  timestamp is a parameter `fmtTime: real -> string`.

Three behaviours of the code are worth stating plainly:
- The code sorts with a non-strict descending order: equal timestamps are
  allowed next to each other.
- Any failure while reading metadata or resolving an owner propagates and
  aborts the whole run. The code has no skip-and-continue policy.
- The size label includes the suffix: 1024 bytes give `1.0KB`.

## Model

| member | source | states |
|---|---|---|
| SizeFormat.SizeofFmt | pdexplorer.py:7-12 | The loop over the unit table returns exactly `FormatSize(num, suffix)`. |
| SizeFormat.FormatSize | pdexplorer.py:7-12 | The unit is the first k in 0..7 at which `num` divided k times by 1024 has magnitude below 1024, or `Y` (k = 8) if there is none. The value is `num / 1024^k`. Every non-`Y` value has magnitude below 1024. The suffix is the caller's. |
| SizeFormat.ScaleFrom | pdexplorer.py:8-12 | The loop in recursive form, started at table position i: the position it stops at lies between i and 8 (`Y`), the unit is the name of that position, and the suffix is the caller's. |
| SizeFormat.ScaleFromChoice | pdexplorer.py:8-12 | The loop started at any table position stops at the first position below 1024 or falls back to `Y`. The value returned is the input scaled once per step taken. |
| SizeFormat.ScaledIsQuotient | pdexplorer.py:11 | Dividing k times by 1024 equals dividing once by 1024^k. |
| SizeFormat.RenderingUnique | pdexplorer.py:8-12 | Any rendering that meets `FormatSize`'s conditions (unit, value, bound below 1024, minimal k) equals `FormatSize`'s result. The characterisation is therefore complete. |
| SizeFormat.NoScalingBelow1024 | pdexplorer.py:9-10 | If abs(num) < 1024, the result is `num` itself with the empty unit. |
| SizeFormat.ScaledBelow | pdexplorer.py:9-11 | Scaling k times leaves a magnitude below 1024 exactly when abs(num) < 1024^(k+1). |
| SizeFormat.MagnitudeBand | pdexplorer.py:8-12 | A unit k below `Y` is chosen only for 1024^k <= abs(num) < 1024^(k+1). For k = 0 the only condition is abs(num) < 1024. `Y` is chosen exactly when abs(num) >= 1024^8. |
| SizeFormat.ScaledAtLeastOne | pdexplorer.py:9-11 | Whenever the unit is not the empty one, the scaled magnitude is at least 1. |
| SizeFormat.ScaledSign | pdexplorer.py:11 | Repeated division by 1024 keeps the sign and keeps zero at zero. |
| SizeFormat.SignPreserved | pdexplorer.py:9-11 | The rendered value is negative, zero or positive exactly when the input is. |
| SizeFormat.YFallbackUnbounded | pdexplorer.py:12 | The `Y` fallback does not bound the value: 1024^9 renders as 1024 with unit `Y`. |
| SizeFormat.Examples | pdexplorer.py:7-12 | 0 -> 0 B, 1023 -> 1023 B, 1024 -> 1 KB, 1536 -> 1.5 KB, 1048576 -> 1 MB. |
| Explorer.OnlyDirectoriesFail | pdexplorer.py:44-62 | An empty walk, or one that finds only directories, gives the missing-`mtime`-column error instead of a table. |
| Explorer.MakeRecord | pdexplorer.py:45-57 | Field by field: `path` is the entry's relative parent, `fname` its name, `size` its size, `sizeFmt` is `FormatSize(size, "B")` (value size / 1024^k, suffix `B`), `mtime` its mtime, `mtimeFmt` the time rendering of that mtime, and `owner` its owner. |
| Explorer.CountFiles | pdexplorer.py:58-59 | The number of entries for which `is_file` holds is at most the number of entries. It is zero exactly when no entry is a file. |
| Explorer.CollectFiles | pdexplorer.py:44-60 | The comprehension yields one row per regular-file entry (a count equal to `CountFiles`). Every row's `sizeFmt` is `FormatSize` of its own size, and its `mtimeFmt` is the formatting of its own mtime. |
| Explorer.CollectFilesAppend | pdexplorer.py:58-59 | The comprehension works entry by entry: the rows of a concatenation are the rows of the parts, in order. A non-file adds nothing and a file adds exactly its own record. |
| Explorer.CollectFilesMembers | pdexplorer.py:44-60 | A record is among the collected rows if and only if it is the record of some regular-file entry. |
| Explorer.Insert | pdexplorer.py:62 | Inserting a row into a newest-first table gives a newest-first table. The result holds the old rows plus the new one. |
| Explorer.SortByMtimeDesc | pdexplorer.py:62 | The result is ordered by mtime, newest first, and is a permutation of the input rows. |
| Explorer.DirActivity | pdexplorer.py:24-62 | With no regular file the result is the missing-`mtime`-column error, and only then. Otherwise the table has one row per regular file and is a permutation of the collected rows. Adjacent rows satisfy mtime[i] >= mtime[i+1]. Every row's `sizeFmt` is `FormatSize` of its own size. |
| Explorer.TableRows | pdexplorer.py:44-62 | Every table row is the record of some regular file. If there is a regular file, the result is a table and that file's record appears in it. |
| Explorer.SortedTablesAgree | pdexplorer.py:42 | Any two newest-first orderings of the same rows have the same length and the same mtime at every position. How ties are broken does not matter. |
| Explorer.TwoFileScenario | pdexplorer.py:24-62 | Take two directories holding `x.txt` (10 bytes, time t1) and `y.bin` (2048 bytes, time t2 > t1). The result is the table [y.bin, x.txt], with sizes 2 KB and 10 B. |

## Left out

- `read_win32_owner` (Windows security API calls) is not modelled. The owner is an opaque string carried by each `Entry`.
- The filesystem is not modelled: `rglob`, `is_file`, the `stat` calls and `relative_to` are replaced by the input sequence of `Entry` values. The race between the repeated `stat` calls on one file is not modelled, because each entry carries one size and one mtime.
- Timestamp formatting (`pd.Timestamp.fromtimestamp`, `get_localzone`, `strftime`) is not modelled. It is the parameter `fmtTime`.
- The decimal rendering `3.1f` / `.1f` is not modelled. The model keeps the exact scaled value and the unit, not the rounded string, so 1048575 has the exact value 1023.999… KB, which Python prints as `1024.0KB`.
- SizeFormat.FormatSize: the value is computed over exact reals, not IEEE doubles. This is exact for integer sizes up to 2^53. Larger integers are rounded by Python's first division, and the model does not capture that rounding.
- Explorer.SortByMtimeDesc: pandas' `sort_values` (quicksort, not stable) is modelled by an insertion sort. Its contract (newest first, a permutation) and `SortedTablesAgree` are what the model promises. The order of rows with equal times may differ from pandas.
- Exceptions from `stat` or the owner lookup abort the real run. Entries here are already resolved, so there is no error path for them. The one failure the model does capture is the `KeyError` when no regular file is found.
- Building the DataFrame and the `__main__` entry point that prints it are not modelled.
