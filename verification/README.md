# Job-array partitioner and seasonal lead times, modelled in Dafny

This project models the core of a climate-data downloader that splits a large
download into independent batch-array jobs.

- **Partitioner** (`src/arrays.py`). A job space is year-groups × variables. The
  variables are the single-level variables followed by the multi-level ones. The
  two strategies, one year per job and `n` consecutive years per job, return
  the number of jobs when called without an index. With an index, they decode it
  row-major, years first, into `(years, variable, levels or None)`. The command
  line prints that triple as one comma-separated line.
- **Lead times** (`src/download_seas5_cds.py`). `generate_lead_times_hours`
  renders every hour of `range(start_h, end_h + 1, freq_h)` as `f"{h:03}"`.
  `as_list` turns a request value into a list of strings.

Modules:

- `Wrappers` (`wrappers.dfy`): `Option` (Python's `None`) and `Result`, where the
  failure is the exception Python would raise.
- `Arith` (`arith.dfy`): a few integer facts used by the index proofs.
- `Builtins` (`builtins.dfy`): the Python semantics the code relies on: `range`,
  slicing, negative list indexing and `int()` truncation.
- `Decimal` (`decimal.dfy`): `str(i)`, `f"{i:03}"` and a decimal reader that
  inverts both.
- `Partition` (`partition.dfy`): grouping, the catalogue, counting and decoding.
  `SingleYear` and `NYears` share one decoding function, `Resolve`.
- `Render` (`render.dfy`): the printed line, a reader for it, and the corrected
  count output (see Findings).
- `LeadTimes` (`leadtimes.dfy`): lead-time generation and `as_list`.

The partitioner functions are total. Every path the Python code can take is
modelled, and the error paths return the exception Python raises:

- A zero `n_years` makes `range` raise `ValueError`.
- A negative `n_years` gives no groups.
- An index with no groups raises `ZeroDivisionError`.
- A variable position outside the catalogue raises `IndexError`.

The usual preconditions, `n >= 1` and `0 <= index < count`, appear only in the
lemmas. Years, variables and levels are type parameters. Python's `in` is
modelled as equality membership on variables.

## Edge cases of the code

- A negative index in `[-count, 0)` does not fail. Floor `%` and `//` plus
  negative list indexing decode it as `index + count` (`Partition.NegativeIndexWraps`).
  Only indices below `-count` or at or above `count` fail.
- A grouping size of 0 makes `range` raise `ValueError`. A negative size gives
  zero groups: the count is 0, and decoding raises `ZeroDivisionError`.
- An empty year list gives count 0, and decoding raises `ZeroDivisionError`. An
  empty variable list gives count 0, and decoding raises `IndexError`.
- The level rule tests membership in the single-level list, not the position.
  A name in both lists gets no levels even at a multi-level position.
  `Partition.LevelsFollowCatalogue` states the positional rule for disjoint lists.
- Absent levels print as the word `None`.

## Model

| member | source | states |
|---|---|---|
| Partition.SingletonGroups | src/arrays.py:13 | the one-year groups, laid end to end, give back the year list, and every group holds exactly one year |
| Partition.GroupYears | src/arrays.py:49 | a zero `n_years` raises ValueError and a negative one gives no groups; for `n >= 1` the groups laid end to end give back the years, every group but the last has exactly `n` years, the last has 1 to `n`, and there are `ceil(len(years)/n)` groups |
| Partition.SingleYearIsOneYearChunks | src/arrays.py:13 | grouping with `n = 1` is the singleton grouping, so both strategies return the same answer for every input |
| Partition.Variables | src/arrays.py:52 | the catalogue has `len(single) + len(multi)` entries, the single-level variables at their own positions first and the multi-level ones after them |
| Partition.LevelsFor | src/arrays.py:66-69 | a job's levels are None exactly when its variable occurs in the single-level list or the caller gave none; otherwise they are the caller's levels |
| Partition.Resolve | src/arrays.py:52-71 | without an index the answer is the job count `len(groups) * (len(single) + len(multi))`; with an index and no groups it raises ZeroDivisionError; otherwise it succeeds exactly when `-count <= index < count` and raises IndexError otherwise; a decoded job's levels are None when its variable is in the single-level list and the caller's levels otherwise |
| Partition.SingleYear | src/arrays.py:1-34 | the one-year strategy counts `len(years) * (len(single) + len(multi))` jobs, and decoding any index with no years raises ZeroDivisionError |
| Partition.NYears | src/arrays.py:36-71 | `n_years = 0` raises ValueError; a negative `n_years` counts 0 jobs and raises ZeroDivisionError on decode; for `n >= 1` the count is `ceil(len(years)/n) * (len(single) + len(multi))` |
| Partition.DecodeInRange | src/arrays.py:60-64 | every index in `[0, count)` decodes to the year-group at `index % G` and the catalogue variable at `index // G`, both positions in range |
| Partition.DecodeCell | src/arrays.py:60-61 | every (year-group `a`, variable `b`) cell is the job of index `b*G + a`, which lies in `[0, count)`, so every cell of the grid is reached by decoding |
| Partition.DecodeInjective | src/arrays.py:60-64 | with distinct year-groups and no variable named twice in the catalogue, two indices in `[0, count)` that decode to the same job are the same index, so decoding is one-to-one |
| Partition.NextBlockNextVariable | src/arrays.py:60-64 | indices `i` and `i + G` decode to the same year-group, with consecutive variables of the catalogue |
| Partition.NegativeIndexWraps | src/arrays.py:60-64 | a negative index in `[-count, 0)` succeeds and decodes to the same job as `index + count` |
| Partition.LevelsFollowCatalogue | src/arrays.py:66-69 | with disjoint catalogues, a job's levels are absent exactly when its variable position is below `len(single)`; otherwise they are the caller's levels |
| Partition.NoSingleVariablesKeepLevels | src/arrays.py:66-69 | with no single-level variables, every decoded job carries the caller's levels |
| Partition.NYearsDecode | src/arrays.py:49-64 | for `n >= 1`, index `i` of the n-year strategy fetches `years[k*n : k*n+n]` with `k = i % G` and the catalogue variable at `i // G` |
| Partition.WorkedExamples | src/arrays.py:36-71 | five years, `t2m` single-level, `u` and `v` multi-level: the one-year strategy counts 15 jobs, and index 0 gives `([2000], t2m, None)` while index 5 gives `([2000], u, levels)`; with two years per job there are 9 jobs, index 2 gives `([2004], t2m, None)` and index 9 raises IndexError |
| Builtins.Range | src/download_seas5_cds.py:28 | a zero step raises ValueError; otherwise the result starts at `start`, advances by `step`, stays strictly before `stop`, and one more step would not |
| Builtins.RangeUnique | src/download_seas5_cds.py:28 | the progression described for `Range` is met by exactly one sequence, the one `Range` returns |
| Builtins.Slice | src/arrays.py:49 | `s[lo:hi]` for `0 <= lo <= hi` clamps to the length: it is empty when `lo >= len(s)`, runs to the end when `hi >= len(s)`, and otherwise has `hi - lo` elements; element `k` is `s[lo + k]` |
| Builtins.Index | src/arrays.py:64 | list lookup succeeds exactly when `-len <= i < len`; a negative `i` counts from the end; anything else raises IndexError |
| Decimal.Str | src/download_seas5_cds.py:34 | `str(i)` reads back as `i` and has the canonical shape: digits without a leading zero (`0` itself allowed), or `-` before such digits other than `0` |
| Decimal.StrUnique | src/download_seas5_cds.py:34 | any string in the canonical shape that reads as `i` is `str(i)`, so `Decimal.Str` is pinned by its contract |
| Decimal.Format03 | src/download_seas5_cds.py:29 | `f"{i:03}"` is `max(3, len(str(i)))` characters long, reads back as `i`, is all digits for `i >= 0` and starts with `-` otherwise; by `Decimal.Format03Unique` these properties determine the string |
| Decimal.Format03Unique | src/download_seas5_cds.py:29 | any string meeting the `f"{i:03}"` properties listed for `Decimal.Format03` is `Format03(i)`, so those properties pin the rendering |
| Decimal.Format03Examples | src/download_seas5_cds.py:29 | 0, 6, 12, 18, 24, 1234 and -5 render as `000`, `006`, `012`, `018`, `024`, `1234` and `-05` |
| LeadTimes.HoursOf | src/download_seas5_cds.py:22-24 | the whole-hour count truncates toward zero: for non-negative seconds `3600*h <= s < 3600*h + 3600`, mirrored for negative seconds |
| LeadTimes.GenerateLeadTimes | src/download_seas5_cds.py:20-30 | the call fails, with ValueError, exactly when the step is 0; otherwise there is one entry per hour of `range(start_h, end_h + 1, freq_h)`, each meeting the `f"{h:03}"` properties of `Decimal.Format03` for that hour, which by `Decimal.Format03Unique` makes it exactly `f"{h:03}"` |
| LeadTimes.LeadTimeCount | src/download_seas5_cds.py:28 | for `freq_h > 0` there are `(end_h - start_h) // freq_h + 1` lead times when `end_h >= start_h` and none otherwise |
| LeadTimes.LeadTimesAscend | src/download_seas5_cds.py:28-29 | for `freq_h > 0` the first entry reads as `start_h`, consecutive entries differ by `freq_h`, every entry is at most `end_h`, and one more step would pass `end_h` |
| LeadTimes.FirstAndLastLeadTime | src/download_seas5_cds.py:28-29 | when `end_h >= start_h` the first entry is `start_h` and the last is `start_h + ((end_h - start_h) // freq_h) * freq_h`, the largest value on the grid not past `end_h` |
| LeadTimes.SubHourFrequencyRejected | src/download_seas5_cds.py:22-28 | a frequency shorter than one hour truncates to 0 hours, and the lead-time call then raises ValueError |
| LeadTimes.SixHourlyExample | src/download_seas5_cds.py:28-29 | from 0 to 24 hours every 6 hours, the hours are 0, 6, 12, 18, 24 and each entry is its `f"{h:03}"` rendering |
| LeadTimes.AsList | src/download_seas5_cds.py:32-35 | a list keeps its length, each integer item becomes a canonical string that reads back as that integer, which by `Decimal.StrUnique` is exactly `str(i)`; each string item is kept unchanged; a bare string becomes its characters, one one-character string per entry, in order |
| Render.Join | src/arrays.py:102 | `' '.join` of no parts is empty; otherwise it is as long as all parts together plus one separator per neighbouring pair, starts with the first part and has the separator right after it |
| Render.JoinLayout | src/arrays.py:102 | part `k` of a join sits at offset `len(parts[0]) + ... + len(parts[k-1]) + k`, followed by the separator unless it is the last part; with `Render.Join`'s length this fixes every character of the joined string |
| Render.LevelsText | src/arrays.py:104 | absent levels print as `None`; given levels print as their `' '`-join (`Render.Join`), which is empty for no levels and, for a non-empty list of space-free levels, splits back on spaces into that list |
| Render.RenderJob | src/arrays.py:101-106 | the printed line is the years' `' '`-join (`Render.Join`), a comma, the variable, a comma and the levels text (`Render.LevelsText`), for every job; it reads back as the same job whenever the job can be read back at all: no commas, no spaces inside years or levels, at least one year, and levels absent or a non-empty list other than `["None"]` |
| Render.SplitJoin | src/arrays.py:102 | splitting a space-joined list on spaces gives the list back when no part holds a space |
| Render.NoneLevelIsAmbiguous | src/arrays.py:104 | absent levels and the single level named `None` print the same line |
| Render.RenderAnswerAsWritten | src/arrays.py:101-106 | the command line as written fails, with TypeError, exactly for the job-count answer; every job descriptor prints as its `Render.RenderJob` line |
| Render.CountOutputFails | src/arrays.py:101 | asking the command line for the job count of the five-year example (15) raises TypeError |
| Render.RenderAnswer | src/arrays.py:101-106 | corrected output: a job count prints in the canonical shape of `str(n)` and reads back as the count, which by `Decimal.StrUnique` is exactly `str(n)`; every job descriptor prints as its `Render.RenderJob` line, which reads back as the job when it is readable |

## Findings

| source | as written | input that shows it | evidently intended | confidence | as-written member | corrected member |
|---|---|---|---|---|---|---|
| src/arrays.py:101 | the strategy's result is always unpacked into `years, variables, levels` | leaving out `--index`: the strategy returns the job count, an `int` (15 for five years and three variables), and unpacking it raises TypeError | print the job count, so that a batch array can be sized from the command line | high; not executed | Render.RenderAnswerAsWritten (shown by Render.CountOutputFails) | Render.RenderAnswer |

## Left out

- `download` in both download scripts is left out: it builds a request for a remote archive client and makes a blocking network call.
- The command-line entry points are left out: argument parsing, strategy dispatch (`src/arrays.py:73-99`), logging setup and `sys.exit`. As written, the dispatch also passes `n_years` to the one-year strategy, which takes no such argument.
- The year-range checks against the current date are left out, because they depend on the wall clock.
- The latitude and longitude checks are left out, because they compare floating-point values.
- The `pd.Timedelta` to hours conversion is left out (float arithmetic over pandas). The lead-time functions take whole hours.
- LeadTimes.HoursOf: divides whole seconds exactly and truncates toward zero, so it does not model float rounding of `total_seconds() / 3600`.
- `pdtimedelta` argument parsing is left out.
- `src/convert_zarr.py` is left out: it is dataset I/O through libraries.
- The ERA5 `as_list` (`list(x)` without string conversion) is left out.
- LeadTimes.AsList: models a list argument and a bare string only. Other non-list iterables, such as tuples, are not modelled.
- Render.RenderJob: takes years and levels that are already strings. The command line passes strings, so `str(y)` is the identity.
- The trailing newline of `print` is not modelled.
- Determinism of repeated calls is not stated as a lemma: every member is a pure function, so identical inputs give identical outputs by construction.
