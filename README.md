# GameLauncher icon cache, modelled in Dafny

GameLauncher is a small Windows launcher. Its configuration file lists applications, one per
line, as `exe | key=value | ...`. For each application the launcher shows a button with an
icon, and it gives its own window an icon. The icons come from `.exe` and `.ico` files. They
are converted once, by hidden PowerShell scripts, into a cache directory `.<launcher name>`
next to the launcher. A metadata file `cache.json` in that directory records the configuration's
modification time. On the next start, everything is converted again if that time changed or
if any expected icon is missing.

This project models the core of that behaviour and proves properties of the model:

- **`Config`** (`config.dfy`): the parser of the `items` value in `read_config`. It filters
  the lines, splits the fields and maps `elevated` to a boolean. There is also a writer for
  records: an independent partner that the parser is proved to invert.
- **`Paths`** (`paths.dfy`): the `pathlib` operations the launcher relies on. These are
  `is_absolute`, joining to the launcher's directory, and `name`, `stem` and `suffix`, as
  Windows `pathlib` defines them in Python 3.12 and 3.13.
- **`IconPolicy`** (`iconpolicy.dfy`): the first half of `ensure_icons`. It derives the
  window target and the worklist of button targets `(kind, source, output)` from the
  configured paths.
- **`Cache`** (`cache.dfy`): the second half of `ensure_icons`, built on a class
  `CacheStore`. Its fields are the set of files in the cache directory, the stored
  modification time (`Option<int>`; None when `cache.json` is absent or unreadable), and a
  log of the removals, converter runs and metadata writes performed. It covers the staleness
  check, the regeneration pass, and the converters' success rule.
- **`Text`** (`text.dfy`) and **`Wrappers`** (`wrappers.dfy`) hold the Python string
  operations the parser and the classifier use (`strip`, `lower`, `split`, `splitlines`, and
  the first-`=` search behind `"=" in p` and `split("=", 1)`), the `join` that only the
  record writer uses, `Option`, and a generic filter-map.

Inputs that come from outside the program are parameters:

- the text of the `items` value;
- the configuration's modification time (None when the file does not exist);
- for each converter run in a pass, what it does (`Attempt`). This says whether removing the
  old output failed, and whether the script never started or exited with some code, and
  whether it wrote the output;
- what writing `cache.json` does (`WriteOutcome`).

Two points of the code's behaviour are easy to misread, and the model keeps both:

- Any regeneration removes and re-converts **every** target, including icons that still
  exist (GameLauncher.py:242-261). A single missing icon therefore causes a full pass, and
  after a failure that leaves an icon missing the next start redoes everything, not only
  that icon (`Cache.FailedOutputIsRetried`). A run that fails but still leaves a file behind
  (an output written before a non-zero exit, or an old file whose removal failed) is not
  retried: the file exists, so the next scan finds nothing missing
  (`Cache.LastAttemptDecides`, `Cache.IdleAfterCompletePass`).
  `Cache.CacheStore.EnsureIcons` and `Cache.TraceShape` state this.
- Absent or unreadable metadata is read as time 0 (`prev_meta.get("conf_mtime", 0)`,
  GameLauncher.py:171), and so is a missing configuration (GameLauncher.py:170). When both
  are absent the two times compare equal, and only missing icons trigger a regeneration;
  absent metadata with an existing configuration regenerates.
  `Cache.StoredMtime` and `Cache.CacheStore.NeedsRegeneration` follow the code.

## Model

| member | source | states |
|---|---|---|
| Text.IsSpace | GameLauncher.py:51 | definition of the character set `str.strip` removes (Python's `str.isspace`); used by `Text.LStripDrops`, `Text.RStripDrops` and `Text.StripTrimmed` |
| Text.IsLineBreak | GameLauncher.py:51 | definition of the break set of `str.splitlines`; its meaning is stated by `Text.SplitLinesBreak` and `Text.SplitLinesCrLf` |
| Text.Strip | GameLauncher.py:51 | definition of `str.strip` (also at 54, 60 and 190); its meaning is stated by `Text.LStripDrops`, `Text.RStripDrops`, `Text.StripTrimmed` and `Text.StripIsNoop` |
| Text.Lower | GameLauncher.py:60 | definition of `str.lower` on ASCII letters (also at 66, 181 and 197-203); its meaning is stated by `Text.LowerFacts` and `Text.LowerNoUpper` |
| Text.LowerFacts | GameLauncher.py:60 | lower-casing keeps the length, turns each capital into its small letter, keeps every other character, and leaves no capital |
| Text.LStripDrops | GameLauncher.py:51 | `lstrip` keeps a suffix of the string and removes only whitespace characters |
| Text.LStripFirst | GameLauncher.py:51 | after `lstrip` the string is empty or starts with a non-whitespace character |
| Text.RStripDrops | GameLauncher.py:51 | `rstrip` keeps a prefix of the string and removes only whitespace characters |
| Text.RStripLast | GameLauncher.py:51 | after `rstrip` the string is empty or ends with a non-whitespace character |
| Text.StripTrimmed | GameLauncher.py:51 | what `strip` returns has no whitespace at either end |
| Text.TrimmedStripNoop | GameLauncher.py:51 | `strip` returns a string unchanged when neither end is whitespace |
| Text.StripIsNoop | GameLauncher.py:51 | `strip(s) == s` exactly when neither end of `s` is whitespace (both directions) |
| Text.StripIdempotent | GameLauncher.py:190 | stripping again (the icon spec is stripped in `read_config` and again in `ensure_icons`) changes nothing |
| Text.LowerNoUpper | GameLauncher.py:60 | `lower` leaves a string without upper-case letters unchanged |
| Text.IndexOf | GameLauncher.py:58-59 | the index found is that of the first occurrence, or the length when there is none |
| Text.IndexOfAt | GameLauncher.py:59 | in `a + [c] + b` with no `c` in `a`, the first `c` is at index `|a|` |
| Text.SplitOn | GameLauncher.py:54 | `split` gives at least one piece, and no piece contains the separator |
| Text.SplitOnJoin | GameLauncher.py:54 | splitting undoes joining when no part contains the separator |
| Text.JoinSplitOn | GameLauncher.py:54 | joining the pieces of a split gives back the original string |
| Text.FirstBreak | GameLauncher.py:51 | the index found is that of the first line break, or the length when there is none |
| Text.SplitLines | GameLauncher.py:51 | no line produced by `splitlines` contains a line break |
| Text.SplitLinesJoin | GameLauncher.py:51 | lines without breaks, the last one non-empty, joined with `\n`, split back into the same lines (empty lines in between are kept) |
| Text.FirstBreakAt | GameLauncher.py:51 | the first line break after a break-free prefix is at the prefix's length |
| Text.SplitLinesCrLf | GameLauncher.py:51 | `\r\n` ends a line as a single break and does not start an empty line |
| Text.SplitLinesBreak | GameLauncher.py:51 | every other line break of `splitlines` (`\n`, a lone `\r`, `\x0b`, `\x0c`, `\x1c`-`\x1e`, `\x85`, U+2028, U+2029) ends a line as one character |
| Config.Truthy | GameLauncher.py:66 | definition of the `elevated` test: the lower-cased value is one of `1`, `true`, `yes`, `y`, `on`; its meaning in a record is stated by `Config.ReadItems` |
| Config.FieldOf | GameLauncher.py:58-60 | definition of one `key=value` field; its meaning is stated by `Config.FieldOfAssign`, `Config.FieldWithoutEqualsIgnored` and `Config.FieldRoundTrip` |
| Config.RecordOf | GameLauncher.py:54-67 | definition of the record one entry line yields; `Config.ReadItems` ties it to the loop and `Config.RecordRoundTrip` shows it inverts the writer |
| Config.IsEntryLine | GameLauncher.py:51 | definition of the filter's test: the stripped line is non-empty and starts with neither `#` nor `;`; its meaning is stated by `Config.KeepOne` |
| Config.EntryLines | GameLauncher.py:51 | definition of `lines`: the stripped entry lines of `splitlines`, in order; its meaning is stated by `Config.Keep`, `Config.KeepAppend` and `Config.ItemsRoundTrip` |
| Config.LastField | GameLauncher.py:56-60 | definition of the dict after the option loop, key by key (the last field setting the key, if any); its meaning is stated by `Config.LastFieldWitness`, `Config.LastFieldAt`, `Config.LastFieldIsLastOccurrence` and `Config.LastFieldSnoc` |
| Config.FieldValue | GameLauncher.py:63-66 | definition of the lookups `meta[...]`: the last assigned value, or the default ""; `Config.ParseFields` shows the loop's map agrees with it |
| Config.Keep | GameLauncher.py:51 | every kept line is non-empty, does not start with `#` or `;`, and is already stripped; there are never more lines than before |
| Config.KeepAppend | GameLauncher.py:51 | filtering a concatenation filters each half: the order of lines is kept and nothing is merged |
| Config.KeepOne | GameLauncher.py:51 | a line yields its stripped self exactly when its stripped text is non-empty and not a comment, and nothing otherwise |
| Config.Parts | GameLauncher.py:54-55 | a line always has a first field, which is the `exe` |
| Config.LastFieldWitness | GameLauncher.py:57-60 | a key's value comes from a field that sets the key, and no later field sets it |
| Config.LastFieldAt | GameLauncher.py:57-60 | the last field setting a key decides its value |
| Config.LastFieldIsLastOccurrence | GameLauncher.py:57-60 | a key has value `v` exactly when some field sets it to `v` and no later field sets it (both directions): later duplicates override |
| Config.LastFieldSnoc | GameLauncher.py:57-60 | one more field changes the value of exactly the key it sets |
| Config.FieldWithoutEqualsIgnored | GameLauncher.py:58 | a field without `=` is ignored |
| Config.FieldOfAssign | GameLauncher.py:58-60 | a field `k=v` with no `=` in `k` gives the key `k` stripped and lower-cased and the value `v` stripped, with any `=` in `v` kept |
| Config.FieldRoundTrip | GameLauncher.py:58-60 | a stripped lower-case key and a stripped value, written as `key=value`, parse back to themselves, also when the value itself contains `=` |
| Config.ParseFields | GameLauncher.py:56-60 | the options are the four default keys plus every key some field sets; each key maps to the value of the last field setting it, or to "" |
| Config.ReadItems | GameLauncher.py:50-68 | each entry line yields exactly one record, in order, whose `exe` is the first stripped field and whose options follow `ParseFields`; `elevated` is true exactly when the lower-cased value is `1`, `true`, `yes`, `y` or `on` |
| Config.PartsOfFormatLine | GameLauncher.py:54 | the stripped `|` fields of a written record are exactly the fields written |
| Config.DistinctKeysFound | GameLauncher.py:57-60 | when each field sets a different key, each key gets its own field's value |
| Config.RecordRoundTrip | GameLauncher.py:53-67 | a record written as `exe|args=..|title=..|icon=..|elevated=..` is read back as the same record |
| Config.FormatLineIsEntry | GameLauncher.py:51 | a written record is a single line that the filter keeps unchanged |
| Config.ItemsRoundTrip | GameLauncher.py:50-68 | records written one per line read back as the same records, in the same order |
| Paths.IsAbsolute | GameLauncher.py:179 | definition of `is_absolute` (a drive, i.e. any non-separator character and `:`, followed by a separator; also at 188 and 195); its meaning is stated by `Paths.ResolveAbsolute` |
| Paths.Join | GameLauncher.py:180 | definition of `BASE / p` (also at 189 and 196); its meaning is stated by `Paths.NameOfJoin` and `Paths.ResolveAbsolute` |
| Paths.Name | GameLauncher.py:201 | definition of `Path.name`, under `suffix` (181) and `stem` (201, 204, 208); its meaning is stated by `Paths.NameFacts` and `Paths.NameOfJoin` |
| Paths.Resolve | GameLauncher.py:178-180 | definition of resolution (`p` if absolute, otherwise `BASE / p`; the same code is at 187-189 and 194-196); its meaning is stated by `Paths.ResolveAbsolute`, `Paths.ResolveIdempotent` and `Paths.ResolveKeepsName` |
| Paths.Suffix | GameLauncher.py:181 | definition of `Path.suffix`; its meaning is stated by `Paths.StemSuffixOfDotted` and `Paths.StemSuffixSplitName` |
| Paths.Stem | GameLauncher.py:201 | definition of `Path.stem`; its meaning is stated by `Paths.StemSuffixOfDotted` and `Paths.StemSuffixSplitName` |
| Paths.LastIndexOf | GameLauncher.py:181 | the index found is that of the last occurrence, or -1 when there is none |
| Paths.NameFacts | GameLauncher.py:201 | the name is the separator-free tail of the path that starts at the beginning or after a separator |
| Paths.NameOfJoin | GameLauncher.py:180 | joining a non-empty relative path to the base keeps its name |
| Paths.StemSuffixOfDotted | GameLauncher.py:181 | a name `s.t` with `s` and `t` non-empty and no dot in `t` has suffix `.t` and stem `s`: the suffix starts at the last inner dot |
| Paths.StemSuffixSplitName | GameLauncher.py:201 | `stem + suffix == name`; a non-empty suffix starts with its only dot, and its stem is non-empty |
| Paths.ResolveAbsolute | GameLauncher.py:178-180 | with an absolute base, resolution gives an absolute path and keeps absolute paths unchanged |
| Paths.ResolveIdempotent | GameLauncher.py:187-189 | resolving an already resolved path yields the same path |
| Paths.ResolveKeepsName | GameLauncher.py:194-197 | resolution keeps a non-empty path's name, stem and suffix, so classification and naming of a relative spec are those of the spec as written |
| IconPolicy.CacheDir | GameLauncher.py:31 | definition of `CACHE_DIR`, `.<SELF_NAME>` inside `BASE`; used by `IconPolicy.ButtonPath` and `IconPolicy.WindowIconPath` |
| IconPolicy.ButtonPath | GameLauncher.py:201-208 | definition of `CACHE_DIR / f"btn_{stem}.png"`; its meaning is stated by `IconPolicy.AppTargetOf` and `IconPolicy.ButtonPathInjective` |
| IconPolicy.WindowIconPath | GameLauncher.py:182 | definition of `CACHE_DIR / "window_icon.ico"`; its meaning is stated by `IconPolicy.WindowTargetIff` and `IconPolicy.WindowOutputDistinct` |
| IconPolicy.Classify | GameLauncher.py:197-203 | definition of the case-insensitive suffix test (`.png`, `.ico`, `.exe`, anything else; also at 181); its meaning is used and stated by `IconPolicy.AppTargetCases`, `IconPolicy.WindowTargetIff` and `IconPolicy.TargetKinds` |
| IconPolicy.WindowTargetOf | GameLauncher.py:176-183 | definition of the window target; its meaning is stated by `IconPolicy.WindowTargetIff` |
| IconPolicy.AppTargetOf | GameLauncher.py:186-209 | every target is named `btn_<stem of its source>.png` in the cache directory |
| IconPolicy.AppTargets | GameLauncher.py:186-209 | there are at most as many targets as applications, each named after its source's stem |
| IconPolicy.DeriveTargets | GameLauncher.py:173-209 | the loop computes exactly the window target and the worklist of the policy functions |
| IconPolicy.AppTargetCases | GameLauncher.py:190-209 | an empty icon spec gives `("exe", app exe, btn_<exe stem>.png)`; the spec classified case-insensitively gives `"ico"` for `.ico` and `"exe"` for `.exe`, both with `btn_<spec stem>.png`; `.png` and any other suffix give no target (both directions); an empty `exe` with no icon spec is the path `.`, which gives `("exe", BASE, btn_<BASE stem>.png)` |
| IconPolicy.WindowTargetIff | GameLauncher.py:176-183 | a window target exists exactly when the spec is non-empty with suffix `.exe` in any case, and it is then always `window_icon.ico` in the cache directory; an `.ico` spec gives none |
| IconPolicy.AppTargetsAppend | GameLauncher.py:186-209 | the worklist of a concatenation is the concatenation of the worklists: application order is kept |
| IconPolicy.AppTargetsOne | GameLauncher.py:186-209 | each application contributes its own target, if it has one, and nothing else |
| IconPolicy.TargetKinds | GameLauncher.py:200-202 | only a source with suffix `.ico` is given the `"ico"` mode |
| IconPolicy.AppTargetAbsolute | GameLauncher.py:187-196 | with an absolute base, a target's source and output are absolute |
| IconPolicy.TargetsAbsolute | GameLauncher.py:187-196 | with an absolute base, every source and output in the worklist is absolute |
| IconPolicy.ButtonPathInjective | GameLauncher.py:201-208 | two sources share a button image exactly when their stems are equal, so same-stem sources collide as in the code |
| IconPolicy.WindowOutputDistinct | GameLauncher.py:182 | the window icon is never the same file as a button image |
| Cache.ExitCode | GameLauncher.py:73-83 | definition of `run_powershell_hidden`'s result: the script's exit code, or 1 when it could not be started; `Cache.CacheStore.Convert` states that such a run never succeeds |
| Cache.WindowJob | GameLauncher.py:244-250 | definition of the window step: extract an `.ico` from the executable; its meaning is stated by `Cache.JobsShape` |
| Cache.TargetJob | GameLauncher.py:258-261 | definition of the kind dispatch: `"exe"` extracts a PNG, `"ico"` converts; its meaning is stated by `Cache.JobsShape` and `Cache.JobOutputs` |
| Cache.Jobs | GameLauncher.py:242-261 | definition of the pass's order, the window job first and then the targets; its meaning is stated by `Cache.JobsShape` and `Cache.JobOutputs` |
| Cache.AfterAttempt | GameLauncher.py:253-261 | definition of one step's effect on the files (removal unless it fails, then whatever the run wrote); `Cache.CacheStore.Produce` computes it and `Cache.LastAttemptDecides` states its consequence |
| Cache.FilesAfter | GameLauncher.py:242-261 | definition of the files after the pass; `Cache.CacheStore.RunJobs` computes it and `Cache.FilesAfterFrame`, `Cache.LastAttemptDecides` and `Cache.AllWrittenPresent` state its meaning |
| Cache.Trace | GameLauncher.py:242-261 | definition of what the pass records; its meaning is stated by `Cache.TraceShape` |
| Cache.MetaAfter | GameLauncher.py:159-163 | definition of the metadata after `save_cache_meta` for each write outcome; `Cache.CacheStore.SaveMeta` computes it and `Cache.IdleAfterCompletePass` uses it |
| Cache.AllPresent | GameLauncher.py:215-220 | definition of "every button image and the needed window icon exist"; used by `Cache.NeedsRegen` and stated by `Cache.AllWrittenPresent` and `Cache.IdleAfterCompletePass` |
| Cache.Succeeded | GameLauncher.py:99 | definition of a converter's success: exit code 0 and the output exists (also 114 and 131); `Cache.CacheStore.Convert` states it for each run |
| Cache.StoredMtime | GameLauncher.py:171 | definition of the stored time, 0 when the metadata is absent or unreadable; used by `Cache.CacheStore.NeedsRegeneration` and `Cache.IdleAfterCompletePass` |
| Cache.NeedsRegen | GameLauncher.py:211-220 | definition of staleness: the times differ or an output is missing; `Cache.CacheStore.NeedsRegeneration` shows the scan computes it, and `Cache.IdleAfterCompletePass` and `Cache.FailedOutputIsRetried` state when it holds |
| Cache.CacheStore.Delete | GameLauncher.py:246-249 | removing an output deletes it, whether or not it existed; a failed removal is swallowed and leaves it in place |
| Cache.CacheStore.Convert | GameLauncher.py:73-131 | the run may or may not write the output; the converter reports success exactly when the exit code is 0 and the output exists afterwards; a run that could not start (exit code 1) never succeeds |
| Cache.CacheStore.SaveMeta | GameLauncher.py:159-163 | a write stores `{"conf_mtime": now}`; a failed write is swallowed and leaves the old metadata or an unreadable file |
| Cache.CacheStore.NeedsRegeneration | GameLauncher.py:211-220 | regeneration is needed exactly when the current time differs from the stored one (absent metadata read as 0) or some button output or the window output is missing; the store is not changed |
| Cache.CacheStore.Produce | GameLauncher.py:253-261 | one step removes the output and then runs its converter once, ignoring the result |
| Cache.CacheStore.RunJobs | GameLauncher.py:242-261 | the jobs run in order, each exactly once, and a failure does not stop the loop |
| Cache.CacheStore.Regenerate | GameLauncher.py:242-264 | the pass handles the window icon first and then every target, then saves the new time regardless of the conversions' outcomes |
| Cache.CacheStore.EnsureIcons | GameLauncher.py:165-264 | regenerates exactly when the cache is stale; a fresh cache is left untouched (no removal, no conversion, no metadata write); a stale one is regenerated in full |
| Cache.JobsShape | GameLauncher.py:244-261 | the pass has the window job first with the icon extractor, then one job per target in order, with the PNG extractor for `"exe"` and the converter for `"ico"` |
| Cache.PassStep | GameLauncher.py:253-261 | step lemma of `Cache.CacheStore.RunJobs`: one more job adds its attempt to the files and its removal and conversion to the trace |
| Cache.JobOutputs | GameLauncher.py:182-209 | every job writes the window icon or the output of some target |
| Cache.TraceShape | GameLauncher.py:253-261 | for each job in order, the pass records the removal of its output followed by exactly one conversion, including outputs that already existed |
| Cache.FilesAfterFrame | GameLauncher.py:242-261 | a file that no job produces is present after the pass exactly when it was before |
| Cache.LastAttemptDecides | GameLauncher.py:253-261 | an output exists after the pass exactly when its last run wrote it, or that removal failed and it existed just before |
| Cache.AllWrittenPresent | GameLauncher.py:242-261 | when every run writes its output, every output exists after the pass |
| Cache.IdleAfterCompletePass | GameLauncher.py:211-223 | after a pass in which every run wrote and the metadata was written, the next check finds nothing to do |
| Cache.FailedOutputIsRetried | GameLauncher.py:211-220 | an output whose last run did not write it (and whose removal succeeded) is missing afterwards, so the next start regenerates whatever the stored time |

## Left out

- `pathlib` as other Python versions define it: before 3.12 only an ASCII letter forms a drive, and from 3.14 a single trailing dot is a suffix. `Paths.IsAbsolute` and `Paths.Suffix` follow 3.12 and 3.13.
- High-DPI setup through `ctypes.windll` (GameLauncher.py:13-22): foreign operating-system calls.
- The Tk user interface, the splash window and its progress bar (`root_for_splash`, GameLauncher.py:225-240, 265-267): user-interface code with no effect on the cache.
- The PowerShell script bodies, `subprocess.run` and System.Drawing (GameLauncher.py:76-80, 88-97, 104-112, 119-129): each run is an oracle value (`Attempt`), so what a script does with its source file is free. A missing source is just a run that fails.
- `get_exe_file_description` and the title fallback that uses it (GameLauncher.py:133-148): an external process.
- `launch_normal`, `launch_elevated` and `shlex` tokenisation (GameLauncher.py:270-287): process spawning.
- Reading the configuration file: `ConfigParser`, the existence check with `sys.exit(4)`, the `[meta]` title and window icon lookups (GameLauncher.py:36-48). `ConfigParser`'s own handling of multi-line values is also left out. The `items` value and the window-icon spec are given as strings.
- `CACHE_DIR.mkdir` at start-up (GameLauncher.py:32): the cache directory is assumed to exist.
- JSON encoding of `cache.json` (GameLauncher.py:154, 161): the metadata is `Option<int>`. A `cache.json` holding valid JSON that is not an object makes `.get` raise in the code; the model does not cover that. A `conf_mtime` of another JSON type is not modelled either.
- Floating-point `st_mtime`: modification times are integers, only compared for equality.
- `pathlib` details beyond drive-absolute paths:
  - `.` / `..` normalisation, symbolic links, and separator normalisation;
  - UNC paths, drive-relative paths such as `C:x`, and root-relative paths such as `\x`;
  - trailing separators;
  - Windows' case-insensitive file names. The cache's file set compares paths exactly.
- `Text.LowerChar`: lower-cases ASCII letters only, not the whole of Unicode as Python's `str.lower` does.
- `load_icon_image` and `apply_window_icon` (GameLauncher.py:332-433): they produce Tk images.
- `IconPolicy.DeriveTargets`: the window target is computed by `WindowTargetOf` rather than by the three-line `if` of the code. It asks for the application's target through `AppTargetOf`, whose branches are the code's `if`/`elif` chain. The per-app `continue` is an append that adds nothing.
- `Cache.CacheStore.Regenerate`: the window job and the target jobs run as one loop over the combined job list (`Jobs`, window first). The code has a separate `if` for the window followed by the target loop. `Cache.JobsShape` states that the order is the same.
