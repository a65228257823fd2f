# gmetrics core in Dafny

This project models the core of `gmetrics.py`. That program is a
long-running agent that collects GlusterFS metrics on a node and sends them
to Graphite as `(key, value, timestamp)` samples. The model covers four parts
of it:

- **The `local_io` dump-file parser** (`dump.dfy`, module `DumpParser`).
  - A glusterfs dump file is classified line by line.
  - The classified lines go through the `proc_id` state machine of
    `local_io_metrics`: the `# glusterd` terminator, the
    `### BrickName: ` and `### MountName: ` markers, `#` comments, and
    `name value` lines.
  - The pass over all dump files shares one timestamp and removes each
    file after it has been parsed.
  - Python's `IndexError` on a line without a space is modelled as an
    error value. It names the line and carries what was already sent.
- **The `Config` store** (`config.dfy`, module `Config`).
  - Covers `get` with its three sources: the defaults, the default
    argument and the file.
  - Covers the `TYPECAST_MAP` casts `to_strlist` and `to_int`.
  - Covers `load`, the constructor, and the mtime test in `reload`.
- **The `main` loop** (`scheduler.dfy`, module `Scheduler`).
  - The `enabled_metrics` default ("empty or absent means all").
  - The `prefix.hostname.group` join after a reload.
  - The lookup of `<name>_metrics` collectors, which skips unknown names.
  - The interval handed to `time.sleep`.
  - Successive iterations against successive states of the config file.
- **The shaping collectors** (`shaping.dfy`, module `Shaping`).
  - `local_diskstats_metrics`, `local_utilization_metrics` and
    `local_process_metrics` turn provider records into key prefixes and
    blocks of samples.
  - The process collector filters on the process name.
  - A `KeyError` on a missing field is modelled as an outcome that
    carries the samples sent before it.

Shared pieces:

- `metrics.dfy` (module `Metrics`) holds the sample type, the registry
  `AVAILABLE_METRICS` and the three metric-name lists.
- `pystr.dfy` (module `PyStr`) holds the Python 2 string operations the
  code relies on: `strip`, `split`, `in` on strings and `int()`.
- `wrappers.dfy` holds `Option` and `Result`.

Values in the model:

- Strings are `seq<char>`.
- Whitespace is Python 2's `str.isspace` on ASCII.
- A sample value is opaque text. The Python type of what `g.send`
  receives is not modelled.

Where the code and the prose design of the system disagree, the model
follows the code:

- **A line that raises stops the pass.** The design says every dump file
  is deleted after parsing, whatever happens. In the code, an `IndexError`
  on a line leaves the `with` block before `os.remove`. That file, and
  every file after it, stays on disk, and the exception ends `main`.
  `IoPass` models this.
- **Metric lines split on single spaces.** The design describes them as
  whitespace-separated pairs. The code splits on one space
  (`line.split(" ")`) and takes piece 1.
  - `writes  42`, with two spaces, sends an empty value.
  - A line with no space raises. This includes a blank line, which is
    `"\n"`.
- **The terminator may appear anywhere in a line.** The end of a file's
  data is any line that contains `# glusterd`. The marker need not start
  the line. This test comes before the BrickName and MountName tests.
- **Zero is a valid interval.** The design calls the interval a positive
  number. The code passes any integer to `time.sleep`: 0 is accepted and a
  negative value raises.
- **A missing record field ends the program.** The design lists this as a
  recoverable error. The code lets the `KeyError` end `main`. The model
  returns the missing field together with what was sent before it.
- **A config file that cannot be read ends the program.** The design
  treats a failed read during a later `reload()` as "not yet reloaded".
  In the code, `os.lstat` or `open` raising inside `reload()`
  (gmetrics.py:132-141) is not caught, so the exception ends `main`. The
  model's file snapshot always holds an mtime and settings, so it cannot
  express a failed read.

## Model

| member | source | states |
|---|---|---|
| PyStr.Strip | gmetrics.py:66 | the result has no whitespace at either end, is empty exactly when the input is all whitespace, and leaves an already stripped string unchanged |
| PyStr.StripPadding | gmetrics.py:71 | whitespace added around a string does not change what `strip()` returns |
| PyStr.Split | gmetrics.py:70 | `split` returns at least one piece, more than one exactly when the separator occurs, and no piece holds the separator |
| PyStr.SplitCount | gmetrics.py:70 | `split` returns one more piece than there are separators |
| PyStr.JoinSplit | gmetrics.py:70 | joining the pieces of `split` with the separator rebuilds the string |
| PyStr.SplitJoin | gmetrics.py:275 | splitting a join of separator-free parts gives back the parts |
| PyStr.ContainsIff | gmetrics.py:160 | the recursive substring test (Python's `in`) holds exactly when the substring occurs at some index |
| PyStr.ParseIntRoundTrip | gmetrics.py:75 | `int()` reads back the decimal text of any integer, whatever whitespace surrounds it |
| PyStr.ParseInt | gmetrics.py:74-75 | `int()` accepts exactly the text that, once stripped, is one or more ASCII digits, optionally after a sign and whitespace (`IntSyntax`); all-digit text reads as its decimal value, and signed text as the digits' value with the sign applied |
| PyStr.ParseSignedSyntax | gmetrics.py:75 | the sign-aware reader accepts exactly the text that `IntSyntax` describes, and for signed text returns the digits' value with the sign applied |
| PyStr.SignThenSpace | gmetrics.py:75 | on already stripped text, a sign, then whitespace, then the decimal text of a natural number (no leading zeros) reads as that number with the sign applied, because Python 2's `int()` skips whitespace after the sign |
| PyStr.SpacedSigns | gmetrics.py:75 | `int("+ 5")` is 5 and `int("- 5")` is -5 |
| PyStr.Join | gmetrics.py:275 | `sep.join(parts)` starts with the first part; a single part comes back unchanged; with more parts the separator follows the first part |
| Config.ToStrList | gmetrics.py:65-71 | `to_strlist` returns the empty list exactly for blank text; otherwise it returns one item per comma plus one; every item is stripped and holds no comma |
| Config.ToStrListFields | gmetrics.py:65-71 | for text made of comma-separated fields that is not blank, `to_strlist` returns one item per field, and item `i` is field `i` stripped, whatever whitespace surrounds it |
| Config.ToStrListJoin | gmetrics.py:65-71 | `to_strlist` of comma-joined stripped, comma-free items returns those items |
| Config.JoinNotBlank | gmetrics.py:67-68 | a comma join of stripped items is never blank unless it is the single empty item, so `to_strlist` returns `[]` only for blank text |
| Config.Cast | gmetrics.py:79-82 | only `interval` can fail; it fails exactly when `int()` rejects the text |
| Config.Get | gmetrics.py:104-119 | with no file the value comes from `DEFAULT_CONFIG` or else the default argument; with a file but nothing loaded, or the option absent, the default argument; otherwise the cast of the file's text; only `interval` can raise |
| Config.Load | gmetrics.py:121-130 | without a file nothing changes; with one, the file's settings are installed and its mtime is remembered |
| Config.LoadThenGet | gmetrics.py:104-130 | after a load, `get` returns the cast of the file's text for an option the file sets, and the caller's default for one it does not |
| Config.New | gmetrics.py:97-102 | with a file, the constructor loads its settings but forgets the mtime; without one it loads nothing |
| Config.Reload | gmetrics.py:132-141 | with no file, nothing changes and the result is False; the first time, it always reloads; later, it reloads exactly when the mtime strictly grew; a reload stores the new settings and mtime, and no reload changes nothing |
| Config.FirstReloadAlwaysReloads | gmetrics.py:97-141 | the first `reload()` after construction reloads, because the constructor cleared `prev_mtime`, and it installs the file's current settings |
| Config.ReloadSettles | gmetrics.py:136-141 | a second `reload()` against an unchanged file does nothing |
| Config.ReloadAllWithoutFile | gmetrics.py:132-134 | without a file no call of `reload()` in a sequence ever reloads |
| Config.ReloadHistory | gmetrics.py:97-141 | from construction, call `i` in a sequence reloads exactly when its mtime is newer than every earlier call's mtime |
| Config.ReloadHistoryFrom | gmetrics.py:132-141 | after a load with mtime `m`, call `i` reloads exactly when its mtime is above `m` and above every earlier call's mtime |
| DumpParser.ColonField | gmetrics.py:164 | `line.split(":")[1].strip()` is stripped and holds no colon |
| DumpParser.ColonFieldBetween | gmetrics.py:164 | the field between the first colon and the next colon (or the end of the line) is what `split(":")[1].strip()` returns |
| DumpParser.MetricFieldsBetween | gmetrics.py:174-176 | a metric line's name is the text before the first space, and its value is the stripped text between the first and the second space |
| DumpParser.BodyOf | gmetrics.py:171-177 | a line is a comment exactly when it starts with `#`; it is a metric exactly when it is non-empty, does not start with `#`, and holds a space; a metric's name holds no space and its value is stripped |
| DumpParser.Lex | gmetrics.py:160-172 | a line is the terminator exactly when it contains `# glusterd`; otherwise it is a BrickName line exactly when it contains the brick marker; otherwise a MountName line exactly when it contains the mount marker; a marker line holds a colon and carries `split(":")[1].strip()` as its id; the rest carry their body |
| DumpParser.TerminatorIndex | gmetrics.py:160-161 | the first terminator line, or the end of the file when there is none |
| DumpParser.Parse | gmetrics.py:157-178 | one file, from the `(null)` id: every sample carries the pass timestamp; the result is that of the lines before the first terminator; each such line sends at most one sample; an exception names one of them whose body is malformed, after at most as many samples as its index |
| DumpParser.ParseKinds | gmetrics.py:157-178 | every sample sent, including those sent before an exception, carries the pass timestamp |
| DumpParser.ParseShape | gmetrics.py:157-178 | at most one sample per line before the terminator; an exception names a line before the terminator that has no space, and at most as many samples as that line's index were sent before it |
| DumpParser.IoKeys | gmetrics.py:176 | every key sent starts with `.io.` |
| DumpParser.TerminatorCut | gmetrics.py:160-161 | nothing after a terminator line changes the result |
| DumpParser.ParseStopsAtTerminator | gmetrics.py:158-161 | parsing a file is parsing its lines up to the first line containing `# glusterd` |
| DumpParser.CommentsSendNothing | gmetrics.py:163-172 | terminator, BrickName and comment lines send nothing and never raise |
| DumpParser.CommentFileSendsNothing | gmetrics.py:171-172 | a file of `#` lines without markers sends nothing |
| DumpParser.MetricBlock | gmetrics.py:174-178 | a run of `name value` lines sends one sample per line, in order, keyed `.io.<id>.<name>` with the stripped value |
| DumpParser.UnmarkedFile | gmetrics.py:157 | a file without markers sends its samples under the id `(null)` |
| DumpParser.MissingValueRaises | gmetrics.py:174-177 | a line without a space raises `IndexError` at that line, after the samples of the lines above it were sent |
| DumpParser.BrickOverrides | gmetrics.py:163-165 | a BrickName line sends nothing and puts its id in force, whatever id was in force before it |
| DumpParser.BrickNamesProcess | gmetrics.py:163-178 | a leading BrickName line sets the id to the field after its colon, and the following metric lines are keyed by it |
| DumpParser.MountNamesProcess | gmetrics.py:167-169 | a leading MountName line sets the id to the field after its colon, and the following metric lines are keyed by it |
| DumpParser.MountIgnored | gmetrics.py:167-172 | once the id is no longer `(null)`, a MountName line is handled as the ordinary line it is, so its own id never takes effect |
| DumpParser.BrickBeatsMount | gmetrics.py:163-169 | at the head of a file, a BrickName line whose id is not `(null)` and a MountName line that starts with `#`, in either order, send nothing and leave the brick's id in force |
| DumpParser.Sweep | gmetrics.py:155-182 | the pass raised exactly when not every file was removed |
| DumpParser.IoPass | gmetrics.py:153-182 | every sample of the pass carries the one timestamp; the removed files are a prefix of the globbed files; all are removed exactly when no line raised |
| DumpParser.IoPassClean | gmetrics.py:153-182 | when no file raises, the pass sends each file's own parse, from the `(null)` id, in glob order, and removes every file |
| DumpParser.IoPassRaises | gmetrics.py:153-182 | when file `k` is the first to raise, the pass sends the samples of the files before it, then what file `k` sent before its exception; it removes only the files before it and reports the failing line |
| DumpParser.SweepRemovesInOrder | gmetrics.py:181 | the removed files are a prefix of the globbed files |
| DumpParser.IoPassAppend | gmetrics.py:155-157 | when the first files raise nothing, a pass over more files sends and removes the first files' results followed by the rest's |
| Shaping.KeyPrefix | gmetrics.py:192-228 | a prefix exists exactly when the collector accepts the record (every brick record; only glusterd and glusterfsd processes), and it ends in a dot |
| Shaping.Project | gmetrics.py:195-196 | one sample per metric name, in list order, keyed by the prefix followed by the name, valued by that field, under the collector's timestamp |
| Shaping.Emit | gmetrics.py:192-196 | the number of samples is the number of accepted records times the number of metric names, all under one timestamp |
| Shaping.Collect | gmetrics.py:185-231 | the reference collector over complete records: every sample carries the call's timestamp (`EmitAt` and `CollectAppend` give the order and the contents) |
| Shaping.FirstMissing | gmetrics.py:193 | the first absent field: none exactly when all are present, and otherwise a listed field absent from the record with every field listed before it present |
| Shaping.ProjectUntil | gmetrics.py:195-196 | the inner loop sends the names before the first absent one, in order, then raises with that name; with none absent it sends the whole block |
| Shaping.RecordBlock | gmetrics.py:220-231 | one record raises exactly when it lacks a field the collector reads, after fewer samples than a full block |
| Shaping.CollectUntil | gmetrics.py:219-231 | everything a collector call sends carries its one timestamp |
| Shaping.CollectUntilRaises | gmetrics.py:192-196 | a collector call raises `KeyError` exactly when some record lacks a field the collector reads |
| Shaping.CollectUntilAgrees | gmetrics.py:192-196 | on complete records a collector call raises nothing and sends exactly the blocks of the reference `Collect` |
| Shaping.MissingFieldStops | gmetrics.py:192-196 | the first incomplete record ends the call after the complete records before it have sent all their blocks, followed by less than one block of its own |
| Shaping.Diskstats | gmetrics.py:185-196 | raises exactly on an incomplete record; otherwise sends eleven samples per brick, all under one timestamp |
| Shaping.Utilization | gmetrics.py:199-210 | raises exactly on an incomplete record; otherwise sends seven samples per brick, all under one timestamp |
| Shaping.Processes | gmetrics.py:213-231 | raises exactly on an incomplete record; otherwise sends five samples per glusterd or glusterfsd record and none for other processes |
| Shaping.AllSent | gmetrics.py:192-196 | the brick collectors skip no record |
| Shaping.EmitAppend | gmetrics.py:192-196 | emitting two runs of records is emitting each in turn |
| Shaping.EmitAt | gmetrics.py:192-196 | when no record is skipped, sample `i * n + j` is metric name `j` of record `i` under that record's prefix |
| Shaping.DiskstatsAt | gmetrics.py:192-196 | sample `11 i + j` is `.diskstats.<volume>.<node_id>.<brick>.` followed by metric name `j` of brick `i`, with that field as its value |
| Shaping.UtilizationAt | gmetrics.py:206-210 | sample `7 i + j` is `.utilization.<volume>.<node_id>.<brick>.` followed by metric name `j` of brick `i`, with that field as its value |
| Shaping.CollectAppend | gmetrics.py:192-196 | collecting over two groups of records is collecting each in turn |
| Shaping.OtherProcessesSkipped | gmetrics.py:226-228 | a process record that is neither glusterd nor glusterfsd, or has no name, sends nothing and raises nothing |
| Shaping.GlusterdBlock | gmetrics.py:221-222 | a glusterd record sends its five metrics under `.ps.<node_id>.glusterd.` |
| Shaping.GlusterfsdBlock | gmetrics.py:223-225 | a glusterfsd record sends its five metrics under `.ps.<volname>.<node_id>.<brick_path>.glusterfsd.` |
| Shaping.KeyListsDistinct | gmetrics.py:32-62 | no metric name repeats within the list of any collector |
| Shaping.BlockKeysDistinct | gmetrics.py:185-231 | no two samples a collector sends for one record share a key, including those sent before a `KeyError` |
| Shaping.ProjectUntilKeysDistinct | gmetrics.py:195-196 | the samples the inner loop sends before an absent field have distinct keys when the metric names are distinct |
| Shaping.ProjectKeysDistinct | gmetrics.py:195-196 | within one block no two samples share a key when no metric name repeats |
| Scheduler.CollectorName | gmetrics.py:25-30 | every collector's name is in `AVAILABLE_METRICS` |
| Scheduler.Lookup | gmetrics.py:285-286 | `globals().get(m + "_metrics")` finds a collector exactly for the names in `AVAILABLE_METRICS`, and finds the one with that name |
| Scheduler.LookupName | gmetrics.py:285-286 | looking up a collector's own name finds that collector |
| Scheduler.ResolveEnabled | gmetrics.py:258-261 | a falsy `enabled_metrics` (absent, or an empty list) becomes every available collector; any other list is kept; the result is never empty |
| Scheduler.Enabled | gmetrics.py:258-261 | the enabled list is never empty |
| Scheduler.EnabledCases | gmetrics.py:278-281 | without a file every collector is enabled; with a file that lacks `enabled_metrics`, every collector is enabled; otherwise the `to_strlist` of the file's text is used, or every collector when it is blank |
| Scheduler.Known | gmetrics.py:284-286 | only names in the registry are kept, and never more names than were enabled |
| Scheduler.Dispatch | gmetrics.py:284-288 | the collectors run in the order of the enabled list, one per known name |
| Scheduler.DispatchAppend | gmetrics.py:284-288 | dispatching two lists in turn is dispatching their concatenation |
| Scheduler.DispatchCounts | gmetrics.py:284-288 | each collector runs as many times as its name is listed, so a repeated name runs it repeatedly and an unknown name runs nothing |
| Scheduler.DispatchAll | gmetrics.py:25-30 | the default list runs the four collectors in registry order |
| Scheduler.NewPrefix | gmetrics.py:270-275 | the Graphite prefix is the configured prefix (default `gmetrics`), the hostname and the configured group (default `gluster`), joined by dots |
| Scheduler.NewPrefixCases | gmetrics.py:270-275 | the prefix is the file's `prefix` option (or `gmetrics` when there is no file or no such option), the hostname, and the file's `group` option (or `gluster`), joined by dots |
| Scheduler.NewPrefixSplits | gmetrics.py:275 | when none of the three parts holds a dot, splitting the prefix on dots gives back the three parts |
| Scheduler.Startup | gmetrics.py:255-261 | the loop starts with the constructed config, the enabled list that config gives (`enabled_metrics`, or every collector when that is falsy), which is never empty, and the client's initial prefix |
| Scheduler.Interval | gmetrics.py:291 | the sleep is 15 seconds without a file or without `interval`; otherwise it is the file's integer, or an error when `int()` rejects the text or the number is negative |
| Scheduler.Step | gmetrics.py:264-291 | one iteration reloads exactly when `reload()` does; after a reload the enabled list and prefix are recomputed from the new config, and without one the state is unchanged; the enabled list's collectors run and then the interval is slept |
| Scheduler.Run | gmetrics.py:264-291 | the first iteration is `Step` on the initial state and each later one is `Step` on the state the previous one left; every iteration but the last slept; a run shorter than the file states ends with a failed sleep |
| Scheduler.RunWithoutFile | gmetrics.py:264-291 | without a config file every iteration runs the four collectors in registry order, never reloads, and sleeps 15 seconds |
| Scheduler.RunFixed | gmetrics.py:264-291 | from a state with no file and every collector enabled, all iterations are the same |
| Scheduler.FirstStepReloads | gmetrics.py:266-275 | with a config file the first iteration always reloads and switches the client to the configured prefix |
| Scheduler.RunReloads | gmetrics.py:266 | iteration `i` reloads exactly when call `i` of `reload()` on its own would |

## Left out

- Signalling the glusterfs processes (`os.system(... kill -USR2)`) and the
  one-second `time.sleep` before the parse have no effect on the parsed
  data. Neither is modelled.
- `time.time()` is a parameter: each collector receives the timestamp it
  took. The timestamp is a `real`, and the model only copies it.
- `glob.glob("/tmp/glusterfs.*")`, `open` and `os.remove` are left out.
  - The files are a sequence of names, each with its lines, in glob order.
  - Iterating a Python file yields lines that keep their `"\n"`. The model
    receives those lines.
  - A removal is recorded as the file's name.
  - A failure of `os.remove` itself is not modelled.
- Graphite is left out: `graphitesend.init`, the connection and `g.send`.
  - The samples sent form a sequence.
  - The prefix the client was created with is `None` in the loop state.
  - The client's own formatting, such as `fqdn_squash`, is outside the
    model.
- The `gluster.metrics` providers (`local_diskstats`,
  `local_utilization`, `local_processes`) are not part of this model. Their
  records are inputs, each a `map<string, string>`. Only the prefix fields
  go through `str.format`; `data[k]` reaches `g.send` as it is. The model
  treats every field as opaque text and does not model the Python types
  of the values.
- `ConfigParser` parsing is not modelled: the INI syntax, option-name
  lowercasing, the `DEFAULT` section, interpolation, a missing
  `[settings]` section, and unreadable files. A loaded file is the map of
  its `[settings]` options to their texts.
- `os.lstat` is modelled as one integer mtime per file state. The code
  stats the file twice during one reload, once in `reload` and once in
  `load`. The model reads one snapshot, so a write between the two stats
  is not modelled. Fractional mtimes are not modelled either.
- `argparse`, the `print` calls, `KeyboardInterrupt` and the endless
  `while True` are left out. `Run` covers finitely many iterations
  against given file states.
- Scheduler.Step: the collectors it runs are listed, not executed. What
  each one sends is given by `DumpParser.IoPass` and the `Shaping`
  collectors. An exception raised inside a collector, which would end
  `main`, is not connected to the loop state.
- `int()` is modelled for Python 2 byte strings (`str`), which is what
  `ConfigParser` returns: whitespace, an optional sign, optional
  whitespace, ASCII digits, whitespace. `int()` on `unicode` text is not
  modelled.
- Shaping.KeyPrefix: requires the prefix fields to be present.
  `Shaping.RecordBlock` is the total version: it raises `KeyError` on the
  first absent field.
