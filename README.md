# cloudgazer in Dafny

cloudgazer keeps a Nagios host configuration in step with the EC2 instances
it discovers. Each run it:

- compares the discovered hosts with a SQLite table of the hosts seen last
  time and updates that table;
- classifies every identifier as `added`, `removed` or
  `updated:<field>:<field>…`;
- when anything changed, rewrites the `cloudgazer_<value>.cfg` files,
  announces the change list over SNS, checks the Nagios configuration,
  restarts Nagios and schedules downtime.

This project models that reconciliation core and proves what it promises:

| module | file | models |
|---|---|---|
| `PyStr`, `PySort` | `py_str.dfy`, `py_sort.dfy` | The Python 2 string operations the core relies on: `find`, slicing, `strip`, `split`/`join`, `startswith`/`endswith`, `lower`, `%s` of a count, and `sorted` on strings. |
| `Store` | `store.dfy` | Host records as `map<string, string>`. The SQLite database as a `SqliteDb` object holding the `CREATE TABLE` text of `nagios_hosts` (if any) and its rows keyed by identifier. The configuration directory as a `ConfigDir` object holding a file map. |
| `NagiosSchema` | `nagios_schema.dfy` | The `CREATE TABLE` statement built by `Config.__init__`, and the parser that recovers column names from a stored statement. |
| `NagiosChanges` | `nagios_changes.dfy` | The specification of `updateDB`'s change list: differing fields, the `updated:` entry, added and removed hosts, and the resulting table. |
| `Nagios` | `nagios.dfy` | `Config` as a class over the database: the schema check, `getSQLHosts`, insert/overwrite/delete as map updates, and `updateDB`'s nested loops with `currentHosts2`, proved against `NagiosChanges`. |
| `NagiosWriter` | `nagios_writer.dfy` | `Writer`: the `.cfg` sweep, the split into one file per split value, the tab-aligned host block (Python 2 integer division), and `_getFileName`. |
| `NagiosLegacy` | `nagios_legacy.dfy` | The older `NagiosConfig`: the path check, the fixed three-column table, and the `alias`/`address`-only diff that writes nothing back. |
| `Notification` | `notification.dfy` | `Notify`: the enabled flag, the host-change report parsed back from the change list, the error text, and publication to the topic. |
| `Pipeline` | `pipeline.dfy` | `main` as a sequence of steps: the settings checks, the table update, then write → announce → check → restart → downtime, with the error notices. |

Python 2 leaves the iteration order of a dict unspecified. Wherever the
source iterates a dict, the model takes that order as a parameter (`order`,
`orders`, `keys`). The parameter must list each key exactly once
(`Store.IsListing`). The properties are proved for every such order. The
report, in particular, is proved not to depend on it.

Verification results and the Nagios restart are inputs to `Pipeline.Run`.

## Model

| member | source | states |
|---|---|---|
| PyStr.Find | cloudgazer/Nagios.py:37 | `find` is -1 exactly when the character is absent; otherwise it is the index of the first occurrence. |
| PyStr.SliceFrom | cloudgazer/Nagios.py:37 | A slice from a non-negative start is the suffix from that start, clamped to the length. |
| PyStr.SliceFromNegative | cloudgazer/Nagios.py:37 | A negative start counts from the end: the slice is the last `min(-i, len)` characters, the whole string when the start lies before it. |
| PyStr.LStrip | cloudgazer/Nagios.py:37 | `strip` leaves no stripped character at the front. |
| PyStr.RStrip | cloudgazer/Nagios.py:37 | `strip` leaves no stripped character at the back. |
| PyStr.Split | cloudgazer/Nagios.py:37-42 | `split` yields at least one piece, and no piece contains the separator. |
| PyStr.SplitJoin | cloudgazer/__init__.py:192 | Splitting a `join` on the same one-character separator gives back the parts, when no part contains it. |
| PyStr.NatToString | cloudgazer/__init__.py:197-199 | `%s` of a count is a non-empty string of decimal digits, with no leading zero, whose value is the count. |
| PySort.Sort | cloudgazer/__init__.py:197-199 | `sorted` returns a permutation of its input in ascending order. |
| PySort.SortedUnique | cloudgazer/__init__.py:197-199 | Two sorted permutations of the same elements are equal, so `sorted` has one possible result. |
| PySort.SortPermutationInvariant | cloudgazer/__init__.py:197-199 | `sorted` of any permutation of a list is the same list. |
| PySort.LessEqTotal | cloudgazer/__init__.py:197-199 | The string order `sorted` uses is total. |
| PySort.LessEqAntisymmetric | cloudgazer/__init__.py:197-199 | The string order is antisymmetric. |
| PySort.LessEqTransitive | cloudgazer/__init__.py:197-199 | The string order is transitive. |
| Store.RemoveFirstCount | cloudgazer/Nagios.py:71 | `list.remove` takes away exactly one occurrence of the value. |
| Store.Without | cloudgazer/__init__.py:192-195 | Filtering out the `updated` tokens keeps only tokens that were present and differ from `updated`. |
| NagiosSchema.FieldsMatch | cloudgazer/Nagios.py:36-47 | The loop over the stored columns, which removes each name from `checkFields`, accepts exactly when the non-`PRIMARY` column names equal the configured fields as a multiset. |
| NagiosSchema.ExtraFieldRejects | cloudgazer/Nagios.py:43-45 | A column name that is no longer in `checkFields` makes the stored names exceed the configured fields, so the early `break` is a rejection. |
| NagiosSchema.CreateTableRoundTrip | cloudgazer/Nagios.py:18-19 | Parsing the statement built at lines 18-19 recovers exactly the configured fields, in order. This holds when no field has a space, comma or parenthesis and none starts with `PRIMARY`. |
| NagiosSchema.ReopenAccepts | cloudgazer/Nagios.py:18-52 | A table created with some fields is accepted on reopening exactly when the new fields are the same multiset. |
| NagiosSchema.ColumnsRoundTrip | cloudgazer/Nagios.py:37-46 | The column-name parser inverts the ` TEXT, ` join of line 18. |
| NagiosChanges.DifferentMembers | cloudgazer/Nagios.py:73-79 | A field is collected as different exactly when it is not the identifier and the two values differ. |
| NagiosChanges.NoDifferenceMeansEqual | cloudgazer/Nagios.py:73-82 | No differing field means the records are equal, so skipping the write loses nothing. |
| NagiosChanges.NoDifferenceWithItself | cloudgazer/Nagios.py:73-80 | A record compared with itself has no differing field. |
| NagiosChanges.MarkRemovedAt | cloudgazer/Nagios.py:87-90 | Every unmatched stored identifier is marked `removed`; all other entries are kept. |
| NagiosChanges.MarkRemovedSpec | cloudgazer/Nagios.py:87-90 | The removal loop adds `removed` for exactly the identifiers left in `currentHosts2`. |
| NagiosChanges.ByIdent | cloudgazer/Nagios.py:80-86 | The table after `updateDB` holds only discovered hosts, each under its own identifier. |
| NagiosChanges.ByIdentKeys | cloudgazer/Nagios.py:80-86 | The table's identifiers are exactly the discovered identifiers. |
| NagiosChanges.ByIdentAt | cloudgazer/Nagios.py:80-86 | With distinct identifiers, each discovered host is stored unchanged under its identifier. |
| NagiosChanges.DiscoveredChangesAt | cloudgazer/Nagios.py:67-86 | The loop over the discovered hosts gives each one the entry its comparison calls for. |
| NagiosChanges.DiscoveredChangesKeys | cloudgazer/Nagios.py:67-86 | That loop only records discovered identifiers. |
| NagiosChanges.ChangeListClassifies | cloudgazer/Nagios.py:63-93 | The change list classifies every identifier: discovered only → `added`; stored with differing fields → `updated:` and those fields joined by `:`; stored and equal → no entry; stored only → `removed`; neither → no entry. |
| NagiosChanges.ChangeListKeys | cloudgazer/Nagios.py:63-93 | Every identifier in the change list was discovered or stored. |
| NagiosChanges.SecondRunIsQuiet | cloudgazer/Nagios.py:59-93 | Comparing the same hosts against the table `updateDB` left gives an empty change list. |
| Nagios.Unmatched | cloudgazer/Nagios.py:65-71 | `currentHosts2` keeps only hosts whose identifier has not been matched. |
| Nagios.UnmatchedIds | cloudgazer/Nagios.py:65-90 | The identifiers left in `currentHosts2` are the stored ones minus the matched ones. |
| Nagios.RemoveMatchedHost | cloudgazer/Nagios.py:71 | `currentHosts2.remove(chost)` finds the host and leaves exactly the hosts unmatched so far, minus this one. |
| Nagios.RemoveHost | cloudgazer/Nagios.py:71 | The `remove` call as a method, with the same result. |
| Nagios.Open | cloudgazer/Nagios.py:10-52 | Without a table, it creates the one built at line 19, empty. With a table, it accepts exactly when the schema check passes, and otherwise stops with both statements. It never touches the rows. |
| Nagios.Config.constructor | cloudgazer/Nagios.py:10-15 | The configuration keeps the database, identifier and fields it is given. |
| Nagios.Config.GetSQLHosts | cloudgazer/Nagios.py:95-103 | One record per stored row, each with exactly the configured fields and the row's values, with distinct identifiers covering the table. |
| Nagios.Config.ReadRow | cloudgazer/Nagios.py:99-101 | The inner loop rebuilds the row's record field by field. |
| Nagios.Config.AddHostToDB | cloudgazer/Nagios.py:105-114 | An insert adds the host under its identifier and changes nothing else. |
| Nagios.Config.UpdateHostInDB | cloudgazer/Nagios.py:116-124 | An update overwrites the row with that identifier, if there is one; nothing else changes. |
| Nagios.Config.DeleteHostInDB | cloudgazer/Nagios.py:126-130 | A delete removes the row with that identifier; nothing else changes. |
| Nagios.Config.CompareHost | cloudgazer/Nagios.py:73-79 | The comparison loop collects the differing fields, in dict order. |
| Nagios.Config.UpdateDB | cloudgazer/Nagios.py:59-93 | It returns the change list that `ChangeList` classifies, and leaves the table holding exactly the discovered hosts, keyed by identifier. |
| Nagios.Config.ReconcileAll | cloudgazer/Nagios.py:67-86 | After the outer loop: the entries of every discovered host, all of them written into the table, and `currentHosts2` holding the unmatched stored hosts. |
| Nagios.Config.ReconcileNext | cloudgazer/Nagios.py:67-86 | One turn of the outer loop extends each of those facts by one discovered host. |
| Nagios.Config.ReconcileHost | cloudgazer/Nagios.py:68-86 | The inner loop for one discovered host: its entry, its row and the `currentHosts2` update. |
| Nagios.Config.MatchHost | cloudgazer/Nagios.py:69-82 | A matched host is removed from `currentHosts2` and its row becomes the discovered host. The entry is `updated:…` exactly when fields differ. |
| Nagios.Config.RemoveUnmatched | cloudgazer/Nagios.py:87-90 | Each host left in `currentHosts2` is deleted from the table and marked `removed`. |
| Nagios.ByIdentConforms | cloudgazer/Nagios.py:80-86 | The table `updateDB` leaves still has the configured columns in every row. |
| NagiosWriter.Tabs | cloudgazer/Nagios.py:169 | `'\t' * n` has n characters, and none when n is not positive. |
| NagiosWriter.TabsAreTabs | cloudgazer/Nagios.py:169 | Every one of those characters is a tab. |
| NagiosWriter.Longest | cloudgazer/Nagios.py:164-167 | `longestField` bounds every field name's length and is attained by one, or is 0 for no fields. |
| NagiosWriter.LongestField | cloudgazer/Nagios.py:164-167 | The first loop computes that length. |
| NagiosWriter.TabsAlign | cloudgazer/Nagios.py:169 | The tab count `longest/4 - len(field)/4` is never negative, is 0 for a longest field, and brings every value to the same tab stop. |
| NagiosWriter.ConvertHostToStr | cloudgazer/Nagios.py:162-172 | The block is `define host {`, one tab-aligned line per field in dict order, then `}` and a blank line. |
| NagiosWriter.FileNameParts | cloudgazer/Nagios.py:174-178 | `cloudgazer_<value>.cfg` contains the value and ends in `.cfg`. |
| NagiosWriter.FileNameInjective | cloudgazer/Nagios.py:150-155 | Different split values give different file names. |
| NagiosWriter.SingleFileNameDistinct | cloudgazer/Nagios.py:146-151 | `cloudgazer.cfg` is never a split file's name, and it ends in `.cfg`. |
| NagiosWriter.PartitionAt | cloudgazer/Nagios.py:149-155 | A split value's file exists exactly when some host has that value. Its content is the blocks of those hosts, concatenated in input order. |
| NagiosWriter.PartitionKeys | cloudgazer/Nagios.py:149-160 | The files written are exactly one per distinct split value, all ending in `.cfg`. |
| NagiosWriter.RewriteIsStable | cloudgazer/Nagios.py:141-160 | Sweeping and rewriting a directory the writer produced leaves it as it was. |
| NagiosWriter.RemoveConfigs | cloudgazer/Nagios.py:141-144 | Every file ending in `.cfg` is removed; other files stay. |
| NagiosWriter.SplitHosts | cloudgazer/Nagios.py:149-155 | The `newFiles` loop builds that partition. |
| NagiosWriter.WriteFiles | cloudgazer/Nagios.py:158-160 | Each new file is written over whatever had that name. |
| NagiosWriter.Write | cloudgazer/Nagios.py:133-160 | If the path is not a directory, it stops and leaves every file. For `none` it sweeps `.cfg`, creates an empty `cloudgazer.cfg` and crashes. Otherwise the directory is the non-`.cfg` files plus one file per split value. |
| NagiosLegacy.OpenLegacy | cloudgazer/NagiosConfig.py:7-29 | A missing configuration path stops the run before the database is touched. Otherwise the fixed three-column table is created only when there is none. |
| NagiosLegacy.NagiosConfig.constructor | cloudgazer/NagiosConfig.py:7-10 | The configuration keeps its database. |
| NagiosLegacy.NagiosConfig.GetSQLHosts | cloudgazer/NagiosConfig.py:66-71 | One record per row, with exactly the keys `host_name`, `alias` and `address`. |
| NagiosLegacy.NagiosConfig.UpdateDB | cloudgazer/NagiosConfig.py:31-64 | The logged change list is the classification over `alias` and `address`; only a host whose `host_name` is stored needs those two keys. It writes nothing: the method modifies nothing. |
| NagiosLegacy.NagiosConfig.MatchAll | cloudgazer/NagiosConfig.py:42-59 | One pass of the outer loop for one discovered host: its entry and the `currentHosts2` update. A host with no stored match is `added` without its `alias` or `address` being read. |
| NagiosLegacy.NagiosConfig.ScanStored | cloudgazer/NagiosConfig.py:43-55 | The scan over the stored hosts finds a match exactly when the `host_name` is stored; then it takes that host off `currentHosts2` and records its `updated:` entry, if any, and otherwise changes nothing. |
| NagiosLegacy.NagiosConfig.MatchOne | cloudgazer/NagiosConfig.py:44-54 | A matched host is removed from `currentHosts2` and gets the entry its comparison calls for. |
| NagiosLegacy.NagiosConfig.CompareHost | cloudgazer/NagiosConfig.py:47-52 | `alias` is compared, then `address`. |
| NagiosLegacy.NagiosConfig.MarkAllRemoved | cloudgazer/NagiosConfig.py:60-62 | Every unmatched stored host is marked `removed`. |
| NagiosLegacy.CompareInOrder | cloudgazer/NagiosConfig.py:49-52 | The differing fields are `alias` and/or `address`, in that order. |
| NagiosLegacy.LegacyEntries | cloudgazer/NagiosConfig.py:53-54 | The entry is `updated:alias`, `updated:address` or `updated:alias:address`. |
| NagiosLegacy.DifferentWithout | cloudgazer/NagiosConfig.py:47-52 | Leaving the identifier out of the compared fields changes no comparison. |
| NagiosLegacy.DiscoveredChangesAgree | cloudgazer/NagiosConfig.py:41-59 | Two comparisons that agree host by host give the same discovered entries. |
| NagiosLegacy.LegacyIsConfigurable | cloudgazer/NagiosConfig.py:31-62 | The legacy diff is the general `updateDB` classification with `host_name` as identifier and fields `host_name`, `alias`, `address`. |
| Notification.KindOfMeaning | cloudgazer/__init__.py:186-190 | `added` goes to New, `removed` to Removed, a value starting with `updated` to Updated; anything else is dropped. |
| Notification.GroupMembers | cloudgazer/__init__.py:185-196 | New and Removed list exactly the hosts with those values. Updated holds a line for every `updated` host and no other line. |
| Notification.GroupSize | cloudgazer/__init__.py:185-196 | Visiting each host once, each list is as long as the number of hosts whose value is of its kind. |
| Notification.GroupCounts | cloudgazer/__init__.py:197-199 | The counts in the New, Removed and Updated headings are the numbers of change-list entries that are `added`, are `removed`, and start with `updated`. |
| Notification.UpdatedEntryIsUpdate | cloudgazer/Nagios.py:82 | An entry built by `updateDB` starts with `updated` and is neither `added` nor `removed`. |
| Notification.EntryFieldsRoundTrip | cloudgazer/__init__.py:190-196 | Parsing an `updated:` entry recovers the differing fields, and the line reads `<host> (f1, f2)`. This holds when no field contains `:` or is named `updated`. |
| Notification.GroupAppend | cloudgazer/__init__.py:185-196 | Grouping a concatenation groups each part. |
| Notification.MessageOrderIndependent | cloudgazer/__init__.py:179-201 | The report is the same for every iteration order of the change list. |
| Notification.ReportOfChangeList | cloudgazer/__init__.py:185-196 | For the change list `updateDB` returns, a new host is listed as new and a vanished one as removed. A changed host is listed as updated with exactly its differing fields. |
| Notification.ErrorMessageParts | cloudgazer/__init__.py:159-166 | The error text starts with the host line. Given a message, it is the fixed introduction followed by that message, read back unchanged. Without one it is the unknown-error text, which no text with a message equals. |
| Notification.Enabled | cloudgazer/__init__.py:148-151 | Notifications are on unless `enabled` is present and false. |
| Notification.Notify.constructor | cloudgazer/__init__.py:141-177 | The message is the host-change report for `host_change`, otherwise the error text. It is published once to the topic exactly when notifications are enabled and the method is SNS. |
| Pipeline.Sent | cloudgazer/__init__.py:170-177 | A notice publishes at most one message, and one exactly when notifications are enabled. |
| Pipeline.PublishedAppend | cloudgazer/__init__.py:108-136 | The publications of consecutive steps are concatenated. |
| Pipeline.PublishedCount | cloudgazer/__init__.py:170-177 | When notifications are on, a run publishes once per change or error notice. When they are off, it publishes nothing. |
| Pipeline.QuietWithoutChange | cloudgazer/__init__.py:102-138 | An empty change list writes, checks, restarts and announces nothing. |
| Pipeline.RestartGated | cloudgazer/__init__.py:102-114 | Nagios is restarted exactly when the list changed, the files were written and the check passed. |
| Pipeline.VerifyBeforeRestart | cloudgazer/__init__.py:112-114 | Every restart directly follows a passing check. |
| Pipeline.DowntimeGated | cloudgazer/__init__.py:114-118 | Downtime is scheduled exactly when the restart succeeded. |
| Pipeline.ErrorNotices | cloudgazer/__init__.py:119-136 | An error notice is sent exactly when the restart or the check failed: `Failed to restart nagios`, or `Failed to verify nagios config` followed by a newline and the check's output. |
| Pipeline.AsWrittenNeverRestarts | cloudgazer/__init__.py:111-113 | As written, no run restarts, schedules downtime or sends an error notice. A run that reaches the check ends in the `['ok']` crash. |
| Pipeline.AsWrittenDiverges | cloudgazer/__init__.py:111-114 | The code as written and the corrected run agree up to the check. Then the corrected run restarts on a pass, where the code as written crashes. |
| Pipeline.ListKeys | cloudgazer/__init__.py:185 | Iterating the change list visits each key exactly once. |
| Pipeline.SecondRunQuiet | cloudgazer/__init__.py:96-102 | A second run with the same hosts finds an empty change list and leaves the table as the first run left it. This holds for field names the schema parser can read. |
| Pipeline.Update | cloudgazer/__init__.py:61-100 | An unknown split field, a database type other than `sqlite`, the KeyError of the debug loop when hosts lack `host_name`, or a changed schema each stop the run with the table untouched. Otherwise the outcome is `updateDB`'s change list and the table holds the discovered hosts. |
| Pipeline.RunWriter | cloudgazer/__init__.py:104-107 | The writer's outcome and the directory it leaves. |
| Pipeline.SendReport | cloudgazer/__init__.py:108-110 | The change report is published under `Cloudgazer Notification` when notifications are on, whatever the dict order. |
| Pipeline.SendError | cloudgazer/__init__.py:120-136 | The error text is published under `Cloudgazer ERROR` when notifications are on. |
| Pipeline.Conclude | cloudgazer/__init__.py:111-136 | Check, then restart or error notice, then downtime or error notice, with their publications. |
| Pipeline.AfterWrite | cloudgazer/__init__.py:108-136 | After a write: the announcement, then the check and what follows from it. |
| Pipeline.AfterWriteAsWritten | cloudgazer/__init__.py:108-113 | As written, the announcement and the check, then the crash. |
| Pipeline.Proceed | cloudgazer/__init__.py:102-138 | The steps, directory and publications after `updateDB`, for the corrected check. |
| Pipeline.ProceedAsWritten | cloudgazer/__init__.py:102-113 | The same steps, directory and publications with the code as written. |
| Pipeline.Run | cloudgazer/__init__.py:61-138 | `main` with a check result that can be indexed. The table is settled, and an early exit touches neither files nor topic. Otherwise the steps are write → announce → check → restart or error → downtime, with the directory and publications they imply. |
| Pipeline.RunAsWritten | cloudgazer/__init__.py:61-113 | `main` as written, with the same table, directory and publications up to the `['ok']` crash. |
| Pipeline.SplitFieldPresent | cloudgazer/__init__.py:61-63 | A known split field other than `none` is a field of every discovered host. |

## Left out

- `Nagios.Manager` (cloudgazer/Nagios.py:181-211) runs external commands through `shlex` and `subprocess`. The check result and the restart flag are inputs to `Pipeline.Run`.
- `AWS` and `AWSHosts` discover instances through boto. The discovered hosts are an input list of records.
- SNS publishing through boto is not modelled. `SnsTopic` records the published messages and subjects, in order.
- `NagiosDowntime` is called at cloudgazer/__init__.py:117 but its source is not part of this model. Downtime is recorded as the `ScheduleDowntime` step.
- SQL text and the SQLite connection are not modelled: `INSERT`/`UPDATE`/`DELETE` strings, commits, and the `sqlite3.Error` handlers (cloudgazer/Nagios.py:54-57, cloudgazer/NagiosConfig.py:26-29). The table is a map from identifier to record. SQL quoting problems are therefore not modelled: a value holding `"` breaks the statement, and SQLite reads a double-quoted value in the `WHERE` and `SET` clauses (cloudgazer/Nagios.py:119-127) as a column name when a column of that name exists. The model treats every update and delete as matching the row by identifier.
- `Nagios.Open` assumes the stored rows follow the stored schema and are keyed by `hostIdent`. SQLite guarantees this for a table the code created, but the schema check ignores the `PRIMARY KEY` clause.
- `NagiosLegacy.OpenLegacy` assumes an existing `nagios_hosts` table has the three fixed columns. The code does not check this.
- Filesystem details are not modelled: path joining, file permissions, and a split value containing `/`. The directory is a map from file name to content.
- The database file's existence warning (cloudgazer/Nagios.py:21-22, cloudgazer/NagiosConfig.py:15-16) is not modelled.
- Logging, `argparse`, YAML loading and `os.path.expanduser` in `main` (cloudgazer/__init__.py:19-60, 69-95) are not modelled. The settings `main` reads are a `Settings` value.
- `socket.gethostname()` is a parameter.
- `Notification.NotifyConfig` holds `enabled` as an optional boolean. The source uses the YAML value's Python truth value, and the SNS region and topic are the `SnsTopic` object itself.
- `todbHosts` in `NagiosConfig.updateDB` is collected and never used, so it is not modelled.
- `Nagios.Config.UpdateDB` requires distinct identifiers in the discovered list. A repeated stored identifier makes `currentHosts2.remove` fail, and a repeated new identifier breaks the primary key.
- `NagiosLegacy.NagiosConfig.UpdateDB` requires that a stored identifier occurs once among the discovered hosts; repeated new identifiers are allowed, because the legacy code writes nothing.
- `NagiosWriter.Write` models the `none` branch as the crash it is: line 147 builds a list and line 160 indexes it with a string. No single-file output is produced.
- The writer deletes every `.cfg` file in the directory, generated by it or not; the model does the same, so other tools' `.cfg` files there are lost.
- `Pipeline.Run` takes the check result as a `VerifyResult` with `ok` and `output`, the shape `main` indexes. The code's `verifyConfig` returns a bool (see Findings).
- `Pipeline.Run`, `Pipeline.RunAsWritten` and `Pipeline.Update` require the identifier field to be a mapped field, which `main` never checks. Otherwise, with a host table already present, `updateDB` raises KeyError at cloudgazer/Nagios.py:70, 86 or 127 as soon as there is a discovered or stored host. Without a table, the result depends on how SQLite treats a `PRIMARY KEY` naming a missing column (cloudgazer/Nagios.py:19), which is not modelled.
- `Nagios.Open` requires the identifier to be one of the configured fields, for the same reason.
- `Nagios.Unmatched`: its ensures states only that every remaining host is unmatched. Which hosts remain is stated by `Nagios.UnmatchedIds`.
- `PyStr.LStrip`, `PyStr.RStrip`: their ensures say only what is left at the ends. That the stripped string is the unchanged middle is stated for the cases used by `PyStr.StripUntouched` and `PyStr.StripOneLeading`.
- `PyStr.Split`: its ensures say only that no piece holds the separator. The round trip with `join` is `PyStr.SplitJoin`.
- `Store.Without`: its ensures say only that kept tokens were present and are not the removed one. That nothing else is dropped is used through `Notification.EntryFieldsRoundTrip`.

## Findings

| source | as written | input that shows it | evidently intended | confidence | as-written member | corrected member |
|---|---|---|---|---|---|---|
| cloudgazer/__init__.py:112-113 | `verifyConfig` returns `True` or `False` (cloudgazer/Nagios.py:189-199). `main` indexes that result with `['ok']`, which raises `TypeError`, so Nagios is never restarted, no downtime is scheduled and a failed check is never reported; `Pipeline.AsWrittenDiverges` exhibits where this departs from the intended run. | Any run whose change list is non-empty and whose split field is a mapped field, with the configuration directory present, e.g. one newly discovered host. | Branch on the check's ok flag. Restart when it passed; otherwise send an error notice with the check's output. | not executed | Pipeline.RunAsWritten | Pipeline.Run |
