/**
 * The `main` entry point: check the settings, bring the host table up to date,
 * and, when the host list changed, rewrite the Nagios configuration, notify,
 * verify the configuration and restart Nagios.
 *
 * The AWS inventory, `socket.gethostname()` and the outcomes of the external
 * verify and restart commands are parameters. What `main` does after the host
 * list is known is recorded as a sequence of `Step`s.
 */
module Pipeline {
  import opened PyStr
  import opened Store
  import opened NagiosSchema
  import opened NagiosChanges
  import opened Nagios
  import opened NagiosWriter
  import opened Notification

  /** The parts of the YAML settings that `main` reads. */
  datatype Settings = Settings(
    hostIdent: string,          // nagios.host_identifier
    nagiosFields: seq<string>,  // the nagios_field of every mapping
    splitBy: string,            // nagios.separate_hosts_by
    databaseType: string,       // database.type
    notifications: NotifyConfig)

  /** `separate_hosts_by` names a mapped field, or is `none` in any letter case. */
  predicate SplitKnown(settings: Settings)
  {
    settings.splitBy in settings.nagiosFields || Lower(settings.splitBy) == "none"
  }

  /**
   * The debug loop over the discovered hosts and the mappings can read each host's
   * `host_name`: there is no host, no mapping, or `host_name` is a mapped field
   * (every host carries exactly the mapped fields). Otherwise it raises KeyError.
   */
  predicate LogsHostNames(settings: Settings, hosts: seq<Record>)
  {
    |hosts| == 0 || |settings.nagiosFields| == 0 || "host_name" in settings.nagiosFields
  }

  /** The run gets past the settings checks, the debug loop and the schema check. */
  predicate Proceeds(settings: Settings, hosts: seq<Record>, tableSql: Option<string>)
  {
    && SplitKnown(settings)
    && settings.databaseType == "sqlite"
    && LogsHostNames(settings, hosts)
    && (tableSql.Some? ==> SchemaAccepts(tableSql.value, settings.nagiosFields))
  }

  /** The rows `updateDB` starts from: none when the table was just created. */
  function Stored(tableSql: Option<string>, rows: map<string, Record>): map<string, Record>
  {
    if tableSql.None? then map[] else rows
  }

  const ChangeSubject := "Cloudgazer Notification"
  const ErrorSubject := "Cloudgazer ERROR"
  const RestartFailure := "Failed to restart nagios"
  const VerifyFailure := "Failed to verify nagios config"

  /** How the run ends before the host list is known, or the change list it computed. */
  datatype Outcome =
    | UnknownSplitField                               // exit(1)
    | UnsupportedDatabase                             // exit(1)
    | HostNameMissing                                 // KeyError in the debug loop over the hosts
    | SchemaChanged(current: string, requested: string) // exit(1) in the configuration's constructor
    | Updated(changes: map<string, string>)

  /** What `verifyConfig` evidently means to return: a flag and the command's output. */
  datatype VerifyResult = VerifyResult(ok: bool, output: string)

  /** What `main` does once the change list is known. */
  datatype Step =
    | WriteConfig(result: WriteOutcome)
    | NotifyChange
    | VerifyConfig(passed: bool)
    | RestartNagios(restarted: bool)
    | ScheduleDowntime
    | NotifyError(text: string)
    | VerifyIndexCrash   // `nag_config_check['ok']` on a bool raises TypeError

  /** What the writer does to a configuration directory. */
  function WriterResult(isDir: bool, splitBy: string): WriteOutcome
  {
    if !isDir then NotADirectory else if SingleFile(splitBy) then SingleFileCrash else Written
  }

  /** Write and announce: the steps up to the change notification. */
  function Prefix(changed: bool, writer: WriteOutcome): seq<Step>
  {
    if !changed then [] else [WriteConfig(writer)] + if writer == Written then [NotifyChange] else []
  }

  /** Verify, then restart, then schedule downtime, with an error notice where one fails. */
  function Tail(verify: VerifyResult, restartOk: bool): seq<Step>
  {
    [VerifyConfig(verify.ok)] +
    if verify.ok then
      [RestartNagios(restartOk)] + if restartOk then [ScheduleDowntime] else [NotifyError(RestartFailure)]
    else
      [NotifyError(VerifyFailure + "\n" + verify.output)]
  }

  /** The steps of a run whose configuration check returns a result that can be indexed. */
  function Steps(changed: bool, writer: WriteOutcome, verify: VerifyResult, restartOk: bool): seq<Step>
  {
    Prefix(changed, writer) + if changed && writer == Written then Tail(verify, restartOk) else []
  }

  /** The steps as written: the bool from `verifyConfig` is indexed with 'ok' and the run dies. */
  function StepsAsWritten(changed: bool, writer: WriteOutcome, verifyOk: bool): seq<Step>
  {
    Prefix(changed, writer) + if changed && writer == Written then [VerifyConfig(verifyOk), VerifyIndexCrash] else []
  }

  /** A notification is published only when notifications are enabled (`main` always uses SNS). */
  function Sent(config: NotifyConfig, message: string, subject: string): (r: seq<Publication>)
    ensures |r| <= 1
    ensures r != [] <==> config.enabled != Some(false)
  {
    if Enabled(config) then [Publication(message, subject)] else []
  }

  /** Some listing of a finite set of names. */
  ghost function SomeListing(s: set<string>): (r: seq<string>)
    ensures IsListing(r, s)
    decreases s
  {
    if s == {} then []
    else
      var x :| x in s;
      var rest := SomeListing(s - {x});
      assert x !in rest;
      rest + [x]
  }

  /** The host-change report; by `MessageOrderIndependent` every dict order gives this text. */
  ghost function Report(hostname: string, changes: map<string, string>): string
  {
    var order := SomeListing(changes.Keys);
    HostChangeMessage(hostname, changes, order)
  }

  /** What one step publishes: the change report, an error notice, or nothing. */
  function Notice(step: Step, config: NotifyConfig, hostname: string, report: string): seq<Publication>
  {
    match step
    case NotifyChange => Sent(config, report, ChangeSubject)
    case NotifyError(text) => Sent(config, ErrorMessage(hostname, Some(text)), ErrorSubject)
    case _ => []
  }

  /** What the notification steps publish to the topic, in order. */
  function Published(steps: seq<Step>, config: NotifyConfig, hostname: string, report: string): seq<Publication>
  {
    if |steps| == 0 then []
    else Published(steps[..|steps| - 1], config, hostname, report) + Notice(steps[|steps| - 1], config, hostname, report)
  }

  lemma PublishedSingle(step: Step, config: NotifyConfig, hostname: string, report: string)
    ensures Published([step], config, hostname, report) == Notice(step, config, hostname, report)
  {
    assert [step][..0] == [];
  }

  lemma PublishedSnoc(steps: seq<Step>, step: Step, config: NotifyConfig, hostname: string, report: string)
    ensures Published(steps + [step], config, hostname, report)
      == Published(steps, config, hostname, report) + Notice(step, config, hostname, report)
  {
    assert (steps + [step])[..|steps|] == steps;
  }

  lemma {:induction false} PublishedAppend(a: seq<Step>, b: seq<Step>, config: NotifyConfig, hostname: string, report: string)
    ensures Published(a + b, config, hostname, report) == Published(a, config, hostname, report) + Published(b, config, hostname, report)
    decreases |b|
  {
    if |b| == 0 {
      assert a + b == a;
    } else {
      var init := b[..|b| - 1];
      assert (a + b)[..|a + b| - 1] == a + init;
      PublishedAppend(a, init, config, hostname, report);
    }
  }

  /** One publication per notification step when notifications are on, none when they are off. */
  lemma {:induction false} PublishedCount(steps: seq<Step>, config: NotifyConfig, hostname: string, report: string)
    ensures !Enabled(config) ==> Published(steps, config, hostname, report) == []
    ensures Enabled(config) ==>
      |Published(steps, config, hostname, report)| == |set i | 0 <= i < |steps| && (steps[i].NotifyChange? || steps[i].NotifyError?)|
    decreases |steps|
  {
    if |steps| > 0 {
      var n := |steps| - 1;
      var init := steps[..n];
      PublishedCount(init, config, hostname, report);
      var before := set i | 0 <= i < n && (init[i].NotifyChange? || init[i].NotifyError?);
      var after := set i | 0 <= i < |steps| && (steps[i].NotifyChange? || steps[i].NotifyError?);
      if steps[n].NotifyChange? || steps[n].NotifyError? {
        assert after == before + {n};
      } else {
        assert after == before;
      }
    }
  }

  /** Nothing is written, verified or announced when the host list did not change. */
  lemma QuietWithoutChange(writer: WriteOutcome, verify: VerifyResult, restartOk: bool)
    ensures Steps(false, writer, verify, restartOk) == []
    ensures StepsAsWritten(false, writer, verify.ok) == []
  {
  }

  /** Nagios is restarted exactly when the host list changed, the files were written and the check passed. */
  lemma {:induction false} RestartGated(changed: bool, writer: WriteOutcome, verify: VerifyResult, restartOk: bool)
    ensures (exists i :: 0 <= i < |Steps(changed, writer, verify, restartOk)| && Steps(changed, writer, verify, restartOk)[i].RestartNagios?)
      <==> changed && writer == Written && verify.ok
  {
    var s := Steps(changed, writer, verify, restartOk);
    if changed && writer == Written && verify.ok {
      assert s[3].RestartNagios?;
    }
  }

  /** Every restart follows a configuration check that passed. */
  lemma {:induction false} VerifyBeforeRestart(changed: bool, writer: WriteOutcome, verify: VerifyResult, restartOk: bool, i: int)
    requires 0 <= i < |Steps(changed, writer, verify, restartOk)| && Steps(changed, writer, verify, restartOk)[i].RestartNagios?
    ensures 0 < i && Steps(changed, writer, verify, restartOk)[i - 1] == VerifyConfig(true)
  {
    var s := Steps(changed, writer, verify, restartOk);
    assert changed && writer == Written;
    assert s == [WriteConfig(Written), NotifyChange] + Tail(verify, restartOk);
    assert verify.ok;
  }

  /** Downtime is scheduled exactly when the restart succeeded. */
  lemma DowntimeGated(changed: bool, writer: WriteOutcome, verify: VerifyResult, restartOk: bool)
    ensures ScheduleDowntime in Steps(changed, writer, verify, restartOk)
      <==> changed && writer == Written && verify.ok && restartOk
  {
  }

  /** An error notice is sent exactly when the check or the restart failed, and says which. */
  lemma ErrorNotices(changed: bool, writer: WriteOutcome, verify: VerifyResult, restartOk: bool, text: string)
    ensures NotifyError(text) in Steps(changed, writer, verify, restartOk)
      <==> changed && writer == Written &&
           if verify.ok then !restartOk && text == RestartFailure else text == VerifyFailure + "\n" + verify.output
  {
  }

  /** As written, a run that gets as far as the configuration check never restarts and never reports a failure. */
  lemma AsWrittenNeverRestarts(changed: bool, writer: WriteOutcome, verifyOk: bool)
    ensures forall s <- StepsAsWritten(changed, writer, verifyOk) ::
      !s.RestartNagios? && !s.ScheduleDowntime? && !s.NotifyError?
    ensures changed && writer == Written ==> StepsAsWritten(changed, writer, verifyOk)[|StepsAsWritten(changed, writer, verifyOk)| - 1] == VerifyIndexCrash
  {
  }

  /** The two agree up to the check; a passing check then restarts, where the code as written crashes. */
  lemma AsWrittenDiverges(verify: VerifyResult, restartOk: bool)
    ensures StepsAsWritten(true, Written, verify.ok)[..3] == Steps(true, Written, verify, restartOk)[..3]
    ensures verify.ok ==> Steps(true, Written, verify, restartOk)[3] == RestartNagios(restartOk)
    ensures StepsAsWritten(true, Written, verify.ok)[3] == VerifyIndexCrash
  {
  }

  /** The keys of a dict, in the order iteration happens to visit them. */
  method ListKeys(m: map<string, string>) returns (keys: seq<string>)
    ensures IsListing(keys, m.Keys)
  {
    keys := [];
    var rest := m.Keys;
    while rest != {}
      invariant rest <= m.Keys
      invariant forall i, j :: 0 <= i < j < |keys| ==> keys[i] != keys[j]
      invariant forall k <- keys :: k in m && k !in rest
      invariant forall k <- m.Keys :: k in rest || k in keys
      decreases rest
    {
      var k :| k in rest;
      keys := keys + [k];
      rest := rest - {k};
    }
  }

  /**
   * The host table after the settings checks, opening the table and `updateDB`:
   * an exit or the KeyError leaves it as it was; otherwise it holds the discovered hosts, and
   * the outcome is the change list against what it held before.
   */
  ghost predicate Settled(settings: Settings, table0: Option<string>, rows0: map<string, Record>,
                          table1: Option<string>, rows1: map<string, Record>,
                          hosts: seq<Record>, order: seq<string>, outcome: Outcome)
  {
    if !Proceeds(settings, hosts, table0) then
      && table1 == table0 && rows1 == rows0
      && (!SplitKnown(settings) ==> outcome == UnknownSplitField)
      && (SplitKnown(settings) && settings.databaseType != "sqlite" ==> outcome == UnsupportedDatabase)
      && (SplitKnown(settings) && settings.databaseType == "sqlite" && !LogsHostNames(settings, hosts) ==>
            outcome == HostNameMissing)
      && (SplitKnown(settings) && settings.databaseType == "sqlite" && LogsHostNames(settings, hosts) ==>
            outcome.SchemaChanged?)
    else
      && HostsComparable(hosts, settings.hostIdent, order)
      && StoredComparable(Stored(table0, rows0), order)
      && outcome == Updated(ChangeList(Stored(table0, rows0), hosts, settings.hostIdent, order))
      && table1 == (if table0.None? then Some(CreateTableSql(settings.nagiosFields, settings.hostIdent)) else table0)
      && rows1 == ByIdent(hosts, settings.hostIdent)
  }

  /**
   * The configuration directory after the writer: untouched when nothing
   * changed or it is not a directory; the crash of the `none` split; or the
   * old non-.cfg files plus one file per split value.
   */
  ghost predicate Rewritten(files0: map<string, string>, files1: map<string, string>, isDir: bool, changed: bool,
                            hosts: seq<Record>, orders: seq<seq<string>>, splitBy: string)
  {
    if !changed || !isDir then files1 == files0
    else if SingleFile(splitBy) then files1 == WithoutConfigs(files0)["cloudgazer.cfg" := ""]
    else
      && Renderable(hosts, orders, splitBy)
      && files1 == WithoutConfigs(files0) + Partition(SplitValues(hosts, orders, splitBy), Blocks(hosts, orders, splitBy))
  }

  /**
   * Running again over the same inventory finds the table in the state the
   * first run left it, computes an empty change list and so does nothing else.
   */
  lemma {:induction false} SecondRunQuiet(settings: Settings, table0: Option<string>, rows0: map<string, Record>,
                                          table1: Option<string>, rows1: map<string, Record>,
                                          table2: Option<string>, rows2: map<string, Record>,
                                          hosts: seq<Record>, order: seq<string>, first: Outcome, second: Outcome)
    requires Settled(settings, table0, rows0, table1, rows1, hosts, order, first) && first.Updated?
    requires Settled(settings, table1, rows1, table2, rows2, hosts, order, second)
    requires DistinctIds(hosts, settings.hostIdent)
    requires |settings.nagiosFields| > 0 && forall k :: 0 <= k < |settings.nagiosFields| ==> PlainField(settings.nagiosFields[k])
    requires PlainName(settings.hostIdent)
    ensures second == Updated(map[]) && table2 == table1 && rows2 == rows1
  {
    assert Proceeds(settings, hosts, table0);
    if table0.None? {
      ReopenAccepts(settings.nagiosFields, settings.nagiosFields, settings.hostIdent);
    }
    assert Proceeds(settings, hosts, table1);
    assert Stored(table1, rows1) == ByIdent(hosts, settings.hostIdent);
    SecondRunIsQuiet(hosts, settings.hostIdent, order);
  }

  /** The settings checks, opening the host table, and `updateDB`. */
  method Update(settings: Settings, db: SqliteDb, hosts: seq<Record>, order: seq<string>) returns (outcome: Outcome)
    requires settings.hostIdent in settings.nagiosFields
    requires db.tableSql.Some? ==>
      RowsConform(db.rows, (set f | f in StoredFields(db.tableSql.value)), settings.hostIdent)
    requires forall h <- hosts :: h.Keys == (set f | f in settings.nagiosFields)
    requires DistinctIds(hosts, settings.hostIdent)
    requires IsListing(order, set f | f in settings.nagiosFields)
    modifies db
    ensures Settled(settings, old(db.tableSql), old(db.rows), db.tableSql, db.rows, hosts, order, outcome)
  {
    if !SplitKnown(settings) {
      return UnknownSplitField;
    }
    if settings.databaseType != "sqlite" {
      return UnsupportedDatabase;
    }
    if |hosts| > 0 && |settings.nagiosFields| > 0 && "host_name" !in settings.nagiosFields {
      return HostNameMissing;
    }
    var start := Open(db, settings.hostIdent, settings.nagiosFields);
    if start.FieldsChanged? {
      return SchemaChanged(start.current, start.requested);
    }
    var config := start.config;
    assert config.fields == set f | f in settings.nagiosFields;
    var changes := config.UpdateDB(hosts, order);
    outcome := Updated(changes);
  }

  /** The writer, seen from `main`: its outcome and what it leaves in the directory. */
  method RunWriter(settings: Settings, dir: ConfigDir, hosts: seq<Record>, orders: seq<seq<string>>)
    returns (written: WriteOutcome)
    requires |orders| == |hosts| && forall i :: 0 <= i < |hosts| ==> IsListing(orders[i], hosts[i].Keys)
    requires !SingleFile(settings.splitBy) ==> forall h <- hosts :: settings.splitBy in h
    modifies dir
    ensures written == WriterResult(old(dir.isDir), settings.splitBy)
    ensures Rewritten(old(dir.files), dir.files, old(dir.isDir), true, hosts, orders, settings.splitBy)
  {
    written := Write(dir, hosts, orders, settings.splitBy);
  }

  /** `Notify(method='SNS', changedHosts=changedHosts, config=...)`: the host-change report. */
  method SendReport(settings: Settings, topic: SnsTopic, hostname: string, changes: map<string, string>)
    modifies topic
    ensures topic.published == old(topic.published) + Sent(settings.notifications, Report(hostname, changes), ChangeSubject)
  {
    var keys := ListKeys(changes);
    var notice := new Notify(settings.notifications, "SNS", "host_change", None, changes, keys,
                             ChangeSubject, hostname, topic);
    MessageOrderIndependent(hostname, changes, keys, SomeListing(changes.Keys));
  }

  /** `Notify(method='SNS', type='error', message=text, subject='Cloudgazer ERROR', ...)`. */
  method SendError(settings: Settings, topic: SnsTopic, hostname: string, text: string)
    modifies topic
    ensures topic.published == old(topic.published) + Sent(settings.notifications, ErrorMessage(hostname, Some(text)), ErrorSubject)
  {
    var notice := new Notify(settings.notifications, "SNS", "error", Some(text), map[], [],
                             ErrorSubject, hostname, topic);
  }

  /** Verify the configuration, restart Nagios when it passed, and send the error notices. */
  method Conclude(settings: Settings, topic: SnsTopic, hostname: string, ghost report: string,
                  verify: VerifyResult, restartOk: bool)
    returns (tail: seq<Step>)
    modifies topic
    ensures tail == Tail(verify, restartOk)
    ensures topic.published == old(topic.published) + Published(tail, settings.notifications, hostname, report)
  {
    tail := [VerifyConfig(verify.ok)];
    PublishedSingle(VerifyConfig(verify.ok), settings.notifications, hostname, report);
    var last: Step;
    if verify.ok {
      PublishedSnoc(tail, RestartNagios(restartOk), settings.notifications, hostname, report);
      tail := tail + [RestartNagios(restartOk)];
      if restartOk {
        last := ScheduleDowntime;
      } else {
        SendError(settings, topic, hostname, RestartFailure);
        last := NotifyError(RestartFailure);
      }
    } else {
      var text := VerifyFailure + "\n" + verify.output;
      SendError(settings, topic, hostname, text);
      last := NotifyError(text);
    }
    PublishedSnoc(tail, last, settings.notifications, hostname, report);
    tail := tail + [last];
  }

  /** The steps of a run whose writer did not complete, or that announced the change. */
  lemma StepsUnfold(writer: WriteOutcome, verify: VerifyResult, restartOk: bool)
    ensures writer != Written ==> Steps(true, writer, verify, restartOk) == [WriteConfig(writer)]
    ensures writer == Written ==>
      Steps(true, writer, verify, restartOk) == [WriteConfig(Written), NotifyChange] + Tail(verify, restartOk)
  {
  }

  lemma StepsAsWrittenUnfold(writer: WriteOutcome, verifyOk: bool)
    ensures writer != Written ==> StepsAsWritten(true, writer, verifyOk) == [WriteConfig(writer)]
    ensures writer == Written ==>
      StepsAsWritten(true, writer, verifyOk) == [WriteConfig(Written), NotifyChange] + [VerifyConfig(verifyOk), VerifyIndexCrash]
  {
  }

  /** The publications of a run that wrote the files and announced the change, then went on with `tail`. */
  lemma PublishedAfterReport(tail: seq<Step>, config: NotifyConfig, hostname: string, report: string)
    ensures Published([WriteConfig(Written), NotifyChange] + tail, config, hostname, report)
      == Sent(config, report, ChangeSubject) + Published(tail, config, hostname, report)
  {
    PublishedSingle(WriteConfig(Written), config, hostname, report);
    PublishedSnoc([WriteConfig(Written)], NotifyChange, config, hostname, report);
    PublishedAppend([WriteConfig(Written), NotifyChange], tail, config, hostname, report);
  }

  /** After the files are written: announce the change, then verify and restart. */
  method AfterWrite(settings: Settings, topic: SnsTopic, hostname: string, changes: map<string, string>,
                    verify: VerifyResult, restartOk: bool)
    returns (steps: seq<Step>)
    modifies topic
    ensures steps == [WriteConfig(Written), NotifyChange] + Tail(verify, restartOk)
    ensures topic.published == old(topic.published) + Published(steps, settings.notifications, hostname, Report(hostname, changes))
  {
    SendReport(settings, topic, hostname, changes);
    var tail := Conclude(settings, topic, hostname, Report(hostname, changes), verify, restartOk);
    PublishedAfterReport(tail, settings.notifications, hostname, Report(hostname, changes));
    steps := [WriteConfig(Written), NotifyChange] + tail;
  }

  /** After the files are written, as written: announce the change, then crash on the check's result. */
  method AfterWriteAsWritten(settings: Settings, topic: SnsTopic, hostname: string, changes: map<string, string>,
                             verifyOk: bool)
    returns (steps: seq<Step>)
    modifies topic
    ensures steps == [WriteConfig(Written), NotifyChange] + [VerifyConfig(verifyOk), VerifyIndexCrash]
    ensures topic.published == old(topic.published) + Published(steps, settings.notifications, hostname, Report(hostname, changes))
  {
    SendReport(settings, topic, hostname, changes);
    // `nag_config_check['ok']` raises TypeError: nothing after the check runs.
    var tail := [VerifyConfig(verifyOk), VerifyIndexCrash];
    PublishedSingle(VerifyConfig(verifyOk), settings.notifications, hostname, Report(hostname, changes));
    PublishedSnoc([VerifyConfig(verifyOk)], VerifyIndexCrash, settings.notifications, hostname, Report(hostname, changes));
    PublishedAfterReport(tail, settings.notifications, hostname, Report(hostname, changes));
    steps := [WriteConfig(Written), NotifyChange] + tail;
  }

  /** Everything after `updateDB`, for a run whose configuration check returns a result that can be indexed. */
  method Proceed(settings: Settings, dir: ConfigDir, topic: SnsTopic, hosts: seq<Record>,
                 orders: seq<seq<string>>, hostname: string, changes: map<string, string>,
                 verify: VerifyResult, restartOk: bool)
    returns (steps: seq<Step>)
    requires |orders| == |hosts| && forall i :: 0 <= i < |hosts| ==> IsListing(orders[i], hosts[i].Keys)
    requires !SingleFile(settings.splitBy) ==> forall h <- hosts :: settings.splitBy in h
    modifies dir, topic
    ensures steps == Steps(|changes| > 0, WriterResult(old(dir.isDir), settings.splitBy), verify, restartOk)
    ensures Rewritten(old(dir.files), dir.files, old(dir.isDir), |changes| > 0, hosts, orders, settings.splitBy)
    ensures topic.published == old(topic.published) + Published(steps, settings.notifications, hostname, Report(hostname, changes))
  {
    if |changes| == 0 {
      return [];
    }
    var written := RunWriter(settings, dir, hosts, orders);
    StepsUnfold(written, verify, restartOk);
    if written != Written {
      PublishedSingle(WriteConfig(written), settings.notifications, hostname, Report(hostname, changes));
      return [WriteConfig(written)];
    }
    steps := AfterWrite(settings, topic, hostname, changes, verify, restartOk);
  }

  /** Everything after `updateDB`, as written. */
  method ProceedAsWritten(settings: Settings, dir: ConfigDir, topic: SnsTopic, hosts: seq<Record>,
                          orders: seq<seq<string>>, hostname: string, changes: map<string, string>,
                          verifyOk: bool)
    returns (steps: seq<Step>)
    requires |orders| == |hosts| && forall i :: 0 <= i < |hosts| ==> IsListing(orders[i], hosts[i].Keys)
    requires !SingleFile(settings.splitBy) ==> forall h <- hosts :: settings.splitBy in h
    modifies dir, topic
    ensures steps == StepsAsWritten(|changes| > 0, WriterResult(old(dir.isDir), settings.splitBy), verifyOk)
    ensures Rewritten(old(dir.files), dir.files, old(dir.isDir), |changes| > 0, hosts, orders, settings.splitBy)
    ensures topic.published == old(topic.published) + Published(steps, settings.notifications, hostname, Report(hostname, changes))
  {
    if |changes| == 0 {
      return [];
    }
    var written := RunWriter(settings, dir, hosts, orders);
    StepsAsWrittenUnfold(written, verifyOk);
    if written != Written {
      PublishedSingle(WriteConfig(written), settings.notifications, hostname, Report(hostname, changes));
      return [WriteConfig(written)];
    }
    steps := AfterWriteAsWritten(settings, topic, hostname, changes, verifyOk);
  }

  /**
   * `main` with the configuration check returning a result that can be indexed:
   * restart only after a passing check, schedule downtime for the changed hosts
   * only after a successful restart, and send an error notice when either fails.
   */
  method Run(settings: Settings, db: SqliteDb, dir: ConfigDir, topic: SnsTopic,
             hosts: seq<Record>, order: seq<string>, orders: seq<seq<string>>, hostname: string,
             verify: VerifyResult, restartOk: bool)
    returns (outcome: Outcome, steps: seq<Step>)
    requires settings.hostIdent in settings.nagiosFields
    requires db.tableSql.Some? ==>
      RowsConform(db.rows, (set f | f in StoredFields(db.tableSql.value)), settings.hostIdent)
    requires forall h <- hosts :: h.Keys == (set f | f in settings.nagiosFields)
    requires DistinctIds(hosts, settings.hostIdent)
    requires IsListing(order, set f | f in settings.nagiosFields)
    requires |orders| == |hosts| && forall i :: 0 <= i < |hosts| ==> IsListing(orders[i], hosts[i].Keys)
    modifies db, dir, topic
    ensures Settled(settings, old(db.tableSql), old(db.rows), db.tableSql, db.rows, hosts, order, outcome)
    ensures !outcome.Updated? ==>
      steps == [] && dir.files == old(dir.files) && topic.published == old(topic.published)
    ensures outcome.Updated? ==>
      && steps == Steps(|outcome.changes| > 0, WriterResult(old(dir.isDir), settings.splitBy), verify, restartOk)
      && Rewritten(old(dir.files), dir.files, old(dir.isDir), |outcome.changes| > 0, hosts, orders, settings.splitBy)
      && topic.published == old(topic.published)
                            + Published(steps, settings.notifications, hostname, Report(hostname, outcome.changes))
  {
    outcome := Update(settings, db, hosts, order);
    if !outcome.Updated? {
      return outcome, [];
    }
    SplitFieldPresent(settings, hosts);
    steps := Proceed(settings, dir, topic, hosts, orders, hostname, outcome.changes, verify, restartOk);
  }

  /**
   * `main` as written: `verifyConfig` returns a bool, and indexing it with
   * 'ok' raises TypeError, so a run that gets this far never restarts Nagios,
   * never schedules downtime and never reports a failed check.
   */
  method RunAsWritten(settings: Settings, db: SqliteDb, dir: ConfigDir, topic: SnsTopic,
                      hosts: seq<Record>, order: seq<string>, orders: seq<seq<string>>, hostname: string,
                      verifyOk: bool)
    returns (outcome: Outcome, steps: seq<Step>)
    requires settings.hostIdent in settings.nagiosFields
    requires db.tableSql.Some? ==>
      RowsConform(db.rows, (set f | f in StoredFields(db.tableSql.value)), settings.hostIdent)
    requires forall h <- hosts :: h.Keys == (set f | f in settings.nagiosFields)
    requires DistinctIds(hosts, settings.hostIdent)
    requires IsListing(order, set f | f in settings.nagiosFields)
    requires |orders| == |hosts| && forall i :: 0 <= i < |hosts| ==> IsListing(orders[i], hosts[i].Keys)
    modifies db, dir, topic
    ensures Settled(settings, old(db.tableSql), old(db.rows), db.tableSql, db.rows, hosts, order, outcome)
    ensures !outcome.Updated? ==>
      steps == [] && dir.files == old(dir.files) && topic.published == old(topic.published)
    ensures outcome.Updated? ==>
      && steps == StepsAsWritten(|outcome.changes| > 0, WriterResult(old(dir.isDir), settings.splitBy), verifyOk)
      && Rewritten(old(dir.files), dir.files, old(dir.isDir), |outcome.changes| > 0, hosts, orders, settings.splitBy)
      && topic.published == old(topic.published)
                            + Published(steps, settings.notifications, hostname, Report(hostname, outcome.changes))
  {
    outcome := Update(settings, db, hosts, order);
    if !outcome.Updated? {
      return outcome, [];
    }
    SplitFieldPresent(settings, hosts);
    steps := ProceedAsWritten(settings, dir, topic, hosts, orders, hostname, outcome.changes, verifyOk);
  }

  /** A known split field other than `none` is a field of every discovered host. */
  lemma SplitFieldPresent(settings: Settings, hosts: seq<Record>)
    requires SplitKnown(settings)
    requires forall h <- hosts :: h.Keys == (set f | f in settings.nagiosFields)
    ensures !SingleFile(settings.splitBy) ==> forall h <- hosts :: settings.splitBy in h
  {
  }
}
