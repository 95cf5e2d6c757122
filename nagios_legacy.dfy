/**
 * `NagiosConfig`, the older fixed-schema predecessor of `Nagios.Config`: the table has
 * the columns `host_name`, `alias` and `address`, and `updateDB` only computes and logs
 * the change list, comparing `alias` and then `address`; it writes nothing back.
 */
module NagiosLegacy {
  import opened PyStr
  import opened Store
  import opened NagiosChanges
  import opened Nagios

  /** The identifier column. */
  const HostName: string := "host_name"

  /** The columns `updateDB` compares, in the order it compares them. */
  const Compared: seq<string> := ["alias", "address"]

  /** The columns of the fixed table: the keys of every record `getSQLHosts` builds. */
  const LegacyFields: set<string> := {"host_name", "alias", "address"}

  /** The statement the constructor runs when there is no `nagios_hosts` table. */
  const LegacyTableSql: string := "CREATE TABLE nagios_hosts(host_name TEXT, alias TEXT, address TEXT, PRIMARY KEY (host_name));"

  /**
   * What `updateDB` demands of its input beyond the three keys: an identifier that is
   * stored occurs once, since a second occurrence would `remove` a stored host from
   * `currentHosts2` that is already gone. Repeated new identifiers are harmless.
   */
  predicate StoredOnce(hosts: seq<Record>, stored: map<string, Record>)
    requires forall h <- hosts :: HostName in h
  {
    forall i, j :: 0 <= i < j < |hosts| && hosts[i][HostName] in stored ==> hosts[i][HostName] != hosts[j][HostName]
  }

  /** What the constructor ends in: a usable `NagiosConfig`, or `exit(1)` because `configPath` is missing. */
  datatype LegacyOpened = LegacyReady(config: NagiosConfig) | NoConfigPath

  /**
   * `NagiosConfig.__init__`: stop when the configuration path does not exist, before the
   * database is touched; otherwise create the fixed table when there is no table called
   * `nagios_hosts`, and accept an existing one whatever its columns. Rows of an existing
   * table are assumed to have the three fixed columns, as `getSQLHosts` selects them.
   */
  method OpenLegacy(configPathExists: bool, db: SqliteDb) returns (r: LegacyOpened)
    requires db.tableSql.Some? ==> RowsConform(db.rows, LegacyFields, HostName)
    modifies db
    ensures !configPathExists ==> r == NoConfigPath && db.tableSql == old(db.tableSql) && db.rows == old(db.rows)
    ensures configPathExists && old(db.tableSql).None? ==> db.tableSql == Some(LegacyTableSql) && db.rows == map[]
    ensures old(db.tableSql).Some? ==> db.tableSql == old(db.tableSql) && db.rows == old(db.rows)
    ensures configPathExists ==> r.LegacyReady? && r.config.db == db && r.config.Valid()
  {
    if !configPathExists {
      return NoConfigPath;
    }
    if db.tableSql.None? {
      db.tableSql := Some(LegacyTableSql);
      db.rows := map[];
    }
    var config := new NagiosConfig(db);
    r := LegacyReady(config);
  }

  class NagiosConfig {
    const db: SqliteDb

    /** The table exists and every row has the three fixed columns and sits under its `host_name`. */
    ghost predicate Valid()
      reads this, db
    {
      db.tableSql.Some? && RowsConform(db.rows, LegacyFields, HostName)
    }

    constructor (db: SqliteDb)
      ensures this.db == db
    {
      this.db := db;
    }

    /** `getSQLHosts`: one `{'host_name', 'alias', 'address'}` record per row. */
    method GetSQLHosts() returns (hosts: seq<Record>)
      requires Valid()
      ensures ListsRows(hosts, db.rows, LegacyFields, HostName)
    {
      hosts := [];
      var rest := db.rows.Keys;
      while rest != {}
        invariant rest <= db.rows.Keys
        invariant RowsListed(hosts, db.rows, LegacyFields, HostName, rest)
        decreases rest
      {
        var key :| key in rest;
        var row := db.rows[key];
        var host := map["host_name" := row["host_name"], "alias" := row["alias"], "address" := row["address"]];
        assert host == row;
        RowsListedStep(hosts, db.rows, LegacyFields, HostName, rest, key);
        hosts := hosts + [host];
        rest := rest - {key};
      }
    }

    /**
     * `updateDB`: the change list it logs. Each discovered `host_name` is `added` when no
     * stored host has it and `updated:` with the differing columns of `alias` and
     * `address` when one has; stored hosts nobody discovered are `removed`. The method
     * may not modify the table, and does not.
     */
    method UpdateDB(hosts: seq<Record>) returns (logged: map<string, string>)
      requires Valid()
      requires HostsComparableTo(db.rows, hosts, HostName, Compared)
      requires StoredOnce(hosts, db.rows)
      ensures StoredComparable(db.rows, Compared)
      ensures logged == ChangeList(db.rows, hosts, HostName, Compared)
    {
      var currentHosts := GetSQLHosts();
      StoredCompared(db.rows);
      var currentHosts2 := currentHosts;
      logged := map[];
      ghost var matched: set<string> := {};
      UnmatchedSkipsNone(currentHosts, HostName);
      assert hosts[..0] == [];
      for n := 0 to |hosts|
        invariant logged == DiscoveredChanges(db.rows, hosts[..n], HostName, Compared)
        invariant matched == IdSet(hosts[..n], HostName) * db.rows.Keys
        invariant currentHosts2 == Unmatched(currentHosts, matched, HostName)
      {
        var nhost := hosts[n];
        LegacyPrefixStep(db.rows, hosts, n);
        IntersectAdd(IdSet(hosts[..n], HostName), nhost[HostName], db.rows.Keys);
        currentHosts2, logged := MatchAll(nhost, currentHosts, currentHosts2, logged, matched);
        matched := if nhost[HostName] in db.rows then matched + {nhost[HostName]} else matched;
      }
      assert hosts[..|hosts|] == hosts;
      ghost var discovered := IdSet(hosts, HostName);
      assert IdSet(currentHosts2, HostName) == db.rows.Keys - discovered by {
        UnmatchedIds(currentHosts, discovered * db.rows.Keys, HostName);
        MinusMeet(db.rows.Keys, discovered);
      }
      logged := MarkAllRemoved(currentHosts2, logged);
    }

    /**
     * One pass of `updateDB`'s outer loop: scan every stored host for `nhost`'s
     * `host_name`, and without a match record `added`.
     */
    method MatchAll(nhost: Record, currentHosts: seq<Record>, unmatched: seq<Record>,
                    changes: map<string, string>, ghost matched: set<string>)
      returns (unmatchedAfter: seq<Record>, changesAfter: map<string, string>)
      requires ListsRows(currentHosts, db.rows, LegacyFields, HostName)
      requires HostName in nhost && (nhost[HostName] in db.rows ==> HasFields(nhost, Compared))
      requires StoredComparable(db.rows, Compared)
      requires nhost[HostName] !in matched && unmatched == Unmatched(currentHosts, matched, HostName)
      ensures changesAfter == WithEntry(changes, nhost[HostName], EntryFor(db.rows, nhost, HostName, Compared))
      ensures unmatchedAfter == Unmatched(currentHosts, if nhost[HostName] in db.rows then matched + {nhost[HostName]} else matched, HostName)
    {
      var found;
      found, unmatchedAfter, changesAfter := ScanStored(nhost, currentHosts, unmatched, changes, matched);
      if !found {
        changesAfter := changesAfter[nhost[HostName] := "added"];
      }
    }

    /**
     * `updateDB`'s inner loop: on the stored host with `nhost`'s `host_name`, if any,
     * take it off `currentHosts2` and record `updated:` when `alias` or `address` differ.
     * It reports whether there was one, which is whether the identifier is stored.
     */
    method ScanStored(nhost: Record, currentHosts: seq<Record>, unmatched: seq<Record>,
                      changes: map<string, string>, ghost matched: set<string>)
      returns (found: bool, unmatchedAfter: seq<Record>, changesAfter: map<string, string>)
      requires ListsRows(currentHosts, db.rows, LegacyFields, HostName)
      requires HostName in nhost && (nhost[HostName] in db.rows ==> HasFields(nhost, Compared))
      requires StoredComparable(db.rows, Compared)
      requires nhost[HostName] !in matched && unmatched == Unmatched(currentHosts, matched, HostName)
      ensures found <==> nhost[HostName] in db.rows
      ensures !found ==> changesAfter == changes && unmatchedAfter == unmatched
      ensures found ==> changesAfter == WithEntry(changes, nhost[HostName], EntryFor(db.rows, nhost, HostName, Compared))
      ensures found ==> unmatchedAfter == Unmatched(currentHosts, matched + {nhost[HostName]}, HostName)
    {
      var id := nhost[HostName];
      unmatchedAfter, changesAfter := unmatched, changes;
      found := false;
      ghost var at := 0;
      for k := 0 to |currentHosts|
        invariant !found ==> id !in IdSet(currentHosts[..k], HostName)
        invariant !found ==> changesAfter == changes && unmatchedAfter == unmatched
        invariant found ==> 0 <= at < k && currentHosts[at][HostName] == id && id in db.rows
        invariant found ==> changesAfter == WithEntry(changes, id, EntryFor(db.rows, nhost, HostName, Compared))
        invariant found ==> unmatchedAfter == Unmatched(currentHosts, matched + {id}, HostName)
      {
        var chost := currentHosts[k];
        IdSetTakeStep(currentHosts, k, HostName);
        if id == chost[HostName] {
          assert !found && chost in currentHosts;
          unmatchedAfter, changesAfter := MatchOne(nhost, chost, currentHosts, unmatchedAfter, changesAfter, matched);
          found := true;
          at := k;
        }
      }
      if !found {
        assert currentHosts[..|currentHosts|] == currentHosts;
      }
    }

    /**
     * The branch of `updateDB`'s inner loop where the stored host `chost` has `nhost`'s
     * `host_name`: drop it from `currentHosts2` and record `updated:` with the differing
     * columns, if any.
     */
    method MatchOne(nhost: Record, chost: Record, ghost currentHosts: seq<Record>,
                    unmatched: seq<Record>, changes: map<string, string>, ghost matched: set<string>)
      returns (unmatchedAfter: seq<Record>, changesAfter: map<string, string>)
      requires ListsRows(currentHosts, db.rows, LegacyFields, HostName)
      requires HostName in nhost && HasFields(nhost, Compared) && StoredComparable(db.rows, Compared)
      requires chost in currentHosts && chost[HostName] == nhost[HostName]
      requires nhost[HostName] !in matched && unmatched == Unmatched(currentHosts, matched, HostName)
      ensures nhost[HostName] in db.rows
      ensures changesAfter == WithEntry(changes, nhost[HostName], EntryFor(db.rows, nhost, HostName, Compared))
      ensures unmatchedAfter == Unmatched(currentHosts, matched + {nhost[HostName]}, HostName)
    {
      unmatchedAfter := RemoveHost(unmatched, chost, currentHosts, matched, HostName);
      changesAfter := changes;
      var different := CompareHost(nhost, chost);
      if |different| > 0 {
        changesAfter := changesAfter[chost[HostName] := UpdatedEntry(different)];
      }
    }

    /** The comparison of a matched pair: `alias`, then `address`. */
    method CompareHost(nhost: Record, chost: Record) returns (different: seq<string>)
      requires HasFields(nhost, Compared) && HasFields(chost, Compared)
      ensures different == Different(nhost, chost, HostName, Compared)
    {
      different := [];
      if nhost["alias"] != chost["alias"] {
        different := different + ["alias"];
      }
      if nhost["address"] != chost["address"] {
        different := different + ["address"];
      }
      CompareInOrder(nhost, chost);
    }

    /** `updateDB`'s loop over the stored hosts nobody matched: mark each `removed`. */
    method MarkAllRemoved(currentHosts2: seq<Record>, changes: map<string, string>) returns (changeList: map<string, string>)
      requires forall h <- currentHosts2 :: HostName in h
      ensures changeList == changes + map id | id in IdSet(currentHosts2, HostName) :: "removed"
    {
      changeList := changes;
      for k := 0 to |currentHosts2|
        invariant changeList == MarkRemoved(changes, currentHosts2[..k], HostName)
      {
        var host := currentHosts2[k];
        assert currentHosts2[..k + 1][..k] == currentHosts2[..k];
        changeList := changeList[host[HostName] := "removed"];
      }
      assert currentHosts2[..|currentHosts2|] == currentHosts2;
      MarkRemovedSpec(changes, currentHosts2, HostName);
    }
  }

  /** Conforming rows carry the compared columns. */
  lemma StoredCompared(stored: map<string, Record>)
    requires RowsConform(stored, LegacyFields, HostName)
    ensures StoredComparable(stored, Compared)
  {
    forall id <- stored ensures HasFields(stored[id], Compared) {
      assert "alias" in LegacyFields && "address" in LegacyFields;
    }
  }

  /** The differing columns are `alias` when it differs, then `address` when it differs. */
  lemma CompareInOrder(nhost: Record, chost: Record)
    requires HasFields(nhost, Compared) && HasFields(chost, Compared)
    ensures Different(nhost, chost, HostName, Compared)
      == (if nhost["alias"] != chost["alias"] then ["alias"] else [])
       + (if nhost["address"] != chost["address"] then ["address"] else [])
  {
    var first := Compared[..1];
    assert first == ["alias"] && first[..0] == [] && Compared[1] == "address";
    assert Different(nhost, chost, HostName, first[..0]) == [];
    assert |"alias"| != |HostName| && |"address"| != |HostName|;
  }

  /** Extending the prefix of discovered hosts by one host, for inputs whose repeated identifiers are new. */
  lemma LegacyPrefixStep(stored: map<string, Record>, hosts: seq<Record>, n: nat)
    requires HostsComparableTo(stored, hosts, HostName, Compared) && StoredComparable(stored, Compared)
    requires StoredOnce(hosts, stored) && n < |hosts|
    ensures HostsComparableTo(stored, hosts[..n], HostName, Compared) && HostsComparableTo(stored, hosts[..n + 1], HostName, Compared)
    ensures hosts[n][HostName] in stored ==> hosts[n][HostName] !in IdSet(hosts[..n], HostName)
    ensures IdSet(hosts[..n + 1], HostName) == IdSet(hosts[..n], HostName) + {hosts[n][HostName]}
    ensures DiscoveredChanges(stored, hosts[..n + 1], HostName, Compared)
      == WithEntry(DiscoveredChanges(stored, hosts[..n], HostName, Compared), hosts[n][HostName], EntryFor(stored, hosts[n], HostName, Compared))
  {
    assert hosts[..n + 1][..n] == hosts[..n];
    IdSetTakeStep(hosts, n, HostName);
    forall j | 0 <= j < n ensures hosts[..n][j][HostName] in stored ==> hosts[..n][j][HostName] != hosts[n][HostName] {
      assert hosts[..n][j] == hosts[j];
    }
  }

  /**
   * The entries the fixed-schema diff can record for a host that is stored: exactly
   * `updated:alias`, `updated:address` or `updated:alias:address`, according to which
   * of the two columns differ, and none when both agree.
   */
  lemma LegacyEntries(nhost: Record, chost: Record)
    requires HasFields(nhost, Compared) && HasFields(chost, Compared)
    ensures var entry := UpdatedEntry(Different(nhost, chost, HostName, Compared));
      var aliasDiffers := nhost["alias"] != chost["alias"];
      var addressDiffers := nhost["address"] != chost["address"];
      && (aliasDiffers && !addressDiffers ==> entry == "updated:alias")
      && (!aliasDiffers && addressDiffers ==> entry == "updated:address")
      && (aliasDiffers && addressDiffers ==> entry == "updated:alias:address")
      && (!aliasDiffers && !addressDiffers <==> Different(nhost, chost, HostName, Compared) == [])
  {
    CompareInOrder(nhost, chost);
    var both: seq<string> := ["alias", "address"];
    assert Join(":", both) == "alias" + ":" + Join(":", both[1..]);
    assert both[1..] == ["address"];
  }

  /** Where the identifier sits in the field order makes no difference to the differing fields. */
  lemma {:induction false} DifferentWithout(nhost: Record, chost: Record, hostIdent: string, order: seq<string>)
    requires HasFields(nhost, order) && HasFields(chost, order)
    ensures HasFields(nhost, Without(order, hostIdent)) && HasFields(chost, Without(order, hostIdent))
    ensures Different(nhost, chost, hostIdent, order) == Different(nhost, chost, hostIdent, Without(order, hostIdent))
  {
    if |order| > 0 {
      var init := order[..|order| - 1];
      var f := order[|order| - 1];
      DifferentWithout(nhost, chost, hostIdent, init);
      var w := Without(init, hostIdent);
      if f != hostIdent {
        assert (w + [f])[..|w|] == w;
      } else {
        assert Without(order, hostIdent) == w + [] == w;
      }
    }
  }

  /** The discovered entries agree for two field orders under which every host's entry agrees. */
  lemma {:induction false} DiscoveredChangesAgree(stored: map<string, Record>, hosts: seq<Record>, order: seq<string>, other: seq<string>)
    requires HostsComparableTo(stored, hosts, HostName, order) && StoredComparable(stored, order)
    requires HostsComparableTo(stored, hosts, HostName, other) && StoredComparable(stored, other)
    requires forall h <- hosts :: EntryFor(stored, h, HostName, order) == EntryFor(stored, h, HostName, other)
    ensures DiscoveredChanges(stored, hosts, HostName, order) == DiscoveredChanges(stored, hosts, HostName, other)
  {
    if |hosts| > 0 {
      DiscoveredChangesAgree(stored, hosts[..|hosts| - 1], order, other);
    }
  }

  /**
   * The fixed-schema diff is the configurable one of `Nagios.Config` for the fields
   * `host_name`, `alias` and `address`, whenever the dict order visits `alias` before
   * `address`: both report the same change list.
   */
  lemma LegacyIsConfigurable(stored: map<string, Record>, hosts: seq<Record>, order: seq<string>)
    requires Without(order, HostName) == Compared
    requires HostsComparableTo(stored, hosts, HostName, order) && StoredComparable(stored, order)
    ensures HostsComparableTo(stored, hosts, HostName, Compared) && StoredComparable(stored, Compared)
    ensures ChangeList(stored, hosts, HostName, order) == ChangeList(stored, hosts, HostName, Compared)
  {
    forall h <- hosts
      ensures (h[HostName] in stored ==> HasFields(h, Compared))
      ensures EntryFor(stored, h, HostName, order) == EntryFor(stored, h, HostName, Compared)
    {
      var id := h[HostName];
      if id in stored {
        DifferentWithout(h, stored[id], HostName, order);
      }
    }
    forall id <- stored ensures HasFields(stored[id], Compared) {
      DifferentWithout(stored[id], stored[id], HostName, order);
    }
    DiscoveredChangesAgree(stored, hosts, order, Compared);
  }
}
