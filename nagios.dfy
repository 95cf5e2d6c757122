/**
 * `Nagios.Config`: the host table kept in the SQLite file, the schema check done when
 * it is opened, and `updateDB`, which brings the table in line with the discovered
 * hosts one host at a time and reports what changed.
 */
module Nagios {
  import opened PyStr
  import opened Store
  import opened NagiosSchema
  import opened NagiosChanges

  /** Every row has exactly the given fields and is stored under its own identifier. */
  predicate RowsConform(rows: map<string, Record>, fields: set<string>, hostIdent: string)
  {
    forall id <- rows :: rows[id].Keys == fields && hostIdent in rows[id] && rows[id][hostIdent] == id
  }

  /** `currentHosts` is what `getSQLHosts` returned for the rows `stored`: each row once, as stored. */
  predicate ListsRows(currentHosts: seq<Record>, stored: map<string, Record>, fields: set<string>, hostIdent: string)
  {
    && RowsConform(stored, fields, hostIdent)
    && (forall c <- currentHosts :: hostIdent in c && c[hostIdent] in stored && stored[c[hostIdent]] == c)
    && IdSet(currentHosts, hostIdent) == stored.Keys
    && DistinctIds(currentHosts, hostIdent)
  }

  /** `currentHosts2` after the hosts with the `matched` identifiers were removed: the rest, in order. */
  function Unmatched(all: seq<Record>, matched: set<string>, hostIdent: string): (r: seq<Record>)
    requires forall h <- all :: hostIdent in h
    ensures forall h <- r :: hostIdent in h && h[hostIdent] !in matched
  {
    if |all| == 0 then []
    else (if all[0][hostIdent] in matched then [] else [all[0]]) + Unmatched(all[1..], matched, hostIdent)
  }

  lemma {:induction false} UnmatchedIds(all: seq<Record>, matched: set<string>, hostIdent: string)
    requires forall h <- all :: hostIdent in h
    ensures IdSet(Unmatched(all, matched, hostIdent), hostIdent) == IdSet(all, hostIdent) - matched
  {
    if |all| > 0 {
      UnmatchedIds(all[1..], matched, hostIdent);
      assert all == [all[0]] + all[1..];
      assert IdSet(all, hostIdent) == {all[0][hostIdent]} + IdSet(all[1..], hostIdent);
      var rest := Unmatched(all[1..], matched, hostIdent);
      if all[0][hostIdent] !in matched {
        assert IdSet([all[0]] + rest, hostIdent) == {all[0][hostIdent]} + IdSet(rest, hostIdent);
      } else {
        assert Unmatched(all, matched, hostIdent) == rest;
      }
    }
  }

  lemma {:induction false} UnmatchedSkipsAbsent(s: seq<Record>, matched: set<string>, id: string, hostIdent: string)
    requires forall h <- s :: hostIdent in h && h[hostIdent] != id
    ensures Unmatched(s, matched, hostIdent) == Unmatched(s, matched + {id}, hostIdent)
  {
    if |s| > 0 {
      UnmatchedSkipsAbsent(s[1..], matched, id, hostIdent);
    }
  }

  lemma DistinctTail(all: seq<Record>, hostIdent: string)
    requires |all| > 0 && forall h <- all :: hostIdent in h
    requires DistinctIds(all, hostIdent)
    ensures DistinctIds(all[1..], hostIdent)
    ensures forall h <- all[1..] :: h[hostIdent] != all[0][hostIdent]
  {
    forall i, j | 0 <= i < j < |all[1..]| ensures all[1..][i][hostIdent] != all[1..][j][hostIdent] {
      assert all[1..][i] == all[i + 1] && all[1..][j] == all[j + 1];
    }
    forall j | 0 <= j < |all[1..]| ensures all[1..][j][hostIdent] != all[0][hostIdent] {
      assert all[1..][j] == all[j + 1];
    }
  }

  lemma RemoveMatchedHead(all: seq<Record>, matched: set<string>, hostIdent: string)
    requires |all| > 0 && forall h <- all :: hostIdent in h
    requires DistinctIds(all, hostIdent) && all[0][hostIdent] !in matched
    ensures all[0] in Unmatched(all, matched, hostIdent)
    ensures RemoveFirst(Unmatched(all, matched, hostIdent), all[0]) == Unmatched(all, matched + {all[0][hostIdent]}, hostIdent)
  {
    DistinctTail(all, hostIdent);
    var tail := Unmatched(all[1..], matched, hostIdent);
    assert Unmatched(all, matched, hostIdent) == [all[0]] + tail;
    UnmatchedSkipsAbsent(all[1..], matched, all[0][hostIdent], hostIdent);
  }

  lemma RemoveBehindHead(all: seq<Record>, matched: set<string>, c: Record, hostIdent: string)
    requires |all| > 0 && forall h <- all :: hostIdent in h
    requires hostIdent in c && all[0] != c && all[0][hostIdent] != c[hostIdent]
    requires c in Unmatched(all[1..], matched, hostIdent)
    ensures c in Unmatched(all, matched, hostIdent)
    ensures RemoveFirst(Unmatched(all, matched, hostIdent), c)
      == (if all[0][hostIdent] in matched then [] else [all[0]]) + RemoveFirst(Unmatched(all[1..], matched, hostIdent), c)
  {
    var tail := Unmatched(all[1..], matched, hostIdent);
    var s := Unmatched(all, matched, hostIdent);
    if all[0][hostIdent] !in matched {
      assert s == [all[0]] + tail;
      assert s[0] == all[0] && s[1..] == tail;
    } else {
      assert s == tail;
    }
  }

  /** `currentHosts2.remove(chost)` drops the one host with `chost`'s identifier. */
  lemma {:induction false} RemoveMatchedHost(all: seq<Record>, matched: set<string>, c: Record, hostIdent: string)
    requires forall h <- all :: hostIdent in h
    requires DistinctIds(all, hostIdent)
    requires c in all && c[hostIdent] !in matched
    ensures c in Unmatched(all, matched, hostIdent)
    ensures RemoveFirst(Unmatched(all, matched, hostIdent), c) == Unmatched(all, matched + {c[hostIdent]}, hostIdent)
  {
    if all[0] == c {
      RemoveMatchedHead(all, matched, hostIdent);
    } else {
      DistinctTail(all, hostIdent);
      assert c in all[1..] by { assert all == [all[0]] + all[1..]; }
      RemoveMatchedHost(all[1..], matched, c, hostIdent);
      RemoveBehindHead(all, matched, c, hostIdent);
    }
  }

  /** `hosts` lists the rows outside `rest`, once each, as they are stored. */
  predicate RowsListed(hosts: seq<Record>, rows: map<string, Record>, fields: set<string>, hostIdent: string, rest: set<string>)
  {
    && (forall h <- hosts :: h.Keys == fields && hostIdent in h && h[hostIdent] in rows && rows[h[hostIdent]] == h)
    && IdSet(hosts, hostIdent) == rows.Keys - rest
    && DistinctIds(hosts, hostIdent)
  }

  lemma RowsListedStep(hosts: seq<Record>, rows: map<string, Record>, fields: set<string>, hostIdent: string, rest: set<string>, key: string)
    requires RowsConform(rows, fields, hostIdent) && rest <= rows.Keys && key in rest
    requires RowsListed(hosts, rows, fields, hostIdent, rest)
    ensures RowsListed(hosts + [rows[key]], rows, fields, hostIdent, rest - {key})
  {
    var next := hosts + [rows[key]];
    assert key !in IdSet(hosts, hostIdent);
    IdSetSnoc(hosts, rows[key], hostIdent);
    forall i, j | 0 <= i < j < |next| ensures next[i][hostIdent] != next[j][hostIdent] {
      if j == |hosts| {
        assert next[i] in hosts;
      }
    }
  }

  /** `currentHosts2.remove(chost)` on the list of still unmatched stored hosts. */
  method RemoveHost(unmatched: seq<Record>, chost: Record, ghost currentHosts: seq<Record>, ghost matched: set<string>, hostIdent: string)
    returns (r: seq<Record>)
    requires forall h <- currentHosts :: hostIdent in h
    requires DistinctIds(currentHosts, hostIdent) && chost in currentHosts && chost[hostIdent] !in matched
    requires unmatched == Unmatched(currentHosts, matched, hostIdent)
    ensures r == Unmatched(currentHosts, matched + {chost[hostIdent]}, hostIdent)
  {
    RemoveMatchedHost(currentHosts, matched, chost, hostIdent);
    r := RemoveFirst(unmatched, chost);
  }

  /** What `__init__` ends in: a usable `Config`, or `exit(1)` because the stored columns differ. */
  datatype Opened = Ready(config: Config) | FieldsChanged(current: string, requested: string)

  /**
   * `Config.__init__`: create the table when there is none; otherwise accept the stored
   * table only when its columns are the configured fields, and otherwise stop with both
   * `CREATE TABLE` statements. The stored rows are assumed to follow the stored schema
   * and to be keyed by `hostIdent`, which SQLite enforces for a table this code created.
   */
  method Open(db: SqliteDb, hostIdent: string, nagiosFields: seq<string>) returns (r: Opened)
    requires hostIdent in nagiosFields
    requires db.tableSql.Some? ==> RowsConform(db.rows, (set f | f in StoredFields(db.tableSql.value)), hostIdent)
    modifies db
    ensures old(db.tableSql).None? ==>
      r.Ready? && db.tableSql == Some(CreateTableSql(nagiosFields, hostIdent)) && db.rows == map[]
    ensures old(db.tableSql).Some? ==>
      && db.tableSql == old(db.tableSql) && db.rows == old(db.rows)
      && (r.Ready? <==> SchemaAccepts(old(db.tableSql).value, nagiosFields))
    ensures r.FieldsChanged? ==>
      old(db.tableSql).Some? && r.current == old(db.tableSql).value && r.requested == CreateTableSql(nagiosFields, hostIdent)
    ensures r.Ready? ==>
      && r.config.db == db && r.config.hostIdent == hostIdent && r.config.nagiosFields == nagiosFields
      && r.config.Valid()
  {
    var createTable := CreateTableSql(nagiosFields, hostIdent);
    if db.tableSql.None? {
      db.tableSql := Some(createTable);
      db.rows := map[];
    } else {
      var ok := FieldsMatch(db.tableSql.value, nagiosFields);
      if !ok {
        return FieldsChanged(db.tableSql.value, createTable);
      }
      var stored := StoredFields(db.tableSql.value);
      assert (set f | f in stored) == (set f | f in nagiosFields) by {
        forall f ensures f in stored <==> f in nagiosFields {
          assert f in stored <==> f in multiset(stored);
          assert f in nagiosFields <==> f in multiset(nagiosFields);
        }
      }
    }
    var config := new Config(db, hostIdent, nagiosFields);
    r := Ready(config);
  }

  class Config {
    const db: SqliteDb
    const hostIdent: string
    const nagiosFields: seq<string>

    /** The configured fields as a set: the keys of every host record. */
    const fields: set<string>

    /** The table exists, the identifier is a configured field, and every row conforms. */
    ghost predicate Valid()
      reads this, db
    {
      && hostIdent in fields
      && (forall f <- nagiosFields :: f in fields) && (forall f <- fields :: f in nagiosFields)
      && db.tableSql.Some?
      && RowsConform(db.rows, fields, hostIdent)
    }

    constructor (db: SqliteDb, hostIdent: string, nagiosFields: seq<string>)
      ensures this.db == db && this.hostIdent == hostIdent && this.nagiosFields == nagiosFields
      ensures fields == set f | f in nagiosFields
    {
      this.db := db;
      this.hostIdent := hostIdent;
      this.nagiosFields := nagiosFields;
      this.fields := set f | f in nagiosFields;
    }

    /** `getSQLHosts`: one record per row, rebuilt field by field from `nagiosFields`. */
    method GetSQLHosts() returns (hosts: seq<Record>)
      requires Valid()
      ensures |hosts| == |db.rows|
      ensures forall h <- hosts :: h.Keys == fields && hostIdent in h && h[hostIdent] in db.rows && db.rows[h[hostIdent]] == h
      ensures IdSet(hosts, hostIdent) == db.rows.Keys
      ensures DistinctIds(hosts, hostIdent)
      ensures ListsRows(hosts, db.rows, fields, hostIdent)
    {
      hosts := [];
      var rest := db.rows.Keys;
      assert |db.rows| == |db.rows.Keys|;
      while rest != {}
        invariant rest <= db.rows.Keys
        invariant |hosts| + |rest| == |db.rows|
        invariant RowsListed(hosts, db.rows, fields, hostIdent, rest)
        decreases rest
      {
        var key :| key in rest;
        var hostHash := ReadRow(db.rows[key]);
        RowsListedStep(hosts, db.rows, fields, hostIdent, rest, key);
        hosts := hosts + [hostHash];
        rest := rest - {key};
      }
    }

    /** The body of `getSQLHosts`'s row loop: `hostHash[field] = row[x]` for each configured field. */
    method ReadRow(row: Record) returns (hostHash: Record)
      requires Valid() && row.Keys == fields
      ensures hostHash == row
    {
      hostHash := map[];
      for x := 0 to |nagiosFields|
        invariant hostHash == map f | f in nagiosFields[..x] :: row[f]
      {
        assert nagiosFields[..x + 1] == nagiosFields[..x] + [nagiosFields[x]];
        hostHash := hostHash[nagiosFields[x] := row[nagiosFields[x]]];
      }
      assert nagiosFields[..|nagiosFields|] == nagiosFields;
    }

    /** `addHosttoDB`: an INSERT, which the primary key refuses for a stored identifier. */
    method AddHostToDB(host: Record)
      requires host.Keys == fields && hostIdent in host && host[hostIdent] !in db.rows
      modifies db
      ensures db.tableSql == old(db.tableSql) && db.rows == old(db.rows)[host[hostIdent] := host]
    {
      db.rows := db.rows[host[hostIdent] := host];
    }

    /** `updateHostinDB`: an UPDATE of the row with the host's identifier, if there is one. */
    method UpdateHostInDB(host: Record)
      requires host.Keys == fields && hostIdent in host
      modifies db
      ensures db.tableSql == old(db.tableSql)
      ensures db.rows == if host[hostIdent] in old(db.rows) then old(db.rows)[host[hostIdent] := host] else old(db.rows)
    {
      if host[hostIdent] in db.rows {
        db.rows := db.rows[host[hostIdent] := host];
      }
    }

    /** `deleteHostinDB`: a DELETE of the row with the host's identifier. */
    method DeleteHostInDB(host: Record)
      requires hostIdent in host
      modifies db
      ensures db.tableSql == old(db.tableSql) && db.rows == old(db.rows) - {host[hostIdent]}
    {
      db.rows := db.rows - {host[hostIdent]};
    }

    /** The `for attrib in nhost` loop of `updateDB`: the differing fields, in dict order. */
    method CompareHost(nhost: Record, chost: Record, order: seq<string>) returns (different: seq<string>)
      requires HasFields(nhost, order) && HasFields(chost, order)
      ensures different == Different(nhost, chost, hostIdent, order)
    {
      different := [];
      for j := 0 to |order|
        invariant different == Different(nhost, chost, hostIdent, order[..j])
      {
        assert order[..j + 1][..j] == order[..j];
        var attrib := order[j];
        if attrib == hostIdent {
          continue;
        }
        if nhost[attrib] != chost[attrib] {
          different := different + [attrib];
        }
      }
      assert order[..|order|] == order;
    }

    /**
     * `updateDB`: reconcile the table with the discovered hosts and return the change
     * list. `order` is the order in which Python iterates a host dict.
     */
    method UpdateDB(hosts: seq<Record>, order: seq<string>) returns (changeList: map<string, string>)
      requires Valid()
      requires forall h <- hosts :: h.Keys == fields
      requires DistinctIds(hosts, hostIdent)
      requires IsListing(order, fields)
      modifies db
      ensures Valid() && db.tableSql == old(db.tableSql)
      ensures HostsComparable(hosts, hostIdent, order) && StoredComparable(old(db.rows), order)
      ensures changeList == ChangeList(old(db.rows), hosts, hostIdent, order)
      ensures db.rows == ByIdent(hosts, hostIdent)
    {
      ghost var stored := db.rows;
      var currentHosts := GetSQLHosts();
      Comparable(hosts, stored, fields, hostIdent, order);
      var currentHosts2;
      currentHosts2, changeList := ReconcileAll(hosts, order, currentHosts, stored);
      ghost var discovered := IdSet(hosts, hostIdent);
      ghost var gone := IdSet(currentHosts2, hostIdent);
      assert gone == stored.Keys - discovered by {
        UnmatchedIds(currentHosts, discovered * stored.Keys, hostIdent);
        MinusMeet(stored.Keys, discovered);
      }
      changeList := RemoveUnmatched(currentHosts2, changeList);
      assert changeList == ChangeList(stored, hosts, hostIdent, order);
      assert db.rows == ByIdent(hosts, hostIdent) by {
        ByIdentKeys(hosts, hostIdent);
        RemovedLeavesDiscovered(stored, ByIdent(hosts, hostIdent), discovered);
      }
      ByIdentConforms(hosts, fields, hostIdent);
    }

    /** `updateDB`'s loop over the discovered hosts. */
    method ReconcileAll(hosts: seq<Record>, order: seq<string>, currentHosts: seq<Record>, ghost stored: map<string, Record>)
      returns (currentHosts2: seq<Record>, changeList: map<string, string>)
      requires hostIdent in fields && db.rows == stored
      requires forall h <- hosts :: h.Keys == fields
      requires DistinctIds(hosts, hostIdent)
      requires IsListing(order, fields)
      requires ListsRows(currentHosts, stored, fields, hostIdent)
      modifies db
      requires HostsComparable(hosts, hostIdent, order) && StoredComparable(stored, order)
      ensures db.tableSql == old(db.tableSql)
      ensures changeList == DiscoveredChanges(stored, hosts, hostIdent, order)
      ensures db.rows == stored + ByIdent(hosts, hostIdent)
      ensures currentHosts2 == Unmatched(currentHosts, IdSet(hosts, hostIdent) * stored.Keys, hostIdent)
    {
      changeList := map[];
      currentHosts2 := currentHosts;
      ghost var matched: set<string> := {};
      UnmatchedSkipsNone(currentHosts, hostIdent);
      NoneDiscovered(stored, hosts, hostIdent, order);
      for n := 0 to |hosts|
        invariant db.tableSql == old(db.tableSql)
        invariant changeList == DiscoveredChanges(stored, hosts[..n], hostIdent, order)
        invariant db.rows == stored + ByIdent(hosts[..n], hostIdent)
        invariant matched == IdSet(hosts[..n], hostIdent) * stored.Keys
        invariant currentHosts2 == Unmatched(currentHosts, matched, hostIdent)
      {
        currentHosts2, changeList, matched := ReconcileNext(hosts, order, currentHosts, n, currentHosts2, changeList, stored, matched);
      }
      assert hosts[..|hosts|] == hosts;
    }

    /** The step of `updateDB`'s loop over the discovered hosts that handles `hosts[n]`. */
    method ReconcileNext(hosts: seq<Record>, order: seq<string>, currentHosts: seq<Record>, n: nat,
                         unmatched: seq<Record>, changes: map<string, string>, ghost stored: map<string, Record>, ghost matched: set<string>)
      returns (unmatchedAfter: seq<Record>, changesAfter: map<string, string>, ghost matchedAfter: set<string>)
      requires hostIdent in fields && n < |hosts|
      requires forall h <- hosts :: h.Keys == fields
      requires DistinctIds(hosts, hostIdent)
      requires IsListing(order, fields)
      requires ListsRows(currentHosts, stored, fields, hostIdent)
      requires HostsComparable(hosts, hostIdent, order) && StoredComparable(stored, order)
      requires changes == DiscoveredChanges(stored, hosts[..n], hostIdent, order)
      requires db.rows == stored + ByIdent(hosts[..n], hostIdent)
      requires matched == IdSet(hosts[..n], hostIdent) * stored.Keys
      requires unmatched == Unmatched(currentHosts, matched, hostIdent)
      modifies db
      ensures db.tableSql == old(db.tableSql)
      ensures changesAfter == DiscoveredChanges(stored, hosts[..n + 1], hostIdent, order)
      ensures db.rows == stored + ByIdent(hosts[..n + 1], hostIdent)
      ensures matchedAfter == IdSet(hosts[..n + 1], hostIdent) * stored.Keys
      ensures unmatchedAfter == Unmatched(currentHosts, matchedAfter, hostIdent)
    {
      var nhost := hosts[n];
      PrefixStep(stored, hosts, hostIdent, order, n);
      MergeUpdate(stored, ByIdent(hosts[..n], hostIdent), nhost[hostIdent], nhost);
      IntersectAdd(IdSet(hosts[..n], hostIdent), nhost[hostIdent], stored.Keys);
      unmatchedAfter, changesAfter := ReconcileHost(nhost, order, currentHosts, unmatched, changes, stored, matched);
      matchedAfter := if nhost[hostIdent] in stored then matched + {nhost[hostIdent]} else matched;
    }

    /**
     * One pass of `updateDB`'s outer loop: look `nhost` up among the stored hosts,
     * overwrite it when fields differ, insert it when it is new, record its entry and
     * take its stored host off the unmatched list.
     */
    method ReconcileHost(nhost: Record, order: seq<string>, currentHosts: seq<Record>, unmatched: seq<Record>,
                         changes: map<string, string>, ghost stored: map<string, Record>, ghost matched: set<string>)
      returns (unmatchedAfter: seq<Record>, changesAfter: map<string, string>)
      requires hostIdent in fields && nhost.Keys == fields && IsListing(order, fields)
      requires ListsRows(currentHosts, stored, fields, hostIdent) && StoredComparable(stored, order)
      requires nhost[hostIdent] !in matched && unmatched == Unmatched(currentHosts, matched, hostIdent)
      requires nhost[hostIdent] in db.rows <==> nhost[hostIdent] in stored
      requires nhost[hostIdent] in stored ==> db.rows[nhost[hostIdent]] == stored[nhost[hostIdent]]
      modifies db
      ensures db.tableSql == old(db.tableSql)
      ensures db.rows == old(db.rows)[nhost[hostIdent] := nhost]
      ensures changesAfter == WithEntry(changes, nhost[hostIdent], EntryFor(stored, nhost, hostIdent, order))
      ensures unmatchedAfter == Unmatched(currentHosts, if nhost[hostIdent] in stored then matched + {nhost[hostIdent]} else matched, hostIdent)
    {
      var id := nhost[hostIdent];
      unmatchedAfter, changesAfter := unmatched, changes;
      ghost var rowsMatched := old(db.rows)[id := nhost];
      ghost var changesMatched := WithEntry(changes, id, EntryFor(stored, nhost, hostIdent, order));
      ghost var unmatchedMatched := Unmatched(currentHosts, matched + {id}, hostIdent);
      var found := false;
      ghost var at := 0;
      for k := 0 to |currentHosts|
        invariant db.tableSql == old(db.tableSql)
        invariant !found ==> id !in IdSet(currentHosts[..k], hostIdent)
        invariant !found ==> db.rows == old(db.rows) && changesAfter == changes && unmatchedAfter == unmatched
        invariant found ==> 0 <= at < k && currentHosts[at][hostIdent] == id
        invariant found ==> db.rows == rowsMatched && changesAfter == changesMatched && unmatchedAfter == unmatchedMatched
      {
        var chost := currentHosts[k];
        IdSetTakeStep(currentHosts, k, hostIdent);
        if id == chost[hostIdent] {
          assert !found;
          unmatchedAfter, changesAfter := MatchHost(nhost, chost, order, currentHosts, unmatchedAfter, changesAfter, matched);
          found := true;
          at := k;
        }
      }
      if found {
        assert id in stored;
      } else {
        assert currentHosts[..|currentHosts|] == currentHosts;
        AddHostToDB(nhost);
        changesAfter := changesAfter[id := "added"];
      }
    }

    /**
     * The branch of `updateDB`'s inner loop where the stored host `chost` has the
     * identifier of `nhost`: drop it from `currentHosts2`, and when fields differ,
     * overwrite the row and record `updated:` with the differing fields.
     */
    method MatchHost(nhost: Record, chost: Record, order: seq<string>, ghost currentHosts: seq<Record>,
                     unmatched: seq<Record>, changes: map<string, string>, ghost matched: set<string>)
      returns (unmatchedAfter: seq<Record>, changesAfter: map<string, string>)
      requires hostIdent in fields && nhost.Keys == fields && IsListing(order, fields)
      requires chost.Keys == fields && chost[hostIdent] == nhost[hostIdent]
      requires nhost[hostIdent] in db.rows && db.rows[nhost[hostIdent]] == chost
      requires forall c <- currentHosts :: hostIdent in c
      requires DistinctIds(currentHosts, hostIdent) && chost in currentHosts && chost[hostIdent] !in matched
      requires unmatched == Unmatched(currentHosts, matched, hostIdent)
      modifies db
      ensures db.tableSql == old(db.tableSql)
      ensures db.rows == old(db.rows)[nhost[hostIdent] := nhost]
      ensures unmatchedAfter == Unmatched(currentHosts, matched + {nhost[hostIdent]}, hostIdent)
      ensures var different := Different(nhost, chost, hostIdent, order);
        changesAfter == if |different| > 0 then changes[nhost[hostIdent] := UpdatedEntry(different)] else changes
    {
      unmatchedAfter := RemoveHost(unmatched, chost, currentHosts, matched, hostIdent);
      changesAfter := changes;
      var different := CompareHost(nhost, chost, order);
      if |different| > 0 {
        UpdateHostInDB(nhost);
        changesAfter := changesAfter[chost[hostIdent] := UpdatedEntry(different)];
      } else {
        NoDifferenceMeansEqual(nhost, chost, hostIdent, order);
      }
    }

    /** `updateDB`'s loop over the stored hosts nobody matched: delete each and mark it `removed`. */
    method RemoveUnmatched(currentHosts2: seq<Record>, changes: map<string, string>) returns (changeList: map<string, string>)
      requires forall h <- currentHosts2 :: hostIdent in h
      modifies db
      ensures db.tableSql == old(db.tableSql)
      ensures db.rows == old(db.rows) - IdSet(currentHosts2, hostIdent)
      ensures changeList == changes + map id | id in IdSet(currentHosts2, hostIdent) :: "removed"
    {
      changeList := changes;
      ghost var deleted: set<string> := {};
      for k := 0 to |currentHosts2|
        invariant db.tableSql == old(db.tableSql)
        invariant deleted == IdSet(currentHosts2[..k], hostIdent)
        invariant db.rows == old(db.rows) - deleted
        invariant changeList == MarkRemoved(changes, currentHosts2[..k], hostIdent)
      {
        var host := currentHosts2[k];
        assert currentHosts2[..k + 1] == currentHosts2[..k] + [host];
        assert currentHosts2[..k + 1][..k] == currentHosts2[..k];
        IdSetSnoc(currentHosts2[..k], host, hostIdent);
        DeleteHostInDB(host);
        changeList := changeList[host[hostIdent] := "removed"];
        deleted := deleted + {host[hostIdent]};
      }
      assert currentHosts2[..|currentHosts2|] == currentHosts2;
      MarkRemovedSpec(changes, currentHosts2, hostIdent);
    }
  }

  /** Deleting the stored identifiers nobody discovered leaves exactly the discovered hosts. */
  lemma RemovedLeavesDiscovered(stored: map<string, Record>, found: map<string, Record>, ids: set<string>)
    requires found.Keys == ids
    ensures (stored + found) - (stored.Keys - ids) == found
  {
  }

  lemma Comparable(hosts: seq<Record>, stored: map<string, Record>, fields: set<string>, hostIdent: string, order: seq<string>)
    requires hostIdent in fields && IsListing(order, fields)
    requires (forall h <- hosts :: h.Keys == fields) && RowsConform(stored, fields, hostIdent)
    ensures HostsComparable(hosts, hostIdent, order) && StoredComparable(stored, order)
  {
  }

  lemma MinusMeet<T>(a: set<T>, b: set<T>)
    ensures a - b * a == a - b
  {
  }

  /** The discovered hosts, keyed by identifier, form a conforming table. */
  lemma ByIdentConforms(hosts: seq<Record>, fields: set<string>, hostIdent: string)
    requires forall h <- hosts :: h.Keys == fields && hostIdent in h
    ensures RowsConform(ByIdent(hosts, hostIdent), fields, hostIdent)
  {
  }

  lemma UnmatchedSkipsNone(all: seq<Record>, hostIdent: string)
    requires forall h <- all :: hostIdent in h
    ensures Unmatched(all, {}, hostIdent) == all
  {
  }
}
