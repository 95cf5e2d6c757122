/**
 * What `Config.updateDB` computes, stated as functions of the stored table and the
 * discovered hosts: the change list (identifier to `added`, `updated:<fields>` or
 * `removed`) and the table it leaves behind.
 */
module NagiosChanges {
  import opened PyStr
  import opened Store

  /** Every field of `order` is a key of `r`. */
  predicate HasFields(r: Record, order: seq<string>)
  {
    forall f <- order :: f in r
  }

  /** Discovered hosts can be compared: each carries the identifier and the listed fields. */
  predicate HostsComparable(hosts: seq<Record>, hostIdent: string, order: seq<string>)
  {
    forall h <- hosts :: hostIdent in h && HasFields(h, order)
  }

  /**
   * Discovered hosts can be looked up and, where already stored, compared: each carries
   * the identifier, and a host whose identifier is stored carries the listed fields too.
   * A host seen for the first time is only inserted, so it may lack them.
   */
  predicate HostsComparableTo(stored: map<string, Record>, hosts: seq<Record>, hostIdent: string, order: seq<string>)
  {
    forall h <- hosts :: hostIdent in h && (h[hostIdent] in stored ==> HasFields(h, order))
  }

  /** Stored rows can be compared: each carries the listed fields. */
  predicate StoredComparable(stored: map<string, Record>, order: seq<string>)
  {
    forall id <- stored :: HasFields(stored[id], order)
  }

  /** The fields of `nhost`, in dict order, other than the identifier, whose value differs in `chost`. */
  function Different(nhost: Record, chost: Record, hostIdent: string, order: seq<string>): seq<string>
    requires HasFields(nhost, order) && HasFields(chost, order)
  {
    if |order| == 0 then []
    else
      var f := order[|order| - 1];
      Different(nhost, chost, hostIdent, order[..|order| - 1])
        + (if f != hostIdent && nhost[f] != chost[f] then [f] else [])
  }

  lemma {:induction false} DifferentMembers(nhost: Record, chost: Record, hostIdent: string, order: seq<string>)
    requires HasFields(nhost, order) && HasFields(chost, order)
    ensures forall f :: f in Different(nhost, chost, hostIdent, order) <==> f in order && f != hostIdent && nhost[f] != chost[f]
  {
    if |order| > 0 {
      var init := order[..|order| - 1];
      DifferentMembers(nhost, chost, hostIdent, init);
      assert order == init + [order[|order| - 1]];
    }
  }

  /**
   * Two records with the same keys, listed by `order`, and the same identifier value
   * differ in no field exactly when they are equal.
   */
  lemma NoDifferenceMeansEqual(nhost: Record, chost: Record, hostIdent: string, order: seq<string>)
    requires IsListing(order, nhost.Keys) && chost.Keys == nhost.Keys
    requires hostIdent in nhost && nhost[hostIdent] == chost[hostIdent]
    ensures Different(nhost, chost, hostIdent, order) == [] <==> nhost == chost
  {
    DifferentMembers(nhost, chost, hostIdent, order);
    if Different(nhost, chost, hostIdent, order) == [] {
      forall f | f in nhost ensures nhost[f] == chost[f] {
        assert f in order;
      }
      assert nhost == chost;
    } else {
      assert Different(nhost, chost, hostIdent, order)[0] in Different(nhost, chost, hostIdent, order);
    }
  }

  /** A record differs from itself in no field. */
  lemma {:induction false} NoDifferenceWithItself(r: Record, hostIdent: string, order: seq<string>)
    requires HasFields(r, order)
    ensures Different(r, r, hostIdent, order) == []
  {
    if |order| > 0 {
      NoDifferenceWithItself(r, hostIdent, order[..|order| - 1]);
    }
  }

  /** The change-list value for a stored host whose listed fields differ. */
  function UpdatedEntry(different: seq<string>): string
  {
    "updated:" + Join(":", different)
  }

  /** The entry one discovered host contributes to the change list, if any. */
  function EntryFor(stored: map<string, Record>, nhost: Record, hostIdent: string, order: seq<string>): Option<string>
    requires hostIdent in nhost && (nhost[hostIdent] in stored ==> HasFields(nhost, order))
    requires StoredComparable(stored, order)
  {
    var id := nhost[hostIdent];
    if id !in stored then Some("added")
    else
      var different := Different(nhost, stored[id], hostIdent, order);
      if |different| > 0 then Some(UpdatedEntry(different)) else None
  }

  /** The entries of the discovered hosts, in input order, later ones overwriting earlier ones. */
  function DiscoveredChanges(stored: map<string, Record>, hosts: seq<Record>, hostIdent: string, order: seq<string>): map<string, string>
    requires HostsComparableTo(stored, hosts, hostIdent, order) && StoredComparable(stored, order)
  {
    if |hosts| == 0 then map[]
    else
      var h := hosts[|hosts| - 1];
      WithEntry(DiscoveredChanges(stored, hosts[..|hosts| - 1], hostIdent, order), h[hostIdent], EntryFor(stored, h, hostIdent, order))
  }

  /** `changes` with `id` set to the entry, when there is one. */
  function WithEntry(changes: map<string, string>, id: string, entry: Option<string>): map<string, string>
  {
    match entry
    case Some(e) => changes[id := e]
    case None => changes
  }

  /** The identifiers of the discovered hosts. */
  function IdSet(hosts: seq<Record>, hostIdent: string): set<string>
    requires forall h <- hosts :: hostIdent in h
  {
    set h <- hosts :: h[hostIdent]
  }

  lemma IdSetSnoc(hosts: seq<Record>, h: Record, hostIdent: string)
    requires (forall g <- hosts :: hostIdent in g) && hostIdent in h
    ensures IdSet(hosts + [h], hostIdent) == IdSet(hosts, hostIdent) + {h[hostIdent]}
  {
    assert forall g <- hosts + [h] :: g in hosts || g == h;
  }

  lemma IdSetTakeStep(hosts: seq<Record>, k: nat, hostIdent: string)
    requires (forall g <- hosts :: hostIdent in g) && k < |hosts|
    ensures IdSet(hosts[..k + 1], hostIdent) == IdSet(hosts[..k], hostIdent) + {hosts[k][hostIdent]}
  {
    assert hosts[..k + 1] == hosts[..k] + [hosts[k]];
    IdSetSnoc(hosts[..k], hosts[k], hostIdent);
  }

  /** `changes` with every identifier of `gone` marked `removed`, one host at a time. */
  function MarkRemoved(changes: map<string, string>, gone: seq<Record>, hostIdent: string): map<string, string>
    requires forall h <- gone :: hostIdent in h
  {
    if |gone| == 0 then changes
    else MarkRemoved(changes, gone[..|gone| - 1], hostIdent)[gone[|gone| - 1][hostIdent] := "removed"]
  }

  lemma {:induction false} MarkRemovedAt(changes: map<string, string>, gone: seq<Record>, hostIdent: string, id: string)
    requires forall h <- gone :: hostIdent in h
    ensures id in MarkRemoved(changes, gone, hostIdent) <==> id in changes || id in IdSet(gone, hostIdent)
    ensures id in IdSet(gone, hostIdent) ==> MarkRemoved(changes, gone, hostIdent)[id] == "removed"
    ensures id in changes && id !in IdSet(gone, hostIdent) ==> MarkRemoved(changes, gone, hostIdent)[id] == changes[id]
  {
    if |gone| > 0 {
      var init := gone[..|gone| - 1];
      MarkRemovedAt(changes, init, hostIdent, id);
      assert gone == init + [gone[|gone| - 1]];
      IdSetSnoc(init, gone[|gone| - 1], hostIdent);
    }
  }

  lemma MarkRemovedSpec(changes: map<string, string>, gone: seq<Record>, hostIdent: string)
    requires forall h <- gone :: hostIdent in h
    ensures MarkRemoved(changes, gone, hostIdent) == changes + map id | id in IdSet(gone, hostIdent) :: "removed"
  {
    var r := MarkRemoved(changes, gone, hostIdent);
    var target := changes + map id | id in IdSet(gone, hostIdent) :: "removed";
    forall id ensures (id in r <==> id in target) && (id in r ==> r[id] == target[id]) {
      MarkRemovedAt(changes, gone, hostIdent, id);
    }
  }

  /** `updateDB`'s result: the discovered entries plus `removed` for every stored host nobody matched. */
  function ChangeList(stored: map<string, Record>, hosts: seq<Record>, hostIdent: string, order: seq<string>): map<string, string>
    requires HostsComparableTo(stored, hosts, hostIdent, order) && StoredComparable(stored, order)
  {
    DiscoveredChanges(stored, hosts, hostIdent, order)
      + map id | id in stored.Keys - IdSet(hosts, hostIdent) :: "removed"
  }

  /** The discovered hosts keyed by identifier, a later host replacing an earlier one with the same identifier. */
  function ByIdent(hosts: seq<Record>, hostIdent: string): (r: map<string, Record>)
    requires forall h <- hosts :: hostIdent in h
    ensures forall id <- r :: r[id] in hosts && r[id][hostIdent] == id
  {
    if |hosts| == 0 then map[]
    else
      var h := hosts[|hosts| - 1];
      ByIdent(hosts[..|hosts| - 1], hostIdent)[h[hostIdent] := h]
  }

  /** The discovered identifiers are exactly the keys of the discovered hosts. */
  lemma {:induction false} ByIdentKeys(hosts: seq<Record>, hostIdent: string)
    requires forall h <- hosts :: hostIdent in h
    ensures ByIdent(hosts, hostIdent).Keys == IdSet(hosts, hostIdent)
  {
    if |hosts| > 0 {
      var init := hosts[..|hosts| - 1];
      ByIdentKeys(init, hostIdent);
      assert hosts == init + [hosts[|hosts| - 1]];
      assert IdSet(hosts, hostIdent) == IdSet(init, hostIdent) + {hosts[|hosts| - 1][hostIdent]};
    }
  }

  /** With distinct identifiers, the `i`-th discovered host is found under its own identifier. */
  lemma {:induction false} ByIdentAt(hosts: seq<Record>, hostIdent: string, i: int)
    requires forall h <- hosts :: hostIdent in h
    requires DistinctIds(hosts, hostIdent)
    requires 0 <= i < |hosts|
    ensures hosts[i][hostIdent] in ByIdent(hosts, hostIdent)
    ensures ByIdent(hosts, hostIdent)[hosts[i][hostIdent]] == hosts[i]
  {
    if i < |hosts| - 1 {
      var init := hosts[..|hosts| - 1];
      ByIdentAt(init, hostIdent, i);
      assert init[i] == hosts[i];
      assert hosts[i][hostIdent] != hosts[|hosts| - 1][hostIdent];
    }
  }

  /** Extending the prefix of discovered hosts by one host extends each function by that host. */
  lemma PrefixStep(stored: map<string, Record>, hosts: seq<Record>, hostIdent: string, order: seq<string>, n: int)
    requires HostsComparableTo(stored, hosts, hostIdent, order) && StoredComparable(stored, order)
    requires DistinctIds(hosts, hostIdent)
    requires 0 <= n < |hosts|
    ensures hostIdent in hosts[n] && HostsComparableTo(stored, hosts[..n], hostIdent, order)
    ensures hosts[n][hostIdent] !in IdSet(hosts[..n], hostIdent)
    ensures ByIdent(hosts[..n], hostIdent).Keys == IdSet(hosts[..n], hostIdent)
    ensures IdSet(hosts[..n + 1], hostIdent) == IdSet(hosts[..n], hostIdent) + {hosts[n][hostIdent]}
    ensures ByIdent(hosts[..n + 1], hostIdent) == ByIdent(hosts[..n], hostIdent)[hosts[n][hostIdent] := hosts[n]]
    ensures DiscoveredChanges(stored, hosts[..n + 1], hostIdent, order)
      == WithEntry(DiscoveredChanges(stored, hosts[..n], hostIdent, order), hosts[n][hostIdent], EntryFor(stored, hosts[n], hostIdent, order))
  {
    var before := hosts[..n];
    assert hosts[..n + 1] == before + [hosts[n]];
    assert hosts[..n + 1][..n] == before;
    forall j | 0 <= j < n ensures before[j][hostIdent] != hosts[n][hostIdent] {
      assert before[j] == hosts[j];
    }
    ByIdentKeys(before, hostIdent);
    IdSetSnoc(before, hosts[n], hostIdent);
  }

  /** Before the first discovered host: no entries, no hosts keyed, no identifiers. */
  lemma NoneDiscovered(stored: map<string, Record>, hosts: seq<Record>, hostIdent: string, order: seq<string>)
    requires HostsComparableTo(stored, hosts, hostIdent, order) && StoredComparable(stored, order)
    ensures DiscoveredChanges(stored, hosts[..0], hostIdent, order) == map[]
    ensures stored + ByIdent(hosts[..0], hostIdent) == stored
    ensures IdSet(hosts[..0], hostIdent) * stored.Keys == {}
  {
    assert hosts[..0] == [];
  }

  /** The entry the `i`-th discovered host contributes is the one the discovered entries hold for its identifier. */
  lemma {:induction false} DiscoveredChangesAt(stored: map<string, Record>, hosts: seq<Record>, hostIdent: string, order: seq<string>, i: int)
    requires HostsComparableTo(stored, hosts, hostIdent, order) && StoredComparable(stored, order)
    requires DistinctIds(hosts, hostIdent)
    requires 0 <= i < |hosts|
    ensures var e := EntryFor(stored, hosts[i], hostIdent, order);
      var dc := DiscoveredChanges(stored, hosts, hostIdent, order);
      (e.Some? ==> hosts[i][hostIdent] in dc && dc[hosts[i][hostIdent]] == e.value)
      && (e.None? ==> hosts[i][hostIdent] !in dc)
  {
    var init := hosts[..|hosts| - 1];
    if i < |hosts| - 1 {
      DiscoveredChangesAt(stored, init, hostIdent, order, i);
      assert init[i] == hosts[i];
      assert hosts[i][hostIdent] != hosts[|hosts| - 1][hostIdent];
    } else {
      DiscoveredChangesKeys(stored, init, hostIdent, order);
      assert hosts[i][hostIdent] !in IdSet(init, hostIdent) by {
        forall j | 0 <= j < |init| ensures init[j][hostIdent] != hosts[i][hostIdent] {
          assert init[j] == hosts[j];
        }
      }
    }
  }

  /** Only discovered identifiers carry discovered entries. */
  lemma {:induction false} DiscoveredChangesKeys(stored: map<string, Record>, hosts: seq<Record>, hostIdent: string, order: seq<string>)
    requires HostsComparableTo(stored, hosts, hostIdent, order) && StoredComparable(stored, order)
    ensures DiscoveredChanges(stored, hosts, hostIdent, order).Keys <= IdSet(hosts, hostIdent)
  {
    if |hosts| > 0 {
      var init := hosts[..|hosts| - 1];
      DiscoveredChangesKeys(stored, init, hostIdent, order);
      assert hosts == init + [hosts[|hosts| - 1]];
      assert IdSet(hosts, hostIdent) == IdSet(init, hostIdent) + {hosts[|hosts| - 1][hostIdent]};
    }
  }

  /**
   * The change list classifies every identifier: a discovered identifier not stored is
   * `added`; a stored one whose fields differ is `updated:` followed by the differing
   * fields joined with `:`; a stored one that is unchanged has no entry; a stored
   * identifier nobody discovered is `removed`; and nothing else appears.
   */
  lemma ChangeListClassifies(stored: map<string, Record>, hosts: seq<Record>, hostIdent: string, order: seq<string>, id: string)
    requires HostsComparableTo(stored, hosts, hostIdent, order) && StoredComparable(stored, order)
    requires DistinctIds(hosts, hostIdent)
    ensures var cl := ChangeList(stored, hosts, hostIdent, order);
      var found := ByIdent(hosts, hostIdent);
      && (id in found && id !in stored ==> id in cl && cl[id] == "added")
      && (id in found && id in stored ==>
            var different := Different(found[id], stored[id], hostIdent, order);
            (|different| > 0 ==> id in cl && cl[id] == UpdatedEntry(different))
            && (|different| == 0 ==> id !in cl))
      && (id !in found && id in stored ==> id in cl && cl[id] == "removed")
      && (id !in found && id !in stored ==> id !in cl)
  {
    ByIdentKeys(hosts, hostIdent);
    DiscoveredChangesKeys(stored, hosts, hostIdent, order);
    var found := ByIdent(hosts, hostIdent);
    if id in found {
      var i :| 0 <= i < |hosts| && hosts[i][hostIdent] == id;
      ByIdentAt(hosts, hostIdent, i);
      DiscoveredChangesAt(stored, hosts, hostIdent, order, i);
    }
  }

  /** Every identifier in the change list is a discovered or a stored one. */
  lemma ChangeListKeys(stored: map<string, Record>, hosts: seq<Record>, hostIdent: string, order: seq<string>)
    requires HostsComparableTo(stored, hosts, hostIdent, order) && StoredComparable(stored, order)
    ensures ChangeList(stored, hosts, hostIdent, order).Keys <= IdSet(hosts, hostIdent) + stored.Keys
  {
    DiscoveredChangesKeys(stored, hosts, hostIdent, order);
  }

  /**
   * Idempotence: once the table holds exactly the discovered hosts, comparing the same
   * hosts again yields an empty change list.
   */
  lemma SecondRunIsQuiet(hosts: seq<Record>, hostIdent: string, order: seq<string>)
    requires HostsComparable(hosts, hostIdent, order)
    requires DistinctIds(hosts, hostIdent)
    ensures StoredComparable(ByIdent(hosts, hostIdent), order)
    ensures ChangeList(ByIdent(hosts, hostIdent), hosts, hostIdent, order) == map[]
  {
    var stored := ByIdent(hosts, hostIdent);
    forall id ensures id !in ChangeList(stored, hosts, hostIdent, order) {
      ChangeListClassifies(stored, hosts, hostIdent, order, id);
      if id in stored {
        NoDifferenceWithItself(stored[id], hostIdent, order);
      }
    }
  }
}
