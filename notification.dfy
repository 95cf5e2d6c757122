/**
 * `Notify`: the texts cloudgazer sends after a run. A host-change report groups the
 * change list of `updateDB` into new, removed and updated hosts; an error report names
 * the host it ran on and the error. Reports go to an SNS topic unless the notification
 * settings disable them.
 */
module Notification {
  import opened PyStr
  import opened PySort
  import opened Store
  import opened NagiosChanges

  /** The three lists `_generate_host_change_message` builds. */
  datatype Groups = Groups(added: seq<string>, removed: seq<string>, updated: seq<string>)

  /** The fields an `updated` entry lists: its `:`-separated tokens other than `updated`. */
  function EntryFields(entry: string): seq<string>
  {
    Without(Split(entry, ':'), "updated")
  }

  /** How an updated host is listed: `"<host> (f1, f2)"`. */
  function UpdatedLine(host: string, entry: string): string
  {
    host + " (" + Join(", ", EntryFields(entry)) + ")"
  }

  /** How `_generate_host_change_message` reads a change-list value. */
  datatype EntryKind = New | Gone | Changed | Other

  /** The `if`/`elif` chain on a value: `added`, `removed`, a value starting with `updated`, or anything else. */
  function KindOf(v: string): EntryKind
  {
    if v == "added" then New
    else if v == "removed" then Gone
    else if StartsWith(v, "updated") then Changed
    else Other
  }

  /** The chain's tests do not overlap: each kind is exactly one test passing. */
  lemma KindOfMeaning(v: string)
    ensures KindOf(v) == New <==> v == "added"
    ensures KindOf(v) == Gone <==> v == "removed"
    ensures KindOf(v) == Changed <==> StartsWith(v, "updated")
  {
    if v == "added" || v == "removed" {
      assert v[0] != 'u';
    }
  }

  /** What one host contributes to the three lists. */
  function Filed(changes: map<string, string>, h: string): Groups
    requires h in changes
  {
    match KindOf(changes[h])
    case New => Groups([h], [], [])
    case Gone => Groups([], [h], [])
    case Changed => Groups([], [], [UpdatedLine(h, changes[h])])
    case Other => Groups([], [], [])
  }

  function Plus(g: Groups, k: Groups): Groups
  {
    Groups(g.added + k.added, g.removed + k.removed, g.updated + k.updated)
  }

  /**
   * The lists after the loop over `changedHosts`, visited in the dict order `order`:
   * each host's contribution appended in turn.
   */
  function Group(changes: map<string, string>, order: seq<string>): Groups
    requires forall h <- order :: h in changes
  {
    if |order| == 0 then Groups([], [], [])
    else Plus(Group(changes, order[..|order| - 1]), Filed(changes, order[|order| - 1]))
  }

  /** One section of the report: the heading with the count, then the sorted names joined by `"\n "`. */
  function Section(title: string, names: seq<string>): string
  {
    "- " + title + " hosts (" + NatToString(|names|) + "): \n" + Join("\n ", Sort(names)) + "\n\n"
  }

  function Header(hostname: string): string
  {
    "AWS Hosts in nagios have changed on " + hostname + ":\n\n"
  }

  /** `_generate_host_change_message`: the header, then the New, Removed and Updated sections. */
  function HostChangeMessage(hostname: string, changes: map<string, string>, order: seq<string>): string
    requires forall h <- order :: h in changes
  {
    var g := Group(changes, order);
    Header(hostname) + Section("New", g.added) + Section("Removed", g.removed) + Section("Updated", g.updated)
  }

  /**
   * Every host of `order` lands in the list its value names: New exactly for `added`,
   * Removed exactly for `removed`, and Updated holds exactly the lines of the hosts whose
   * value starts with `updated`; hosts with any other value appear nowhere.
   */
  lemma GroupMembers(changes: map<string, string>, order: seq<string>)
    requires forall h <- order :: h in changes
    ensures var g := Group(changes, order);
      && (forall h :: h in g.added <==> h in order && changes[h] == "added")
      && (forall h :: h in g.removed <==> h in order && changes[h] == "removed")
      && (forall h <- order :: StartsWith(changes[h], "updated") ==> UpdatedLine(h, changes[h]) in g.updated)
      && (forall line <- g.updated :: exists h <- order :: StartsWith(changes[h], "updated") && line == UpdatedLine(h, changes[h]))
  {
    GroupKinds(changes, order);
    forall h | h in changes {
      KindOfMeaning(changes[h]);
    }
  }

  lemma GroupKinds(changes: map<string, string>, order: seq<string>)
    requires forall h <- order :: h in changes
    ensures var g := Group(changes, order);
      && (forall h :: h in g.added <==> h in order && KindOf(changes[h]) == New)
      && (forall h :: h in g.removed <==> h in order && KindOf(changes[h]) == Gone)
      && (forall h <- order :: KindOf(changes[h]) == Changed ==> UpdatedLine(h, changes[h]) in g.updated)
      && (forall line <- g.updated :: exists h <- order :: KindOf(changes[h]) == Changed && line == UpdatedLine(h, changes[h]))
  {
    GroupNamed(changes, order);
    GroupUpdated(changes, order);
  }

  lemma {:induction false} GroupNamed(changes: map<string, string>, order: seq<string>)
    requires forall h <- order :: h in changes
    ensures var g := Group(changes, order);
      && (forall h :: h in g.added <==> h in order && KindOf(changes[h]) == New)
      && (forall h :: h in g.removed <==> h in order && KindOf(changes[h]) == Gone)
  {
    if |order| > 0 {
      var init := order[..|order| - 1];
      var last := order[|order| - 1];
      GroupNamed(changes, init);
      assert order == init + [last];
      var g, f := Group(changes, init), Filed(changes, last);
      assert Group(changes, order) == Plus(g, f);
      assert forall h :: h in f.added <==> h == last && KindOf(changes[last]) == New;
      assert forall h :: h in f.removed <==> h == last && KindOf(changes[last]) == Gone;
    }
  }

  lemma GroupUpdated(changes: map<string, string>, order: seq<string>)
    requires forall h <- order :: h in changes
    ensures var g := Group(changes, order);
      && (forall h <- order :: KindOf(changes[h]) == Changed ==> UpdatedLine(h, changes[h]) in g.updated)
      && (forall line <- g.updated :: exists h <- order :: KindOf(changes[h]) == Changed && line == UpdatedLine(h, changes[h]))
  {
    GroupUpdatedHas(changes, order);
    GroupUpdatedFrom(changes, order);
  }

  lemma {:induction false} GroupUpdatedHas(changes: map<string, string>, order: seq<string>)
    requires forall h <- order :: h in changes
    ensures forall h <- order :: KindOf(changes[h]) == Changed ==> UpdatedLine(h, changes[h]) in Group(changes, order).updated
  {
    if |order| > 0 {
      var init := order[..|order| - 1];
      var last := order[|order| - 1];
      GroupUpdatedHas(changes, init);
      assert order == init + [last];
      var g, f := Group(changes, init), Filed(changes, last);
      assert Group(changes, order).updated == g.updated + f.updated;
      assert f.updated == if KindOf(changes[last]) == Changed then [UpdatedLine(last, changes[last])] else [];
    }
  }

  lemma {:induction false} GroupUpdatedFrom(changes: map<string, string>, order: seq<string>)
    requires forall h <- order :: h in changes
    ensures forall line <- Group(changes, order).updated ::
      exists h <- order :: KindOf(changes[h]) == Changed && line == UpdatedLine(h, changes[h])
  {
    if |order| > 0 {
      var init := order[..|order| - 1];
      var last := order[|order| - 1];
      GroupUpdatedFrom(changes, init);
      assert order == init + [last];
      var g, f := Group(changes, init), Filed(changes, last);
      assert Group(changes, order).updated == g.updated + f.updated;
      assert f.updated == if KindOf(changes[last]) == Changed then [UpdatedLine(last, changes[last])] else [];
      forall line <- g.updated + f.updated
        ensures exists h <- order :: KindOf(changes[h]) == Changed && line == UpdatedLine(h, changes[h])
      {
        if line in g.updated {
          var h :| h in init && KindOf(changes[h]) == Changed && line == UpdatedLine(h, changes[h]);
          assert h in order;
        } else {
          assert last in order;
        }
      }
    }
  }

  /** An `updated:` entry is filed under Updated, not under New or Removed. */
  lemma UpdatedEntryIsUpdate(different: seq<string>)
    ensures StartsWith(UpdatedEntry(different), "updated")
    ensures UpdatedEntry(different) != "added" && UpdatedEntry(different) != "removed"
  {
    var e := UpdatedEntry(different);
    assert e[..7] == "updated";
    assert e[0] == 'u';
  }

  /**
   * Round trip of the `updated:` encoding: the fields recovered from the entry
   * `updateDB` records are the differing fields themselves, for field names without
   * `:` other than `updated`.
   */
  lemma EntryFieldsRoundTrip(different: seq<string>)
    requires |different| > 0
    requires forall f <- different :: ':' !in f && f != "updated"
    ensures EntryFields(UpdatedEntry(different)) == different
    ensures forall host :: UpdatedLine(host, UpdatedEntry(different)) == host + " (" + Join(", ", different) + ")"
  {
    var parts := ["updated"] + different;
    EntryAsJoin(different);
    forall k | 0 <= k < |parts| ensures ':' !in parts[k] {
      if k > 0 { assert parts[k] == different[k - 1]; } else { NoColonInUpdated(); }
    }
    SplitJoin(parts, ':');
    WithoutHead(different, "updated");
  }

  lemma NoColonInUpdated()
    ensures ':' !in "updated"
  {
  }

  /** The entry is the `:`-join of `updated` and the fields. */
  lemma EntryAsJoin(different: seq<string>)
    requires |different| > 0
    ensures UpdatedEntry(different) == Join([':'], ["updated"] + different)
  {
    var parts := ["updated"] + different;
    assert parts[1..] == different;
    assert Join([':'], parts) == "updated" + [':'] + Join([':'], different);
    Regroup3("updated", [':'], Join(":", different));
  }

  lemma Regroup3(a: string, b: string, c: string)
    ensures a + b + c == (a + b) + c
  {
  }

  /** Dropping the leading `x` of `[x] + s` where `x` does not occur in `s` gives back `s`. */
  lemma {:induction false} WithoutHead(s: seq<string>, x: string)
    requires x !in s
    ensures Without([x] + s, x) == s
    decreases |s|
  {
    if |s| > 0 {
      var init := s[..|s| - 1];
      assert ([x] + s)[..|s|] == [x] + init;
      WithoutHead(init, x);
      assert s == init + [s[|s| - 1]];
    }
  }

  lemma PlusAssociative(g: Groups, k: Groups, m: Groups)
    ensures Plus(Plus(g, k), m) == Plus(g, Plus(k, m))
  {
    assert (g.added + k.added) + m.added == g.added + (k.added + m.added);
    assert (g.removed + k.removed) + m.removed == g.removed + (k.removed + m.removed);
    assert (g.updated + k.updated) + m.updated == g.updated + (k.updated + m.updated);
  }

  /** Filing a concatenation of orders concatenates the lists. */
  lemma {:induction false} GroupAppend(changes: map<string, string>, a: seq<string>, b: seq<string>)
    requires (forall h <- a :: h in changes) && (forall h <- b :: h in changes)
    ensures Group(changes, a + b) == Plus(Group(changes, a), Group(changes, b))
    decreases |b|
  {
    if |b| == 0 {
      assert a + b == a;
    } else {
      var init := b[..|b| - 1];
      GroupAppend(changes, a, init);
      assert (a + b)[..|a + b| - 1] == a + init;
      PlusAssociative(Group(changes, a), Group(changes, init), Filed(changes, b[|b| - 1]));
    }
  }

  /** One of the three lists: New (0), Removed (1) or Updated (2). */
  function Pick(g: Groups, which: nat): seq<string>
  {
    if which == 0 then g.added else if which == 1 then g.removed else g.updated
  }

  lemma PickPlus(g: Groups, k: Groups, which: nat)
    ensures Pick(Plus(g, k), which) == Pick(g, which) + Pick(k, which)
  {
  }

  /** The kind of value each of the three lists collects. */
  function ListedKind(which: nat): EntryKind
  {
    if which == 0 then New else if which == 1 then Gone else Changed
  }

  /** The hosts of `order` whose value is of kind `k`. */
  function HostsOfKind(changes: map<string, string>, order: seq<string>, k: EntryKind): set<string>
    requires forall h <- order :: h in changes
  {
    set h | h in order && KindOf(changes[h]) == k
  }

  /** Visiting each host once, every list is as long as the number of hosts of its kind. */
  lemma {:induction false} GroupSize(changes: map<string, string>, order: seq<string>, which: nat)
    requires forall h <- order :: h in changes
    requires forall i, j :: 0 <= i < j < |order| ==> order[i] != order[j]
    ensures |Pick(Group(changes, order), which)| == |HostsOfKind(changes, order, ListedKind(which))|
  {
    if |order| > 0 {
      var init := order[..|order| - 1];
      var last := order[|order| - 1];
      var k := ListedKind(which);
      GroupSize(changes, init, which);
      PickPlus(Group(changes, init), Filed(changes, last), which);
      HostsOfKindSnoc(changes, order, k);
      FiledSize(changes, last, which);
      var before := HostsOfKind(changes, init, k);
      if KindOf(changes[last]) == k {
        assert |before + {last}| == |before| + 1;
      }
    }
  }

  /** One host adds one entry to the list of its kind and none to the others. */
  lemma FiledSize(changes: map<string, string>, h: string, which: nat)
    requires h in changes
    ensures |Pick(Filed(changes, h), which)| == if KindOf(changes[h]) == ListedKind(which) then 1 else 0
  {
  }

  /** The hosts of a kind grow by the last host exactly when it is of that kind and new. */
  lemma HostsOfKindSnoc(changes: map<string, string>, order: seq<string>, k: EntryKind)
    requires forall h <- order :: h in changes
    requires forall i, j :: 0 <= i < j < |order| ==> order[i] != order[j]
    requires |order| > 0
    ensures var init, last := order[..|order| - 1], order[|order| - 1];
      && last !in HostsOfKind(changes, init, k)
      && HostsOfKind(changes, order, k)
         == HostsOfKind(changes, init, k) + (if KindOf(changes[last]) == k then {last} else {})
  {
    var init, last := order[..|order| - 1], order[|order| - 1];
    assert order == init + [last];
    forall i | 0 <= i < |init| ensures init[i] != last {
      assert init[i] == order[i];
    }
  }

  /**
   * The counts in the three headings: visiting every host of the change list once,
   * New lists as many hosts as have the value `added`, Removed as many as have
   * `removed`, and Updated as many as have a value starting with `updated`.
   */
  lemma GroupCounts(changes: map<string, string>, order: seq<string>)
    requires IsListing(order, changes.Keys)
    ensures var g := Group(changes, order);
      && |g.added| == |set h | h in changes && changes[h] == "added"|
      && |g.removed| == |set h | h in changes && changes[h] == "removed"|
      && |g.updated| == |set h | h in changes && StartsWith(changes[h], "updated")|
  {
    GroupSize(changes, order, 0);
    GroupSize(changes, order, 1);
    GroupSize(changes, order, 2);
    forall h | h in changes {
      KindOfMeaning(changes[h]);
    }
    assert HostsOfKind(changes, order, New) == set h | h in changes && changes[h] == "added";
    assert HostsOfKind(changes, order, Gone) == set h | h in changes && changes[h] == "removed";
    assert HostsOfKind(changes, order, Changed) == set h | h in changes && StartsWith(changes[h], "updated");
  }

  /** Taking the first element of `a` out of `b` leaves permutations of each other. */
  lemma PermuteRest(a: seq<string>, b: seq<string>, i: nat)
    requires multiset(a) == multiset(b) && |a| > 0 && i < |b| && b[i] == a[0]
    ensures b == b[..i] + [a[0]] + b[i + 1..]
    ensures multiset(a[1..]) == multiset(b[..i] + b[i + 1..])
  {
    var x := a[0];
    assert b == b[..i] + [x] + b[i + 1..];
    assert a == [x] + a[1..];
    var m := multiset(b[..i]) + multiset(b[i + 1..]);
    assert multiset(b) == m + multiset{x};
    assert multiset(a) == multiset(a[1..]) + multiset{x};
    forall y ensures multiset(a[1..])[y] == m[y] {
      assert multiset(a)[y] == multiset(b)[y];
    }
    assert multiset(a[1..]) == m;
  }

  /** Filing a concatenation of orders files, in each list, the hosts of both parts. */
  lemma PickAppend(changes: map<string, string>, a: seq<string>, b: seq<string>, which: nat)
    requires (forall h <- a :: h in changes) && (forall h <- b :: h in changes)
    ensures forall h <- a + b :: h in changes
    ensures multiset(Pick(Group(changes, a + b), which))
      == multiset(Pick(Group(changes, a), which)) + multiset(Pick(Group(changes, b), which))
  {
    GroupAppend(changes, a, b);
    PickPlus(Group(changes, a), Group(changes, b), which);
  }

  /** Visiting the same hosts in another order files the same hosts, in another order. */
  lemma {:induction false} GroupPermutation(changes: map<string, string>, a: seq<string>, b: seq<string>, which: nat)
    requires (forall h <- a :: h in changes) && multiset(a) == multiset(b)
    ensures forall h <- b :: h in changes
    ensures multiset(Pick(Group(changes, a), which)) == multiset(Pick(Group(changes, b), which))
    decreases |a|
  {
    assert forall h <- b :: h in multiset(a);
    if |a| == 0 {
      assert b == [];
    } else {
      var x := a[0];
      assert x in multiset(b);
      var i :| 0 <= i < |b| && b[i] == x;
      var front, back := b[..i], b[i + 1..];
      var rest := front + back;
      PermuteRest(a, b, i);
      GroupPermutation(changes, a[1..], rest, which);
      ConsTail(a);
      PickAppend(changes, [x], a[1..], which);
      PickAppend(changes, front, back, which);
      PickAppend(changes, front + [x], back, which);
      PickAppend(changes, front, [x], which);
    }
  }

  /** Two duplicate-free listings of the same hosts hold each host once. */
  lemma ListingsPermute(a: seq<string>, b: seq<string>, keys: set<string>)
    requires IsListing(a, keys) && IsListing(b, keys)
    ensures multiset(a) == multiset(b)
  {
    DistinctCount(a);
    DistinctCount(b);
    forall h ensures multiset(a)[h] == multiset(b)[h] {
      assert h in a <==> h in b;
    }
  }

  lemma {:induction false} DistinctCount(s: seq<string>)
    requires forall i, j :: 0 <= i < j < |s| ==> s[i] != s[j]
    ensures forall h :: multiset(s)[h] == if h in s then 1 else 0
  {
    if |s| > 0 {
      var init := s[..|s| - 1];
      DistinctCount(init);
      assert s == init + [s[|s| - 1]];
    }
  }

  /**
   * The report does not depend on the order in which Python visits the change list:
   * each section sorts its names.
   */
  lemma MessageOrderIndependent(hostname: string, changes: map<string, string>, a: seq<string>, b: seq<string>)
    requires IsListing(a, changes.Keys) && IsListing(b, changes.Keys)
    ensures HostChangeMessage(hostname, changes, a) == HostChangeMessage(hostname, changes, b)
  {
    ListingsPermute(a, b, changes.Keys);
    GroupPermutation(changes, a, b, 0);
    GroupPermutation(changes, a, b, 1);
    GroupPermutation(changes, a, b, 2);
    var ga := Group(changes, a);
    var gb := Group(changes, b);
    assert Pick(ga, 0) == ga.added && Pick(gb, 0) == gb.added;
    assert Pick(ga, 1) == ga.removed && Pick(gb, 1) == gb.removed;
    assert Pick(ga, 2) == ga.updated && Pick(gb, 2) == gb.updated;
    SortPermutationInvariant(ga.added, gb.added);
    SortPermutationInvariant(ga.removed, gb.removed);
    SortPermutationInvariant(ga.updated, gb.updated);
  }

  /**
   * The report of a change list from `Nagios.Config.updateDB`: a discovered host that was
   * not stored is listed as new, a stored host nobody discovered as removed, and a
   * stored host with differing fields as updated with exactly those fields, for field
   * names without `:` other than `updated`.
   */
  lemma ReportOfChangeList(stored: map<string, Record>, hosts: seq<Record>, hostIdent: string, order: seq<string>,
                           keys: seq<string>, id: string)
    requires HostsComparable(hosts, hostIdent, order) && StoredComparable(stored, order)
    requires DistinctIds(hosts, hostIdent)
    requires forall f <- order :: ':' !in f && f != "updated"
    requires IsListing(keys, ChangeList(stored, hosts, hostIdent, order).Keys)
    ensures var g := Group(ChangeList(stored, hosts, hostIdent, order), keys);
      var found := ByIdent(hosts, hostIdent);
      && (id in found && id !in stored ==> id in g.added)
      && (id !in found && id in stored ==> id in g.removed)
      && (id in found && id in stored ==>
            var different := Different(found[id], stored[id], hostIdent, order);
            |different| > 0 ==> id + " (" + Join(", ", different) + ")" in g.updated)
  {
    var cl := ChangeList(stored, hosts, hostIdent, order);
    var found := ByIdent(hosts, hostIdent);
    ChangeListClassifies(stored, hosts, hostIdent, order, id);
    GroupMembers(cl, keys);
    if id in found && id in stored {
      var different := Different(found[id], stored[id], hostIdent, order);
      if |different| > 0 {
        assert found[id] in hosts;
        DifferentMembers(found[id], stored[id], hostIdent, order);
        UpdatedEntryIsUpdate(different);
        EntryFieldsRoundTrip(different);
        assert id in keys;
      }
    }
  }

  /** The first line of an error report. */
  function OnHost(hostname: string): string
  {
    "On host: " + hostname + " \n"
  }

  const KnownError: string := "Cloudgazer encounted the following error:\n\n"
  const UnknownError: string := "Cloudgazer encounted an unknown error, please investigate.\n\n"

  /** Python's truth value of the optional `message` argument: given and not empty. */
  predicate Truthy(message: Option<string>)
  {
    message.Some? && message.value != ""
  }

  /** The error branch of `Notify.__init__`: the host line, then the message or the unknown-error text. */
  function ErrorMessage(hostname: string, message: Option<string>): string
  {
    OnHost(hostname) + if Truthy(message) then KnownError + message.value else UnknownError
  }

  /**
   * An error report names its host and carries the given message after a fixed
   * introduction, from which it can be read back; without a message it is the
   * unknown-error text, which no report of a given message equals.
   */
  lemma ErrorMessageParts(hostname: string, message: Option<string>)
    ensures var text := ErrorMessage(hostname, message);
      && StartsWith(text, OnHost(hostname))
      && (Truthy(message) ==> |text| > |OnHost(hostname) + KnownError| && text[|OnHost(hostname) + KnownError|..] == message.value)
      && (!Truthy(message) ==> text == OnHost(hostname) + UnknownError)
      && (Truthy(message) ==> text != OnHost(hostname) + UnknownError)
  {
    var text := ErrorMessage(hostname, message);
    var lead := OnHost(hostname);
    assert text[..|lead|] == lead;
    if Truthy(message) {
      assert text == (lead + KnownError) + message.value;
      assert text[|lead| + 21] == KnownError[21] == 't';
      assert (lead + UnknownError)[|lead| + 21] == UnknownError[21] == 'a';
    }
  }

  /** The notification settings: the optional `enabled` key. The SNS region and topic are the `SnsTopic` itself. */
  datatype NotifyConfig = NotifyConfig(enabled: Option<bool>)

  /** Notifications are on unless the settings hold `enabled` and it is false. */
  function Enabled(config: NotifyConfig): (r: bool)
    ensures r <==> config.enabled != Some(false)
  {
    match config.enabled
    case Some(b) => b
    case None => true
  }

  /** A message published with its subject. */
  datatype Publication = Publication(message: string, subject: string)

  /** The SNS topic: what has been published to it, in order. */
  class SnsTopic {
    var published: seq<Publication>

    constructor ()
      ensures published == []
    {
      published := [];
    }
  }

  /**
   * `Notify(config, method, type, message, changedHosts, subject)`, with `method` as
   * `channel` and `type` as `kind`: compose the message,
   * then publish it to the topic when notifications are enabled and the method is SNS.
   * `order` is the dict order of `changedHosts`; `hostname` is `socket.gethostname()`.
   */
  class Notify {
    const hostname: string
    const notificationsEnabled: bool
    const message: string

    constructor (config: NotifyConfig, channel: string, kind: string, message: Option<string>,
                 changedHosts: map<string, string>, order: seq<string>, subject: string,
                 hostname: string, topic: SnsTopic)
      requires kind == "host_change" ==> forall h <- order :: h in changedHosts
      modifies topic
      ensures this.hostname == hostname && notificationsEnabled == Enabled(config)
      ensures kind == "host_change" ==> this.message == HostChangeMessage(hostname, changedHosts, order)
      ensures kind != "host_change" ==> this.message == ErrorMessage(hostname, message)
      ensures topic.published == old(topic.published)
        + if Enabled(config) && channel == "SNS" then [Publication(this.message, subject)] else []
    {
      this.hostname := hostname;
      var enabled := true;
      if config.enabled.Some? {
        enabled := config.enabled.value;
      }
      notificationsEnabled := enabled;
      var text;
      if kind == "host_change" {
        text := HostChangeMessage(hostname, changedHosts, order);
      } else {
        text := OnHost(hostname);
        if Truthy(message) {
          text := text + KnownError;
          text := text + message.value;
        } else {
          text := text + UnknownError;
        }
      }
      this.message := text;
      new;
      if enabled {
        if channel == "SNS" {
          topic.published := topic.published + [Publication(text, subject)];
        }
      }
    }
  }
}
