/**
 * The state the reconciliation works on: host records (field name to text value)
 * and the SQLite database file holding the `nagios_hosts` table.
 */
module Store {

  datatype Option<T> = None | Some(value: T)

  /** A host as a Python dict from Nagios field name to its text value. */
  type Record = map<string, string>

  /**
   * `order` is a duplicate-free listing of exactly the given fields: the order in
   * which Python 2 happens to iterate a dict with those keys, which the language
   * leaves unspecified.
   */
  ghost predicate IsListing(order: seq<string>, fields: set<string>)
  {
    && (forall i, j :: 0 <= i < j < |order| ==> order[i] != order[j])
    && (forall f <- order :: f in fields) && (forall f <- fields :: f in order)
  }

  /** Python's `list.remove(x)`: drop the first element equal to `x`. */
  function RemoveFirst<T(==)>(s: seq<T>, x: T): seq<T>
    requires x in s
  {
    if s[0] == x then s[1..] else [s[0]] + RemoveFirst(s[1..], x)
  }

  /** `list.remove(x)` takes away exactly one occurrence of `x`. */
  lemma {:induction false} RemoveFirstCount<T>(s: seq<T>, x: T)
    requires x in s
    ensures multiset(RemoveFirst(s, x)) == multiset(s) - multiset{x}
  {
    assert s == [s[0]] + s[1..];
    if s[0] != x {
      RemoveFirstCount(s[1..], x);
    }
  }

  /** `[y for y in s if y != x]`: `s` without the elements equal to `x`, in order. */
  function Without<T(==)>(s: seq<T>, x: T): (r: seq<T>)
    ensures forall y <- r :: y in s && y != x
  {
    if |s| == 0 then []
    else
      var y := s[|s| - 1];
      Without(s[..|s| - 1], x) + (if y == x then [] else [y])
  }

  lemma ConsTail<T>(s: seq<T>)
    requires |s| > 0
    ensures [s[0]] + s[1..] == s
  {
  }

  lemma TakeDrop<T>(s: seq<T>, i: nat)
    requires i <= |s|
    ensures s[..i] + s[i..] == s
  {
  }

  /** Updating a merged map is merging with the updated right-hand map. */
  lemma MergeUpdate<K, V>(a: map<K, V>, b: map<K, V>, k: K, v: V)
    ensures (a + b)[k := v] == a + b[k := v]
  {
  }

  lemma IntersectAdd<T>(a: set<T>, x: T, s: set<T>)
    ensures (a + {x}) * s == if x in s then a * s + {x} else a * s
  {
  }

  /** No two hosts share an identifier. */
  predicate DistinctIds(hosts: seq<Record>, ident: string)
    requires forall h <- hosts :: ident in h
  {
    forall i, j :: 0 <= i < j < |hosts| ==> hosts[i][ident] != hosts[j][ident]
  }

  /**
   * The SQLite database file. `tableSql` is the `sql` column of `sqlite_master`
   * for the table `nagios_hosts` (None while the table does not exist) and `rows`
   * are that table's rows, by primary key.
   */
  class SqliteDb {
    var tableSql: Option<string>
    var rows: map<string, Record>

    constructor (tableSql: Option<string>, rows: map<string, Record>)
      ensures this.tableSql == tableSql && this.rows == rows
    {
      this.tableSql := tableSql;
      this.rows := rows;
    }
  }

  /** The generated-configuration directory: whether it exists and its files by name. */
  class ConfigDir {
    var isDir: bool
    var files: map<string, string>

    constructor (isDir: bool, files: map<string, string>)
      ensures this.isDir == isDir && this.files == files
    {
      this.isDir := isDir;
      this.files := files;
    }
  }
}
