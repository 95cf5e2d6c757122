/**
 * `Nagios.Writer`: the configuration directory is cleared of its `.cfg` files, the
 * hosts are rendered as `define host { ... }` blocks, and the blocks are written to
 * one `cloudgazer_<value>.cfg` file per value of the split field, in host order.
 */
module NagiosWriter {
  import opened PyStr
  import opened Store

  /** Python 2 `'\t' * n`: `n` tabs, and none when `n` is not positive. */
  function Tabs(n: int): (r: string)
    ensures |r| == if n <= 0 then 0 else n
    decreases n
  {
    if n <= 0 then "" else "\t" + Tabs(n - 1)
  }

  lemma {:induction false} TabsAreTabs(n: int)
    ensures forall k :: 0 <= k < |Tabs(n)| ==> Tabs(n)[k] == '\t'
    decreases n
  {
    if n > 0 {
      TabsAreTabs(n - 1);
    }
  }

  /** `longestField` after the first loop of `_convertHostToStr`: the longest field name's length. */
  function Longest(fields: seq<string>): (r: nat)
    ensures forall f <- fields :: |f| <= r
    ensures r == 0 || exists f <- fields :: |f| == r
  {
    if |fields| == 0 then 0
    else
      var init := fields[..|fields| - 1];
      var f := fields[|fields| - 1];
      assert forall g <- fields :: g in init || g == f;
      assert forall g <- init :: g in fields;
      var m := Longest(init);
      if |f| > m then |f| else m
  }

  /**
   * The number of padding tabs before a field's value. Both lengths are non-negative,
   * so Dafny's division agrees with Python 2's integer `/` here.
   */
  function TabCount(longest: nat, field: string): int
  {
    longest / 4 - |field| / 4
  }

  /** One line of a host block: `"\t%s\t\t%s%s\n" % (field, tabStr, value)`. */
  function Line(field: string, value: string, longest: nat): string
  {
    "\t" + field + "\t\t" + Tabs(TabCount(longest, field)) + value + "\n"
  }

  predicate HasFields(host: Record, order: seq<string>)
  {
    forall f <- order :: f in host
  }

  /** The lines for the fields of `order`, in that order. */
  function Lines(host: Record, order: seq<string>, longest: nat): string
    requires HasFields(host, order)
  {
    if |order| == 0 then ""
    else
      var f := order[|order| - 1];
      Lines(host, order[..|order| - 1], longest) + Line(f, host[f], longest)
  }

  /** The block `_convertHostToStr` renders for `host` when Python visits its fields in `order`. */
  function HostBlock(host: Record, order: seq<string>): string
    requires HasFields(host, order)
  {
    "define host {\n" + Lines(host, order, Longest(order)) + "}\n\n"
  }

  /**
   * The padding is never negative, is empty for a longest field, and brings every
   * value to the same tab stop, counting a field name's length in whole tabs of four.
   */
  lemma TabsAlign(order: seq<string>, field: string)
    requires field in order
    ensures TabCount(Longest(order), field) >= 0
    ensures |field| == Longest(order) ==> TabCount(Longest(order), field) == 0
    ensures |field| / 4 + |Tabs(TabCount(Longest(order), field))| == Longest(order) / 4
  {
    QuarterMonotone(|field|, Longest(order));
  }

  lemma QuarterMonotone(a: nat, b: nat)
    requires a <= b
    ensures a / 4 <= b / 4
  {
    assert b == 4 * (b / 4) + b % 4 && a == 4 * (a / 4) + a % 4;
  }

  lemma LinesStep(host: Record, order: seq<string>, i: nat, longest: nat)
    requires HasFields(host, order) && i < |order|
    ensures HasFields(host, order[..i]) && HasFields(host, order[..i + 1])
    ensures Lines(host, order[..i + 1], longest) == Lines(host, order[..i], longest) + Line(order[i], host[order[i]], longest)
  {
    assert order[..i + 1][..i] == order[..i];
  }

  lemma LongestStep(order: seq<string>, i: nat)
    requires i < |order|
    ensures Longest(order[..i + 1]) == if |order[i]| > Longest(order[..i]) then |order[i]| else Longest(order[..i])
  {
    assert order[..i + 1][..i] == order[..i];
  }

  lemma LineText(field: string, value: string, longest: nat, tabStr: string, line: string)
    requires tabStr == "" + Tabs(longest / 4 - |field| / 4)
    requires line == "\t" + field + "\t\t" + tabStr + value + "\n"
    ensures line == Line(field, value, longest)
  {
  }

  lemma Regroup(a: string, b: string, c: string)
    ensures a + (b + c) == a + b + c
  {
  }

  /** The first loop of `_convertHostToStr`: the length of the longest field name. */
  method LongestField(order: seq<string>) returns (longestField: nat)
    ensures longestField == Longest(order)
  {
    longestField := 0;
    for i := 0 to |order|
      invariant longestField == Longest(order[..i])
    {
      LongestStep(order, i);
      if |order[i]| > longestField {
        longestField := |order[i]|;
      }
    }
    assert order[..|order|] == order;
  }

  /** `_convertHostToStr`: the host block, built by its two loops over the host's fields. */
  method ConvertHostToStr(host: Record, order: seq<string>) returns (hostStr: string)
    requires HasFields(host, order)
    ensures hostStr == HostBlock(host, order)
  {
    hostStr := "define host {\n";
    var longestField := LongestField(order);
    ghost var head := hostStr;
    for i := 0 to |order|
      invariant hostStr == head + Lines(host, order[..i], longestField)
    {
      var field := order[i];
      var tabStr := "" + Tabs(longestField / 4 - |field| / 4);
      var line := "\t" + field + "\t\t" + tabStr + host[field] + "\n";
      LineText(field, host[field], longestField, tabStr, line);
      LinesStep(host, order, i, longestField);
      Regroup(head, Lines(host, order[..i], longestField), line);
      hostStr := hostStr + line;
    }
    assert order[..|order|] == order;
    hostStr := hostStr + "}\n\n";
  }

  /** `"cloudgazer_%s.cfg" % value`: the file for the hosts whose split field is `value`. */
  function FileName(value: string): string
  {
    "cloudgazer_" + value + ".cfg"
  }

  lemma FileNameParts(value: string)
    ensures |FileName(value)| == |value| + 15
    ensures FileName(value)[11..|value| + 11] == value
    ensures EndsWith(FileName(value), ".cfg")
  {
    var name := FileName(value);
    assert name[|name| - 4..] == ".cfg";
  }

  /** Different split values get different files, and every one of them is a `.cfg` file. */
  lemma FileNameInjective(a: string, b: string)
    ensures FileName(a) == FileName(b) <==> a == b
    ensures EndsWith(FileName(a), ".cfg")
  {
    FileNameParts(a);
    FileNameParts(b);
  }

  /** `splitBy.lower() == 'none'`: all hosts were meant to go to one file. */
  predicate SingleFile(splitBy: string)
  {
    Lower(splitBy) == "none"
  }

  /** `_getFileName`: `cloudgazer.cfg` without a split field, else the host's split file. */
  function GetFileName(host: Record, splitBy: string): string
    requires !SingleFile(splitBy) ==> splitBy in host
  {
    if SingleFile(splitBy) then "cloudgazer.cfg" else FileName(host[splitBy])
  }

  /** The single file's name is a `.cfg` name that no split value produces. */
  lemma SingleFileNameDistinct(value: string)
    ensures "cloudgazer.cfg" != FileName(value)
    ensures EndsWith("cloudgazer.cfg", ".cfg")
  {
    assert FileName(value)[10] == '_';
  }

  /** What `Writer` needs of its input: each host has the split field and its listed fields. */
  predicate Renderable(hosts: seq<Record>, orders: seq<seq<string>>, splitBy: string)
  {
    |orders| == |hosts| && forall i :: 0 <= i < |hosts| ==> splitBy in hosts[i] && HasFields(hosts[i], orders[i])
  }

  /** The split field of each host, in input order. */
  function SplitValues(hosts: seq<Record>, orders: seq<seq<string>>, splitBy: string): (r: seq<string>)
    requires Renderable(hosts, orders, splitBy)
    ensures |r| == |hosts|
  {
    seq(|hosts|, i requires 0 <= i < |hosts| => hosts[i][splitBy])
  }

  /** The `define host` block of each host, in input order. */
  function Blocks(hosts: seq<Record>, orders: seq<seq<string>>, splitBy: string): (r: seq<string>)
    requires Renderable(hosts, orders, splitBy)
    ensures |r| == |hosts|
  {
    seq(|hosts|, i requires 0 <= i < |hosts| => HostBlock(hosts[i], orders[i]))
  }

  /**
   * `newFiles` after `Writer`'s host loop, for the split values and blocks of the hosts
   * in input order: each block appended to the file of its value.
   */
  function Partition(values: seq<string>, blocks: seq<string>): map<string, string>
    requires |values| == |blocks|
  {
    if |values| == 0 then map[]
    else
      var n := |values| - 1;
      var files := Partition(values[..n], blocks[..n]);
      var name := FileName(values[n]);
      files[name := (if name in files then files[name] else "") + blocks[n]]
  }

  lemma PartitionStep(values: seq<string>, blocks: seq<string>, n: nat)
    requires |values| == |blocks| && n < |values|
    ensures var files := Partition(values[..n], blocks[..n]);
      var name := FileName(values[n]);
      Partition(values[..n + 1], blocks[..n + 1])
        == files[name := (if name in files then files[name] else "") + blocks[n]]
  {
    assert values[..n + 1][..n] == values[..n] && blocks[..n + 1][..n] == blocks[..n];
  }

  /** The blocks whose split value is `value`, concatenated in input order. */
  function Gather(values: seq<string>, blocks: seq<string>, value: string): string
    requires |values| == |blocks|
  {
    if |values| == 0 then ""
    else
      var n := |values| - 1;
      Gather(values[..n], blocks[..n], value) + (if values[n] == value then blocks[n] else "")
  }

  /**
   * The file for a split value exists exactly when some host has that value, and it
   * holds the blocks of those hosts in input order; without such a host there is
   * nothing to gather.
   */
  lemma {:induction false} PartitionAt(values: seq<string>, blocks: seq<string>, value: string)
    requires |values| == |blocks|
    ensures var files := Partition(values, blocks);
      && (FileName(value) in files <==> value in values)
      && (FileName(value) in files ==> files[FileName(value)] == Gather(values, blocks, value))
      && (FileName(value) !in files ==> Gather(values, blocks, value) == "")
  {
    if |values| > 0 {
      var n := |values| - 1;
      PartitionAt(values[..n], blocks[..n], value);
      FileNameInjective(values[n], value);
      var prev := Partition(values[..n], blocks[..n]);
      var files := Partition(values, blocks);
      var name := FileName(values[n]);
      var before := Gather(values[..n], blocks[..n], value);
      var key := FileName(value);
      assert values == values[..n] + [values[n]];
      if values[n] == value {
        assert Gather(values, blocks, value) == before + blocks[n];
        assert files[key] == (if key in prev then prev[key] else "") + blocks[n];
        assert (if key in prev then prev[key] else "") == before;
      } else {
        assert Gather(values, blocks, value) == before + "";
        assert before + "" == before;
        assert name != key;
        assert key in files ==> files[key] == prev[key];
      }
    }
  }

  /** Every file `Writer` produces is the `.cfg` file of a split value that occurs. */
  lemma {:induction false} PartitionKeys(values: seq<string>, blocks: seq<string>)
    requires |values| == |blocks|
    ensures Partition(values, blocks).Keys == set v <- values :: FileName(v)
    ensures forall name <- Partition(values, blocks) :: EndsWith(name, ".cfg")
  {
    if |values| > 0 {
      var n := |values| - 1;
      PartitionKeys(values[..n], blocks[..n]);
      FileNameInjective(values[n], values[n]);
      assert values == values[..n] + [values[n]];
      assert (set v <- values :: FileName(v)) == (set v <- values[..n] :: FileName(v)) + {FileName(values[n])};
    }
  }

  /** The directory after `Writer` removed every file whose name ends in `.cfg`. */
  function WithoutConfigs(files: map<string, string>): map<string, string>
  {
    map f | f in files && !EndsWith(f, ".cfg") :: files[f]
  }

  /**
   * Rendering the same hosts again leaves the directory as it is: the second run
   * removes exactly the files the first one wrote, and writes them again.
   */
  lemma RewriteIsStable(files: map<string, string>, values: seq<string>, blocks: seq<string>)
    requires |values| == |blocks|
    ensures var once := WithoutConfigs(files) + Partition(values, blocks);
      WithoutConfigs(once) + Partition(values, blocks) == once
  {
    PartitionKeys(values, blocks);
    var once := WithoutConfigs(files) + Partition(values, blocks);
    assert WithoutConfigs(once) == WithoutConfigs(files);
  }

  /** The result of `Writer`: each `exit` and the crash of the split-less branch is an outcome. */
  datatype WriteOutcome =
    | NotADirectory   // `configDir` is not a directory: exit(1) before anything is removed
    | Written         // the split files were written
    | SingleFileCrash // split `none`: `newFiles` is a list, and indexing it with a name raises TypeError

  /** The loop over the listed `.cfg` files: `os.remove` on each. */
  method RemoveConfigs(dir: ConfigDir)
    modifies dir
    ensures dir.isDir == old(dir.isDir) && dir.files == WithoutConfigs(old(dir.files))
  {
    var filelist := set f | f in dir.files && EndsWith(f, ".cfg");
    ghost var listed := filelist;
    while filelist != {}
      invariant dir.isDir == old(dir.isDir)
      invariant filelist <= listed
      invariant dir.files == old(dir.files) - (listed - filelist)
      decreases filelist
    {
      var f :| f in filelist;
      dir.files := dir.files - {f};
      filelist := filelist - {f};
    }
  }

  /** `Writer`'s host loop, for a split field: the contents of each split file. */
  method SplitHosts(hosts: seq<Record>, orders: seq<seq<string>>, splitBy: string) returns (newFiles: map<string, string>)
    requires Renderable(hosts, orders, splitBy)
    ensures newFiles == Partition(SplitValues(hosts, orders, splitBy), Blocks(hosts, orders, splitBy))
  {
    ghost var values := SplitValues(hosts, orders, splitBy);
    ghost var blocks := Blocks(hosts, orders, splitBy);
    newFiles := map[];
    for n := 0 to |hosts|
      invariant newFiles == Partition(values[..n], blocks[..n])
    {
      var host := hosts[n];
      var filename := FileName(host[splitBy]);
      var block := ConvertHostToStr(host, orders[n]);
      PartitionStep(values, blocks, n);
      ghost var files := newFiles;
      if filename !in newFiles {
        newFiles := newFiles[filename := block];
        assert "" + block == block;
      } else {
        newFiles := newFiles[filename := newFiles[filename] + block];
      }
      assert newFiles == files[filename := (if filename in files then files[filename] else "") + block];
    }
    assert values[..|hosts|] == values && blocks[..|hosts|] == blocks;
  }

  /** Hosts whose field orders list their keys, all carrying the split field, can be rendered. */
  lemma ListingsRenderable(hosts: seq<Record>, orders: seq<seq<string>>, splitBy: string)
    requires |orders| == |hosts| && forall i :: 0 <= i < |hosts| ==> IsListing(orders[i], hosts[i].Keys)
    requires forall h <- hosts :: splitBy in h
    ensures Renderable(hosts, orders, splitBy)
  {
    forall i | 0 <= i < |hosts| ensures splitBy in hosts[i] && HasFields(hosts[i], orders[i]) {
      assert hosts[i] in hosts;
    }
  }

  /** The loop over `newFiles`: each file opened for writing and given its contents. */
  method WriteFiles(dir: ConfigDir, newFiles: map<string, string>)
    modifies dir
    ensures dir.isDir == old(dir.isDir) && dir.files == old(dir.files) + newFiles
  {
    var rest := newFiles.Keys;
    while rest != {}
      invariant dir.isDir == old(dir.isDir)
      invariant rest <= newFiles.Keys
      invariant dir.files == old(dir.files) + (newFiles - rest)
      decreases rest
    {
      var file :| file in rest;
      dir.files := dir.files[file := newFiles[file]];
      rest := rest - {file};
    }
  }

  /**
   * `Writer(configDir, hosts, changedHosts, splitBy)`: `orders[i]` is the order in which
   * Python visits the fields of `hosts[i]`.
   */
  method Write(dir: ConfigDir, hosts: seq<Record>, orders: seq<seq<string>>, splitBy: string) returns (outcome: WriteOutcome)
    requires |orders| == |hosts| && forall i :: 0 <= i < |hosts| ==> IsListing(orders[i], hosts[i].Keys)
    requires !SingleFile(splitBy) ==> forall h <- hosts :: splitBy in h
    modifies dir
    ensures dir.isDir == old(dir.isDir)
    ensures !dir.isDir ==> outcome == NotADirectory && dir.files == old(dir.files)
    ensures dir.isDir && SingleFile(splitBy) ==>
      outcome == SingleFileCrash && dir.files == WithoutConfigs(old(dir.files))["cloudgazer.cfg" := ""]
    ensures dir.isDir && !SingleFile(splitBy) ==>
      outcome == Written && Renderable(hosts, orders, splitBy)
      && dir.files == WithoutConfigs(old(dir.files)) + Partition(SplitValues(hosts, orders, splitBy), Blocks(hosts, orders, splitBy))
  {
    if !dir.isDir {
      return NotADirectory;
    }
    RemoveConfigs(dir);
    if Lower(splitBy) == "none" {
      // `open(..., 'w')` creates the file empty before `newFiles[file]` fails.
      dir.files := dir.files["cloudgazer.cfg" := ""];
      return SingleFileCrash;
    }
    ListingsRenderable(hosts, orders, splitBy);
    var newFiles := SplitHosts(hosts, orders, splitBy);
    WriteFiles(dir, newFiles);
    outcome := Written;
  }
}
