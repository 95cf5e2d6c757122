/**
 * The schema check of `Nagios.Config`: the table `nagios_hosts` is created from the
 * configured field list, and on later runs the stored `CREATE TABLE` text is parsed
 * back into column names that must match the configured fields as a multiset.
 */
module NagiosSchema {
  import opened PyStr
  import opened Store

  /** The statement that creates `nagios_hosts`: every field as TEXT, keyed by the identifier. */
  function CreateTableSql(nagiosFields: seq<string>, hostIdent: string): string
  {
    "CREATE TABLE nagios_hosts(" + Join(" TEXT, ", nagiosFields) + " TEXT, PRIMARY KEY (" + hostIdent + "))"
  }

  /** The column definitions of a stored statement: the text from its first `(`, stripped of parentheses, split on commas. */
  function ColumnDefs(sql: string): seq<string>
  {
    Split(StripChars(SliceFrom(sql, Find(sql, '(')), {'(', ')'}), ',')
  }

  /** What one column definition contributes: nothing for the PRIMARY KEY clause, else its first word. */
  function ColumnEntry(col: string): seq<string>
  {
    if StartsWith(Strip(col), "PRIMARY") then [] else [Split(Strip(col), ' ')[0]]
  }

  function ColumnNames(cols: seq<string>): seq<string>
  {
    if |cols| == 0 then [] else ColumnNames(cols[..|cols| - 1]) + ColumnEntry(cols[|cols| - 1])
  }

  /** The field names a stored `CREATE TABLE` statement declares. */
  function StoredFields(sql: string): seq<string>
  {
    ColumnNames(ColumnDefs(sql))
  }

  /** The stored table is accepted when it declares the configured fields, in any order. */
  predicate SchemaAccepts(sql: string, nagiosFields: seq<string>)
  {
    multiset(StoredFields(sql)) == multiset(nagiosFields)
  }

  lemma {:induction false} ColumnNamesAppend(a: seq<string>, b: seq<string>)
    ensures ColumnNames(a + b) == ColumnNames(a) + ColumnNames(b)
    decreases |b|
  {
    if |b| == 0 {
      assert a + b == a;
    } else {
      var b' := b[..|b| - 1];
      assert (a + b)[..|a + b| - 1] == a + b';
      ColumnNamesAppend(a, b');
    }
  }

  /**
   * The loop of `Config.__init__` that takes each stored column name off a copy of
   * the configured fields: the table is accepted exactly when the stored names and
   * the configured fields are equal as multisets.
   */
  method FieldsMatch(tableSql: string, nagiosFields: seq<string>) returns (ok: bool)
    ensures ok <==> SchemaAccepts(tableSql, nagiosFields)
  {
    var extraField := false;
    var cols := ColumnDefs(tableSql);
    var checkFields := nagiosFields;
    var i := 0;
    while i < |cols|
      invariant 0 <= i <= |cols|
      invariant !extraField ==> multiset(ColumnNames(cols[..i])) + multiset(checkFields) == multiset(nagiosFields)
      invariant extraField ==> !(multiset(ColumnNames(cols)) <= multiset(nagiosFields))
    {
      var col := Strip(cols[i]);
      if StartsWith(col, "PRIMARY") {
        ColumnNamesSnoc(cols, i);
        i := i + 1;
        continue;
      }
      var fieldName := Split(col, ' ')[0];
      assert ColumnEntry(cols[i]) == [fieldName];
      if fieldName !in checkFields {
        extraField := true;
        ExtraFieldRejects(cols, i, multiset(checkFields), nagiosFields);
        break;
      }
      TakeFieldStep(cols, i, checkFields, nagiosFields);
      checkFields := RemoveFirst(checkFields, fieldName);
      i := i + 1;
    }
    if !extraField {
      assert cols[..i] == cols;
    }
    ok := !(|checkFields| > 0 || extraField);
  }

  lemma TakeFieldStep(cols: seq<string>, i: nat, checkFields: seq<string>, nagiosFields: seq<string>)
    requires i < |cols| && ColumnEntry(cols[i]) != [] && ColumnEntry(cols[i])[0] in checkFields
    requires multiset(ColumnNames(cols[..i])) + multiset(checkFields) == multiset(nagiosFields)
    ensures multiset(ColumnNames(cols[..i + 1])) + multiset(RemoveFirst(checkFields, ColumnEntry(cols[i])[0])) == multiset(nagiosFields)
  {
    ColumnNamesSnoc(cols, i);
    RemoveFirstCount(checkFields, ColumnEntry(cols[i])[0]);
  }

  lemma ColumnNamesSnoc(cols: seq<string>, i: nat)
    requires i < |cols|
    ensures ColumnNames(cols[..i + 1]) == ColumnNames(cols[..i]) + ColumnEntry(cols[i])
  {
    assert cols[..i + 1][..i] == cols[..i];
  }

  /** A stored column missing from what is left of the configured fields makes the stored names no sub-multiset of them. */
  lemma ExtraFieldRejects(cols: seq<string>, i: nat, left: multiset<string>, nagiosFields: seq<string>)
    requires i < |cols| && ColumnEntry(cols[i]) != []
    requires multiset(ColumnNames(cols[..i])) + left == multiset(nagiosFields)
    requires ColumnEntry(cols[i])[0] !in left
    ensures !(multiset(ColumnNames(cols)) <= multiset(nagiosFields))
  {
    var name := ColumnEntry(cols[i])[0];
    ColumnNamesSnoc(cols, i);
    ColumnNamesAppend(cols[..i + 1], cols[i + 1..]);
    TakeDrop(cols, i + 1);
    OverCount(multiset(ColumnNames(cols[..i])), left, name, multiset(ColumnNames(cols[i + 1..])));
  }

  lemma OverCount(done: multiset<string>, left: multiset<string>, name: string, later: multiset<string>)
    requires name !in left
    ensures !(done + multiset{name} + later <= done + left)
  {
    assert (done + multiset{name} + later)[name] > (done + left)[name];
  }

  /** A configured field name that survives the trip through the stored statement. */
  predicate PlainName(f: string)
  {
    |f| > 0 && forall k :: 0 <= k < |f| ==> !IsSpace(f[k]) && f[k] != ',' && f[k] != '(' && f[k] != ')'
  }

  predicate PlainField(f: string)
  {
    PlainName(f) && !StartsWith(f, "PRIMARY")
  }

  lemma FieldColumnEntry(lead: string, f: string)
    requires lead == "" || lead == " "
    requires PlainField(f)
    ensures ColumnEntry(lead + f + " TEXT") == [f]
  {
    var col := f + " TEXT";
    StripPadded(lead, f);
    NotPrimary(f);
    assert col == f + [' '] + "TEXT";
    SplitHead(f, ' ', "TEXT");
  }

  lemma StripPadded(lead: string, f: string)
    requires lead == "" || lead == " "
    requires PlainName(f)
    ensures Strip(lead + f + " TEXT") == f + " TEXT"
  {
    var col := f + " TEXT";
    assert col[0] == f[0] && col[|col| - 1] == 'T';
    if lead == "" {
      assert lead + f + " TEXT" == col;
      StripUntouched(col, Whitespace);
    } else {
      assert lead + f + " TEXT" == [' '] + col;
      StripOneLeading(' ', col, Whitespace);
    }
  }

  lemma NotPrimary(f: string)
    requires PlainField(f)
    ensures !StartsWith(f + " TEXT", "PRIMARY")
  {
    var col := f + " TEXT";
    if |f| >= 7 {
      assert col[..7] == f[..7];
    } else {
      assert col[|f|] == ' ';
    }
  }

  lemma KeyColumnEntry(hostIdent: string)
    requires PlainName(hostIdent)
    ensures ColumnEntry(" PRIMARY KEY (" + hostIdent) == []
  {
    var col := "PRIMARY KEY (" + hostIdent;
    assert " PRIMARY KEY (" + hostIdent == [' '] + col;
    StripOneLeading(' ', col, Whitespace);
    assert col[..7] == "PRIMARY";
  }

  lemma {:induction false} ColumnsRoundTrip(lead: string, fs: seq<string>, hostIdent: string)
    requires lead == "" || lead == " "
    requires |fs| > 0 && forall k :: 0 <= k < |fs| ==> PlainField(fs[k])
    requires PlainName(hostIdent)
    ensures ColumnNames(Split(lead + Join(" TEXT, ", fs) + " TEXT, PRIMARY KEY (" + hostIdent, ',')) == fs
    decreases |fs|
  {
    var first := lead + fs[0] + " TEXT";
    var rest := if |fs| == 1 then " PRIMARY KEY (" + hostIdent
                else " " + Join(" TEXT, ", fs[1..]) + " TEXT, PRIMARY KEY (" + hostIdent;
    assert ColumnNames(Split(rest, ',')) == fs[1..] by {
      if |fs| == 1 {
        KeyColumns(hostIdent);
      } else {
        ColumnsRoundTrip(" ", fs[1..], hostIdent);
      }
    }
    assert ColumnEntry(first) == [fs[0]] by {
      FieldColumnEntry(lead, fs[0]);
    }
    assert ',' !in first by {
      NoCommaInColumn(lead, fs[0]);
    }
    assert lead + Join(" TEXT, ", fs) + " TEXT, PRIMARY KEY (" + hostIdent == first + [','] + rest by {
      JoinStep(lead, fs, hostIdent);
    }
    SplitOffColumn(first, rest, fs[0], fs[1..]);
    ConsTail(fs);
  }

  lemma SplitOffColumn(first: string, rest: string, f: string, names: seq<string>)
    requires ',' !in first && ColumnEntry(first) == [f]
    requires ColumnNames(Split(rest, ',')) == names
    ensures ColumnNames(Split(first + [','] + rest, ',')) == [f] + names
  {
    SplitFirst(first, rest);
    ColumnNamesCons(first, Split(rest, ','));
  }

  lemma JoinStep(lead: string, fs: seq<string>, hostIdent: string)
    requires |fs| > 0
    ensures lead + Join(" TEXT, ", fs) + " TEXT, PRIMARY KEY (" + hostIdent
      == (lead + fs[0] + " TEXT") + [','] +
         (if |fs| == 1 then " PRIMARY KEY (" + hostIdent
          else " " + Join(" TEXT, ", fs[1..]) + " TEXT, PRIMARY KEY (" + hostIdent)
  {
    KeyClauseSplits();
    if |fs| == 1 {
      RegroupLast(lead, fs[0], " TEXT, PRIMARY KEY (", hostIdent, " TEXT", " PRIMARY KEY (");
    } else {
      SeparatorSplits();
      RegroupNext(lead, fs[0], Join(" TEXT, ", fs[1..]), " TEXT, ", " TEXT, PRIMARY KEY (", hostIdent,
                  " TEXT", " ", " PRIMARY KEY (");
    }
  }

  lemma KeyClauseSplits()
    ensures " TEXT, PRIMARY KEY (" == " TEXT" + [','] + " PRIMARY KEY ("
  {
  }

  lemma SeparatorSplits()
    ensures " TEXT, " == " TEXT" + [','] + " "
  {
  }

  lemma RegroupLast(lead: string, f: string, lit: string, id: string, t: string, key: string)
    requires lit == t + [','] + key
    ensures lead + f + lit + id == (lead + f + t) + [','] + (key + id)
  {
  }

  lemma RegroupNext(lead: string, f: string, j: string, sep: string, lit: string, id: string,
                    t: string, sp: string, key: string)
    requires sep == t + [','] + sp && lit == t + [','] + key
    ensures lead + (f + sep + j) + lit + id == (lead + f + t) + [','] + (sp + j + lit + id)
  {
  }

  lemma NoCommaInColumn(lead: string, f: string)
    requires lead == "" || lead == " "
    requires PlainName(f)
    ensures ',' !in lead + f + " TEXT"
  {
    var col := lead + f + " TEXT";
    forall k | 0 <= k < |col| ensures col[k] != ',' {
      if |lead| <= k < |lead| + |f| { assert col[k] == f[k - |lead|]; }
    }
  }

  lemma SplitFirst(first: string, rest: string)
    requires ',' !in first
    ensures Split(first + [','] + rest, ',') == [first] + Split(rest, ',')
  {
    FindAfterPrefix(first, ',', rest);
    var s := first + [','] + rest;
    assert s[..|first|] == first && s[|first| + 1..] == rest;
  }

  lemma ColumnNamesCons(col: string, cols: seq<string>)
    ensures ColumnNames([col] + cols) == ColumnEntry(col) + ColumnNames(cols)
  {
    ColumnNamesAppend([col], cols);
    assert [col][..0] == [];
  }

  lemma KeyColumns(hostIdent: string)
    requires PlainName(hostIdent)
    ensures ColumnNames(Split(" PRIMARY KEY (" + hostIdent, ',')) == []
  {
    var rest := " PRIMARY KEY (" + hostIdent;
    forall k | 0 <= k < |rest| ensures rest[k] != ',' {
      if k >= 14 { assert rest[k] == hostIdent[k - 14]; }
    }
    assert Split(rest, ',') == [rest];
    KeyColumnEntry(hostIdent);
    ColumnNamesCons(rest, []);
  }

  /**
   * Parsing the statement built from `nagiosFields` gives back `nagiosFields` itself,
   * in order, for field names without blanks, commas or parentheses that do not
   * start with PRIMARY.
   */
  lemma CreateTableRoundTrip(nagiosFields: seq<string>, hostIdent: string)
    requires |nagiosFields| > 0 && forall k :: 0 <= k < |nagiosFields| ==> PlainField(nagiosFields[k])
    requires PlainName(hostIdent)
    ensures StoredFields(CreateTableSql(nagiosFields, hostIdent)) == nagiosFields
  {
    var inner := Join(" TEXT, ", nagiosFields) + " TEXT, PRIMARY KEY (" + hostIdent;
    StatementShape(nagiosFields, hostIdent);
    InnerEnds(nagiosFields, hostIdent);
    StripParens(inner);
    InnerColumns(nagiosFields, hostIdent);
    StoredFieldsOf(CreateTableSql(nagiosFields, hostIdent), inner);
  }

  lemma StatementShape(nagiosFields: seq<string>, hostIdent: string)
    ensures var sql := CreateTableSql(nagiosFields, hostIdent);
      SliceFrom(sql, Find(sql, '(')) == ['('] + (Join(" TEXT, ", nagiosFields) + " TEXT, PRIMARY KEY (" + hostIdent + "))")
  {
    OpeningParen();
    RegroupStatement("CREATE TABLE nagios_hosts(", "CREATE TABLE nagios_hosts", Join(" TEXT, ", nagiosFields),
                     " TEXT, PRIMARY KEY (", hostIdent, "))");
    SliceAtParen(CreateTableSql(nagiosFields, hostIdent), "CREATE TABLE nagios_hosts",
                 Join(" TEXT, ", nagiosFields) + " TEXT, PRIMARY KEY (" + hostIdent + "))");
  }

  lemma RegroupStatement(open: string, name: string, j: string, key: string, h: string, close: string)
    requires open == name + ['(']
    ensures open + j + key + h + close == name + ['('] + (j + key + h + close)
  {
  }

  lemma SliceAtParen(sql: string, name: string, body: string)
    requires '(' !in name && sql == name + ['('] + body
    ensures SliceFrom(sql, Find(sql, '(')) == ['('] + body
  {
    FindAfterPrefix(name, '(', body);
    assert sql[|name|..] == ['('] + body;
  }

  lemma InnerColumns(nagiosFields: seq<string>, hostIdent: string)
    requires |nagiosFields| > 0 && forall k :: 0 <= k < |nagiosFields| ==> PlainField(nagiosFields[k])
    requires PlainName(hostIdent)
    ensures ColumnNames(Split(Join(" TEXT, ", nagiosFields) + " TEXT, PRIMARY KEY (" + hostIdent, ',')) == nagiosFields
  {
    ColumnsRoundTrip("", nagiosFields, hostIdent);
    assert "" + Join(" TEXT, ", nagiosFields) == Join(" TEXT, ", nagiosFields);
  }

  lemma StoredFieldsOf(sql: string, inner: string)
    requires SliceFrom(sql, Find(sql, '(')) == ['('] + (inner + "))")
    requires StripChars(['('] + (inner + "))"), {'(', ')'}) == inner
    ensures StoredFields(sql) == ColumnNames(Split(inner, ','))
  {
  }

  lemma OpeningParen()
    ensures '(' !in "CREATE TABLE nagios_hosts"
    ensures "CREATE TABLE nagios_hosts(" == "CREATE TABLE nagios_hosts" + ['(']
  {
  }

  lemma InnerEnds(nagiosFields: seq<string>, hostIdent: string)
    requires |nagiosFields| > 0 && PlainName(nagiosFields[0]) && PlainName(hostIdent)
    ensures var inner := Join(" TEXT, ", nagiosFields) + " TEXT, PRIMARY KEY (" + hostIdent;
      |inner| > 0 && inner[0] !in {'(', ')'} && inner[|inner| - 1] !in {'(', ')'}
  {
    var j := Join(" TEXT, ", nagiosFields);
    assert |j| >= |nagiosFields[0]| && j[0] == nagiosFields[0][0] by {
      if |nagiosFields| > 1 {
        assert j == nagiosFields[0] + " TEXT, " + Join(" TEXT, ", nagiosFields[1..]);
      }
    }
  }

  lemma StripParens(inner: string)
    requires |inner| > 0 && inner[0] !in {'(', ')'} && inner[|inner| - 1] !in {'(', ')'}
    ensures StripChars(['('] + (inner + "))"), {'(', ')'}) == inner
  {
    var parens := {'(', ')'};
    assert LStrip(['('] + (inner + "))"), parens) == inner + "))" by {
      assert (['('] + (inner + "))"))[1..] == inner + "))";
    }
    assert RStrip(inner + ")", parens) == inner by {
      assert (inner + ")")[..|inner|] == inner;
    }
    assert RStrip(inner + "))", parens) == inner by {
      assert (inner + "))")[..|inner| + 1] == inner + ")";
    }
  }

  /** A table created by an earlier run is accepted exactly when that run configured the same fields, in any order. */
  lemma ReopenAccepts(created: seq<string>, nagiosFields: seq<string>, hostIdent: string)
    requires |created| > 0 && forall k :: 0 <= k < |created| ==> PlainField(created[k])
    requires PlainName(hostIdent)
    ensures SchemaAccepts(CreateTableSql(created, hostIdent), nagiosFields) <==> multiset(created) == multiset(nagiosFields)
  {
    CreateTableRoundTrip(created, hostIdent);
  }
}
