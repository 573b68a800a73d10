/**
 * The metric CSV loader inside `updateMap`: the text is split into lines,
 * the header line is dropped, and every other line writes one entry of the
 * metric table, later lines overwriting earlier ones. A line without a
 * comma makes `value.trim()` throw, which abandons the whole table.
 */
module MetricCsv {
  import opened Wrappers
  import opened Text
  import opened Choropleth

  /** Why loading failed: the data row (counted from 0, after the header)
      had no second field, so `value` was `undefined`. */
  datatype LoadError = MissingValue(row: nat)

  /** The data rows: every line after the first. */
  function Rows(data: string): seq<string> {
    Split(data, "\n")[1..]
  }

  /** The key a row writes: its first field, trimmed. */
  function Key(row: string): string {
    Trim(Split(row, ",")[0])
  }

  /** `const [state, value] = row.split(",")` and the entry it writes:
      `None` when there is no second field; fields after the second are
      never looked at. `parse` is `parseFloat`, `None` standing for `NaN`. */
  function ParseRow(row: string, parse: string -> Option<real>): Option<(string, Option<real>)> {
    var fields := Split(row, ",");
    if |fields| < 2 then None else Some((Key(row), parse(Trim(fields[1]))))
  }

  /** One parsed row: the key and value it writes, or `None` when it throws. */
  type Entry = Option<(string, Option<real>)>

  /** Every data row parsed on its own. */
  function Entries(rows: seq<string>, parse: string -> Option<real>): seq<Entry> {
    seq(|rows|, j requires 0 <= j < |rows| => ParseRow(rows[j], parse))
  }

  /** The `forEach` over the rows from `i` on, as a left fold into `acc`: a
      throwing row abandons the table. */
  function Fill(es: seq<Entry>, i: nat, acc: MetricTable): Result<MetricTable, LoadError>
    requires i <= |es|
    decreases |es| - i
  {
    if i == |es| then Ok(acc)
    else match es[i]
      case None => Err(MissingValue(i))
      case Some(entry) => Fill(es, i + 1, acc[entry.0 := entry.1])
  }

  /** The table the loader builds from the fetched text. */
  function TableOf(data: string, parse: string -> Option<real>): Result<MetricTable, LoadError> {
    Fill(Entries(Rows(data), parse), 0, map[])
  }

  /** The loader's loop: fills a fresh table row by row, overwriting on a
      repeated key, and gives up at the first row with no comma. */
  method LoadMetricTable(data: string, parse: string -> Option<real>)
    returns (r: Result<MetricTable, LoadError>)
    ensures r == TableOf(data, parse)
  {
    var rows := Split(data, "\n")[1..];
    ghost var es := Entries(rows, parse);
    var table: MetricTable := map[];
    var i := 0;
    while i < |rows|
      invariant i <= |rows|
      invariant Fill(es, i, table) == Fill(es, 0, map[])
    {
      var fields := Split(rows[i], ",");
      if |fields| < 2 {
        return Err(MissingValue(i));
      }
      table := table[Trim(fields[0]) := parse(Trim(fields[1]))];
      i := i + 1;
    }
    r := Ok(table);
  }

  /** A row can be parsed exactly when it contains a comma. */
  lemma ParseRowDefined(row: string, parse: string -> Option<real>)
    ensures ParseRow(row, parse).Some? <==> ',' in row
    ensures ParseRow(row, parse).Some? ==> ParseRow(row, parse).value.0 == Key(row)
  {
    SplitCharPieces(row, ',');
  }

  /** The fold fails exactly when some remaining row throws, and it reports
      the first such row. */
  lemma {:induction false} FillFails(es: seq<Entry>, i: nat, acc: MetricTable)
    requires i <= |es|
    ensures Fill(es, i, acc).Err? <==> exists j :: i <= j < |es| && es[j].None?
    ensures Fill(es, i, acc).Err? ==>
      var j := Fill(es, i, acc).error.row;
      i <= j < |es| && es[j].None? && forall k :: i <= k < j ==> es[k].Some?
    decreases |es| - i
  {
    if i < |es| && es[i].Some? {
      FillFails(es, i + 1, acc[es[i].value.0 := es[i].value.1]);
    }
  }

  /** Row `j` writes key `k`. */
  predicate Writes(es: seq<Entry>, j: int, k: string) {
    0 <= j < |es| && es[j].Some? && es[j].value.0 == k
  }

  /** Row `j` is the last row from `i` on that writes key `k`. */
  predicate LastWriter(es: seq<Entry>, i: nat, k: string, j: int) {
    i <= j && Writes(es, j, k) && forall j' :: j < j' < |es| ==> !Writes(es, j', k)
  }

  /** The keys of a successful fold: those of `acc` and those the
      remaining rows write. */
  lemma {:induction false} FillKeys(es: seq<Entry>, i: nat, acc: MetricTable, m: MetricTable)
    requires i <= |es| && Fill(es, i, acc) == Ok(m)
    ensures forall k :: k in m <==> k in acc || exists j :: i <= j && Writes(es, j, k)
    decreases |es| - i
  {
    if i < |es| {
      var entry := es[i].value;
      FillKeys(es, i + 1, acc[entry.0 := entry.1], m);
      assert Writes(es, i, entry.0);
    }
  }

  /** The values of a successful fold: each key is bound to the value its
      last row wrote, or keeps its value in `acc` when no remaining row
      writes it. */
  lemma {:induction false} FillValues(es: seq<Entry>, i: nat, acc: MetricTable, m: MetricTable)
    requires i <= |es| && Fill(es, i, acc) == Ok(m)
    ensures forall k :: k in m ==>
      (exists j :: LastWriter(es, i, k, j) && es[j].value.1 == m[k])
      || (k in acc && m[k] == acc[k] && forall j :: i <= j ==> !Writes(es, j, k))
    decreases |es| - i
  {
    if i < |es| {
      var entry := es[i].value;
      var acc' := acc[entry.0 := entry.1];
      FillValues(es, i + 1, acc', m);
      forall k | k in m
        ensures (exists j :: LastWriter(es, i, k, j) && es[j].value.1 == m[k])
             || (k in acc && m[k] == acc[k] && forall j :: i <= j ==> !Writes(es, j, k))
      {
        if exists j :: LastWriter(es, i + 1, k, j) && es[j].value.1 == m[k] {
          var j :| LastWriter(es, i + 1, k, j) && es[j].value.1 == m[k];
          assert LastWriter(es, i, k, j);
        } else if k == entry.0 {
          assert LastWriter(es, i, k, i);
        }
      }
    }
  }

  /** Loading succeeds exactly when every data row has a comma; on failure
      the error names the first row without one. */
  lemma TableOfFails(data: string, parse: string -> Option<real>)
    ensures TableOf(data, parse).Ok? <==> forall j :: 0 <= j < |Rows(data)| ==> ',' in Rows(data)[j]
    ensures TableOf(data, parse).Err? ==>
      var j := TableOf(data, parse).error.row;
      j < |Rows(data)| && ',' !in Rows(data)[j] && forall k :: 0 <= k < j ==> ',' in Rows(data)[k]
  {
    var rows := Rows(data);
    var es := Entries(rows, parse);
    forall j | 0 <= j < |rows|
      ensures es[j].Some? <==> ',' in rows[j]
    {
      ParseRowDefined(rows[j], parse);
    }
    FillFails(es, 0, map[]);
  }

  /** Every parsed row of a table that loaded writes the key of its row. */
  lemma EntriesOfLoaded(rows: seq<string>, parse: string -> Option<real>)
    requires Fill(Entries(rows, parse), 0, map[]).Ok?
    ensures forall j :: 0 <= j < |rows| ==>
      Entries(rows, parse)[j].Some? && Entries(rows, parse)[j].value.0 == Key(rows[j])
  {
    var es := Entries(rows, parse);
    FillFails(es, 0, map[]);
    forall j | 0 <= j < |rows|
      ensures es[j].Some? && es[j].value.0 == Key(rows[j])
    {
      ParseRowDefined(rows[j], parse);
    }
  }

  /** Every key of a loaded table comes from a row. */
  lemma KeysFromRows(rows: seq<string>, parse: string -> Option<real>, m: MetricTable, k: string)
    requires Fill(Entries(rows, parse), 0, map[]) == Ok(m) && k in m
    ensures exists j :: 0 <= j < |rows| && Key(rows[j]) == k
  {
    var es := Entries(rows, parse);
    EntriesOfLoaded(rows, parse);
    FillKeys(es, 0, map[], m);
    var j :| 0 <= j && Writes(es, j, k);
    assert es[j].value.0 == Key(rows[j]);
  }

  /** Every row's key is in a loaded table. */
  lemma RowKeysInTable(rows: seq<string>, parse: string -> Option<real>, m: MetricTable, j: nat)
    requires Fill(Entries(rows, parse), 0, map[]) == Ok(m) && j < |rows|
    ensures Key(rows[j]) in m
  {
    var es := Entries(rows, parse);
    EntriesOfLoaded(rows, parse);
    FillKeys(es, 0, map[], m);
    assert Writes(es, j, Key(rows[j]));
  }

  /** The keys of a loaded table are exactly the keys of its rows. */
  lemma RowsKeys(rows: seq<string>, parse: string -> Option<real>, m: MetricTable)
    requires Fill(Entries(rows, parse), 0, map[]) == Ok(m)
    ensures forall k :: k in m <==> exists j :: 0 <= j < |rows| && Key(rows[j]) == k
  {
    forall k | k in m
      ensures exists j :: 0 <= j < |rows| && Key(rows[j]) == k
    {
      KeysFromRows(rows, parse, m, k);
    }
    forall j | 0 <= j < |rows|
      ensures Key(rows[j]) in m
    {
      RowKeysInTable(rows, parse, m, j);
    }
  }

  /** Each key of a loaded table is bound to what the last row with that
      key parsed to. */
  lemma RowsValues(rows: seq<string>, parse: string -> Option<real>, m: MetricTable, k: string)
    requires Fill(Entries(rows, parse), 0, map[]) == Ok(m) && k in m
    ensures exists j :: (0 <= j < |rows|
      && ParseRow(rows[j], parse) == Some((k, m[k]))
      && (forall j' :: j < j' < |rows| ==> Key(rows[j']) != k))
  {
    var es := Entries(rows, parse);
    EntriesOfLoaded(rows, parse);
    FillValues(es, 0, map[], m);
    var j :| LastWriter(es, 0, k, j) && es[j].value.1 == m[k];
    forall j' | j < j' < |rows|
      ensures Key(rows[j']) != k
    {
      assert !Writes(es, j', k);
    }
    assert es[j] == Some((k, m[k]));
  }

  /** A loaded table holds exactly the trimmed first fields of the data
      rows; each is bound to the parse of the trimmed second field of the
      last row with that key, so later rows overwrite earlier ones. */
  lemma TableOfContents(data: string, parse: string -> Option<real>, m: MetricTable)
    requires TableOf(data, parse) == Ok(m)
    ensures forall k :: k in m <==> exists j :: 0 <= j < |Rows(data)| && Key(Rows(data)[j]) == k
    ensures forall k :: k in m ==>
      (exists j :: (0 <= j < |Rows(data)|
        && ParseRow(Rows(data)[j], parse) == Some((k, m[k]))
        && (forall j' :: j < j' < |Rows(data)| ==> Key(Rows(data)[j']) != k)))
  {
    RowsKeys(Rows(data), parse, m);
    forall k | k in m
      ensures exists j :: (0 <= j < |Rows(data)|
        && ParseRow(Rows(data)[j], parse) == Some((k, m[k]))
        && (forall j' :: j < j' < |Rows(data)| ==> Key(Rows(data)[j']) != k))
    {
      RowsValues(Rows(data), parse, m, k);
    }
  }

  /** With a comma after the first field, the entry is the trimmed first
      field and the parse of the trimmed second field. */
  lemma RowFields(a: string, b: string, parse: string -> Option<real>)
    requires ',' !in a && ',' !in b
    ensures ParseRow(a + "," + b, parse) == Some((Trim(a), parse(Trim(b))))
  {
    NoCharMatch(a + "," + b, ',', |a|);
    SplitAt(a, ",", b);
    NoCharMatch(b, ',', |b| + 1);
    SplitNone(b, ",");
  }

  /** Anything after a second comma is ignored. */
  lemma ExtraFieldsIgnored(a: string, b: string, rest: string, parse: string -> Option<real>)
    requires ',' !in a && ',' !in b
    ensures ParseRow(a + "," + b + "," + rest, parse) == Some((Trim(a), parse(Trim(b))))
  {
    RowFields(a, b, parse);
    var long := a + "," + b + "," + rest;
    assert long == a + "," + (b + "," + rest);
    NoCharMatch(long, ',', |a|);
    SplitAt(a, ",", b + "," + rest);
    NoCharMatch(b + "," + rest, ',', |b|);
    SplitAt(b, ",", rest);
  }

  /** The header line never reaches the table: only the text after the
      first line break matters. */
  lemma HeaderIgnored(header: string, body: string, parse: string -> Option<real>)
    requires '\n' !in header
    ensures Rows(header + "\n" + body) == Split(body, "\n")
    ensures TableOf(header + "\n" + body, parse) == Fill(Entries(Split(body, "\n"), parse), 0, map[])
  {
    NoCharMatch(header + "\n" + body, '\n', |header|);
    SplitAt(header, "\n", body);
  }

  /** A text without any line break is all header: the table is empty. */
  lemma HeaderOnly(data: string, parse: string -> Option<real>)
    requires '\n' !in data
    ensures TableOf(data, parse) == Ok(map[])
  {
    NoCharMatch(data, '\n', |data| + 1);
    SplitNone(data, "\n");
  }

  /** A text ending in a line break leaves an empty last row, which has no
      comma, so loading fails. */
  lemma TrailingNewlineFails(data: string, parse: string -> Option<real>)
    ensures TableOf(data + "\n", parse).Err?
  {
    SplitTrailing(data, '\n');
    var rows := Rows(data + "\n");
    assert rows[|rows| - 1] == "";
    TableOfFails(data + "\n", parse);
  }

  /** A three-region file whose last line ends in a line break fails as a
      whole: the blank last line throws, and no row is skipped. */
  lemma BlankLastLineExampleThrows(parse: string -> Option<real>)
    ensures TableOf("header\nTexas,123.4\nCalifornia,\nOhio,abc\n", parse).Err?
  {
    TrailingNewlineFails("header\nTexas,123.4\nCalifornia,\nOhio,abc", parse);
    assert "header\nTexas,123.4\nCalifornia,\nOhio,abc" + "\n" == "header\nTexas,123.4\nCalifornia,\nOhio,abc\n";
  }

  /** A table of two well-formed rows holds both writes, in order. */
  lemma FillTwoRows(row1: string, row2: string, parse: string -> Option<real>,
                    x1: (string, Option<real>), x2: (string, Option<real>))
    requires ParseRow(row1, parse) == Some(x1) && ParseRow(row2, parse) == Some(x2)
    ensures Fill(Entries([row1, row2], parse), 0, map[]) == Ok(map[x1.0 := x1.1][x2.0 := x2.1])
  {
    var es := Entries([row1, row2], parse);
    assert es[0] == Some(x1) && es[1] == Some(x2);
    assert Fill(es, 2, map[x1.0 := x1.1][x2.0 := x2.1]) == Ok(map[x1.0 := x1.1][x2.0 := x2.1]);
    assert Fill(es, 1, map[x1.0 := x1.1]) == Fill(es, 2, map[x1.0 := x1.1][x2.0 := x2.1]);
  }

  /** Two rows with the same key: the table keeps the later value. */
  lemma LaterRowOverwrites(header: string, k: string, v1: string, v2: string, parse: string -> Option<real>)
    requires '\n' !in header && '\n' !in k && '\n' !in v1 && '\n' !in v2
    requires ',' !in k && ',' !in v1 && ',' !in v2
    ensures TableOf(header + "\n" + (k + "," + v1) + "\n" + (k + "," + v2), parse)
         == Ok(map[Trim(k) := parse(Trim(v2))])
  {
    var row1, row2 := k + "," + v1, k + "," + v2;
    assert header + "\n" + row1 + "\n" + row2 == header + "\n" + (row1 + "\n" + row2);
    HeaderIgnored(header, row1 + "\n" + row2, parse);
    SplitPair(row1, row2, '\n');
    RowFields(k, v1, parse);
    RowFields(k, v2, parse);
    FillTwoRows(row1, row2, parse, (Trim(k), parse(Trim(v1))), (Trim(k), parse(Trim(v2))));
    assert map[Trim(k) := parse(Trim(v1))][Trim(k) := parse(Trim(v2))] == map[Trim(k) := parse(Trim(v2))];
  }
}
