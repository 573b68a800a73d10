/**
 * The frequency CSV: a wide table whose header names each data column
 * `group:bin`. From it the page derives the region and group choices and,
 * for a chosen region and group, the bar series of bin labels and values.
 */
module Frequency {
  import opened Wrappers
  import opened Text

  /** `data.split("\n")`. */
  function Lines(data: string): (rows: seq<string>)
    ensures |rows| >= 1
  {
    Split(data, "\n")
  }

  /** `rows[0].split(",")`: the header's columns, region column first. */
  function Header(data: string): seq<string> {
    Split(Lines(data)[0], ",")
  }

  /** `col.split(":")[0]`: the group part of a header column. */
  function GroupOf(col: string): string {
    Split(col, ":")[0]
  }

  /** The group part is the text before the first colon, or the whole
      column when it has none; it never contains a colon. */
  lemma GroupOfPrefix(g: string, rest: string)
    requires ':' !in g
    ensures GroupOf(g + ":" + rest) == g
    ensures GroupOf(g) == g
  {
    NoCharMatch(g + ":" + rest, ':', |g|);
    SplitAt(g, ":", rest);
    NoCharMatch(g, ':', |g| + 1);
    SplitNone(g, ":");
  }

  /** A group part holds no colon, and the column starts with it. */
  lemma GroupOfShape(col: string)
    ensures ':' !in GroupOf(col)
    ensures StartsWith(col, GroupOf(col))
    ensures ':' in col ==> StartsWith(col, GroupOf(col) + ":")
  {
    var pieces := Split(col, ":");
    SplitCharPieces(col, ':');
    JoinSplit(col, ":");
    if |pieces| >= 2 {
      assert col == pieces[0] + ":" + Join(pieces[1..], ":");
    }
  }

  /* ---------------------------------------------------------------- */
  /* De-duplication through a `Set`                                   */

  /** No element occurs twice. */
  predicate NoDup<T(==)>(s: seq<T>) {
    forall i, j :: 0 <= i < j < |s| ==> s[i] != s[j]
  }

  /** The position of the first occurrence of `x` in `s`. */
  function FirstIndex<T(==)>(s: seq<T>, x: T): (i: nat)
    requires x in s
    ensures i < |s| && s[i] == x && x !in s[..i]
  {
    if s[0] == x then 0 else 1 + FirstIndex(s[1..], x)
  }

  /** Appending does not move a first occurrence already present. */
  lemma FirstIndexExtend<T>(p: seq<T>, y: T, x: T)
    requires x in p
    ensures FirstIndex(p + [y], x) == FirstIndex(p, x)
  {
    var i' := FirstIndex(p, x);
    assert (p + [y])[i'] == x;
    assert (p + [y])[..i'] == p[..i'];
  }

  /** `[...new Set(s)]`: elements go in from left to right, and one
      already in the set is skipped. */
  function Dedup<T(==)>(s: seq<T>): seq<T>
    decreases |s|
  {
    if s == [] then []
    else
      var d := Dedup(s[..|s| - 1]);
      if s[|s| - 1] in d then d else d + [s[|s| - 1]]
  }

  /** The result of `Dedup` is the distinct elements of `s`, each kept in
      the order of its first occurrence. */
  lemma {:induction false} DedupSpec<T(!new)>(s: seq<T>)
    ensures NoDup(Dedup(s))
    ensures forall x :: x in Dedup(s) <==> x in s
    ensures forall i, j :: 0 <= i < j < |Dedup(s)| ==> FirstIndex(s, Dedup(s)[i]) < FirstIndex(s, Dedup(s)[j])
    decreases |s|
  {
    if s != [] {
      var p, y := s[..|s| - 1], s[|s| - 1];
      assert s == p + [y];
      DedupSpec(p);
      forall x | x in p
        ensures FirstIndex(s, x) == FirstIndex(p, x)
      {
        FirstIndexExtend(p, y, x);
      }
      if y !in p {
        assert FirstIndex(s, y) == |p|;
      }
    }
  }

  /** `header.slice(1).map((col) => col.split(":")[0])`. */
  function RawGroups(header: seq<string>): seq<string> {
    if header == [] then [] else seq(|header| - 1, i requires 0 <= i < |header| - 1 => GroupOf(header[i + 1]))
  }

  /** `.map((s) => s.trim())`. */
  function TrimAll(xs: seq<string>): (r: seq<string>)
    ensures |r| == |xs| && forall i :: 0 <= i < |xs| ==> r[i] == Trim(xs[i])
  {
    if xs == [] then [] else [Trim(xs[0])] + TrimAll(xs[1..])
  }

  /** The group-selector entries: the distinct group parts, in first-seen
      order, each trimmed only after de-duplication. */
  function GroupNamesOf(header: seq<string>): seq<string> {
    TrimAll(Dedup(RawGroups(header)))
  }

  /** Every data column contributes its trimmed group part. */
  lemma ColumnGroupOffered(header: seq<string>, j: nat)
    requires 1 <= j < |header|
    ensures Trim(GroupOf(header[j])) in GroupNamesOf(header)
  {
    var raw := RawGroups(header);
    var d := Dedup(raw);
    DedupSpec(raw);
    assert raw[j - 1] in d;
    var i :| 0 <= i < |d| && d[i] == raw[j - 1];
    assert GroupNamesOf(header)[i] == Trim(d[i]);
  }

  /** Every entry is the trimmed group part of some data column. */
  lemma OfferedGroupFromColumn(header: seq<string>, i: nat)
    requires i < |GroupNamesOf(header)|
    ensures exists j :: 1 <= j < |header| && Trim(GroupOf(header[j])) == GroupNamesOf(header)[i]
  {
    var raw := RawGroups(header);
    var d := Dedup(raw);
    DedupSpec(raw);
    assert d[i] in raw;
    var j :| 0 <= j < |raw| && raw[j] == d[i];
    assert Trim(GroupOf(header[j + 1])) == GroupNamesOf(header)[i];
  }

  /** The group selector offers exactly the trimmed group parts of the data
      columns. */
  lemma GroupNamesCover(header: seq<string>)
    ensures forall j :: 1 <= j < |header| ==> Trim(GroupOf(header[j])) in GroupNamesOf(header)
    ensures forall i :: 0 <= i < |GroupNamesOf(header)| ==>
      exists j :: 1 <= j < |header| && Trim(GroupOf(header[j])) == GroupNamesOf(header)[i]
  {
    forall j | 1 <= j < |header|
      ensures Trim(GroupOf(header[j])) in GroupNamesOf(header)
    {
      ColumnGroupOffered(header, j);
    }
    forall i | 0 <= i < |GroupNamesOf(header)|
      ensures exists j :: 1 <= j < |header| && Trim(GroupOf(header[j])) == GroupNamesOf(header)[i]
    {
      OfferedGroupFromColumn(header, i);
      var j :| 1 <= j < |header| && Trim(GroupOf(header[j])) == GroupNamesOf(header)[i];
    }
  }

  /** The entries follow the order of first appearance, and they are
      distinct whenever no group part needs trimming. */
  lemma GroupNamesOrder(header: seq<string>)
    ensures |GroupNamesOf(header)| == |Dedup(RawGroups(header))|
    ensures forall i :: 0 <= i < |GroupNamesOf(header)| ==>
      GroupNamesOf(header)[i] == Trim(Dedup(RawGroups(header))[i])
    ensures (forall j :: 1 <= j < |header| ==> Trim(GroupOf(header[j])) == GroupOf(header[j])) ==>
      NoDup(GroupNamesOf(header))
  {
    var raw := RawGroups(header);
    var d := Dedup(raw);
    DedupSpec(raw);
    if forall j :: 1 <= j < |header| ==> Trim(GroupOf(header[j])) == GroupOf(header[j]) {
      forall i | 0 <= i < |d|
        ensures Trim(d[i]) == d[i]
      {
        assert d[i] in raw;
        var j :| 0 <= j < |raw| && raw[j] == d[i];
        assert raw[j] == GroupOf(header[j + 1]);
      }
    }
  }

  /* ---------------------------------------------------------------- */
  /* Regions and row lookup                                           */

  /** The region-selector entries: the trimmed first field of each line
      after the header. */
  function RegionOptions(data: string): seq<string> {
    var rows := Lines(data)[1..];
    seq(|rows|, i requires 0 <= i < |rows| => Trim(Split(rows[i], ",")[0]))
  }

  /** `rows.find((row) => row.startsWith(state))`, as the index found: the
      first row, header included, that starts with the region string. */
  function FindRow(rows: seq<string>, region: string): (r: Option<nat>)
    ensures r.Some? ==> r.value < |rows| && StartsWith(rows[r.value], region)
    ensures r.Some? ==> forall j :: 0 <= j < r.value ==> !StartsWith(rows[j], region)
    ensures r.None? <==> forall j :: 0 <= j < |rows| ==> !StartsWith(rows[j], region)
  {
    if rows == [] then None
    else if StartsWith(rows[0], region) then Some(0)
    else match FindRow(rows[1..], region)
      case None => None
      case Some(i) => Some(i + 1)
  }

  /** An empty selection matches the header row itself. */
  lemma EmptyRegionSelectsHeader(data: string)
    ensures FindRow(Lines(data), "") == Some(0)
  {
  }

  /** The match is on a prefix, not on the whole first field: a longer
      region name listed earlier is found instead. */
  lemma PrefixMatchTakesEarlierRow(header: string, longer: string, region: string, rest1: string, rest2: string)
    requires !StartsWith(header, region)
    ensures FindRow([header, region + longer + rest1, region + rest2], region) == Some(1)
  {
    var rows := [header, region + longer + rest1, region + rest2];
    assert StartsWith(rows[1], region);
  }

  /** Selecting an offered region finds a row at or before the one it came
      from, provided that row does not start with white space. */
  lemma OfferedRegionFindsRow(data: string, i: nat)
    requires i < |RegionOptions(data)|
    requires Lines(data)[i + 1] != [] ==> !IsSpace(Lines(data)[i + 1][0])
    ensures FindRow(Lines(data), RegionOptions(data)[i]).Some?
    ensures FindRow(Lines(data), RegionOptions(data)[i]).value <= i + 1
  {
    var rows := Lines(data);
    var row := rows[i + 1];
    var field := Split(row, ",")[0];
    GroupOrFieldPrefix(row, ',');
    assert StartsWith(row, field);
    if field != [] {
      assert field[0] == row[0];
    }
    TrimPrefix(field);
    assert StartsWith(row, RegionOptions(data)[i]);
  }

  /** The first piece of a split is a prefix of the string. */
  lemma GroupOrFieldPrefix(s: string, c: char)
    ensures StartsWith(s, Split(s, [c])[0])
  {
    var pieces := Split(s, [c]);
    JoinSplit(s, [c]);
    if |pieces| >= 2 {
      assert s == pieces[0] + [c] + Join(pieces[1..], [c]);
    }
  }

  /* ---------------------------------------------------------------- */
  /* Bin labels and values                                            */

  /** `col.startsWith(`${frequency}:`)`: the column belongs to the group. */
  predicate InGroup(col: string, group: string) {
    StartsWith(col, group + ":")
  }

  /** `col.split(": ")[1]`: the text after the first colon-space, up to the
      next one; `None` (undefined) when the column has no colon-space. */
  function Label(col: string): Option<string> {
    var pieces := Split(col, ": ");
    if |pieces| >= 2 then Some(pieces[1]) else None
  }

  /** The data columns from `j` on that belong to the group, in order. */
  function ColumnsFrom(header: seq<string>, group: string, j: nat): (cs: seq<nat>)
    ensures forall k :: 0 <= k < |cs| ==> j <= cs[k] < |header| && InGroup(header[cs[k]], group)
    ensures forall k, k' :: 0 <= k < k' < |cs| ==> cs[k] < cs[k']
    ensures forall c :: j <= c < |header| && InGroup(header[c], group) ==> c in cs
    decreases |header| - j
  {
    if j >= |header| then []
    else (if InGroup(header[j], group) then [j] else []) + ColumnsFrom(header, group, j + 1)
  }

  /** The group's columns: every data column (index 1 on) whose header
      starts with the group and a colon, in column order. */
  function Columns(header: seq<string>, group: string): seq<nat> {
    ColumnsFrom(header, group, 1)
  }

  /** The headers from `j` on, filtered by the group and mapped to labels. */
  function LabelsFrom(header: seq<string>, group: string, j: nat): seq<Option<string>>
    decreases |header| - j
  {
    if j >= |header| then []
    else (if InGroup(header[j], group) then [Label(header[j])] else []) + LabelsFrom(header, group, j + 1)
  }

  /** `header.slice(1).filter(...).map((col) => col.split(": ")[1])`. */
  function BinLabels(header: seq<string>, group: string): seq<Option<string>> {
    LabelsFrom(header, group, 1)
  }

  /** Why extracting values threw: `header[index + 1]` was undefined at
      this column, the row having more fields than the header. */
  datatype BinError = NoHeaderFor(column: nat)

  /** The row's fields from `j` on, kept where the header column at the
      same index belongs to the group, and parsed. */
  function ValuesFrom(fields: seq<string>, header: seq<string>, group: string,
                      parse: string -> Option<real>, j: nat): Result<seq<Option<real>>, BinError>
    decreases |fields| - j
  {
    if j >= |fields| then Ok([])
    else if j >= |header| then Err(NoHeaderFor(j))
    else match ValuesFrom(fields, header, group, parse, j + 1)
      case Err(e) => Err(e)
      case Ok(vs) => Ok((if InGroup(header[j], group) then [parse(fields[j])] else []) + vs)
  }

  /** `stateData.slice(1).filter((_, index) => header[index + 1].startsWith(...)).map(parseFloat)`. */
  function BinValues(fields: seq<string>, header: seq<string>, group: string,
                     parse: string -> Option<real>): Result<seq<Option<real>>, BinError> {
    ValuesFrom(fields, header, group, parse, 1)
  }

  /** The labels are the group's columns, in order, mapped to `Label`. */
  lemma {:induction false} LabelsAlongColumns(header: seq<string>, group: string, j: nat)
    ensures |LabelsFrom(header, group, j)| == |ColumnsFrom(header, group, j)|
    ensures forall k :: 0 <= k < |LabelsFrom(header, group, j)| ==>
      LabelsFrom(header, group, j)[k] == Label(header[ColumnsFrom(header, group, j)[k]])
    decreases |header| - j
  {
    if j < |header| {
      LabelsAlongColumns(header, group, j + 1);
    }
  }

  /** Extracting values throws exactly when the row has more fields than
      the header. */
  lemma {:induction false} ValuesFail(fields: seq<string>, header: seq<string>, group: string,
                                      parse: string -> Option<real>, j: nat)
    ensures ValuesFrom(fields, header, group, parse, j).Err? <==> j < |fields| && |header| < |fields|
    decreases |fields| - j
  {
    if j < |fields| && j < |header| {
      ValuesFail(fields, header, group, parse, j + 1);
    }
  }

  /** One step of the value filter: column `j` contributes its parsed
      field exactly when its header is in the group. */
  lemma ValuesStep(fields: seq<string>, header: seq<string>, group: string,
                   parse: string -> Option<real>, j: nat)
    requires j < |fields| && ValuesFrom(fields, header, group, parse, j).Ok?
    ensures j < |header| && ValuesFrom(fields, header, group, parse, j + 1).Ok?
    ensures InGroup(header[j], group) ==>
      && ValuesFrom(fields, header, group, parse, j).value
         == [parse(fields[j])] + ValuesFrom(fields, header, group, parse, j + 1).value
      && ColumnsFrom(header, group, j) == [j] + ColumnsFrom(header, group, j + 1)
    ensures !InGroup(header[j], group) ==>
      && ValuesFrom(fields, header, group, parse, j).value
         == ValuesFrom(fields, header, group, parse, j + 1).value
      && ColumnsFrom(header, group, j) == ColumnsFrom(header, group, j + 1)
  {
  }

  /** The values are the group's columns that the row reaches, in order,
      each parsed from the field at that column. */
  lemma {:induction false} ValuesAlongColumns(fields: seq<string>, header: seq<string>, group: string,
                                              parse: string -> Option<real>, j: nat)
    requires ValuesFrom(fields, header, group, parse, j).Ok?
    ensures
      var vs := ValuesFrom(fields, header, group, parse, j).value;
      var cs := ColumnsFrom(header, group, j);
      && |vs| <= |cs|
      && (forall k :: 0 <= k < |vs| ==> cs[k] < |fields| && vs[k] == parse(fields[cs[k]]))
    decreases |fields| - j
  {
    if j < |fields| {
      ValuesStep(fields, header, group, parse, j);
      ValuesAlongColumns(fields, header, group, parse, j + 1);
      var vs := ValuesFrom(fields, header, group, parse, j).value;
      var cs := ColumnsFrom(header, group, j);
      var vs' := ValuesFrom(fields, header, group, parse, j + 1).value;
      var cs' := ColumnsFrom(header, group, j + 1);
      if InGroup(header[j], group) {
        forall k | 0 <= k < |vs|
          ensures cs[k] < |fields| && vs[k] == parse(fields[cs[k]])
        {
          if k > 0 { assert vs[k] == vs'[k - 1] && cs[k] == cs'[k - 1]; }
        }
      }
    }
  }

  /** The columns past a position `m` all reach at least `bound`, and so do
      those past `m + 1` after one more column is put in front. */
  lemma ShiftedBound(cs: seq<nat>, cs': seq<nat>, c: nat, m: nat, bound: nat)
    requires cs == [c] + cs'
    requires forall k :: m <= k < |cs'| ==> bound <= cs'[k]
    ensures forall k :: m + 1 <= k < |cs| ==> bound <= cs[k]
  {
    forall k | m + 1 <= k < |cs|
      ensures bound <= cs[k]
    {
      assert cs[k] == cs'[k - 1];
    }
  }

  /** The group's columns that get no value are those past the row's end. */
  lemma {:induction false} ValuesStopAtRowEnd(fields: seq<string>, header: seq<string>, group: string,
                                              parse: string -> Option<real>, j: nat)
    requires ValuesFrom(fields, header, group, parse, j).Ok?
    ensures
      var vs := ValuesFrom(fields, header, group, parse, j).value;
      var cs := ColumnsFrom(header, group, j);
      |vs| <= |cs| && forall k :: |vs| <= k < |cs| ==> |fields| <= cs[k]
    decreases |fields| - j
  {
    if j < |fields| {
      ValuesStep(fields, header, group, parse, j);
      ValuesStopAtRowEnd(fields, header, group, parse, j + 1);
      if InGroup(header[j], group) {
        ShiftedBound(ColumnsFrom(header, group, j), ColumnsFrom(header, group, j + 1), j,
                     |ValuesFrom(fields, header, group, parse, j + 1).value|, |fields|);
      }
    } else {
      assert ValuesFrom(fields, header, group, parse, j).value == [];
    }
  }

  /** A row as long as the header gets a value for every column of the
      group. */
  lemma {:induction false} ValuesForEveryColumn(fields: seq<string>, header: seq<string>, group: string,
                                                parse: string -> Option<real>, j: nat)
    requires |fields| == |header|
    ensures ValuesFrom(fields, header, group, parse, j).Ok?
    ensures |ValuesFrom(fields, header, group, parse, j).value| == |ColumnsFrom(header, group, j)|
    decreases |fields| - j
  {
    if j < |fields| {
      ValuesForEveryColumn(fields, header, group, parse, j + 1);
    }
  }

  /** When the row has as many fields as the header, labels and values are
      equally long and pair up column by column. */
  lemma LabelsAndValuesAligned(fields: seq<string>, header: seq<string>, group: string,
                               parse: string -> Option<real>)
    requires |fields| == |header|
    ensures BinValues(fields, header, group, parse).Ok?
    ensures |BinValues(fields, header, group, parse).value| == |BinLabels(header, group)|
                                                           == |Columns(header, group)|
    ensures forall k :: 0 <= k < |BinLabels(header, group)| ==>
      var c := Columns(header, group)[k];
      && BinLabels(header, group)[k] == Label(header[c])
      && BinValues(fields, header, group, parse).value[k] == parse(fields[c])
  {
    LabelsAlongColumns(header, group, 1);
    ValuesFail(fields, header, group, parse, 1);
    ValuesAlongColumns(fields, header, group, parse, 1);
    ValuesForEveryColumn(fields, header, group, parse, 1);
  }

  /** A label is whatever follows the first colon-space, when no further
      colon-space follows; a column with no colon-space has no label. */
  lemma LabelShape(a: string, b: string)
    requires NoMatchBefore(a + ": " + b, ": ", |a|)
    requires NoMatchBefore(b, ": ", |b| + 1)
    ensures Label(a + ": " + b) == Some(b)
  {
    SplitAt(a, ": ", b);
    SplitNone(b, ": ");
  }

  /** With a second colon-space, the label is the text between the first
      and the second; the rest of the column is dropped. */
  lemma LabelBetween(a: string, b: string, rest: string)
    requires NoMatchBefore(a + ": " + b + ": " + rest, ": ", |a|)
    requires NoMatchBefore(b + ": " + rest, ": ", |b|)
    ensures Label(a + ": " + b + ": " + rest) == Some(b)
  {
    assert a + ": " + b + ": " + rest == a + ": " + (b + ": " + rest);
    SplitAt(a, ": ", b + ": " + rest);
    SplitAt(b, ": ", rest);
  }

  /** A column with no colon-space has no label. */
  lemma NoColonSpaceNoLabel(col: string)
    requires NoMatchBefore(col, ": ", |col| + 1)
    ensures Label(col) == None
  {
    SplitNone(col, ": ");
  }

  /** A column without a colon directly followed by a space has no
      colon-space anywhere. */
  lemma NoColonSpace(col: string)
    requires forall k :: 0 <= k < |col| - 1 ==> !(col[k] == ':' && col[k + 1] == ' ')
    ensures NoMatchBefore(col, ": ", |col| + 1)
  {
    forall k | 0 <= k <= |col|
      ensures !StartsWith(col[k..], ": ")
    {
      if k + 1 < |col| {
        assert !(col[k] == ':' && col[k + 1] == ' ');
        assert col[k..][0] == col[k] && col[k..][1] == col[k + 1];
      }
    }
  }

  /** A column without any space has no label. */
  lemma NoSpaceNoLabel(col: string)
    requires ' ' !in col
    ensures Label(col) == None
  {
    NoColonSpace(col);
    NoColonSpaceNoLabel(col);
  }

  /** Every offered group taken from a column that needs no trimming
      selects at least that column. */
  lemma OfferedGroupHasBins(header: seq<string>, j: nat)
    requires 1 <= j < |header| && ':' in header[j]
    requires Trim(GroupOf(header[j])) == GroupOf(header[j])
    ensures GroupOf(header[j]) in GroupNamesOf(header)
    ensures j in Columns(header, GroupOf(header[j]))
    ensures |BinLabels(header, GroupOf(header[j]))| > 0
  {
    ColumnGroupOffered(header, j);
    GroupOfShape(header[j]);
    LabelsAlongColumns(header, GroupOf(header[j]), 1);
  }

  /** Two distinct values are both kept, in order. */
  lemma DedupTwo<T(!new)>(x: T, y: T)
    requires x != y
    ensures Dedup([x, y]) == [x, y]
  {
    assert [x][..0] == [];
    assert Dedup([x]) == [x];
    assert [x, y][..1] == [x];
  }

  /** A repeat is dropped, a new value is kept, in order. */
  lemma DedupThree<T(!new)>(x: T, y: T)
    requires x != y
    ensures Dedup([x, x, y]) == [x, y]
  {
    assert [x][..0] == [];
    assert Dedup([x]) == [x];
    assert [x, x][..1] == [x];
    assert Dedup([x, x]) == [x];
    assert [x, x, y][..2] == [x, x];
  }

  /** The group parts of a header of two data columns. */
  lemma RawGroupsTwo(h: string, g1: string, r1: string, g2: string, r2: string)
    requires ':' !in g1 && ':' !in g2
    ensures RawGroups([h, g1 + ":" + r1, g2 + ":" + r2]) == [g1, g2]
  {
    GroupOfPrefix(g1, r1);
    GroupOfPrefix(g2, r2);
  }

  /** The group parts of a header of three data columns. */
  lemma RawGroupsThree(h: string, g1: string, r1: string, g2: string, r2: string, g3: string, r3: string)
    requires ':' !in g1 && ':' !in g2 && ':' !in g3
    ensures RawGroups([h, g1 + ":" + r1, g2 + ":" + r2, g3 + ":" + r3]) == [g1, g2, g3]
  {
    GroupOfPrefix(g1, r1);
    GroupOfPrefix(g2, r2);
    GroupOfPrefix(g3, r3);
  }

  /** The header used by the example below. */
  lemma RawGroupsSpaced()
    ensures RawGroups(["state", "Age: 0-10", " Age: 10-20"]) == ["Age", " Age"]
  {
    RawGroupsTwo("state", "Age", " 0-10", " Age", " 10-20");
    assert "Age" + ":" + " 0-10" == "Age: 0-10";
    assert " Age" + ":" + " 10-20" == " Age: 10-20";
  }

  /** Trimming comes after de-duplication, so `Age` and ` Age` are both
      offered, and both read `Age`. */
  lemma TrimAfterDedup()
    ensures GroupNamesOf(["state", "Age: 0-10", " Age: 10-20"]) == ["Age", "Age"]
  {
    RawGroupsSpaced();
    DedupTwo("Age", " Age");
    assert Trim("Age") == "Age" by { TrimOfTrimmed("Age"); }
    assert Trim(" Age") == "Age" by {
      assert " Age"[1..] == "Age";
      assert TrimStart(" Age") == TrimStart("Age");
    }
  }

  /** The group parts of a header written without spaces. */
  lemma RawGroupsUnspaced()
    ensures RawGroups(["state", "Age:0-10", "Age:10-20", "Income:Low"]) == ["Age", "Age", "Income"]
  {
    RawGroupsThree("state", "Age", "0-10", "Age", "10-20", "Income", "Low");
    assert "Age" + ":" + "0-10" == "Age:0-10";
    assert "Age" + ":" + "10-20" == "Age:10-20";
    assert "Income" + ":" + "Low" == "Income:Low";
  }

  /** A header written `group:bin` yields the groups in first-seen order. */
  lemma UnspacedGroupNames()
    ensures GroupNamesOf(["state", "Age:0-10", "Age:10-20", "Income:Low"]) == ["Age", "Income"]
  {
    RawGroupsUnspaced();
    TrimOfTrimmed("Age");
    TrimOfTrimmed("Income");
    RepeatedThenNew(["state", "Age:0-10", "Age:10-20", "Income:Low"], "Age", "Income");
  }

  /** A header whose group parts read `x, x, y`, none needing a trim,
      offers `x, y`. */
  lemma RepeatedThenNew(header: seq<string>, x: string, y: string)
    requires x != y && Trim(x) == x && Trim(y) == y
    requires RawGroups(header) == [x, x, y]
    ensures GroupNamesOf(header) == [x, y]
  {
    DedupThree(x, y);
    assert [x, y][1..] == [y];
  }

  /** The labels of a header of three data columns, for a group that holds
      the first two. */
  lemma LabelsOfFirstTwo(h: string, c1: string, c2: string, c3: string, group: string)
    requires InGroup(c1, group) && InGroup(c2, group) && !InGroup(c3, group)
    ensures BinLabels([h, c1, c2, c3], group) == [Label(c1), Label(c2)]
  {
    var header := [h, c1, c2, c3];
    assert LabelsFrom(header, group, 4) == [];
    assert LabelsFrom(header, group, 3) == [];
    assert LabelsFrom(header, group, 2) == [Label(c2)];
  }

  /** With `group:bin` columns no bin has a label, since a label is taken
      after a colon-space. */
  lemma UnspacedLabels(h: string, g: string, b1: string, b2: string, c3: string)
    requires ' ' !in g && ' ' !in b1 && ' ' !in b2 && !InGroup(c3, g)
    ensures BinLabels([h, g + ":" + b1, g + ":" + b2, c3], g) == [None, None]
  {
    var c1, c2 := g + ":" + b1, g + ":" + b2;
    assert ' ' !in c1 && ' ' !in c2;
    NoSpaceNoLabel(c1);
    NoSpaceNoLabel(c2);
    assert InGroup(c1, g) && InGroup(c2, g);
    LabelsOfFirstTwo(h, c1, c2, c3, g);
  }

  /** With a colon-space the label is the bin text. */
  lemma ColonSpaceLabel()
    ensures Label("Age: 0-10") == Some("0-10")
  {
    var a, b := "Age", "0-10";
    assert a + ": " + b == "Age: 0-10";
    forall k | 0 <= k < |a| && k <= |a + ": " + b|
      ensures !StartsWith((a + ": " + b)[k..], ": ")
    {
      assert (a + ": " + b)[k..][0] == a[k];
    }
    NoColonSpace(b);
    LabelShape(a, b);
  }

  /** What the bar chart receives for a region and a group. */
  datatype BarChart =
    | NoChart                                             // no row, or an empty one, matched: nothing is drawn
    | Thrown(error: BinError)                             // the value filter threw
    | Bars(labels: seq<Option<string>>, values: seq<Option<real>>)

  /** The data behind `updateBarChart` for a region and a group. */
  function BarChartOf(data: string, region: string, group: string, parse: string -> Option<real>): BarChart {
    var rows := Lines(data);
    var header := Split(rows[0], ",");
    match FindRow(rows, region)
    case None => NoChart
    case Some(i) =>
      if rows[i] == "" then NoChart  // an empty line is falsy: `if (!stateRow) return;`
      else
        var fields := Split(rows[i], ",");
        match BinValues(fields, header, group, parse)
        case Err(e) => Thrown(e)
        case Ok(vs) => Bars(BinLabels(header, group), vs)
  }

  /** Nothing is drawn exactly when no row starts with the region, or when
      the row found is empty, which happens only for the empty selection
      over an empty first line; when the matching row has as many fields as
      the header, the bars pair each of the group's columns with its label
      and its value. */
  lemma BarChartShape(data: string, region: string, group: string, parse: string -> Option<real>)
    ensures BarChartOf(data, region, group, parse).NoChart? <==>
      FindRow(Lines(data), region).None? || Lines(data)[FindRow(Lines(data), region).value] == ""
    ensures BarChartOf(data, region, group, parse).NoChart? <==>
      (forall j :: 0 <= j < |Lines(data)| ==> !StartsWith(Lines(data)[j], region))
      || (region == "" && Lines(data)[0] == "")
    ensures BarChartOf(data, region, group, parse).Thrown? ==>
      var i := FindRow(Lines(data), region).value;
      |Header(data)| < |Split(Lines(data)[i], ",")|
    ensures FindRow(Lines(data), region).Some? &&
            Lines(data)[FindRow(Lines(data), region).value] != "" &&
            |Split(Lines(data)[FindRow(Lines(data), region).value], ",")| == |Header(data)| ==>
      var chart := BarChartOf(data, region, group, parse);
      var fields := Split(Lines(data)[FindRow(Lines(data), region).value], ",");
      && chart.Bars?
      && |chart.labels| == |chart.values| == |Columns(Header(data), group)|
      && forall k :: 0 <= k < |chart.labels| ==>
           var c := Columns(Header(data), group)[k];
           chart.labels[k] == Label(Header(data)[c]) && chart.values[k] == parse(fields[c])
  {
    var rows := Lines(data);
    var header := Header(data);
    match FindRow(rows, region)
    case None =>
    case Some(i) =>
      if rows[i] == "" {
        assert StartsWith(rows[0], region);
      } else {
        var fields := Split(rows[i], ",");
        ValuesFail(fields, header, group, parse, 1);
        if |fields| == |header| {
          LabelsAndValuesAligned(fields, header, group, parse);
        }
      }
  }

  /** The empty selection over a text whose first line is empty finds
      that empty line, and the chart exits without drawing. */
  lemma BlankFirstLineDrawsNothing(rest: string, group: string, parse: string -> Option<real>)
    ensures BarChartOf("\n" + rest, "", group, parse) == NoChart
  {
    NoCharMatch("" + "\n" + rest, '\n', 0);
    SplitAt("", "\n", rest);
    assert "" + "\n" + rest == "\n" + rest;
    BarChartShape("\n" + rest, "", group, parse);
  }

  /** A non-empty found row with more fields than the header makes the
      value filter throw. */
  lemma LongerRowThrows(data: string, region: string, group: string, parse: string -> Option<real>)
    requires FindRow(Lines(data), region).Some?
    requires Lines(data)[FindRow(Lines(data), region).value] != ""
    requires |Header(data)| < |Split(Lines(data)[FindRow(Lines(data), region).value], ",")|
    ensures BarChartOf(data, region, group, parse).Thrown?
  {
    var i := FindRow(Lines(data), region).value;
    ValuesFail(Split(Lines(data)[i], ","), Header(data), group, parse, 1);
  }

  /** A non-empty found row with no more fields than the header is drawn:
      every label of the group, and a value for each group column the row
      reaches, parsed from the field at that column. */
  lemma ShorterRowBars(data: string, region: string, group: string, parse: string -> Option<real>)
    requires FindRow(Lines(data), region).Some?
    requires Lines(data)[FindRow(Lines(data), region).value] != ""
    requires |Split(Lines(data)[FindRow(Lines(data), region).value], ",")| <= |Header(data)|
    ensures
      var chart := BarChartOf(data, region, group, parse);
      var fields := Split(Lines(data)[FindRow(Lines(data), region).value], ",");
      var cs := Columns(Header(data), group);
      && chart.Bars?
      && chart.labels == BinLabels(Header(data), group)
      && |chart.values| <= |cs|
      && forall k :: 0 <= k < |chart.values| ==> cs[k] < |fields| && chart.values[k] == parse(fields[cs[k]])
  {
    var i := FindRow(Lines(data), region).value;
    var fields := Split(Lines(data)[i], ",");
    ValuesFail(fields, Header(data), group, parse, 1);
    ValuesAlongColumns(fields, Header(data), group, parse, 1);
  }
}
