/** The script that rewrites the repository table sorted by watchers: it keeps
    the header row first, orders the other rows by the number in their fifth
    column, largest first, keeps one row per repository name (the first after
    sorting) and writes them all back as CSV. */
module SortStats {
  import RubyText

  /** A cell as `CSV.read` returns it: text, or nil for an empty field. */
  datatype Cell = Text(s: string) | Nil

  /** One CSV line. */
  type Row = seq<Cell>

  /** `a[4].to_i`: the fifth cell read as an integer, with a missing cell or a
      nil one counting as 0 (`nil.to_i`). */
  function Watchers(row: Row): int
  {
    if |row| > 4 && row[4].Text? then RubyText.ToI(row[4].s) else 0
  }

  /** `a.first`: the repository name `uniq!` compares, nil for an empty row. */
  function Key(row: Row): Cell
  {
    if |row| == 0 then Nil else row[0]
  }

  // ---------------------------------------------------------------------------
  // sort! by watchers, descending
  // ---------------------------------------------------------------------------

  // The sort is stated for any count of a row; the script sorts by `Watchers`.

  /** No row counts less than a row after it. */
  ghost predicate SortedDesc(rows: seq<Row>, count: Row -> int)
  {
    forall i, j :: 0 <= i < j < |rows| ==> count(rows[i]) >= count(rows[j])
  }

  /** No row counts more than `w`. */
  ghost predicate AtMost(w: int, rows: seq<Row>, count: Row -> int)
  {
    forall k :: 0 <= k < |rows| ==> count(rows[k]) <= w
  }

  /** A sorted table is bounded by its first row. */
  lemma SortedHeadBound(rows: seq<Row>, count: Row -> int)
    requires rows != [] && SortedDesc(rows, count)
    ensures AtMost(count(rows[0]), rows[1..], count)
  {
    forall k | 0 <= k < |rows[1..]| ensures count(rows[1..][k]) <= count(rows[0]) {
      assert rows[1..][k] == rows[k + 1];
    }
  }

  /** A row counting at least as much as a sorted table goes in front. */
  lemma SortedCons(y: Row, rows: seq<Row>, count: Row -> int)
    requires SortedDesc(rows, count) && AtMost(count(y), rows, count)
    ensures SortedDesc([y] + rows, count)
  {
    var r := [y] + rows;
    forall i, j | 0 <= i < j < |r| ensures count(r[i]) >= count(r[j]) {
      assert r[j] == rows[j - 1];
      if i > 0 { assert r[i] == rows[i - 1]; }
    }
  }

  /** A bound on every row survives reordering and one added row. */
  lemma AtMostOfMultiset(w: int, r: seq<Row>, rows: seq<Row>, x: Row, count: Row -> int)
    requires multiset(r) == multiset(rows) + multiset{x}
    requires AtMost(w, rows, count) && count(x) <= w
    ensures AtMost(w, r, count)
  {
    forall k | 0 <= k < |r| ensures count(r[k]) <= w {
      assert r[k] in multiset(r);
      if r[k] != x {
        assert r[k] in multiset(rows);
        var j :| 0 <= j < |rows| && rows[j] == r[k];
      }
    }
  }

  /** Puts one row into a sorted table. */
  function Insert(x: Row, rows: seq<Row>, count: Row -> int): (r: seq<Row>)
    requires SortedDesc(rows, count)
    ensures SortedDesc(r, count)
    ensures multiset(r) == multiset(rows) + multiset{x}
  {
    if rows == [] then [x]
    else
      SortedHeadBound(rows, count);
      assert rows == [rows[0]] + rows[1..];
      if count(x) >= count(rows[0]) then
        SortedCons(x, rows, count);
        [x] + rows
      else
        var tail := Insert(x, rows[1..], count);
        AtMostOfMultiset(count(rows[0]), tail, rows[1..], x, count);
        SortedCons(rows[0], tail, count);
        [rows[0]] + tail
  }

  /** `sort!` with a descending comparison of counts: the same rows, from the
      largest count to the smallest. */
  function SortDesc(rows: seq<Row>, count: Row -> int): (r: seq<Row>)
    ensures SortedDesc(r, count)
    ensures multiset(r) == multiset(rows)
  {
    if rows == [] then []
    else
      assert rows == [rows[0]] + rows[1..];
      Insert(rows[0], SortDesc(rows[1..], count), count)
  }

  // ---------------------------------------------------------------------------
  // uniq!(&:first)
  // ---------------------------------------------------------------------------

  /** The names that occur in a table. */
  function Keys(rows: seq<Row>): (ks: set<Cell>)
    ensures forall j :: 0 <= j < |rows| ==> Key(rows[j]) in ks
  {
    set j | 0 <= j < |rows| :: Key(rows[j])
  }

  /** One more row adds its name. */
  lemma KeysSnoc(rows: seq<Row>, y: Row)
    ensures Keys(rows + [y]) == Keys(rows) + {Key(y)}
  {
    var r := rows + [y];
    forall k | k in Keys(r) ensures k in Keys(rows) + {Key(y)} {
      var j :| 0 <= j < |r| && Key(r[j]) == k;
      if j < |rows| { assert r[j] == rows[j]; }
    }
    forall j | 0 <= j < |rows| ensures Key(rows[j]) in Keys(r) { assert r[j] == rows[j]; }
    assert r[|rows|] == y;
  }

  /** Where a name first occurs. */
  function FirstIndex(rows: seq<Row>, key: Cell): (i: nat)
    requires key in Keys(rows)
    ensures i < |rows| && Key(rows[i]) == key
    ensures forall j :: 0 <= j < i ==> Key(rows[j]) != key
  {
    var n := |rows| - 1;
    if key in Keys(rows[..n]) then
      var i := FirstIndex(rows[..n], key);
      assert rows[..n][i] == rows[i];
      assert forall j :: 0 <= j < i ==> rows[..n][j] == rows[j];
      i
    else
      assert forall j :: 0 <= j < n ==> rows[..n][j] == rows[j];
      n
  }

  /** `uniq!(&:first)`: the first row of every name, in table order. */
  function Uniq(rows: seq<Row>): seq<Row>
  {
    if rows == [] then []
    else
      var n := |rows| - 1;
      if Key(rows[n]) in Keys(rows[..n]) then Uniq(rows[..n]) else Uniq(rows[..n]) + [rows[n]]
  }

  /** Taking the last row off a table keeps the first occurrences of the names
      of the rest. */
  lemma FirstIndexOfPrefix(rows: seq<Row>, key: Cell)
    requires rows != [] && key in Keys(rows[..|rows| - 1])
    ensures key in Keys(rows) && FirstIndex(rows, key) == FirstIndex(rows[..|rows| - 1], key)
  {
    var n := |rows| - 1;
    var i := FirstIndex(rows[..n], key);
    assert rows[i] == rows[..n][i];
  }

  /** A name missing from the rest of the table first occurs in the last row. */
  lemma FirstIndexOfLast(rows: seq<Row>)
    requires rows != [] && Key(rows[|rows| - 1]) !in Keys(rows[..|rows| - 1])
    ensures FirstIndex(rows, Key(rows[|rows| - 1])) == |rows| - 1
  {
    var n := |rows| - 1;
    var i := FirstIndex(rows, Key(rows[n]));
    assert forall j :: 0 <= j < n ==> rows[..n][j] == rows[j];
  }

  /** `uniq!` keeps every name of the table and no other. */
  lemma {:induction false} UniqKeys(rows: seq<Row>)
    ensures Keys(Uniq(rows)) == Keys(rows)
  {
    if rows != [] {
      var n := |rows| - 1;
      UniqKeys(rows[..n]);
      assert rows == rows[..n] + [rows[n]];
      KeysSnoc(rows[..n], rows[n]);
      KeysSnoc(Uniq(rows[..n]), rows[n]);
    }
  }

  /** Each kept row is the first row of the table with its name. */
  lemma {:induction false} UniqFirst(rows: seq<Row>)
    ensures var u := Uniq(rows);
      forall i :: 0 <= i < |u| ==> Key(u[i]) in Keys(rows) && u[i] == rows[FirstIndex(rows, Key(u[i]))]
  {
    if rows != [] {
      var n := |rows| - 1;
      var front := rows[..n];
      var u0 := Uniq(front);
      var u := Uniq(rows);
      UniqFirst(front);
      UniqKeys(front);
      forall i | 0 <= i < |u0|
        ensures Key(u0[i]) in Keys(rows) && u0[i] == rows[FirstIndex(rows, Key(u0[i]))]
      {
        assert Key(u0[i]) in Keys(u0);
        FirstIndexOfPrefix(rows, Key(u0[i]));
        assert front[FirstIndex(front, Key(u0[i]))] == rows[FirstIndex(front, Key(u0[i]))];
      }
      if Key(rows[n]) !in Keys(front) {
        FirstIndexOfLast(rows);
        assert u == u0 + [rows[n]];
        forall i | 0 <= i < |u| ensures Key(u[i]) in Keys(rows) && u[i] == rows[FirstIndex(rows, Key(u[i]))] {
          if i < |u0| { assert u[i] == u0[i]; }
        }
      }
    }
  }

  /** A row kept from all but the last row keeps its first occurrence when
      the last row is added. */
  lemma UniqPrefixIndex(rows: seq<Row>, i: nat)
    requires rows != [] && i < |Uniq(rows[..|rows| - 1])|
    ensures var k := Key(Uniq(rows[..|rows| - 1])[i]);
      k in Keys(rows[..|rows| - 1]) && k in Keys(rows) &&
      FirstIndex(rows, k) == FirstIndex(rows[..|rows| - 1], k) < |rows| - 1
  {
    var front := rows[..|rows| - 1];
    UniqKeys(front);
    assert Key(Uniq(front)[i]) in Keys(Uniq(front));
    FirstIndexOfPrefix(rows, Key(Uniq(front)[i]));
  }

  /** Both rows' names occur in the table, the first row's name first. */
  ghost predicate FirstsInOrder(rows: seq<Row>, a: Row, b: Row)
  {
    Key(a) in Keys(rows) && Key(b) in Keys(rows) && FirstIndex(rows, Key(a)) < FirstIndex(rows, Key(b))
  }

  /** Kept rows come in the order their names first occur in the table. */
  lemma {:induction false} UniqOrder(rows: seq<Row>)
    ensures var u := Uniq(rows);
      forall i, j :: 0 <= i < j < |u| ==> FirstsInOrder(rows, u[i], u[j])
  {
    if rows != [] {
      var n := |rows| - 1;
      var front := rows[..n];
      var u0 := Uniq(front);
      var u := Uniq(rows);
      UniqOrder(front);
      assert u[..|u0|] == u0;
      forall i, j | 0 <= i < j < |u| ensures FirstsInOrder(rows, u[i], u[j]) {
        assert u[i] == u0[i];
        UniqPrefixIndex(rows, i);
        if j < |u0| {
          assert u[j] == u0[j];
          UniqPrefixIndex(rows, j);
          assert FirstsInOrder(front, u0[i], u0[j]);
        } else {
          assert u == u0 + [rows[n]] && Key(rows[n]) !in Keys(front);
          FirstIndexOfLast(rows);
        }
      }
    }
  }

  /** After `uniq!` no two rows share a name. */
  lemma UniqDistinct(rows: seq<Row>)
    ensures var u := Uniq(rows);
      forall i, j :: 0 <= i < j < |u| ==> Key(u[i]) != Key(u[j])
  {
    UniqOrder(rows);
  }

  // ---------------------------------------------------------------------------
  // What the script keeps
  // ---------------------------------------------------------------------------

  /** The rows after the header once sorted and made unique. */
  function SortedStats(rows: seq<Row>): seq<Row>
  {
    Uniq(SortDesc(rows, Watchers))
  }

  /** Rows with the same multiset are the same rows. */
  lemma SameRows(a: seq<Row>, b: seq<Row>, x: Row)
    requires multiset(a) == multiset(b)
    ensures x in a <==> x in b
  {
    assert x in a <==> x in multiset(a);
    assert x in b <==> x in multiset(b);
  }

  /** A reordering has the same names. */
  lemma KeysOfPermutation(a: seq<Row>, b: seq<Row>)
    requires multiset(a) == multiset(b)
    ensures Keys(a) == Keys(b)
  {
    forall k | k in Keys(a) ensures k in Keys(b) {
      var j :| 0 <= j < |a| && Key(a[j]) == k;
      SameRows(a, b, a[j]);
      var i :| 0 <= i < |b| && b[i] == a[j];
    }
    forall k | k in Keys(b) ensures k in Keys(a) {
      var j :| 0 <= j < |b| && Key(b[j]) == k;
      SameRows(a, b, b[j]);
      var i :| 0 <= i < |a| && a[i] == b[j];
    }
  }

  /** Made unique, a sorted table stays sorted. */
  lemma UniqSorted(sorted: seq<Row>, count: Row -> int)
    requires SortedDesc(sorted, count)
    ensures SortedDesc(Uniq(sorted), count)
  {
    var u := Uniq(sorted);
    UniqFirst(sorted);
    UniqOrder(sorted);
    forall i, j | 0 <= i < j < |u| ensures count(u[i]) >= count(u[j]) {
      assert u[i] == sorted[FirstIndex(sorted, Key(u[i]))];
      assert u[j] == sorted[FirstIndex(sorted, Key(u[j]))];
    }
  }

  /** Made unique, a sorted table keeps for each name a row with the largest
      count that name has. */
  lemma UniqKeepsMost(sorted: seq<Row>, count: Row -> int)
    requires SortedDesc(sorted, count)
    ensures var u := Uniq(sorted);
      forall i, x :: 0 <= i < |u| && x in sorted && Key(x) == Key(u[i]) ==> count(u[i]) >= count(x)
  {
    var u := Uniq(sorted);
    UniqFirst(sorted);
    forall i, x | 0 <= i < |u| && x in sorted && Key(x) == Key(u[i])
      ensures count(u[i]) >= count(x)
    {
      var f := FirstIndex(sorted, Key(u[i]));
      var j :| 0 <= j < |sorted| && sorted[j] == x;
      assert f <= j;
    }
  }

  /** For any order `sort!` may give rows with equal counts: the kept rows
      are still sorted, no name occurs twice, every name of the table is kept,
      every kept row is a row of the table, and each kept row has the largest
      count among the rows with its name. */
  lemma UniqOfSorted(rows: seq<Row>, sorted: seq<Row>, count: Row -> int)
    requires SortedDesc(sorted, count) && multiset(sorted) == multiset(rows)
    ensures var u := Uniq(sorted);
      && SortedDesc(u, count)
      && (forall i, j :: 0 <= i < j < |u| ==> Key(u[i]) != Key(u[j]))
      && Keys(u) == Keys(rows)
      && (forall i :: 0 <= i < |u| ==> u[i] in rows)
      && (forall i, x :: 0 <= i < |u| && x in rows && Key(x) == Key(u[i]) ==> count(u[i]) >= count(x))
  {
    var u := Uniq(sorted);
    UniqSorted(sorted, count);
    UniqDistinct(sorted);
    UniqKeys(sorted);
    KeysOfPermutation(sorted, rows);
    forall i | 0 <= i < |u| ensures u[i] in rows {
      UniqMember(sorted, i);
      SameRows(sorted, rows, u[i]);
    }
    UniqKeepsMost(sorted, count);
    forall i, x | 0 <= i < |u| && x in rows && Key(x) == Key(u[i])
      ensures count(u[i]) >= count(x)
    {
      SameRows(sorted, rows, x);
    }
  }

  /** A kept row is a row of the table. */
  lemma UniqMember(rows: seq<Row>, i: nat)
    requires i < |Uniq(rows)|
    ensures Uniq(rows)[i] in rows
  {
    UniqFirst(rows);
  }

  /** The script's rows after the header: sorted by watchers, one per name,
      every name kept, nothing that was not in the table, and each with the
      most watchers of its name. */
  lemma SortedStatsProperties(rows: seq<Row>)
    ensures var u := SortedStats(rows);
      && SortedDesc(u, Watchers)
      && (forall i, j :: 0 <= i < j < |u| ==> Key(u[i]) != Key(u[j]))
      && Keys(u) == Keys(rows)
      && (forall i :: 0 <= i < |u| ==> u[i] in rows)
      && (forall i, x :: 0 <= i < |u| && x in rows && Key(x) == Key(u[i]) ==> Watchers(u[i]) >= Watchers(x))
  {
    UniqOfSorted(rows, SortDesc(rows, Watchers), Watchers);
  }

  // ---------------------------------------------------------------------------
  // The script
  // ---------------------------------------------------------------------------

  /** The rows written one after the other, each by `to_csv`. */
  function CsvText(rows: seq<Row>, toCsv: Row -> string): string
  {
    if rows == [] then "" else CsvText(rows[..|rows| - 1], toCsv) + toCsv(rows[|rows| - 1])
  }

  /** What the script writes, or that it stops: on an empty file `shift`
      gives nil and `nil.to_csv` raises. */
  datatype Outcome = Written(csv: string) | NoMethodError

  /** `my_csv.each { |l| csv += l.to_csv }`: every row's line added to `csv`
      in table order. */
  method AppendLines(csv0: string, rows: seq<Row>, toCsv: Row -> string) returns (csv: string)
    ensures csv == csv0 + CsvText(rows, toCsv)
  {
    csv := csv0;
    for i := 0 to |rows|
      invariant csv == csv0 + CsvText(rows[..i], toCsv)
    {
      assert rows[..i + 1][..i] == rows[..i];
      csv := csv + toCsv(rows[i]);
    }
    assert rows[..|rows|] == rows;
  }

  /** The script's lines 10-18, with the file read and written by the caller
      and `Array#to_csv` given as `toCsv`. */
  method SortStatsByWatchers(table: seq<Row>, toCsv: Row -> string) returns (out: Outcome)
    ensures table == [] <==> out == NoMethodError
    ensures table != [] ==> out == Written(toCsv(table[0]) + CsvText(SortedStats(table[1..]), toCsv))
  {
    if |table| == 0 {
      return NoMethodError;
    }
    var myCsv := table;
    var headerRow := myCsv[0];
    myCsv := myCsv[1..];
    var csv := toCsv(headerRow);
    myCsv := SortDesc(myCsv, Watchers);
    myCsv := Uniq(myCsv);
    csv := AppendLines(csv, myCsv, toCsv);
    out := Written(csv);
  }

  /** Read from the front, the written rows come in table order: the first
      row's line first, then the rest. */
  lemma {:induction false} CsvTextCons(rows: seq<Row>, toCsv: Row -> string)
    requires rows != []
    ensures CsvText(rows, toCsv) == toCsv(rows[0]) + CsvText(rows[1..], toCsv)
  {
    var n := |rows| - 1;
    if n > 0 {
      CsvTextCons(rows[..n], toCsv);
      assert rows[..n][0] == rows[0];
      assert rows[..n][1..] == rows[1..][..n - 1];
    } else {
      assert rows[1..] == [] && rows[..n] == [];
    }
  }
}
