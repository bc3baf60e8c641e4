/**
  The `names` table: rows of (date, name), changed only by the locked
  sections of `/submit-name` and `/remove-name` and read by `/names`, the
  month view and the diagnostic state dump. Each locked section is one
  method. Queries carry no ORDER BY, so a lookup promises which names it
  returns and how often, never in which order.
 */
module NameTable {
  import opened Calendar
  import opened DateKey

  /** One row: (date key, name). */
  type Row = (string, string)

  /** The names stored under a date, with their multiplicity. */
  function NamesOn(rows: seq<Row>, date: string): multiset<string>
  {
    if rows == [] then multiset{}
    else
      var last := rows[|rows| - 1];
      NamesOn(rows[..|rows| - 1], date) + (if last.0 == date then multiset{last.1} else multiset{})
  }

  /** No (date, name) pair is stored twice. */
  predicate NoDuplicates(rows: seq<Row>)
  {
    forall r | r in rows :: multiset(rows)[r] <= 1
  }

  /** The rows after an insert that is skipped when an identical row exists. */
  function Added(rows: seq<Row>, row: Row): seq<Row>
  {
    if row in rows then rows else rows + [row]
  }

  /** The rows after deleting every row equal to row; the rest keep their order. */
  function Without(rows: seq<Row>, row: Row): seq<Row>
  {
    if rows == [] then []
    else if rows[0] == row then Without(rows[1..], row)
    else [rows[0]] + Without(rows[1..], row)
  }

  /** A lookup by date sees each name as often as its (date, name) row is stored. */
  lemma {:induction false} NamesOnCount(rows: seq<Row>, date: string, name: string)
    ensures NamesOn(rows, date)[name] == multiset(rows)[(date, name)]
  {
    if rows != [] {
      var init := rows[..|rows| - 1];
      assert rows == init + [rows[|rows| - 1]];
      NamesOnCount(init, date, name);
    }
  }

  /** Deleting removes every copy of the row and keeps every other row as often as before. */
  lemma {:induction false} WithoutCount(rows: seq<Row>, row: Row, r: Row)
    ensures multiset(Without(rows, row))[r] == if r == row then 0 else multiset(rows)[r]
  {
    if rows != [] {
      assert rows == [rows[0]] + rows[1..];
      WithoutCount(rows[1..], row, r);
    }
  }

  /** Deleting a row that is not stored changes nothing. */
  lemma {:induction false} WithoutAbsent(rows: seq<Row>, row: Row)
    requires row !in rows
    ensures Without(rows, row) == rows
  {
    if rows != [] {
      assert rows == [rows[0]] + rows[1..];
      WithoutAbsent(rows[1..], row);
    }
  }

  /** The insert keeps the table free of duplicate pairs. */
  lemma AddedKeepsNoDuplicates(rows: seq<Row>, row: Row)
    requires NoDuplicates(rows)
    ensures NoDuplicates(Added(rows, row))
  {
    forall r
      ensures multiset(Added(rows, row))[r] <= 1
    {
      if row !in rows {
        assert multiset(rows)[row] == 0;
      }
    }
  }

  /** The delete keeps the table free of duplicate pairs. */
  lemma WithoutKeepsNoDuplicates(rows: seq<Row>, row: Row)
    requires NoDuplicates(rows)
    ensures NoDuplicates(Without(rows, row))
  {
    forall r
      ensures multiset(Without(rows, row))[r] <= 1
    {
      WithoutCount(rows, row, r);
    }
  }

  /** Submitting the same pair twice leaves it stored exactly once. */
  lemma AddTwice(rows: seq<Row>, row: Row)
    requires multiset(rows)[row] <= 1
    ensures multiset(Added(Added(rows, row), row))[row] == 1
  {
    if row !in rows {
      assert multiset(rows)[row] == 0;
    }
  }

  /** What a lookup returns after an insert: the new name appears once unless it was already there. */
  lemma NamesAfterAdd(rows: seq<Row>, date: string, name: string, d: string, x: string)
    ensures NamesOn(Added(rows, (date, name)), d)[x]
            == if d == date && x == name && (date, name) !in rows then 1 else NamesOn(rows, d)[x]
  {
    NamesOnCount(rows, d, x);
    NamesOnCount(Added(rows, (date, name)), d, x);
    if (date, name) !in rows {
      assert multiset(rows)[(date, name)] == 0;
    }
  }

  /** What a lookup returns after a delete: that name is gone from that date, nothing else changes. */
  lemma NamesAfterRemove(rows: seq<Row>, date: string, name: string, d: string, x: string)
    ensures NamesOn(Without(rows, (date, name)), d)[x]
            == if d == date && x == name then 0 else NamesOn(rows, d)[x]
  {
    NamesOnCount(rows, d, x);
    NamesOnCount(Without(rows, (date, name)), d, x);
    WithoutCount(rows, (date, name), (d, x));
  }

  lemma NamesOnAppend(rows: seq<Row>, row: Row, date: string)
    ensures NamesOn(rows + [row], date)
            == NamesOn(rows, date) + (if row.0 == date then multiset{row.1} else multiset{})
  {
    assert (rows + [row])[..|rows|] == rows;
  }

  /** groups holds, for every date key after cutoff, the names stored under it in rows. */
  ghost predicate GroupsAfter(groups: map<string, seq<string>>, rows: seq<Row>, cutoff: string)
  {
    && (forall d :: d in groups <==> TextLess(cutoff, d) && NamesOn(rows, d) != multiset{})
    && (forall d :: d in groups ==> multiset(groups[d]) == NamesOn(rows, d))
  }

  /** One turn of printState's row loop, over row k, keeps the grouping exact. */
  lemma GroupStep(groups: map<string, seq<string>>, groups': map<string, seq<string>>,
                  rows: seq<Row>, k: nat, cutoff: string)
    requires k < |rows|
    requires GroupsAfter(groups, rows[..k], cutoff)
    requires groups' == if TextLess(cutoff, rows[k].0)
                        then groups[rows[k].0 := (if rows[k].0 in groups then groups[rows[k].0] else []) + [rows[k].1]]
                        else groups
    ensures GroupsAfter(groups', rows[..k + 1], cutoff)
  {
    var done, row, now := rows[..k], rows[k], rows[..k + 1];
    assert now == done + [row];
    forall d
      ensures d in groups' <==> TextLess(cutoff, d) && NamesOn(now, d) != multiset{}
      ensures d in groups' ==> multiset(groups'[d]) == NamesOn(now, d)
    {
      NamesOnAppend(done, row, d);
      if d == row.0 && TextLess(cutoff, d) {
        assert row.1 in NamesOn(now, d);
      }
    }
  }

  /**
    printState's filter `date > yesterday` keeps exactly the well-formed keys
    of today and later days (dates of four-digit years).
   */
  lemma SnapshotFromToday(today: Date, t: Date)
    requires IsValid(today) && 1 <= today.year <= 9999
    requires IsValid(t) && 0 <= t.year <= 9999
    ensures TextLess(Format(AddDate(today, 0, 0, -1)), Format(t))
            <==> DayNumber(today.year, today.month, today.day) <= DayNumber(t.year, t.month, t.day)
  {
    var yesterday := AddDate(today, 0, 0, -1);
    DayBefore(today);
    KeyOrder(yesterday, t);
  }

  /** The day before a date of year y lies in year y or y - 1. */
  lemma DayBefore(today: Date)
    requires IsValid(today)
    ensures var yesterday := AddDate(today, 0, 0, -1);
      && DayNumber(yesterday.year, yesterday.month, yesterday.day) + 1 == DayNumber(today.year, today.month, today.day)
      && today.year - 1 <= yesterday.year <= today.year
  {
    AddDays(today, -1);
    PreviousDayYear(AddDate(today, 0, 0, -1), today);
  }

  /** Of two consecutive valid dates, the earlier lies in the year of the later or the year before. */
  lemma PreviousDayYear(a: Date, b: Date)
    requires IsValid(a) && IsValid(b)
    requires DayNumber(a.year, a.month, a.day) + 1 == DayNumber(b.year, b.month, b.day)
    ensures b.year - 1 <= a.year <= b.year
  {
    DayNumberOrder(a, b);
    var yearBefore := Date(b.year - 1, 12, 31);
    DayWithinYear(b);
    YearLength(b.year - 1);
    DayNumberOrder(a, yearBefore);
  }

  class Table {
    var rows: seq<Row>

    /** The table as the database file holds it at start-up; CREATE TABLE IF NOT EXISTS keeps existing rows. */
    constructor (stored: seq<Row>)
      ensures rows == stored
    {
      rows := stored;
    }

    /** `/submit-name`: the EXISTS check and the INSERT, under one lock. */
    method Add(date: string, name: string)
      modifies this
      ensures rows == Added(old(rows), (date, name))
      ensures (date, name) in rows
      ensures NoDuplicates(old(rows)) ==> NoDuplicates(rows)
    {
      var present := (date, name) in rows;
      if !present {
        rows := rows + [(date, name)];
      }
      if NoDuplicates(old(rows)) {
        AddedKeepsNoDuplicates(old(rows), (date, name));
      }
    }

    /** `/remove-name`: DELETE every row with this date and name. */
    method Remove(date: string, name: string)
      modifies this
      ensures rows == Without(old(rows), (date, name))
      ensures forall r :: multiset(rows)[r] == if r == (date, name) then 0 else multiset(old(rows))[r]
      ensures (date, name) !in old(rows) ==> rows == old(rows)
      ensures NoDuplicates(old(rows)) ==> NoDuplicates(rows)
    {
      rows := Without(rows, (date, name));
      forall r
        ensures multiset(rows)[r] == if r == (date, name) then 0 else multiset(old(rows))[r]
      {
        WithoutCount(old(rows), (date, name), r);
      }
      if (date, name) !in old(rows) {
        WithoutAbsent(old(rows), (date, name));
      }
      if NoDuplicates(old(rows)) {
        WithoutKeepsNoDuplicates(old(rows), (date, name));
      }
    }

    /** `/names` and the month view's per-day query: the names stored under date. */
    method Names(date: string) returns (names: seq<string>)
      ensures multiset(names) == NamesOn(rows, date)
    {
      names := [];
      var i := 0;
      while i < |rows|
        invariant 0 <= i <= |rows|
        invariant multiset(names) == NamesOn(rows[..i], date)
      {
        if rows[i].0 == date {
          names := names + [rows[i].1];
        }
        assert rows[..i + 1][..i] == rows[..i];
        i := i + 1;
      }
      assert rows[..i] == rows;
    }

    /**
      The grouping loop of printState: the rows whose date key sorts after
      the key of yesterday, grouped by date.
     */
    method Snapshot(today: Date) returns (groups: map<string, seq<string>>)
      ensures forall d :: d in groups <==> TextLess(Format(AddDate(today, 0, 0, -1)), d) && NamesOn(rows, d) != multiset{}
      ensures forall d :: d in groups ==> multiset(groups[d]) == NamesOn(rows, d)
    {
      var cutoff := Format(AddDate(today, 0, 0, -1));
      groups := map[];
      var i := 0;
      assert rows[..0] == [];
      while i < |rows|
        invariant 0 <= i <= |rows|
        invariant GroupsAfter(groups, rows[..i], cutoff)
      {
        var date, name := rows[i].0, rows[i].1;
        ghost var before := groups;
        if TextLess(cutoff, date) {
          var sofar := if date in groups then groups[date] else [];
          groups := groups[date := sofar + [name]];
        }
        GroupStep(before, groups, rows, i, cutoff);
        i := i + 1;
      }
      assert rows[..i] == rows;
      assert GroupsAfter(groups, rows, cutoff);
    }
  }
}
